// The framed transport over a socket that cuts reads and writes as it likes.
module SocketTransport {
  import opened Common
  import opened Framing

  type Positive = x: int | x > 0 witness 1

  // What the operating system answers to one `read` or `write`.
  datatype ReadEvent = Deliver(most: Positive) | ReadError(code: Positive)
  datatype WriteEvent = Accept(most: nat) | WriteError(code: Positive)

  const EINTR := 4

  predicate Retryable(code: int) {
    code == EINTR || code == EAGAIN
  }

  ghost predicate NoReadErrors(events: seq<ReadEvent>) {
    forall e :: e in events ==> e.Deliver?
  }

  // How many bytes the socket will take before it fails for good; None if it never does.
  function Capacity(events: seq<WriteEvent>): Option<nat> {
    if events == [] then None
    else match events[0]
      case Accept(most) =>
        (match Capacity(events[1..])
         case None => None
         case Some(n) => Some(most + n))
      case WriteError(code) =>
        if Retryable(code) then Capacity(events[1..]) else Some(0)
  }

  function Min(a: nat, b: nat): nat {
    if a < b then a else b
  }

  // How many of `n` bytes get out: all of them, or as many as the socket has room for.
  function Written(events: seq<WriteEvent>, n: nat): (sent: nat)
    ensures sent <= n
    ensures Takes(events, n) <==> sent == n
  {
    match Capacity(events)
    case None => n
    case Some(room) => Min(room, n)
  }

  predicate Takes(events: seq<WriteEvent>, n: nat) {
    Capacity(events) == None || Capacity(events).value >= n
  }

  // What the script accepts up to its end, errors aside.
  function Accepted(events: seq<WriteEvent>): nat {
    if events == [] then 0
    else (if events[0].Accept? then events[0].most else 0) + Accepted(events[1..])
  }

  // Event `k` is the first error other than EINTR and EAGAIN.
  ghost predicate FailsAt(events: seq<WriteEvent>, k: nat) {
    && k < |events|
    && events[k].WriteError? && events[k].code != 4 && events[k].code != 11
    && forall j :: 0 <= j < k && events[j].WriteError? ==> events[j].code == 4 || events[j].code == 11
  }

  lemma FailsLater(events: seq<WriteEvent>, k: nat)
    requires events != [] && (events[0].WriteError? ==> events[0].code == 4 || events[0].code == 11)
    ensures FailsAt(events, k + 1) <==> FailsAt(events[1..], k)
  {
    var rest := events[1..];
    assert forall j :: 0 <= j < |rest| ==> rest[j] == events[j + 1];
    if FailsAt(rest, k) {
      assert events[k + 1] == rest[k];
      assert forall j :: 0 < j < |events| ==> events[j] == rest[j - 1];
    }
  }

  // A script that fails for good does so after what it accepted up to then.
  lemma {:induction false} CapacityIsAccepted(events: seq<WriteEvent>, k: nat)
    requires FailsAt(events, k)
    ensures Capacity(events) == Some(Accepted(events[..k]))
  {
    if k > 0 {
      FailsLater(events, k - 1);
      CapacityIsAccepted(events[1..], k - 1);
      assert events[..k][1..] == events[1..][..k - 1];
    }
  }

  lemma {:induction false} CapacityHasEnd(events: seq<WriteEvent>) returns (k: nat)
    requires Capacity(events) != None
    ensures FailsAt(events, k)
  {
    k := 0;
    if !FailsAt(events, 0) {
      var before := CapacityHasEnd(events[1..]);
      FailsLater(events, before);
      k := before + 1;
    }
  }

  // How a write of `n` bytes ends, by the script alone: it fails exactly when an error
  // other than 4 (EINTR) and 11 (EAGAIN) comes before `n` bytes were accepted, and then
  // exactly what was accepted up to the first such error has gone out.
  lemma WrittenByScript(events: seq<WriteEvent>, n: nat)
    ensures !Takes(events, n) <==> exists k: nat :: FailsAt(events, k) && Accepted(events[..k]) < n
    ensures forall k: nat :: FailsAt(events, k) && Accepted(events[..k]) < n ==>
      Written(events, n) == Accepted(events[..k])
    ensures Takes(events, n) ==> Written(events, n) == n
  {
    forall k: nat | FailsAt(events, k) ensures Capacity(events) == Some(Accepted(events[..k])) {
      CapacityIsAccepted(events, k);
    }
    if !Takes(events, n) {
      var k := CapacityHasEnd(events);
    }
  }

  // `inbound` holds the bytes that arrive before the peer closes; `wire` those that were
  // sent.  `readEvents` and `writeEvents` script the next calls: any mixture of short transfers,
  // zero writes and errors.  Past the end of a script a call transfers all it can, so a
  // script stands for every behaviour with finitely many calls that make no progress.
  // `polls` scripts `select`: true when data was there in time.
  class Socket {
    var inbound: seq<Byte>
    var wire: seq<Byte>
    var readEvents: seq<ReadEvent>
    var writeEvents: seq<WriteEvent>
    var polls: seq<bool>
    var errno: int

    constructor (inbound: seq<Byte>, readEvents: seq<ReadEvent>, writeEvents: seq<WriteEvent>, polls: seq<bool>)
      ensures this.inbound == inbound && wire == []
      ensures this.readEvents == readEvents && this.writeEvents == writeEvents && this.polls == polls
    {
      this.inbound, this.wire, this.errno := inbound, [], 0;
      this.readEvents, this.writeEvents, this.polls := readEvents, writeEvents, polls;
    }

    method Select() returns (ready: bool)
      modifies this`polls
      ensures ready == (old(polls) == [] || old(polls)[0])
      ensures polls == if old(polls) == [] then [] else old(polls)[1..]
    {
      ready := true;
      if polls != [] {
        ready, polls := polls[0], polls[1..];
      }
    }

    method Read(len: nat) returns (ret: int, data: seq<Byte>)
      requires len > 0
      modifies this`inbound, this`readEvents, this`errno
      ensures ret == -1 || ret == |data|
      ensures readEvents == if old(readEvents) == [] then [] else old(readEvents)[1..]
      ensures ret == -1 <==> old(readEvents) != [] && old(readEvents)[0].ReadError?
      ensures ret == -1 ==> errno == old(readEvents)[0].code && inbound == old(inbound)
      ensures ret >= 0 ==> |data| <= len && old(inbound) == data + inbound
      ensures ret == 0 ==> inbound == []
    {
      var most := len;
      if readEvents != [] {
        var e := readEvents[0];
        readEvents := readEvents[1..];
        if e.ReadError? {
          errno := e.code;
          return -1, [];
        }
        most := e.most;
      }
      var n := Min(Min(most, len), |inbound|);
      data := inbound[..n];
      inbound := inbound[n..];
      ret := n;
    }

    method Write(data: seq<Byte>) returns (ret: int)
      requires data != []
      modifies this`wire, this`writeEvents, this`errno
      ensures -1 <= ret <= |data|
      ensures wire == old(wire) + if ret > 0 then data[..ret] else []
      ensures old(writeEvents) == [] ==> ret == |data| && writeEvents == []
      ensures old(writeEvents) != [] ==> writeEvents == old(writeEvents)[1..] && match old(writeEvents)[0]
        case Accept(most) => ret == Min(most, |data|)
        case WriteError(code) => ret == -1 && errno == code
    {
      var most := |data|;
      if writeEvents != [] {
        var e := writeEvents[0];
        writeEvents := writeEvents[1..];
        if e.WriteError? {
          errno := e.code;
          return -1;
        }
        most := e.most;
      }
      ret := Min(most, |data|);
      wire := wire + data[..ret];
    }
  }

  method Store(buf: array<Byte>, at: nat, data: seq<Byte>)
    requires at + |data| <= buf.Length
    modifies buf
    ensures buf[..at + |data|] == old(buf[..at]) + data
  {
    forall i | 0 <= i < |data| {
      buf[at + i] := data[i];
    }
  }

  // `after` is what is left of `before` once fewer than `bound` bytes were consumed.
  ghost predicate Consumed(before: seq<Byte>, after: seq<Byte>, bound: nat) {
    |after| <= |before| < |after| + bound && after == before[|before| - |after|..]
  }

  // Why a read fails: the stream has ended, or one of the calls reported an error.
  ghost predicate FailsWith(events: seq<ReadEvent>, rest: seq<Byte>, code: int) {
    || (code == IO4E_ERR_CONNECTION_CLOSED && rest == [])
    || (exists e :: e in events && e.ReadError? && e.code == code)
  }

  // Fills `buf`, however the socket cuts the data.
  method ReadComplete(sock: Socket, buf: array<Byte>) returns (ret: int)
    modifies sock`inbound, sock`readEvents, sock`errno, buf
    ensures ret == IO4E_OK ==> old(sock.inbound) == buf[..] + sock.inbound
    ensures ret != IO4E_OK ==> Consumed(old(sock.inbound), sock.inbound, buf.Length)
    ensures ret != IO4E_OK ==> FailsWith(old(sock.readEvents), sock.inbound, ret)
    ensures forall e :: e in sock.readEvents ==> e in old(sock.readEvents)
  {
    var at := 0;
    while at < buf.Length
      invariant 0 <= at <= buf.Length
      invariant old(sock.inbound) == buf[..at] + sock.inbound
      invariant forall e :: e in sock.readEvents ==> e in old(sock.readEvents)
    {
      ghost var left := sock.inbound;
      assert old(sock.inbound)[at..] == left;
      var n, data := sock.Read(buf.Length - at);
      if n == 0 {
        return IO4E_ERR_CONNECTION_CLOSED;
      }
      if n < 0 {
        return sock.errno;
      }
      assert old(sock.inbound) == buf[..at] + data + sock.inbound;
      Store(buf, at, data);
      at := at + n;
    }
    assert buf[..at] == buf[..];
    return IO4E_OK;
  }

  // A buffer pointer as `read_msg` hands it out: NULL stands for no bytes.
  ghost function BytesOf(buf: array?<Byte>): seq<Byte>
    reads buf
  {
    if buf == null then [] else buf[..]
  }

  ghost predicate HeaderFails(bytes: seq<Byte>, rest: seq<Byte>, events: seq<ReadEvent>, err: int) {
    && Consumed(bytes, rest, HEADER_SIZE)
    && if err == IO4E_ERR_TIMEOUT
       then FailsWith(events, rest, EAGAIN) || FailsWith(events, rest, IO4E_ERR_TIMEOUT)
       else err != EAGAIN && FailsWith(events, rest, err)
  }

  ghost predicate PayloadFails(bytes: seq<Byte>, rest: seq<Byte>, events: seq<ReadEvent>, err: int) {
    && |bytes| >= HEADER_SIZE && bytes[..2] == MAGIC
    && Consumed(bytes[HEADER_SIZE..], rest, DecodeLength(bytes[2..HEADER_SIZE]))
    && FailsWith(events, rest, err)
  }

  predicate Ready(polls: seq<bool>) {
    polls == [] || polls[0]
  }

  method ReadMsg(sock: Socket) returns (err: int, buf: array?<Byte>, len: nat)
    modifies sock`inbound, sock`readEvents, sock`errno, sock`polls
    ensures sock.polls == if old(sock.polls) == [] then [] else old(sock.polls)[1..]
    ensures forall e :: e in sock.readEvents ==> e in old(sock.readEvents)
    ensures buf != null ==> fresh(buf) && err == IO4E_OK
    // No data in time: nothing is consumed.
    ensures !Ready(old(sock.polls)) ==> err == IO4E_ERR_TIMEOUT && sock.inbound == old(sock.inbound)
    // A message: header and payload are consumed, and the payload is NULL exactly when empty.
    ensures err == IO4E_OK ==> ParseFrame(old(sock.inbound)) == Message(BytesOf(buf), sock.inbound)
    ensures err == IO4E_OK ==> |old(sock.inbound)| == HEADER_SIZE + len + |sock.inbound|
    ensures err == IO4E_OK ==> (buf == null <==> len == 0)
    // Wrong magic bytes: exactly the header is consumed.
    ensures err == IO4E_FAIL ==> ParseFrame(old(sock.inbound)) == BadMagic(sock.inbound)
    // A failing read: in the header, where EAGAIN counts as a timeout, or in the payload,
    // where its code is passed on; what was consumed up to then is gone.
    ensures Ready(old(sock.polls)) && err != IO4E_OK && err != IO4E_FAIL ==>
      HeaderFails(old(sock.inbound), sock.inbound, old(sock.readEvents), err)
      || PayloadFails(old(sock.inbound), sock.inbound, old(sock.readEvents), err)
    // Without read errors the outcome depends on the bytes only, not on how they were cut.
    ensures Ready(old(sock.polls)) && NoReadErrors(old(sock.readEvents)) ==> match ParseFrame(old(sock.inbound))
      case Message(_, _) => err == IO4E_OK
      case BadMagic(_) => err == IO4E_FAIL
      case Truncated => err == IO4E_ERR_CONNECTION_CLOSED && sock.inbound == []
  {
    buf, len := null, 0;
    var ready := sock.Select();
    if !ready {
      return IO4E_ERR_TIMEOUT, null, 0;
    }

    ghost var bytes := sock.inbound;
    var hdr := new Byte[HEADER_SIZE];
    var ret := ReadComplete(sock, hdr);
    if ret == IO4E_ERR_CONNECTION_CLOSED {
      return IO4E_ERR_CONNECTION_CLOSED, null, 0;
    }
    if ret == EAGAIN {
      return IO4E_ERR_TIMEOUT, null, 0;
    }
    if ret != IO4E_OK {
      return ret, null, 0;
    }
    assert bytes[..2] == hdr[..2] && bytes[2..HEADER_SIZE] == hdr[2..] && bytes[HEADER_SIZE..] == sock.inbound;

    if hdr[..2] != MAGIC {
      return IO4E_FAIL, null, 0;
    }

    len := DecodeLength(hdr[2..]);
    if len > 0 {
      ghost var body := sock.inbound;
      var payload := new Byte[len];
      ret := ReadComplete(sock, payload);
      if ret != IO4E_OK {
        return ret, null, 0;
      }
      assert body[..len] == payload[..] && body[len..] == sock.inbound;
      assert bytes[HEADER_SIZE..HEADER_SIZE + len] == body[..len];
      assert bytes[HEADER_SIZE + len..] == body[len..];
      buf := payload;
    }
    return IO4E_OK, buf, len;
  }

  lemma CapacityShrinks(events: seq<WriteEvent>, n: nat)
    requires events != []
    ensures events[0].Accept? ==>
      var taken := Min(events[0].most, n);
      && (Takes(events, n) <==> Takes(events[1..], n - taken))
      && Written(events, n) == taken + Written(events[1..], n - taken)
    ensures events[0].WriteError? && Retryable(events[0].code) ==>
      (Takes(events, n) <==> Takes(events[1..], n)) && Written(events, n) == Written(events[1..], n)
    ensures events[0].WriteError? && !Retryable(events[0].code) ==>
      (Takes(events, n) <==> n == 0) && Written(events, n) == 0
  {
  }

  // The loop of `write_msg`: everything in `buf` goes out, or, on failure, as much of it as
  // the socket has room for.
  method WriteComplete(sock: Socket, buf: array<Byte>) returns (err: int)
    modifies sock`wire, sock`writeEvents, sock`errno
    ensures err == if Takes(old(sock.writeEvents), buf.Length) then IO4E_OK else IO4E_FAIL
    ensures sock.wire == old(sock.wire) + buf[..Written(old(sock.writeEvents), buf.Length)]
    // The same from the script alone.
    ensures err == IO4E_OK ==> sock.wire == old(sock.wire) + buf[..]
    ensures err != IO4E_OK <==>
      exists k: nat :: FailsAt(old(sock.writeEvents), k) && Accepted(old(sock.writeEvents)[..k]) < buf.Length
    ensures forall k: nat ::
      FailsAt(old(sock.writeEvents), k) && Accepted(old(sock.writeEvents)[..k]) < buf.Length ==>
        sock.wire == old(sock.wire) + buf[..Accepted(old(sock.writeEvents)[..k])]
    ensures Capacity(old(sock.writeEvents)) == None ==> Capacity(sock.writeEvents) == None
  {
    WrittenByScript(sock.writeEvents, buf.Length);
    assert buf[..buf.Length] == buf[..];
    var at := 0;
    while at < buf.Length
      invariant 0 <= at <= buf.Length
      invariant sock.wire == old(sock.wire) + buf[..at]
      invariant Takes(old(sock.writeEvents), buf.Length) <==> Takes(sock.writeEvents, buf.Length - at)
      invariant Written(old(sock.writeEvents), buf.Length) == at + Written(sock.writeEvents, buf.Length - at)
      invariant Capacity(old(sock.writeEvents)) == None ==> Capacity(sock.writeEvents) == None
      decreases |sock.writeEvents|, buf.Length - at
    {
      if sock.writeEvents != [] {
        CapacityShrinks(sock.writeEvents, buf.Length - at);
      }
      var ret := sock.Write(buf[at..]);
      if ret < 0 {
        assert sock.wire == old(sock.wire) + buf[..at];
        if !Retryable(sock.errno) {
          return IO4E_FAIL;
        }
        ret := 0;
      }
      assert buf[..at] + buf[at..][..ret] == buf[..at + ret];
      at := at + ret;
    }
    return IO4E_OK;
  }

  // `buf` leaves room for the header in front of the payload.  Whatever the socket
  // accepts at a time, the wire gets the frame or, on failure, just the part that the
  // socket had room for; it fails exactly when that is not the whole frame.
  method WriteMsg(sock: Socket, buf: array<Byte>) returns (err: int)
    requires buf.Length < TWO_32
    modifies sock`wire, sock`writeEvents, sock`errno, buf
    ensures buf.Length < HEADER_SIZE ==> err == IO4E_FAIL && sock.wire == old(sock.wire) && buf[..] == old(buf[..])
    ensures buf.Length >= HEADER_SIZE ==>
      && buf[..] == Frame(old(buf[HEADER_SIZE..]))
      && err == (if Takes(old(sock.writeEvents), buf.Length) then IO4E_OK else IO4E_FAIL)
      && sock.wire == old(sock.wire) + buf[..Written(old(sock.writeEvents), buf.Length)]
      && (err == IO4E_OK <==> Written(old(sock.writeEvents), buf.Length) == buf.Length)
    ensures Capacity(old(sock.writeEvents)) == None ==> Capacity(sock.writeEvents) == None
  {
    if buf.Length < HEADER_SIZE {
      return IO4E_FAIL;
    }
    var payloadLen := buf.Length - HEADER_SIZE;
    buf[0], buf[1] := MAGIC[0], MAGIC[1];
    var length := EncodeLength(payloadLen);
    buf[2], buf[3], buf[4], buf[5] := length[0], length[1], length[2], length[3];
    assert buf[..] == Frame(old(buf[HEADER_SIZE..]));
    err := WriteComplete(sock, buf);
  }

  // Repeated reads of messages, as the reader thread performs them: a timeout of the
  // poll is followed by another attempt.
  method ReadMessages(sock: Socket, ghost payloads: seq<seq<Byte>>, ghost tail: seq<Byte>, count: nat)
    returns (received: seq<seq<Byte>>)
    requires Transmittable(payloads) && |payloads| == count
    requires sock.inbound == Frames(payloads) + tail && NoReadErrors(sock.readEvents)
    modifies sock`inbound, sock`readEvents, sock`errno, sock`polls
    ensures received == payloads
    ensures sock.inbound == tail
  {
    received := [];
    assert payloads[0..] == payloads;
    while |received| < count
      invariant |received| <= count && received == payloads[..|received|]
      invariant sock.inbound == Frames(payloads[|received|..]) + tail
      invariant NoReadErrors(sock.readEvents)
      decreases count - |received|, |sock.polls|
    {
      ghost var k := |received|;
      NextFrame(payloads, k, tail);
      var err, buf, len := ReadMsg(sock);
      if err == IO4E_OK {
        assert payloads[..k + 1] == payloads[..k] + [payloads[k]];
        received := received + [if buf == null then [] else buf[..]];
      }
    }
  }

  // The whole way: payloads framed by repeated writes into a socket that accepts them in
  // pieces arrive, cut into arbitrary reads, as exactly those payloads.
  method Transfer(payloads: seq<seq<Byte>>, writeEvents: seq<WriteEvent>, readEvents: seq<ReadEvent>, polls: seq<bool>)
    returns (received: seq<seq<Byte>>)
    requires Transmittable(payloads)
    requires forall p :: p in payloads ==> HEADER_SIZE + |p| < TWO_32
    requires Capacity(writeEvents) == None && NoReadErrors(readEvents)
    ensures received == payloads
  {
    var sender := new Socket([], [], writeEvents, []);
    for i := 0 to |payloads|
      invariant sender.wire == Frames(payloads[..i])
      invariant Capacity(sender.writeEvents) == None
    {
      var buf := new Byte[HEADER_SIZE + |payloads[i]|];
      Store(buf, HEADER_SIZE, payloads[i]);
      assert buf[HEADER_SIZE..] == payloads[i] by {
        assert buf[..HEADER_SIZE + |payloads[i]|][HEADER_SIZE..] == payloads[i];
      }
      var err := WriteMsg(sender, buf);
      FramesAppend(payloads[..i], payloads[i]);
      assert payloads[..i + 1] == payloads[..i] + [payloads[i]];
    }
    assert payloads[..|payloads|] == payloads;
    assert sender.wire == Frames(payloads) + [];
    var receiver := new Socket(sender.wire, readEvents, [], polls);
    received := ReadMessages(receiver, payloads, [], |payloads|);
  }
}
