// The client object: `command`, the body of the reader thread, and `read_stream`, over
// the socket and the stream queue.  A ghost state of `Protocol` runs alongside, so that
// what is proved about the runs of the protocol holds for the object.
module Client {
  import opened Common
  import opened Context
  import opened Framing
  import opened SocketTransport
  import opened Streamq
  import opened Protocol
  import opened Pairing
  import opened Fidelity

  const CONFIG_STREAMQ_CAPACITY := 100

  // --- What the reader thread makes of one message -----------------------------------

  ghost predicate Echoed(s: State, m: Msg) {
    m.Response? ==> Echo(s, m.reply)
  }

  ghost predicate AllEchoed(s: State, ms: seq<Msg>) {
    forall m :: m in ms ==> Echoed(s, m)
  }

  function Last(replies: seq<Reply>, before: Option<Reply>): Option<Reply> {
    if replies == [] then before else Some(replies[|replies| - 1])
  }

  // What a bounded queue holds after it was offered `data`: what did not fit is gone.
  function Clipped(queue: seq<Data>, data: seq<Data>, capacity: nat): seq<Data> {
    if |queue + data| <= capacity then queue + data else (queue + data)[..capacity]
  }

  // From `before` to `after` the reader has handled the messages `ms`, starting and ending
  // with nothing in hand: the last response is in the slot, every response has posted a
  // token, and the stream messages that fit are queued.
  ghost predicate Handled(before: State, after: State, ms: seq<Msg>) {
    && after.context == before.context && after.cmd == before.cmd
    && after.sends == before.sends && after.outcomes == before.outcomes && after.taken == before.taken
    && after.capacity == before.capacity
    && after.reader.Reading? && after.wire == []
    && after.handled == before.handled + ms
    && after.slot == Last(Replies(ms), before.slot)
    && after.sem == before.sem + |Replies(ms)|
    && after.queue == Clipped(before.queue, StreamData(ms), before.capacity)
  }

  lemma ClippedExtends(queue: seq<Data>, data: seq<Data>, more: seq<Data>, capacity: nat)
    requires |queue| <= capacity
    ensures Clipped(Clipped(queue, data, capacity), more, capacity) == Clipped(queue, data + more, capacity)
  {
    assert queue + (data + more) == queue + data + more;
  }

  lemma HandledExtends(before: State, middle: State, after: State, ms: seq<Msg>, m: Msg)
    requires Handled(before, middle, ms) && Handled(middle, after, [m])
    requires |before.queue| <= before.capacity
    ensures Handled(before, after, ms + [m])
  {
    OneMoreMessage(ms, m);
    assert before.handled + ms + [m] == before.handled + (ms + [m]);
    ClippedExtends(before.queue, StreamData(ms), StreamData([m]), before.capacity);
  }

  lemma HandledNothing(s: State, ms: seq<Msg>)
    requires ms == [] && s.reader.Reading? && s.wire == [] && |s.queue| <= s.capacity
    ensures Handled(s, s, ms) && AllEchoed(s, ms)
  {
  }

  lemma HandledOneMore(before: State, middle: State, after: State, ms: seq<Msg>, i: nat)
    requires i < |ms| && |before.queue| <= before.capacity
    requires Handled(before, middle, ms[..i]) && Handled(middle, after, [ms[i]])
    ensures Handled(before, after, ms[..i + 1])
    ensures AllEchoed(before, ms[..i + 1]) <==> AllEchoed(before, ms[..i]) && Echoed(middle, ms[i])
  {
    HandledExtends(before, middle, after, ms[..i], ms[i]);
    assert ms[..i + 1] == ms[..i] + [ms[i]];
    assert Echoed(middle, ms[i]) == Echoed(before, ms[i]);
  }

  lemma ResponseSteps(s: State, reply: Reply, rule: Rule) returns (s': State)
    requires Reachable(s, rule) && s.reader.Reading? && s.wire == [] && |s.queue| <= s.capacity
    requires rule(s, Emit(Response(reply))) && forall t: State, l: Label :: !l.Emit? ==> rule(t, l)
    ensures Reachable(s', rule) && Handled(s, s', [Response(reply)])
  {
    OneMoreMessage([], Response(reply));
    var emitted := Apply(s, Emit(Response(reply)));
    StepIsReachable(s, Emit(Response(reply)), rule);
    var received := Apply(emitted, ReaderRead);
    StepIsReachable(emitted, ReaderRead, rule);
    var stored := Apply(received, ReaderStore);
    StepIsReachable(received, ReaderStore, rule);
    StepIsReachable(stored, ReaderPost, rule);
    s' := Apply(stored, ReaderPost);
  }

  lemma StreamSteps(s: State, data: Data, rule: Rule) returns (s': State)
    requires Reachable(s, rule) && s.reader.Reading? && s.wire == [] && |s.queue| <= s.capacity
    requires rule(s, Emit(Stream(data))) && forall t: State, l: Label :: !l.Emit? ==> rule(t, l)
    ensures Reachable(s', rule) && Handled(s, s', [Stream(data)])
  {
    OneMoreMessage([], Stream(data));
    var emitted := Apply(s, Emit(Stream(data)));
    StepIsReachable(s, Emit(Stream(data)), rule);
    var received := Apply(emitted, ReaderRead);
    StepIsReachable(emitted, ReaderRead, rule);
    var push := if |s.queue| < s.capacity then ReaderPush else ReaderGiveUp;
    StepIsReachable(received, push, rule);
    s' := Apply(received, push);
  }

  // The steps the reader takes for a message that the device puts on an empty wire.
  lemma HandleSteps(s: State, m: Msg, rule: Rule) returns (s': State)
    requires Reachable(s, rule) && s.reader.Reading? && s.wire == [] && |s.queue| <= s.capacity
    requires rule(s, Emit(m)) && forall t: State, l: Label :: !l.Emit? ==> rule(t, l)
    ensures Reachable(s', rule) && Handled(s, s', [m])
  {
    match m
    case Response(reply) => s' := ResponseSteps(s, reply, rule);
    case Stream(data) => s' := StreamSteps(s, data, rule);
    case Garbage =>
      OneMoreMessage([], m);
      StepIsReachable(s, Emit(m), rule);
      s' := Apply(s, Emit(m));
      StepIsReachable(s', ReaderRead, rule);
      s' := Apply(s', ReaderRead);
  }

  // Which runs the object's ghost state is known to follow.
  ghost function RuleOf(echoing: bool): Rule {
    if echoing then Echoing else AnyStep
  }

  class Client {
    var cmdContext: Byte
    var cmdResponse: Option<Reply>
    var cmdSem: nat
    const streamq: Streamq<Data>
    ghost var model: State
    ghost var echoing: bool   // so far every response echoed a command's context

    // The object agrees with its ghost state, which some run of the protocol reaches.
    ghost predicate Valid()
      reads this, streamq, streamq.msg
    {
      && streamq.Valid()
      && model.context == cmdContext && model.slot == cmdResponse && model.sem == cmdSem
      && model.queue == streamq.Contents() && model.capacity == streamq.msg.Length
      && model.reader.Reading? && model.wire == []
      && Reachable(model, RuleOf(echoing))
    }

    constructor ()
      ensures Valid() && fresh(streamq) && fresh(streamq.msg)
      ensures cmdContext == 65 && cmdResponse == None && cmdSem == 0
      ensures streamq.Contents() == [] && streamq.msg.Length == 100
      ensures model == Initial(CONFIG_STREAMQ_CAPACITY) && echoing
    {
      cmdContext, cmdResponse, cmdSem := CONTEXT_A, None, 0;
      streamq := new Streamq(CONFIG_STREAMQ_CAPACITY);
      model, echoing := Initial(CONFIG_STREAMQ_CAPACITY), true;
      InitialIsReachable(CONFIG_STREAMQ_CAPACITY, Echoing);
    }

    ghost method Step(l: Label)
      requires Reachable(model, RuleOf(echoing)) && Enabled(model, l) && !l.Emit?
      modifies this`model
      ensures model == Apply(old(model), l) && Reachable(model, RuleOf(echoing))
    {
      StepIsReachable(model, l, RuleOf(echoing));
      model := Apply(model, l);
    }

    // The reader thread's dispatch on an unpacked message.  A push whose timeout of
    // centuries ends drops the message.
    method Dispatch(m: Msg)
      requires streamq.Valid()
      modifies this`cmdResponse, this`cmdSem, streamq, streamq.msg
      ensures streamq.Valid()
      ensures streamq.Contents() == Clipped(old(streamq.Contents()), StreamData([m]), streamq.msg.Length)
      ensures cmdResponse == Last(Replies([m]), old(cmdResponse))
      ensures cmdSem == old(cmdSem) + |Replies([m])|
    {
      OneMoreMessage([], m);
      match m {
        case Stream(data) =>
          var err := streamq.Push(data);
        case Response(reply) =>
          cmdResponse := Some(reply);
          cmdSem := cmdSem + 1;
        case Garbage =>
      }
    }

    method HandleMessage(m: Msg)
      requires Valid()
      modifies this`cmdResponse, this`cmdSem, this`model, this`echoing, streamq, streamq.msg
      ensures Valid()
      ensures Handled(old(model), model, [m])
      ensures echoing == (old(echoing) && Echoed(old(model), m))
    {
      if echoing && !Echoed(model, m) {
        ReachableWeakens(model, Echoing, AnyStep);
      }
      echoing := echoing && Echoed(model, m);
      ghost var next := HandleSteps(model, m, RuleOf(echoing));
      Dispatch(m);
      model := next;
    }

    // What the reader thread does while a command waits.
    method HandleMessages(ms: seq<Msg>)
      requires Valid()
      modifies this`cmdResponse, this`cmdSem, this`model, this`echoing, streamq, streamq.msg
      ensures Valid()
      ensures Handled(old(model), model, ms)
      ensures echoing == (old(echoing) && AllEchoed(old(model), ms))
    {
      HandledNothing(model, ms[..0]);
      for i := 0 to |ms|
        invariant Valid()
        invariant Handled(old(model), model, ms[..i])
        invariant echoing == (old(echoing) && AllEchoed(old(model), ms[..i]))
      {
        ghost var middle := model;
        HandleMessage(ms[i]);
        HandledOneMore(old(model), middle, model, ms, i);
      }
      assert ms[..|ms|] == ms;
    }

    // The payload goes out behind a header that `write_msg` fills in.
    method Send(sock: Socket, payload: seq<Byte>) returns (err: int)
      requires |Frame(payload)| < TWO_32
      modifies sock`wire, sock`writeEvents, sock`errno
      ensures err == if Takes(old(sock.writeEvents), |Frame(payload)|) then IO4E_OK else IO4E_FAIL
      ensures sock.wire == old(sock.wire) + Frame(payload)[..Written(old(sock.writeEvents), |Frame(payload)|)]
    {
      var buf := new Byte[HEADER_SIZE + |payload|];
      Store(buf, HEADER_SIZE, payload);
      assert buf[HEADER_SIZE..] == buf[..HEADER_SIZE + |payload|][HEADER_SIZE..] == payload;
      err := WriteMsg(sock, buf);
    }

    // One command.  `pack` marshals it for a context.  `during` is what the reader thread
    // handles while the command waits for a token, `between` what it handles after the
    // wake-up and before the slot is read; the wait times out when `during` brings no token
    // and none was left.
    method Command(sock: Socket, pack: Byte -> seq<Byte>, during: seq<Msg>, between: seq<Msg>, wanted: bool)
      returns (err: int, res: Option<Reply>)
      requires Valid() && model.cmd.Idle?
      requires forall b: Byte :: |Frame(pack(b))| < TWO_32
      modifies this`cmdContext, this`cmdResponse, this`cmdSem, this`model, this`echoing, streamq, streamq.msg
      modifies sock`wire, sock`writeEvents, sock`errno
      ensures Valid() && model.cmd.Idle?
      // What was sent.
      ensures var sent := Increment(old(cmdContext));
        var frame := Frame(pack(sent));
        && model.sends == old(model.sends) + [sent]
        && sock.wire == old(sock.wire) + frame[..Written(old(sock.writeEvents), |frame|)]
      // How it ended, and what it left behind.
      ensures var sent := Increment(old(cmdContext));
        var tokens := old(cmdSem) + |Replies(during)|;
        var found := Last(Replies(between), Last(Replies(during), old(cmdResponse)));
        if !Takes(old(sock.writeEvents), |Frame(pack(sent))|) then
          && err == IO4E_FAIL && res == None && cmdContext == sent
          && cmdSem == old(cmdSem) && cmdResponse == old(cmdResponse)
          && model.outcomes == old(model.outcomes) + [WriteFailed]
          && model.handled == old(model.handled)
        else if tokens == 0 then
          && err == IO4E_ERR_TIMEOUT && res == None && cmdContext == sent
          && cmdSem == 0 && cmdResponse == old(cmdResponse)
          && model.outcomes == old(model.outcomes) + [TimedOut]
          && model.handled == old(model.handled) + during
        else
          var matched := found.Some? && found.value.context == if sent == 0 then [] else [sent];
          && err == (if matched then found.value.code else IO4E_FAIL)
          && res == (if matched && err == IO4E_OK && wanted then found else None)
          && cmdContext == (if matched then Advance(sent) else sent)
          && cmdSem == tokens - 1 + |Replies(between)| && cmdResponse == None
          && model.outcomes == old(model.outcomes) + [OutcomeOf(sent, found)]
          && model.handled == old(model.handled) + during + between
      ensures old(echoing) && AllEchoed(model, during) && AllEchoed(model, between) ==> echoing
      // A response that is accepted from an echoing device is the command's own, or at
      // least 13 commands old; a command that succeeds has accepted one.
      ensures var n := |old(model.outcomes)|;
        echoing && model.outcomes[n].Matched? ==>
          model.outcomes[n].reply.answers == n || n - model.outcomes[n].reply.answers >= 13
      ensures var n := |old(model.outcomes)|;
        var found := Last(Replies(between), Last(Replies(during), old(cmdResponse)));
        echoing && err == IO4E_OK ==>
          found.Some? && (found.value.answers == n || n - found.value.answers >= 13)
    {
      res := None;
      cmdContext := Increment(cmdContext);
      var sent := cmdContext;
      err := Send(sock, pack(sent));
      Step(CmdStart(err == IO4E_OK));
      if err == IO4E_OK {
        err, res := AwaitResponse(during, between, wanted);
      }
      if echoing && model.outcomes[|old(model.outcomes)|].Matched? {
        MispairingSpansThirteen(model, |old(model.outcomes)|);
      }
    }

    // The rest of `command` once its write has succeeded.
    method AwaitResponse(during: seq<Msg>, between: seq<Msg>, wanted: bool) returns (err: int, res: Option<Reply>)
      requires Valid() && model.cmd.Waiting?
      modifies this`cmdContext, this`cmdResponse, this`cmdSem, this`model, this`echoing, streamq, streamq.msg
      ensures Valid() && model.cmd.Idle? && model.sends == old(model.sends)
      ensures old(echoing) && AllEchoed(model, during) && AllEchoed(model, between) ==> echoing
      ensures var sent := old(cmdContext);
        var tokens := old(cmdSem) + |Replies(during)|;
        var found := Last(Replies(between), Last(Replies(during), old(cmdResponse)));
        if tokens == 0 then
          && err == IO4E_ERR_TIMEOUT && res == None && cmdContext == sent
          && cmdSem == 0 && cmdResponse == old(cmdResponse)
          && model.outcomes == old(model.outcomes) + [TimedOut]
          && model.handled == old(model.handled) + during
        else
          var matched := found.Some? && found.value.context == if sent == 0 then [] else [sent];
          && err == (if matched then found.value.code else IO4E_FAIL)
          && res == (if matched && err == IO4E_OK && wanted then found else None)
          && cmdContext == (if matched then Advance(sent) else sent)
          && cmdSem == tokens - 1 + |Replies(between)| && cmdResponse == None
          && model.outcomes == old(model.outcomes) + [OutcomeOf(sent, found)]
          && model.handled == old(model.handled) + during + between
    {
      HandleMessages(during);
      if cmdSem == 0 {
        Step(CmdTimeout);
        return IO4E_ERR_TIMEOUT, None;
      }
      cmdSem := cmdSem - 1;
      Step(CmdTakeToken);
      err, res := TakeResponse(between, wanted);
    }

    // The rest of `command` once it has its token.
    method TakeResponse(between: seq<Msg>, wanted: bool) returns (err: int, res: Option<Reply>)
      requires Valid() && model.cmd.TokenTaken?
      modifies this`cmdContext, this`cmdResponse, this`cmdSem, this`model, this`echoing, streamq, streamq.msg
      ensures Valid() && model.cmd.Idle? && model.sends == old(model.sends)
      ensures old(echoing) && AllEchoed(model, between) ==> echoing
      ensures var sent := old(cmdContext);
        var found := Last(Replies(between), old(cmdResponse));
        var matched := found.Some? && found.value.context == if sent == 0 then [] else [sent];
        && err == (if matched then found.value.code else IO4E_FAIL)
        && res == (if matched && err == IO4E_OK && wanted then found else None)
        && cmdContext == (if matched then Advance(sent) else sent)
        && cmdSem == old(cmdSem) + |Replies(between)| && cmdResponse == None
        && model.outcomes == old(model.outcomes) + [OutcomeOf(sent, found)]
        && model.handled == old(model.handled) + between
    {
      HandleMessages(between);
      var found := cmdResponse;
      cmdResponse := None;
      Step(CmdTakeSlot);
      err, res := CheckResponse(found, wanted);
    }

    // The checks of `command` on the response it took.
    method CheckResponse(found: Option<Reply>, wanted: bool) returns (err: int, res: Option<Reply>)
      requires Valid() && model.cmd == SlotTaken(found)
      modifies this`cmdContext, this`model
      ensures Valid()
      ensures model == Apply(old(model), CmdFinish)
      ensures var sent := old(cmdContext);
        var matched := found.Some? && found.value.context == if sent == 0 then [] else [sent];
        && err == (if matched then found.value.code else IO4E_FAIL)
        && res == (if matched && err == IO4E_OK && wanted then found else None)
        && cmdContext == (if matched then Advance(sent) else sent)
    {
      MatchesExactly(cmdContext, found);
      Step(CmdFinish);
      if found == None {
        return IO4E_FAIL, None;
      }
      if found.value.context != CString(cmdContext) {
        return IO4E_FAIL, None;
      }
      cmdContext := Increment(cmdContext);
      if cmdContext == CONTEXT_Z {
        cmdContext := CONTEXT_A;
      }
      if found.value.code != IO4E_OK {
        return found.value.code, None;
      }
      return IO4E_OK, if wanted then found else None;
    }

    // `unpacks` tells whether the payload of a stream message can be unpacked; one that
    // cannot is taken from the queue all the same.
    method ReadStream(unpacks: Data -> bool) returns (err: int, data: Option<Data>)
      requires Valid()
      modifies this`model, streamq
      ensures Valid()
      ensures old(model.queue) == [] ==>
        err == IO4E_ERR_TIMEOUT && data == None && model == old(model)
      ensures old(model.queue) != [] ==>
        var d := old(model.queue)[0];
        && err == (if unpacks(d) then IO4E_OK else IO4E_ERR_PROTOBUF)
        && data == (if unpacks(d) then Some(d) else None)
        && model.queue == old(model.queue)[1..]
        && model.taken == old(model.taken) + [Taken(d, unpacks(d))]
        && model.handled == old(model.handled) && model.stored == old(model.stored)
    {
      var perr, popped := streamq.Pop();
      if perr != IO4E_OK {
        return perr, None;
      }
      Step(AppPop(unpacks(popped.value)));
      if !unpacks(popped.value) {
        return IO4E_ERR_PROTOBUF, None;
      }
      return IO4E_OK, popped;
    }

    // One pass of the reader thread.  `unpack` turns a payload into a message, Garbage when
    // it cannot.  Nothing but a whole message changes the client, and an empty one has no
    // effect.
    method ReadPass(sock: Socket, unpack: seq<Byte> -> Msg) returns (err: int)
      requires Valid()
      modifies this`cmdResponse, this`cmdSem, this`model, this`echoing, streamq, streamq.msg
      modifies sock`inbound, sock`readEvents, sock`errno, sock`polls
      ensures Valid()
      ensures err != IO4E_OK ==> model == old(model) && echoing == old(echoing)
      ensures err == IO4E_OK ==>
        var parsed := ParseFrame(old(sock.inbound));
        && parsed.Message? && parsed.rest == sock.inbound
        && if parsed.payload != [] then
             && Handled(old(model), model, [unpack(parsed.payload)])
             && echoing == (old(echoing) && Echoed(old(model), unpack(parsed.payload)))
           else
             && Handled(old(model), model, [Garbage]) && echoing == old(echoing)
             && cmdResponse == old(cmdResponse) && cmdSem == old(cmdSem)
             && streamq.Contents() == old(streamq.Contents())
      ensures !Ready(old(sock.polls)) ==> err == IO4E_ERR_TIMEOUT && sock.inbound == old(sock.inbound)
      ensures Ready(old(sock.polls)) && NoReadErrors(old(sock.readEvents)) && ParseFrame(old(sock.inbound)).Message? ==>
        err == IO4E_OK
      ensures sock.polls == if old(sock.polls) == [] then [] else old(sock.polls)[1..]
      ensures forall e :: e in sock.readEvents ==> e in old(sock.readEvents)
    {
      var buf, len;
      err, buf, len := ReadMsg(sock);
      if err != IO4E_OK {
        return err;
      }
      HandlePayload(unpack, if len != 0 then buf[..] else []);
    }

    // The rest of a pass, with the payload it read.
    method HandlePayload(unpack: seq<Byte> -> Msg, payload: seq<Byte>)
      requires Valid()
      modifies this`cmdResponse, this`cmdSem, this`model, this`echoing, streamq, streamq.msg
      ensures Valid()
      ensures payload != [] ==>
        && Handled(old(model), model, [unpack(payload)])
        && echoing == (old(echoing) && Echoed(old(model), unpack(payload)))
      ensures payload == [] ==>
        && Handled(old(model), model, [Garbage]) && echoing == old(echoing)
        && cmdResponse == old(cmdResponse) && cmdSem == old(cmdSem)
        && streamq.Contents() == old(streamq.Contents())
    {
      if payload == [] {
        OneMoreMessage([], Garbage);
        HandleMessage(Garbage);
      } else {
        HandleMessage(unpack(payload));
      }
    }

    // One pass of the reader thread over the frames of a device.
    method ReadNext(sock: Socket, unpack: seq<Byte> -> Msg,
                    ghost payloads: seq<seq<Byte>>, ghost tail: seq<Byte>, ghost k: nat)
      returns (err: int)
      requires Valid()
      requires Transmittable(payloads) && k < |payloads|
      requires sock.inbound == Frames(payloads[k..]) + tail && NoReadErrors(sock.readEvents)
      modifies this`cmdResponse, this`cmdSem, this`model, this`echoing, streamq, streamq.msg
      modifies sock`inbound, sock`readEvents, sock`errno, sock`polls
      ensures Valid() && NoReadErrors(sock.readEvents)
      ensures err == IO4E_OK ==>
        Handled(old(model), model, [MsgOf(unpack, payloads[k])]) && sock.inbound == Frames(payloads[k + 1..]) + tail
      ensures err != IO4E_OK ==>
        model == old(model) && sock.inbound == old(sock.inbound) && |sock.polls| < |old(sock.polls)|
    {
      NextFrame(payloads, k, tail);
      err := ReadPass(sock, unpack);
    }

    // The reader thread over the frames of a device: whatever way the socket cuts them, the
    // client handles exactly the device's messages, in order; empty ones leave no trace in
    // the slot, the semaphore and the queue.
    method ReadThread(sock: Socket, unpack: seq<Byte> -> Msg,
                      ghost payloads: seq<seq<Byte>>, ghost tail: seq<Byte>, count: nat)
      requires Valid()
      requires Transmittable(payloads) && |payloads| == count
      requires sock.inbound == Frames(payloads) + tail && NoReadErrors(sock.readEvents)
      modifies this`cmdResponse, this`cmdSem, this`model, this`echoing, streamq, streamq.msg
      modifies sock`inbound, sock`readEvents, sock`errno, sock`polls
      ensures Valid()
      ensures model.handled == old(model.handled) +
        seq(|payloads|, i requires 0 <= i < |payloads| =>
          if payloads[i] == [] then Garbage else unpack(payloads[i]))
      ensures var ms := AllUnpacked(unpack, NonEmpty(payloads));
        && cmdResponse == Last(Replies(ms), old(cmdResponse))
        && cmdSem == old(cmdSem) + |Replies(ms)|
        && streamq.Contents() == Clipped(old(streamq.Contents()), StreamData(ms), streamq.msg.Length)
      ensures Handled(old(model), model, Unpacked(unpack, payloads))
      ensures sock.inbound == tail
    {
      var read := 0;
      HandledNothing(model, Unpacked(unpack, payloads[..0]));
      assert payloads[0..] == payloads;
      while read < count
        invariant Valid()
        invariant read <= count
        invariant Handled(old(model), model, Unpacked(unpack, payloads[..read]))
        invariant sock.inbound == Frames(payloads[read..]) + tail
        invariant NoReadErrors(sock.readEvents)
        decreases count - read, |sock.polls|
      {
        ghost var middle := model;
        var err := ReadNext(sock, unpack, payloads, tail, read);
        if err == IO4E_OK {
          UnpackedOneMore(old(model), middle, model, unpack, payloads, read);
          read := read + 1;
        }
      }
      assert payloads[..count] == payloads;
      AllHandled(old(model), model, unpack, payloads);
    }
  }

  // An empty payload is dropped before any attempt to unpack it.
  function MsgOf(unpack: seq<Byte> -> Msg, payload: seq<Byte>): Msg {
    if payload == [] then Garbage else unpack(payload)
  }

  function Unpacked(unpack: seq<Byte> -> Msg, payloads: seq<seq<Byte>>): seq<Msg> {
    seq(|payloads|, i requires 0 <= i < |payloads| => MsgOf(unpack, payloads[i]))
  }

  function NonEmpty(payloads: seq<seq<Byte>>): seq<seq<Byte>> {
    if payloads == [] then []
    else
      var n := |payloads| - 1;
      NonEmpty(payloads[..n]) + if payloads[n] == [] then [] else [payloads[n]]
  }

  function AllUnpacked(unpack: seq<Byte> -> Msg, payloads: seq<seq<Byte>>): seq<Msg> {
    seq(|payloads|, i requires 0 <= i < |payloads| => unpack(payloads[i]))
  }

  lemma OneMorePayload(unpack: seq<Byte> -> Msg, before: seq<seq<Byte>>, last: seq<Byte>)
    ensures NonEmpty(before + [last]) == if last == [] then NonEmpty(before) else NonEmpty(before) + [last]
    ensures Unpacked(unpack, before + [last]) == Unpacked(unpack, before) + [MsgOf(unpack, last)]
    ensures AllUnpacked(unpack, before + [last]) == AllUnpacked(unpack, before) + [unpack(last)]
  {
    assert (before + [last])[..|before|] == before;
  }

  lemma SameTrace(some: seq<Msg>, others: seq<Msg>, m: Msg)
    requires Replies(some) == Replies(others) && StreamData(some) == StreamData(others)
    ensures Replies(some + [m]) == Replies(others + [m]) && StreamData(some + [m]) == StreamData(others + [m])
    ensures m.Garbage? ==> Replies(some + [m]) == Replies(others) && StreamData(some + [m]) == StreamData(others)
  {
    OneMoreMessage(some, m);
    OneMoreMessage(others, m);
  }

  lemma {:induction false} EmptyLeaveNoTrace(unpack: seq<Byte> -> Msg, payloads: seq<seq<Byte>>)
    ensures Replies(Unpacked(unpack, payloads)) == Replies(AllUnpacked(unpack, NonEmpty(payloads)))
    ensures StreamData(Unpacked(unpack, payloads)) == StreamData(AllUnpacked(unpack, NonEmpty(payloads)))
  {
    if payloads != [] {
      var before, last := payloads[..|payloads| - 1], payloads[|payloads| - 1];
      EmptyLeaveNoTrace(unpack, before);
      assert payloads == before + [last];
      OneMorePayload(unpack, before, last);
      OneMorePayload(unpack, NonEmpty(before), last);
      SameTrace(Unpacked(unpack, before), AllUnpacked(unpack, NonEmpty(before)), MsgOf(unpack, last));
    }
  }

  lemma AllHandled(before: State, after: State, unpack: seq<Byte> -> Msg, payloads: seq<seq<Byte>>)
    requires Handled(before, after, Unpacked(unpack, payloads))
    ensures after.handled == before.handled +
      seq(|payloads|, i requires 0 <= i < |payloads| =>
        if payloads[i] == [] then Garbage else unpack(payloads[i]))
    ensures var ms := AllUnpacked(unpack, NonEmpty(payloads));
      && after.slot == Last(Replies(ms), before.slot)
      && after.sem == before.sem + |Replies(ms)|
      && after.queue == Clipped(before.queue, StreamData(ms), before.capacity)
  {
    EmptyLeaveNoTrace(unpack, payloads);
  }

  lemma UnpackedOneMore(before: State, middle: State, after: State,
                        unpack: seq<Byte> -> Msg, payloads: seq<seq<Byte>>, k: nat)
    requires k < |payloads| && |before.queue| <= before.capacity
    requires Handled(before, middle, Unpacked(unpack, payloads[..k]))
    requires Handled(middle, after, [MsgOf(unpack, payloads[k])])
    ensures Handled(before, after, Unpacked(unpack, payloads[..k + 1]))
  {
    HandledExtends(before, middle, after, Unpacked(unpack, payloads[..k]), MsgOf(unpack, payloads[k]));
    assert Unpacked(unpack, payloads[..k + 1]) == Unpacked(unpack, payloads[..k]) + [MsgOf(unpack, payloads[k])];
  }
}
