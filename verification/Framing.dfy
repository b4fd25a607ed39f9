// The frame format: two magic bytes, a 32-bit length, the payload.
module Framing {
  import opened Common

  const HEADER_SIZE := 6
  const MAGIC: seq<Byte> := [0xFE, 0xED]
  const TWO_32 := 0x1_0000_0000

  // Bits 8k .. 8k+7 of a length: a shift to the right and a mask.
  function ByteAt(n: nat, k: nat): Byte {
    if k == 0 then n % 0x100 else ByteAt(n / 0x100, k - 1)
  }

  // The length bytes as the sender writes them: the last one repeats the shift by 16
  // of the one before it.
  function EncodeLength(n: nat): seq<Byte> {
    [ByteAt(n, 0), ByteAt(n, 1), ByteAt(n, 2), ByteAt(n, 2)]
  }

  // A variant that is not in the source: the last byte taken with a shift by 24, as the
  // receiver expects it.
  function EncodeLengthIntended(n: nat): seq<Byte> {
    [ByteAt(n, 0), ByteAt(n, 1), ByteAt(n, 2), ByteAt(n, 3)]
  }

  // The receiver ORs four bytes shifted by 0, 8, 16 and 24: their bits do not overlap,
  // so the result is a sum.
  function DecodeLength(bytes: seq<Byte>): (n: nat)
    requires |bytes| == 4
    ensures n < TWO_32
  {
    bytes[0] as int + 0x100 * bytes[1] as int + 0x1_0000 * bytes[2] as int + 0x100_0000 * bytes[3] as int
  }

  // Bits 24..31 of the length equal bits 16..23.
  predicate SurvivesEncoding(n: nat) {
    ByteAt(n, 3) == ByteAt(n, 2)
  }

  // A 32-bit length is the sum of its four bytes at their places.
  lemma FourBytes(n: nat)
    requires n < TWO_32
    ensures n == ByteAt(n, 0) as int + 0x100 * ByteAt(n, 1) as int
      + 0x1_0000 * ByteAt(n, 2) as int + 0x100_0000 * ByteAt(n, 3) as int
    ensures ByteAt(n, 2) == (n / 0x1_0000) % 0x100
    ensures n < 0x100_0000 <==> ByteAt(n, 3) == 0
  {
    var n1 := n / 0x100;
    var n2 := n1 / 0x100;
    var n3 := n2 / 0x100;
    assert ByteAt(n, 1) == n1 % 0x100;
    assert ByteAt(n, 2) == ByteAt(n1, 1) == n2 % 0x100;
    assert ByteAt(n, 3) == ByteAt(n1, 2) == ByteAt(n2, 1) == n3 % 0x100;
    assert n3 < 0x100;
    assert n2 == n / 0x1_0000;
  }

  lemma LengthField(n: nat)
    requires n < TWO_32
    ensures DecodeLength(EncodeLength(n)) == n % 0x100_0000 + 0x100_0000 * ((n / 0x1_0000) % 0x100)
    ensures DecodeLength(EncodeLength(n)) == n <==> SurvivesEncoding(n)
    ensures n < 0x1_0000 ==> SurvivesEncoding(n)
    ensures 0x1_0000 <= n < 0x100_0000 ==> !SurvivesEncoding(n)
  {
    FourBytes(n);
  }

  lemma IntendedLengthField(n: nat)
    requires n < TWO_32
    ensures DecodeLength(EncodeLengthIntended(n)) == n
  {
    FourBytes(n);
  }

  function Frame(payload: seq<Byte>): seq<Byte> {
    MAGIC + EncodeLength(|payload|) + payload
  }

  function Frames(payloads: seq<seq<Byte>>): seq<Byte> {
    if payloads == [] then [] else Frame(payloads[0]) + Frames(payloads[1..])
  }

  // What one read of a message makes of the bytes that arrive before the connection
  // ends, and the bytes it leaves unread.
  datatype Parsed =
    | Message(payload: seq<Byte>, rest: seq<Byte>)
    | BadMagic(rest: seq<Byte>)
    | Truncated

  function ParseFrame(bytes: seq<Byte>): Parsed {
    if |bytes| < HEADER_SIZE then Truncated
    else if bytes[..2] != MAGIC then BadMagic(bytes[HEADER_SIZE..])
    else
      var n := DecodeLength(bytes[2..HEADER_SIZE]);
      if |bytes| < HEADER_SIZE + n then Truncated
      else Message(bytes[HEADER_SIZE..HEADER_SIZE + n], bytes[HEADER_SIZE + n..])
  }

  // --- The bytes on the wire ----------------------------------------------------------

  // What the sender writes, byte by byte.
  lemma FrameBytes(payload: seq<Byte>)
    ensures var bytes, n := Frame(payload), |payload|;
      && |bytes| == 6 + n && bytes[6..] == payload
      && bytes[0] == 0xFE && bytes[1] == 0xED
      && bytes[2] == n % 256
      && bytes[3] == (n / 256) % 256
      && bytes[4] == bytes[5] == (n / 65536) % 256
  {
    assert |payload| / 65536 == |payload| / 256 / 256;
    assert ByteAt(|payload|, 1) == ByteAt(|payload| / 256, 0);
    assert ByteAt(|payload|, 2) == ByteAt(|payload| / 256, 1) == ByteAt(|payload| / 256 / 256, 0);
  }

  // What the receiver makes of any bytes: a message of the length that bytes 2 to 5 give,
  // least significant byte first, if they start with FE ED and that many follow.
  lemma MessageBytes(bytes: seq<Byte>)
    ensures |bytes| < 6 ==> ParseFrame(bytes) == Truncated
    ensures |bytes| >= 6 ==>
      var n := bytes[2] as int + 256 * bytes[3] as int + 65536 * bytes[4] as int + 16777216 * bytes[5] as int;
      ParseFrame(bytes) ==
        if bytes[0] != 0xFE || bytes[1] != 0xED then BadMagic(bytes[6..])
        else if |bytes| - 6 < n then Truncated
        else Message(bytes[6..][..n], bytes[6..][n..])
  {
    if |bytes| >= 6 {
      assert bytes[..2] == [bytes[0], bytes[1]];
      assert bytes[2..6] == [bytes[2], bytes[3], bytes[4], bytes[5]];
    }
  }

  // What is read back from a frame of any length: as many bytes as the decoded length says.
  lemma FrameParsed(payload: seq<Byte>, rest: seq<Byte>)
    ensures var n := DecodeLength(EncodeLength(|payload|));
      var body := payload + rest;
      ParseFrame(Frame(payload) + rest) == if |body| < n then Truncated else Message(body[..n], body[n..])
  {
    var bytes := Frame(payload) + rest;
    assert bytes[..2] == MAGIC;
    assert bytes[2..HEADER_SIZE] == EncodeLength(|payload|);
    assert bytes[HEADER_SIZE..] == payload + rest;
    var n := DecodeLength(EncodeLength(|payload|));
    if |payload + rest| >= n {
      assert bytes[HEADER_SIZE..HEADER_SIZE + n] == (payload + rest)[..n];
      assert bytes[HEADER_SIZE + n..] == (payload + rest)[n..];
    }
  }

  // A frame is read back as the payload it was made from exactly when its length
  // survives the encoder.
  lemma FrameRoundTrip(payload: seq<Byte>, rest: seq<Byte>)
    requires |payload| < TWO_32
    ensures ParseFrame(Frame(payload) + rest) == Message(payload, rest) <==> SurvivesEncoding(|payload|)
  {
    LengthField(|payload|);
    FrameParsed(payload, rest);
    var n := DecodeLength(EncodeLength(|payload|));
    if n == |payload| {
      assert (payload + rest)[..n] == payload && (payload + rest)[n..] == rest;
    } else if |payload + rest| >= n {
      assert |(payload + rest)[..n]| == n;
    }
  }

  predicate Transmittable(payloads: seq<seq<Byte>>) {
    forall i :: 0 <= i < |payloads| ==> |payloads[i]| < TWO_32 && SurvivesEncoding(|payloads[i]|)
  }

  lemma {:induction false} FramesAppend(payloads: seq<seq<Byte>>, payload: seq<Byte>)
    ensures Frames(payloads + [payload]) == Frames(payloads) + Frame(payload)
  {
    if payloads == [] {
      assert Frames([payload]) == Frame(payload) + Frames([]);
    } else {
      assert (payloads + [payload])[1..] == payloads[1..] + [payload];
      FramesAppend(payloads[1..], payload);
    }
  }

  // Bytes that hold the frames from number `k` on begin with payload `k`.
  lemma NextFrame(payloads: seq<seq<Byte>>, k: nat, tail: seq<Byte>)
    requires Transmittable(payloads) && k < |payloads|
    ensures var rest := Frames(payloads[k + 1..]) + tail;
      ParseFrame(Frames(payloads[k..]) + tail) == Message(payloads[k], rest)
  {
    var rest := Frames(payloads[k + 1..]) + tail;
    assert payloads[k..][0] == payloads[k] && payloads[k..][1..] == payloads[k + 1..];
    assert Frames(payloads[k..]) + tail == Frame(payloads[k]) + rest;
    FrameRoundTrip(payloads[k], rest);
  }
}
