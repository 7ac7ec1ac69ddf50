/** RTCM 3 frames: the transport layer around a message, as section 4 of RTCM 10403 lays it out. */
module Rtcm3 {
  import opened BitFields
  import opened BitWriter
  import opened CrcDivision
  import opened Crc24q

  /** Preamble, reserved bits and length; the length is zero until the message is finished. */
  function FrameHead(n: nat): (r: seq<bool>)
    ensures |r| == 24
  {
    Field(0xD3, 8) + Field(0, 6) + Field(n, 10)
  }

  function PaddedLength(nbit: nat): (r: nat)
    ensures 8 * r >= nbit && 8 * r < nbit + 8
  {
    (nbit + 7) / 8
  }

  function FrameBits(payload: seq<bool>): (r: seq<bool>)
    ensures |r| == 8 * (3 + PaddedLength(|payload|))
  {
    FrameHead(PaddedLength(|payload|)) + payload + Zeros(8 * PaddedLength(|payload|) - |payload|)
  }

  /** The frame of a message: header, message, zero padding, parity. */
  function FrameOf(payload: seq<bool>): (r: seq<byte>)
    ensures |r| == PaddedLength(|payload|) + 6
  {
    var body := Pack(FrameBits(payload));
    body + Register(body).Bytes()
  }

  ghost predicate Fits(payload: seq<bool>) {
    PaddedLength(|payload|) < 1024
  }

  /** Everything a receiver checks in a frame, and the message it finds there. */
  lemma FrameWellFormed(payload: seq<bool>)
    requires Fits(payload)
    ensures var f, n := FrameOf(payload), PaddedLength(|payload|);
            && ReadU(Bits(f), 0, 8) == 0xD3
            && ReadU(Bits(f), 8, 6) == 0
            && ReadU(Bits(f), 14, 10) == n == |f| - 6
            && Bits(f)[24..24 + |payload|] == payload
            && Bits(f)[24 + |payload|..24 + 8 * n] == Zeros(8 * n - |payload|)
            && Register(f) == Word(0, 0, 0)
  {
    var n := PaddedLength(|payload|);
    var body := Pack(FrameBits(payload));
    ResidueIsZero(body);
    BitsConcat(body, Register(body).Bytes());
    FieldValues(n);
    FrameParts(payload, Bits(Register(body).Bytes()));
  }

  lemma FrameParts(payload: seq<bool>, more: seq<bool>)
    ensures var s, n := FrameBits(payload) + more, PaddedLength(|payload|);
            && s[0..8] == Field(0xD3, 8) && s[8..14] == Field(0, 6) && s[14..24] == Field(n, 10)
            && s[24..24 + |payload|] == payload
            && s[24 + |payload|..24 + 8 * n] == Zeros(8 * n - |payload|)
  {
    var n := PaddedLength(|payload|);
    Layout(Field(0xD3, 8), Field(0, 6), Field(n, 10), payload, Zeros(8 * n - |payload|), more);
  }

  /** Where the parts of a frame are found. */
  lemma Layout(a: seq<bool>, b: seq<bool>, c: seq<bool>, d: seq<bool>, e: seq<bool>, more: seq<bool>)
    requires |a| == 8 && |b| == 6 && |c| == 10
    ensures var s := (a + b + c) + d + e + more;
            && s[0..8] == a && s[8..14] == b && s[14..24] == c
            && s[24..24 + |d|] == d && s[24 + |d|..24 + |d| + |e|] == e
  {
  }

  lemma FieldValues(n: nat)
    requires n < 1024
    ensures UInt(Field(0xD3, 8)) == 0xD3 && UInt(Field(0, 6)) == 0 && UInt(Field(n, 10)) == n
  {
    PowersUpTo8();
    UIntField(0xD3, 8);
    UIntField(0, 6);
    UIntField(n, 10);
    assert Pow2(10) == 1024;
  }

  // ---------- the common tail of gen_rtcm3 and encode_type1005 ----------

  /** Zero bits up to the next byte boundary. */
  method Pad(buff: array<byte>, nbit: nat, ghost acc: seq<bool>) returns (i: nat, ghost out: seq<bool>)
    requires nbit == |acc| && 8 * PaddedLength(nbit) <= 8 * buff.Length
    requires Written(buff[..], acc)
    modifies buff
    ensures i == |out| == 8 * PaddedLength(nbit)
    ensures out == acc + Zeros(i - nbit) && Written(buff[..], out)
  {
    i, out := nbit, acc;
    while i % 8 != 0
      invariant nbit <= i <= 8 * PaddedLength(nbit)
      invariant out == acc + Zeros(i - nbit) && i == |out|
      invariant Written(buff[..], out)
      decreases 8 * PaddedLength(nbit) - i
    {
      ZeroBit(i - nbit);
      i, out := Emit(buff, i, 1, 0, out);
    }
  }

  lemma ZeroBit(n: nat)
    ensures Zeros(n) + Field(0, 1) == Zeros(n + 1)
  {
    FieldStep(0, 1);
  }

  /** Pad, set the length, append the parity. Fails on a message of 1024 bytes or more. */
  method FinishFrame(buff: array<byte>, nbit: nat, ghost payload: seq<bool>) returns (ok: bool, len: nat, nbyte: nat)
    requires buff.Length == 1200 && nbit == 24 + |payload| <= 9560
    requires Written(buff[..], FrameHead(0) + payload)
    modifies buff
    ensures ok <==> Fits(payload)
    ensures ok ==> len == 3 + PaddedLength(|payload|) && nbyte == len + 3 && buff[..nbyte] == FrameOf(payload)
    ensures !ok ==> len == 0 && nbyte == 0
  {
    var i;
    ghost var out;
    i, out := Pad(buff, nbit, FrameHead(0) + payload);
    len := i / 8;
    if len >= 3 + 1024 {
      return false, 0, 0;
    }
    ghost var body := Pack(FrameBits(payload));
    WriteLength(buff, len, out, payload);
    AppendParity(buff, len, body);
    nbyte := len + 3;
    ok := true;
  }

  method WriteLength(buff: array<byte>, len: nat, ghost out: seq<bool>, ghost payload: seq<bool>)
    requires len == 3 + PaddedLength(|payload|) <= buff.Length
    requires out == FrameHead(0) + payload + Zeros(8 * PaddedLength(|payload|) - |payload|)
    requires Written(buff[..], out)
    modifies buff
    ensures buff[..len] == Pack(FrameBits(payload))
  {
    ghost var was := Bits(buff[..]);
    SetBitU(buff, 14, 10, len - 3);
    LengthSet(payload, was, buff[..], len);
  }

  lemma LengthSet(payload: seq<bool>, was: seq<bool>, s: seq<byte>, len: nat)
    requires len == 3 + PaddedLength(|payload|) <= |s| && |was| == 8 * |s|
    requires was[..8 * len] == FrameHead(0) + payload + Zeros(8 * PaddedLength(|payload|) - |payload|)
    requires Bits(s) == Splice(was, 14, Field(len - 3, 10))
    ensures s[..len] == Pack(FrameBits(payload))
  {
    BitsSlice(s, 0, len);
    assert s[0..len] == s[..len];
    LengthReplaced(Field(0xD3, 8), Field(0, 6), Field(0, 10), Field(len - 3, 10), payload,
                   Zeros(8 * (len - 3) - |payload|), was);
    SameBitsSameBytes(s[..len], Pack(FrameBits(payload)));
  }

  lemma LengthReplaced(a: seq<bool>, b: seq<bool>, c: seq<bool>, l: seq<bool>, d: seq<bool>, e: seq<bool>, s: seq<bool>)
    requires |a| == 8 && |b| == 6 && |c| == |l| == 10 && 24 + |d| + |e| <= |s|
    requires s[..24 + |d| + |e|] == a + b + c + d + e
    ensures Splice(s, 14, l)[0..24 + |d| + |e|] == (a + b + l) + d + e
  {
    var n := 24 + |d| + |e|;
    assert s[..n][..14] == s[..14] && s[..n][24..] == s[24..n];
    assert (a + b + c + d + e)[..14] == a + b;
    assert (a + b + c + d + e)[24..] == d + e;
  }

  method AppendParity(buff: array<byte>, len: nat, ghost body: seq<byte>)
    requires len + 3 <= buff.Length && buff[..len] == body
    modifies buff
    ensures buff[..len + 3] == body + Register(body).Bytes()
  {
    ghost var was := buff[..];
    var crc := Crc24(buff, len);
    SetBitU(buff, 8 * len, 24, UInt(Bits(crc.Bytes())));
    BitsSlice(was, 0, len);
    assert was[0..len] == body;
    ParityAppended(body, buff[..], len, crc);
  }

  lemma ParityAppended(body: seq<byte>, s: seq<byte>, len: nat, crc: Word24)
    requires |body| == len && len + 3 <= |s|
    requires Bits(s)[..8 * len] == Bits(body)
    requires Bits(s)[8 * len..8 * len + 24] == Field(UInt(Bits(crc.Bytes())), 24)
    ensures s[..len + 3] == body + crc.Bytes()
  {
    FieldUInt(Bits(crc.Bytes()));
    BitsConcat(body, crc.Bytes());
    BitsSlice(s, 0, len + 3);
    assert s[0..len + 3] == s[..len + 3];
    assert Bits(s)[0..8 * (len + 3)] == Bits(s)[..8 * len] + Bits(s)[8 * len..8 * len + 24];
    SameBitsSameBytes(s[..len + 3], body + crc.Bytes());
  }

  // ---------- a receiver ----------

  /** Whether a whole frame with a good parity stands at the start of s. */
  predicate FrameStarts(s: seq<byte>) {
    && |s| >= 6
    && ReadU(Bits(s), 0, 8) == 0xD3
    && ReadU(Bits(s), 8, 6) == 0
    && ReadU(Bits(s), 14, 10) + 6 <= |s|
    && Register(s[..ReadU(Bits(s), 14, 10) + 6]) == Word(0, 0, 0)
  }

  /** The frames a transport-layer receiver splits a byte stream into. */
  function Deframe(s: seq<byte>): seq<seq<byte>> {
    if s == [] then []
    else if FrameStarts(s) then
      var n := ReadU(Bits(s), 14, 10) + 6;
      [s[..n]] + Deframe(s[n..])
    else Deframe(s[1..])
  }

  lemma DeframeOne(payload: seq<bool>, more: seq<byte>)
    requires Fits(payload)
    ensures Deframe(FrameOf(payload) + more) == [FrameOf(payload)] + Deframe(more)
  {
    var f := FrameOf(payload);
    var s := f + more;
    FrameWellFormed(payload);
    BitsConcat(f, more);
    SameStart(Bits(f), Bits(more), 0, 8);
    SameStart(Bits(f), Bits(more), 8, 6);
    SameStart(Bits(f), Bits(more), 14, 10);
    assert s[..|f|] == f && s[|f|..] == more;
  }

  lemma SameStart(a: seq<bool>, more: seq<bool>, pos: nat, len: nat)
    requires pos + len <= |a|
    ensures ReadU(a + more, pos, len) == ReadU(a, pos, len)
  {
    assert (a + more)[pos..pos + len] == a[pos..pos + len];
  }

  function Frames(payloads: seq<seq<bool>>): seq<seq<byte>> {
    if |payloads| == 0 then [] else [FrameOf(payloads[0])] + Frames(payloads[1..])
  }

  function Joined(frames: seq<seq<byte>>): seq<byte> {
    if |frames| == 0 then [] else frames[0] + Joined(frames[1..])
  }

  /** Any concatenation of frames is split back into exactly those frames. */
  lemma {:induction false} DeframeAll(payloads: seq<seq<bool>>)
    requires forall k | 0 <= k < |payloads| :: Fits(payloads[k])
    ensures Deframe(Joined(Frames(payloads))) == Frames(payloads)
  {
    if |payloads| > 0 {
      DeframeAll(payloads[1..]);
      DeframeOne(payloads[0], Joined(Frames(payloads[1..])));
      assert Frames(payloads)[1..] == Frames(payloads[1..]);
    }
  }
}
