/** The reflected 32-bit CRC that closes every OEM4 message.

    The register is kept as its 32 bits, least significant first, so a right shift drops the head of
    the sequence. One step is linear over exclusive or and invertible; from these two facts follow the
    zero residue of an intact frame and the rejection of every burst of up to four bytes. */
module Crc32 {
  import opened BitFields
  import opened CrcDivision

  type Register32 = r: seq<bool> | |r| == 32 witness Zeros(32)

  /** The bits of little-endian bytes, least significant first. */
  function LsbBits(s: seq<byte>): (r: seq<bool>)
    ensures |r| == 8 * |s|
  {
    seq(8 * |s|, k requires 0 <= k < 8 * |s| => BitOf(s[k / 8], 7 - k % 8))
  }

  /** POLYCRC32, 0xEDB88320. */
  const POLYNOMIAL: Register32 := LsbBits([0x20, 0x83, 0xB8, 0xED])

  function Step(r: Register32): Register32 {
    var s := r[1..] + [false];
    if r[0] then Xor(s, POLYNOMIAL) else s
  }

  function Steps(r: Register32, n: nat): Register32 {
    if n == 0 then r else Step(Steps(r, n - 1))
  }

  function Absorb(r: Register32, b: byte): Register32 {
    Steps(Xor(r, LsbBits([b]) + Zeros(24)), 8)
  }

  /** The register after a byte string, from any starting value. */
  function Crc(r: Register32, s: seq<byte>): Register32 {
    if |s| == 0 then r else Absorb(Crc(r, s[..|s| - 1]), s[|s| - 1])
  }

  /** crc32. */
  method Crc32Of(buff: array<byte>, len: nat) returns (crc: Register32)
    requires len <= buff.Length
    ensures crc == Crc(Zeros(32), buff[..len])
  {
    crc := Zeros(32);
    var i := 0;
    while i < len
      invariant 0 <= i <= len
      invariant crc == Crc(Zeros(32), buff[..i])
    {
      assert buff[..i + 1][..i] == buff[..i];
      crc := Xor(crc, LsbBits([buff[i]]) + Zeros(24));
      ghost var fed := crc;
      var j := 0;
      while j < 8
        invariant 0 <= j <= 8
        invariant crc == Steps(fed, j)
      {
        if crc[0] {
          crc := Xor(crc[1..] + [false], POLYNOMIAL);
        } else {
          crc := crc[1..] + [false];
        }
        j := j + 1;
      }
      i := i + 1;
    }
  }

  // ---------- long division ----------

  /** The generator of CRC-32, 0x104C11DB7, all 33 coefficients. */
  const GENERATOR32: Generator := [true] + Bits([0x04, 0xC1, 0x1D, 0xB7])

  lemma GeneratorValue()
    ensures UInt(GENERATOR32) == 0x1_04C1_1DB7
  {
    var a: seq<byte> := [0x04];
    ByteValue(0x04);
    BytesValue([0x04], 0xC1);
    BytesValue([0x04, 0xC1], 0x1D);
    BytesValue([0x04, 0xC1, 0x1D], 0xB7);
    assert a + [0xC1] == [0x04, 0xC1] && a + [0xC1] + [0x1D] == [0x04, 0xC1, 0x1D];
    assert a + [0xC1] + [0x1D] + [0xB7] == [0x04, 0xC1, 0x1D, 0xB7];
    UIntCons(true, Bits([0x04, 0xC1, 0x1D, 0xB7]));
    Pow2Of32();
  }

  /** The register, whose first bit stands for the highest power, divides one bit further. */
  lemma StepDivides(r: Register32)
    ensures Step(r) == DivideBit(GENERATOR32, r, false)
  {
    PolynomialReflected();
    assert (r + [false])[1..] == r[1..] + [false];
    if r[0] {
      forall k | 0 <= k < 32
        ensures Step(r)[k] == DivideBit(GENERATOR32, r, false)[k]
      {
      }
    }
  }

  lemma PolynomialReflected()
    ensures POLYNOMIAL == GENERATOR32[1..]
  {
    forall k | 0 <= k < 32
      ensures POLYNOMIAL[k] == GENERATOR32[1..][k]
    {
      ReflectedBit(k);
    }
  }

  lemma ReflectedBit(k: nat)
    requires k < 32
    ensures LsbBits([0x20, 0x83, 0xB8, 0xED])[k] == Bits([0x04, 0xC1, 0x1D, 0xB7])[k]
  {
    var i, j := k / 8, k % 8;
    assert k == 8 * i + j;
  }

  lemma {:induction false} StepsDivide(r: Register32, n: nat)
    ensures Steps(r, n) == Divide(GENERATOR32, r, Zeros(n))
  {
    if n > 0 {
      StepsDivide(r, n - 1);
      StepDivides(Steps(r, n - 1));
      assert Zeros(n)[..n - 1] == Zeros(n - 1);
    }
  }

  /** The register after a message is the remainder of its bits, each byte's least significant bit first,
      shifted up by 32 and divided by 0x104C11DB7. */
  lemma {:induction false} RegisterIsParity(s: seq<byte>)
    ensures Crc(Zeros(32), s) == Parity(GENERATOR32, LsbBits(s))
  {
    if |s| == 0 {
      assert LsbBits(s) + Zeros(32) == Zeros(32);
      DivideZeros(GENERATOR32, 32);
    } else {
      var t, b := s[..|s| - 1], s[|s| - 1];
      RegisterIsParity(t);
      StepsDivide(Xor(Crc(Zeros(32), t), LsbBits([b]) + Zeros(24)), 8);
      ParityExtend(GENERATOR32, LsbBits(t), LsbBits([b]));
      LsbConcat(t, [b]);
      assert s == t + [b];
    }
  }

  /** The first of a byte's bits here is the one worth 1. */
  lemma LeastBitFirst(b: byte, j: nat)
    requires j < 8
    ensures LsbBits([b])[j] == TestBit(b as int, j)
  {
    ByteValue(b);
    FieldUInt(Bits([b]));
    assert Bits([b])[7 - j] == Field(b as int, 8)[7 - j];
  }

  // ---------- linear and invertible ----------

  lemma StepXor(a: Register32, b: Register32)
    ensures Step(Xor(a, b)) == Xor(Step(a), Step(b))
  {
  }

  lemma {:induction false} StepsXor(a: Register32, b: Register32, n: nat)
    ensures Steps(Xor(a, b), n) == Xor(Steps(a, n), Steps(b, n))
  {
    if n > 0 {
      StepsXor(a, b, n - 1);
      StepXor(Steps(a, n - 1), Steps(b, n - 1));
    }
  }

  lemma {:induction false} StepsAdd(r: Register32, m: nat, n: nat)
    ensures Steps(r, m + n) == Steps(Steps(r, m), n)
  {
    if n > 0 {
      StepsAdd(r, m, n - 1);
    }
  }

  /** The highest coefficient of the polynomial is set, so the bit shifted out can be seen at the top. */
  lemma StepTop(r: Register32)
    ensures Step(r)[31] == r[0]
  {
  }

  lemma StepInjective(a: Register32, b: Register32)
    requires Step(a) == Step(b)
    ensures a == b
  {
    StepTop(a);
    StepTop(b);
    forall k | 1 <= k < 32
      ensures a[k] == b[k]
    {
      assert Step(a)[k - 1] == (a[k] != (a[0] && POLYNOMIAL[k - 1]));
      assert Step(b)[k - 1] == (b[k] != (b[0] && POLYNOMIAL[k - 1]));
    }
  }

  lemma {:induction false} StepsInjective(a: Register32, b: Register32, n: nat)
    requires Steps(a, n) == Steps(b, n)
    ensures a == b
  {
    if n > 0 {
      StepInjective(Steps(a, n - 1), Steps(b, n - 1));
      StepsInjective(a, b, n - 1);
    }
  }

  /** Bits above the ones shifted out only move down. */
  lemma {:induction false} StepsMoveDown(n: nat, x: seq<bool>)
    requires n + |x| == 32
    ensures Steps(Zeros(n) + x, n) == x + Zeros(n)
    decreases n
  {
    if n == 0 {
      assert Zeros(0) + x == x == x + Zeros(0);
    } else {
      var y := x + [false];
      assert Step(Zeros(n) + x) == Zeros(n - 1) + y;
      StepsMoveDown(n - 1, y);
      StepsAdd(Zeros(n) + x, 1, n - 1);
      assert Steps(Zeros(n) + x, 1) == Step(Steps(Zeros(n) + x, 0));
      assert y + Zeros(n - 1) == x + Zeros(n);
    }
  }

  lemma {:induction false} CrcConcat(r: Register32, a: seq<byte>, b: seq<byte>)
    ensures Crc(r, a + b) == Crc(Crc(r, a), b)
  {
    if |b| == 0 {
      assert a + b == a;
    } else {
      CrcConcat(r, a, b[..|b| - 1]);
      assert (a + b)[..|a + b| - 1] == a + b[..|b| - 1];
    }
  }

  // ---------- up to four bytes at once ----------

  /** Up to four bytes can be fed into the register together. */
  lemma {:induction false} FeedTogether(r: Register32, s: seq<byte>)
    requires |s| <= 4
    ensures Crc(r, s) == Steps(Xor(r, LsbBits(s) + Zeros(32 - 8 * |s|)), 8 * |s|)
  {
    if |s| == 0 {
      assert LsbBits(s) + Zeros(32) == Zeros(32);
      XorZeros(r);
    } else {
      var n := |s| - 1;
      var t, b := s[..n], s[n];
      var x := Xor(r, LsbBits(t) + Zeros(32 - 8 * n));
      FeedTogether(r, t);
      FeedNext(x, n, LsbBits([b]));
      assert s == t + [b];
      LsbConcat(t, [b]);
      JoinFields(r, LsbBits(t), LsbBits([b]));
    }
  }

  lemma JoinFields(r: Register32, a: seq<bool>, w: seq<bool>)
    requires |a| + |w| <= 32
    ensures Xor(Xor(r, a + Zeros(32 - |a|)), Zeros(|a|) + w + Zeros(32 - |a| - |w|))
         == Xor(r, a + w + Zeros(32 - |a| - |w|))
  {
  }

  lemma FeedNext(x: Register32, n: nat, w: seq<bool>)
    requires n < 4 && |w| == 8
    ensures Steps(Xor(Steps(x, 8 * n), w + Zeros(24)), 8)
         == Steps(Xor(x, Zeros(8 * n) + w + Zeros(24 - 8 * n)), 8 * n + 8)
  {
    var y := Zeros(8 * n) + (w + Zeros(24 - 8 * n));
    StepsMoveDown(8 * n, w + Zeros(24 - 8 * n));
    assert w + Zeros(24 - 8 * n) + Zeros(8 * n) == w + Zeros(24);
    assert y == Zeros(8 * n) + w + Zeros(24 - 8 * n);
    StepsXor(x, y, 8 * n);
    StepsAdd(Xor(x, y), 8 * n, 8);
  }

  lemma LsbConcat(a: seq<byte>, b: seq<byte>)
    ensures LsbBits(a + b) == LsbBits(a) + LsbBits(b)
  {
  }

  lemma LsbInjective(a: seq<byte>, b: seq<byte>)
    requires LsbBits(a) == LsbBits(b)
    ensures a == b
  {
    forall i | 0 <= i < |a|
      ensures a[i] == b[i]
    {
      forall j: nat | j < 8
        ensures BitOf(a[i], j) == BitOf(b[i], j)
      {
        assert LsbBits(a)[8 * i + (7 - j)] == LsbBits(b)[8 * i + (7 - j)];
      }
      SameBitsSameByte(a[i], b[i]);
    }
  }

  lemma {:induction false} StepsOfZero(n: nat)
    ensures Steps(Zeros(32), n) == Zeros(32)
  {
    if n > 0 {
      StepsOfZero(n - 1);
      assert Step(Zeros(32)) == Zeros(32);
    }
  }

  /** A message agrees with its trailing little-endian CRC exactly when the register, run over both,
      ends at zero. */
  lemma IntactIffZeroResidue(s: seq<byte>, parity: seq<byte>)
    requires |parity| == 4
    ensures Crc(Zeros(32), s) == LsbBits(parity) <==> Crc(Zeros(32), s + parity) == Zeros(32)
  {
    var c, w := Crc(Zeros(32), s), LsbBits(parity);
    CrcConcat(Zeros(32), s, parity);
    FeedTogether(c, parity);
    assert w + Zeros(0) == w;
    StepsOfZero(32);
    if c == w {
      XorZeros(c);
    }
    if Steps(Xor(c, w), 32) == Zeros(32) {
      StepsInjective(Xor(c, w), Zeros(32), 32);
      forall k | 0 <= k < 32
        ensures c[k] == w[k]
      {
        assert Xor(c, w)[k] == Zeros(32)[k];
      }
    }
  }

  // ---------- error detection ----------

  lemma AbsorbInjective(r: Register32, q: Register32, b: byte)
    requires Absorb(r, b) == Absorb(q, b)
    ensures r == q
  {
    var w := LsbBits([b]) + Zeros(24);
    StepsInjective(Xor(r, w), Xor(q, w), 8);
    XorCancels(r, q, w);
  }

  lemma XorCancels(a: seq<bool>, b: seq<bool>, w: seq<bool>)
    requires |a| == |b| == |w|
    requires Xor(a, w) == Xor(b, w)
    ensures a == b
  {
    forall k | 0 <= k < |a|
      ensures a[k] == b[k]
    {
      assert Xor(a, w)[k] == Xor(b, w)[k];
    }
  }

  lemma {:induction false} CrcInjective(r: Register32, q: Register32, s: seq<byte>)
    requires Crc(r, s) == Crc(q, s)
    ensures r == q
  {
    if |s| > 0 {
      AbsorbInjective(Crc(r, s[..|s| - 1]), Crc(q, s[..|s| - 1]), s[|s| - 1]);
      CrcInjective(r, q, s[..|s| - 1]);
    }
  }

  /** Corrupting up to four consecutive bytes of a string always changes its CRC. */
  lemma BurstChangesCrc(head: seq<byte>, m: seq<byte>, m': seq<byte>, tail: seq<byte>)
    requires |m| == |m'| <= 4 && m != m'
    ensures Crc(Zeros(32), head + m + tail) != Crc(Zeros(32), head + m' + tail)
  {
    var r := Crc(Zeros(32), head);
    var pad := Zeros(32 - 8 * |m|);
    CrcConcat(Zeros(32), head + m, tail);
    CrcConcat(Zeros(32), head + m', tail);
    CrcConcat(Zeros(32), head, m);
    CrcConcat(Zeros(32), head, m');
    FeedTogether(r, m);
    FeedTogether(r, m');
    if Crc(Zeros(32), head + m + tail) == Crc(Zeros(32), head + m' + tail) {
      CrcInjective(Crc(r, m), Crc(r, m'), tail);
      StepsInjective(Xor(r, LsbBits(m) + pad), Xor(r, LsbBits(m') + pad), 8 * |m|);
      XorCommutes(r, LsbBits(m) + pad);
      XorCommutes(r, LsbBits(m') + pad);
      XorCancels(LsbBits(m) + pad, LsbBits(m') + pad, r);
      assert LsbBits(m) == (LsbBits(m) + pad)[..8 * |m|];
      assert LsbBits(m') == (LsbBits(m') + pad)[..8 * |m|];
      LsbInjective(m, m');
    }
  }

  lemma XorCommutes(a: seq<bool>, b: seq<bool>)
    requires |a| == |b|
    ensures Xor(a, b) == Xor(b, a)
  {
  }
}
