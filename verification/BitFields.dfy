/** Big-endian bit fields in byte buffers: the readers and writers every RTCM message is built from.

    A buffer is viewed as the sequence of its bits, most significant bit of byte 0 first. A write
    replaces a stretch of that sequence and a read evaluates one, so everything the encoders do can
    be stated about bit sequences alone. */
module BitFields {

  type byte = bv8
  type octet = x: int | 0 <= x < 256

  const U32 := 0x1_0000_0000

  // ---------- bits of one byte ----------

  /** 1u << (7 - j): the mask of bit j, counted from the most significant end. */
  function BitMask(j: nat): byte
    requires j < 8
  {
    match j
    case 0 => 0x80
    case 1 => 0x40
    case 2 => 0x20
    case 3 => 0x10
    case 4 => 0x08
    case 5 => 0x04
    case 6 => 0x02
    case 7 => 0x01
  }

  /** (b >> (7 - j)) & 1. */
  predicate BitOf(b: byte, j: nat)
    requires j < 8
  {
    b & BitMask(j) != 0
  }

  function SetBit(b: byte, j: nat, v: bool): byte
    requires j < 8
  {
    if v then b | BitMask(j) else b & !BitMask(j)
  }

  lemma SetBitAt(b: byte, j: nat, v: bool, k: nat)
    requires j < 8 && k < 8
    ensures BitOf(SetBit(b, j, v), k) == if j == k then v else BitOf(b, k)
  {
  }

  lemma SameBitsSameByte(a: byte, b: byte)
    requires forall j: nat | j < 8 :: BitOf(a, j) == BitOf(b, j)
    ensures a == b
  {
    assert BitOf(a, 0) == BitOf(b, 0) && BitOf(a, 1) == BitOf(b, 1);
    assert BitOf(a, 2) == BitOf(b, 2) && BitOf(a, 3) == BitOf(b, 3);
    assert BitOf(a, 4) == BitOf(b, 4) && BitOf(a, 5) == BitOf(b, 5);
    assert BitOf(a, 6) == BitOf(b, 6) && BitOf(a, 7) == BitOf(b, 7);
  }

  // ---------- bits of a byte sequence ----------

  predicate BitAt(s: seq<byte>, k: nat)
    requires k < 8 * |s|
  {
    BitOf(s[k / 8], k % 8)
  }

  function Bits(s: seq<byte>): (r: seq<bool>)
    ensures |r| == 8 * |s|
  {
    seq(8 * |s|, k requires 0 <= k < 8 * |s| => BitAt(s, k))
  }

  lemma BitsConcat(a: seq<byte>, b: seq<byte>)
    ensures Bits(a + b) == Bits(a) + Bits(b)
  {
  }

  lemma BitsSlice(s: seq<byte>, lo: nat, hi: nat)
    requires lo <= hi <= |s|
    ensures Bits(s[lo..hi]) == Bits(s)[8 * lo..8 * hi]
  {
  }

  /** A byte sequence is determined by its bits. */
  lemma SameBitsSameBytes(a: seq<byte>, b: seq<byte>)
    requires Bits(a) == Bits(b)
    ensures a == b
  {
    forall i | 0 <= i < |a|
      ensures a[i] == b[i]
    {
      forall j: nat | j < 8
        ensures BitOf(a[i], j) == BitOf(b[i], j)
      {
        assert Bits(a)[8 * i + j] == Bits(b)[8 * i + j];
      }
      SameBitsSameByte(a[i], b[i]);
    }
  }

  /** The byte whose bits are given. */
  function PackByte(b: seq<bool>): (r: byte)
    requires |b| == 8
    ensures forall j: nat | j < 8 :: BitOf(r, j) == b[j]
  {
    (if b[0] then 0x80 else 0) | (if b[1] then 0x40 else 0) | (if b[2] then 0x20 else 0) |
    (if b[3] then 0x10 else 0) | (if b[4] then 0x08 else 0) | (if b[5] then 0x04 else 0) |
    (if b[6] then 0x02 else 0) | (if b[7] then 0x01 else 0)
  }

  /** The inverse of Bits on whole bytes. */
  function Pack(b: seq<bool>): (r: seq<byte>)
    requires |b| % 8 == 0
    ensures |r| == |b| / 8
    ensures Bits(r) == b
  {
    seq(|b| / 8, i requires 0 <= i < |b| / 8 => PackByte(b[8 * i..8 * i + 8]))
  }

  // ---------- field values ----------

  function Pow2(n: nat): (r: nat)
    ensures r > 0
  {
    if n == 0 then 1 else 2 * Pow2(n - 1)
  }

  /** The low len bits of data in two's complement, most significant first. */
  function Field(data: int, len: nat): (r: seq<bool>)
    ensures |r| == len
  {
    seq(len, k requires 0 <= k < len => TestBit(data, len - 1 - k))
  }

  /** The last bit is the parity of the data; the others are the field of its half. */
  lemma FieldStep(d: int, len: nat)
    requires len > 0
    ensures Field(d, len) == Field(d / 2, len - 1) + [d % 2 == 1]
  {
    forall k | 0 <= k < len
      ensures Field(d, len)[k] == (Field(d / 2, len - 1) + [d % 2 == 1])[k]
    {
      TestBitHalf(d, if k < len - 1 then len - 2 - k else 0);
    }
  }

  function UInt(b: seq<bool>): nat
  {
    if |b| == 0 then 0 else 2 * UInt(b[..|b| - 1]) + (if b[|b| - 1] then 1 else 0)
  }

  /** The two's complement value of a field. */
  function SInt(b: seq<bool>): int
  {
    if |b| > 0 && b[0] then UInt(b) - Pow2(|b|) else UInt(b)
  }

  lemma MulAtLeast(k: int, m: nat)
    requires k >= 1
    ensures k * m >= m
  {
    assert k * m == (k - 1) * m + m;
  }

  lemma DivModUnique(d: int, m: int, q: int, r: int)
    requires m > 0 && d == q * m + r && 0 <= r < m
    ensures d / m == q && d % m == r
  {
    var q', r' := d / m, d % m;
    assert d == q' * m + r';
    assert (q - q') * m == r' - r;
    if q > q' {
      MulAtLeast(q - q', m);
    } else if q < q' {
      MulAtLeast(q' - q, m);
    }
  }

  lemma DivPow2(d: int, n: nat)
    ensures d / Pow2(n + 1) == (d / 2) / Pow2(n)
    ensures d % Pow2(n + 1) == 2 * ((d / 2) % Pow2(n)) + d % 2
  {
    var p := Pow2(n);
    var h := d / 2;
    var q, r := h / p, h % p;
    assert h == q * p + r;
    assert q * (2 * p) == 2 * (q * p);
    DivModUnique(d, 2 * p, q, 2 * r + d % 2);
  }

  /** Reading a written field gives the data back modulo 2^len. */
  lemma {:induction false} UIntField(d: int, len: nat)
    ensures UInt(Field(d, len)) == d % Pow2(len)
    decreases len
  {
    if len > 0 {
      UIntField(d / 2, len - 1);
      DivPow2(d, len - 1);
      FieldStep(d, len);
      assert Field(d, len)[..len - 1] == Field(d / 2, len - 1);
    }
  }

  lemma {:induction false} UIntBound(b: seq<bool>)
    ensures UInt(b) < Pow2(|b|)
  {
    if |b| > 0 {
      UIntBound(b[..|b| - 1]);
    }
  }

  lemma PowersUpTo8()
    ensures Pow2(0) == 1 && Pow2(1) == 2 && Pow2(2) == 4 && Pow2(3) == 8 && Pow2(4) == 16
    ensures Pow2(5) == 32 && Pow2(6) == 64 && Pow2(7) == 128 && Pow2(8) == 256
  {
    assert Pow2(3) == 8;
    assert Pow2(6) == 64;
  }

  /** Every bit sequence is the field of its own value. */
  lemma {:induction false} FieldUInt(b: seq<bool>)
    ensures Field(UInt(b), |b|) == b
  {
    if |b| > 0 {
      var v, last := UInt(b[..|b| - 1]), b[|b| - 1];
      FieldUInt(b[..|b| - 1]);
      FieldStep(UInt(b), |b|);
      assert UInt(b) / 2 == v && (UInt(b) % 2 == 1) == last;
      assert b == b[..|b| - 1] + [last];
    }
  }

  /** data & mask for the one-bit mask 2^n. */
  predicate TestBit(d: int, n: nat) {
    (d / Pow2(n)) % 2 == 1
  }

  lemma TestBitHalf(d: int, n: nat)
    ensures TestBit(d, n + 1) == TestBit(d / 2, n)
    ensures TestBit(d, 0) <==> d % 2 == 1
  {
    DivPow2(d, n);
    DivModUnique(d, 1, d, 0);
  }

  /** Only the low len bits of the data matter. */
  lemma {:induction false} FieldMod(d: int, m: nat, len: nat)
    requires len <= m
    ensures Field(d % Pow2(m), len) == Field(d, len)
    decreases len
  {
    if len > 0 {
      var x := (d / 2) % Pow2(m - 1);
      DivPow2(d, m - 1);
      assert d % Pow2(m) == 2 * x + d % 2;
      FieldMod(d / 2, m - 1, len - 1);
      FieldStep(d, len);
      FieldStep(d % Pow2(m), len);
    }
  }

  lemma FieldSplit(d: int, len: nat)
    requires len > 0
    ensures Field(d, len) == [TestBit(d, len - 1)] + Field(d, len - 1)
  {
  }

  /** What setbits stores: an explicit sign bit, then the low len-1 bits. */
  function SField(data: int, len: nat): (r: seq<bool>)
    requires len > 0
    ensures |r| == len
  {
    [data < 0] + Field(data, len - 1)
  }

  lemma {:induction false} UIntCons(v: bool, b: seq<bool>)
    ensures UInt([v] + b) == (if v then Pow2(|b|) else 0) + UInt(b)
  {
    var s := [v] + b;
    if |b| > 0 {
      UIntCons(v, b[..|b| - 1]);
      assert s[..|s| - 1] == [v] + b[..|b| - 1];
    } else {
      assert s[..0] == [];
    }
  }

  /** A signed field reads back as the value written exactly when the value fits in it. */
  lemma SIntSField(d: int, len: nat)
    requires len > 0
    ensures SInt(SField(d, len)) == d <==> 0 - Pow2(len - 1) <= d < Pow2(len - 1)
  {
    var p := Pow2(len - 1);
    UIntCons(d < 0, Field(d, len - 1));
    UIntField(d, len - 1);
    assert 0 <= d % p < p;
    if 0 <= d < p {
      DivModUnique(d, p, 0, d);
    } else if -p <= d < 0 {
      DivModUnique(d, p, -1, d + p);
    }
  }

  /** The two unsigned and signed reads of a slice of the bits. */
  function ReadU(b: seq<bool>, pos: nat, len: nat): nat
    requires pos + len <= |b|
  {
    UInt(b[pos..pos + len])
  }

  function ReadS(b: seq<bool>, pos: nat, len: nat): int
    requires pos + len <= |b|
  {
    SInt(b[pos..pos + len])
  }

  // ---------- writers ----------

  /** b with the stretch from pos on replaced by f. */
  function Splice(b: seq<bool>, pos: nat, f: seq<bool>): (r: seq<bool>)
    requires pos + |f| <= |b|
    ensures |r| == |b|
  {
    b[..pos] + f + b[pos + |f|..]
  }

  /** setbitu: a length outside 1..32 leaves the buffer alone. */
  method SetBitU(buff: array<byte>, pos: nat, len: int, data: nat)
    requires 1 <= len <= 32 ==> pos + len <= 8 * buff.Length
    modifies buff
    ensures 1 <= len <= 32 ==> Bits(buff[..]) == Splice(old(Bits(buff[..])), pos, Field(data, len))
    ensures !(1 <= len <= 32) ==> buff[..] == old(buff[..])
  {
    hide Splice, SetBit, Bits;
    if len <= 0 || 32 < len {
      return;
    }
    ghost var was := Bits(buff[..]);
    ghost var f := Field(data, len);
    var mask := Pow2(len - 1);
    var i := pos;
    SpliceNone(was, pos, f[..0]);
    while i < pos + len
      invariant pos <= i <= pos + len
      invariant mask == if i < pos + len then Pow2(pos + len - 1 - i) else 0
      invariant Bits(buff[..]) == Splice(was, pos, f[..i - pos])
    {
      assert f[i - pos] == TestBit(data, pos + len - 1 - i);
      WriteNextBit(buff[..], was, pos, f, i);
      HalfMask(pos + len - 1 - i);
      buff[i / 8] := SetBit(buff[i / 8], i % 8, (data / mask) % 2 == 1);
      mask := mask / 2;
      i := i + 1;
    }
    assert f[..len] == f;
  }

  lemma SpliceNone(b: seq<bool>, pos: nat, f: seq<bool>)
    requires pos <= |b| && |f| == 0
    ensures Splice(b, pos, f) == b
  {
  }

  lemma HalfMask(n: nat)
    ensures Pow2(n) / 2 == if n == 0 then 0 else Pow2(n - 1)
  {
  }

  lemma WriteNextBit(s: seq<byte>, was: seq<bool>, pos: nat, f: seq<bool>, i: nat)
    requires pos <= i < pos + |f| <= |was| == 8 * |s|
    requires Bits(s) == Splice(was, pos, f[..i - pos])
    ensures Bits(s[i / 8 := SetBit(s[i / 8], i % 8, f[i - pos])]) == Splice(was, pos, f[..i + 1 - pos])
  {
    var v := f[i - pos];
    var t := s[i / 8 := SetBit(s[i / 8], i % 8, v)];
    forall k | 0 <= k < |was|
      ensures Bits(t)[k] == if k == i then v else Bits(s)[k]
    {
      SetBitAt(s[i / 8], i % 8, v, k % 8);
    }
    assert Bits(t) == Bits(s)[i := v];
  }

  /** data |= 1 << (len-1) for a negative value, data &= ~(1 << (len-1)) otherwise. */
  function MarkSign(data: int, len: nat): int
    requires len > 0
  {
    var p := Pow2(len - 1);
    var marked := TestBit(data, len - 1);
    if data < 0 then (if marked then data else data + p) else (if marked then data - p else data)
  }

  lemma MarkSignField(data: int, len: nat)
    requires len > 0
    ensures Field(MarkSign(data, len), len) == SField(data, len)
  {
    var p := Pow2(len - 1);
    var m := MarkSign(data, len);
    AddOne(data, p);
    AddOne(data - p, p);
    assert m % p == data % p;
    assert TestBit(m, len - 1) == (data < 0);
    FieldSplit(m, len);
    FieldMod(m, len - 1, len - 1);
    FieldMod(data, len - 1, len - 1);
  }

  lemma AddOne(d: int, m: int)
    requires m > 0
    ensures (d + m) / m == d / m + 1 && (d + m) % m == d % m
  {
    assert (d / m + 1) * m == (d / m) * m + m;
    DivModUnique(d + m, m, d / m + 1, d % m);
  }

  /** setbits: the value reaches setbitu as an unsigned 32-bit word. */
  method SetBits(buff: array<byte>, pos: nat, len: int, data: int)
    requires 1 <= len <= 32 && pos + len <= 8 * buff.Length
    modifies buff
    ensures Bits(buff[..]) == Splice(old(Bits(buff[..])), pos, SField(data, len))
  {
    var marked := MarkSign(data, len);
    Pow2Of32();
    FieldMod(marked, 32, len);
    MarkSignField(data, len);
    SetBitU(buff, pos, len, marked % U32);
  }

  lemma Pow2Of32()
    ensures Pow2(32) == U32 && Pow2(31) == 0x8000_0000
  {
    assert Pow2(8) == 256;
    assert Pow2(16) == 65536;
    assert Pow2(24) == 0x100_0000;
  }

  // ---------- readers ----------

  /** getbitu: the accumulator is a 32-bit word, which no field of up to 32 bits overflows. */
  method GetBitU(buff: array<byte>, pos: nat, len: nat) returns (bits: nat)
    requires len <= 32 && pos + len <= 8 * buff.Length
    ensures bits == ReadU(Bits(buff[..]), pos, len)
  {
    bits := 0;
    ghost var s := buff[..];
    var i := pos;
    while i < pos + len
      invariant pos <= i <= pos + len
      invariant bits == ReadU(Bits(s), pos, i - pos)
    {
      ReadNextBit(s, pos, i);
      bits := (2 * bits + (if BitOf(buff[i / 8], i % 8) then 1 else 0)) % U32;
      i := i + 1;
    }
  }

  lemma ReadNextBit(s: seq<byte>, pos: nat, i: nat)
    requires pos <= i < 8 * |s| && i + 1 - pos <= 32
    ensures ReadU(Bits(s), pos, i + 1 - pos)
         == (2 * ReadU(Bits(s), pos, i - pos) + (if BitOf(s[i / 8], i % 8) then 1 else 0)) % U32
  {
    hide BitOf, Bits;
    var f := Bits(s)[pos..i + 1];
    assert f[..|f| - 1] == Bits(s)[pos..i];
    LastBit(s, i);
    WordBound(f);
  }

  lemma LastBit(s: seq<byte>, i: nat)
    requires i < 8 * |s|
    ensures Bits(s)[i] == BitOf(s[i / 8], i % 8)
  {
  }

  lemma WordBound(f: seq<bool>)
    requires |f| <= 32
    ensures UInt(f) < U32
  {
    Pow2Of32();
    UIntBound(f);
    Pow2Monotone(|f|, 32);
  }

  lemma {:induction false} Pow2Monotone(a: nat, b: nat)
    requires a <= b
    ensures Pow2(a) <= Pow2(b)
    decreases b
  {
    if a < b {
      Pow2Monotone(a, b - 1);
    }
  }

  lemma TopBit(f: seq<bool>)
    requires |f| > 0
    ensures TestBit(UInt(f), |f| - 1) == f[0]
  {
    FieldUInt(f);
    FieldSplit(UInt(f), |f|);
  }

  /** getbits: the sign is extended below 32 bits; a full word is reinterpreted as signed. */
  method GetBits(buff: array<byte>, pos: nat, len: nat) returns (v: int)
    requires len <= 32 && pos + len <= 8 * buff.Length
    ensures v == ReadS(Bits(buff[..]), pos, len)
  {
    var bits := GetBitU(buff, pos, len);
    if len == 0 {
      return bits;
    }
    TopBit(Bits(buff[..])[pos..pos + len]);
    if 32 <= len {
      Pow2Of32();
      v := if TestBit(bits, 31) then bits - U32 else bits;
    } else if !TestBit(bits, len - 1) {
      v := bits;
    } else {
      v := bits - Pow2(len);
    }
  }

  // ---------- the value of bytes ----------

  lemma UIntNext(s: seq<bool>, n: nat)
    requires 0 < n <= |s|
    ensures UInt(s[..n]) == 2 * UInt(s[..n - 1]) + (if s[n - 1] then 1 else 0)
  {
    assert s[..n][..n - 1] == s[..n - 1];
  }

  /** The value of a byte is that of its bits, the first of which is worth 128. */
  lemma ByteValue(b: byte)
    ensures UInt(Bits([b])) == b as int
  {
    var s := Bits([b]);
    hide UInt, Bits;
    EmptyValue();
    assert s[..0] == [] && s[..8] == s;
    UIntNext(s, 1);
    UIntNext(s, 2);
    UIntNext(s, 3);
    UIntNext(s, 4);
    UIntNext(s, 5);
    UIntNext(s, 6);
    UIntNext(s, 7);
    UIntNext(s, 8);
    BitsOfByte(b);
  }

  lemma EmptyValue()
    ensures UInt([]) == 0
  {
  }

  lemma BitsOfByte(b: byte)
    ensures var s := Bits([b]);
            b as int == (if s[0] then 128 else 0) + (if s[1] then 64 else 0) + (if s[2] then 32 else 0)
                        + (if s[3] then 16 else 0) + (if s[4] then 8 else 0) + (if s[5] then 4 else 0)
                        + (if s[6] then 2 else 0) + (if s[7] then 1 else 0)
  {
  }

  lemma {:induction false} UIntConcat(a: seq<bool>, b: seq<bool>)
    ensures UInt(a + b) == UInt(a) * Pow2(|b|) + UInt(b)
  {
    if |b| == 0 {
      assert a + b == a;
    } else {
      var n := |b| - 1;
      UIntConcat(a, b[..n]);
      assert (a + b)[..|a + b| - 1] == a + b[..n];
      DoubleProduct(UInt(a), Pow2(n));
    }
  }

  lemma DoubleProduct(a: int, p: int)
    ensures a * (2 * p) == 2 * (a * p)
  {
  }

  /** The value of the bits of a byte string: the first byte is the most significant. */
  lemma BytesValue(s: seq<byte>, b: byte)
    ensures UInt(Bits(s + [b])) == 256 * UInt(Bits(s)) + b as int
  {
    BitsConcat(s, [b]);
    UIntConcat(Bits(s), Bits([b]));
    ByteValue(b);
    PowersUpTo8();
  }

  /** The byte of a value, modulo 256. */
  function ByteFor(n: nat): (b: byte)
    ensures b as int == n % 256
  {
    var f := Pack(Field(n, 8));
    ByteValue(f[0]);
    assert f == [f[0]];
    UIntField(n, 8);
    PowersUpTo8();
    f[0]
  }
}
