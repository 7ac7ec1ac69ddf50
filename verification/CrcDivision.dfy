/** Polynomials over GF(2) as bit sequences, highest power first, and long division by a generator. This is
    the reference that both CRCs are measured against. */
module CrcDivision {
  import opened BitFields

  function Zeros(n: nat): (r: seq<bool>)
    ensures |r| == n
  {
    seq(n, _ => false)
  }

  lemma {:induction false} FieldZero(n: nat)
    ensures Field(0, n) == Zeros(n)
  {
    if n > 0 {
      FieldZero(n - 1);
      FieldStep(0, n);
    }
  }

  function Xor(a: seq<bool>, b: seq<bool>): (r: seq<bool>)
    requires |a| == |b|
    ensures |r| == |a|
  {
    seq(|a|, i requires 0 <= i < |a| => a[i] != b[i])
  }

  /** The coefficients of a generator, the leading one included. */
  type Generator = g: seq<bool> | |g| > 8 && g[0] witness [true] + Zeros(8)

  /** Bring down one bit of the dividend; subtract the generator when the leading coefficient is set. */
  function DivideBit(g: Generator, r: seq<bool>, bit: bool): (q: seq<bool>)
    requires |r| + 1 == |g|
    ensures |q| == |r|
  {
    var v := r + [bit];
    (if v[0] then Xor(v, g) else v)[1..]
  }

  /** The remainder after the bits of the dividend have been brought down one by one. */
  function Divide(g: Generator, r: seq<bool>, bits: seq<bool>): (q: seq<bool>)
    requires |r| + 1 == |g|
    ensures |q| == |r|
  {
    if |bits| == 0 then r else DivideBit(g, Divide(g, r, bits[..|bits| - 1]), bits[|bits| - 1])
  }

  // ---------- division is linear ----------

  lemma DivideBitXor(g: Generator, a: seq<bool>, x: bool, b: seq<bool>, y: bool)
    requires |a| + 1 == |b| + 1 == |g|
    ensures DivideBit(g, Xor(a, b), x != y) == Xor(DivideBit(g, a, x), DivideBit(g, b, y))
  {
  }

  lemma {:induction false} DivideXor(g: Generator, a: seq<bool>, s: seq<bool>, b: seq<bool>, t: seq<bool>)
    requires |a| + 1 == |b| + 1 == |g| && |s| == |t|
    ensures Divide(g, Xor(a, b), Xor(s, t)) == Xor(Divide(g, a, s), Divide(g, b, t))
  {
    if |s| > 0 {
      var n := |s| - 1;
      DivideXor(g, a, s[..n], b, t[..n]);
      DivideBitXor(g, Divide(g, a, s[..n]), s[n], Divide(g, b, t[..n]), t[n]);
      assert Xor(s, t)[..n] == Xor(s[..n], t[..n]);
    }
  }

  lemma {:induction false} DivideConcat(g: Generator, r: seq<bool>, a: seq<bool>, b: seq<bool>)
    requires |r| + 1 == |g|
    ensures Divide(g, r, a + b) == Divide(g, Divide(g, r, a), b)
  {
    if |b| == 0 {
      assert a + b == a;
    } else {
      DivideConcat(g, r, a, b[..|b| - 1]);
      assert (a + b)[..|a + b| - 1] == a + b[..|b| - 1];
    }
  }

  /** A dividend shorter than the generator is its own remainder. */
  lemma {:induction false} DivideSmall(g: Generator, b: seq<bool>)
    requires |b| < |g|
    ensures Divide(g, Zeros(|g| - 1), b) == Zeros(|g| - 1 - |b|) + b
  {
    if |b| > 0 {
      var n := |b| - 1;
      DivideSmall(g, b[..n]);
      var r := Zeros(|g| - 1 - n) + b[..n];
      assert r[0] == false;
      assert DivideBit(g, r, b[n]) == Zeros(|g| - 1 - |b|) + b;
    }
  }

  /** The parity of a bit string: the remainder of the string shifted up by the generator's degree. */
  function Parity(g: Generator, b: seq<bool>): (r: seq<bool>)
    ensures |r| == |g| - 1
  {
    Divide(g, Zeros(|g| - 1), b + Zeros(|g| - 1))
  }

  lemma XorZeros(a: seq<bool>)
    ensures Xor(a, Zeros(|a|)) == a == Xor(Zeros(|a|), a)
    ensures Xor(a, a) == Zeros(|a|)
  {
  }

  /** Appending its parity makes a bit string divisible by the generator. */
  lemma ParityDivides(g: Generator, b: seq<bool>)
    ensures Divide(g, Zeros(|g| - 1), b + Parity(g, b)) == Zeros(|g| - 1)
  {
    var z, p := Zeros(|g| - 1), Parity(g, b);
    assert Xor(b + z, Zeros(|b|) + p) == b + p by {
      XorZeros(b);
      XorZeros(p);
    }
    DivideXor(g, z, b + z, z, Zeros(|b|) + p);
    XorZeros(z);
    DivideLeadingZeros(g, |b|, p);
    DivideSmall(g, p);
    assert Zeros(0) + p == p;
    XorZeros(p);
  }

  lemma DivideLeadingZeros(g: Generator, n: nat, b: seq<bool>)
    ensures Divide(g, Zeros(|g| - 1), Zeros(n) + b) == Divide(g, Zeros(|g| - 1), b)
  {
    DivideConcat(g, Zeros(|g| - 1), Zeros(n), b);
    DivideZeros(g, n);
  }

  lemma {:induction false} DivideZeros(g: Generator, n: nat)
    ensures Divide(g, Zeros(|g| - 1), Zeros(n)) == Zeros(|g| - 1)
  {
    if n > 0 {
      DivideZeros(g, n - 1);
      assert Zeros(n)[..n - 1] == Zeros(n - 1);
      assert DivideBit(g, Zeros(|g| - 1), false) == Zeros(|g| - 1);
    }
  }

  /** A bit string is divisible by the generator exactly when its own parity is zero. */
  lemma DivisibleHasZeroParity(g: Generator, b: seq<bool>)
    requires Divide(g, Zeros(|g| - 1), b) == Zeros(|g| - 1)
    ensures Parity(g, b) == Zeros(|g| - 1)
  {
    DivideConcat(g, Zeros(|g| - 1), b, Zeros(|g| - 1));
    DivideZeros(g, |g| - 1);
  }

  // ---------- a byte at a time ----------

  /** What absorbing eight bits does to the parity register. */
  function ParityStep(g: Generator, c: seq<bool>, b: seq<bool>): (r: seq<bool>)
    requires |c| + 1 == |g| && |b| == 8
    ensures |r| == |c|
  {
    Divide(g, Xor(c, b + Zeros(|g| - 9)), Zeros(8))
  }

  /** Eight bits, and the zeros after them, on their own. */
  lemma ParityOfEight(g: Generator, b: seq<bool>)
    requires |b| == 8
    ensures Parity(g, b) == Divide(g, b + Zeros(|g| - 9), Zeros(8))
  {
    var w := b + Zeros(|g| - 9);
    DivideSmall(g, w);
    assert Zeros(0) + w == w;
    DivideConcat(g, Zeros(|g| - 1), w, Zeros(8));
    assert w + Zeros(8) == b + Zeros(|g| - 1);
  }

  /** Shifting the dividend up by eight more places. */
  lemma ParityShift(g: Generator, s: seq<bool>)
    ensures Divide(g, Divide(g, Zeros(|g| - 1), s), Zeros(|g| + 7)) == Divide(g, Parity(g, s), Zeros(8))
  {
    var z := Zeros(|g| - 1);
    DivideConcat(g, Divide(g, z, s), z, Zeros(8));
    DivideConcat(g, z, s, z);
    assert z + Zeros(8) == Zeros(|g| + 7);
  }

  /** The parity of a string extended by eight bits. */
  lemma ParityExtend(g: Generator, s: seq<bool>, b: seq<bool>)
    requires |b| == 8
    ensures Parity(g, s + b) == ParityStep(g, Parity(g, s), b)
  {
    var z := Zeros(|g| - 1);
    var r := Divide(g, z, s);
    assert Parity(g, s + b) == Divide(g, r, b + z) by {
      DivideConcat(g, z, s, b + z);
      assert s + b + z == s + (b + z);
    }
    assert Divide(g, r, b + z) == Xor(Divide(g, r, Zeros(|g| + 7)), Parity(g, b)) by {
      DivideXor(g, r, Zeros(|g| + 7), z, b + z);
      XorZeros(r);
      XorZeros(b + z);
    }
    ParityShift(g, s);
    ParityOfEight(g, b);
    DivideXor(g, Parity(g, s), Zeros(8), b + Zeros(|g| - 9), Zeros(8));
    XorZeros(Zeros(8));
  }

  /** The remainder of the power x^n. */
  function Power(g: Generator, n: nat): seq<bool> {
    Divide(g, Zeros(|g| - 1), [true] + Zeros(n))
  }

  lemma PowerNext(g: Generator, n: nat)
    ensures Power(g, n + 1) == DivideBit(g, Power(g, n), false)
  {
    assert ([true] + Zeros(n + 1))[..n + 1] == [true] + Zeros(n);
  }

  /** The power of the generator's degree leaves the rest of the generator. */
  lemma PowerOfDegree(g: Generator)
    ensures Power(g, |g| - 1) == g[1..]
  {
    var n := |g| - 2;
    PowerNext(g, n);
    DivideSmall(g, [true] + Zeros(n));
    assert Power(g, n) == [true] + Zeros(n) by {
      assert Zeros(0) + ([true] + Zeros(n)) == [true] + Zeros(n);
    }
    LeadingOneGivesGenerator(g, n);
  }

  lemma LeadingOneGivesGenerator(g: Generator, n: nat)
    requires |g| == n + 2
    ensures Xor([true] + Zeros(n) + [false], g)[1..] == g[1..]
  {
  }
}
