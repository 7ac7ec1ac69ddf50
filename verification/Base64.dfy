/** The Base64 encoder and decoder, whose 32-bit accumulators wrap, against section 4 of RFC 4648. */
module Base64 {
  import opened BitFields

  type sextet = x: int | 0 <= x < 64

  /** b64: the alphabet of table 1 of RFC 4648. */
  function Letter(v: sextet): (c: char)
    ensures c != '='
  {
    if v < 26 then 'A' + v as char
    else if v < 52 then 'a' + (v - 26) as char
    else if v < 62 then '0' + (v - 52) as char
    else if v == 62 then '+' else '/'
  }

  /** Table 1 of RFC 4648: A to Z, a to z, 0 to 9, + and /, in ASCII. */
  lemma LetterOfTable(v: sextet)
    ensures var c := Letter(v) as int;
            c == if v < 26 then 65 + v else if v < 52 then 71 + v else if v < 62 then v - 4
                 else if v == 62 then 43 else 47
  {
  }

  /** map2, which starts at '+'. */
  function Value(c: char): (v: int)
    ensures -1 <= v < 64
  {
    if 'A' <= c <= 'Z' then c as int - 'A' as int
    else if 'a' <= c <= 'z' then c as int - 'a' as int + 26
    else if '0' <= c <= '9' then c as int - '0' as int + 52
    else if c == '+' then 62
    else if c == '/' then 63
    else -1
  }

  lemma LettersInvert(v: sextet)
    ensures Value(Letter(v)) == v
  {
  }

  // ---------- the reference: groups of three octets ----------

  /** Section 4 of RFC 4648: three octets give four letters; one or two left over are padded. */
  function Encoding(x: seq<octet>): string {
    if |x| == 0 then ""
    else if |x| == 1 then [Letter(x[0] / 4), Letter(x[0] % 4 * 16), '=', '=']
    else if |x| == 2 then
      [Letter(x[0] / 4), Letter(x[0] % 4 * 16 + x[1] / 16), Letter(x[1] % 16 * 4), '=']
    else
      [Letter(x[0] / 4), Letter(x[0] % 4 * 16 + x[1] / 16), Letter(x[1] % 16 * 4 + x[2] / 64), Letter(x[2] % 64)]
      + Encoding(x[3..])
  }

  function At(x: seq<octet>, i: int): octet {
    if 0 <= i < |x| then x[i] else 0
  }

  /** Letter r of group q, the octets extended by zeros. */
  function Six(x: seq<octet>, q: nat, r: nat): sextet {
    if r == 0 then At(x, 3 * q) / 4
    else if r == 1 then At(x, 3 * q) % 4 * 16 + At(x, 3 * q + 1) / 16
    else if r == 2 then At(x, 3 * q + 1) % 16 * 4 + At(x, 3 * q + 2) / 64
    else At(x, 3 * q + 2) % 64
  }

  /** The four sextets of a group are the digits to base 64 of its three octets. */
  lemma GroupDigits(x: seq<octet>, q: nat)
    ensures Six(x, q, 0) * 262144 + Six(x, q, 1) * 4096 + Six(x, q, 2) * 64 + Six(x, q, 3)
         == At(x, 3 * q) * 65536 + At(x, 3 * q + 1) * 256 + At(x, 3 * q + 2)
  {
  }

  function Sextet(x: seq<octet>, k: nat): sextet {
    Six(x, k / 4, k % 4)
  }

  lemma SextetIs(x: seq<octet>, k: nat, q: nat, r: nat)
    requires k == 4 * q + r && r < 4
    ensures Sextet(x, k) == Six(x, q, r)
  {
    DivModUnique(k, 4, q, r);
  }

  function Letters(n: nat): nat {
    (8 * n + 5) / 6
  }

  lemma SextetShift(x: seq<octet>, k: nat)
    requires |x| >= 3
    ensures Sextet(x, k + 4) == Sextet(x[3..], k)
  {
    assert (k + 4) / 4 == k / 4 + 1 && (k + 4) % 4 == k % 4;
    forall i: nat
      ensures At(x, i + 3) == At(x[3..], i)
    {
    }
  }

  lemma FirstFour(x: seq<octet>, k: nat)
    requires |x| >= 3 && k < 4
    ensures Encoding(x)[k] == Letter(Sextet(x, k))
  {
    hide Sextet, Letter;
    SextetIs(x, k, 0, k);
  }

  lemma ShortEncoding(x: seq<octet>)
    requires |x| < 3
    ensures forall k | 0 <= k < Letters(|x|) :: Encoding(x)[k] == Letter(Sextet(x, k))
  {
  }

  /** The groups of three are the stream of sextets, padded to a multiple of four. */
  lemma {:induction false} EncodingAt(x: seq<octet>)
    ensures |Encoding(x)| == 4 * ((|x| + 2) / 3)
    ensures Letters(|x|) <= |Encoding(x)|
    ensures forall k | 0 <= k < Letters(|x|) :: Encoding(x)[k] == Letter(Sextet(x, k))
    ensures forall k | Letters(|x|) <= k < |Encoding(x)| :: Encoding(x)[k] == '='
  {
    hide Sextet, Letter;
    if |x| < 3 {
      ShortEncoding(x);
    } else {
      var t := x[3..];
      EncodingAt(t);
      assert Letters(|x|) == Letters(|t|) + 4;
      forall k | 0 <= k < Letters(|x|)
        ensures Encoding(x)[k] == Letter(Sextet(x, k))
      {
        if k >= 4 {
          SextetShift(x, k - 4);
          assert Encoding(x)[k] == Encoding(t)[k - 4];
        } else {
          FirstFour(x, k);
        }
      }
      forall k | Letters(|x|) <= k < |Encoding(x)|
        ensures Encoding(x)[k] == '='
      {
        assert Encoding(x)[k] == Encoding(t)[k - 4];
      }
    }
  }

  // ---------- encode ----------

  function Divisor(shift: int): (d: nat)
    ensures d > 0
  {
    if shift == 2 then 4 else if shift == 4 then 16 else if shift == 6 then 64 else if shift == 8 then 256
    else if shift == 10 then 1024 else if shift == 12 then 4096 else 16384
  }

  /** (i_bits << 6 >> i_shift) & 0x3f in 32 bits, for the shifts that occur: 2, 4, ..., 14. */
  function Taken(bits: nat, shift: int): sextet {
    bits * 64 % U32 / Divisor(shift) % 64
  }

  /** The six bits a shift selects from the last two octets. */
  function Selected(a: octet, b: octet, shift: int): sextet {
    if shift == 2 then b % 4 * 16 else if shift == 4 then b % 16 * 4 else if shift == 6 then b % 64
    else if shift == 8 then b / 4 else if shift == 10 then a % 4 * 16 + b / 16
    else if shift == 12 then a % 16 * 4 + b / 64 else a % 64
  }

  lemma Quotients(w: nat, d: nat, q: nat, m: nat, k: nat, r: nat)
    requires d > 0 && w == q * d + m && m < d && q == k * 64 + r && r < 64
    ensures w / d % 64 == r
  {
    DivModUnique(w, d, q, m);
    DivModUnique(q, 64, k, r);
  }

  lemma TakenFrom(g: nat, a: octet, b: octet, shift: int)
    requires shift in {2, 4, 6, 8, 10, 12, 14}
    ensures (g * 4194304 + a * 16384 + b * 64) / Divisor(shift) % 64 == Selected(a, b, shift)
  {
    var w := g * 4194304 + a * 16384 + b * 64;
    if shift == 2 {
      Quotients(w, 4, g * 1048576 + a * 4096 + b * 16, 0, g * 16384 + a * 64 + b / 4, b % 4 * 16);
    } else if shift == 4 {
      Quotients(w, 16, g * 262144 + a * 1024 + b * 4, 0, g * 4096 + a * 16 + b / 16, b % 16 * 4);
    } else if shift == 6 {
      Quotients(w, 64, g * 65536 + a * 256 + b, 0, g * 1024 + a * 4 + b / 64, b % 64);
    } else if shift == 8 {
      Quotients(w, 256, g * 16384 + a * 64 + b / 4, b % 4 * 64, g * 256 + a, b / 4);
    } else if shift == 10 {
      Quotients(w, 1024, g * 4096 + a * 16 + b / 16, b % 16 * 64, g * 64 + a / 4, a % 4 * 16 + b / 16);
    } else if shift == 12 {
      Quotients(w, 4096, g * 1024 + a * 4 + b / 64, b % 64 * 64, g * 16 + a / 16, a % 16 * 4 + b / 64);
    } else {
      Quotients(w, 16384, g * 256 + a, b * 64, g * 4 + a / 64, a % 64);
    }
  }

  /** The accumulator's two low octets are the last two; dropping its high bits does not reach them. */
  ghost predicate Holds(bits: nat, x: seq<octet>, i: nat) {
    bits < U32 && bits % 256 == At(x, i - 1) && bits / 256 % 256 == At(x, i - 2)
  }

  lemma NextOctet(bits: nat, x: seq<octet>, i: nat)
    requires i < |x| && Holds(bits, x, i)
    ensures Holds((bits * 256 + x[i]) % U32, x, i + 1)
  {
    var h, l := bits / 0x100_0000, bits % 0x100_0000;
    DivModUnique(bits * 256 + x[i], U32, h, l * 256 + x[i]);
    DivModUnique(l * 256 + x[i], 256, l, x[i]);
    DivModUnique(bits, 256, h * 65536 + l / 256, l % 256);
  }

  lemma TakenSelects(bits: nat, a: octet, b: octet, shift: int)
    requires bits < U32 && bits % 256 == b && bits / 256 % 256 == a && shift in {2, 4, 6, 8, 10, 12, 14}
    ensures Taken(bits, shift) == Selected(a, b, shift)
  {
    var h := bits / 256 / 256;
    var g := h % 1024;
    assert bits == h * 65536 + a * 256 + b;
    DivModUnique(bits * 64, U32, h / 1024, g * 4194304 + a * 16384 + b * 64);
    TakenFrom(g, a, b, shift);
  }

  /** The letter taken is the next sextet of the octets seen; with a shift below 6 it is the last. */
  lemma TakenIsSextet(bits: nat, x: seq<octet>, i: nat, shift: int, k: nat)
    requires 1 <= i <= |x| && Holds(bits, x, i) && 0 < shift <= 14
    requires 6 * k + shift == 8 * i
    requires shift < 6 ==> i == |x|
    ensures Taken(bits, shift) == Sextet(x, k)
  {
    hide Taken, Sextet;
    var q, r := k / 4, k % 4;
    assert shift == 8 * i - 24 * q - 6 * r;
    SextetIs(x, k, q, r);
    assert shift in {2, 4, 6, 8, 10, 12, 14};
    TakenSelects(bits, At(x, i - 2), At(x, i - 1), shift);
    if r == 0 {
      assert i == 3 * q + 1;
    } else if r == 1 {
      assert i == 3 * q + 1 || i == 3 * q + 2;
    } else if r == 2 {
      assert i == 3 * q + 2 || i == 3 * q + 3;
    } else {
      assert i == 3 * q + 3 || i == 3 * q + 4;
    }
  }

  const LIMIT := 0xFFFF_FFFF / 4

  /** Base64::encode and Application's encode: nothing for an input or an output of unsuitable size. */
  method Encode(out: array<char>, outSize: nat, input: seq<octet>) returns (ok: bool)
    requires outSize <= out.Length
    modifies out
    ensures ok <==> |input| < LIMIT && (|input| + 2) / 3 * 4 + 1 <= outSize
    ensures ok ==> |Encoding(input)| < outSize
                   && out[..|Encoding(input)|] == Encoding(input) && out[|Encoding(input)|] == '\0'
    ensures !ok ==> out[..] == old(out[..])
  {
    if |input| >= LIMIT || outSize < (|input| + 2) / 3 * 4 + 1 {
      return false;
    }
    hide Encoding, Sextet, Letter;
    EncodingAt(input);
    var dst := EncodeLetters(out, outSize, input);
    hide Letters;
    PadOut(out, dst, |input|, |Encoding(input)|);
    assert forall k | 0 <= k < |Encoding(input)| :: out[k] == Encoding(input)[k];
    out[|Encoding(input)|] := '\0';
    ok := true;
  }

  /** The second loop: '=' up to a multiple of four letters. */
  method PadOut(out: array<char>, from: nat, ghost n: nat, ghost size: nat)
    requires from == Letters(n) && size == 4 * ((n + 2) / 3) < out.Length
    modifies out
    ensures forall k | 0 <= k < out.Length :: out[k] == if from <= k < size then '=' else old(out[k])
  {
    FewPads(n);
    hide Letters;
    var dst := from;
    while dst % 4 != 0
      invariant from <= dst <= size < dst + 4
      invariant forall k | 0 <= k < out.Length :: out[k] == if from <= k < dst then '=' else old(out[k])
      decreases size - dst
    {
      out[dst] := '=';
      dst := dst + 1;
    }
  }

  lemma FewPads(n: nat)
    ensures Letters(n) <= 4 * ((n + 2) / 3) < Letters(n) + 4
  {
    var q, r := n / 3, n % 3;
    assert n == 3 * q + r;
    DivModUnique(8 * n + 5, 6, if r == 0 then 4 * q else if r == 1 then 4 * q + 2 else 4 * q + 3,
                           if r == 0 then 5 else if r == 1 then 1 else 3);
    DivModUnique(n + 2, 3, if r == 0 then q else q + 1, if r == 0 then 2 else r - 1);
  }

  /** The loop over the octets. A letter may lag one octet behind; the last ones come out at the end. */
  method EncodeLetters(out: array<char>, outSize: nat, input: seq<octet>) returns (dst: nat)
    requires (|input| + 2) / 3 * 4 + 1 <= outSize <= out.Length
    modifies out
    ensures dst == Letters(|input|)
    ensures forall k | 0 <= k < dst :: out[k] == Letter(Sextet(input, k))
  {
    dst := 0;
    var bits: nat, shift, i := 0, 0, 0;
    while i < |input|
      invariant 0 <= i <= |input| && Holds(bits, input, i)
      invariant 6 * dst + shift == 8 * i
      invariant if i == 0 then shift == 0 else if i < |input| then 0 < shift <= 6 else -6 < shift <= 0
      invariant forall k | 0 <= k < dst :: out[k] == Letter(Sextet(input, k))
    {
      NextOctet(bits, input, i);
      bits := (bits * 256 + input[i]) % U32;
      i := i + 1;
      shift := shift + 8;
      var more := true;
      while more
        invariant Holds(bits, input, i) && 6 * dst + shift == 8 * i
        invariant more <==> shift > 6 || (i == |input| && shift > 0)
        invariant if more then 0 < shift <= 14 else -6 < shift <= 6
        invariant i < |input| ==> shift > 0
        invariant forall k | 0 <= k < dst :: out[k] == Letter(Sextet(input, k))
        decreases shift
      {
        TakenIsSextet(bits, input, i, shift, dst);
        out[dst] := Letter(Taken(bits, shift));
        dst := dst + 1;
        shift := shift - 6;
        more := shift > 6 || (i == |input| && shift > 0);
      }
    }
  }

  // ---------- decode ----------

  /** The letters before the first '='. */
  function Body(s: string): string {
    if |s| == 0 || s[0] == '=' then "" else [s[0]] + Body(s[1..])
  }

  predicate AllLetters(s: string) {
    forall i | 0 <= i < |s| :: Value(s[i]) != -1
  }

  /** The octet completed by letter i, from its bits and those of the letter before. */
  function OctetAt(s: string, i: nat): octet
    requires 0 < i < |s| && i % 4 != 0 && AllLetters(s)
  {
    Join(Value(s[i - 1]), Value(s[i]), i % 4)
  }

  /** What a string of letters decodes to: an octet for every letter but the first of each four. */
  function Octets(s: string): seq<octet>
    requires AllLetters(s)
  {
    var i := |s| - 1;
    if i < 0 then [] else if i % 4 == 0 then Octets(s[..i]) else Octets(s[..i]) + [OctetAt(s, i)]
  }

  function Cut(s: seq<octet>, n: nat): seq<octet> {
    if |s| <= n then s else s[..n]
  }

  lemma {:induction false} BodyPrefix(s: string, i: nat)
    requires i <= |s| && forall k | 0 <= k < i :: s[k] != '='
    ensures i <= |Body(s)| && Body(s)[..i] == s[..i]
    ensures i == |s| || s[i] == '=' ==> Body(s) == s[..i]
    decreases i
  {
    if i > 0 {
      BodyPrefix(s[1..], i - 1);
      assert s[..i] == [s[0]] + s[1..][..i - 1];
    }
  }

  /** Base64::decode: -1 on a foreign character before the first '='; what does not fit is dropped. */
  method Decode(out: array<octet>, outSize: nat, input: string) returns (r: int)
    requires outSize <= out.Length
    modifies out
    ensures r == -1 <==> !AllLetters(Body(input))
    ensures AllLetters(Body(input)) ==>
              var x := Cut(Octets(Body(input)), outSize); r == |x| && out[..r] == x
  {
    var i, dst, v := 0, 0, 0;
    hide Octets, Value, Join, Body;
    assert Octets(input[..0]) == [] by {
      NoOctets();
    }
    while i < |input| && input[i] != '='
      invariant 0 <= i <= |input| && forall k | 0 <= k < i :: input[k] != '='
      invariant AllLetters(input[..i]) && 0 <= v < U32
      invariant i > 0 ==> v % 64 == Value(input[i - 1])
      invariant dst == (if |Octets(input[..i])| <= outSize then |Octets(input[..i])| else outSize)
      invariant forall k | 0 <= k < dst :: out[k] == Octets(input[..i])[k]
    {
      BodyPrefix(input, i + 1);
      var m := Value(input[i]);
      if m == -1 {
        assert Body(input)[..i + 1][i] == input[i];
        return -1;
      }
      OctetsNext(input, i);
      LastLetter(v, m);
      if i > 0 {
        NextLetter(v, Value(input[i - 1]), m);
      }
      v := (v * 64 + m) % U32;
      if i % 4 != 0 {
        OctetTaken(v, Value(input[i - 1]), m, i % 4);
        if dst < outSize {
          out[dst] := v / (if i % 4 == 1 then 16 else if i % 4 == 2 then 4 else 1) % 256;
          dst := dst + 1;
        }
      }
      i := i + 1;
    }
    BodyPrefix(input, i);
    r := dst;
  }

  lemma NoOctets()
    ensures Octets([]) == []
  {
  }

  lemma OctetsNext(s: string, i: nat)
    requires i < |s| && AllLetters(s[..i]) && Value(s[i]) != -1
    ensures AllLetters(s[..i + 1])
    ensures Octets(s[..i + 1])
         == if i % 4 == 0 then Octets(s[..i]) else Octets(s[..i]) + [Join(Value(s[i - 1]), Value(s[i]), i % 4)]
  {
    var t := s[..i + 1];
    assert t[..i] == s[..i];
    assert forall k | 0 <= k < i :: t[k] == s[..i][k];
  }

  /** Two letters on, the low twelve bits of the accumulator are theirs. */
  lemma NextLetter(v: nat, p: sextet, m: sextet)
    requires v < U32 && v % 64 == p
    ensures (v * 64 + m) % U32 % 4096 == p * 64 + m
  {
    var h := v / 64;
    DivModUnique(v * 64 + m, U32, h / 0x10_0000, h % 0x10_0000 * 4096 + p * 64 + m);
    DivModUnique(h % 0x10_0000 * 4096 + p * 64 + m, 4096, h % 0x10_0000, p * 64 + m);
  }

  lemma LastLetter(v: nat, m: sextet)
    requires v < U32
    ensures (v * 64 + m) % U32 % 64 == m
  {
    var h, l := v / 0x400_0000, v % 0x400_0000;
    DivModUnique(v * 64 + m, U32, h, l * 64 + m);
    DivModUnique(l * 64 + m, 64, l, m);
  }

  function Join(a: sextet, b: sextet, r: nat): octet {
    if r == 1 then a * 4 + b / 16 else if r == 2 then a % 16 * 16 + b / 4 else a % 4 * 64 + b
  }

  lemma OctetTaken(v: nat, a: sextet, b: sextet, r: nat)
    requires 1 <= r <= 3 && v % 4096 == a * 64 + b
    ensures v / (if r == 1 then 16 else if r == 2 then 4 else 1) % 256 == Join(a, b, r)
  {
    var g := v / 4096;
    assert v == g * 4096 + a * 64 + b;
    if r == 1 {
      DivModUnique(v, 16, g * 256 + a * 4 + b / 16, b % 16);
      DivModUnique(g * 256 + a * 4 + b / 16, 256, g, a * 4 + b / 16);
    } else if r == 2 {
      DivModUnique(v, 4, g * 1024 + a * 16 + b / 4, b % 4);
      DivModUnique(g * 1024 + a * 16 + b / 4, 256, g * 4 + a / 16, a % 16 * 16 + b / 4);
    } else {
      DivModUnique(v, 256, g * 16 + a / 4, a % 4 * 64 + b);
    }
  }

  // ---------- round trip ----------

  /** Where octet j is completed. */
  function Completed(j: nat): nat {
    j + j / 3 + 1
  }

  /** The number of octets that n letters complete. */
  function OctetCount(n: nat): int {
    n - (n + 3) / 4
  }

  /** Every letter but the first of each four completes the next octet. */
  lemma NextCount(i: nat)
    ensures OctetCount(0) == 0
    ensures OctetCount(i + 1) == OctetCount(i) + (if i % 4 == 0 then 0 else 1)
    ensures i % 4 != 0 ==> OctetCount(i) >= 0 && Completed(OctetCount(i)) == i
  {
    var q, r := i / 4, i % 4;
    DivModUnique(i + 3, 4, if r == 0 then q else q + 1, if r == 0 then 3 else r - 1);
    DivModUnique(i + 4, 4, q + 1, r);
    if r != 0 {
      DivModUnique(3 * q + r - 1, 3, q, r - 1);
    }
  }

  lemma {:induction false} OctetsOf(s: string, j: nat)
    requires AllLetters(s)
    ensures |Octets(s)| == OctetCount(|s|)
    ensures j < |Octets(s)| ==>
              Completed(j) < |s| && Completed(j) % 4 != 0 && Octets(s)[j] == OctetAt(s, Completed(j))
  {
    hide Join, Value, OctetCount, Completed;
    var i := |s| - 1;
    if i < 0 {
      NextCount(0);
    } else {
      OctetsOf(s[..i], j);
      NextCount(i);
    }
  }

  /** Decoding an encoding gives the octets back. */
  lemma RoundTrip(x: seq<octet>)
    ensures AllLetters(Body(Encoding(x))) && Octets(Body(Encoding(x))) == x
  {
    var e, n := Encoding(x), Letters(|x|);
    EncodingAt(x);
    BodyPrefix(e, n);
    var b := e[..n];
    forall k | 0 <= k < n
      ensures Value(b[k]) == Sextet(x, k)
    {
      LettersInvert(Sextet(x, k));
    }
    OctetsOf(b, 0);
    forall j | 0 <= j < |x|
      ensures Octets(b)[j] == x[j]
    {
      OctetsOf(b, j);
      Reassembled(x, b, j);
    }
  }

  lemma Reassembled(x: seq<octet>, b: string, j: nat)
    requires j < |x| && AllLetters(b)
    requires Completed(j) < |b| && Completed(j) % 4 != 0
    requires forall k | 0 <= k < |b| :: Value(b[k]) == Sextet(x, k)
    ensures OctetAt(b, Completed(j)) == x[j]
  {
    var q, t, i := j / 3, j % 3, Completed(j);
    assert i == 4 * q + (t + 1) && i - 1 == 4 * q + t;
    assert Value(b[i - 1]) == Sextet(x, i - 1) && Value(b[i]) == Sextet(x, i);
    SextetIs(x, i - 1, q, t);
    SextetIs(x, i, q, t + 1);
    DivModUnique(i, 4, q, t + 1);
    SixJoin(x, q, t);
  }

  lemma SixJoin(x: seq<octet>, q: nat, t: nat)
    requires t < 3
    ensures Join(Six(x, q, t), Six(x, q, t + 1), t + 1) == At(x, 3 * q + t)
  {
    var a, b, c := At(x, 3 * q), At(x, 3 * q + 1), At(x, 3 * q + 2);
    DivModUnique(a % 4 * 16 + b / 16, 16, a % 4, b / 16);
    DivModUnique(b % 16 * 4 + c / 64, 4, b % 16, c / 64);
  }

  // ---------- the published text ----------

  /** publish counts the terminating NUL as part of the text it sends. */
  function Published(x: seq<octet>): string {
    Encoding(x) + ['\0']
  }

  lemma {:induction false} BodyStops(s: string, more: string)
    requires exists k :: 0 <= k < |s| && s[k] == '='
    ensures Body(s + more) == Body(s)
  {
    if s[0] != '=' {
      assert exists k :: 0 <= k < |s[1..]| && s[1..][k] == '=';
      BodyStops(s[1..], more);
      assert (s + more)[1..] == s[1..] + more;
    }
  }

  /** The text as sent, NUL included, decodes exactly when it ends in padding; then it decodes to what
      was encoded. */
  lemma PublishedDecodes(x: seq<octet>)
    ensures |Published(x)| == (|x| + 2) / 3 * 4 + 1
    ensures AllLetters(Body(Published(x))) <==> |x| % 3 != 0
    ensures |x| % 3 != 0 ==> Octets(Body(Published(x))) == x
  {
    hide Encoding, Octets, Value, Body;
    var e, n := Encoding(x), Letters(|x|);
    EncodingAt(x);
    RoundTrip(x);
    PaddingWhen(|x|);
    if |x| % 3 != 0 {
      assert e[|e| - 1] == '=';
      BodyStops(e, ['\0']);
    } else {
      UnpaddedNul(e);
    }
  }

  lemma PaddingWhen(n: nat)
    ensures Letters(n) < 4 * ((n + 2) / 3) <==> n % 3 != 0
  {
    var q, r := n / 3, n % 3;
    assert n == 3 * q + r;
    DivModUnique(8 * n + 5, 6, if r == 0 then 4 * q else if r == 1 then 4 * q + 2 else 4 * q + 3,
                           if r == 0 then 5 else if r == 1 then 1 else 3);
    DivModUnique(n + 2, 3, if r == 0 then q else q + 1, if r == 0 then 2 else r - 1);
  }

  lemma UnpaddedNul(e: string)
    requires forall k | 0 <= k < |e| :: e[k] != '='
    ensures !AllLetters(Body(e + ['\0']))
  {
    var p := e + ['\0'];
    BodyPrefix(p, |p|);
    assert Body(p)[|e|] == p[|e|] == '\0';
  }

  /** A bundle of at most 658 octets fits the 2400-byte buffers, before and after encoding. */
  lemma BundleFits(x: seq<octet>)
    requires |x| <= 658
    ensures |x| <= 2400 && |Published(x)| <= 881 <= 2400
  {
    EncodingAt(x);
  }
}
