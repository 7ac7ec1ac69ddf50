/** Streaming MD5: a partial block kept in a buffer and a 64-bit count kept in two words, against the
    one-shot digest of RFC 1321. The compression of one block is a parameter: nothing here depends on it. */
module Md5 {
  import opened BitFields

  type word = x: int | 0 <= x < 0x1_0000_0000
  type State = s: seq<word> | |s| == 4 witness [0, 0, 0, 0]
  type Compression = (State, seq<octet>) -> State

  const INITIAL: State := [0x67452301, 0xefcdab89, 0x98badcfe, 0x10325476]

  // ---------- the reference: sections 3.1 to 3.5 of RFC 1321 ----------

  /** The state after whole blocks of 64 octets. */
  function Fold(f: Compression, b: seq<octet>): State
    requires |b| % 64 == 0
  {
    if |b| == 0 then INITIAL else f(Fold(f, b[..|b| - 64]), b[|b| - 64..])
  }

  function LittleEndian(w: word): (r: seq<octet>)
    ensures |r| == 4
  {
    [w % 256, w / 256 % 256, w / 65536 % 256, w / 16777216 % 256]
  }

  function Zeros(n: nat): (r: seq<octet>)
    ensures |r| == n
  {
    seq(n, _ => 0)
  }

  /** How many octets of padding bring a length to 56 modulo 64: at least one. */
  function PadLength(n: nat): (k: nat)
    ensures 1 <= k <= 64 && (n + k) % 64 == 56
  {
    if n % 64 < 56 then 56 - n % 64 else 120 - n % 64
  }

  /** The length in bits modulo 2^64, low word first. */
  function LengthOctets(n: nat): (r: seq<octet>)
    ensures |r| == 8
  {
    LittleEndian(8 * n % U32) + LittleEndian(8 * n / U32 % U32)
  }

  lemma PaddedWhole(n: nat)
    ensures (n + PadLength(n) + 8) % 64 == 0
  {
    var q := (n + PadLength(n)) / 64;
    DivModUnique(n + PadLength(n) + 8, 64, q + 1, 0);
  }

  /** The message with padding and length. */
  function Padded(m: seq<octet>): (r: seq<octet>)
    ensures |r| % 64 == 0
  {
    PaddedWhole(|m|);
    m + ([128] + Zeros(PadLength(|m|) - 1)) + LengthOctets(|m|)
  }

  function Digest(f: Compression, m: seq<octet>): seq<octet> {
    StateOctets(Fold(f, Padded(m)))
  }

  function StateOctets(s: State): seq<octet> {
    LittleEndian(s[0]) + LittleEndian(s[1]) + LittleEndian(s[2]) + LittleEndian(s[3])
  }

  // ---------- what these octets are ----------

  /** A word in octets: the first is the least significant. */
  lemma WordOctets(w: word)
    ensures var o := LittleEndian(w);
            w as int == o[0] as int + 0x100 * (o[1] as int) + 0x1_0000 * (o[2] as int) + 0x100_0000 * (o[3] as int)
  {
    assert w / 65536 == w / 256 / 256 && w / 16777216 == w / 65536 / 256;
  }

  /** Section 3.3: the four initial words, octet by octet. */
  lemma InitialOctets()
    ensures StateOctets(INITIAL) == [0x01, 0x23, 0x45, 0x67, 0x89, 0xab, 0xcd, 0xef,
                                     0xfe, 0xdc, 0xba, 0x98, 0x76, 0x54, 0x32, 0x10]
  {
  }

  /** Section 3.5: the digest is the four words in order. */
  lemma StateWords(s: State, i: nat)
    requires i < 4
    ensures |StateOctets(s)| == 16 && StateOctets(s)[4 * i..4 * i + 4] == LittleEndian(s[i])
  {
    hide LittleEndian;
    var a, b, c, d := LittleEndian(s[0]), LittleEndian(s[1]), LittleEndian(s[2]), LittleEndian(s[3]);
    assert (a + b + c + d)[0..4] == a && (a + b + c + d)[4..8] == b;
    assert (a + b + c + d)[8..12] == c && (a + b + c + d)[12..16] == d;
  }

  /** Sections 3.1 and 3.2: the message, the octet 80, as few zeros as fill whole blocks with eight octets
      to spare, and in these the length in bits modulo 2^64, low word first. */
  lemma PaddedIsMessage(m: seq<octet>)
    ensures var p, n, k := Padded(m), |m|, |Padded(m)| - 8;
            && n + 9 <= |p| < n + 9 + 64 && |p| % 64 == 0
            && p[..n] == m && p[n] == 0x80 && (forall i | n < i < k :: p[i] == 0)
            && p[k..k + 4] == LittleEndian(8 * n % 0x1_0000_0000)
            && p[k + 4..k + 8] == LittleEndian(8 * n / 0x1_0000_0000 % 0x1_0000_0000)
  {
    hide LittleEndian;
    var fill, tail := [128] + Zeros(PadLength(|m|) - 1), LengthOctets(|m|);
    var p := m + fill + tail;
    assert p[..|m|] == m && p[|m|] == fill[0] && p[|m| + |fill|..] == tail;
    forall i | |m| < i < |p| - 8
      ensures p[i] == 0
    {
      assert p[i] == fill[i - |m|];
    }
  }

  // ---------- whole blocks and the rest ----------

  function Whole(n: nat): (w: nat)
    ensures w <= n < w + 64 && w % 64 == 0
  {
    n - n % 64
  }

  function Tail(m: seq<octet>): seq<octet> {
    m[Whole(|m|)..]
  }

  ghost function StateAfter(f: Compression, m: seq<octet>): State {
    Fold(f, m[..Whole(|m|)])
  }

  lemma FoldBlock(f: Compression, b: seq<octet>, block: seq<octet>)
    requires |b| % 64 == 0 && |block| == 64
    ensures |b + block| % 64 == 0 && Fold(f, b + block) == f(Fold(f, b), block)
  {
    assert (b + block)[..|b|] == b && (b + block)[|b|..] == block;
  }

  /** The count split into two words. */
  ghost predicate Counts(lo: word, hi: word, n: nat) {
    lo == 8 * n % U32 && hi == 8 * n / U32 % U32
  }

  /** Adding a length of up to 32 bits, with the carry found by comparison. */
  lemma CountsAdd(lo: word, hi: word, n: nat, len: nat)
    requires Counts(lo, hi, n) && len < U32
    ensures var add := len * 8 % U32;
            var lo' := (lo + add) % U32;
            var hi' := (hi + (if lo' < add then 1 else 0)) % U32;
            Counts(lo', (hi' + len / 0x2000_0000) % U32, n + len)
  {
    var add, top := len * 8 % U32, len / 0x2000_0000;
    DivModUnique(len * 8, U32, top, len % 0x2000_0000 * 8);
    var q := 8 * n / U32;
    var sum := lo + add;
    var carry := if sum >= U32 then 1 else 0;
    DivModUnique(sum, U32, carry, sum - carry * U32);
    DivModUnique(8 * (n + len), U32, q + top + carry, sum - carry * U32);
    ModSum(q, carry, top);
  }

  lemma ModSum(q: nat, c: nat, t: nat)
    ensures ((q % U32 + c) % U32 + t) % U32 == (q + t + c) % U32
  {
    var a, b := q / U32, (q % U32 + c) / U32;
    var r := ((q % U32 + c) % U32 + t) % U32;
    var d := ((q % U32 + c) % U32 + t) / U32;
    DivModUnique(q + t + c, U32, a + b + d, r);
  }

  lemma IndexIsTail(lo: word, hi: word, n: nat)
    requires Counts(lo, hi, n)
    ensures lo / 8 % 64 == n % 64
  {
    var q := 8 * n / U32;
    assert 8 * n == q * U32 + lo;
    DivModUnique(lo, 8, n - q * 0x2000_0000, 0);
    DivModUnique(n, 64, q * 0x80_0000 + (n - q * 0x2000_0000) / 64, (n - q * 0x2000_0000) % 64);
  }

  /** MD5_CTX. */
  class Context {
    const compress: Compression
    const buffer: array<octet>
    var state: State
    var count0: word
    var count1: word

    /** Everything fed in so far. */
    ghost var message: seq<octet>

    ghost predicate Valid()
      reads this, buffer
    {
      && buffer.Length == 64
      && Counts(count0, count1, |message|)
      && state == StateAfter(compress, message)
      && buffer[..|message| % 64] == Tail(message)
    }

    /** MD5Init. */
    constructor (f: Compression)
      ensures Valid() && fresh(buffer) && compress == f && message == []
    {
      compress := f;
      buffer := new octet[64](_ => 0);
      state, count0, count1, message := INITIAL, 0, 0, [];
    }

    /** MD5Update: a piece may have up to 2^32 - 64 octets. */
    method Update(input: seq<octet>)
      requires Valid() && |input| <= U32 - 64
      modifies this`state, this`count0, this`count1, this`message, buffer
      ensures Valid() && message == old(message) + input
    {
      hide Counts, StateAfter, Tail;
      var index := count0 / 8 % 64;
      IndexIsTail(count0, count1, |message|);
      AddCount(|input|, |message|);
      Feed(index, input);
    }

    /** Update the number of bits, the carry found by comparison. */
    method AddCount(len: word, ghost n: nat)
      requires Counts(count0, count1, n)
      modifies this`count0, this`count1
      ensures Counts(count0, count1, n + len)
    {
      hide Counts;
      CountsAdd(count0, count1, n, len);
      var add := len * 8 % U32;
      count0 := (count0 + add) % U32;
      if count0 < add {
        count1 := (count1 + 1) % U32;
      }
      count1 := (count1 + len / 0x2000_0000) % U32;
    }

    /** The blocks of MD5Update, and what is left over. */
    method Feed(index: nat, input: seq<octet>)
      requires buffer.Length == 64 && index == |message| % 64
      requires state == StateAfter(compress, message) && buffer[..index] == Tail(message)
      modifies this`state, this`message, buffer
      ensures message == old(message) + input
      ensures state == StateAfter(compress, message) && buffer[..|message| % 64] == Tail(message)
    {
      hide Fold, StateAfter, Tail;
      var i, at := 0, index;
      var partLen := 64 - index;
      if |input| >= partLen {
        FillAndCompress(index, input);
        i := Blocks(input, partLen);
        at := 0;
        WholeMessage(compress, message);
      }
      assert message == old(message) + input[..i];
      Rest(at, input[i..]);
      assert input[..i] + input[i..] == input;
    }

    /** Buffer the remaining input. */
    method Rest(at: nat, s: seq<octet>)
      requires buffer.Length == 64 && at == |message| % 64 && at + |s| < 64
      requires state == StateAfter(compress, message) && buffer[..at] == Tail(message)
      modifies this`message, buffer
      ensures message == old(message) + s
      ensures state == StateAfter(compress, message) && buffer[..|message| % 64] == Tail(message)
    {
      Store(at, s);
      StoredTail(message, s, at);
      assert buffer[..at + |s|] == buffer[..at] + s;
      message := message + s;
    }

    /** Complete the block in the buffer. */
    method FillAndCompress(index: nat, input: seq<octet>)
      requires buffer.Length == 64 && index == |message| % 64 && |input| >= 64 - index
      requires state == StateAfter(compress, message) && buffer[..index] == Tail(message)
      modifies this`state, this`message, buffer
      ensures message == old(message) + input[..64 - index] && |message| % 64 == 0
      ensures state == Fold(compress, message)
    {
      var part := input[..64 - index];
      ghost var before := message[..Whole(|message|)];
      Store(index, part);
      assert buffer[..64] == buffer[..index] + part;
      FoldBlock(compress, before, buffer[..64]);
      assert message + part == before + buffer[..64];
      state := compress(state, buffer[..64]);
      message := message + part;
    }

    /** Compress whole blocks straight from the input. */
    method Blocks(input: seq<octet>, from: nat) returns (i: nat)
      requires from <= |input| && |message| % 64 == 0 && state == Fold(compress, message)
      modifies this`state, this`message
      ensures from <= i <= |input| < i + 64 && message == old(message) + input[from..i]
      ensures |message| % 64 == 0 && state == Fold(compress, message)
    {
      hide Fold;
      i := from;
      while i + 63 < |input|
        invariant from <= i <= |input| && message == old(message) + input[from..i]
        invariant |message| % 64 == 0 && state == Fold(compress, message)
      {
        var block := input[i..i + 64];
        FoldBlock(compress, message, block);
        NextBlock(old(message), input, from, i);
        state := compress(state, block);
        message := message + block;
        i := i + 64;
      }
    }

    /** memcpy into the buffer. */
    method Store(at: nat, s: seq<octet>)
      requires at + |s| <= buffer.Length
      modifies buffer
      ensures buffer[..at] == old(buffer[..at]) && buffer[at..at + |s|] == s
    {
      for k := 0 to |s|
        invariant buffer[..at] == old(buffer[..at]) && buffer[at..at + k] == s[..k]
      {
        buffer[at + k] := s[k];
        assert buffer[at..at + k + 1] == buffer[at..at + k] + [s[k]];
      }
      assert s[..|s|] == s;
    }

    /** MD5Final: pad, append the length, and encode the state. The context is wiped. */
    method Final() returns (digest: seq<octet>)
      requires Valid()
      modifies this`state, this`count0, this`count1, this`message, buffer
      ensures digest == Digest(compress, old(message))
    {
      hide Fold, Tail, StateAfter, LittleEndian, PadLength;
      ghost var m := message;
      var bits := LittleEndian(count0) + LittleEndian(count1);
      var index := count0 / 8 % 64;
      IndexIsTail(count0, count1, |m|);
      var padLen := if index < 56 then 56 - index else 120 - index;
      PadLengthIs(|m|, padLen);
      Update([128] + Zeros(padLen - 1));
      Update(bits);
      PaddedIs(m, message, padLen, bits);
      WholeMessage(compress, message);
      digest := StateOctets(state);
      state, count0, count1, message := [0, 0, 0, 0], 0, 0, [];
      forall k | 0 <= k < 64 {
        buffer[k] := 0;
      }
    }
  }

  lemma NextBlock(m: seq<octet>, input: seq<octet>, from: nat, i: nat)
    requires from <= i && i + 64 <= |input|
    ensures m + input[from..i + 64] == m + input[from..i] + input[i..i + 64]
  {
  }

  lemma PadLengthIs(n: nat, k: nat)
    requires k == if n % 64 < 56 then 56 - n % 64 else 120 - n % 64
    ensures k == PadLength(n)
  {
  }

  lemma PaddedIs(m: seq<octet>, all: seq<octet>, k: nat, bits: seq<octet>)
    requires k == PadLength(|m|) && bits == LengthOctets(|m|)
    requires all == m + ([128] + Zeros(k - 1)) + bits
    ensures all == Padded(m)
  {
  }

  lemma WholeMessage(f: Compression, m: seq<octet>)
    requires |m| % 64 == 0
    ensures StateAfter(f, m) == Fold(f, m) && Tail(m) == []
  {
    assert m[..|m|] == m;
  }

  /** What is stored behind a partial block is the new tail. */
  lemma StoredTail(m: seq<octet>, s: seq<octet>, at: nat)
    requires at == |m| % 64 && at + |s| < 64
    ensures Whole(|m + s|) == Whole(|m|) && |m + s| % 64 == at + |s|
    ensures (m + s)[..Whole(|m + s|)] == m[..Whole(|m|)] && Tail(m + s) == Tail(m) + s
  {
    DivModUnique(|m + s|, 64, |m| / 64, at + |s|);
  }

  /** A digest does not depend on how the message is cut into pieces. */
  method DigestOf(f: Compression, pieces: seq<seq<octet>>) returns (digest: seq<octet>)
    requires forall k | 0 <= k < |pieces| :: |pieces[k]| <= U32 - 64
    ensures digest == Digest(f, Concatenation(pieces))
  {
    var c := new Context(f);
    for i := 0 to |pieces|
      invariant c.Valid() && c.compress == f && fresh(c) && fresh(c.buffer)
      invariant c.message == Concatenation(pieces[..i])
    {
      assert pieces[..i + 1][..i] == pieces[..i];
      c.Update(pieces[i]);
    }
    assert pieces[..|pieces|] == pieces;
    digest := c.Final();
  }

  function Concatenation(pieces: seq<seq<octet>>): seq<octet> {
    if |pieces| == 0 then [] else Concatenation(pieces[..|pieces| - 1]) + pieces[|pieces| - 1]
  }
}
