/** Writing fields one after another, and reading any of them back. */
module BitWriter {
  import opened BitFields

  /** The first |acc| bits of the bytes are acc. */
  ghost predicate Written(s: seq<byte>, acc: seq<bool>) {
    |acc| <= 8 * |s| && Bits(s)[..|acc|] == acc
  }

  /** setbitu at the write position, which then moves past the field. */
  method Emit(buff: array<byte>, i: nat, len: nat, data: nat, ghost acc: seq<bool>)
      returns (next: nat, ghost out: seq<bool>)
    requires 1 <= len <= 32 && i == |acc| && i + len <= 8 * buff.Length
    requires Written(buff[..], acc)
    modifies buff
    ensures out == acc + Field(data, len) && next == |out| == i + len
    ensures Written(buff[..], out)
  {
    out := acc + Field(data, len);
    SetBitU(buff, i, len, data);
    next := i + len;
  }

  method EmitSigned(buff: array<byte>, i: nat, len: nat, data: int, ghost acc: seq<bool>)
      returns (next: nat, ghost out: seq<bool>)
    requires 1 <= len <= 32 && i == |acc| && i + len <= 8 * buff.Length
    requires Written(buff[..], acc)
    modifies buff
    ensures out == acc + SField(data, len) && next == |out| == i + len
    ensures Written(buff[..], out)
  {
    out := acc + SField(data, len);
    SetBits(buff, i, len, data);
    next := i + len;
  }

  // ---------- runs of equal-width fields ----------

  function FieldsU(vals: seq<nat>, w: nat): (r: seq<bool>)
    ensures |r| == |vals| * w
  {
    if |vals| == 0 then []
    else
      LastRow(|vals|, w);
      FieldsU(vals[..|vals| - 1], w) + Field(vals[|vals| - 1], w)
  }

  function FieldsS(vals: seq<int>, w: nat): (r: seq<bool>)
    requires w > 0
    ensures |r| == |vals| * w
  {
    if |vals| == 0 then []
    else
      LastRow(|vals|, w);
      FieldsS(vals[..|vals| - 1], w) + SField(vals[|vals| - 1], w)
  }

  lemma LastRow(n: nat, w: nat)
    requires n > 0
    ensures n * w == (n - 1) * w + w
  {
  }

  lemma RowWithin(k: nat, n: nat, w: nat)
    requires k < n
    ensures 0 <= k * w && k * w + w <= n * w
  {
    assert n * w == k * w + (n - k) * w;
    assert (n - k) * w == (n - k - 1) * w + w;
  }

  /** The k-th field of a run. */
  lemma {:induction false} FieldsUAt(vals: seq<nat>, w: nat, k: nat, p: nat)
    requires k < |vals| && p == k * w
    ensures p + w <= |FieldsU(vals, w)|
    ensures FieldsU(vals, w)[p..p + w] == Field(vals[k], w)
  {
    RowWithin(k, |vals|, w);
    LastRow(|vals|, w);
    if k < |vals| - 1 {
      FieldsUAt(vals[..|vals| - 1], w, k, p);
    }
  }

  lemma {:induction false} FieldsSAt(vals: seq<int>, w: nat, k: nat, p: nat)
    requires k < |vals| && w > 0 && p == k * w
    ensures p + w <= |FieldsS(vals, w)|
    ensures FieldsS(vals, w)[p..p + w] == SField(vals[k], w)
  {
    RowWithin(k, |vals|, w);
    LastRow(|vals|, w);
    if k < |vals| - 1 {
      FieldsSAt(vals[..|vals| - 1], w, k, p);
    }
  }

  /** Whether the run f stands at base in b. */
  ghost predicate StandsAt(b: seq<bool>, base: nat, f: seq<bool>) {
    base + |f| <= |b| && forall k | 0 <= k < |f| :: f[k] == b[base + k]
  }

  lemma ReadInRun(b: seq<bool>, base: nat, f: seq<bool>, p: nat, w: nat)
    requires StandsAt(b, base, f) && p + w <= |f|
    ensures b[base + p..base + p + w] == f[p..p + w]
  {
  }

  /** The k-th field of a run that stands in a message reads back as the value written. */
  lemma ReadFieldU(b: seq<bool>, base: nat, vals: seq<nat>, w: nat, k: nat, p: nat)
    requires k < |vals| && p == k * w && StandsAt(b, base, FieldsU(vals, w))
    ensures base + p + w <= |b|
    ensures ReadU(b, base + p, w) == vals[k] % Pow2(w)
  {
    FieldsUAt(vals, w, k, p);
    UIntField(vals[k], w);
    ReadInRun(b, base, FieldsU(vals, w), p, w);
  }

  lemma ReadFieldS(b: seq<bool>, base: nat, vals: seq<int>, w: nat, k: nat, p: nat)
    requires k < |vals| && w > 0 && p == k * w && StandsAt(b, base, FieldsS(vals, w))
    ensures base + p + w <= |b|
    ensures ReadS(b, base + p, w) == SInt(SField(vals[k], w))
  {
    FieldsSAt(vals, w, k, p);
    ReadInRun(b, base, FieldsS(vals, w), p, w);
  }
}
