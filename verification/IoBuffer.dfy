/** A byte queue over one array: written at the end, read at the front, compacted in place by copies of
    non-overlapping chunks, and grown when that is not enough. */
module IoBuffer {

  import opened BitFields

  /** memcpy within one array: the two ranges may not overlap. */
  method CopyWithin(a: array<octet>, to: nat, from: nat, n: nat)
    requires to + n <= from && from + n <= a.Length
    modifies a
    ensures forall k | 0 <= k < a.Length ::
              a[k] == if to <= k < to + n then old(a[k - to + from]) else old(a[k])
  {
    for i := 0 to n
      invariant forall k | 0 <= k < a.Length ::
                  a[k] == if to <= k < to + i then old(a[k - to + from]) else old(a[k])
    {
      a[to + i] := a[from + i];
    }
  }

  method CopyOut(a: array<octet>, from: nat, n: nat, into: array<octet>)
    requires from + n <= a.Length && n <= into.Length && a != into
    modifies into
    ensures into[..n] == a[from..from + n] && into[n..] == old(into[n..])
  {
    for i := 0 to n
      invariant into[..i] == a[from..from + i] && into[n..] == old(into[n..])
    {
      into[i] := a[from + i];
      assert a[from..from + i + 1] == a[from..from + i] + [a[from + i]];
    }
  }

  method CopyIn(data: seq<octet>, a: array<octet>, to: nat)
    requires to + |data| <= a.Length
    modifies a
    ensures a[to..to + |data|] == data && a[..to] == old(a[..to])
  {
    for i := 0 to |data|
      invariant forall k | 0 <= k < i :: a[to + k] == data[k]
      invariant forall k | 0 <= k < to :: a[k] == old(a[k])
    {
      a[to + i] := data[i];
    }
  }

  class IOBuffer {
    var ptr: array?<octet>
    var readPos: nat
    var writePos: nat
    var increaseStep: nat

    /** All octets ever written, and those that have left again by being read, skipped or cleared. */
    ghost var sent: seq<octet>
    ghost var gone: seq<octet>

    function Length(): nat
      reads this
    {
      if ptr == null then 0 else ptr.Length
    }

    ghost predicate Bounds()
      reads this
    {
      readPos <= writePos <= Length()
    }

    /** What the queue holds. */
    ghost function Contents(): seq<octet>
      reads this, ptr
      requires Bounds()
    {
      if ptr == null then [] else ptr[readPos..writePos]
    }

    /** First in, first out, none lost. */
    ghost predicate Valid()
      reads this, ptr
    {
      Bounds() && sent == gone + Contents()
    }

    constructor ()
      ensures Valid() && sent == [] && gone == [] && ptr == null
    {
      ptr, readPos, writePos, increaseStep, sent, gone := null, 0, 0, 1024, [], [];
    }

    function Readable(): nat
      reads this
      requires Bounds()
    {
      writePos - readPos
    }

    /** Shift the contents to the front. */
    method MoveData()
      requires Bounds() && ptr != null
      modifies this`readPos, this`writePos, ptr
      ensures Bounds() && readPos == 0 && writePos == old(writePos - readPos)
      ensures Contents() == old(Contents())
    {
      if readPos == 0 {
        return;
      }
      var n := writePos - readPos;
      if n <= readPos {
        CopyWithin(ptr, 0, readPos, n);
      } else {
        MoveChunks(n);
      }
      assert ptr[0..n] == old(ptr[readPos..writePos]);
      writePos := n;
      readPos := 0;
    }

    /** Chunks of the size of the gap, then what is left over. */
    method MoveChunks(n: nat)
      requires ptr != null && 0 < readPos < n && readPos + n <= ptr.Length
      modifies ptr
      ensures forall k | 0 <= k < n :: ptr[k] == old(ptr[k + readPos])
    {
      var gap := readPos;
      var dest, src := 0, gap;
      var i := 0;
      while i < n / gap
        invariant 0 <= i <= n / gap && ShiftedTo(old(ptr[..]), ptr[..], gap, i * gap)
        invariant i > 0 ==> dest + gap == i * gap && src == dest + gap
      {
        ChunkFits(i, gap, n);
        dest := i * gap;
        src := dest + gap;
        ghost var was := ptr[..];
        CopyWithin(ptr, dest, src, gap);
        ShiftMore(old(ptr[..]), was, ptr[..], gap, dest, gap);
        i := i + 1;
      }
      var left := n % gap;
      ChunksThenLeft(n, gap);
      if left != 0 {
        ghost var was := ptr[..];
        CopyWithin(ptr, dest + gap, src + gap, left);
        ShiftMore(old(ptr[..]), was, ptr[..], gap, dest + gap, left);
      }
      assert forall k | 0 <= k < n :: ptr[k] == ptr[..][k];
    }

    /** expect: make room for so many octets more. */
    method Expect(expected: nat)
      requires Valid()
      modifies this`ptr, this`readPos, this`writePos, ptr
      ensures Valid() && Contents() == old(Contents())
      ensures expected > 0 ==> ptr != null && writePos + expected <= ptr.Length
      ensures ptr == old(ptr) || fresh(ptr)
    {
      if expected == 0 || writePos + expected <= Length() {
        return;
      }
      if ptr == null {
        ptr := new octet[expected](_ => 0);
        writePos, readPos := 0, 0;
        return;
      }
      if writePos - readPos + expected <= ptr.Length {
        MoveData();
        return;
      }
      var tmp := new octet[writePos + expected + increaseStep](_ => 0);
      CopyOut(ptr, readPos, writePos - readPos, tmp);
      ptr := tmp;
      writePos := writePos - readPos;
      readPos := 0;
    }

    method Write(data: seq<octet>) returns (n: nat)
      requires Valid()
      modifies this`ptr, this`readPos, this`writePos, this`sent, ptr
      ensures Valid() && n == |data| && sent == old(sent) + data && gone == old(gone)
      ensures ptr == old(ptr) || fresh(ptr)
    {
      if |data| == 0 {
        assert sent + data == sent;
        return 0;
      }
      Expect(|data|);
      Put(data);
      n := |data|;
    }

    /** memcpy to the write position. */
    method Put(data: seq<octet>)
      requires Valid() && ptr != null && writePos + |data| <= ptr.Length
      modifies this`writePos, this`sent, ptr
      ensures Valid() && sent == old(sent) + data
    {
      ghost var held := Contents();
      CopyIn(data, ptr, writePos);
      assert ptr[readPos..writePos] == held;
      assert ptr[readPos..writePos + |data|] == ptr[readPos..writePos] + ptr[writePos..writePos + |data|];
      writePos := writePos + |data|;
      sent := sent + data;
    }

    /** read: as many octets as asked for, or as there are. */
    method Read(into: array<octet>, length: nat) returns (n: nat)
      requires Valid() && length <= into.Length && into != ptr
      modifies this`readPos, this`gone, into
      ensures Valid() && n == (if length <= old(Readable()) then length else old(Readable()))
      ensures into[..n] == old(Contents())[..n] && gone == old(gone) + into[..n] && sent == old(sent)
    {
      n := if Readable() < length then Readable() else length;
      if ptr != null {
        CopyOut(ptr, readPos, n, into);
        Leave(n);
      } else {
        assert into[..0] == [];
      }
    }

    method Leave(n: nat)
      requires Valid() && ptr != null && n <= Readable()
      modifies this`readPos, this`gone
      ensures Valid() && readPos == old(readPos) + n && gone == old(gone) + old(Contents())[..n]
      ensures Contents() == old(Contents())[n..]
    {
      ghost var c := Contents();
      assert c == c[..n] + c[n..];
      readPos := readPos + n;
      gone := gone + c[..n];
    }

    /** skip: all or nothing; an empty queue starts over at the front. */
    method Skip(size: nat) returns (done: bool)
      requires Valid()
      modifies this`readPos, this`writePos, this`gone
      ensures Valid() && done == (size <= old(Readable())) && sent == old(sent)
      ensures gone == if done then old(gone) + old(Contents())[..size] else old(gone)
    {
      done := size <= Readable();
      if done {
        if ptr != null {
          Leave(size);
        } else {
          assert gone + Contents()[..0] == gone;
        }
        Recycle();
      }
    }

    method Recycle()
      requires Valid()
      modifies this`readPos, this`writePos
      ensures Valid() && Contents() == old(Contents())
    {
      if readPos == writePos {
        readPos, writePos := 0, 0;
      }
    }

    /** clear and skipAll. */
    method Clear()
      requires Valid()
      modifies this`readPos, this`writePos, this`gone
      ensures Valid() && Contents() == [] && gone == sent == old(sent)
    {
      gone := sent;
      readPos, writePos := 0, 0;
    }
  }

  /** The first n places hold what stood gap places further on; the others are untouched. */
  ghost predicate ShiftedTo(was: seq<octet>, now: seq<octet>, gap: nat, n: int) {
    && |now| == |was|
    && forall k {:trigger now[k]} | 0 <= k < |was| ::
         now[k] == if k < n && k + gap < |was| then was[k + gap] else was[k]
  }

  lemma ShiftMore(was: seq<octet>, mid: seq<octet>, now: seq<octet>, gap: nat, at: nat, n: nat)
    requires gap > 0 && ShiftedTo(was, mid, gap, at) && |now| == |mid| && at + gap + n <= |was|
    requires forall k {:trigger now[k]} | 0 <= k < |mid| :: now[k] == if at <= k < at + n then mid[k + gap] else mid[k]
    ensures ShiftedTo(was, now, gap, at + n)
  {
    forall k | 0 <= k < |was|
      ensures now[k] == if k < at + n && k + gap < |was| then was[k + gap] else was[k]
    {
      if at <= k < at + n {
        assert mid[k + gap] == was[k + gap];
      } else {
        assert now[k] == mid[k];
      }
    }
  }

  lemma Spread(a: nat, b: nat, gap: nat)
    requires b <= a
    ensures b * gap <= a * gap && a * gap == b * gap + (a - b) * gap
  {
  }

  lemma ChunkFits(i: nat, gap: nat, n: nat)
    requires gap > 0 && i < n / gap
    ensures i * gap + gap <= n && (i + 1) * gap == i * gap + gap && i * gap >= 0
  {
    var q := n / gap;
    Spread(q, i + 1, gap);
    Spread(i + 1, i, gap);
  }

  lemma ChunksThenLeft(n: nat, gap: nat)
    requires 0 < gap <= n
    ensures n / gap > 0 && n / gap * gap + n % gap == n
  {
  }
}
