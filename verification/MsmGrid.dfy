/** How far the masks carry the observed pairs. The cell mask is cut at 64 bits, so what counts is the
    size of the grid, not the number of observed cells: 33 BeiDou satellites on two signals, one signal
    each, already lose a pair, and a grid of up to 64 cells never does. */
module MsmGrid {
  import opened BitFields
  import opened BitWriter
  import opened Masks
  import opened MsmEncode
  import opened MsmIndex
  import opened MsmReadBack
  import opened MsmSignals
  import opened Quantisation
  import opened Satellites

  // ---------- exactly grids of up to 64 cells read back ----------

  ghost predicate ReadsBack(b: seq<bool>, es: seq<Entry>) {
    |b| >= 193 && |b| >= 193 + GridSize(b) && ReadPairs(b) == ObservedPairs(es)
  }

  /** The masks of an epoch's message give back the pairs it was made from. */
  ghost predicate EpochReadsBack(h: Header, es: seq<Entry>, track: Track, stack: Buffers)
    requires ValidTrack(track) && ValidBuffers(stack)
  {
    ValidEntries(es) && ReadsBack(MsmMessage(h, es, track, stack), es)
  }

  /** The masks give back the observed pairs, whatever the signals measure, exactly when the grid has at most
      64 cells: in a larger one the reader takes range bits for cells. */
  lemma ReadsBackIffSmallGrid(h: Header, es: seq<Entry>, track: Track, stack: Buffers)
    requires ValidEntries(es) && ValidTrack(track) && ValidBuffers(stack)
    ensures (forall a | SameSignals(es, a) :: EpochReadsBack(h, a, track, stack)) <==> Sats(es) * Sigs(es) <= 64
  {
    hide MessageBits, ReadsBack, RoughRanges, EpochState, SatMask, SigMask;
    if Sats(es) * Sigs(es) <= 64 {
      forall a | SameSignals(es, a)
        ensures EpochReadsBack(h, a, track, stack)
      {
        SameSignalsSameMasks(es, a);
        SmallGridReadsBack(h, a, RoughRanges(a), EpochState(h.sys, a, track, stack).buffers);
      }
    } else {
      LargeGridMisread(h, es, track, stack);
    }
  }

  lemma SmallGridReadsBack(h: Header, es: seq<Entry>, rrng: seq<real>, bufs: Buffers)
    requires ValidEntries(es) && |rrng| == 64 && ValidBuffers(bufs) && Sats(es) * Sigs(es) <= 64
    ensures ReadsBack(MessageBits(h, es, rrng, bufs), es)
  {
    MessageLength(h, es, rrng, bufs);
    PairsReadBack(MessageBits(h, es, rrng, bufs), h, es, rrng, bufs);
  }

  /** The same signals, all of one range. */
  function WithRange(es: seq<Entry>, range: real): (a: seq<Entry>)
    ensures SameSignals(es, a)
  {
    seq(|es|, i requires 0 <= i < |es| => es[i].(signal := es[i].signal.(range := range)))
  }

  /** Behind the 64th cell bit the first range field begins, and its top bit may be either: it is clear for
      satellites 100 ms away and set for satellites 130 ms away. */
  lemma LargeGridMisread(h: Header, es: seq<Entry>, track: Track, stack: Buffers)
    requires ValidEntries(es) && ValidTrack(track) && ValidBuffers(stack) && Sats(es) * Sigs(es) > 64
    ensures exists a :: SameSignals(es, a) && !EpochReadsBack(h, a, track, stack)
  {
    hide ReadsBack, MsmMessage, WithRange, SatMask, SigMask, CellMask, ObservedPairs;
    var near, far := WithRange(es, 100.0 * RANGE_MS), WithRange(es, 130.0 * RANGE_MS);
    SameSignalsSameMasks(es, near);
    SameSignalsSameMasks(es, far);
    var x, y := MsmMessage(h, near, track, stack), MsmMessage(h, far, track, stack);
    RangeBit(h, es, track, stack, 100);
    RangeBit(h, es, track, stack, 130);
    PowersUpTo8();
    if ReadsBack(x, near) && ReadsBack(y, far) {
      SameBitRead(h, near, far, track, stack);
    }
    assert !EpochReadsBack(h, near, track, stack) || !EpochReadsBack(h, far, track, stack);
  }

  lemma RangeBit(h: Header, es: seq<Entry>, track: Track, stack: Buffers, ms: nat)
    requires ValidTrack(track) && ValidBuffers(stack) && 0 < ms < 255
    requires ValidEntries(es) && Sats(es) * Sigs(es) > 64
    ensures var a := WithRange(es, ms as real * RANGE_MS);
            && ValidEntries(a) && |MsmMessage(h, a, track, stack)| > 257
            && MsmMessage(h, a, track, stack)[257] == TestBit(ms, 7)
  {
    hide MessageBits, EpochState, SatMask, SigMask, CellMask, ObservedPairs, RoughRanges;
    var a := WithRange(es, ms as real * RANGE_MS);
    SameSignalsSameMasks(es, a);
    BitBehindCells(h, a, RoughRanges(a), EpochState(h.sys, a, track, stack).buffers);
    SomeSatellite(a);
    WholeMs(ms);
    FirstRough(a, ms);
  }

  lemma FirstRough(es: seq<Entry>, ms: nat)
    requires ValidEntries(es) && Sats(es) > 0 && 0 < ms < 255
    requires forall e | e in es :: e.signal.range == ms as real * RANGE_MS
    ensures RoughRanges(es)[0] == ms as real * RANGE_MS
  {
    SelectedIsSet(SatMask(es), 0, 64);
    var id := Select(SatMask(es), 64)[0] + 1;
    assert HasSat(es, id);
    RoughOfAll(es, ms, id, |es|);
    assert es[..|es|] == es;
  }

  lemma WholeMs(ms: nat)
    requires 0 < ms < 255
    ensures RoughOf(ms as real * RANGE_MS) == ms as real * RANGE_MS && IntMs(ms as real * RANGE_MS) == ms
  {
    var p, n := ms as real * RANGE_MS, 1024 * ms;
    assert p / RANGE_MS * 1024.0 == n as real;
    RoundOfInt(n);
  }

  lemma {:induction false} RoughOfAll(es: seq<Entry>, ms: nat, id: nat, n: nat)
    requires 0 < ms < 255 && n <= |es| && forall e | e in es :: e.signal.range == ms as real * RANGE_MS
    ensures RoughAt(es[..n], id) == if HasSat(es[..n], id) then ms as real * RANGE_MS else 0.0
  {
    hide RoughOf, HasSat;
    WholeMs(ms);
    if n > 0 {
      RoughOfAll(es, ms, id, n - 1);
      assert es[..n][..n - 1] == es[..n - 1] && es[..n] == es[..n - 1] + [es[n - 1]];
      HasAppend(es[..n - 1], es[n - 1], id);
    } else {
      NoSat(id);
    }
  }

  lemma NoSat(id: nat)
    ensures !HasSat([], id)
  {
  }

  lemma SameBitRead(h: Header, a: seq<Entry>, b: seq<Entry>, track: Track, stack: Buffers)
    requires ValidEntries(a) && ValidEntries(b) && ValidTrack(track) && ValidBuffers(stack)
    requires SatMask(a) == SatMask(b) && SigMask(a) == SigMask(b) && ObservedPairs(a) == ObservedPairs(b)
    requires Sats(a) * Sigs(a) > 64
    requires ReadsBack(MsmMessage(h, a, track, stack), a) && ReadsBack(MsmMessage(h, b, track, stack), b)
    ensures var x, y := MsmMessage(h, a, track, stack), MsmMessage(h, b, track, stack);
            |x| > 257 && |y| > 257 && x[257] == y[257]
  {
    hide MessageBits, ReadsBack, RoughRanges, EpochState, SatMask, SigMask;
    var x, y, n := MsmMessage(h, a, track, stack), MsmMessage(h, b, track, stack), Sats(a) * Sigs(a);
    CellsRead(x, h, a, RoughRanges(a), EpochState(h.sys, a, track, stack).buffers);
    CellsRead(y, h, b, RoughRanges(b), EpochState(h.sys, b, track, stack).buffers);
    DecodedInjective(SatMask(a), SigMask(a), x[193..193 + n], y[193..193 + n]);
    assert x[193..193 + n][64] == x[257] && y[193..193 + n][64] == y[257];
  }

  lemma BitBehindCells(h: Header, es: seq<Entry>, rrng: seq<real>, bufs: Buffers)
    requires ValidEntries(es) && |rrng| == 64 && ValidBuffers(bufs) && Sats(es) * Sigs(es) > 64
    ensures var m := MessageBits(h, es, rrng, bufs); |m| > 257 && m[257] == TestBit(IntMs(rrng[0]), 7)
  {
    hide HeaderBits, CellMask, SatMask, SigMask;
    var m, head, n := MessageBits(h, es, rrng, bufs), HeadBits(h, es), Sats(es);
    SomeSatellite(es);
    RunsLaidOut(head, rrng, n, bufs, FieldCount(es));
    var ints := FieldsU(IntFields(rrng, n), 8);
    assert StandsAt(m, 257, ints);
    FieldsUAt(IntFields(rrng, n), 8, 0, 0);
    assert ints[0] == ints[0..8][0];
  }

  lemma SomeSatellite(es: seq<Entry>)
    requires Sats(es) * Sigs(es) > 64
    ensures Sats(es) > 0
  {
  }

  /** What is read for cells, once the masks before them are known. */
  lemma CellsRead(m: seq<bool>, h: Header, es: seq<Entry>, rrng: seq<real>, bufs: Buffers)
    requires ValidEntries(es) && |rrng| == 64 && ValidBuffers(bufs)
    requires m == MessageBits(h, es, rrng, bufs) && ReadsBack(m, es)
    ensures |m| >= 193 + Sats(es) * Sigs(es)
    ensures DecodedPairs(SatMask(es), SigMask(es), m[193..193 + Sats(es) * Sigs(es)]) == ObservedPairs(es)
  {
    hide SatMask, SigMask, CellMask, DecodedPairs, ObservedPairs, MessageBits, StandsAt, GridSize, Sats, Sigs;
    MessageLength(h, es, rrng, bufs);
    MasksRead(m, h, es, rrng, bufs);
  }

  lemma DecodedInjective(sat: seq<bool>, sig: seq<bool>, x: seq<bool>, y: seq<bool>)
    requires |x| == |y| == Count(sat, |sat|) * Count(sig, |sig|)
    requires DecodedPairs(sat, sig, x) == DecodedPairs(sat, sig, y)
    ensures x == y
  {
    forall c | 0 <= c < |x|
      ensures x[c] == y[c]
    {
      SameDecodedCell(sat, sig, x, y, c);
      SameDecodedCell(sat, sig, y, x, c);
    }
  }

  lemma SameDecodedCell(sat: seq<bool>, sig: seq<bool>, x: seq<bool>, y: seq<bool>, c: nat)
    requires |x| == |y| == Count(sat, |sat|) * Count(sig, |sig|) && c < |x|
    requires DecodedPairs(sat, sig, x) == DecodedPairs(sat, sig, y)
    ensures x[c] ==> y[c]
  {
    if x[c] {
      assert PairAt(sat, sig, c) in DecodedPairs(sat, sig, y);
      var d: nat :| d < |y| && y[d] && PairAt(sat, sig, d) == PairAt(sat, sig, c);
      PairAtInjective(sat, sig, c, d);
    }
  }

  lemma PairAtInjective(sat: seq<bool>, sig: seq<bool>, c: nat, d: nat)
    requires c < Count(sat, |sat|) * Count(sig, |sig|) && d < Count(sat, |sat|) * Count(sig, |sig|)
    requires PairAt(sat, sig, c) == PairAt(sat, sig, d)
    ensures c == d
  {
    hide Count, Select, PairAt;
    var q, r := CellPlace(sat, sig, c);
    var q', r' := CellPlace(sat, sig, d);
    SelectInjective(sat, q, q');
    SelectInjective(sig, r, r');
  }

  /** Row and column of a cell. */
  lemma CellPlace(sat: seq<bool>, sig: seq<bool>, c: nat) returns (q: nat, r: nat)
    requires c < Count(sat, |sat|) * Count(sig, |sig|)
    ensures q < Count(sat, |sat|) && r < Count(sig, |sig|) && c == q * Count(sig, |sig|) + r
    ensures PairAt(sat, sig, c) == (Select(sat, |sat|)[q] + 1, Select(sig, |sig|)[r] + 1)
  {
    hide Count, Select;
    var n := Count(sig, |sig|);
    CellSplits(c, Count(sat, |sat|), n);
    q, r := c / n, c % n;
  }

  lemma SelectInjective(m: seq<bool>, k: nat, l: nat)
    requires k < Count(m, |m|) && l < Count(m, |m|) && Select(m, |m|)[k] == Select(m, |m|)[l]
    ensures k == l
  {
    SelectedIsSet(m, k, |m|);
    SelectedIsSet(m, l, |m|);
  }

  // ---------- fewer than 64 observed cells do not suffice ----------

  /** BeiDou satellites 1..33, each on one signal: the first on 1Q, the last as given, the others on 1I. */
  function GridObs(last: nat): (obs: seq<Obs>)
    ensures |obs| == 33 && ValidList(obs)
  {
    seq(33, k requires 0 <= k < 33 => Obs(0, 84 + k, [GridSignal(k, last), NO_SIGNAL, NO_SIGNAL]))
  }

  function GridSignal(k: nat, last: nat): Signal {
    Signal(0.0, 0.0, 0, 0, if SignalAt(k, last) == 3 then CODE_L1Q else CODE_L1I)
  }

  function SignalAt(k: nat, last: nat): nat {
    if k == 0 then 3 else if k == 32 then last else 2
  }

  /** The entries of these observations. */
  function Grid(last: nat): (es: seq<Entry>)
    ensures |es| == 33
  {
    seq(33, k requires 0 <= k < 33 => Entry(k + 1, SignalAt(k, last), 84 + k, 0, 1, GridSignal(k, last), 0))
  }

  lemma GridRecord(last: nat, k: nat)
    requires (last == 2 || last == 3) && k < 33
    ensures RecordEntries(BeiDou, GridObs(last)[k], NFREQ) == [Grid(last)[k]]
  {
    RecordOfThree(BeiDou, GridObs(last)[k]);
  }

  lemma {:induction false} GridPrefix(last: nat, n: nat)
    requires (last == 2 || last == 3) && n <= 33
    ensures Entries(BeiDou, GridObs(last)[..n]) == Grid(last)[..n]
  {
    hide GridObs, Grid, RecordEntries;
    if n > 0 {
      GridPrefix(last, n - 1);
      GridRecord(last, n - 1);
      NextRecord(BeiDou, GridObs(last), n - 1);
      assert Grid(last)[..n] == Grid(last)[..n - 1] + [Grid(last)[n - 1]];
    }
  }

  lemma GridFromObservations(last: nat)
    requires last == 2 || last == 3
    ensures Entries(BeiDou, GridObs(last)) == Grid(last)
  {
    GridPrefix(last, 33);
    assert GridObs(last)[..33] == GridObs(last) && Grid(last)[..33] == Grid(last);
  }

  lemma GridSat(last: nat, id: nat)
    ensures HasSat(Grid(last), id) <==> 1 <= id <= 33
  {
    if 1 <= id <= 33 {
      assert Grid(last)[id - 1].satId == id;
    }
  }

  lemma GridSig(last: nat, id: nat)
    requires last == 2 || last == 3
    ensures HasSig(Grid(last), id) <==> id == 2 || id == 3
  {
    assert Grid(last)[0].sigId == 3 && Grid(last)[1].sigId == 2;
  }

  lemma GridMasks(last: nat)
    requires last == 2 || last == 3
    ensures var es := Grid(last);
            && ValidEntries(es)
            && SatMask(es) == seq(64, i => i < 33) && SigMask(es) == seq(32, i => i == 1 || i == 2)
  {
    hide HasSat, HasSig;
    var es := Grid(last);
    forall i | 0 <= i < 64
      ensures SatMask(es)[i] == (i < 33)
    {
      GridSat(last, i + 1);
    }
    forall i | 0 <= i < 32
      ensures SigMask(es)[i] == (i == 1 || i == 2)
    {
      GridSig(last, i + 1);
    }
  }

  /** The masks of the satellites 1..n on the signals 2 and 3. */
  lemma TwoColumns(s: seq<bool>, g: seq<bool>, n: nat)
    requires |s| == 64 && n <= 64 && forall i | 0 <= i < 64 :: s[i] == (i < n)
    requires |g| == 32 && forall i | 0 <= i < 32 :: g[i] == (i == 1 || i == 2)
    ensures Count(s, 64) == n && Count(g, 32) == 2 && Count(g, 1) == 0 && Count(g, 2) == 1
    ensures forall k | 0 <= k < n :: Count(s, k) == k
  {
    CountAll(s, n);
    CountNone(s, n, 64);
    CountNone(g, 0, 1);
    assert Count(g, 2) == Count(g, 1) + 1 && Count(g, 3) == Count(g, 2) + 1;
    CountNone(g, 3, 32);
    forall k | 0 <= k < n
      ensures Count(s, k) == k
    {
      CountAll(s, k);
    }
  }

  lemma GridCounts(last: nat)
    requires last == 2 || last == 3
    ensures var es := Grid(last);
            && Sats(es) == 33 && Sigs(es) == 2
            && Count(SigMask(es), 1) == 0 && Count(SigMask(es), 2) == 1
            && forall k | 0 <= k < 33 :: Count(SatMask(es), k) == k
  {
    hide Grid, SatMask, SigMask, Count;
    GridMasks(last);
    TwoColumns(SatMask(Grid(last)), SigMask(Grid(last)), 33);
  }

  lemma GridCell(last: nat, k: nat)
    requires (last == 2 || last == 3) && k < 33
    ensures ValidEntry(Grid(last)[k]) && CellOf(Grid(last), Grid(last)[k]) == 2 * k + SignalAt(k, last) - 2
  {
    hide SatMask, SigMask;
    GridCounts(last);
    var es := Grid(last);
    assert Count(SatMask(es), k) == k;
  }

  /** Two cells per satellite, of which one is observed. */
  lemma GridCells(last: nat)
    requires last == 2 || last == 3
    ensures ValidEntries(Grid(last)) && |CellMask(Grid(last))| == 66
    ensures forall c | 0 <= c < 66 :: CellMask(Grid(last))[c] == (SignalAt(c / 2, last) == 2 + c % 2)
  {
    hide SatMask, SigMask, CellOf, Grid;
    var es := Grid(last);
    GridMasks(last);
    GridCounts(last);
    forall c | 0 <= c < 66
      ensures CellMask(es)[c] == (SignalAt(c / 2, last) == 2 + c % 2)
    {
      forall k | 0 <= k < 33
        ensures CellOf(es, es[k]) == 2 * k + SignalAt(k, last) - 2
      {
        GridCell(last, k);
      }
      if SignalAt(c / 2, last) == 2 + c % 2 {
        assert CellOf(es, es[c / 2]) == c;
      }
    }
  }

  lemma {:induction false} EveryOther(m: seq<bool>, k: nat)
    requires 2 * k <= |m| && forall i | 0 <= i < k :: m[2 * i] != m[2 * i + 1]
    ensures Count(m, 2 * k) == k
  {
    if k > 0 {
      EveryOther(m, k - 1);
      assert m[2 * (k - 1)] != m[2 * (k - 1) + 1];
      assert Count(m, 2 * k) == Count(m, 2 * k - 1) + (if m[2 * k - 1] then 1 else 0);
    }
  }

  lemma GridHasFewCells(last: nat)
    requires last == 2 || last == 3
    ensures ValidEntries(Grid(last)) && Cells(Grid(last)) == 33 && Sats(Grid(last)) * Sigs(Grid(last)) == 66
  {
    GridCells(last);
    GridCounts(last);
    var m := CellMask(Grid(last));
    forall i | 0 <= i < 33
      ensures m[2 * i] != m[2 * i + 1]
    {
      assert (2 * i) / 2 == i && (2 * i + 1) / 2 == i && (2 * i) % 2 == 0 && (2 * i + 1) % 2 == 1;
    }
    EveryOther(m, 33);
  }

  lemma SameMasks(x: nat, y: nat)
    requires (x == 2 || x == 3) && (y == 2 || y == 3)
    ensures ValidEntries(Grid(x)) && ValidEntries(Grid(y))
    ensures SatMask(Grid(x)) == SatMask(Grid(y)) && SigMask(Grid(x)) == SigMask(Grid(y))
    ensures SentCells(CellMask(Grid(x))) == SentCells(CellMask(Grid(y)))
  {
    hide SatMask, SigMask, CellMask, Grid;
    GridMasks(x);
    GridMasks(y);
    GridCells(x);
    GridCells(y);
    var m, n := CellMask(Grid(x)), CellMask(Grid(y));
    forall c | 0 <= c < 64
      ensures m[c] == n[c]
    {
      assert SignalAt(c / 2, x) == SignalAt(c / 2, y);
    }
  }

  lemma LastPair(last: nat)
    requires last == 2 || last == 3
    ensures (33, 2) in ObservedPairs(Grid(last)) <==> last == 2
  {
    var es := Grid(last);
    assert es[32] in es && PairOf(es[32]) == (33, last);
  }

  /** Two observation lists of 33 cells each with the same header and masks, and different pairs: no
      receiver can tell from the masks which was observed. */
  lemma MasksAmbiguous(h: Header)
    ensures var a, b := Entries(BeiDou, GridObs(2)), Entries(BeiDou, GridObs(3));
            && ValidEntries(a) && ValidEntries(b) && Cells(a) == Cells(b) == 33
            && HeadBits(h, a) == HeadBits(h, b)
            && ObservedPairs(a) != ObservedPairs(b)
  {
    hide HeaderBits, SatMask, SigMask, CellMask, SignalAt, Grid, GridObs;
    GridFromObservations(2);
    GridFromObservations(3);
    GridHasFewCells(2);
    GridHasFewCells(3);
    SameMasks(2, 3);
    LastPair(2);
    LastPair(3);
  }

  // ---------- more cells than fields ----------

  /** All 37 BeiDou satellites on 1I and 1Q. */
  function CrowdedSky(): (obs: seq<Obs>)
    ensures |obs| == 37 && ValidList(obs)
  {
    seq(37, k requires 0 <= k < 37 => Obs(0, 84 + k, [SkySignal(0), SkySignal(1), NO_SIGNAL]))
  }

  function SkySignal(j: nat): Signal {
    Signal(0.0, 0.0, 0, 0, if j == 0 then CODE_L1I else CODE_L1Q)
  }

  function SkyEntry(i: nat): Entry {
    Entry(i / 2 + 1, i % 2 + 2, 84 + i / 2, i % 2, 1, SkySignal(i % 2), 0)
  }

  /** The entries of the first n. */
  function SkyEntries(n: nat): (es: seq<Entry>)
    ensures |es| == 2 * n
  {
    seq(2 * n, i requires 0 <= i < 2 * n => SkyEntry(i))
  }

  lemma SkyRecord(k: nat)
    requires k < 37
    ensures RecordEntries(BeiDou, CrowdedSky()[k], NFREQ) == [SkyEntry(2 * k), SkyEntry(2 * k + 1)]
  {
    assert (2 * k) / 2 == k && (2 * k) % 2 == 0 && (2 * k + 1) / 2 == k && (2 * k + 1) % 2 == 1;
    RecordOfThree(BeiDou, CrowdedSky()[k]);
  }

  lemma {:induction false} SkyPrefix(n: nat)
    requires n <= 37
    ensures Entries(BeiDou, CrowdedSky()[..n]) == SkyEntries(n)
  {
    hide CrowdedSky, RecordEntries, SkyEntry;
    if n > 0 {
      SkyPrefix(n - 1);
      SkyRecord(n - 1);
      NextRecord(BeiDou, CrowdedSky(), n - 1);
      assert SkyEntries(n) == SkyEntries(n - 1) + [SkyEntry(2 * n - 2), SkyEntry(2 * n - 1)];
    }
  }

  lemma SkySat(id: nat)
    ensures HasSat(SkyEntries(37), id) <==> 1 <= id <= 37
  {
    if 1 <= id <= 37 {
      assert SkyEntries(37)[2 * id - 2].satId == id;
    }
  }

  lemma SkySig(id: nat)
    ensures HasSig(SkyEntries(37), id) <==> id == 2 || id == 3
  {
    assert SkyEntries(37)[0].sigId == 2 && SkyEntries(37)[1].sigId == 3;
  }

  lemma SkyMasks()
    ensures var es := SkyEntries(37);
            && ValidEntries(es)
            && SatMask(es) == seq(64, i => i < 37) && SigMask(es) == seq(32, i => i == 1 || i == 2)
  {
    hide HasSat, HasSig;
    var es := SkyEntries(37);
    forall i | 0 <= i < 64
      ensures SatMask(es)[i] == (i < 37)
    {
      SkySat(i + 1);
    }
    forall i | 0 <= i < 32
      ensures SigMask(es)[i] == (i == 1 || i == 2)
    {
      SkySig(i + 1);
    }
  }

  lemma SkyCounts()
    ensures var es := SkyEntries(37);
            && Sats(es) == 37 && Sigs(es) == 2
            && Count(SigMask(es), 1) == 0 && Count(SigMask(es), 2) == 1
            && forall k | 0 <= k < 37 :: Count(SatMask(es), k) == k
  {
    hide SkyEntries, SatMask, SigMask, Count;
    SkyMasks();
    TwoColumns(SatMask(SkyEntries(37)), SigMask(SkyEntries(37)), 37);
  }

  lemma SkyCell(i: nat)
    requires i < 74
    ensures ValidEntry(SkyEntry(i)) && CellOf(SkyEntries(37), SkyEntry(i)) == i
  {
    hide SatMask, SigMask, SkyEntries, Count, Sats, Sigs;
    SkyCounts();
    assert Count(SatMask(SkyEntries(37)), i / 2) == i / 2;
    assert SkyEntry(i).sigId - 1 == i % 2 + 1 && SkyEntry(i).satId - 1 == i / 2;
  }

  /** Observations that fill 74 cells, where a message has fields for 64 and the encoder fills in 63. */
  lemma CrowdedCells()
    ensures var es := Entries(BeiDou, CrowdedSky()); ValidEntries(es) && Cells(es) == 74
  {
    hide SatMask, SigMask, CellOf, SkyEntry, CrowdedSky;
    var es := SkyEntries(37);
    SkyPrefix(37);
    assert CrowdedSky()[..37] == CrowdedSky();
    SkyMasks();
    SkyCounts();
    forall c | 0 <= c < 74
      ensures CellMask(es)[c]
    {
      SkyCell(c);
      assert CellOf(es, es[c]) == c;
    }
    CountAll(CellMask(es), 74);
  }

  /** Their message shows what the stack held. */
  lemma CrowdedShowsStack(h: Header, track: Track) returns (a: Buffers, b: Buffers)
    requires ValidTrack(track)
    ensures var es := Entries(BeiDou, CrowdedSky());
            && ValidEntries(es) && ValidBuffers(a) && ValidBuffers(b)
            && MsmMessage(h, es, track, a) != MsmMessage(h, es, track, b)
  {
    hide MsmMessage, Cells, CrowdedSky;
    CrowdedCells();
    var s := Buffers(seq(64, _ => 0.0), seq(64, _ => 0.0), seq(64, _ => 0), seq(64, _ => false), seq(64, _ => 0));
    a, b := StackShows(h, Entries(BeiDou, CrowdedSky()), track, s);
  }
}
