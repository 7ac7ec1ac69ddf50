/** What a receiver reads back from an MSM4 message: the observed pairs from the masks, and for every
    pair the fields its signals left. */
module MsmReadBack {
  import opened BitFields
  import opened BitWriter
  import opened Masks
  import opened MsmEncode
  import opened MsmIndex
  import opened MsmSignals
  import opened Quantisation
  import opened Satellites
  import opened SignalProperties

  // ---------- the message as a function of its inputs ----------

  ghost function RoughRanges(es: seq<Entry>): (r: seq<real>)
    ensures RoughFilled(r, es, es)
  {
    seq(64, k requires 0 <= k < 64 => if k < Sats(es) then RoughAt(es, Select(SatMask(es), 64)[k] + 1) else 0.0)
  }

  lemma RoughRangesUnique(rrng: seq<real>, es: seq<Entry>)
    requires RoughFilled(rrng, es, es)
    ensures rrng == RoughRanges(es)
  {
  }

  /** The message of one epoch: from the header, the entries and the tracked state; the stack stands for
      what the encoder's uninitialised arrays held. */
  ghost function MsmMessage(h: Header, es: seq<Entry>, track: Track, stack: Buffers): seq<bool>
    requires ValidEntries(es) && ValidTrack(track) && ValidBuffers(stack)
  {
    MessageBits(h, es, RoughRanges(es), EpochState(h.sys, es, track, stack).buffers)
  }

  // ---------- length ----------

  lemma MessageLength(h: Header, es: seq<Entry>, rrng: seq<real>, b: Buffers)
    requires ValidEntries(es) && |rrng| == 64 && ValidBuffers(b)
    ensures |MessageBits(h, es, rrng, b)|
         == 193 + |SentCells(CellMask(es))| + 18 * Sats(es) + 48 * FieldCount(es)
  {
  }

  /** The message has a bit for every cell of the grid, and fields for every observed cell, exactly when
      the grid has at most 64 cells. */
  lemma BitCount(h: Header, es: seq<Entry>, rrng: seq<real>, b: Buffers)
    requires ValidEntries(es) && |rrng| == 64 && ValidBuffers(b)
    ensures |MessageBits(h, es, rrng, b)| == 193 + Sats(es) * Sigs(es) + 18 * Sats(es) + 48 * Cells(es)
       <==> Sats(es) * Sigs(es) <= 64
  {
    MessageLength(h, es, rrng, b);
  }

  // ---------- masks ----------

  /** A buffer that holds the message m from its 24th bit on: a frame, whose length has been filled in. */
  ghost predicate Carries(b: seq<bool>, m: seq<bool>) {
    24 <= |m| <= |b| && b[24..|m|] == m[24..]
  }

  lemma CarriedRun(b: seq<bool>, m: seq<bool>, base: nat, f: seq<bool>)
    requires Carries(b, m) && 24 <= base && StandsAt(m, base, f)
    ensures StandsAt(b, base, f)
  {
    forall k | 0 <= k < |f|
      ensures f[k] == b[base + k]
    {
      assert b[24..|m|][base + k - 24] == m[24..][base + k - 24];
    }
  }

  lemma StandsAppend(b: seq<bool>, base: nat, f: seq<bool>, more: seq<bool>)
    requires StandsAt(b, base, f)
    ensures StandsAt(b + more, base, f)
  {
  }

  lemma StandsLast(b: seq<bool>, f: seq<bool>)
    ensures StandsAt(b + f, |b|, f)
  {
  }

  function GridSize(b: seq<bool>): nat
    requires |b| >= 193
  {
    Count(b[97..161], 64) * Count(b[161..193], 32)
  }

  /** A receiver's reading of the three masks. */
  function ReadPairs(b: seq<bool>): set<(nat, nat)>
    requires |b| >= 193 && |b| >= 193 + GridSize(b)
  {
    DecodedPairs(b[97..161], b[161..193], b[193..193 + GridSize(b)])
  }

  lemma MasksStand(h: Header, es: seq<Entry>)
    requires ValidEntries(es)
    ensures var m := HeadBits(h, es);
            StandsAt(m, 97, SatMask(es)) && StandsAt(m, 161, SigMask(es)) && StandsAt(m, 193, SentCells(CellMask(es)))
  {
    var a, s, g, c := HeaderBits(h), SatMask(es), SigMask(es), SentCells(CellMask(es));
    StandsLast(a, s);
    StandsAppend(a + s, 97, s, g);
    StandsAppend(a + s + g, 97, s, c);
    StandsLast(a + s, g);
    StandsAppend(a + s + g, 161, g, c);
    StandsLast(a + s + g, c);
  }

  /** The seven runs of equal-width fields. */
  datatype Runs = Runs(ints: seq<bool>, mods: seq<bool>, psr: seq<bool>, phr: seq<bool>, lock: seq<bool>,
                       half: seq<bool>, cnr: seq<bool>)

  function RunsOf(rrng: seq<real>, nsat: nat, bufs: Buffers, ncell: nat): Runs
    requires nsat <= |rrng| && ValidBuffers(bufs) && ncell <= 64
  {
    Runs(FieldsU(IntFields(rrng, nsat), 8), FieldsU(ModFields(rrng, nsat), 10),
         FieldsS(PsrFields(bufs.psrng, ncell), 15), FieldsS(PhrFields(bufs.phrng, ncell), 22),
         FieldsU(LockFields(bufs.lock, ncell), 4), FieldsU(HalfFields(bufs.half, ncell), 1),
         FieldsU(CnrFields(bufs.cnr, ncell), 6))
  }

  /** The runs laid end to end from base on. */
  ghost predicate RunsStand(b: seq<bool>, base: nat, r: Runs) {
    && StandsAt(b, base, r.ints)
    && StandsAt(b, base + |r.ints|, r.mods)
    && StandsAt(b, base + |r.ints| + |r.mods|, r.psr)
    && StandsAt(b, base + |r.ints| + |r.mods| + |r.psr|, r.phr)
    && StandsAt(b, base + |r.ints| + |r.mods| + |r.psr| + |r.phr|, r.lock)
    && StandsAt(b, base + |r.ints| + |r.mods| + |r.psr| + |r.phr| + |r.lock|, r.half)
    && StandsAt(b, base + |r.ints| + |r.mods| + |r.psr| + |r.phr| + |r.lock| + |r.half|, r.cnr)
  }

  lemma Three(a: seq<bool>, f: seq<bool>, g: seq<bool>, h: seq<bool>)
    ensures var m := a + f + g + h;
            && m[..|a|] == a && StandsAt(m, |a|, f) && StandsAt(m, |a| + |f|, g) && StandsAt(m, |a| + |f| + |g|, h)
  {
  }

  lemma EndToEnd(a: seq<bool>, r: Runs)
    ensures var m := a + r.ints + r.mods + r.psr + r.phr + r.lock + r.half + r.cnr;
            RunsStand(m, |a|, r) && m[..|a|] == a
  {
    hide StandsAt;
    var x := a + r.ints + r.mods + r.psr;
    var y := x + r.phr + r.lock + r.half;
    Three(a, r.ints, r.mods, r.psr);
    Three(x, r.phr, r.lock, r.half);
    StandsInLonger(y, |x|, |a|, r.ints);
    StandsInLonger(y, |x|, |a| + |r.ints|, r.mods);
    StandsInLonger(y, |x|, |a| + |r.ints| + |r.mods|, r.psr);
    StandsAppend(y, |a|, r.ints, r.cnr);
    StandsAppend(y, |a| + |r.ints|, r.mods, r.cnr);
    StandsAppend(y, |a| + |r.ints| + |r.mods|, r.psr, r.cnr);
    StandsAppend(y, |x|, r.phr, r.cnr);
    StandsAppend(y, |x| + |r.phr|, r.lock, r.cnr);
    StandsAppend(y, |x| + |r.phr| + |r.lock|, r.half, r.cnr);
    StandsLast(y, r.cnr);
    PrefixOfPrefix(y + r.cnr, y, x, a);
  }

  lemma PrefixOfPrefix(m: seq<bool>, y: seq<bool>, x: seq<bool>, a: seq<bool>)
    requires |a| <= |x| <= |y| <= |m| && m[..|y|] == y && y[..|x|] == x && x[..|a|] == a
    ensures m[..|a|] == a
  {
    assert m[..|y|][..|a|] == m[..|a|] && y[..|x|][..|a|] == y[..|a|];
  }

  lemma RunsLaidOut(acc: seq<bool>, rrng: seq<real>, nsat: nat, bufs: Buffers, ncell: nat)
    requires nsat <= |rrng| && ValidBuffers(bufs) && ncell <= 64
    ensures var m := DataBits(acc, rrng, nsat, bufs, ncell);
            && RunsStand(m, |acc|, RunsOf(rrng, nsat, bufs, ncell))
            && |acc| <= |m| && m[..|acc|] == acc
  {
    EndToEnd(acc, RunsOf(rrng, nsat, bufs, ncell));
  }

  lemma StandsInLonger(m: seq<bool>, n: nat, base: nat, f: seq<bool>)
    requires n <= |m| && StandsAt(m[..n], base, f)
    ensures StandsAt(m, base, f)
  {
  }

  /** The masks stand where a receiver looks for them. */
  lemma MasksCarried(b: seq<bool>, h: Header, es: seq<Entry>, rrng: seq<real>, bufs: Buffers)
    requires ValidEntries(es) && |rrng| == 64 && ValidBuffers(bufs)
    requires Carries(b, MessageBits(h, es, rrng, bufs))
    ensures StandsAt(b, 97, SatMask(es)) && StandsAt(b, 161, SigMask(es))
    ensures StandsAt(b, 193, SentCells(CellMask(es)))
  {
    var m, head := MessageBits(h, es, rrng, bufs), HeadBits(h, es);
    RunsLaidOut(head, rrng, Sats(es), bufs, FieldCount(es));
    MasksStand(h, es);
    StandsInLonger(m, |head|, 97, SatMask(es));
    StandsInLonger(m, |head|, 161, SigMask(es));
    StandsInLonger(m, |head|, 193, SentCells(CellMask(es)));
    CarriedRun(b, m, 97, SatMask(es));
    CarriedRun(b, m, 161, SigMask(es));
    CarriedRun(b, m, 193, SentCells(CellMask(es)));
  }

  /** The receiver finds the satellite and signal masks, and the size of the grid. */
  lemma MasksRead(b: seq<bool>, h: Header, es: seq<Entry>, rrng: seq<real>, bufs: Buffers)
    requires ValidEntries(es) && |rrng| == 64 && ValidBuffers(bufs)
    requires Carries(b, MessageBits(h, es, rrng, bufs))
    ensures |b| >= 193 && b[97..161] == SatMask(es) && b[161..193] == SigMask(es)
    ensures GridSize(b) == Sats(es) * Sigs(es)
    ensures StandsAt(b, 193, SentCells(CellMask(es)))
  {
    hide StandsAt, MessageBits, SatMask, SigMask, CellMask, Carries;
    MasksCarried(b, h, es, rrng, bufs);
    StandsSlice(b, 97, SatMask(es));
    StandsSlice(b, 161, SigMask(es));
  }

  lemma StandsSlice(b: seq<bool>, base: nat, f: seq<bool>)
    requires StandsAt(b, base, f)
    ensures base + |f| <= |b| && b[base..base + |f|] == f
  {
  }

  /** Reading the masks recovers exactly the observed pairs, while the grid has at most 64 cells. */
  lemma PairsReadBack(b: seq<bool>, h: Header, es: seq<Entry>, rrng: seq<real>, bufs: Buffers)
    requires ValidEntries(es) && |rrng| == 64 && ValidBuffers(bufs) && Sats(es) * Sigs(es) <= 64
    requires Carries(b, MessageBits(h, es, rrng, bufs))
    ensures |b| >= 193 && GridSize(b) == Sats(es) * Sigs(es) && |b| >= 193 + GridSize(b)
    ensures ReadPairs(b) == ObservedPairs(es)
  {
    hide StandsAt, MessageBits, SatMask, SigMask, CellMask, Carries, GridSize, DecodedPairs, ObservedPairs, Sats, Sigs;
    MasksRead(b, h, es, rrng, bufs);
    MasksCarryPairs(es);
    StandsSlice(b, 193, SentCells(CellMask(es)));
  }

  // ---------- fields ----------

  /** The fields of one signal, as read. */
  datatype Cell = Cell(psr: int, phr: int, lock: nat, half: nat, cnr: nat)

  /** A receiver's reading of the k-th of n signals whose data begin at base. */
  function ReadCell(b: seq<bool>, base: nat, n: nat, k: nat): Cell
    requires k < n && base + 48 * n <= |b|
  {
    Cell(ReadS(b, base + 15 * k, 15), ReadS(b, base + 15 * n + 22 * k, 22), ReadU(b, base + 37 * n + 4 * k, 4),
         ReadU(b, base + 41 * n + k, 1), ReadU(b, base + 42 * n + 6 * k, 6))
  }

  /** The rough range fields of the k-th of n satellites. */
  function ReadRough(b: seq<bool>, base: nat, n: nat, k: nat): (nat, nat)
    requires k < n && base + 18 * n <= |b|
  {
    (ReadU(b, base + 8 * k, 8), ReadU(b, base + 8 * n + 10 * k, 10))
  }

  lemma RunsCarried(b: seq<bool>, m: seq<bool>, base: nat, r: Runs)
    requires Carries(b, m) && base >= 24 && RunsStand(m, base, r)
    ensures RunsStand(b, base, r)
  {
    CarriedRun(b, m, base, r.ints);
    CarriedRun(b, m, base + |r.ints|, r.mods);
    CarriedRun(b, m, base + |r.ints| + |r.mods|, r.psr);
    CarriedRun(b, m, base + |r.ints| + |r.mods| + |r.psr|, r.phr);
    CarriedRun(b, m, base + |r.ints| + |r.mods| + |r.psr| + |r.phr|, r.lock);
    CarriedRun(b, m, base + |r.ints| + |r.mods| + |r.psr| + |r.phr| + |r.lock|, r.half);
    CarriedRun(b, m, base + |r.ints| + |r.mods| + |r.psr| + |r.phr| + |r.lock| + |r.half|, r.cnr);
  }

  lemma PsrReadsBack(b: seq<bool>, base: nat, psrng: seq<real>, n: nat, k: nat)
    requires k < n <= |psrng| && StandsAt(b, base, FieldsS(PsrFields(psrng, n), 15))
    ensures base + 15 * k + 15 <= |b| && ReadS(b, base + 15 * k, 15) == FinePsr(psrng[k])
  {
    ReadFieldS(b, base, PsrFields(psrng, n), 15, k, 15 * k);
    FinePsrFits(psrng[k]);
  }

  lemma PhrReadsBack(b: seq<bool>, base: nat, phrng: seq<real>, n: nat, k: nat)
    requires k < n <= |phrng| && StandsAt(b, base, FieldsS(PhrFields(phrng, n), 22))
    ensures base + 22 * k + 22 <= |b| && ReadS(b, base + 22 * k, 22) == FinePhr(phrng[k])
  {
    ReadFieldS(b, base, PhrFields(phrng, n), 22, k, 22 * k);
    FinePhrFits(phrng[k]);
  }

  lemma LockReadsBack(b: seq<bool>, base: nat, lock: seq<int>, n: nat, k: nat)
    requires k < n <= |lock| && StandsAt(b, base, FieldsU(LockFields(lock, n), 4))
    ensures base + 4 * k + 4 <= |b| && ReadU(b, base + 4 * k, 4) == ToMsmLock(lock[k])
  {
    ReadFieldU(b, base, LockFields(lock, n), 4, k, 4 * k);
    PowersUpTo8();
  }

  lemma HalfReadsBack(b: seq<bool>, base: nat, half: seq<bool>, n: nat, k: nat)
    requires k < n <= |half| && StandsAt(b, base, FieldsU(HalfFields(half, n), 1))
    ensures base + k + 1 <= |b| && ReadU(b, base + k, 1) == if half[k] then 1 else 0
  {
    ReadFieldU(b, base, HalfFields(half, n), 1, k, k);
    PowersUpTo8();
  }

  lemma CnrReadsBack(b: seq<bool>, base: nat, cnr: seq<nat>, n: nat, k: nat)
    requires k < n <= |cnr| && StandsAt(b, base, FieldsU(CnrFields(cnr, n), 6))
    ensures base + 6 * k + 6 <= |b| && ReadU(b, base + 6 * k, 6) == CnrValue(cnr[k]) % 64
  {
    ReadFieldU(b, base, CnrFields(cnr, n), 6, k, 6 * k);
    PowersUpTo8();
  }

  /** The places of the runs, worked out from their lengths. */
  lemma RunPlaces(b: seq<bool>, base: nat, r: Runs, nsat: nat, n: nat)
    requires RunsStand(b, base, r)
    requires |r.ints| == 8 * nsat && |r.mods| == 10 * nsat && |r.psr| == 15 * n && |r.phr| == 22 * n
    requires |r.lock| == 4 * n && |r.half| == n && |r.cnr| == 6 * n
    ensures var s := base + 18 * nsat;
            && s + 48 * n <= |b|
            && StandsAt(b, base, r.ints) && StandsAt(b, base + 8 * nsat, r.mods)
            && StandsAt(b, s, r.psr) && StandsAt(b, s + 15 * n, r.phr) && StandsAt(b, s + 37 * n, r.lock)
            && StandsAt(b, s + 41 * n, r.half) && StandsAt(b, s + 42 * n, r.cnr)
  {
  }

  /** How the fields of a place are sent. */
  function Sent(f: Fields): Cell {
    Cell(FinePsr(f.psr), FinePhr(f.phr), ToMsmLock(f.lock), if f.half then 1 else 0, CnrValue(f.cnr) % 64)
  }

  /** Every field of a run reads back: the k-th signal, whatever the buffers hold. */
  lemma CellReadsBack(b: seq<bool>, base: nat, rrng: seq<real>, nsat: nat, bufs: Buffers, ncell: nat, k: nat)
    requires nsat <= |rrng| && ValidBuffers(bufs) && k < ncell <= 64
    requires RunsStand(b, base, RunsOf(rrng, nsat, bufs, ncell))
    ensures base + 18 * nsat + 48 * ncell <= |b|
    ensures ReadCell(b, base + 18 * nsat, ncell, k) == Sent(FieldsAt(bufs, k))
  {
    hide StandsAt, ReadCell;
    var s := base + 18 * nsat;
    RunPlaces(b, base, RunsOf(rrng, nsat, bufs, ncell), nsat, ncell);
    CellFieldsReadBack(b, s, bufs, ncell, k);
  }

  lemma CellFieldsReadBack(b: seq<bool>, s: nat, bufs: Buffers, ncell: nat, k: nat)
    requires ValidBuffers(bufs) && k < ncell <= 64 && s + 48 * ncell <= |b|
    requires StandsAt(b, s, FieldsS(PsrFields(bufs.psrng, ncell), 15))
    requires StandsAt(b, s + 15 * ncell, FieldsS(PhrFields(bufs.phrng, ncell), 22))
    requires StandsAt(b, s + 37 * ncell, FieldsU(LockFields(bufs.lock, ncell), 4))
    requires StandsAt(b, s + 41 * ncell, FieldsU(HalfFields(bufs.half, ncell), 1))
    requires StandsAt(b, s + 42 * ncell, FieldsU(CnrFields(bufs.cnr, ncell), 6))
    ensures ReadCell(b, s, ncell, k) == Sent(FieldsAt(bufs, k))
  {
    hide ReadS;
    hide ReadU;
    PsrReadsBack(b, s, bufs.psrng, ncell, k);
    PhrReadsBack(b, s + 15 * ncell, bufs.phrng, ncell, k);
    LockReadsBack(b, s + 37 * ncell, bufs.lock, ncell, k);
    HalfReadsBack(b, s + 41 * ncell, bufs.half, ncell, k);
    CnrReadsBack(b, s + 42 * ncell, bufs.cnr, ncell, k);
  }

  lemma IntReadsBack(b: seq<bool>, base: nat, rrng: seq<real>, n: nat, k: nat)
    requires k < n <= |rrng| && StandsAt(b, base, FieldsU(IntFields(rrng, n), 8))
    ensures base + 8 * k + 8 <= |b| && ReadU(b, base + 8 * k, 8) == IntMs(rrng[k])
  {
    ReadFieldU(b, base, IntFields(rrng, n), 8, k, 8 * k);
    PowersUpTo8();
  }

  lemma ModReadsBack(b: seq<bool>, base: nat, rrng: seq<real>, n: nat, k: nat)
    requires k < n <= |rrng| && StandsAt(b, base, FieldsU(ModFields(rrng, n), 10))
    ensures base + 10 * k + 10 <= |b| && ReadU(b, base + 10 * k, 10) == ModMs(rrng[k])
  {
    ReadFieldU(b, base, ModFields(rrng, n), 10, k, 10 * k);
    assert Pow2(6) == 64;
    assert Pow2(10) == 1024;
  }

  lemma RoughReadsBack(b: seq<bool>, base: nat, rrng: seq<real>, nsat: nat, bufs: Buffers, ncell: nat, k: nat)
    requires nsat <= |rrng| && ValidBuffers(bufs) && ncell <= 64 && k < nsat
    requires RunsStand(b, base, RunsOf(rrng, nsat, bufs, ncell))
    ensures base + 18 * nsat <= |b|
    ensures ReadRough(b, base, nsat, k) == (IntMs(rrng[k]), ModMs(rrng[k]))
  {
    RunPlaces(b, base, RunsOf(rrng, nsat, bufs, ncell), nsat, ncell);
    IntReadsBack(b, base, rrng, nsat, k);
    ModReadsBack(b, base + 8 * nsat, rrng, nsat, k);
  }

  /** The 6-bit field carries the signal strength exactly below 63.5 dBHz; from there on it wraps. */
  lemma CnrFits(snr: nat)
    requires snr < 256
    ensures CnrValue(snr) % 64 == CnrValue(snr) <==> snr < 254
    ensures snr >= 254 ==> CnrValue(snr) % 64 == 0
  {
  }

  // ---------- a whole message ----------

  /** Where the data of the message begin. */
  ghost function DataStart(es: seq<Entry>): nat
    requires ValidEntries(es)
  {
    193 + |SentCells(CellMask(es))|
  }

  /** What a receiver finds for one entry: the rough range of its satellite, found by the rank of the
      satellite, and the fields of its signal, found by the rank of its cell. */
  ghost function Found(b: seq<bool>, es: seq<Entry>, e: Entry): ((nat, nat), Cell)
    requires ValidEntries(es) && e in es && 1 <= FieldOf(es, e) <= Cells(es) < 64
    requires DataStart(es) + 18 * Sats(es) + 48 * Cells(es) <= |b|
  {
    SatelliteRank(es, e);
    (ReadRough(b, DataStart(es), Sats(es), Count(SatMask(es), e.satId - 1)),
     ReadCell(b, DataStart(es) + 18 * Sats(es), Cells(es), FieldOf(es, e) - 1))
  }

  lemma SatelliteRank(es: seq<Entry>, e: Entry)
    requires ValidEntries(es) && e in es
    ensures Count(SatMask(es), e.satId - 1) < Sats(es)
    ensures Ranks(SatMask(es))[e.satId - 1] == Count(SatMask(es), e.satId - 1) + 1
  {
    assert HasSat(es, e.satId);
    CountBelowSet(SatMask(es), e.satId - 1, 64);
  }

  /** The fields of a signal on its own: against the rough range of its satellite, from the tracked state
      its turn finds. */
  function Own(sys: System, track: Track, rough: real, e: Entry): ((nat, nat), Cell)
    requires 1 <= e.sat <= MAXSAT && e.slot < NFREQ && ValidTrack(track)
  {
    ((IntMs(rough), ModMs(rough)), Sent(OwnFields(sys, e, rough, track)))
  }

  /** What the encoder sends for the pair of an entry, from the state before the epoch. */
  ghost function Left(h: Header, es: seq<Entry>, track: Track, e: Entry): ((nat, nat), Cell)
    requires ValidEntries(es) && e in es && ValidTrack(track)
  {
    var rough := RoughAt(es, e.satId);
    ((IntMs(rough), ModMs(rough)), Sent(PairFields(h.sys, es, track, |es|, PairOf(e))))
  }

  /** Every pair's fields read back as what its signals leave, whatever else the epoch holds and whatever
      the stack held. */
  lemma FieldsReadBack(b: seq<bool>, h: Header, es: seq<Entry>, track: Track, stack: Buffers, e: Entry)
    requires ValidEntries(es) && Cells(es) < 64 && e in es
    requires ValidTrack(track) && ValidBuffers(stack)
    requires Carries(b, MsmMessage(h, es, track, stack))
    ensures 1 <= FieldOf(es, e) <= Cells(es)
    ensures DataStart(es) + 18 * Sats(es) + 48 * Cells(es) <= |b|
    ensures Found(b, es, e) == Left(h, es, track, e)
  {
    hide ReadCell, ReadRough, MsmMessage, RunsStand, RunsOf, Carries, Sent, PairFields, FieldsAt;
    hide RoughRanges, EpochState, FieldOf, IntMs, ModMs, CellMask, Sats;
    EpochFields(h.sys, es, track, stack, e);
    RoughHolds(es, e);
    MessageRuns(b, h, es, track, stack);
    var rrng, bufs, n := RoughRanges(es), EpochState(h.sys, es, track, stack).buffers, Sats(es);
    CellReadsBack(b, DataStart(es), rrng, n, bufs, Cells(es), FieldOf(es, e) - 1);
    RoughReadsBack(b, DataStart(es), rrng, n, bufs, Cells(es), Count(SatMask(es), e.satId - 1));
  }

  lemma RoughHolds(es: seq<Entry>, e: Entry)
    requires ValidEntries(es) && e in es
    ensures Count(SatMask(es), e.satId - 1) < Sats(es)
    ensures RoughRanges(es)[Count(SatMask(es), e.satId - 1)] == RoughAt(es, e.satId)
  {
    SatelliteRank(es, e);
    RoughOfEntry(RoughRanges(es), es, e);
  }

  lemma MessageRuns(b: seq<bool>, h: Header, es: seq<Entry>, track: Track, stack: Buffers)
    requires ValidEntries(es) && ValidTrack(track) && ValidBuffers(stack)
    requires Carries(b, MsmMessage(h, es, track, stack))
    ensures RunsStand(b, DataStart(es), RunsOf(RoughRanges(es), Sats(es),
                                               EpochState(h.sys, es, track, stack).buffers, FieldCount(es)))
  {
    var rrng, bufs, n := RoughRanges(es), EpochState(h.sys, es, track, stack).buffers, FieldCount(es);
    RunsLaidOut(HeadBits(h, es), rrng, Sats(es), bufs, n);
    RunsCarried(b, MsmMessage(h, es, track, stack), DataStart(es), RunsOf(rrng, Sats(es), bufs, n));
  }

  // ---------- the uninitialised arrays ----------

  /** Whether two buffers agree on lock time, half-cycle flag and signal strength of one place. */
  predicate SameMarks(x: Buffers, y: Buffers, k: nat)
    requires ValidBuffers(x) && ValidBuffers(y) && k < 64
  {
    x.lock[k] == y.lock[k] && x.half[k] == y.half[k] && x.cnr[k] == y.cnr[k]
  }

  predicate SameResiduals(x: Buffers, y: Buffers, n: nat)
    requires ValidBuffers(x) && ValidBuffers(y) && n <= 64
  {
    forall k | 0 <= k < n :: x.psrng[k] == y.psrng[k] && x.phrng[k] == y.phrng[k]
  }

  /** Two buffers that agree on the first n fields. */
  predicate AgreeTo(a: Buffers, b: Buffers, n: nat)
    requires ValidBuffers(a) && ValidBuffers(b) && n <= 64
  {
    SameResiduals(a, b, n) && forall k | 0 <= k < n :: SameMarks(a, b, k)
  }

  lemma SameFieldsSameMessage(h: Header, es: seq<Entry>, rrng: seq<real>, a: Buffers, b: Buffers)
    requires ValidEntries(es) && |rrng| == 64 && ValidBuffers(a) && ValidBuffers(b)
    requires AgreeTo(a, b, FieldCount(es))
    ensures MessageBits(h, es, rrng, a) == MessageBits(h, es, rrng, b)
  {
    var n := FieldCount(es);
    SameFieldRuns(a, b, n);
  }

  lemma SameFieldRuns(a: Buffers, b: Buffers, n: nat)
    requires ValidBuffers(a) && ValidBuffers(b) && n <= 64 && AgreeTo(a, b, n)
    ensures PsrFields(a.psrng, n) == PsrFields(b.psrng, n) && PhrFields(a.phrng, n) == PhrFields(b.phrng, n)
    ensures LockFields(a.lock, n) == LockFields(b.lock, n) && HalfFields(a.half, n) == HalfFields(b.half, n)
    ensures CnrFields(a.cnr, n) == CnrFields(b.cnr, n)
  {
    forall k | 0 <= k < n
      ensures a.lock[k] == b.lock[k] && a.half[k] == b.half[k] && a.cnr[k] == b.cnr[k]
    {
      assert SameMarks(a, b, k);
    }
  }

  /** No run of the encoder writes the 64th place of the arrays. */
  lemma {:induction false} LastPlaceUntouched(sys: System, all: seq<Entry>, s: State, done: seq<Entry>)
    requires ValidEntries(all) && ValidState(s) && Within(done, all)
    requires forall e | e in all :: FieldOf(all, e) >= 1
    ensures Run(sys, all, s, done).buffers.lock[63] == s.buffers.lock[63]
  {
    if |done| > 0 {
      LastPlaceUntouched(sys, all, s, done[..|done| - 1]);
    }
  }

  /** One signal, from two buffers and the same track. */
  lemma StepIgnoresStack(sys: System, all: seq<Entry>, s: State, u: State, e: Entry, n: nat)
    requires ValidEntries(all) && e in all && 1 <= FieldOf(all, e) < 64 && n <= 64
    requires ValidState(s) && ValidState(u) && s.track == u.track && SameResiduals(s.buffers, u.buffers, n)
    ensures var x, y := SignalStep(sys, all, s, e), SignalStep(sys, all, u, e);
            && x.track == y.track && SameResiduals(x.buffers, y.buffers, n)
            && SameMarks(x.buffers, y.buffers, FieldOf(all, e) - 1)
            && forall k | 0 <= k < 64 && SameMarks(s.buffers, u.buffers, k) :: SameMarks(x.buffers, y.buffers, k)
  {
    hide FieldOf, OffsetAfter, StartAfter, RangeResidual, PhaseResidual, RoughAt;
  }

  /** Two runs over the same signals from the same track: the tracks and residuals stay equal, and every
      place visited is filled alike, however often it is visited. */
  lemma {:induction false} RunIgnoresStack(sys: System, all: seq<Entry>, s: State, u: State, done: seq<Entry>, n: nat)
    requires ValidEntries(all) && Within(done, all) && n <= 64
    requires forall e | e in all :: 1 <= FieldOf(all, e) < 64
    requires ValidState(s) && ValidState(u) && s.track == u.track && SameResiduals(s.buffers, u.buffers, n)
    ensures var x, y := Run(sys, all, s, done), Run(sys, all, u, done);
            && x.track == y.track && SameResiduals(x.buffers, y.buffers, n)
            && forall e | e in done :: SameMarks(x.buffers, y.buffers, FieldOf(all, e) - 1)
  {
    hide FieldOf, SignalStep, SameMarks, SameResiduals;
    if |done| > 0 {
      var before, last := done[..|done| - 1], done[|done| - 1];
      RunIgnoresStack(sys, all, s, u, before, n);
      StepIgnoresStack(sys, all, Run(sys, all, s, before), Run(sys, all, u, before), last, n);
      assert done == before + [last];
    }
  }

  /** With fewer than 64 cells an epoch leaves the same track and the same fields whatever the stack held. */
  lemma EpochIgnoresStack(sys: System, es: seq<Entry>, track: Track, a: Buffers, b: Buffers)
    requires ValidEntries(es) && Cells(es) < 64 && ValidTrack(track) && ValidBuffers(a) && ValidBuffers(b)
    ensures EpochState(sys, es, track, a).track == EpochState(sys, es, track, b).track
    ensures AgreeTo(EpochState(sys, es, track, a).buffers, EpochState(sys, es, track, b).buffers, Cells(es))
  {
    var n := Cells(es);
    FieldsInRange(es);
    var s, u := State(track, Cleared(a, n)), State(track, Cleared(b, n));
    RunIgnoresStack(sys, es, s, u, es, n);
    var x, y := Run(sys, es, s, es).buffers, Run(sys, es, u, es).buffers;
    forall k | 0 <= k < n
      ensures SameMarks(x, y, k)
    {
      var e := FieldHasEntry(es, k);
    }
  }

  /** With fewer than 64 cells the message does not depend on what the stack held. */
  lemma StackDoesNotShow(h: Header, es: seq<Entry>, track: Track, a: Buffers, b: Buffers)
    requires ValidEntries(es) && Cells(es) < 64 && ValidTrack(track) && ValidBuffers(a) && ValidBuffers(b)
    ensures MsmMessage(h, es, track, a) == MsmMessage(h, es, track, b)
  {
    EpochIgnoresStack(h.sys, es, track, a, b);
    SameFieldsSameMessage(h, es, RoughRanges(es), EpochState(h.sys, es, track, a).buffers,
                          EpochState(h.sys, es, track, b).buffers);
  }

  /** So it is independent of it exactly below 64 cells. */
  lemma StackShowsFrom64(h: Header, es: seq<Entry>, track: Track)
    requires ValidEntries(es) && ValidTrack(track)
    ensures Cells(es) < 64
       <==> forall a, b | ValidBuffers(a) && ValidBuffers(b) ::
              MsmMessage(h, es, track, a) == MsmMessage(h, es, track, b)
  {
    hide MsmMessage, Cells;
    if Cells(es) < 64 {
      forall a, b | ValidBuffers(a) && ValidBuffers(b)
        ensures MsmMessage(h, es, track, a) == MsmMessage(h, es, track, b)
      {
        StackDoesNotShow(h, es, track, a, b);
      }
    } else {
      var s := Buffers(seq(64, _ => 0.0), seq(64, _ => 0.0), seq(64, _ => 0), seq(64, _ => false), seq(64, _ => 0));
      var a, b := StackShows(h, es, track, s);
    }
  }

  /** With 64 cells or more it does: the 64th signal's fields are counted but never filled in. */
  lemma StackShows(h: Header, es: seq<Entry>, track: Track, s: Buffers) returns (a: Buffers, b: Buffers)
    requires ValidEntries(es) && Cells(es) >= 64 && ValidTrack(track) && ValidBuffers(s)
    ensures ValidBuffers(a) && ValidBuffers(b)
    ensures MsmMessage(h, es, track, a) != MsmMessage(h, es, track, b)
  {
    a, b := s.(lock := s.lock[63 := 0]), s.(lock := s.lock[63 := 40]);
    LastLock(h, es, track, a);
    LastLock(h, es, track, b);
  }

  lemma LastLock(h: Header, es: seq<Entry>, track: Track, s: Buffers)
    requires ValidEntries(es) && Cells(es) >= 64 && ValidTrack(track) && ValidBuffers(s)
    ensures var m, p := MsmMessage(h, es, track, s), DataStart(es) + 18 * Sats(es) + 37 * 64 + 4 * 63;
            p + 4 <= |m| && ReadU(m, p, 4) == ToMsmLock(s.lock[63])
  {
    hide RoughRanges, MsmMessage, ReadU, ReadCell, DataStart;
    var m, bufs := MsmMessage(h, es, track, s), EpochState(h.sys, es, track, s).buffers;
    LastPlaceUntouched(h.sys, es, State(track, Cleared(s, FieldCount(es))), es);
    MessageLongEnough(h, es, track, s);
    MessageRuns(m, h, es, track, s);
    RunPlaces(m, DataStart(es), RunsOf(RoughRanges(es), Sats(es), bufs, 64), Sats(es), 64);
    LockReadsBack(m, DataStart(es) + 18 * Sats(es) + 37 * 64, bufs.lock, 64, 63);
  }

  lemma MessageLongEnough(h: Header, es: seq<Entry>, track: Track, s: Buffers)
    requires ValidEntries(es) && ValidTrack(track) && ValidBuffers(s)
    ensures Carries(MsmMessage(h, es, track, s), MsmMessage(h, es, track, s))
  {
    MessageLength(h, es, RoughRanges(es), EpochState(h.sys, es, track, s).buffers);
  }
}
