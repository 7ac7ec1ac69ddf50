/** The satellite and signal data of an MSM message: rough ranges, residuals against them, and the
    carrier-phase offsets and lock times carried from epoch to epoch. */
module MsmSignals {
  import opened Masks
  import opened MsmIndex
  import opened Quantisation
  import opened Satellites

  const SLOTS := MAXSAT * NFREQ

  /** cp[sat-1][j] and lltime[sat-1][j], row by row. Times are in ms; a lock time whose seconds are 0
      is unset. */
  datatype Track = Track(cp: seq<real>, lltime: seq<int>)

  ghost predicate ValidTrack(t: Track) {
    |t.cp| == SLOTS && |t.lltime| == SLOTS
  }

  /** The per-field arrays of encode_msm4. */
  datatype Buffers = Buffers(psrng: seq<real>, phrng: seq<real>, lock: seq<int>, half: seq<bool>, cnr: seq<nat>)

  ghost predicate ValidBuffers(b: Buffers) {
    |b.psrng| == 64 && |b.phrng| == 64 && |b.lock| == 64 && |b.half| == 64 && |b.cnr| == 64
  }

  function Slot(e: Entry): (r: nat)
    requires 1 <= e.sat <= MAXSAT && e.slot < NFREQ
    ensures r < SLOTS
  {
    (e.sat - 1) * NFREQ + e.slot
  }

  // ---------- rough ranges ----------

  /** The rough range of a satellite: of its first signal with a range, unless that rounds to zero. */
  function RoughAt(es: seq<Entry>, id: nat): real {
    if |es| == 0 then 0.0
    else
      var r, e := RoughAt(es[..|es| - 1], id), es[|es| - 1];
      if e.satId == id && r == 0.0 && e.signal.range != 0.0 then RoughOf(e.signal.range) else r
  }

  /** A satellite's rough range is that of the first of its signals whose range does not round to zero; it is
      zero when there is none. */
  lemma {:induction false} RoughIsFirst(es: seq<Entry>, id: nat)
    ensures (forall e | e in es && e.satId == id :: e.signal.range == 0.0 || RoughOf(e.signal.range) == 0.0)
            ==> RoughAt(es, id) == 0.0
    ensures forall k | 0 <= k < |es| && FirstRanged(es, id, k) :: RoughAt(es, id) == RoughOf(es[k].signal.range)
  {
    hide RoughOf;
    if |es| > 0 {
      var before := es[..|es| - 1];
      RoughIsFirst(before, id);
      assert forall e | e in before :: e in es;
      forall k | 0 <= k < |es| && FirstRanged(es, id, k)
        ensures RoughAt(es, id) == RoughOf(es[k].signal.range)
      {
        if k < |before| {
          assert FirstRanged(before, id, k);
        }
      }
    }
  }

  /** The k-th entry is the first of its satellite with a range that does not round to zero. */
  ghost predicate FirstRanged(es: seq<Entry>, id: nat, k: nat)
    requires k < |es|
  {
    && es[k].satId == id && es[k].signal.range != 0.0 && RoughOf(es[k].signal.range) != 0.0
    && forall j | 0 <= j < k && es[j].satId == id :: es[j].signal.range == 0.0 || RoughOf(es[j].signal.range) == 0.0
  }

  /** The array of rough ranges, by satellite rank, after the entries done. */
  ghost predicate RoughFilled(rrng: seq<real>, all: seq<Entry>, done: seq<Entry>) {
    && |rrng| == 64
    && forall k | 0 <= k < 64 ::
         rrng[k] == if k < Sats(all) then RoughAt(done, Select(SatMask(all), 64)[k] + 1) else 0.0
  }

  /** gen_msm_sat. */
  method GenMsmSat(sys: System, obs: seq<Obs>, satInd: array<nat>) returns (rrng: seq<real>)
    requires sys != NoSystem && ValidList(obs)
    requires satInd[..] == Ranks(SatMask(Entries(sys, obs)))
    ensures RoughFilled(rrng, Entries(sys, obs), Entries(sys, obs))
  {
    ghost var all := Entries(sys, obs);
    EntriesValid(sys, obs);
    rrng := seq(64, _ => 0.0);
    ghost var done: seq<Entry> := [];
    var i := 0;
    while i < |obs|
      invariant 0 <= i <= |obs|
      invariant done == Entries(sys, obs[..i])
      invariant RoughFilled(rrng, all, done)
    {
      NextRecord(sys, obs, i);
      RecordIncluded(sys, obs, i);
      rrng, done := RecordRough(sys, obs[i], satInd, rrng, all, done);
      i := i + 1;
    }
    assert obs[..|obs|] == obs;
  }

  method RecordRough(sys: System, o: Obs, satInd: array<nat>, rrng0: seq<real>,
                     ghost all: seq<Entry>, ghost before: seq<Entry>)
      returns (rrng: seq<real>, ghost done: seq<Entry>)
    requires ValidObs(o) && ValidEntries(all) && RecordWithin(sys, o, all)
    requires satInd[..] == Ranks(SatMask(all)) && RoughFilled(rrng0, all, before)
    ensures done == before + RecordEntries(sys, o, NFREQ)
    ensures RoughFilled(rrng, all, done)
  {
    rrng, done := rrng0, before;
    var sat := ToSatId(sys, o.sat);
    if sat == 0 {
      OtherSystemNoEntries(sys, o, NFREQ);
      return;
    }
    var j := 0;
    while j < NFREQ
      invariant 0 <= j <= NFREQ
      invariant done == before + RecordEntries(sys, o, j)
      invariant RoughFilled(rrng, all, done)
    {
      rrng, done := SlotRough(sys, o, j, sat, satInd, rrng, all, before, done);
      j := j + 1;
    }
  }

  method SlotRough(sys: System, o: Obs, j: nat, sat: nat, satInd: array<nat>, rrng0: seq<real>,
                   ghost all: seq<Entry>, ghost before: seq<Entry>, ghost done0: seq<Entry>)
      returns (rrng: seq<real>, ghost done: seq<Entry>)
    requires ValidObs(o) && j < NFREQ && ValidEntries(all) && RecordWithin(sys, o, all)
    requires sat == ToSatId(sys, o.sat) != 0 && satInd[..] == Ranks(SatMask(all))
    requires done0 == before + RecordEntries(sys, o, j) && RoughFilled(rrng0, all, done0)
    ensures done == before + RecordEntries(sys, o, j + 1) && RoughFilled(rrng, all, done)
  {
    rrng, done := rrng0, done0;
    ghost var e := NextSignal(sys, o, j, before, done);
    if ToSigId(sys, o.signals[j].code) != 0 {
      SignalWithin(sys, o, j, all);
      rrng := SignalRough(sat, o.signals[j].range, satInd, rrng, all, done, e);
      done := done + [e];
    }
  }

  /** The first nonzero rough range of a satellite stands. */
  method SignalRough(sat: nat, range: real, satInd: array<nat>, rrng0: seq<real>,
                     ghost all: seq<Entry>, ghost done: seq<Entry>, ghost e: Entry)
      returns (rrng: seq<real>)
    requires ValidEntries(all) && e in all && e.satId == sat && e.signal.range == range
    requires satInd[..] == Ranks(SatMask(all)) && RoughFilled(rrng0, all, done)
    ensures RoughFilled(rrng, all, done + [e])
  {
    rrng := rrng0;
    RoughStep(rrng, all, done, e);
    assert satInd[sat - 1] == Ranks(SatMask(all))[sat - 1];
    var k := satInd[sat - 1] - 1;
    if rrng[k] == 0.0 && range != 0.0 {
      rrng := rrng[k := RoughOf(range)];
    }
  }

  lemma RoughStep(rrng: seq<real>, all: seq<Entry>, done: seq<Entry>, e: Entry)
    requires ValidEntries(all) && e in all && RoughFilled(rrng, all, done)
    ensures var k := Ranks(SatMask(all))[e.satId - 1] - 1;
            && 0 <= k < 64
            && rrng[k] == RoughAt(done, e.satId)
            && RoughFilled(if rrng[k] == 0.0 && e.signal.range != 0.0
                           then rrng[k := RoughOf(e.signal.range)] else rrng, all, done + [e])
  {
    var m := SatMask(all);
    assert HasSat(all, e.satId);
    SelectRank(m, e.satId - 1, 64);
    assert (done + [e])[..|done|] == done;
    forall i | 0 <= i < Sats(all) && i != Count(m, e.satId - 1)
      ensures Select(m, 64)[i] != e.satId - 1
    {
      SelectedIsSet(m, i, 64);
    }
  }

  /** The rough range the encoder finds for an entry is that of the entry's satellite. */
  lemma RoughOfEntry(rrng: seq<real>, all: seq<Entry>, e: Entry)
    requires ValidEntries(all) && e in all && RoughFilled(rrng, all, all)
    ensures var k := Ranks(SatMask(all))[e.satId - 1] - 1;
            0 <= k < 64 && rrng[k] == RoughAt(all, e.satId)
  {
    assert HasSat(all, e.satId);
    SelectRank(SatMask(all), e.satId - 1, 64);
  }

  // ---------- one signal ----------

  function Lambda(sys: System, e: Entry): real {
    Wavelength(sys == BeiDou, e.frequency)
  }

  /** One cycle is that of 1575.42 MHz for GPS and of 1561.098 MHz for BeiDou. */
  lemma FirstWavelength(sys: System, e: Entry)
    requires e.frequency == 1
    ensures Lambda(sys, e) == if sys == BeiDou then 299792458.0 / 1561098000.0 else 299792458.0 / 1575420000.0
  {
  }

  /** psrng_s: the range against the satellite's rough range. */
  function RangeResidual(e: Entry, rough: real): real {
    if e.signal.range == 0.0 then 0.0 else e.signal.range - rough
  }

  /** phrng_s: the phase, in metres, against the rough range, before the offset is taken off. */
  function PhaseResidual(sys: System, e: Entry, rough: real): real {
    if e.signal.phase == 0.0 || Lambda(sys, e) <= 0.0 then 0.0
    else e.signal.phase * Lambda(sys, e) - rough
  }

  function Slip(e: Entry): bool {
    e.signal.lli % 2 == 1
  }

  function OffsetAfter(sys: System, e: Entry, rough: real, cp: real): real {
    NextOffset(Slip(e), PhaseResidual(sys, e, rough), cp, Lambda(sys, e))
  }

  function Unset(time: int): bool {
    time / 1000 == 0
  }

  /** (int)timediff: whole seconds, truncated towards zero. */
  function WholeSeconds(ms: int): int {
    if ms >= 0 then ms / 1000 else -((-ms) / 1000)
  }

  /** locktime. */
  function LockStart(time: int, start: int, slip: bool): int {
    if Unset(start) || slip then time else start
  }

  function StartAfter(sys: System, e: Entry, rough: real, cp: real, start: int): int {
    LockStart(e.time, start, Resets(Slip(e), PhaseResidual(sys, e, rough), cp))
  }

  function TrackStep(sys: System, e: Entry, rough: real, t: Track): (r: Track)
    requires ValidEntry(e) && ValidTrack(t)
    ensures ValidTrack(r)
  {
    var s := Slot(e);
    Track(t.cp[s := OffsetAfter(sys, e, rough, t.cp[s])],
          t.lltime[s := StartAfter(sys, e, rough, t.cp[s], t.lltime[s])])
  }

  function BufferStep(sys: System, e: Entry, rough: real, field: nat, t: Track, b: Buffers): (r: Buffers)
    requires ValidEntry(e) && ValidTrack(t) && ValidBuffers(b) && 1 <= field < 64
    ensures ValidBuffers(r)
  {
    var s, k := Slot(e), field - 1;
    var psr := RangeResidual(e, rough);
    var phr := PhaseResidual(sys, e, rough) - OffsetAfter(sys, e, rough, t.cp[s]);
    Buffers(if psr != 0.0 then b.psrng[k := psr] else b.psrng,
            if phr != 0.0 then b.phrng[k := phr] else b.phrng,
            b.lock[k := WholeSeconds(e.time - StartAfter(sys, e, rough, t.cp[s], t.lltime[s]))],
            b.half[k := e.signal.lli / 2 % 2 == 1],
            b.cnr[k := e.signal.snr])
  }

  // ---------- all signals of an epoch ----------

  datatype State = State(track: Track, buffers: Buffers)

  ghost predicate ValidState(s: State) {
    ValidTrack(s.track) && ValidBuffers(s.buffers)
  }

  /** One turn of gen_msm_sig: a field number of 64 skips the signal. */
  ghost function SignalStep(sys: System, all: seq<Entry>, s: State, e: Entry): (r: State)
    requires ValidEntries(all) && e in all && ValidState(s)
    ensures ValidState(r)
  {
    var field := FieldOf(all, e);
    if field >= 64 then s
    else
      var rough := RoughAt(all, e.satId);
      State(TrackStep(sys, e, rough, s.track), BufferStep(sys, e, rough, field, s.track, s.buffers))
  }

  ghost predicate Within(done: seq<Entry>, all: seq<Entry>) {
    forall e | e in done :: e in all
  }

  ghost function Run(sys: System, all: seq<Entry>, s: State, done: seq<Entry>): (r: State)
    requires ValidEntries(all) && ValidState(s) && Within(done, all)
    ensures ValidState(r)
  {
    if |done| == 0 then s
    else SignalStep(sys, all, Run(sys, all, s, done[..|done| - 1]), done[|done| - 1])
  }

  /** The first loop of gen_msm_sig: clear the residuals of the fields in use. */
  function Cleared(b: Buffers, ncell: nat): (r: Buffers)
    requires ncell <= 64 && |b.psrng| == 64 && |b.phrng| == 64
  {
    b.(psrng := seq(ncell, _ => 0.0) + b.psrng[ncell..], phrng := seq(ncell, _ => 0.0) + b.phrng[ncell..])
  }

  /** The whole of gen_msm_sig, from what the arrays held before. */
  ghost function EpochState(sys: System, es: seq<Entry>, track: Track, stack: Buffers): (r: State)
    requires ValidEntries(es) && ValidTrack(track) && ValidBuffers(stack)
    ensures ValidState(r)
  {
    Run(sys, es, State(track, Cleared(stack, FieldCount(es))), es)
  }

  /** ncell, which stops at 64. */
  ghost function FieldCount(es: seq<Entry>): (n: nat)
    requires ValidEntries(es)
    ensures n <= 64
  {
    if Cells(es) <= 64 then Cells(es) else 64
  }

  /** The numbered masks and rough ranges the encoder has at hand. */
  ghost predicate Indexed(satInd: seq<nat>, sigInd: seq<nat>, nsig: nat, cellInd: seq<nat>, rrng: seq<real>,
                          all: seq<Entry>)
  {
    && ValidEntries(all)
    && Numbered(satInd, sigInd, nsig, all) && CellsNumbered(cellInd, all)
    && RoughFilled(rrng, all, all)
  }

  /** rtcm_t, as far as the signal data need it. */
  class Tracker {
    var cp: seq<real>
    var lltime: seq<int>

    ghost predicate Valid()
      reads this
    {
      |cp| == SLOTS && |lltime| == SLOTS
    }

    ghost function View(): Track
      reads this
    {
      Track(cp, lltime)
    }

    /** DgnssData_Init. */
    constructor ()
      ensures Valid()
      ensures View() == Track(seq(SLOTS, _ => 0.0), seq(SLOTS, _ => 0))
    {
      cp, lltime := seq(SLOTS, _ => 0.0), seq(SLOTS, _ => 0);
    }

    /** The state reached after the entries done, from s0. */
    ghost predicate Following(sys: System, all: seq<Entry>, s0: State, done: seq<Entry>, b: Buffers)
      reads this
    {
      && ValidEntries(all) && ValidState(s0) && Within(done, all)
      && Valid() && ValidBuffers(b)
      && State(View(), b) == Run(sys, all, s0, done)
    }

    /** gen_msm_sig. The buffers come in with whatever the stack held. */
    method GenMsmSig(sys: System, obs: seq<Obs>, nsig: nat, ncell: nat, satInd: array<nat>, sigInd: array<nat>,
                     cellInd: array<nat>, rrng: seq<real>, stack: Buffers)
        returns (b: Buffers)
      requires Valid() && ValidBuffers(stack) && sys != NoSystem && ValidList(obs)
      requires Indexed(satInd[..], sigInd[..], nsig, cellInd[..], rrng, Entries(sys, obs))
      requires ncell == FieldCount(Entries(sys, obs))
      modifies this
      ensures Valid()
      ensures State(View(), b) == EpochState(sys, Entries(sys, obs), old(View()), stack)
    {
      b := Cleared(stack, ncell);
      b := AllSignals(sys, obs, nsig, satInd, sigInd, cellInd, rrng, b, Entries(sys, obs));
    }

    /** Its double loop, after the residuals have been cleared. */
    method AllSignals(sys: System, obs: seq<Obs>, nsig: nat, satInd: array<nat>, sigInd: array<nat>,
                      cellInd: array<nat>, rrng: seq<real>, b0: Buffers, ghost all: seq<Entry>)
        returns (b: Buffers)
      requires Valid() && ValidBuffers(b0) && sys != NoSystem && ValidList(obs)
      requires all == Entries(sys, obs)
      requires Indexed(satInd[..], sigInd[..], nsig, cellInd[..], rrng, all)
      modifies this
      ensures Following(sys, all, State(old(View()), b0), all, b)
    {
      b := b0;
      ghost var s0 := State(View(), b);
      ghost var done: seq<Entry> := [];
      var i := 0;
      while i < |obs|
        invariant 0 <= i <= |obs|
        invariant done == Entries(sys, obs[..i])
        invariant Following(sys, all, s0, done, b)
      {
        NextRecord(sys, obs, i);
        RecordIncluded(sys, obs, i);
        b, done := RecordSignals(sys, obs[i], nsig, satInd, sigInd, cellInd, rrng, b, all, s0, done);
        i := i + 1;
      }
      assert obs[..|obs|] == obs;
    }

    method RecordSignals(sys: System, o: Obs, nsig: nat, satInd: array<nat>, sigInd: array<nat>,
                         cellInd: array<nat>, rrng: seq<real>, b0: Buffers,
                         ghost all: seq<Entry>, ghost s0: State, ghost before: seq<Entry>)
        returns (b: Buffers, ghost done: seq<Entry>)
      requires ValidObs(o) && RecordWithin(sys, o, all)
      requires Indexed(satInd[..], sigInd[..], nsig, cellInd[..], rrng, all)
      requires Following(sys, all, s0, before, b0)
      modifies this
      ensures done == before + RecordEntries(sys, o, NFREQ)
      ensures Following(sys, all, s0, done, b)
    {
      b, done := b0, before;
      var sat := ToSatId(sys, o.sat);
      if sat == 0 {
        OtherSystemNoEntries(sys, o, NFREQ);
        return;
      }
      var j := 0;
      while j < NFREQ
        invariant 0 <= j <= NFREQ
        invariant done == before + RecordEntries(sys, o, j)
        invariant Following(sys, all, s0, done, b)
      {
        b, done := SlotSignal(sys, o, j, sat, nsig, satInd, sigInd, cellInd, rrng, b, all, s0, before, done);
        j := j + 1;
      }
    }

    method SlotSignal(sys: System, o: Obs, j: nat, sat: nat, nsig: nat, satInd: array<nat>, sigInd: array<nat>,
                      cellInd: array<nat>, rrng: seq<real>, b0: Buffers,
                      ghost all: seq<Entry>, ghost s0: State, ghost before: seq<Entry>, ghost done0: seq<Entry>)
        returns (b: Buffers, ghost done: seq<Entry>)
      requires ValidObs(o) && j < NFREQ && RecordWithin(sys, o, all) && sat == ToSatId(sys, o.sat) != 0
      requires Indexed(satInd[..], sigInd[..], nsig, cellInd[..], rrng, all)
      requires done0 == before + RecordEntries(sys, o, j) && Following(sys, all, s0, done0, b0)
      modifies this
      ensures done == before + RecordEntries(sys, o, j + 1)
      ensures Following(sys, all, s0, done, b)
    {
      b, done := b0, done0;
      ghost var e := NextSignal(sys, o, j, before, done);
      var sig := ToSigId(sys, o.signals[j].code);
      if sig != 0 {
        SignalWithin(sys, o, j, all);
        var f := SignalFrequency(sys, o.signals[j].code);
        b := OneSignal(sys, Entry(sat, sig, o.sat, j, f, o.signals[j], o.time),
                       nsig, satInd, sigInd, cellInd, rrng, b, all, s0, done);
        done := done + [e];
      }
    }

    /** The body of the two loops, for one identified signal. */
    method OneSignal(sys: System, e: Entry, nsig: nat, satInd: array<nat>, sigInd: array<nat>,
                     cellInd: array<nat>, rrng: seq<real>, b0: Buffers,
                     ghost all: seq<Entry>, ghost s0: State, ghost done: seq<Entry>)
        returns (b: Buffers)
      requires e in all
      requires Indexed(satInd[..], sigInd[..], nsig, cellInd[..], rrng, all)
      requires Following(sys, all, s0, done, b0)
      modifies this
      ensures Following(sys, all, s0, done + [e], b)
    {
      RunNext(sys, all, s0, done, e);
      var cell, rough := Locate(e, nsig, satInd, sigInd, cellInd, rrng, all);
      b := b0;
      if cell < 64 {
        b := Update(sys, e, rough, cell, b0);
      }
    }

    /** The field number and the rough range of a signal. */
    method Locate(e: Entry, nsig: nat, satInd: array<nat>, sigInd: array<nat>, cellInd: array<nat>,
                  rrng: seq<real>, ghost all: seq<Entry>)
        returns (cell: nat, rough: real)
      requires e in all && Indexed(satInd[..], sigInd[..], nsig, cellInd[..], rrng, all)
      ensures cell == FieldOf(all, e) && rough == RoughAt(all, e.satId)
    {
      NumberedCell(satInd[..], sigInd[..], nsig, all, e);
      CellInRange(all, e);
      RoughOfEntry(rrng, all, e);
      assert satInd[e.satId - 1] == Ranks(SatMask(all))[e.satId - 1];
      var k := satInd[e.satId - 1] - 1;
      cell := cellInd[sigInd[e.sigId - 1] - 1 + k * nsig];
      rough := rrng[k];
    }

    method Update(sys: System, e: Entry, rough: real, cell: nat, b0: Buffers) returns (b: Buffers)
      requires Valid() && ValidBuffers(b0) && ValidEntry(e) && 1 <= cell < 64
      modifies this
      ensures Valid() && ValidBuffers(b)
      ensures View() == TrackStep(sys, e, rough, old(View()))
      ensures b == BufferStep(sys, e, rough, cell, old(View()), b0)
    {
      var phr, lt := TrackSignal(sys, e, rough);
      b := b0;
      var psr := RangeResidual(e, rough);
      if psr != 0.0 {
        b := b.(psrng := b.psrng[cell - 1 := psr]);
      }
      if phr != 0.0 {
        b := b.(phrng := b.phrng[cell - 1 := phr]);
      }
      b := b.(lock := b.lock[cell - 1 := lt],
              half := b.half[cell - 1 := e.signal.lli / 2 % 2 == 1],
              cnr := b.cnr[cell - 1 := e.signal.snr]);
    }

    /** The phase residual less the carried offset, and the lock time, both brought up to date. */
    method TrackSignal(sys: System, e: Entry, rough: real) returns (phr: real, lt: int)
      requires Valid() && ValidEntry(e)
      modifies this
      ensures Valid() && View() == TrackStep(sys, e, rough, old(View()))
      ensures phr == PhaseResidual(sys, e, rough) - cp[Slot(e)]
      ensures lt == WholeSeconds(e.time - lltime[Slot(e)])
    {
      var lambda := Lambda(sys, e);
      var s := Slot(e);
      var slip := Slip(e);
      phr := PhaseResidual(sys, e, rough);
      if slip || Abs(phr - cp[s]) > 1171.0 {
        cp := cp[s := if lambda == 0.0 then 0.0 else Cycles(Round(phr / lambda), lambda)];
        slip := true;
      }
      phr := phr - cp[s];
      if Unset(lltime[s]) || slip {
        lltime := lltime[s := e.time];
      }
      lt := WholeSeconds(e.time - lltime[s]);
    }
  }

  lemma RunNext(sys: System, all: seq<Entry>, s: State, done: seq<Entry>, e: Entry)
    requires ValidEntries(all) && ValidState(s) && e in all && Within(done, all)
    ensures Within(done + [e], all)
    ensures Run(sys, all, s, done + [e]) == SignalStep(sys, all, Run(sys, all, s, done), e)
  {
    assert (done + [e])[..|done|] == done;
  }
}
