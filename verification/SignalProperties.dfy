/** What the epoch loop guarantees: the carrier-phase offsets stay whole cycles on every run, fine
    phases stay within their field, and every field carries what the signals of its pair say last. */
module SignalProperties {
  import opened MsmIndex
  import opened MsmSignals
  import opened Quantisation
  import opened Satellites

  // ---------- offsets over whole runs ----------

  /** Entries of one system, as Entries gives them. */
  ghost predicate OfSystem(sys: System, es: seq<Entry>) {
    forall e | e in es :: ToSatId(sys, e.sat) == e.satId != 0
  }

  lemma {:induction false} EntriesOfSystem(sys: System, obs: seq<Obs>)
    requires ValidList(obs)
    ensures OfSystem(sys, Entries(sys, obs))
  {
    if |obs| > 0 {
      EntriesOfSystem(sys, obs[..|obs| - 1]);
      var o := obs[|obs| - 1];
      RecordOfThree(sys, o);
    }
  }

  /** The wavelength of the satellite a slot belongs to. */
  function SlotLambda(s: nat): (r: real)
    ensures 0.0 < r <= 1.0
  {
    Wavelength(SatSys(s / NFREQ + 1).0 == BeiDou, 1)
  }

  ghost predicate WholeOffsets(t: Track)
    requires ValidTrack(t)
  {
    forall s | 0 <= s < SLOTS :: WholeCycles(t.cp[s], SlotLambda(s))
  }

  lemma InitiallyWhole()
    ensures WholeOffsets(Track(seq(SLOTS, _ => 0.0), seq(SLOTS, _ => 0)))
  {
    forall s | 0 <= s < SLOTS
      ensures WholeCycles(0.0, SlotLambda(s))
    {
      assert 0.0 == Cycles(0, SlotLambda(s));
    }
  }

  lemma EntryLambda(sys: System, e: Entry)
    requires sys != NoSystem && ValidEntry(e) && ToSatId(sys, e.sat) != 0 && e.frequency == 1
    ensures Lambda(sys, e) == SlotLambda(Slot(e))
  {
    assert Slot(e) / NFREQ + 1 == e.sat;
  }

  /** One signal: only its own offset can change, and only on a slip or a drift above 1171 m; it stays
      a whole number of cycles; the residual passed on fits the fine phase field. */
  lemma TrackStepKeeps(sys: System, e: Entry, rough: real, t: Track)
    requires sys != NoSystem && ValidEntry(e) && ToSatId(sys, e.sat) != 0
    requires ValidTrack(t) && WholeOffsets(t)
    ensures var r := TrackStep(sys, e, rough, t);
            && WholeOffsets(r)
            && (forall s | 0 <= s < SLOTS && r.cp[s] != t.cp[s] ::
                  s == Slot(e) && (Slip(e) || Abs(PhaseResidual(sys, e, rough) - t.cp[s]) > 1171.0))
            && Abs(PhaseResidual(sys, e, rough) - r.cp[Slot(e)]) <= 1171.0
  {
    if e.frequency == 1 {
      EntryLambda(sys, e);
      OffsetStep(Slip(e), PhaseResidual(sys, e, rough), t.cp[Slot(e)], Lambda(sys, e));
    } else {
      assert 0.0 == Cycles(0, SlotLambda(Slot(e)));
    }
  }

  ghost predicate FineWithin(b: Buffers, n: nat)
    requires ValidBuffers(b) && n <= 64
  {
    forall k | 0 <= k < n :: Abs(b.phrng[k]) <= 1171.0
  }

  lemma {:induction false} RunKeeps(sys: System, all: seq<Entry>, s: State, done: seq<Entry>, n: nat)
    requires sys != NoSystem && ValidEntries(all) && OfSystem(sys, all)
    requires ValidState(s) && Within(done, all)
    requires WholeOffsets(s.track) && n <= 64 && FineWithin(s.buffers, n)
    ensures WholeOffsets(Run(sys, all, s, done).track)
    ensures FineWithin(Run(sys, all, s, done).buffers, n)
  {
    if |done| > 0 {
      var e := done[|done| - 1];
      RunKeeps(sys, all, s, done[..|done| - 1], n);
      TrackStepKeeps(sys, e, RoughAt(all, e.satId), Run(sys, all, s, done[..|done| - 1]).track);
    }
  }

  /** An epoch keeps the offsets whole and leaves no fine phase outside its field. */
  lemma EpochKeeps(sys: System, es: seq<Entry>, track: Track, stack: Buffers)
    requires sys != NoSystem && ValidEntries(es) && OfSystem(sys, es)
    requires ValidTrack(track) && ValidBuffers(stack) && WholeOffsets(track)
    ensures WholeOffsets(EpochState(sys, es, track, stack).track)
    ensures FineWithin(EpochState(sys, es, track, stack).buffers, FieldCount(es))
  {
    RunKeeps(sys, es, State(track, Cleared(stack, FieldCount(es))), es, FieldCount(es));
  }

  /** One epoch of an encoder: the observations of its system are entered and sent. */
  ghost function NextTrack(sys: System, obs: seq<Obs>, track: Track, stack: Buffers): (r: Track)
    requires sys != NoSystem && ValidList(obs) && ValidTrack(track) && ValidBuffers(stack)
    ensures ValidTrack(r)
  {
    EntriesValid(sys, obs);
    EpochState(sys, Entries(sys, obs), track, stack).track
  }

  /** The tracks after any sequence of epochs. */
  ghost function TrackAfter(sys: System, epochs: seq<seq<Obs>>, stacks: seq<Buffers>): (r: Track)
    requires sys != NoSystem && |stacks| == |epochs|
    requires forall k | 0 <= k < |epochs| :: ValidList(epochs[k]) && ValidBuffers(stacks[k])
    ensures ValidTrack(r)
  {
    var n := |epochs|;
    if n == 0 then Track(seq(SLOTS, _ => 0.0), seq(SLOTS, _ => 0))
    else NextTrack(sys, epochs[n - 1], TrackAfter(sys, epochs[..n - 1], stacks[..n - 1]), stacks[n - 1])
  }

  /** Over every run, whatever is observed, every offset is a whole number of its satellite's wavelengths. */
  lemma {:induction false} OffsetsWholeOnEveryRun(sys: System, epochs: seq<seq<Obs>>, stacks: seq<Buffers>)
    requires sys != NoSystem && |stacks| == |epochs|
    requires forall k | 0 <= k < |epochs| :: ValidList(epochs[k]) && ValidBuffers(stacks[k])
    ensures WholeOffsets(TrackAfter(sys, epochs, stacks))
  {
    hide EpochState, WholeOffsets, ValidList;
    var n := |epochs|;
    if n == 0 {
      InitiallyWhole();
    } else {
      OffsetsWholeOnEveryRun(sys, epochs[..n - 1], stacks[..n - 1]);
      EntriesValid(sys, epochs[n - 1]);
      EntriesOfSystem(sys, epochs[n - 1]);
      EpochKeeps(sys, Entries(sys, epochs[n - 1]), TrackAfter(sys, epochs[..n - 1], stacks[..n - 1]), stacks[n - 1]);
    }
  }

  /** No signal of a slot slips, or drifts more than 1171 m from the offset carried for it. */
  ghost predicate Undisturbed(sys: System, es: seq<Entry>, track: Track, slot: nat)
    requires ValidTrack(track) && slot < SLOTS
  {
    forall e | e in es && ValidEntry(e) && Slot(e) == slot ::
      !Resets(Slip(e), PhaseResidual(sys, e, RoughAt(es, e.satId)), track.cp[slot])
  }

  lemma {:induction false} RunHoldsSlot(sys: System, all: seq<Entry>, s: State, done: seq<Entry>, slot: nat)
    requires ValidEntries(all) && ValidState(s) && Within(done, all) && slot < SLOTS
    requires Undisturbed(sys, all, s.track, slot)
    ensures Run(sys, all, s, done).track.cp[slot] == s.track.cp[slot]
    ensures !Unset(s.track.lltime[slot]) ==> Run(sys, all, s, done).track.lltime[slot] == s.track.lltime[slot]
  {
    if |done| > 0 {
      RunHoldsSlot(sys, all, s, done[..|done| - 1], slot);
      assert done[|done| - 1] in all;
    }
  }

  /** Over an epoch an offset, or a lock start that is set, changes only when a signal of its own slot slips
      or drifts more than 1171 m; those of slots without signals stay. */
  lemma ChangeHasCause(sys: System, es: seq<Entry>, track: Track, stack: Buffers, slot: nat)
    requires ValidEntries(es) && ValidTrack(track) && ValidBuffers(stack) && slot < SLOTS
    ensures var r := EpochState(sys, es, track, stack).track;
            r.cp[slot] != track.cp[slot] || (!Unset(track.lltime[slot]) && r.lltime[slot] != track.lltime[slot]) ==>
              exists e :: e in es && ValidEntry(e) && Slot(e) == slot
                          && (Slip(e) || Abs(PhaseResidual(sys, e, RoughAt(es, e.satId)) - track.cp[slot]) > 1171.0)
  {
    if Undisturbed(sys, es, track, slot) {
      RunHoldsSlot(sys, es, State(track, Cleared(stack, FieldCount(es))), es, slot);
    }
  }

  // ---------- what the fields of a pair carry ----------

  /** The fields of one place of the arrays. */
  datatype Fields = Fields(psr: real, phr: real, lock: int, half: bool, cnr: nat)

  function FieldsAt(b: Buffers, k: nat): Fields
    requires ValidBuffers(b) && k < 64
  {
    Fields(b.psrng[k], b.phrng[k], b.lock[k], b.half[k], b.cnr[k])
  }

  /** A signal's own fields, from the tracked state its turn finds. */
  function OwnFields(sys: System, e: Entry, rough: real, t: Track): Fields
    requires 1 <= e.sat <= MAXSAT && e.slot < NFREQ && ValidTrack(t)
  {
    var s := Slot(e);
    Fields(RangeResidual(e, rough), PhaseResidual(sys, e, rough) - OffsetAfter(sys, e, rough, t.cp[s]),
           WholeSeconds(e.time - StartAfter(sys, e, rough, t.cp[s], t.lltime[s])), e.signal.lli / 2 % 2 == 1,
           e.signal.snr)
  }

  /** The tracked state that the turn of the i-th signal finds. */
  ghost function TrackAt(sys: System, es: seq<Entry>, t: Track, i: nat): (r: Track)
    requires ValidEntries(es) && ValidTrack(t) && i <= |es|
    ensures ValidTrack(r)
  {
    if i == 0 then t
    else TrackStep(sys, es[i - 1], RoughAt(es, es[i - 1].satId), TrackAt(sys, es, t, i - 1))
  }

  ghost function OwnAt(sys: System, es: seq<Entry>, t: Track, i: nat): Fields
    requires ValidEntries(es) && ValidTrack(t) && i < |es|
  {
    OwnFields(sys, es[i], RoughAt(es, es[i].satId), TrackAt(sys, es, t, i))
  }

  /** The fields of a pair after the first n signals: a later signal of the pair overwrites all but the
      residuals it has none of. */
  ghost function PairFields(sys: System, es: seq<Entry>, t: Track, n: nat, p: (nat, nat)): Fields
    requires ValidEntries(es) && ValidTrack(t) && n <= |es|
  {
    if n == 0 then Fields(0.0, 0.0, 0, false, 0)
    else
      var was := PairFields(sys, es, t, n - 1, p);
      if PairOf(es[n - 1]) != p then was else Over(OwnAt(sys, es, t, n - 1), was)
  }

  function Over(own: Fields, was: Fields): Fields {
    own.(psr := if own.psr != 0.0 then own.psr else was.psr, phr := if own.phr != 0.0 then own.phr else was.phr)
  }

  /** The i-th signal is the last of its pair among the first n. */
  ghost predicate LastOfPair(es: seq<Entry>, n: nat, i: nat) {
    i < n <= |es| && forall j | i < j < n :: PairOf(es[j]) != PairOf(es[i])
  }

  /** It is the last of its pair to have a range residual. */
  ghost predicate LastRanged(sys: System, es: seq<Entry>, t: Track, n: nat, i: nat)
    requires ValidEntries(es) && ValidTrack(t) && n <= |es|
  {
    && i < n && OwnAt(sys, es, t, i).psr != 0.0
    && forall j | i < j < n && PairOf(es[j]) == PairOf(es[i]) :: OwnAt(sys, es, t, j).psr == 0.0
  }

  /** It is the last of its pair to have a phase residual. */
  ghost predicate LastPhased(sys: System, es: seq<Entry>, t: Track, n: nat, i: nat)
    requires ValidEntries(es) && ValidTrack(t) && n <= |es|
  {
    && i < n && OwnAt(sys, es, t, i).phr != 0.0
    && forall j | i < j < n && PairOf(es[j]) == PairOf(es[i]) :: OwnAt(sys, es, t, j).phr == 0.0
  }

  /** A pair's lock time, half-cycle flag and strength are those of its last signal. */
  lemma {:induction false} LastMarks(sys: System, es: seq<Entry>, t: Track, n: nat, i: nat)
    requires ValidEntries(es) && ValidTrack(t) && n <= |es| && LastOfPair(es, n, i)
    ensures var f, own := PairFields(sys, es, t, n, PairOf(es[i])), OwnAt(sys, es, t, i);
            f.lock == own.lock && f.half == own.half && f.cnr == own.cnr
  {
    hide OwnAt;
    if i < n - 1 {
      LastMarks(sys, es, t, n - 1, i);
    }
  }

  /** Its range residual is that of the last signal that has one; zero when none has. */
  lemma {:induction false} LastRange(sys: System, es: seq<Entry>, t: Track, n: nat, p: (nat, nat)) returns (i: nat)
    requires ValidEntries(es) && ValidTrack(t) && n <= |es|
    ensures var psr := PairFields(sys, es, t, n, p).psr;
            if psr == 0.0 then forall j | 0 <= j < n && PairOf(es[j]) == p :: OwnAt(sys, es, t, j).psr == 0.0
            else LastRanged(sys, es, t, n, i) && PairOf(es[i]) == p && psr == OwnAt(sys, es, t, i).psr
  {
    hide OwnAt;
    i := 0;
    if n > 0 {
      i := LastRange(sys, es, t, n - 1, p);
      if PairOf(es[n - 1]) == p && OwnAt(sys, es, t, n - 1).psr != 0.0 {
        i := n - 1;
      }
    }
  }

  /** Its phase residual is that of the last signal that has one; zero when none has. */
  lemma {:induction false} LastPhase(sys: System, es: seq<Entry>, t: Track, n: nat, p: (nat, nat)) returns (i: nat)
    requires ValidEntries(es) && ValidTrack(t) && n <= |es|
    ensures var phr := PairFields(sys, es, t, n, p).phr;
            if phr == 0.0 then forall j | 0 <= j < n && PairOf(es[j]) == p :: OwnAt(sys, es, t, j).phr == 0.0
            else LastPhased(sys, es, t, n, i) && PairOf(es[i]) == p && phr == OwnAt(sys, es, t, i).phr
  {
    hide OwnAt;
    i := 0;
    if n > 0 {
      i := LastPhase(sys, es, t, n - 1, p);
      if PairOf(es[n - 1]) == p && OwnAt(sys, es, t, n - 1).phr != 0.0 {
        i := n - 1;
      }
    }
  }

  // ---------- the loop fills them in ----------

  /** All fields are in range when there are fewer than 64 cells. */
  lemma FieldsInRange(es: seq<Entry>)
    requires ValidEntries(es) && Cells(es) < 64
    ensures forall e | e in es :: 1 <= FieldOf(es, e) <= Cells(es)
  {
    forall e | e in es
      ensures 1 <= FieldOf(es, e) <= Cells(es)
    {
      FieldInRange(es, e);
    }
  }

  lemma {:induction false} RunTracks(sys: System, es: seq<Entry>, s: State, n: nat)
    requires ValidEntries(es) && ValidState(s) && n <= |es|
    requires forall e | e in es :: 1 <= FieldOf(es, e) < 64
    ensures Within(es[..n], es)
    ensures Run(sys, es, s, es[..n]).track == TrackAt(sys, es, s.track, n)
  {
    hide FieldOf, TrackStep, BufferStep;
    if n > 0 {
      RunTracks(sys, es, s, n - 1);
      assert es[..n][..n - 1] == es[..n - 1] && es[..n][n - 1] == es[n - 1];
    }
  }

  /** One step fills the fields of its own pair and no others. */
  lemma StepFields(sys: System, all: seq<Entry>, s: State, e: Entry, k: nat)
    requires ValidEntries(all) && e in all && ValidState(s) && 1 <= FieldOf(all, e) < 64 && k < 64
    ensures FieldsAt(SignalStep(sys, all, s, e).buffers, k)
         == var was := FieldsAt(s.buffers, k);
            if k == FieldOf(all, e) - 1 then Over(OwnFields(sys, e, RoughAt(all, e.satId), s.track), was) else was
  {
    hide FieldOf, RangeResidual, PhaseResidual, OffsetAfter, StartAfter, RoughAt;
  }

  /** The same residuals, and once the pair has been visited the same fields. */
  ghost predicate Agree(f: Fields, g: Fields, visited: bool) {
    f.psr == g.psr && f.phr == g.phr && (visited ==> f == g)
  }

  ghost predicate Visited(es: seq<Entry>, n: nat, p: (nat, nat)) {
    exists i :: 0 <= i < n <= |es| && PairOf(es[i]) == p
  }

  lemma VisitedNext(es: seq<Entry>, n: nat, p: (nat, nat))
    requires 0 < n <= |es|
    ensures Visited(es, n, p) == (Visited(es, n - 1, p) || PairOf(es[n - 1]) == p)
  {
    if Visited(es, n - 1, p) {
      var i :| 0 <= i < n - 1 && PairOf(es[i]) == p;
      assert PairOf(es[i]) == p && i < n;
    }
  }

  lemma {:induction false} RunFills(sys: System, es: seq<Entry>, s: State, n: nat, e: Entry)
    requires ValidEntries(es) && Cells(es) < 64 && ValidState(s) && n <= |es| && e in es
    requires forall f | f in es :: 1 <= FieldOf(es, f) < 64
    requires s.buffers.psrng[FieldOf(es, e) - 1] == 0.0 && s.buffers.phrng[FieldOf(es, e) - 1] == 0.0
    ensures Within(es[..n], es)
    ensures Agree(FieldsAt(Run(sys, es, s, es[..n]).buffers, FieldOf(es, e) - 1),
                  PairFields(sys, es, s.track, n, PairOf(e)), Visited(es, n, PairOf(e)))
  {
    hide FieldOf, SignalStep, OwnFields, Visited, Cells;
    if n > 0 {
      var f, before := es[n - 1], Run(sys, es, s, es[..n - 1]);
      RunFills(sys, es, s, n - 1, e);
      RunTracks(sys, es, s, n - 1);
      assert es[..n][..n - 1] == es[..n - 1] && es[..n][n - 1] == f;
      StepFields(sys, es, before, f, FieldOf(es, e) - 1);
      SameFieldSamePair(es, e, f);
      VisitedNext(es, n, PairOf(e));
    } else {
      NoneVisited(es, PairOf(e));
    }
  }

  lemma NoneVisited(es: seq<Entry>, p: (nat, nat))
    ensures !Visited(es, 0, p)
  {
  }

  /** After an epoch with fewer than 64 cells the fields of every pair are those its signals leave, whatever
      else the epoch contains and whatever the stack held. */
  lemma EpochFields(sys: System, es: seq<Entry>, track: Track, stack: Buffers, e: Entry)
    requires ValidEntries(es) && Cells(es) < 64 && e in es
    requires ValidTrack(track) && ValidBuffers(stack)
    ensures 1 <= FieldOf(es, e) <= Cells(es)
    ensures FieldsAt(EpochState(sys, es, track, stack).buffers, FieldOf(es, e) - 1)
         == PairFields(sys, es, track, |es|, PairOf(e))
    ensures EpochState(sys, es, track, stack).track == TrackAt(sys, es, track, |es|)
  {
    hide FieldOf, Run, PairFields, TrackAt;
    FieldsInRange(es);
    var s := State(track, Cleared(stack, FieldCount(es)));
    RunFills(sys, es, s, |es|, e);
    RunTracks(sys, es, s, |es|);
    assert es[..|es|] == es;
    var i :| 0 <= i < |es| && es[i] == e;
    assert Visited(es, |es|, PairOf(e));
  }

  /** Every turn finds whole offsets. */
  lemma {:induction false} TurnsFindWhole(sys: System, es: seq<Entry>, t: Track, i: nat)
    requires sys != NoSystem && ValidEntries(es) && OfSystem(sys, es) && i <= |es|
    requires ValidTrack(t) && WholeOffsets(t)
    ensures WholeOffsets(TrackAt(sys, es, t, i))
  {
    hide TrackStep, WholeOffsets;
    if i > 0 {
      var e := es[i - 1];
      TurnsFindWhole(sys, es, t, i - 1);
      assert e in es;
      TrackStepKeeps(sys, e, RoughAt(es, e.satId), TrackAt(sys, es, t, i - 1));
    }
  }

  // ---------- a pair with one signal ----------

  ghost predicate PairsDiffer(es: seq<Entry>) {
    forall i, j | 0 <= i < j < |es| :: PairOf(es[i]) != PairOf(es[j])
  }

  ghost predicate SlotsDiffer(es: seq<Entry>)
    requires ValidEntries(es)
  {
    forall i, j | 0 <= i < j < |es| :: Slot(es[i]) != Slot(es[j])
  }

  /** When no two signals share a pair, the fields of every pair are those of its signal. */
  lemma OwnWhenPairsDiffer(sys: System, es: seq<Entry>, t: Track, i: nat)
    requires ValidEntries(es) && ValidTrack(t) && PairsDiffer(es) && i < |es|
    ensures PairFields(sys, es, t, |es|, PairOf(es[i])) == OwnAt(sys, es, t, i)
  {
    hide PairFields, OwnAt;
    forall j | 0 <= j < |es| && PairOf(es[j]) == PairOf(es[i])
      ensures j == i
    {
    }
    LastMarks(sys, es, t, |es|, i);
    var j := LastRange(sys, es, t, |es|, PairOf(es[i]));
    var k := LastPhase(sys, es, t, |es|, PairOf(es[i]));
  }

  /** Signals of other slots leave a slot alone. */
  lemma {:induction false} SlotKept(sys: System, es: seq<Entry>, t: Track, a: nat, b: nat, slot: nat)
    requires ValidEntries(es) && ValidTrack(t) && a <= b <= |es| && slot < SLOTS
    requires forall j | a <= j < b :: Slot(es[j]) != slot
    ensures TrackAt(sys, es, t, b).cp[slot] == TrackAt(sys, es, t, a).cp[slot]
    ensures TrackAt(sys, es, t, b).lltime[slot] == TrackAt(sys, es, t, a).lltime[slot]
  {
    hide OffsetAfter, StartAfter, RoughAt;
    if a < b {
      SlotKept(sys, es, t, a, b - 1, slot);
    }
  }

  /** What a turn leaves in its slot, which lasts unless a later signal has the same slot. */
  lemma TurnLasts(sys: System, es: seq<Entry>, t: Track, i: nat)
    requires ValidEntries(es) && ValidTrack(t) && i < |es|
    requires forall j | i < j < |es| :: Slot(es[j]) != Slot(es[i])
    ensures var s, rough := Slot(es[i]), RoughAt(es, es[i].satId);
            var was, end := TrackAt(sys, es, t, i), TrackAt(sys, es, t, |es|);
            && end.cp[s] == OffsetAfter(sys, es[i], rough, was.cp[s])
            && end.lltime[s] == StartAfter(sys, es[i], rough, was.cp[s], was.lltime[s])
  {
    hide OffsetAfter, StartAfter, RoughAt;
    SlotKept(sys, es, t, i + 1, |es|, Slot(es[i]));
    assert TrackAt(sys, es, t, i + 1) == TrackStep(sys, es[i], RoughAt(es, es[i].satId), TrackAt(sys, es, t, i));
  }

  /** When no two share a slot either, the state before the epoch is all they depend on, and what they
      leave is what the epoch leaves. */
  lemma SlotsApart(sys: System, es: seq<Entry>, t: Track, i: nat)
    requires ValidEntries(es) && ValidTrack(t) && SlotsDiffer(es) && i < |es|
    ensures OwnAt(sys, es, t, i) == OwnFields(sys, es[i], RoughAt(es, es[i].satId), t)
    ensures var s, rough, end := Slot(es[i]), RoughAt(es, es[i].satId), TrackAt(sys, es, t, |es|);
            && end.cp[s] == OffsetAfter(sys, es[i], rough, t.cp[s])
            && end.lltime[s] == StartAfter(sys, es[i], rough, t.cp[s], t.lltime[s])
  {
    hide OffsetAfter, StartAfter, RoughAt, RangeResidual, PhaseResidual;
    SlotKept(sys, es, t, 0, i, Slot(es[i]));
    TurnLasts(sys, es, t, i);
  }

  // ---------- what a receiver makes of the phase fields ----------

  /** The phase a receiver forms, in metres. */
  function DecodedPhase(intMs: nat, modMs: nat, fine: int): real {
    (intMs as real + modMs as real / 1024.0 + fine as real / 536870912.0) * 299792.458
  }

  /** While the phase is measured and no field is invalid, the decoded phase is the measured one less a
      whole number of cycles, the carried offset, to within half a step of 2^-29 ms. */
  lemma PhaseDecodes(sys: System, e: Entry, q: real, cp: real) returns (n: int)
    requires sys != NoSystem && ValidEntry(e) && ToSatId(sys, e.sat) != 0 && e.frequency == 1
    requires WholeCycles(cp, Lambda(sys, e)) && e.signal.phase != 0.0
    requires IntMs(RoughOf(q)) != 255
    requires var rough := RoughOf(q);
             FinePhr(PhaseResidual(sys, e, rough) - OffsetAfter(sys, e, rough, cp)) != PHRNG_INVALID
    ensures var rough := RoughOf(q);
            var lambda := if sys == BeiDou then 299792458.0 / 1561098000.0 else 299792458.0 / 1575420000.0;
            var offset := OffsetAfter(sys, e, rough, cp);
            && offset == Cycles(n, lambda)
            && Abs(DecodedPhase(IntMs(rough), ModMs(rough), FinePhr(PhaseResidual(sys, e, rough) - offset))
                   - (e.signal.phase * lambda - offset)) <= RANGE_MS / 1073741824.0
  {
    var rough, lambda := RoughOf(q), Lambda(sys, e);
    EntryLambda(sys, e);
    OffsetStep(Slip(e), PhaseResidual(sys, e, rough), cp, lambda);
    n :| OffsetAfter(sys, e, rough, cp) == Cycles(n, lambda);
    RoughFields(q);
    var i, m := IntMs(rough), ModMs(rough);
    assert i as real * 1024.0 + m as real == RoughUnits(q) as real;
    assert (i as real + m as real / 1024.0) * RANGE_MS == rough;
    PhaseResidualDecodes(PhaseResidual(sys, e, rough) - OffsetAfter(sys, e, rough, cp));
  }
}
