/** What a receiver of the published frames learns: the satellites observed, for each of them the fields
    meant for it, and from these its range and its phase; and how long phase offsets and lock times last. */
module ReceivedFrames {
  import opened AssistPipeline
  import opened BitFields
  import opened EpochSets
  import opened MsmEncode
  import opened MsmIndex
  import opened MsmReadBack
  import opened MsmSignals
  import opened Observations
  import opened Oem4Framing
  import opened Quantisation
  import opened RangeDecoder
  import opened RtcmMessages
  import opened Satellites
  import opened SignalProperties

  // ---------- satellites ----------

  /** The frame of a system tells exactly which satellites were observed: GPS by their numbers, BeiDou by
      their numbers less 83, each on signal 2. */
  lemma FrameNamesSatellites(gps: bool, e: Encoder, time: int, part: seq<Obs>)
    requires SystemSet(part, gps) && ValidTrack(e.track)
    ensures var b := Bits(SystemFrame(gps, e, time, part));
            && |b| >= 193 && |b| >= 193 + GridSize(b)
            && ReadPairs(b) == set o | o in part :: (if gps then o.sat else o.sat - 83, 2)
  {
    hide MsmFrame, EpochHeader, MsmMessage, SomeBuffers, ReadPairs, GridSize;
    var sys, es := SystemOf(gps), Entries(SystemOf(gps), part);
    SetEntriesDistinct(part, gps);
    OneColumn(part, gps);
    var h := EpochHeader(gps, e, PartTime(part, time));
    FrameCarries(h, es, e.track, SomeBuffers());
    MessagePairs(Bits(SystemFrame(gps, e, time, part)), h, es, e.track);
    PairsOfSet(part, gps);
  }

  lemma MessagePairs(b: seq<bool>, h: Header, es: seq<Entry>, t: Track)
    requires ValidEntries(es) && ValidTrack(t) && Sats(es) * Sigs(es) <= 64
    requires Carries(b, MsmMessage(h, es, t, SomeBuffers()))
    ensures |b| >= 193 && |b| >= 193 + GridSize(b) && ReadPairs(b) == ObservedPairs(es)
  {
    PairsReadBack(b, h, es, RoughRanges(es), EpochState(h.sys, es, t, SomeBuffers()).buffers);
  }

  lemma PairsOfSet(part: seq<Obs>, gps: bool)
    requires SystemSet(part, gps)
    ensures ObservedPairs(Entries(SystemOf(gps), part)) == set o | o in part :: (if gps then o.sat else o.sat - 83, 2)
  {
    hide ToSatId, ObservedPairs;
    SetEntries(part, gps);
    var es := EntriesOf(part, gps);
    forall k | 0 <= k < |part|
      ensures PairOf(es[k]) == (if gps then part[k].sat else part[k].sat - 83, 2)
    {
      AdmittedIds(part[k], gps);
    }
    PairsAre(es, part, gps);
  }

  lemma PairsAre(es: seq<Entry>, part: seq<Obs>, gps: bool)
    requires |es| == |part|
    requires forall k | 0 <= k < |part| :: PairOf(es[k]) == (if gps then part[k].sat else part[k].sat - 83, 2)
    ensures ObservedPairs(es) == set o | o in part :: (if gps then o.sat else o.sat - 83, 2)
  {
    hide PairOf;
    forall o | o in part
      ensures (if gps then o.sat else o.sat - 83, 2) in ObservedPairs(es)
    {
      var k :| 0 <= k < |part| && part[k] == o;
      assert es[k] in es;
    }
    forall e | e in es
      ensures exists o :: o in part && PairOf(e) == (if gps then o.sat else o.sat - 83, 2)
    {
      var k :| 0 <= k < |es| && es[k] == e;
      assert part[k] in part;
    }
  }

  // ---------- fields ----------

  /** What a receiver of the frame finds for the k-th observation of the part. */
  ghost function ReceivedFields(gps: bool, e: Encoder, time: int, part: seq<Obs>, k: nat): ((nat, nat), Cell)
    requires SystemSet(part, gps) && ValidTrack(e.track) && k < |part|
  {
    FoundInFrame(gps, e, time, part, k);
    var es := Entries(SystemOf(gps), part);
    Found(Bits(SystemFrame(gps, e, time, part)), es, es[k])
  }

  lemma FoundInFrame(gps: bool, e: Encoder, time: int, part: seq<Obs>, k: nat)
    requires SystemSet(part, gps) && ValidTrack(e.track) && k < |part|
    ensures var sys, b := SystemOf(gps), Bits(SystemFrame(gps, e, time, part));
            var es := Entries(sys, part);
            && ValidEntries(es) && |es| == |part| && es[k] == EntryOf(part[k], gps)
            && 1 <= FieldOf(es, es[k]) <= Cells(es) < 64
            && DataStart(es) + 18 * Sats(es) + 48 * Cells(es) <= |b|
            && Found(b, es, es[k]) == Own(sys, e.track, RoughAt(es, es[k].satId), es[k])
  {
    hide MsmFrame, EpochHeader, Found, PairsDiffer, SlotsDiffer, Cells, DataStart, SomeBuffers, Sigs, Entries;
    hide FieldOf, OfSystem, ObsSet, Sats, ValidEntries, ToSatId, Left, Own, RoughAt;
    var es, h := Entries(SystemOf(gps), part), EpochHeader(gps, e, PartTime(part, time));
    SetEntries(part, gps);
    assert es[k] in es;
    SetEntriesDistinct(part, gps);
    OneColumn(part, gps);
    FrameFields(h, es, e.track, SomeBuffers(), es[k]);
    OwnFromBefore(h, es, e.track, SomeBuffers(), k);
    HeaderSystem(gps, e, PartTime(part, time));
  }

  lemma HeaderSystem(gps: bool, e: Encoder, time: int)
    ensures EpochHeader(gps, e, time).sys == SystemOf(gps)
  {
  }

  /** The tracking slot of an observation's one signal. */
  function ObsSlot(o: Obs): (s: nat)
    requires 1 <= o.sat <= MAXSAT
    ensures s < SLOTS
  {
    (o.sat - 1) * NFREQ
  }

  /** The fields of one observation, from the observation and what the encoder carries for its satellite. */
  function FieldsOf(gps: bool, track: Track, o: Obs): ((nat, nat), Cell)
    requires ValidTrack(track) && Admitted(o)
  {
    Own(SystemOf(gps), track, RoughOf(o.signals[0].range), EntryOf(o, gps))
  }

  lemma {:induction false} OwnRough(part: seq<Obs>, gps: bool, k: nat, n: nat)
    requires SystemSet(part, gps) && k < |part| && n <= |part|
    ensures RoughAt(EntriesOf(part, gps)[..n], EntryOf(part[k], gps).satId)
         == if k < n then RoughOf(part[k].signals[0].range) else 0.0
  {
    var es := EntriesOf(part, gps);
    if n > 0 {
      OwnRough(part, gps, k, n - 1);
      assert es[..n][..n - 1] == es[..n - 1];
      SameIdSameSatellite(part, gps, k, n - 1);
      RoundOfInt(0);
    }
  }

  lemma SameIdSameSatellite(part: seq<Obs>, gps: bool, i: nat, j: nat)
    requires SystemSet(part, gps) && i < |part| && j < |part|
    ensures EntryOf(part[i], gps).satId == EntryOf(part[j], gps).satId ==> i == j
  {
    AdmittedIds(part[i], gps);
    AdmittedIds(part[j], gps);
    if i < j {
      assert part[i].sat != part[j].sat;
    } else if j < i {
      assert part[j].sat != part[i].sat;
    }
  }

  /** Every observation's fields arrive, and depend on no other observation. */
  lemma FieldsReceived(gps: bool, e: Encoder, time: int, part: seq<Obs>, k: nat)
    requires SystemSet(part, gps) && ValidTrack(e.track) && k < |part|
    ensures ReceivedFields(gps, e, time, part, k) == FieldsOf(gps, e.track, part[k])
  {
    var es := Entries(SystemOf(gps), part);
    SetEntries(part, gps);
    OwnRough(part, gps, k, |part|);
    assert es[..|part|] == es;
    FoundInFrame(gps, e, time, part, k);
  }

  // ---------- ranges ----------

  /** The range fields of a range that rounds to u steps of 2^-10 ms are unmarked exactly when u is within
      (0, 255) ms and the range not on that grid; and then they give it to within half a step of 2^-24 ms. */
  lemma FrameGivesRange(gps: bool, e: Encoder, time: int, part: seq<Obs>, k: nat) returns (u: int)
    requires SystemSet(part, gps) && ValidTrack(e.track) && k < |part|
    ensures -0.5 <= part[k].signals[0].range / 299792.458 * 1024.0 - u as real < 0.5
    ensures var (rough, cell) := ReceivedFields(gps, e, time, part, k);
            var p, unmarked := part[k].signals[0].range, rough.0 != 255 && cell.psr != -16384;
            && (unmarked <==> 0 < u < 255 * 1024 && p != u as real * 299792.458 / 1024.0)
            && (unmarked ==>
                  Abs((rough.0 as real + rough.1 as real / 1024.0 + cell.psr as real / 16777216.0) * 299792.458 - p)
                  <= 299792.458 / 33554432.0)
  {
    hide ReceivedFields, IntMs, ModMs, FinePsr;
    FieldsReceived(gps, e, time, part, k);
    u := OwnRange(part[k].signals[0].range);
  }

  lemma OwnRange(p: real) returns (u: int)
    ensures -0.5 <= p / 299792.458 * 1024.0 - u as real < 0.5
    ensures var rough := RoughOf(p);
            var fine := FinePsr(if p == 0.0 then 0.0 else p - rough);
            var unmarked := IntMs(rough) != 255 && fine != -16384;
            && rough == u as real * 299792.458 / 1024.0
            && (unmarked <==> 0 < u < 255 * 1024 && p != rough)
            && (unmarked ==> Abs(DecodedRange(IntMs(rough), ModMs(rough), fine) - p) <= 299792.458 / 33554432.0)
  {
    u := RoughUnits(p);
    RoundNearest(p / RANGE_MS * 1024.0);
    RoundOfInt(0);
    RoughFields(p);
    SingleSignalInvalid(p);
    FinePsrFits(0.0);
    if 0 < u < 255 * 1024 && p != RoughOf(p) {
      RangeDecodes(p, p);
    }
  }

  // ---------- phases ----------

  /** The offset taken off an observation's phase in this frame. */
  ghost function OffsetSent(gps: bool, e: Encoder, o: Obs): real
    requires ValidTrack(e.track) && Admitted(o)
  {
    OffsetAfter(SystemOf(gps), EntryOf(o, gps), RoughOf(o.signals[0].range), e.track.cp[ObsSlot(o)])
  }

  /** The offset sent is the one the encoder carries on, and so is the lock start. */
  lemma OffsetCarriedOn(gps: bool, e: Encoder, time: int, part: seq<Obs>, k: nat)
    requires SystemSet(part, gps) && ValidTrack(e.track) && k < |part|
    ensures var r, s, en := NextEncoder(gps, e, time, part).track, ObsSlot(part[k]), EntryOf(part[k], gps);
            && r.cp[s] == OffsetSent(gps, e, part[k])
            && r.lltime[s] == StartAfter(SystemOf(gps), en, RoughOf(part[k].signals[0].range), e.track.cp[s],
                                         e.track.lltime[s])
  {
    hide EpochState, OffsetAfter, PairsDiffer, SlotsDiffer, Cells, FieldOf;
    hide Entries, RoughAt, ObsSet, Sats, Sigs, SomeBuffers;
    var es := Entries(SystemOf(gps), part);
    SetEntries(part, gps);
    OwnRough(part, gps, k, |part|);
    assert es[..|part|] == es && es[k] in es;
    SetEntriesDistinct(part, gps);
    OneColumn(part, gps);
    EpochFields(SystemOf(gps), es, e.track, SomeBuffers(), es[k]);
    SlotsApart(SystemOf(gps), es, e.track, k);
  }

  /** The phase fields are unmarked exactly when the rough range is in its field and the residual is not
      zero; and then a measured phase arrives, less the n cycles carried for the satellite, to within half
      a step of 2^-29 ms. One cycle is that of 1575.42 MHz for GPS and of 1561.098 MHz for BeiDou. */
  lemma FrameGivesPhase(gps: bool, e: Encoder, time: int, part: seq<Obs>, k: nat) returns (n: int)
    requires SystemSet(part, gps) && ValidTrack(e.track) && WholeOffsets(e.track) && k < |part|
    ensures OffsetSent(gps, e, part[k])
         == n as real * (if gps then 299792458.0 / 1575420000.0 else 299792458.0 / 1561098000.0)
    ensures PhaseArrives(gps, e, time, part, k, n)
    ensures var (rough, cell) := ReceivedFields(gps, e, time, part, k);
            var phase := part[k].signals[0].phase;
            rough.0 != 255 && cell.phr != -2097152 && phase != 0.0 ==>
              Abs((rough.0 as real + rough.1 as real / 1024.0 + cell.phr as real / 536870912.0) * 299792.458
                  - (phase - n as real)
                    * (if gps then 299792458.0 / 1575420000.0 else 299792458.0 / 1561098000.0))
              <= 299792.458 / 1073741824.0
  {
    hide ReceivedFields, IntMs, ModMs, FinePhr, OffsetAfter, PhaseResidual;
    var o := part[k];
    AdmittedIds(o, gps);
    FieldsReceived(gps, e, time, part, k);
    n := OwnPhase(gps, e.track, o);
  }

  /** The phase of an observation whose range rounds to u steps arrives less n cycles. */
  ghost predicate PhaseArrives(gps: bool, e: Encoder, time: int, part: seq<Obs>, k: nat, n: int)
    requires SystemSet(part, gps) && ValidTrack(e.track) && k < |part|
  {
    var (rough, cell) := ReceivedFields(gps, e, time, part, k);
    var s := part[k].signals[0];
    PhaseIn(gps, rough, cell, s.range, s.phase, RoughUnits(s.range), n)
  }

  ghost predicate PhaseIn(gps: bool, rough: (nat, nat), cell: Cell, range: real, phase: real, u: int, n: int) {
    var lambda := if gps then 299792458.0 / 1575420000.0 else 299792458.0 / 1561098000.0;
    var unmarked := rough.0 != 255 && cell.phr != -2097152;
    var residual := if phase == 0.0 then 0.0 else phase * lambda - u as real * 299792.458 / 1024.0;
    && -0.5 <= range / 299792.458 * 1024.0 - u as real < 0.5
    && (unmarked <==> 0 < u < 255 * 1024 && residual != n as real * lambda)
    && (unmarked && phase != 0.0 ==>
          Abs((rough.0 as real + rough.1 as real / 1024.0 + cell.phr as real / 536870912.0) * 299792.458
              - (phase - n as real) * lambda) <= 299792.458 / 1073741824.0)
  }

  lemma OwnPhase(gps: bool, track: Track, o: Obs) returns (n: int)
    requires ValidTrack(track) && WholeOffsets(track) && Admitted(o) && (o.sat < 84) == gps
    ensures var lambda := if gps then 299792458.0 / 1575420000.0 else 299792458.0 / 1561098000.0;
            var sys, en, rough := SystemOf(gps), EntryOf(o, gps), RoughOf(o.signals[0].range);
            OffsetAfter(sys, en, rough, track.cp[ObsSlot(o)]) == n as real * lambda
    ensures var (rough, cell) := FieldsOf(gps, track, o);
            PhaseIn(gps, rough, cell, o.signals[0].range, o.signals[0].phase, RoughUnits(o.signals[0].range), n)
  {
    hide IntMs, ModMs, FinePhr, OffsetAfter, DecodedPhase, PhaseResidual, PhaseIn, RoughUnits, ToMsmLock;
    var sys, en, p := SystemOf(gps), EntryOf(o, gps), o.signals[0].range;
    var cp := track.cp[ObsSlot(o)];
    AdmittedIds(o, gps);
    ResidualFits(sys, en, RoughOf(p), cp);
    n := WholeOffset(sys, en, RoughOf(p), cp);
    var offset := OffsetAfter(sys, en, RoughOf(p), cp);
    var fine := PhaseResidual(sys, en, RoughOf(p)) - offset;
    if IntMs(RoughOf(p)) != 255 && FinePhr(fine) != PHRNG_INVALID && o.signals[0].phase != 0.0 {
      n := PhaseDecodes(sys, en, p, cp);
    }
    PhaseInParts(gps, en, n, offset);
  }

  lemma PhaseInParts(gps: bool, en: Entry, n: int, offset: real)
    requires en.frequency == 1 && offset == Cycles(n, Lambda(SystemOf(gps), en))
    requires var rough, phase := RoughOf(en.signal.range), en.signal.phase;
             var fine := PhaseResidual(SystemOf(gps), en, rough) - offset;
             && (FinePhr(fine) == -2097152 <==> fine == 0.0)
             && (IntMs(rough) != 255 && FinePhr(fine) != -2097152 && phase != 0.0 ==>
                   Abs(DecodedPhase(IntMs(rough), ModMs(rough), FinePhr(fine))
                       - (phase * Lambda(SystemOf(gps), en) - offset)) <= RANGE_MS / 1073741824.0)
    ensures offset == n as real * (if gps then 299792458.0 / 1575420000.0 else 299792458.0 / 1561098000.0)
    ensures forall cell: Cell ::
              var rough := RoughOf(en.signal.range);
              cell.phr == FinePhr(PhaseResidual(SystemOf(gps), en, rough) - offset) ==>
                PhaseIn(gps, (IntMs(rough), ModMs(rough)), cell, en.signal.range, en.signal.phase,
                        RoughUnits(en.signal.range), n)
  {
    hide IntMs, ModMs, FinePhr;
    RoughFields(en.signal.range);
    RoundNearest(en.signal.range / RANGE_MS * 1024.0);
  }

  lemma ResidualFits(sys: System, en: Entry, rough: real, cp: real)
    requires sys != NoSystem && ValidEntry(en) && ToSatId(sys, en.sat) != 0 && en.frequency == 1
    requires WholeCycles(cp, SlotLambda(Slot(en)))
    ensures var fine := PhaseResidual(sys, en, rough) - OffsetAfter(sys, en, rough, cp);
            FinePhr(fine) == -2097152 <==> fine == 0.0
  {
    EntryLambda(sys, en);
    OffsetStep(Slip(en), PhaseResidual(sys, en, rough), cp, Lambda(sys, en));
    FinePhrFits(PhaseResidual(sys, en, rough) - OffsetAfter(sys, en, rough, cp));
  }

  // ---------- how long an offset lasts ----------

  /** A signal that slips, or drifts more than 1171 m from the offset carried for its satellite. */
  ghost predicate Disturbed(gps: bool, e: Encoder, o: Obs)
    requires ValidTrack(e.track) && Admitted(o)
  {
    var residual := PhaseResidual(SystemOf(gps), EntryOf(o, gps), RoughOf(o.signals[0].range));
    o.signals[0].lli % 2 == 1 || Abs(residual - e.track.cp[ObsSlot(o)]) > 1171.0
  }

  /** A part disturbs a slot when it holds a disturbed observation of it. */
  ghost predicate Disturbs(gps: bool, e: Encoder, part: seq<Obs>, slot: nat)
    requires SystemSet(part, gps) && ValidTrack(e.track)
  {
    exists k :: 0 <= k < |part| && ObsSlot(part[k]) == slot && Disturbed(gps, e, part[k])
  }

  /** Whether an epoch leaves the offset and the lock start of a slot, if that is set, as they were. */
  ghost predicate SlotStays(gps: bool, e: Encoder, time: int, part: seq<Obs>, slot: nat)
    requires SystemSet(part, gps) && ValidTrack(e.track) && slot < SLOTS
  {
    var r := NextEncoder(gps, e, time, part).track;
    r.cp[slot] == e.track.cp[slot] && (!Unset(e.track.lltime[slot]) ==> r.lltime[slot] == e.track.lltime[slot])
  }

  /** It does unless it disturbs the slot. */
  lemma OffsetStays(gps: bool, e: Encoder, time: int, part: seq<Obs>, slot: nat)
    requires SystemSet(part, gps) && ValidTrack(e.track) && slot < SLOTS
    ensures SlotStays(gps, e, time, part, slot) || Disturbs(gps, e, part, slot)
  {
    hide EpochState, PhaseResidual, RoughAt, PairsDiffer, SlotsDiffer, OfSystem, SomeBuffers, Disturbs, Entries, ObsSet;
    var sys, es := SystemOf(gps), Entries(SystemOf(gps), part);
    SetEntriesDistinct(part, gps);
    ChangeHasCause(sys, es, e.track, SomeBuffers(), slot);
    if !SlotStays(gps, e, time, part, slot) {
      var en :| en in es && ValidEntry(en) && Slot(en) == slot
                && (Slip(en) || Abs(PhaseResidual(sys, en, RoughAt(es, en.satId)) - e.track.cp[slot]) > 1171.0);
      CauseDisturbs(gps, e, part, slot, en);
    }
  }

  lemma CauseDisturbs(gps: bool, e: Encoder, part: seq<Obs>, slot: nat, en: Entry)
    requires SystemSet(part, gps) && ValidTrack(e.track) && slot < SLOTS
    requires en in Entries(SystemOf(gps), part) && ValidEntry(en) && Slot(en) == slot
    requires var rough := RoughAt(Entries(SystemOf(gps), part), en.satId);
             Slip(en) || Abs(PhaseResidual(SystemOf(gps), en, rough) - e.track.cp[slot]) > 1171.0
    ensures Disturbs(gps, e, part, slot)
  {
    hide PhaseResidual, RoughAt, Entries;
    var es := Entries(SystemOf(gps), part);
    SetEntries(part, gps);
    var k :| 0 <= k < |es| && es[k] == en;
    OwnRough(part, gps, k, |part|);
    assert es[..|part|] == es;
    assert Disturbed(gps, e, part[k]);
  }

  ghost function EncoderFor(w: World, gps: bool): Encoder {
    if gps then w.gps else w.bds
  }

  /** Whether a message leaves a slot of one system undisturbed, in the world that it finds. */
  ghost predicate Quiet(env: Environment, w: World, s: seq<byte>, gps: bool, slot: nat)
    requires ValidWorld(w) && |s| >= HEADER_LENGTH + 4
  {
    Decode(env, s).Ranges? ==>
      (PartOfSet(MemoryOf(env, w, s).obs, gps);
       !Disturbs(gps, EncoderFor(w, gps), Part(MemoryOf(env, w, s).obs, gps), slot))
  }

  lemma QuietStep(env: Environment, w: World, s: seq<byte>, gps: bool, slot: nat)
    requires ValidWorld(w) && |s| >= HEADER_LENGTH + 4 && slot < SLOTS && Quiet(env, w, s, gps, slot)
    ensures var was, now := EncoderFor(w, gps).track, EncoderFor(StepWorld(env, w, s), gps).track;
            now.cp[slot] == was.cp[slot] && (!Unset(was.lltime[slot]) ==> now.lltime[slot] == was.lltime[slot])
  {
    hide Disturbs, Decode, NextEncoder, ObsSet, Part;
    if Decode(env, s).Ranges? {
      var obs := MemoryOf(env, w, s).obs;
      PartOfSet(obs, gps);
      OffsetStays(gps, EncoderFor(w, gps), Decode(env, s).time, Part(obs, gps), slot);
    }
  }

  lemma QuietBefore(env: Environment, frames: seq<seq<byte>>, from: nat, to: nat, gps: bool, slot: nat)
    requires Whole(frames) && from <= to <= |frames|
    requires forall i | from <= i < |frames| :: Quiet(env, WorldAfter(env, frames[..i]), frames[i], gps, slot)
    ensures var before := frames[..to];
            && before[..from] == frames[..from]
            && forall i | from <= i < to :: Quiet(env, WorldAfter(env, before[..i]), before[i], gps, slot)
  {
    hide Quiet, WorldAfter;
    forall i | from <= i <= to
      ensures frames[..to][..i] == frames[..i]
    {
    }
  }

  /** Over a stretch of messages that leave a slot undisturbed the same number of cycles is carried. */
  lemma {:induction false} CyclesStay(env: Environment, frames: seq<seq<byte>>, from: nat, gps: bool, slot: nat, n: int)
    requires Whole(frames) && from <= |frames| && slot < SLOTS
    requires forall i | from <= i < |frames| :: Quiet(env, WorldAfter(env, frames[..i]), frames[i], gps, slot)
    requires EncoderFor(WorldAfter(env, frames[..from]), gps).track.cp[slot] == Cycles(n, SlotLambda(slot))
    ensures EncoderFor(WorldAfter(env, frames), gps).track.cp[slot] == Cycles(n, SlotLambda(slot))
  {
    hide Quiet, StepWorld, Cycles, EncoderFor, Decode, ValidWorld;
    var last := |frames| - 1;
    if from == |frames| {
      assert frames[..from] == frames;
    } else {
      var before := frames[..last];
      QuietBefore(env, frames, from, last, gps, slot);
      CyclesStay(env, before, from, gps, slot, n);
      QuietStep(env, WorldAfter(env, before), frames[last], gps, slot);
    }
  }

  /** So the phases of a satellite that are received over such a stretch all lack the same n cycles. */
  lemma PhaseContinuous(env: Environment, frames: seq<seq<byte>>, from: nat, gps: bool, slot: nat) returns (n: int)
    requires Whole(frames) && from <= |frames| && slot < SLOTS
    requires forall i | from <= i < |frames| :: Quiet(env, WorldAfter(env, frames[..i]), frames[i], gps, slot)
    ensures forall i | from <= i < |frames| ::
              SlotPhasesArrive(env, WorldAfter(env, frames[..i]), frames[i], gps, slot, n)
  {
    hide Quiet, SlotPhasesArrive, Cycles, EncoderFor, Decode, WorldAfter;
    n := CyclesCarried(env, frames[..from], gps, slot);
    forall i | from <= i < |frames|
      ensures SlotPhasesArrive(env, WorldAfter(env, frames[..i]), frames[i], gps, slot, n)
    {
      var before := frames[..i];
      QuietBefore(env, frames, from, i, gps, slot);
      CyclesStay(env, before, from, gps, slot, n);
      WorldOffsetsWhole(env, before);
      QuietPhases(env, WorldAfter(env, before), frames[i], gps, slot, n);
    }
  }

  lemma CyclesCarried(env: Environment, frames: seq<seq<byte>>, gps: bool, slot: nat) returns (n: int)
    requires Whole(frames) && slot < SLOTS
    ensures EncoderFor(WorldAfter(env, frames), gps).track.cp[slot] == Cycles(n, SlotLambda(slot))
  {
    WorldOffsetsWhole(env, frames);
    assert WholeCycles(EncoderFor(WorldAfter(env, frames), gps).track.cp[slot], SlotLambda(slot));
    n :| EncoderFor(WorldAfter(env, frames), gps).track.cp[slot] == Cycles(n, SlotLambda(slot));
  }

  /** The phases of one slot in the frame of a message arrive less n cycles. */
  ghost predicate SlotPhasesArrive(env: Environment, w: World, s: seq<byte>, gps: bool, slot: nat, n: int)
    requires ValidWorld(w) && |s| >= HEADER_LENGTH + 4
  {
    Decode(env, s).Ranges? ==>
      (PartOfSet(MemoryOf(env, w, s).obs, gps);
       var part := Part(MemoryOf(env, w, s).obs, gps);
       forall k | 0 <= k < |part| && ObsSlot(part[k]) == slot ::
         PhaseArrives(gps, EncoderFor(w, gps), Decode(env, s).time, part, k, n))
  }

  lemma QuietPhases(env: Environment, w: World, s: seq<byte>, gps: bool, slot: nat, n: int)
    requires ValidWorld(w) && |s| >= HEADER_LENGTH + 4 && slot < SLOTS && Quiet(env, w, s, gps, slot)
    requires WholeOffsets(w.gps.track) && WholeOffsets(w.bds.track)
    requires EncoderFor(w, gps).track.cp[slot] == Cycles(n, SlotLambda(slot))
    ensures SlotPhasesArrive(env, w, s, gps, slot, n)
  {
    hide PhaseArrives, Decode, Part, Disturbs, WholeOffsets, Cycles, OffsetSent;
    if Decode(env, s).Ranges? {
      var part, e := Part(MemoryOf(env, w, s).obs, gps), EncoderFor(w, gps);
      PartOfSet(MemoryOf(env, w, s).obs, gps);
      forall k | 0 <= k < |part| && ObsSlot(part[k]) == slot
        ensures PhaseArrives(gps, e, Decode(env, s).time, part, k, n)
      {
        UndisturbedPhase(gps, e, Decode(env, s).time, part, k, n);
      }
    }
  }

  lemma UndisturbedPhase(gps: bool, e: Encoder, time: int, part: seq<Obs>, k: nat, n: int)
    requires SystemSet(part, gps) && ValidTrack(e.track) && WholeOffsets(e.track) && k < |part|
    requires !Disturbs(gps, e, part, ObsSlot(part[k]))
    requires e.track.cp[ObsSlot(part[k])] == Cycles(n, SlotLambda(ObsSlot(part[k])))
    ensures PhaseArrives(gps, e, time, part, k, n)
  {
    hide PhaseArrives, PhaseResidual, ReceivedFields, PhaseIn;
    var m := FrameGivesPhase(gps, e, time, part, k);
    assert !Disturbed(gps, e, part[k]);
    OneLambda(part[k], gps);
    SameCycles(m, n, SlotLambda(ObsSlot(part[k])));
  }

  lemma OneLambda(o: Obs, gps: bool)
    requires Admitted(o) && (o.sat < 84) == gps
    ensures SlotLambda(ObsSlot(o)) == if gps then 299792458.0 / 1575420000.0 else 299792458.0 / 1561098000.0
  {
    AdmittedIds(o, gps);
    assert ObsSlot(o) / NFREQ + 1 == o.sat;
  }

  lemma SameCycles(m: int, n: int, lambda: real)
    requires lambda > 0.0 && Cycles(m, lambda) == Cycles(n, lambda)
    ensures m == n
  {
    assert (m - n) as real * lambda == 0.0;
  }

  // ---------- how long a signal has been locked ----------

  /** Undisturbed, and seen before. */
  ghost predicate Locked(gps: bool, e: Encoder, o: Obs)
    requires ValidTrack(e.track) && Admitted(o)
  {
    !Disturbed(gps, e, o) && e.track.lltime[ObsSlot(o)] / 1000 != 0
  }

  /** A disturbed signal is sent with lock indicator 0, and its lock time counts from then on; so does that of
      a signal never seen before. */
  lemma LockStartsAnew(gps: bool, e: Encoder, time: int, part: seq<Obs>, k: nat)
    requires SystemSet(part, gps) && ValidTrack(e.track) && k < |part|
    requires !Locked(gps, e, part[k])
    ensures ReceivedFields(gps, e, time, part, k).1.lock == 0
    ensures NextEncoder(gps, e, time, part).track.lltime[ObsSlot(part[k])] == part[k].time
  {
    hide ReceivedFields, NextEncoder, PhaseResidual, RoughOf, IntMs, ModMs, FinePsr, FinePhr, OffsetAfter;
    FieldsReceived(gps, e, time, part, k);
    OffsetCarriedOn(gps, e, time, part, k);
  }

  /** Otherwise its indicator is that of the seconds since its lock start. */
  lemma LockCounts(gps: bool, e: Encoder, time: int, part: seq<Obs>, k: nat)
    requires SystemSet(part, gps) && ValidTrack(e.track) && k < |part|
    requires Locked(gps, e, part[k])
    ensures ReceivedFields(gps, e, time, part, k).1.lock
         == ToMsmLock((part[k].time - e.track.lltime[ObsSlot(part[k])]) / 1000)
  {
    hide ReceivedFields, PhaseResidual, RoughOf, IntMs, ModMs, FinePsr, FinePhr, OffsetAfter;
    FieldsReceived(gps, e, time, part, k);
  }

  /** The signals of one slot in the frame of a message are sent as locked since start. */
  ghost predicate SlotLocksArrive(env: Environment, w: World, s: seq<byte>, gps: bool, slot: nat, start: int)
    requires ValidWorld(w) && |s| >= HEADER_LENGTH + 4
  {
    Decode(env, s).Ranges? ==>
      (PartOfSet(MemoryOf(env, w, s).obs, gps);
       var part := Part(MemoryOf(env, w, s).obs, gps);
       forall k | 0 <= k < |part| && ObsSlot(part[k]) == slot ::
         ReceivedFields(gps, EncoderFor(w, gps), Decode(env, s).time, part, k).1.lock
         == ToMsmLock((part[k].time - start) / 1000))
  }

  lemma QuietLocks(env: Environment, w: World, s: seq<byte>, gps: bool, slot: nat)
    requires ValidWorld(w) && |s| >= HEADER_LENGTH + 4 && slot < SLOTS && Quiet(env, w, s, gps, slot)
    requires !Unset(EncoderFor(w, gps).track.lltime[slot])
    ensures SlotLocksArrive(env, w, s, gps, slot, EncoderFor(w, gps).track.lltime[slot])
  {
    hide ReceivedFields, Disturbed, Decode, Part, ObsSet, ToMsmLock;
    if Decode(env, s).Ranges? {
      var part, e := Part(MemoryOf(env, w, s).obs, gps), EncoderFor(w, gps);
      PartOfSet(MemoryOf(env, w, s).obs, gps);
      forall k | 0 <= k < |part| && ObsSlot(part[k]) == slot
        ensures ReceivedFields(gps, e, Decode(env, s).time, part, k).1.lock
             == ToMsmLock((part[k].time - e.track.lltime[slot]) / 1000)
      {
        LockCounts(gps, e, Decode(env, s).time, part, k);
      }
    }
  }

  lemma {:induction false} StartStays(env: Environment, frames: seq<seq<byte>>, from: nat, gps: bool, slot: nat)
    requires Whole(frames) && from <= |frames| && slot < SLOTS
    requires forall i | from <= i < |frames| :: Quiet(env, WorldAfter(env, frames[..i]), frames[i], gps, slot)
    requires !Unset(EncoderFor(WorldAfter(env, frames[..from]), gps).track.lltime[slot])
    ensures EncoderFor(WorldAfter(env, frames), gps).track.lltime[slot]
         == EncoderFor(WorldAfter(env, frames[..from]), gps).track.lltime[slot]
  {
    hide Quiet, StepWorld, EncoderFor, Decode, ValidWorld, Unset;
    var last := |frames| - 1;
    if from == |frames| {
      assert frames[..from] == frames;
    } else {
      var before := frames[..last];
      QuietBefore(env, frames, from, last, gps, slot);
      StartStays(env, before, from, gps, slot);
      QuietStep(env, WorldAfter(env, before), frames[last], gps, slot);
    }
  }

  /** Over every stretch of messages that leave a slot undisturbed, once its lock start is set, the lock
      indicators received are those of the whole seconds since that start. */
  lemma LockContinuous(env: Environment, frames: seq<seq<byte>>, from: nat, gps: bool, slot: nat)
    requires Whole(frames) && from <= |frames| && slot < SLOTS
    requires forall i | from <= i < |frames| :: Quiet(env, WorldAfter(env, frames[..i]), frames[i], gps, slot)
    requires !Unset(EncoderFor(WorldAfter(env, frames[..from]), gps).track.lltime[slot])
    ensures var start := EncoderFor(WorldAfter(env, frames[..from]), gps).track.lltime[slot];
            forall i | from <= i < |frames| ::
              SlotLocksArrive(env, WorldAfter(env, frames[..i]), frames[i], gps, slot, start)
  {
    hide Quiet, SlotLocksArrive, Decode, WorldAfter, Unset;
    var start := EncoderFor(WorldAfter(env, frames[..from]), gps).track.lltime[slot];
    forall i | from <= i < |frames|
      ensures SlotLocksArrive(env, WorldAfter(env, frames[..i]), frames[i], gps, slot, start)
    {
      var before := frames[..i];
      QuietBefore(env, frames, from, i, gps, slot);
      StartStays(env, before, from, gps, slot);
      QuietLocks(env, WorldAfter(env, before), frames[i], gps, slot);
    }
  }

  /** A message with a disturbed observation of a slot, of the given time. */
  ghost predicate Breaks(env: Environment, w: World, s: seq<byte>, gps: bool, slot: nat, time: int)
    requires ValidWorld(w) && |s| >= HEADER_LENGTH + 4
  {
    && Decode(env, s).Ranges?
    && (PartOfSet(MemoryOf(env, w, s).obs, gps);
        var part := Part(MemoryOf(env, w, s).obs, gps);
        exists k :: 0 <= k < |part| && ObsSlot(part[k]) == slot && part[k].time == time
                    && Disturbed(gps, EncoderFor(w, gps), part[k]))
  }

  lemma BreakStarts(env: Environment, w: World, s: seq<byte>, gps: bool, slot: nat, time: int)
    requires ValidWorld(w) && |s| >= HEADER_LENGTH + 4 && slot < SLOTS && Breaks(env, w, s, gps, slot, time)
    ensures EncoderFor(StepWorld(env, w, s), gps).track.lltime[slot] == time
  {
    hide Decode, Disturbed, NextEncoder, ReceivedFields, Part, ObsSet;
    PartOfSet(MemoryOf(env, w, s).obs, gps);
    var part := Part(MemoryOf(env, w, s).obs, gps);
    var k :| 0 <= k < |part| && ObsSlot(part[k]) == slot && part[k].time == time
             && Disturbed(gps, EncoderFor(w, gps), part[k]);
    LockStartsAnew(gps, EncoderFor(w, gps), Decode(env, s).time, part, k);
  }

  /** So after a disturbance the indicators count the seconds since the disturbed observation. */
  lemma LockSinceDisturbance(env: Environment, frames: seq<seq<byte>>, from: nat, gps: bool, slot: nat, time: int)
    requires Whole(frames) && 0 < from <= |frames| && slot < SLOTS && !Unset(time)
    requires Breaks(env, WorldAfter(env, frames[..from - 1]), frames[from - 1], gps, slot, time)
    requires forall i | from <= i < |frames| :: Quiet(env, WorldAfter(env, frames[..i]), frames[i], gps, slot)
    ensures forall i | from <= i < |frames| ::
              SlotLocksArrive(env, WorldAfter(env, frames[..i]), frames[i], gps, slot, time)
  {
    hide Quiet, SlotLocksArrive, Decode, Unset, Breaks, StepWorld;
    assert frames[..from][..from - 1] == frames[..from - 1];
    BreakStarts(env, WorldAfter(env, frames[..from - 1]), frames[from - 1], gps, slot, time);
    LockContinuous(env, frames, from, gps, slot);
  }
}
