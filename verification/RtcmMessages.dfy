/** The two kinds of message the server sends, framed: an MSM4 epoch and the station position. */
module RtcmMessages {
  import opened BitFields
  import opened BitWriter
  import opened CrcDivision
  import opened Masks
  import opened MsmEncode
  import opened MsmIndex
  import opened MsmReadBack
  import opened MsmSignals
  import opened Quantisation
  import opened Rtcm3
  import opened Satellites
  import opened SignalProperties

  /** The frame of one epoch. */
  ghost function MsmFrame(h: Header, es: seq<Entry>, track: Track, stack: Buffers): seq<byte>
    requires ValidEntries(es) && ValidTrack(track) && ValidBuffers(stack)
  {
    FrameOf(Payload(h, es, track, stack))
  }

  /** The message without its frame header. */
  ghost function Payload(h: Header, es: seq<Entry>, track: Track, stack: Buffers): (p: seq<bool>)
    requires ValidEntries(es) && ValidTrack(track) && ValidBuffers(stack)
    ensures |p| <= 4457 && Rtcm3.Fits(p)
    ensures MsmMessage(h, es, track, stack) == FrameHead(0) + p
  {
    MessageHead(h, es, RoughRanges(es), EpochState(h.sys, es, track, stack).buffers);
    MsmMessage(h, es, track, stack)[24..]
  }

  /** Every message starts with the preamble and the length still zero, and is at most 4481 bits long. */
  lemma MessageHead(h: Header, es: seq<Entry>, rrng: seq<real>, b: Buffers)
    requires ValidEntries(es) && |rrng| == 64 && ValidBuffers(b)
    ensures var m := MessageBits(h, es, rrng, b); 24 <= |m| <= 4481 && m == FrameHead(0) + m[24..]
  {
    var m, head := MessageBits(h, es, rrng, b), HeadBits(h, es);
    MessageLength(h, es, rrng, b);
    RunsLaidOut(head, rrng, Sats(es), b, FieldCount(es));
    HeadStart(h, es);
    assert m[..|head|][..24] == m[..24];
  }

  lemma HeadStart(h: Header, es: seq<Entry>)
    requires ValidEntries(es)
    ensures HeadBits(h, es)[..24] == FrameHead(0)
  {
    hide FrameHead;
    FrontStart(h);
    FrontKept(HeaderFront(h), ClockBits(), SatMask(es), SigMask(es), SentCells(CellMask(es)));
  }

  lemma FrontStart(h: Header)
    ensures HeaderFront(h)[..24] == FrameHead(0)
  {
    hide FrameHead;
    FrontKept(FrameHead(0), Field(MessageType(h.sys), 12), Field(h.staid, 12), Field(Epoch(h.sys, h.time), 30),
              Field(h.sync, 1) + Field(h.seqno, 3) + Field(ToLock(h.session), 7));
    var x := FrameHead(0) + Field(MessageType(h.sys), 12) + Field(h.staid, 12) + Field(Epoch(h.sys, h.time), 30);
    assert x + Field(h.sync, 1) + Field(h.seqno, 3) + Field(ToLock(h.session), 7)
        == x + (Field(h.sync, 1) + Field(h.seqno, 3) + Field(ToLock(h.session), 7));
  }

  lemma FrontKept(a: seq<bool>, f: seq<bool>, g: seq<bool>, h: seq<bool>, i: seq<bool>)
    requires |a| >= 24
    ensures (a + f + g + h + i)[..24] == a[..24]
  {
  }

  // ---------- gen_rtcm3 ----------

  /** The fields every frame starts with, the length still zero. */
  method BeginFrame(buff: array<byte>)
    requires buff.Length == 1200
    modifies buff
    ensures Written(buff[..], FrameHead(0))
  {
    var i;
    ghost var out;
    i, out := Emit(buff, 0, 8, 0xD3, []);
    i, out := Emit(buff, i, 6, 0, out);
    i, out := Emit(buff, i, 10, 0, out);
  }

  /** gen_rtcm3 for one system: it never fails, and its frame is a function of the header, the
      observations and the tracked state, whatever the buffer held before. */
  method GenRtcm3(r: Rtcm, sys: System, sync: nat, stack: Buffers) returns (ok: bool)
    requires r.Valid() && (sys == Gps || sys == BeiDou) && ValidBuffers(stack)
    modifies r`timeS, r`nbit, r`len, r`nbyte, r.tracker, r.buff
    ensures ok && r.Valid() && r.timeS == old(r.SessionStart())
    ensures ValidEntries(Entries(sys, r.obs))
    ensures r.tracker.View() == EpochState(sys, Entries(sys, r.obs), old(r.tracker.View()), stack).track
    ensures r.nbyte <= 1200
         && r.buff[..r.nbyte]
            == MsmFrame(old(r.HeaderOf(sys, sync)), Entries(sys, r.obs), old(r.tracker.View()), stack)
  {
    hide MessageBits, MsmFrame, FrameHead, FrameOf, RoughRanges, RoughFilled, EpochState, Payload;
    ghost var h, es, track := r.HeaderOf(sys, sync), Entries(sys, r.obs), r.tracker.View();
    r.nbit, r.len, r.nbyte := 0, 0, 0;
    BeginFrame(r.buff);
    ghost var out, rrng, b := r.EncodeMsm4(sys, sync, stack);
    RoughRangesUnique(rrng, es);
    ghost var p := FramePayload(h, es, track, stack);
    var len, nbyte;
    ok, len, nbyte := FinishFrame(r.buff, r.nbit, p);
    r.len, r.nbyte := len, nbyte;
  }

  lemma FramePayload(h: Header, es: seq<Entry>, track: Track, stack: Buffers) returns (p: seq<bool>)
    requires ValidEntries(es) && ValidTrack(track) && ValidBuffers(stack)
    ensures |p| <= 4457 && Rtcm3.Fits(p) && MsmFrame(h, es, track, stack) == FrameOf(p)
    ensures MsmMessage(h, es, track, stack) == FrameHead(0) + p
  {
    p := Payload(h, es, track, stack);
  }

  /** A frame carries its message, so everything read from the message can be read from the frame. */
  lemma FrameCarries(h: Header, es: seq<Entry>, track: Track, stack: Buffers)
    requires ValidEntries(es) && ValidTrack(track) && ValidBuffers(stack)
    ensures Carries(Bits(MsmFrame(h, es, track, stack)), MsmMessage(h, es, track, stack))
  {
    hide FrameHead, FrameOf, MsmMessage, Payload;
    var p := Payload(h, es, track, stack);
    FrameWellFormed(p);
    assert (FrameHead(0) + p)[24..] == p;
  }

  /** The frame of an epoch with fewer than 64 cells does not show what the stack held. */
  lemma FrameIgnoresStack(h: Header, es: seq<Entry>, track: Track, a: Buffers, b: Buffers)
    requires ValidEntries(es) && Cells(es) < 64
    requires ValidTrack(track) && ValidBuffers(a) && ValidBuffers(b)
    ensures MsmFrame(h, es, track, a) == MsmFrame(h, es, track, b)
  {
    StackDoesNotShow(h, es, track, a, b);
  }

  // ---------- what the receiver of a frame decodes ----------

  lemma {:induction false} RoughAtIsRough(es: seq<Entry>, id: nat) returns (q: real)
    ensures RoughAt(es, id) == RoughOf(q)
  {
    if |es| == 0 {
      q := 0.0;
      RoundOfInt(0);
    } else {
      q := RoughAtIsRough(es[..|es| - 1], id);
      var e := es[|es| - 1];
      if e.satId == id && RoughAt(es[..|es| - 1], id) == 0.0 && e.signal.range != 0.0 {
        q := e.signal.range;
      }
    }
  }

  /** Found fields give a measured range: to within half a step of 2^-24 ms. */
  ghost predicate RangeGiven(found: ((nat, nat), Cell), e: Entry) {
    var (rough, cell) := found;
    e.signal.range != 0.0
    && (rough.0 != 255 ==> Abs(DecodedRange(rough.0, rough.1, cell.psr) - e.signal.range) <= RANGE_MS / 33554432.0)
  }

  /** Found fields give a phase less n cycles: to within half a step of 2^-29 ms. */
  ghost predicate PhaseGiven(found: ((nat, nat), Cell), e: Entry, lambda: real, n: int) {
    var (rough, cell) := found;
    rough.0 != 255 ==>
      Abs(DecodedPhase(rough.0, rough.1, cell.phr) - (e.signal.phase * lambda - Cycles(n, lambda)))
      <= RANGE_MS / 1073741824.0
  }

  /** The fields a receiver finds in the frame for a pair are those its signals leave. */
  lemma FrameFields(h: Header, es: seq<Entry>, track: Track, stack: Buffers, e: Entry)
    requires ValidEntries(es) && Cells(es) < 64 && e in es
    requires ValidTrack(track) && ValidBuffers(stack)
    ensures var b := Bits(MsmFrame(h, es, track, stack));
            && 1 <= FieldOf(es, e) <= Cells(es)
            && DataStart(es) + 18 * Sats(es) + 48 * Cells(es) <= |b|
            && Found(b, es, e) == Left(h, es, track, e)
  {
    hide Found, Left, MsmMessage, MsmFrame;
    FrameCarries(h, es, track, stack);
    FieldsReadBack(Bits(MsmFrame(h, es, track, stack)), h, es, track, stack, e);
  }

  /** What a receiver of the frame finds for the pair of an entry. */
  ghost function InFrame(h: Header, es: seq<Entry>, track: Track, stack: Buffers, e: Entry): ((nat, nat), Cell)
    requires ValidEntries(es) && Cells(es) < 64 && e in es
    requires ValidTrack(track) && ValidBuffers(stack)
  {
    FrameFields(h, es, track, stack, e);
    Found(Bits(MsmFrame(h, es, track, stack)), es, e)
  }

  /** The fields of the i-th signal on its own. */
  ghost function OwnOf(h: Header, es: seq<Entry>, track: Track, i: nat): ((nat, nat), Cell)
    requires ValidEntries(es) && ValidTrack(track) && i < |es|
  {
    Own(h.sys, TrackAt(h.sys, es, track, i), RoughAt(es, es[i].satId), es[i])
  }

  lemma OwnRangeGiven(sys: System, track: Track, q: real, e: Entry, found: ((nat, nat), Cell))
    requires ValidEntry(e) && ValidTrack(track)
    requires RangeResidual(e, RoughOf(q)) != 0.0 && found.1.psr != PSRNG_INVALID
    requires found.0 == Own(sys, track, RoughOf(q), e).0 && found.1.psr == Own(sys, track, RoughOf(q), e).1.psr
    ensures RangeGiven(found, e)
  {
    hide DecodedRange, IntMs, ModMs, FinePsr;
    if IntMs(RoughOf(q)) != 255 {
      RangeDecodes(e.signal.range, q);
    }
  }

  /** From measurement to received frame: unless the range fields of a pair are marked invalid, they give
      the range of the last of its signals that has a residual, to within half a step of 2^-24 ms. */
  lemma RangeDelivered(h: Header, es: seq<Entry>, track: Track, stack: Buffers, i: nat) returns (j: nat)
    requires ValidEntries(es) && Cells(es) < 64 && i < |es|
    requires ValidTrack(track) && ValidBuffers(stack)
    ensures var found := InFrame(h, es, track, stack, es[i]);
            found.1.psr != PSRNG_INVALID ==>
              && LastRanged(h.sys, es, track, |es|, j) && PairOf(es[j]) == PairOf(es[i])
              && RangeGiven(found, es[j])
  {
    hide Found, MsmFrame, RangeGiven, RoughAt, TrackAt, PairFields, FinePsr, RoughOf;
    FrameFields(h, es, track, stack, es[i]);
    j := LastRange(h.sys, es, track, |es|, PairOf(es[i]));
    var found := InFrame(h, es, track, stack, es[i]);
    if found.1.psr != PSRNG_INVALID {
      FinePsrFits(0.0);
      var q := RoughAtIsRough(es, es[j].satId);
      OwnRangeGiven(h.sys, TrackAt(h.sys, es, track, j), q, es[j], found);
    }
  }

  lemma OwnPhaseGiven(sys: System, track: Track, q: real, e: Entry, found: ((nat, nat), Cell)) returns (n: int)
    requires ValidEntry(e) && ValidTrack(track) && WholeOffsets(track)
    requires sys != NoSystem && ToSatId(sys, e.sat) != 0 && e.frequency == 1 && e.signal.phase != 0.0
    requires found.0 == Own(sys, track, RoughOf(q), e).0 && found.1.phr == Own(sys, track, RoughOf(q), e).1.phr
    requires found.1.phr != PHRNG_INVALID
    ensures OffsetAfter(sys, e, RoughOf(q), track.cp[Slot(e)]) == Cycles(n, Lambda(sys, e))
    ensures PhaseGiven(found, e, Lambda(sys, e), n)
  {
    hide DecodedPhase, IntMs, ModMs, FinePhr, PhaseResidual, OffsetAfter, Lambda, Cycles;
    n := WholeOffset(sys, e, RoughOf(q), track.cp[Slot(e)]);
    if IntMs(RoughOf(q)) != 255 {
      EntryLambda(sys, e);
      n := PhaseDecodes(sys, e, q, track.cp[Slot(e)]);
    }
  }

  lemma WholeOffset(sys: System, e: Entry, rough: real, cp: real) returns (n: int)
    requires sys != NoSystem && ValidEntry(e) && ToSatId(sys, e.sat) != 0 && e.frequency == 1
    requires WholeCycles(cp, SlotLambda(Slot(e)))
    ensures OffsetAfter(sys, e, rough, cp) == Cycles(n, Lambda(sys, e))
  {
    EntryLambda(sys, e);
    OffsetStep(Slip(e), PhaseResidual(sys, e, rough), cp, Lambda(sys, e));
    n :| OffsetAfter(sys, e, rough, cp) == Cycles(n, Lambda(sys, e));
  }

  /** A measured phase of the i-th signal, found in these fields: less n cycles, which are taken off at its
      turn, and which are carried on unless a later signal has the same slot. */
  ghost predicate PhaseAtTurn(h: Header, es: seq<Entry>, track: Track, i: nat, found: ((nat, nat), Cell), n: int)
    requires ValidEntries(es) && ValidTrack(track) && i < |es|
  {
    var e := es[i];
    var lambda := if h.sys == BeiDou then 299792458.0 / 1561098000.0 else 299792458.0 / 1575420000.0;
    var cp := OffsetAfter(h.sys, e, RoughAt(es, e.satId), TrackAt(h.sys, es, track, i).cp[Slot(e)]);
    && cp == Cycles(n, lambda) && PhaseGiven(found, e, lambda, n)
    && ((forall j | i < j < |es| :: Slot(es[j]) != Slot(e)) ==> TrackAt(h.sys, es, track, |es|).cp[Slot(e)] == cp)
  }

  /** Likewise for the phase: unless its field is marked invalid, it is that of the last signal of the pair
      that has a phase residual. */
  lemma PhaseDelivered(h: Header, es: seq<Entry>, track: Track, stack: Buffers, i: nat) returns (j: nat, n: int)
    requires h.sys != NoSystem && ValidEntries(es) && OfSystem(h.sys, es) && Cells(es) < 64 && i < |es|
    requires ValidTrack(track) && ValidBuffers(stack) && WholeOffsets(track)
    ensures var found := InFrame(h, es, track, stack, es[i]);
            found.1.phr != PHRNG_INVALID ==>
              && LastPhased(h.sys, es, track, |es|, j) && PairOf(es[j]) == PairOf(es[i])
              && (es[j].frequency == 1 && es[j].signal.phase != 0.0 ==> PhaseAtTurn(h, es, track, j, found, n))
  {
    hide Found, MsmFrame, PhaseAtTurn, RoughAt, TrackAt, PairFields, FinePhr, RoughOf, WholeOffsets, OffsetAfter;
    FrameFields(h, es, track, stack, es[i]);
    j := LastPhase(h.sys, es, track, |es|, PairOf(es[i]));
    n := 0;
    var found := InFrame(h, es, track, stack, es[i]);
    if found.1.phr != PHRNG_INVALID {
      FinePhrFits(0.0);
      if es[j].frequency == 1 && es[j].signal.phase != 0.0 {
        n := TurnPhase(h, es, track, j, found);
      }
    }
  }

  lemma TurnPhase(h: Header, es: seq<Entry>, track: Track, i: nat, found: ((nat, nat), Cell)) returns (n: int)
    requires h.sys != NoSystem && ValidEntries(es) && OfSystem(h.sys, es) && i < |es|
    requires ValidTrack(track) && WholeOffsets(track) && es[i].frequency == 1 && es[i].signal.phase != 0.0
    requires found.0 == OwnOf(h, es, track, i).0 && found.1.phr == OwnOf(h, es, track, i).1.phr != PHRNG_INVALID
    ensures PhaseAtTurn(h, es, track, i, found, n)
  {
    hide RoughAt, PhaseGiven, Lambda, Cycles, OffsetAfter, Own, WholeOffsets, RoughOf, TrackAt;
    var e, t := es[i], TrackAt(h.sys, es, track, i);
    assert e in es;
    TurnsFindWhole(h.sys, es, track, i);
    var q := RoughAtIsRough(es, e.satId);
    n := OwnPhaseGiven(h.sys, t, q, e, found);
    FirstWavelength(h.sys, e);
    if forall j | i < j < |es| :: Slot(es[j]) != Slot(e) {
      TurnLasts(h.sys, es, track, i);
    }
  }

  // ---------- when every signal is received with its own fields ----------

  /** Every signal is received with the fields computed at its turn. */
  ghost predicate AllOwn(h: Header, es: seq<Entry>, track: Track, stack: Buffers)
    requires ValidTrack(track) && ValidBuffers(stack)
  {
    && ValidEntries(es) && Cells(es) < 64
    && forall i | 0 <= i < |es| :: InFrame(h, es, track, stack, es[i]) == OwnOf(h, es, track, i)
  }

  /** Whatever the signals measure, every one is received with its own fields, exactly when no two are of
      one pair: two signals of a satellite may have codes with the same signal identifier. */
  lemma OwnIffPairsDiffer(h: Header, es: seq<Entry>, track: Track, stack: Buffers)
    requires ValidEntries(es) && Cells(es) < 64 && ValidTrack(track) && ValidBuffers(stack)
    ensures (forall a | SameSignals(es, a) :: AllOwn(h, a, track, stack)) <==> PairsDiffer(es)
  {
    hide AllOwn, Cells, CellMask, SatMask, SigMask, ObservedPairs;
    if PairsDiffer(es) {
      forall a | SameSignals(es, a)
        ensures AllOwn(h, a, track, stack)
      {
        SameSignalsSameMasks(es, a);
        DifferentPairsOwn(h, a, track, stack);
      }
    } else {
      var i, j :| 0 <= i < j < |es| && PairOf(es[i]) == PairOf(es[j]);
      var a := es[i := es[i].(signal := es[i].signal.(snr := 0))];
      a := a[j := es[j].(signal := es[j].signal.(snr := 4))];
      assert CnrValue(0) % 64 == 0 && CnrValue(4) % 64 == 1;
      SameSignalsSameMasks(es, a);
      SharedPairMixes(h, a, track, stack, i, j);
    }
  }

  lemma DifferentPairsOwn(h: Header, es: seq<Entry>, track: Track, stack: Buffers)
    requires ValidEntries(es) && Cells(es) < 64 && ValidTrack(track) && ValidBuffers(stack) && PairsDiffer(es)
    ensures AllOwn(h, es, track, stack)
  {
    hide Found, MsmFrame, PairFields, TrackAt, RoughAt, OwnFields, Cells;
    forall i | 0 <= i < |es|
      ensures InFrame(h, es, track, stack, es[i]) == OwnOf(h, es, track, i)
    {
      FrameFields(h, es, track, stack, es[i]);
      OwnWhenPairsDiffer(h.sys, es, track, i);
    }
  }

  /** When no two share a slot either, the fields are those of the state before the epoch. */
  lemma OwnFromBefore(h: Header, es: seq<Entry>, track: Track, stack: Buffers, i: nat)
    requires ValidEntries(es) && Cells(es) < 64 && ValidTrack(track) && ValidBuffers(stack)
    requires PairsDiffer(es) && SlotsDiffer(es) && i < |es|
    ensures InFrame(h, es, track, stack, es[i]) == Own(h.sys, track, RoughAt(es, es[i].satId), es[i])
  {
    hide InFrame, RoughAt, OwnFields, Sent, Cells, PairsDiffer, SlotsDiffer;
    DifferentPairsOwn(h, es, track, stack);
    SlotsApart(h.sys, es, track, i);
  }

  /** Two signals of one pair and different strengths are received with one strength. */
  lemma SharedPairMixes(h: Header, es: seq<Entry>, track: Track, stack: Buffers, i: nat, j: nat)
    requires ValidEntries(es) && ValidTrack(track) && ValidBuffers(stack)
    requires i < j < |es| && PairOf(es[i]) == PairOf(es[j])
    requires CnrValue(es[i].signal.snr) % 64 != CnrValue(es[j].signal.snr) % 64
    ensures !AllOwn(h, es, track, stack)
  {
    hide Found, MsmFrame, PairFields, TrackAt, RoughAt, CnrValue, Cells;
    if Cells(es) < 64 {
      FrameFields(h, es, track, stack, es[i]);
      FrameFields(h, es, track, stack, es[j]);
      assert InFrame(h, es, track, stack, es[i]).1 == InFrame(h, es, track, stack, es[j]).1;
      assert OwnOf(h, es, track, i).1.cnr != OwnOf(h, es, track, j).1.cnr;
    }
  }

  /** A range of 100 ms and a quarter of 2^-10 ms. */
  const SOME_RANGE := 100.0 * RANGE_MS + RANGE_MS / 4096.0

  /** One GPS satellite on the codes 1P, with a range and at 40 dBHz, and 1Y, without one and at 44 dBHz. */
  function TwoCodes(): seq<Obs> {
    [Obs(0, 1, [Signal(0.0, SOME_RANGE, 160, 0, CODE_L1P), Signal(0.0, 0.0, 176, 0, CODE_L1Y), NO_SIGNAL])]
  }

  /** They share a pair, and are received as one signal, with the range of the one at the strength of the
      other. */
  lemma MixedSignals(h: Header, track: Track, stack: Buffers)
    requires ValidTrack(track) && ValidBuffers(stack)
    ensures var es := Entries(Gps, TwoCodes());
            && ValidEntries(es) && |es| == 2 && Cells(es) == 1
            && var mixed := InFrame(h, es, track, stack, es[0]).1;
            && mixed.psr == OwnOf(h, es, track, 0).1.psr != PSRNG_INVALID == OwnOf(h, es, track, 1).1.psr
            && mixed.cnr == OwnOf(h, es, track, 1).1.cnr != OwnOf(h, es, track, 0).1.cnr
  {
    hide Cells, InFrame, OwnOf;
    var es := Entries(Gps, TwoCodes());
    TwoEntries();
    OneCell(es, 1, 3);
    MixOfTwo(h, es, track, stack);
  }

  lemma MixOfTwo(h: Header, es: seq<Entry>, track: Track, stack: Buffers)
    requires ValidEntries(es) && |es| == 2 && PairOf(es[0]) == PairOf(es[1]) && Cells(es) == 1
    requires es[0].signal.range == SOME_RANGE && es[1].signal.range == 0.0
    requires es[0].signal.snr == 160 && es[1].signal.snr == 176
    requires ValidTrack(track) && ValidBuffers(stack)
    ensures var mixed := InFrame(h, es, track, stack, es[0]).1;
            && mixed.psr == OwnOf(h, es, track, 0).1.psr != PSRNG_INVALID == OwnOf(h, es, track, 1).1.psr
            && mixed.cnr == OwnOf(h, es, track, 1).1.cnr != OwnOf(h, es, track, 0).1.cnr
  {
    hide Cells, InFrame, TrackAt, RoughAt, FinePsr, FinePhr, ToMsmLock, PhaseResidual, OffsetAfter, StartAfter, RoughOf;
    FrameOfTwo(h, es, track, stack);
    RoughOfTwo(es);
    FineOfRange();
    assert CnrValue(160) % 64 == 40 && CnrValue(176) % 64 == 44;
  }

  lemma FrameOfTwo(h: Header, es: seq<Entry>, track: Track, stack: Buffers)
    requires ValidEntries(es) && |es| == 2 && PairOf(es[0]) == PairOf(es[1]) && Cells(es) == 1
    requires ValidTrack(track) && ValidBuffers(stack)
    ensures InFrame(h, es, track, stack, es[0]).1
         == Sent(Over(OwnAt(h.sys, es, track, 1), Over(OwnAt(h.sys, es, track, 0), Fields(0.0, 0.0, 0, false, 0))))
  {
    hide Cells, Found, MsmFrame, OwnAt, PairFields, RoughAt, Sent;
    FrameFields(h, es, track, stack, es[0]);
    TwoTurns(h.sys, es, track);
  }

  lemma TwoEntries()
    ensures var o := TwoCodes()[0];
            Entries(Gps, TwoCodes()) == [Entry(1, 3, 1, 0, 1, o.signals[0], 0), Entry(1, 3, 1, 1, 1, o.signals[1], 0)]
  {
    var o := TwoCodes()[0];
    assert TwoCodes()[..0] == [];
    RecordOfThree(Gps, o);
  }

  lemma TwoTurns(sys: System, es: seq<Entry>, t: Track)
    requires ValidEntries(es) && ValidTrack(t) && |es| == 2 && PairOf(es[0]) == PairOf(es[1])
    ensures PairFields(sys, es, t, 2, PairOf(es[0]))
         == Over(OwnAt(sys, es, t, 1), Over(OwnAt(sys, es, t, 0), Fields(0.0, 0.0, 0, false, 0)))
  {
    hide OwnAt;
    assert PairFields(sys, es, t, 1, PairOf(es[0])) == Over(OwnAt(sys, es, t, 0), Fields(0.0, 0.0, 0, false, 0));
  }

  lemma RoughOfTwo(es: seq<Entry>)
    requires |es| == 2 && es[0].satId == es[1].satId && es[1].signal.range == 0.0 != es[0].signal.range
    ensures RoughAt(es, es[0].satId) == RoughOf(es[0].signal.range)
  {
    assert RoughAt(es[..1], es[0].satId) == RoughOf(es[0].signal.range) by {
      assert RoughAt(es[..1][..0], es[0].satId) == 0.0;
    }
  }

  lemma FineOfRange()
    ensures SOME_RANGE - RoughOf(SOME_RANGE) == RANGE_MS / 4096.0
    ensures FinePsr(RANGE_MS / 4096.0) == 4096 && FinePsr(0.0) == PSRNG_INVALID
  {
    var units, fine := 102400, 4096;
    assert SOME_RANGE / RANGE_MS * 1024.0 == units as real + 0.25;
    assert RoughUnits(SOME_RANGE) == units;
    RoundOfInt(fine);
    FinePsrFits(0.0);
  }

  lemma OneCell(es: seq<Entry>, satId: nat, sigId: nat)
    requires ValidEntries(es) && |es| > 0 && forall e | e in es :: PairOf(e) == (satId, sigId)
    ensures Cells(es) == 1
  {
    hide CellOf, HasCell, SatMask, SigMask;
    assert PairOf(es[0]) == (satId, sigId);
    OneFlag(es, satId, sigId);
    CountOne(SatMask(es), satId - 1);
    CountOne(SigMask(es), sigId - 1);
    CellInRange(es, es[0]);
    CountOne(CellMask(es), 0);
  }

  lemma OneFlag(es: seq<Entry>, satId: nat, sigId: nat)
    requires |es| > 0 && forall e | e in es :: PairOf(e) == (satId, sigId)
    ensures forall i | 0 <= i < 64 :: SatMask(es)[i] == (i == satId - 1)
    ensures forall i | 0 <= i < 32 :: SigMask(es)[i] == (i == sigId - 1)
  {
    forall k | 0 <= k < |es|
      ensures es[k].satId == satId && es[k].sigId == sigId
    {
      assert PairOf(es[k]) == (satId, sigId);
    }
    assert es[0].satId == satId && es[0].sigId == sigId;
  }

  lemma CountOne(m: seq<bool>, k: nat)
    requires k < |m| && forall i | 0 <= i < |m| :: m[i] == (i == k)
    ensures Count(m, |m|) == 1
  {
    CountNone(m, 0, k);
    CountNone(m, k + 1, |m|);
  }

  /** What a receiver finds in the header of the frame. */
  lemma HeaderDelivered(h: Header, es: seq<Entry>, track: Track, stack: Buffers)
    requires ValidEntries(es) && ValidTrack(track) && ValidBuffers(stack)
    ensures var b := Bits(MsmFrame(h, es, track, stack));
            && |b| >= 97
            && ReadU(b, 24, 12) == (if h.sys == Gps then 1074 else 1124)
            && ReadU(b, 36, 12) == h.staid % 4096
            && ReadU(b, 48, 30) == Epoch(h.sys, h.time) % 0x4000_0000
            && ReadU(b, 78, 1) == h.sync % 2
            && ReadU(b, 79, 3) == h.seqno % 8
            && ReadU(b, 82, 7) == ToLock(h.session)
            && ReadU(b, 89, 8) == 0
  {
    hide MsmFrame, MsmMessage, Epoch, ToLock, ReadU, HeaderBits, StandsAt, Field;
    var b, m := Bits(MsmFrame(h, es, track, stack)), MsmMessage(h, es, track, stack);
    FrameCarries(h, es, track, stack);
    HeaderStarts(h, es, track, stack);
    HeaderFieldsStand(h);
    HeaderField(b, m, HeaderBits(h), 24, MessageType(h.sys), 12);
    HeaderField(b, m, HeaderBits(h), 36, h.staid, 12);
    HeaderField(b, m, HeaderBits(h), 48, Epoch(h.sys, h.time), 30);
    HeaderField(b, m, HeaderBits(h), 78, h.sync, 1);
    HeaderField(b, m, HeaderBits(h), 79, h.seqno, 3);
    HeaderField(b, m, HeaderBits(h), 82, ToLock(h.session), 7);
    HeaderField(b, m, HeaderBits(h), 89, 0, 8);
    HeaderPowers();
  }

  lemma HeaderStarts(h: Header, es: seq<Entry>, track: Track, stack: Buffers)
    requires ValidEntries(es) && ValidTrack(track) && ValidBuffers(stack)
    ensures |MsmMessage(h, es, track, stack)| >= 97 && MsmMessage(h, es, track, stack)[..97] == HeaderBits(h)
  {
    hide HeaderBits;
    var m, head := MsmMessage(h, es, track, stack), HeadBits(h, es);
    RunsLaidOut(head, RoughRanges(es), Sats(es), EpochState(h.sys, es, track, stack).buffers, FieldCount(es));
    assert head[..97] == HeaderBits(h);
    assert m[..|head|][..97] == m[..97];
  }

  lemma HeaderField(b: seq<bool>, m: seq<bool>, head: seq<bool>, base: nat, v: int, w: nat)
    requires Carries(b, m) && |head| == 97 <= |m| && m[..97] == head
    requires base >= 24 && StandsAt(head, base, Field(v, w))
    ensures base + w <= |b| && ReadU(b, base, w) == v % Pow2(w)
  {
    hide Field;
    StandsInLonger(m, 97, base, Field(v, w));
    CarriedRun(b, m, base, Field(v, w));
    assert b[base..base + w] == Field(v, w);
    UIntField(v, w);
  }

  lemma HeaderFieldsStand(h: Header)
    ensures var m := HeaderBits(h);
            && StandsAt(m, 24, Field(MessageType(h.sys), 12)) && StandsAt(m, 36, Field(h.staid, 12))
            && StandsAt(m, 48, Field(Epoch(h.sys, h.time), 30)) && StandsAt(m, 78, Field(h.sync, 1))
            && StandsAt(m, 79, Field(h.seqno, 3)) && StandsAt(m, 82, Field(ToLock(h.session), 7))
            && StandsAt(m, 89, Field(0, 8))
  {
    hide FrameHead, Field, Epoch, ToLock, MessageType, ClockBits, StandsAt;
    ClockIsZero();
    SixFields(FrameHead(0), Field(MessageType(h.sys), 12), Field(h.staid, 12), Field(Epoch(h.sys, h.time), 30),
              Field(h.sync, 1), Field(h.seqno, 3), Field(ToLock(h.session), 7), ClockBits());
  }

  lemma SixFields(p: seq<bool>, a: seq<bool>, c: seq<bool>, d: seq<bool>, e: seq<bool>, f: seq<bool>, g: seq<bool>,
                  more: seq<bool>)
    requires |p| == 24 && |a| == |c| == 12 && |d| == 30 && |e| == 1 && |f| == 3 && |g| == 7
    ensures var m := p + a + c + d + e + f + g + more;
            && StandsAt(m, 24, a) && StandsAt(m, 36, c) && StandsAt(m, 48, d)
            && StandsAt(m, 78, e) && StandsAt(m, 79, f) && StandsAt(m, 82, g) && StandsAt(m, 89, more)
  {
    hide StandsAt;
    var x := p + a + c + d;
    var y := x + e + f + g;
    Three(p, a, c, d);
    Three(x, e, f, g);
    StandsInLonger(y, 78, 24, a);
    StandsInLonger(y, 78, 36, c);
    StandsInLonger(y, 78, 48, d);
    StandsAppend(y, 24, a, more);
    StandsAppend(y, 36, c, more);
    StandsAppend(y, 48, d, more);
    StandsAppend(y, 78, e, more);
    StandsAppend(y, 79, f, more);
    StandsAppend(y, 82, g, more);
    StandsLast(y, more);
  }

  lemma ClockIsZero()
    ensures ClockBits() == Field(0, 8)
  {
    FieldZero(1);
    FieldZero(2);
    FieldZero(3);
    FieldZero(8);
  }

  lemma HeaderPowers()
    ensures Pow2(1) == 2 && Pow2(3) == 8 && Pow2(7) == 128 && Pow2(12) == 4096 && Pow2(30) == 0x4000_0000
  {
    PowersUpTo8();
    assert Pow2(12) == 4096;
    assert Pow2(20) == 0x10_0000;
    assert Pow2(30) == 0x4000_0000;
  }

  // ---------- encode_type1005 ----------

  /** set38bits: a 32-bit word and the 6 bits below it. */
  function Set38(value: real): (r: seq<bool>)
    ensures |r| == 38
  {
    SField((value / 64.0).Floor, 32) + Field((value - (value / 64.0).Floor as real * 64.0).Floor, 6)
  }

  lemma SplitBy64(value: real, w: int, l: int)
    requires -137438953472.0 <= value < 137438953472.0
    requires w == (value / 64.0).Floor && l == (value - w as real * 64.0).Floor
    ensures -0x8000_0000 <= w < 0x8000_0000 && 0 <= l < 64 && w * 64 + l == value.Floor
  {
    var rest := value - w as real * 64.0;
    assert 0.0 <= rest < 64.0;
    assert value == (w * 64) as real + rest;
  }

  /** A 38-bit coordinate reads back rounded down, over the whole range of the field. */
  lemma Set38ReadsBack(value: real)
    requires -137438953472.0 <= value < 137438953472.0
    ensures SInt(Set38(value)[..32]) * 64 + UInt(Set38(value)[32..]) == value.Floor
  {
    hide SField, Field, UInt, SInt;
    var w := (value / 64.0).Floor;
    var l := (value - w as real * 64.0).Floor;
    SplitBy64(value, w, l);
    assert Set38(value)[..32] == SField(w, 32) && Set38(value)[32..] == Field(l, 6);
    WordAndRest(w, l);
  }

  lemma WordAndRest(w: int, l: int)
    requires -0x8000_0000 <= w < 0x8000_0000 && 0 <= l < 64
    ensures SInt(SField(w, 32)) == w && UInt(Field(l, 6)) == l
  {
    hide SField, Field, UInt, SInt;
    Pow2Of32();
    SIntSField(w, 32);
    UIntField(l, 6);
    PowersUpTo8();
  }

  /** The antenna position, in steps of 0.1 mm. */
  datatype Position = Position(x: real, y: real, z: real)

  /** The station of this server, in metres over 0.0001. */
  const STATION := Position(-2271599.5880 / 0.0001, 5009141.3718 / 0.0001, 3218828.1104 / 0.0001)

  /** Message number, station, realization year and indicators. */
  function StationFront(staid: nat): (r: seq<bool>)
    ensures |r| == 34
  {
    [] + Field(1005, 12) + Field(staid, 12) + Field(0, 6) + Field(1, 1) + Field(1, 1) + Field(0, 1) + Field(0, 1)
  }

  function StationBits(staid: nat, p: Position): (r: seq<bool>)
    ensures |r| == 152
  {
    StationFront(staid) + Set38(p.x) + Field(1, 1) + Field(0, 1) + Set38(p.y) + Field(0, 2) + Set38(p.z)
  }

  method EmitSet38(buff: array<byte>, i: nat, value: real, ghost acc: seq<bool>)
      returns (next: nat, ghost out: seq<bool>)
    requires i == |acc| && i + 38 <= 8 * buff.Length && Written(buff[..], acc)
    modifies buff
    ensures out == acc + Set38(value) && next == |out| && Written(buff[..], out)
  {
    var h := (value / 64.0).Floor;
    next, out := EmitSigned(buff, i, 32, h, acc);
    next, out := Emit(buff, next, 6, (value - h as real * 64.0).Floor, out);
  }

  method EmitStationFront(buff: array<byte>, staid: nat) returns (i: nat, ghost out: seq<bool>)
    requires buff.Length == 1200 && Written(buff[..], FrameHead(0))
    modifies buff
    ensures out == FrameHead(0) + StationFront(staid) && i == |out| && Written(buff[..], out)
  {
    hide Field, FrameHead, Written;
    i, out := Emit(buff, 24, 12, 1005, FrameHead(0));
    i, out := Emit(buff, i, 12, staid, out);
    i, out := Emit(buff, i, 6, 0, out);
    i, out := Emit(buff, i, 1, 1, out);
    i, out := Emit(buff, i, 1, 1, out);
    i, out := Emit(buff, i, 1, 0, out);
    i, out := Emit(buff, i, 1, 0, out);
  }

  /** encode_type1005, for a station at p. */
  method EncodeType1005(r: Rtcm, p: Position) returns (ok: bool)
    requires r.buff.Length == 1200
    modifies r`nbit, r`len, r`nbyte, r.buff
    ensures ok && r.nbyte == 25 && r.buff[..25] == FrameOf(StationBits(r.staid, p))
  {
    hide Field, FrameHead, FrameOf, Set38, Written, StationFront;
    ghost var payload := StationBits(r.staid, p);
    BeginFrame(r.buff);
    var i;
    ghost var out;
    i, out := EmitStationFront(r.buff, r.staid);
    i, out := EmitSet38(r.buff, i, p.x, out);
    i, out := Emit(r.buff, i, 1, 1, out);
    i, out := Emit(r.buff, i, 1, 0, out);
    i, out := EmitSet38(r.buff, i, p.y, out);
    i, out := Emit(r.buff, i, 2, 0, out);
    i, out := EmitSet38(r.buff, i, p.z, out);
    assert out == FrameHead(0) + payload;
    var len, nbyte;
    ok, len, nbyte := FinishFrame(r.buff, i, payload);
    r.nbit, r.len, r.nbyte := i, len, nbyte;
  }

  /** What a receiver finds in the station frame: message number, station, and the three coordinates
      rounded down to the step. */
  lemma StationDelivered(staid: nat, p: Position)
    requires InRange38(p.x) && InRange38(p.y) && InRange38(p.z)
    ensures var b := Bits(FrameOf(StationBits(staid, p)));
            && |b| == 200
            && ReadU(b, 24, 12) == 1005 && ReadU(b, 36, 12) == staid % 4096
            && Read38(b, 58) == p.x.Floor && Read38(b, 98) == p.y.Floor && Read38(b, 138) == p.z.Floor
            && ReadU(b, 48, 6) == 0 && b[54..58] == [true, true, false, false]
            && b[96..98] == [true, false] && b[136..138] == [false, false]
  {
    hide FrameOf, Set38, StationFront, Field, Read38, ReadU;
    var m := StationBits(staid, p);
    var b := Bits(FrameOf(m));
    FrameWellFormed(m);
    StationParts(b, StationFront(staid), Set38(p.x), Field(1, 1), Field(0, 1), Set38(p.y), Field(0, 2), Set38(p.z));
    StationFrontReads(staid, b);
    OneBitField(true);
    OneBitField(false);
    FieldZero(2);
    assert b[96..98] == b[96..97] + b[97..98];
    Coordinate(b, 58, p.x);
    Coordinate(b, 98, p.y);
    Coordinate(b, 138, p.z);
  }

  lemma StationParts(b: seq<bool>, a: seq<bool>, x: seq<bool>, i: seq<bool>, j: seq<bool>, y: seq<bool>,
                     k: seq<bool>, z: seq<bool>)
    requires |b| >= 176 && b[24..176] == a + x + i + j + y + k + z
    requires |a| == 34 && |x| == |y| == |z| == 38 && |i| == |j| == 1 && |k| == 2
    ensures b[24..58] == a && b[58..96] == x && b[98..136] == y && b[138..176] == z
    ensures b[96..97] == i && b[97..98] == j && b[136..138] == k
  {
    var m := a + x + i + j + y + k + z;
    assert m[..34] == a && m[34..72] == x && m[74..112] == y && m[114..152] == z;
    assert m[72..73] == i && m[73..74] == j && m[112..114] == k;
    SliceOfSlice(b, 24, 176, 72, 73);
    SliceOfSlice(b, 24, 176, 73, 74);
    SliceOfSlice(b, 24, 176, 112, 114);
    SliceOfSlice(b, 24, 176, 0, 34);
    SliceOfSlice(b, 24, 176, 34, 72);
    SliceOfSlice(b, 24, 176, 74, 112);
    SliceOfSlice(b, 24, 176, 114, 152);
  }

  lemma SliceOfSlice(b: seq<bool>, lo: nat, hi: nat, i: nat, j: nat)
    requires lo <= hi <= |b| && i <= j <= hi - lo
    ensures b[lo..hi][i..j] == b[lo + i..lo + j]
  {
    var x, y := b[lo..hi][i..j], b[lo + i..lo + j];
    assert |x| == |y|;
    forall k | 0 <= k < |x|
      ensures x[k] == y[k]
    {
    }
  }

  lemma StationFrontReads(staid: nat, b: seq<bool>)
    requires |b| >= 58 && b[24..58] == StationFront(staid)
    ensures ReadU(b, 24, 12) == 1005 && ReadU(b, 36, 12) == staid % 4096
    ensures ReadU(b, 48, 6) == 0 && b[54..58] == [true, true, false, false]
  {
    hide Field;
    OneBitField(true);
    OneBitField(false);
    FrontFields(Field(1005, 12), Field(staid, 12), Field(0, 6), Field(1, 1), Field(1, 1), Field(0, 1), Field(0, 1));
    SliceOfSlice(b, 24, 58, 0, 12);
    SliceOfSlice(b, 24, 58, 12, 24);
    SliceOfSlice(b, 24, 58, 24, 30);
    SliceOfSlice(b, 24, 58, 30, 34);
    UIntField(0, 6);
    UIntField(1005, 12);
    UIntField(staid, 12);
    assert Pow2(6) == 64;
    assert Pow2(12) == 4096;
  }

  lemma FrontFields(a: seq<bool>, f: seq<bool>, g: seq<bool>, h: seq<bool>, i: seq<bool>, j: seq<bool>, k: seq<bool>)
    requires |a| == |f| == 12 && |g| == 6 && |h| == |i| == |j| == |k| == 1
    ensures var s := [] + a + f + g + h + i + j + k;
            s[0..12] == a && s[12..24] == f && s[24..30] == g && s[30..34] == h + i + j + k
  {
  }

  predicate InRange38(v: real) {
    -137438953472.0 <= v < 137438953472.0
  }

  function Read38(b: seq<bool>, pos: nat): int
    requires pos + 38 <= |b|
  {
    ReadS(b, pos, 32) * 64 + ReadU(b, pos + 32, 6)
  }

  lemma Coordinate(b: seq<bool>, pos: nat, v: real)
    requires pos + 38 <= |b| && b[pos..pos + 38] == Set38(v) && InRange38(v)
    ensures Read38(b, pos) == v.Floor
  {
    hide Set38;
    Set38ReadsBack(v);
    assert b[pos..pos + 38][..32] == b[pos..pos + 32] && b[pos..pos + 38][32..] == b[pos + 32..pos + 38];
  }
}
