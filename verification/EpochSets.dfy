/** One observation set, split by system and encoded: what the split keeps, how many cells each message
    has, and how long the frames are. */
module EpochSets {
  import opened Masks
  import opened MsmEncode
  import opened MsmIndex
  import opened MsmReadBack
  import opened MsmSignals
  import opened Observations
  import opened Rtcm3
  import opened RtcmMessages
  import opened Satellites
  import opened SignalProperties

  // ---------- raw2rtcm ----------

  /** The observations of one system, in order. */
  function Part(obs: seq<Obs>, gps: bool): seq<Obs> {
    if |obs| == 0 then []
    else
      var o := obs[|obs| - 1];
      Part(obs[..|obs| - 1], gps) + (if (o.sat < 84) == gps then [o] else [])
  }

  /** The time of a part: of its last observation, or of the message when it is empty. */
  function PartTime(part: seq<Obs>, time: int): int {
    if |part| == 0 then time else part[|part| - 1].time
  }

  /** The loop of raw2rtcm. */
  method Split(obs: seq<Obs>, time: int) returns (gps: seq<Obs>, bds: seq<Obs>, gpsTime: int, bdsTime: int)
    ensures gps == Part(obs, true) && bds == Part(obs, false)
    ensures gpsTime == PartTime(gps, time) && bdsTime == PartTime(bds, time)
  {
    gps, bds, gpsTime, bdsTime := [], [], time, time;
    var i := 0;
    while i < |obs|
      invariant 0 <= i <= |obs|
      invariant gps == Part(obs[..i], true) && bds == Part(obs[..i], false)
      invariant gpsTime == PartTime(gps, time) && bdsTime == PartTime(bds, time)
    {
      assert obs[..i + 1][..i] == obs[..i];
      if obs[i].sat < 84 {
        gpsTime := obs[i].time;
        gps := gps + [obs[i]];
      } else {
        bdsTime := obs[i].time;
        bds := bds + [obs[i]];
      }
      i := i + 1;
    }
    assert obs[..|obs|] == obs;
  }

  /** The split loses and duplicates nothing. */
  lemma {:induction false} SplitConserves(obs: seq<Obs>)
    ensures multiset(Part(obs, true)) + multiset(Part(obs, false)) == multiset(obs)
  {
    hide Part;
    if |obs| == 0 {
      NothingSplit(obs);
    } else {
      var before, o := obs[..|obs| - 1], obs[|obs| - 1];
      assert obs == before + [o];
      SplitConserves(before);
      OneMore(before, o);
    }
  }

  lemma NothingSplit(obs: seq<Obs>)
    requires |obs| == 0
    ensures Part(obs, true) == Part(obs, false) == obs
  {
  }

  lemma OneMore(before: seq<Obs>, o: Obs)
    requires multiset(Part(before, true)) + multiset(Part(before, false)) == multiset(before)
    ensures multiset(Part(before + [o], true)) + multiset(Part(before + [o], false)) == multiset(before + [o])
  {
    hide Part;
    var a, b := multiset(Part(before, true)), multiset(Part(before, false));
    PartNext(before, o, true);
    PartNext(before, o, false);
    if o.sat < 84 {
      assert (a + multiset{o}) + b == (a + b) + multiset{o};
    } else {
      assert a + (b + multiset{o}) == (a + b) + multiset{o};
    }
  }

  lemma PartNext(before: seq<Obs>, o: Obs, gps: bool)
    ensures Part(before + [o], gps) == if (o.sat < 84) == gps then Part(before, gps) + [o] else Part(before, gps)
  {
    assert (before + [o])[..|before|] == before;
  }

  /** An increasing choice of places. */
  ghost predicate Picks(at: seq<nat>, obs: seq<Obs>, part: seq<Obs>) {
    && |at| == |part|
    && (forall i | 0 <= i < |at| :: at[i] < |obs| && part[i] == obs[at[i]])
    && (forall i, j | 0 <= i < j < |at| :: at[i] < at[j])
  }

  /** The split preserves order: a part is the set read at increasing places, of its own satellites. */
  lemma {:induction false} SplitInOrder(obs: seq<Obs>, gps: bool) returns (at: seq<nat>)
    ensures Picks(at, obs, Part(obs, gps))
    ensures forall o | o in Part(obs, gps) :: (o.sat < 84) == gps
  {
    if |obs| == 0 {
      at := [];
    } else {
      at := SplitInOrder(obs[..|obs| - 1], gps);
      if (obs[|obs| - 1].sat < 84) == gps {
        at := at + [|obs| - 1];
      }
    }
  }

  lemma PartOfSet(obs: seq<Obs>, gps: bool)
    requires ObsSet(obs)
    ensures ObsSet(Part(obs, gps))
    ensures forall o | o in Part(obs, gps) :: (o.sat < 84) == gps
  {
    var at := SplitInOrder(obs, gps);
    var part := Part(obs, gps);
    if |part| > 0 {
      assert part[0] == obs[at[0]];
    }
    forall i, j | 0 <= i < j < |part|
      ensures part[i].sat != part[j].sat
    {
      assert at[i] < at[j];
    }
    PartNoLonger(obs, gps);
  }

  lemma {:induction false} PartNoLonger(obs: seq<Obs>, gps: bool)
    ensures |Part(obs, gps)| <= |obs|
  {
    if |obs| > 0 {
      PartNoLonger(obs[..|obs| - 1], gps);
    }
  }

  // ---------- the entries of a part ----------

  function SystemOf(gps: bool): System {
    if gps then Gps else BeiDou
  }

  /** A set of one system. */
  ghost predicate SystemSet(obs: seq<Obs>, gps: bool) {
    ObsSet(obs) && forall o | o in obs :: (o.sat < 84) == gps
  }

  /** The one entry an admitted observation has in its own system's message. */
  function EntryOf(o: Obs, gps: bool): Entry
    requires |o.signals| == NFREQ
  {
    Entry(ToSatId(SystemOf(gps), o.sat), 2, o.sat, 0, 1, o.signals[0], o.time)
  }

  lemma AdmittedIds(o: Obs, gps: bool)
    requires Admitted(o) && (o.sat < 84) == gps
    ensures var id := ToSatId(SystemOf(gps), o.sat);
            1 <= id <= (if gps then 32 else 37) && o.sat == (if gps then id else id + 83)
    ensures ToSigId(SystemOf(gps), o.signals[0].code) == 2 && SignalFrequency(SystemOf(gps), o.signals[0].code) == 1
    ensures ToSigId(SystemOf(gps), o.signals[1].code) == 0 && ToSigId(SystemOf(gps), o.signals[2].code) == 0
  {
    AdmittedSignals();
  }

  lemma OneEntry(o: Obs, gps: bool)
    requires Admitted(o) && (o.sat < 84) == gps
    ensures RecordEntries(SystemOf(gps), o, NFREQ) == [EntryOf(o, gps)]
  {
    var sys := SystemOf(gps);
    AdmittedIds(o, gps);
    RecordOfThree(sys, o);
  }

  function EntriesOf(obs: seq<Obs>, gps: bool): (es: seq<Entry>)
    requires forall i | 0 <= i < |obs| :: |obs[i].signals| == NFREQ
    ensures |es| == |obs|
  {
    seq(|obs|, i requires 0 <= i < |obs| => EntryOf(obs[i], gps))
  }

  /** One entry per observation, in the order of the set. */
  lemma {:induction false} SetEntries(obs: seq<Obs>, gps: bool)
    requires SystemSet(obs, gps)
    ensures Entries(SystemOf(gps), obs) == EntriesOf(obs, gps)
  {
    hide EntryOf, RecordEntries, SystemOf;
    if |obs| > 0 {
      var before := obs[..|obs| - 1];
      SystemSetFront(obs, gps);
      SetEntries(before, gps);
      OneEntry(obs[|obs| - 1], gps);
      assert EntriesOf(obs, gps) == EntriesOf(before, gps) + [EntryOf(obs[|obs| - 1], gps)];
    }
  }

  lemma SystemSetFront(obs: seq<Obs>, gps: bool)
    requires SystemSet(obs, gps) && |obs| > 0
    ensures SystemSet(obs[..|obs| - 1], gps)
  {
  }

  /** The entries are as the encoder's theorems ask: valid, of one system, in different cells and
      slots. */
  lemma SetEntriesDistinct(obs: seq<Obs>, gps: bool)
    requires SystemSet(obs, gps)
    ensures var es := Entries(SystemOf(gps), obs);
            ValidEntries(es) && PairsDiffer(es) && SlotsDiffer(es) && OfSystem(SystemOf(gps), es)
  {
    SetEntries(obs, gps);
    var es := EntriesOf(obs, gps);
    forall i | 0 <= i < |obs|
      ensures ValidEntry(es[i]) && ToSatId(SystemOf(gps), es[i].sat) == es[i].satId != 0
      ensures obs[i].sat == (if gps then es[i].satId else es[i].satId + 83)
    {
      AdmittedIds(obs[i], gps);
    }
    forall i, j | 0 <= i < j < |es|
      ensures PairOf(es[i]) != PairOf(es[j]) && Slot(es[i]) != Slot(es[j])
    {
      assert obs[i].sat != obs[j].sat;
    }
  }

  // ---------- cells and sizes ----------

  /** At most one signal per system: the grid is a column and every cell of it is observed. */
  lemma OneColumn(obs: seq<Obs>, gps: bool)
    requires SystemSet(obs, gps)
    ensures var es := Entries(SystemOf(gps), obs);
            && ValidEntries(es)
            && Sats(es) <= (if gps then 32 else 37)
            && Sats(es) * Sigs(es) == Cells(es) == Sats(es)
  {
    var es := Entries(SystemOf(gps), obs);
    SetEntriesDistinct(obs, gps);
    SetEntries(obs, gps);
    FewSatellites(obs, gps);
    OneSignal(es, obs, gps);
    var n := Sats(es);
    MulMonotone(0, n, Sigs(es));
    if |es| == 0 {
      NoSatellites(es);
    } else {
      assert n * Sigs(es) == n;
      AllCells(es);
      CountAll(CellMask(es), n);
    }
  }

  lemma FewSatellites(obs: seq<Obs>, gps: bool)
    requires SystemSet(obs, gps)
    ensures Sats(Entries(SystemOf(gps), obs)) <= (if gps then 32 else 37)
  {
    var es, top := Entries(SystemOf(gps), obs), if gps then 32 else 37;
    SetEntries(obs, gps);
    var m := SatMask(es);
    forall i | top <= i < 64
      ensures !m[i]
    {
      if HasSat(es, i + 1) {
        var k :| 0 <= k < |es| && es[k].satId == i + 1;
        AdmittedIds(obs[k], gps);
      }
    }
    CountNone(m, top, 64);
  }

  lemma NoSatellites(es: seq<Entry>)
    requires es == []
    ensures Sats(es) == 0
  {
    CountNone(SatMask(es), 0, 64);
  }

  lemma OneSignal(es: seq<Entry>, obs: seq<Obs>, gps: bool)
    requires SystemSet(obs, gps) && es == EntriesOf(obs, gps) && ValidEntries(es)
    ensures Sigs(es) == if |es| == 0 then 0 else 1
    ensures Count(SigMask(es), 1) == 0
  {
    var m := SigMask(es);
    forall i | 0 <= i < 32
      ensures m[i] == (|es| > 0 && i == 1)
    {
      if |es| > 0 && i == 1 {
        assert es[0].sigId == 2;
      }
    }
    CountNone(m, 0, 1);
    assert Count(m, 2) == if |es| == 0 then 0 else 1;
    CountNone(m, 2, 32);
  }

  lemma AllCells(es: seq<Entry>)
    requires ValidEntries(es) && Sigs(es) == 1 && Count(SigMask(es), 1) == 0
    requires forall e | e in es :: e.sigId == 2
    ensures forall c | 0 <= c < Sats(es) * Sigs(es) :: CellMask(es)[c]
  {
    forall c | 0 <= c < Sats(es) * Sigs(es)
      ensures CellMask(es)[c]
    {
      SelectedIsSet(SatMask(es), c, 64);
      var i := Select(SatMask(es), 64)[c];
      assert HasSat(es, i + 1);
      var k :| 0 <= k < |es| && es[k].satId == i + 1;
      assert es[k] in es && CellOf(es, es[k]) == c;
      assert HasCell(es, es, c);
    }
  }

  /** The exact length of a system's message, and the bound it gives for its frame. */
  lemma FrameSize(h: Header, obs: seq<Obs>, gps: bool, track: Track, stack: Buffers)
    requires SystemSet(obs, gps) && ValidTrack(track) && ValidBuffers(stack)
    requires ValidEntries(Entries(SystemOf(gps), obs))
    ensures var es := Entries(SystemOf(gps), obs);
            && |MsmMessage(h, es, track, stack)| == 193 + 67 * Sats(es)
            && |MsmFrame(h, es, track, stack)| <= (if gps then 296 else 337)
  {
    hide MsmFrame, FrameOf, Payload, FrameHead;
    var es := Entries(SystemOf(gps), obs);
    OneColumn(obs, gps);
    MessageLength(h, es, RoughRanges(es), EpochState(h.sys, es, track, stack).buffers);
    var p := FramePayload(h, es, track, stack);
  }
}
