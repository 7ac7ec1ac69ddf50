/** The rest of what a receiver of the published frames finds: the headers, the marks of every signal, and
    the three messages of a bundle, in the numbers that the standard and the configuration give. */
module ReceivedBundles {
  import opened AssistPipeline
  import opened BitFields
  import opened EpochSets
  import opened MsmEncode
  import opened MsmIndex
  import opened MsmSignals
  import opened ObservationFold
  import opened Observations
  import opened Quantisation
  import opened Oem4Framing
  import opened RangeBytes
  import opened RangeDecoder
  import opened ReceivedFrames
  import Rtcm3
  import opened RtcmMessages
  import opened Satellites

  // ---------- the header ----------

  /** The header of a frame of one system observed at time t, in a session from start: message 1074 or 1124,
      station 0, the milliseconds into the week of GPS time or of BeiDou time, which is 14 s behind; no message
      announced by GPS and one by BeiDou; the seconds since the session's first message. */
  ghost predicate HeaderGiven(b: seq<bool>, gps: bool, t: int, start: int) {
    && |b| >= 97
    && ReadU(b, 24, 12) == (if gps then 1074 else 1124)
    && ReadU(b, 36, 12) == 0
    && (t >= 315964814000 ==> ReadU(b, 48, 30) == (t - (if gps then 315964800000 else 315964814000)) % 604800000)
    && ReadU(b, 78, 1) == (if gps then 0 else 1)
    && ReadU(b, 79, 3) == 0
    && ReadU(b, 82, 7) == ToLock((t - start) / 1000)
    && ReadU(b, 89, 8) == 0
  }

  /** The session begins with the encoder's first message. */
  lemma FrameHeaderGiven(gps: bool, e: Encoder, time: int, part: seq<Obs>)
    requires SystemSet(part, gps) && ValidTrack(e.track) && part != []
    ensures var start := if e.timeS / 1000 == 0 then part[0].time else e.timeS;
            && HeaderGiven(Bits(SystemFrame(gps, e, time, part)), gps, part[0].time, start)
            && NextEncoder(gps, e, time, part).timeS == start
  {
    hide MsmFrame, ReadU, Epoch, ToLock, EpochState, Entries, SomeBuffers;
    SetEntriesDistinct(part, gps);
    var h := EpochHeader(gps, e, PartTime(part, time));
    HeaderDelivered(h, Entries(SystemOf(gps), part), e.track, SomeBuffers());
    PartAtOneTime(part, time);
    EpochValue(gps, part[0].time);
    SessionValue(part[0].time - LockStart(part[0].time, e.timeS, false));
  }

  lemma PartAtOneTime(part: seq<Obs>, time: int)
    requires ObsSet(part) && part != []
    ensures PartTime(part, time) == part[0].time
  {
  }

  lemma EpochValue(gps: bool, t: int)
    ensures t >= 315964814000 ==>
              Epoch(SystemOf(gps), t) % 0x4000_0000
              == (t - (if gps then 315964800000 else 315964814000)) % 604800000
  {
    if t >= 315964814000 {
      EpochOfWeek(SystemOf(gps), t);
      assert Epoch(SystemOf(gps), t) < 0x4000_0000;
    }
  }

  lemma SessionValue(ms: int)
    ensures ToLock(WholeSeconds(ms)) == ToLock(ms / 1000)
  {
  }

  // ---------- the marks of a signal ----------

  /** The half-cycle bit is bit 1 of the flags; below 63.5 dBHz the strength is a quarter of the stored one,
      rounded. */
  lemma FrameGivesMarks(gps: bool, e: Encoder, time: int, part: seq<Obs>, k: nat)
    requires SystemSet(part, gps) && ValidTrack(e.track) && k < |part|
    ensures var cell, s := ReceivedFields(gps, e, time, part, k).1, part[k].signals[0];
            && cell.half == s.lli / 2 % 2
            && (s.snr < 254 ==> -2 < 4 * cell.cnr - s.snr <= 2)
  {
    hide ReceivedFields, RoughOf, IntMs, ModMs, FinePsr, FinePhr, RangeResidual, PhaseResidual, OffsetAfter;
    FieldsReceived(gps, e, time, part, k);
  }

  /** A disturbed signal is sent with the whole cycles nearest to its residual taken off: with at most half
      a cycle left. */
  lemma OffsetStartsAnew(gps: bool, e: Encoder, time: int, part: seq<Obs>, k: nat) returns (n: int)
    requires SystemSet(part, gps) && ValidTrack(e.track) && k < |part| && Disturbed(gps, e, part[k])
    ensures var lambda := if gps then 299792458.0 / 1575420000.0 else 299792458.0 / 1561098000.0;
            var s, u := part[k].signals[0], RoughUnits(part[k].signals[0].range);
            var residual := if s.phase == 0.0 then 0.0 else s.phase * lambda - u as real * 299792.458 / 1024.0;
            && OffsetSent(gps, e, part[k]) == n as real * lambda
            && Abs(residual - n as real * lambda) <= lambda / 2.0
  {
    hide RoughUnits, Cycles, Round, ToSatId, SignalFrequency;
    var o := part[k];
    var sys, en, rough := SystemOf(gps), EntryOf(o, gps), RoughOf(o.signals[0].range);
    AdmittedIds(o, gps);
    FirstWavelength(sys, en);
    n := NearestCycles(PhaseResidual(sys, en, rough), Lambda(sys, en));
  }

  lemma NearestCycles(phase: real, lambda: real) returns (n: int)
    requires 0.0 < lambda <= 1.0
    ensures Cycles(Round(phase / lambda), lambda) == n as real * lambda
    ensures Abs(phase - n as real * lambda) <= lambda / 2.0
  {
    var x := phase / lambda;
    n := Round(x);
    RoundNearest(x);
    Quotient(phase, lambda);
    HalfStep(x - n as real, lambda);
    assert phase - n as real * lambda == (x - n as real) * lambda;
  }

  lemma HalfStep(d: real, lambda: real)
    requires -0.5 <= d < 0.5 && lambda > 0.0
    ensures Abs(d * lambda) <= lambda / 2.0
  {
    if d < 0.0 {
      assert -d * lambda <= 0.5 * lambda;
    } else {
      assert d * lambda <= 0.5 * lambda;
    }
  }

  // ---------- the three messages of a bundle ----------

  /** A set gives rise to a bundle exactly when satellites of both systems are in it: numbers below 84 are
      GPS, the others BeiDou. */
  lemma BundleIffBoth(w: World, time: int, obs: seq<Obs>)
    requires ValidWorld(w) && ObsSet(obs)
    ensures BundleOf(w, time, obs) != [] <==> Observed(obs, true) && Observed(obs, false)
    ensures |BundleOf(w, time, obs)| <= 1
  {
    hide SystemFrame;
    PartNonEmpty(obs, true);
    PartNonEmpty(obs, false);
  }

  ghost predicate Observed(obs: seq<Obs>, gps: bool) {
    exists o :: o in obs && (o.sat < 84) == gps
  }

  lemma {:induction false} PartNonEmpty(obs: seq<Obs>, gps: bool)
    ensures Part(obs, gps) != [] <==> Observed(obs, gps)
  {
    if |obs| > 0 {
      var before, last := obs[..|obs| - 1], obs[|obs| - 1];
      PartNonEmpty(before, gps);
      ObservedNext(before, last, gps);
      assert obs == before + [last];
    }
  }

  lemma ObservedNext(before: seq<Obs>, last: Obs, gps: bool)
    ensures Observed(before + [last], gps) <==> Observed(before, gps) || (last.sat < 84) == gps
  {
    if Observed(before, gps) {
      var o :| o in before && (o.sat < 84) == gps;
      assert o in before + [last];
    }
    if (last.sat < 84) == gps {
      assert last in before + [last];
    }
  }

  /** What a receiver finds in the three frames of a bundle, in the order sent: the station message with the
      configured position in steps of 0.1 mm, then GPS, then BeiDou. */
  ghost predicate ThreeMessages(b: Bundle) {
    var frames := Rtcm3.Deframe(Concatenated(b));
    && |frames| == 3
    && (var s := Bits(frames[0]);
        && |s| == 200 && ReadU(s, 24, 12) == 1005 && ReadU(s, 36, 12) == 0
        && Read38(s, 58) == -22715995880 && Read38(s, 98) == 50091413718 && Read38(s, 138) == 32188281104)
    && |Bits(frames[1])| >= 97 && ReadU(Bits(frames[1]), 24, 12) == 1074 && ReadU(Bits(frames[1]), 78, 1) == 0
    && |Bits(frames[2])| >= 97 && ReadU(Bits(frames[2]), 24, 12) == 1124 && ReadU(Bits(frames[2]), 78, 1) == 1
  }

  lemma BundleMessages(w: World, time: int, obs: seq<Obs>)
    requires ValidWorld(w) && ObsSet(obs)
    ensures forall b | b in BundleOf(w, time, obs) :: ThreeMessages(b)
  {
    hide SystemFrame, Part, ObsSet, Rtcm3.Deframe, ReadU, Read38, StationBits, Rtcm3.FrameOf, ToLock, NextEncoder;
    PartOfSet(obs, true);
    PartOfSet(obs, false);
    var g, d := Part(obs, true), Part(obs, false);
    BundleIsGood(w, time, obs);
    StationGiven();
    if g != [] && d != [] {
      FrameHeaderGiven(true, w.gps, time, g);
      FrameHeaderGiven(false, w.bds, time, d);
    }
  }

  lemma StationGiven()
    ensures var s := Bits(StationFrame());
            && |s| == 200 && ReadU(s, 24, 12) == 1005 && ReadU(s, 36, 12) == 0
            && Read38(s, 58) == -22715995880 && Read38(s, 98) == 50091413718 && Read38(s, 138) == 32188281104
  {
    hide ReadU, Read38, StationBits, Rtcm3.FrameOf;
    StationDelivered(0, STATION);
  }

  /** Every bundle of every run. */
  lemma {:induction false} AllBundlesDeliver(env: Environment, frames: seq<seq<byte>>)
    requires Whole(frames)
    ensures forall b | b in Bundles(env, frames) :: ThreeMessages(b)
  {
    hide BundleOf, ThreeMessages, Decode;
    var n := |frames|;
    if n > 0 {
      AllBundlesDeliver(env, frames[..n - 1]);
      var w, s := WorldAfter(env, frames[..n - 1]), frames[n - 1];
      if Decode(env, s).Ranges? {
        BundleMessages(w, Decode(env, s).time, MemoryOf(env, w, s).obs);
      }
    }
  }

  // ---------- from a message to its bundle ----------

  /** What one range message laid out in bytes, of time time, does after any messages before it: its values
      are filed; a bundle follows exactly when satellites of both systems are then in the set, with the
      frame of each system's part; both encoders move on. */
  ghost predicate Carried(env: Environment, was: World, time: int, ws: seq<Written>, now: World, given: seq<Bundle>)
    requires ValidWorld(was) && ValidWorld(now)
  {
    PartOfSet(now.memory.obs, true);
    PartOfSet(now.memory.obs, false);
    var g, d := Part(now.memory.obs, true), Part(now.memory.obs, false);
    && AllFiled(env, was.memory, time, ws, now.memory)
    && now.gps == NextEncoder(true, was.gps, time, g) && now.bds == NextEncoder(false, was.bds, time, d)
    && (if Observed(now.memory.obs, true) && Observed(now.memory.obs, false) then
          && |given| == 1 && ThreeMessages(given[0])
          && given[0].gps == SystemFrame(true, was.gps, time, g)
          && given[0].bds == SystemFrame(false, was.bds, time, d)
        else given == [])
  }

  lemma EncodedCarried(env: Environment, was: World, time: int, ws: seq<Written>, m: Memory)
    requires ValidWorld(was) && ValidMemory(m) && AllFiled(env, was.memory, time, ws, m)
    ensures Carried(env, was, time, ws, Encoded(was, m, time), BundleOf(was, time, m.obs))
  {
    hide AllFiled, ThreeMessages, Observed, ObsSet, SystemFrame, NextEncoder, Part;
    PartOfSet(m.obs, true);
    PartOfSet(m.obs, false);
    BundleIffBoth(was, time, m.obs);
    BundleMessages(was, time, m.obs);
  }

  lemma NextWorld(env: Environment, frames: seq<seq<byte>>, s: seq<byte>)
    requires Whole(frames) && |s| >= 32 && Decode(env, s).Ranges?
    ensures var next, w, m := frames + [s], WorldAfter(env, frames), MemoryOf(env, WorldAfter(env, frames), s);
            && Whole(next)
            && WorldAfter(env, next) == Encoded(w, m, Decode(env, s).time)
            && Bundles(env, next) == Bundles(env, frames) + BundleOf(w, Decode(env, s).time, m.obs)
  {
    hide Decode, MemoryOf, Encoded, BundleOf;
    assert (frames + [s])[..|frames|] == frames;
  }

  lemma MessageCarried(env: Environment, frames: seq<seq<byte>>, f: Front, ws: seq<Written>, crc: seq<byte>)
      returns (given: seq<Bundle>)
    requires Whole(frames) && ValidMessage(f, ws, crc)
    ensures var next, time := frames + [MessageBytes(f, ws, crc)],
                              315964800000 + env.week(f.week) * 604800000 + f.tow;
            && Whole(next) && Bundles(env, next) == Bundles(env, frames) + given
            && Carried(env, WorldAfter(env, frames), time, ws, WorldAfter(env, next), given)
  {
    hide ValidMessage, Decode, RangeMessage, MessageBytes, AllFiled, Carried, Encoded, BundleOf, WorldAfter, Bundles,
      ValidMemory, ReadAll, LaidOut, HeaderBytes, BodyBytes;
    var s, w := MessageBytes(f, ws, crc), WorldAfter(env, frames);
    var time := 315964800000 + env.week(f.week) * 604800000 + f.tow;
    MessageDecodes(env, f, ws, crc);
    NextWorld(env, frames, s);
    var m := MemoryOf(env, w, s);
    WorldMemory(w);
    MessageFiled(env, w.memory, time, ws);
    EncodedCarried(env, w, time, ws, m);
    SetOf(m);
    given := BundleOf(w, time, m.obs);
  }

  lemma WorldMemory(w: World)
    requires ValidWorld(w)
    ensures ValidMemory(w.memory)
  {
  }
}
