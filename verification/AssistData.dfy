/** raw_t and the per-device processor around it: the entry point for received bytes, and the slot from
    which the publisher takes the newest bundle. Both operations run under one lock, so any interleaving
    of the input thread and the timer thread is a sequence of calls of Input and GetOutput. */
module AssistData {
  import opened AssistPipeline
  import opened BitFields
  import opened EpochSets
  import opened MsmEncode
  import opened MsmIndex
  import opened MsmSignals
  import opened Observations
  import opened Oem4Framing
  import opened RangeDecoder
  import opened Rtcm3
  import opened RtcmMessages

  /** Uninitialised arrays on the stack. */
  method StackArrays() returns (b: Buffers)
    ensures ValidBuffers(b)
  {
    var psrng, phrng, lock, half, cnr := new real[64], new real[64], new int[64], new bool[64], new nat[64];
    b := Buffers(psrng[..], phrng[..], lock[..], half[..], cnr[..]);
  }

  // ---------- one system ----------

  /** What an rtcm_t carries from epoch to epoch. */
  ghost function EncoderOf(r: Rtcm): Encoder
    reads r, r.tracker
  {
    Encoder(r.tracker.View(), r.timeS)
  }

  /** An rtcm_t as DgnssData_Init leaves it, its encoder state apart. */
  ghost predicate Ready(r: Rtcm)
    reads r, r.tracker
  {
    r.Valid() && r.staid == 0 && r.seqno == 0
  }

  /** What raw2rtcm stores for one system, and gen_rtcm3. */
  method EncodeSystem(r: Rtcm, gps: bool, part: seq<Obs>, partTime: int, ghost time: int)
    requires Ready(r) && SystemSet(part, gps) && partTime == PartTime(part, time)
    modifies r, r.tracker, r.buff
    ensures Ready(r) && EncoderOf(r) == NextEncoder(gps, old(EncoderOf(r)), time, part)
    ensures r.nbyte <= 1200 && r.buff[..r.nbyte] == SystemFrame(gps, old(EncoderOf(r)), time, part)
    ensures r.obs == part
  {
    hide MsmFrame, EpochState, Entries;
    ghost var e := EncoderOf(r);
    ghost var h := EpochHeader(gps, e, partTime);
    SystemSetIsList(part, gps);
    r.time, r.obs := partTime, part;
    var stack := StackArrays();
    SystemIgnoresStack(gps, h, part, e.track, stack);
    var ok := GenRtcm3(r, SystemOf(gps), if gps then 0 else 1, stack);
  }

  lemma SystemSetIsList(part: seq<Obs>, gps: bool)
    requires SystemSet(part, gps)
    ensures ValidList(part)
  {
  }

  // ---------- one device ----------

  /** raw_t with its three rtcm_t and the dgnssDat slot, and the processor that locks it. */
  class AssistDataProcessor {
    const env: Environment
    const decoder: Decoder
    const raw: RawData
    const refstation: Rtcm
    const gps: Rtcm
    const bds: Rtcm
    var flag: bool
    var slot: Bundle

    /** The places, in the order of production, of the bundles taken so far. */
    ghost var taken: seq<nat>

    /** No two parts share memory. */
    ghost predicate Separate()
      reads this
    {
      && refstation != gps && refstation != bds && gps != bds
      && refstation.tracker != gps.tracker && refstation.tracker != bds.tracker && gps.tracker != bds.tracker
      && decoder.buff != refstation.buff && decoder.buff != gps.buff && decoder.buff != bds.buff
      && refstation.buff != gps.buff && refstation.buff != bds.buff && gps.buff != bds.buff
    }

    ghost function World(): World
      reads raw, gps, bds, gps.tracker, bds.tracker
    {
      AssistPipeline.World(raw.View(), EncoderOf(gps), EncoderOf(bds))
    }

    /** All but the framing: the state reached after the given messages, and the slot. */
    ghost predicate Follows(frames: seq<seq<byte>>)
      reads this, raw, refstation, refstation.tracker, gps, gps.tracker, bds, bds.tracker
    {
      && Separate()
      && raw.Valid() && Ready(refstation) && Ready(gps) && Ready(bds)
      && Whole(frames)
      && World() == WorldAfter(env, frames)
      && SlotHolds(Bundles(env, frames), flag, slot, taken)
    }

    /** The messages found in the bytes received so far have been processed. */
    ghost predicate Valid()
      reads this, decoder, decoder.buff, raw, refstation, refstation.tracker, gps, gps.tracker, bds, bds.tracker
    {
      decoder.Valid() && Follows(decoder.handed)
    }

    /** The bundles those messages gave rise to. */
    ghost function Produced(): seq<Bundle>
      reads decoder
      requires Whole(decoder.handed)
    {
      Bundles(env, decoder.handed)
    }

    constructor (env: Environment)
      ensures Valid() && this.env == env && decoder.received == [] && !flag && taken == []
      ensures fresh(decoder) && fresh(raw) && fresh(refstation) && fresh(gps) && fresh(bds)
      ensures fresh(decoder.buff) && fresh(refstation.buff) && fresh(gps.buff) && fresh(bds.buff)
      ensures fresh(gps.tracker) && fresh(bds.tracker)
    {
      hide WorldAfter, Bundles, SlotHolds, ValidMemory, Fresh, Decoder.Holds, Scan;
      Beginning(env);
      this.env := env;
      decoder := new Decoder();
      raw := new RawData();
      refstation := new Rtcm();
      gps := new Rtcm();
      bds := new Rtcm();
      flag, slot, taken := false, Bundle([], [], []), [];
    }

    /** AssistDataProcessor::input and the byte loop of AssistData_Input. */
    method Input(data: seq<byte>)
      requires Valid()
      modifies this, decoder, decoder.buff, raw
      modifies refstation, refstation.buff, gps, gps.tracker, gps.buff, bds, bds.tracker, bds.buff
      ensures Valid()
      ensures decoder.received == old(decoder.received) + data && taken == old(taken)
    {
      hide Valid;
      var i := 0;
      while i < |data|
        invariant 0 <= i <= |data| && Valid()
        invariant decoder.received == old(decoder.received) + data[..i] && taken == old(taken)
      {
        InputByte(data[i]);
        assert data[..i + 1] == data[..i] + [data[i]];
        i := i + 1;
      }
      assert data[..|data|] == data;
    }

    method InputByte(b: byte)
      requires Valid()
      modifies this, decoder, decoder.buff, raw
      modifies refstation, refstation.buff, gps, gps.tracker, gps.buff, bds, bds.tracker, bds.buff
      ensures Valid()
      ensures decoder.received == old(decoder.received) + [b] && taken == old(taken)
    {
      hide WorldAfter, Bundles, SlotHolds;
      ghost var was := decoder.handed;
      var event := decoder.Input(b);
      if event.Message? {
        OnMessage(was, event.bytes);
      } else {
        assert decoder.handed == was;
      }
    }

    /** A whole message stands in the decoder's buffer. */
    method OnMessage(ghost was: seq<seq<byte>>, ghost s: seq<byte>)
      requires Follows(was) && decoder.InBuffer(s)
      modifies this`flag, this`slot, raw
      modifies refstation, refstation.buff, gps, gps.tracker, gps.buff, bds, bds.tracker, bds.buff
      ensures Follows(was + [s])
    {
      hide WorldAfter, Bundles, Decode, StepWorld, StepBundle, SlotHolds, RangeMessage, Encoded, BundleOf, SlotAfter;
      ghost var w, produced := World(), Bundles(env, was);
      NextMessage(env, was, s);
      var ret := raw.DecodeOem4(env, decoder.buff, decoder.len);
      if ret == 43 {
        RangeStep(env, w, s);
        ghost var flagWas, slotWas := flag, slot;
        OnRange(w);
        SlotNext(produced, StepBundle(env, w, s), flagWas, slotWas, flag, slot, taken);
      } else {
        OtherStep(env, w, s);
        assert produced + [] == produced;
      }
    }

    /** What AssistData_Input does with a decoded range message. */
    method OnRange(ghost w: World)
      requires Separate() && raw.Valid() && Ready(refstation) && Ready(gps) && Ready(bds)
      requires ValidWorld(w) && EncoderOf(gps) == w.gps && EncoderOf(bds) == w.bds
      modifies this`flag, this`slot
      modifies refstation, refstation.buff, gps, gps.tracker, gps.buff, bds, bds.tracker, bds.buff
      ensures Ready(refstation) && Ready(gps) && Ready(bds)
      ensures World() == Encoded(w, raw.View(), raw.time)
      ensures SlotAfter(BundleOf(w, raw.time, raw.obs), old(flag), old(slot), flag, slot)
    {
      hide SystemFrame, NextEncoder, StationFrame, ObsSet, ValidWorld, Part;
      EncodeBoth(w);
      if |bds.obs| > 0 && |gps.obs| > 0 {
        flag := true;
        slot := Bundle(refstation.buff[..refstation.nbyte], gps.buff[..gps.nbyte], bds.buff[..bds.nbyte]);
        gps.obs, bds.obs := [], [];
      }
      ClearBuffers();
    }

    /** The split, and the three frames. */
    method EncodeBoth(ghost w: World)
      requires Separate() && raw.Valid() && Ready(refstation) && Ready(gps) && Ready(bds)
      requires ValidWorld(w) && EncoderOf(gps) == w.gps && EncoderOf(bds) == w.bds
      modifies refstation, refstation.buff, gps, gps.tracker, gps.buff, bds, bds.tracker, bds.buff
      ensures Ready(refstation) && Ready(gps) && Ready(bds)
      ensures World() == Encoded(w, raw.View(), raw.time)
      ensures gps.obs == Part(raw.obs, true) && bds.obs == Part(raw.obs, false)
      ensures gps.obs != [] && bds.obs != [] ==>
                && refstation.nbyte <= 1200 && gps.nbyte <= 1200 && bds.nbyte <= 1200
                && BundleOf(w, raw.time, raw.obs)
                   == [Bundle(refstation.buff[..refstation.nbyte], gps.buff[..gps.nbyte], bds.buff[..bds.nbyte])]
      ensures gps.obs == [] || bds.obs == [] ==> BundleOf(w, raw.time, raw.obs) == []
    {
      hide SystemFrame, NextEncoder, FrameOf, StationBits, ObsSet, Part;
      PartOfSet(raw.obs, true);
      PartOfSet(raw.obs, false);
      var gpsPart, bdsPart, gpsTime, bdsTime := Split(raw.obs, raw.time);
      var ok := EncodeType1005(refstation, STATION);
      EncodeSystem(gps, true, gpsPart, gpsTime, raw.time);
      EncodeSystem(bds, false, bdsPart, bdsTime, raw.time);
    }

    /** The buffers are cleared behind the bundle. */
    method ClearBuffers()
      requires refstation.buff.Length == gps.buff.Length == bds.buff.Length == 1200
      modifies refstation.buff, gps.buff, bds.buff
    {
      forall j | 0 <= j < 200 {
        refstation.buff[j] := 0;
      }
      forall j | 0 <= j < 1200 {
        bds.buff[j] := 0;
      }
      forall j | 0 <= j < 1200 {
        gps.buff[j] := 0;
      }
    }

    /** AssistDataProcessor::getOutput: the newest bundle, if it has not been taken. */
    method GetOutput() returns (ok: bool, data: seq<byte>)
      requires Valid()
      modifies this`flag, this`taken
      ensures Valid() && !flag
      ensures ok == old(flag)
      ensures ok ==> |Produced()| > 0 && taken == old(taken) + [|Produced()| - 1]
                     && data == Concatenated(Produced()[|Produced()| - 1]) && |data| <= 658
                     && Deframe(data) == Parts(Produced()[|Produced()| - 1])
      ensures !ok ==> taken == old(taken)
    {
      hide WorldAfter, Bundles, SlotHolds, Ready, ValidMemory, Decoder.Valid, RawData.Valid, Whole;
      ghost var produced := Produced();
      SlotTaken(produced, flag, slot, taken);
      if !flag {
        return false, [];
      }
      AllBundlesGood(env, decoder.handed);
      data := slot.station + slot.gps + slot.bds;
      taken := taken + [|produced| - 1];
      flag := false;
      ok := true;
    }
  }

  lemma Beginning(env: Environment)
    ensures WorldAfter(env, []) == World(Fresh(), FreshEncoder(), FreshEncoder())
    ensures forall slot :: SlotHolds(Bundles(env, []), false, slot, [])
  {
  }

  /** The slot after a message that produced the given bundles, at most one. */
  ghost predicate SlotAfter(bundles: seq<Bundle>, flagWas: bool, slotWas: Bundle, flag: bool, slot: Bundle) {
    if bundles == [] then flag == flagWas && slot == slotWas else |bundles| == 1 && flag && slot == bundles[0]
  }

  lemma SlotNext(produced: seq<Bundle>, bundles: seq<Bundle>, flagWas: bool, slotWas: Bundle,
                 flag: bool, slot: Bundle, taken: seq<nat>)
    requires SlotHolds(produced, flagWas, slotWas, taken) && SlotAfter(bundles, flagWas, slotWas, flag, slot)
    ensures SlotHolds(produced + bundles, flag, slot, taken)
  {
    if bundles == [] {
      assert produced + bundles == produced;
    }
  }

  lemma SlotTaken(produced: seq<Bundle>, flag: bool, slot: Bundle, taken: seq<nat>)
    requires SlotHolds(produced, flag, slot, taken)
    ensures flag ==> |produced| > 0 && slot == produced[|produced| - 1] && slot in produced
                     && SlotHolds(produced, false, slot, taken + [|produced| - 1])
  {
  }

  lemma NextMessage(env: Environment, frames: seq<seq<byte>>, s: seq<byte>)
    requires Whole(frames) && |s| >= HEADER_LENGTH + 4
    ensures Whole(frames + [s])
    ensures WorldAfter(env, frames + [s]) == StepWorld(env, WorldAfter(env, frames), s)
    ensures Bundles(env, frames + [s]) == Bundles(env, frames) + StepBundle(env, WorldAfter(env, frames), s)
  {
    hide StepWorld, StepBundle;
    assert (frames + [s])[..|frames|] == frames;
  }

  lemma RangeStep(env: Environment, w: World, s: seq<byte>)
    requires ValidWorld(w) && |s| >= HEADER_LENGTH + 4 && Decode(env, s).Ranges?
    ensures var d := Decode(env, s);
            var m := RangeMessage(w.memory, d.time, d.records);
            && ValidMemory(m)
            && StepWorld(env, w, s) == Encoded(w, m, d.time)
            && StepBundle(env, w, s) == BundleOf(w, d.time, m.obs)
  {
    hide Decode, RangeMessage, Encoded, BundleOf;
    assert ValidMemory(MemoryOf(env, w, s));
  }

  lemma OtherStep(env: Environment, w: World, s: seq<byte>)
    requires ValidWorld(w) && |s| >= HEADER_LENGTH + 4 && !Decode(env, s).Ranges?
    ensures StepWorld(env, w, s) == w && StepBundle(env, w, s) == []
  {
    hide Decode;
  }

  /** The slot holds the newest bundle exactly when that has not been taken; bundles are taken at most
      once each, in the order of production. */
  ghost predicate SlotHolds(produced: seq<Bundle>, flag: bool, slot: Bundle, taken: seq<nat>) {
    && (forall i | 0 <= i < |taken| :: taken[i] < |produced|)
    && (forall i, j | 0 <= i < j < |taken| :: taken[i] < taken[j])
    && (flag <==> |produced| > 0 && (|taken| == 0 || taken[|taken| - 1] < |produced| - 1))
    && (flag ==> slot == produced[|produced| - 1])
  }
}
