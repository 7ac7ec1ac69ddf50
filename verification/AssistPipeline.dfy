/** The whole server path for one device: bytes in, range messages decoded, both systems encoded, and
    the newest complete bundle left in a slot until it is taken. */
module AssistPipeline {
  import opened BitFields
  import opened EpochSets
  import opened MsmEncode
  import opened MsmIndex
  import opened MsmReadBack
  import opened MsmSignals
  import opened Observations
  import opened Oem4Framing
  import opened RangeDecoder
  import opened Rtcm3
  import opened RtcmMessages
  import opened SignalProperties

  // ---------- the reference: a fold over messages ----------

  /** What an encoder carries from epoch to epoch. */
  datatype Encoder = Encoder(track: Track, timeS: int)

  /** Station, GPS and BeiDou frames. */
  datatype Bundle = Bundle(station: seq<byte>, gps: seq<byte>, bds: seq<byte>)

  datatype World = World(memory: Memory, gps: Encoder, bds: Encoder)

  ghost predicate ValidWorld(w: World) {
    ValidMemory(w.memory) && ValidTrack(w.gps.track) && ValidTrack(w.bds.track)
  }

  /** Arrays as the encoder might find them; which ones makes no difference. */
  function SomeBuffers(): (b: Buffers)
    ensures ValidBuffers(b)
  {
    Buffers(seq(64, _ => 0.0), seq(64, _ => 0.0), seq(64, _ => 0), seq(64, _ => false), seq(64, _ => 0))
  }

  /** The header of a system's message: GPS announces no following message, BeiDou announces one. */
  function EpochHeader(gps: bool, e: Encoder, time: int): Header {
    Header(SystemOf(gps), 0, time, if gps then 0 else 1, 0, WholeSeconds(time - LockStart(time, e.timeS, false)))
  }

  ghost function SystemFrame(gps: bool, e: Encoder, time: int, part: seq<Obs>): seq<byte>
    requires SystemSet(part, gps) && ValidTrack(e.track)
  {
    SetEntriesDistinct(part, gps);
    MsmFrame(EpochHeader(gps, e, PartTime(part, time)), Entries(SystemOf(gps), part), e.track, SomeBuffers())
  }

  ghost function NextEncoder(gps: bool, e: Encoder, time: int, part: seq<Obs>): (r: Encoder)
    requires SystemSet(part, gps) && ValidTrack(e.track)
    ensures ValidTrack(r.track)
  {
    SetEntriesDistinct(part, gps);
    Encoder(EpochState(SystemOf(gps), Entries(SystemOf(gps), part), e.track, SomeBuffers()).track,
            LockStart(PartTime(part, time), e.timeS, false))
  }

  function StationFrame(): (r: seq<byte>)
    ensures |r| == 25
  {
    FrameOf(StationBits(0, STATION))
  }

  /** The bundle of a range message: only when both systems are observed. */
  ghost function BundleOf(w: World, time: int, obs: seq<Obs>): seq<Bundle>
    requires ValidWorld(w) && ObsSet(obs)
  {
    PartOfSet(obs, true);
    PartOfSet(obs, false);
    var g, b := Part(obs, true), Part(obs, false);
    if g == [] || b == [] then []
    else [Bundle(StationFrame(), SystemFrame(true, w.gps, time, g), SystemFrame(false, w.bds, time, b))]
  }

  /** The world after a range message has been decoded and encoded. */
  ghost function Encoded(w: World, m: Memory, time: int): (r: World)
    requires ValidWorld(w) && ValidMemory(m)
    ensures ValidWorld(r)
  {
    PartOfSet(m.obs, true);
    PartOfSet(m.obs, false);
    World(m, NextEncoder(true, w.gps, time, Part(m.obs, true)), NextEncoder(false, w.bds, time, Part(m.obs, false)))
  }

  ghost function MemoryOf(env: Environment, w: World, s: seq<byte>): (m: Memory)
    requires ValidWorld(w) && |s| >= HEADER_LENGTH + 4 && Decode(env, s).Ranges?
    ensures ValidMemory(m)
  {
    var d := Decode(env, s);
    RecordsKeep(w.memory, d.time, d.records);
    RangeMessage(w.memory, d.time, d.records)
  }

  ghost function StepWorld(env: Environment, w: World, s: seq<byte>): (r: World)
    requires ValidWorld(w) && |s| >= HEADER_LENGTH + 4
    ensures ValidWorld(r)
  {
    if Decode(env, s).Ranges? then Encoded(w, MemoryOf(env, w, s), Decode(env, s).time) else w
  }

  ghost function StepBundle(env: Environment, w: World, s: seq<byte>): seq<Bundle>
    requires ValidWorld(w) && |s| >= HEADER_LENGTH + 4
  {
    if Decode(env, s).Ranges? then BundleOf(w, Decode(env, s).time, MemoryOf(env, w, s).obs) else []
  }

  ghost predicate Whole(frames: seq<seq<byte>>) {
    forall k | 0 <= k < |frames| :: |frames[k]| >= HEADER_LENGTH + 4
  }

  function FreshEncoder(): (e: Encoder)
    ensures ValidTrack(e.track)
  {
    Encoder(Track(seq(SLOTS, _ => 0.0), seq(SLOTS, _ => 0)), 0)
  }

  ghost function WorldAfter(env: Environment, frames: seq<seq<byte>>): (w: World)
    requires Whole(frames)
    ensures ValidWorld(w)
  {
    var n := |frames|;
    if n == 0 then World(Fresh(), FreshEncoder(), FreshEncoder())
    else StepWorld(env, WorldAfter(env, frames[..n - 1]), frames[n - 1])
  }

  /** All bundles a sequence of messages gives rise to, in order. */
  ghost function Bundles(env: Environment, frames: seq<seq<byte>>): seq<Bundle>
    requires Whole(frames)
  {
    var n := |frames|;
    if n == 0 then []
    else Bundles(env, frames[..n - 1]) + StepBundle(env, WorldAfter(env, frames[..n - 1]), frames[n - 1])
  }

  // ---------- sizes ----------

  /** The frames of a bundle, in the order they are sent. */
  function Parts(b: Bundle): seq<seq<byte>> {
    [b.station, b.gps, b.bds]
  }

  function Concatenated(b: Bundle): seq<byte> {
    b.station + b.gps + b.bds
  }

  /** At most 658 bytes, which a transport-layer receiver splits into exactly the three frames. */
  ghost predicate GoodBundle(b: Bundle) {
    && |b.station| == 25 && |b.gps| <= 296 && |b.bds| <= 337
    && Deframe(Concatenated(b)) == Parts(b)
  }

  lemma ThreeFrames(p: seq<bool>, q: seq<bool>, r: seq<bool>)
    requires Rtcm3.Fits(p) && Rtcm3.Fits(q) && Rtcm3.Fits(r)
    ensures Deframe(FrameOf(p) + FrameOf(q) + FrameOf(r)) == [FrameOf(p), FrameOf(q), FrameOf(r)]
  {
    hide FrameOf, FrameStarts, Rtcm3.Fits;
    DeframeOne(p, FrameOf(q) + FrameOf(r));
    DeframeOne(q, FrameOf(r));
    DeframeOne(r, []);
    assert FrameOf(r) + [] == FrameOf(r);
    assert FrameOf(p) + FrameOf(q) + FrameOf(r) == FrameOf(p) + (FrameOf(q) + FrameOf(r));
  }

  lemma BundleIsGood(w: World, time: int, obs: seq<Obs>)
    requires ValidWorld(w) && ObsSet(obs)
    ensures forall b | b in BundleOf(w, time, obs) :: GoodBundle(b)
  {
    hide SystemFrame, Part, ObsSet, Deframe, FrameOf, StationBits, Rtcm3.Fits;
    PartOfSet(obs, true);
    PartOfSet(obs, false);
    var p := SystemFrameSize(true, w.gps, time, Part(obs, true));
    var q := SystemFrameSize(false, w.bds, time, Part(obs, false));
    StationFits();
    ThreeFrames(StationBits(0, STATION), p, q);
  }

  lemma StationFits()
    ensures Rtcm3.Fits(StationBits(0, STATION))
  {
  }

  lemma SystemFrameSize(gps: bool, e: Encoder, time: int, part: seq<Obs>) returns (p: seq<bool>)
    requires SystemSet(part, gps) && ValidTrack(e.track)
    ensures |SystemFrame(gps, e, time, part)| <= (if gps then 296 else 337)
    ensures Rtcm3.Fits(p) && SystemFrame(gps, e, time, part) == FrameOf(p)
  {
    hide MsmFrame, EpochHeader, FrameOf, SomeBuffers;
    SetEntriesDistinct(part, gps);
    var h := EpochHeader(gps, e, PartTime(part, time));
    FrameSize(h, part, gps, e.track, SomeBuffers());
    p := FramePayload(h, Entries(SystemOf(gps), part), e.track, SomeBuffers());
  }

  lemma {:induction false} AllBundlesGood(env: Environment, frames: seq<seq<byte>>)
    requires Whole(frames)
    ensures forall b | b in Bundles(env, frames) :: GoodBundle(b)
  {
    hide BundleOf, GoodBundle, Decode;
    var n := |frames|;
    if n > 0 {
      AllBundlesGood(env, frames[..n - 1]);
      var w, s := WorldAfter(env, frames[..n - 1]), frames[n - 1];
      if Decode(env, s).Ranges? {
        BundleIsGood(w, Decode(env, s).time, MemoryOf(env, w, s).obs);
      }
    }
  }

  /** Over every run both encoders' phase offsets stay whole cycles. */
  lemma {:induction false} WorldOffsetsWhole(env: Environment, frames: seq<seq<byte>>)
    requires Whole(frames)
    ensures WholeOffsets(WorldAfter(env, frames).gps.track) && WholeOffsets(WorldAfter(env, frames).bds.track)
  {
    var n := |frames|;
    if n == 0 {
      InitiallyWhole();
    } else {
      WorldOffsetsWhole(env, frames[..n - 1]);
      var w, s := WorldAfter(env, frames[..n - 1]), frames[n - 1];
      if Decode(env, s).Ranges? {
        var obs := MemoryOf(env, w, s).obs;
        EncoderKeepsWhole(true, w.gps, obs);
        EncoderKeepsWhole(false, w.bds, obs);
      }
    }
  }

  lemma EncoderKeepsWhole(gps: bool, e: Encoder, obs: seq<Obs>)
    requires ObsSet(obs) && ValidTrack(e.track) && WholeOffsets(e.track)
    ensures SystemSet(Part(obs, gps), gps)
    ensures forall time :: WholeOffsets(NextEncoder(gps, e, time, Part(obs, gps)).track)
  {
    PartOfSet(obs, gps);
    SetEntriesDistinct(Part(obs, gps), gps);
    EpochKeeps(SystemOf(gps), Entries(SystemOf(gps), Part(obs, gps)), e.track, SomeBuffers());
  }

  // ---------- the stack does not show ----------

  lemma SystemIgnoresStack(gps: bool, h: Header, part: seq<Obs>, t: Track, stack: Buffers)
    requires SystemSet(part, gps) && ValidTrack(t) && ValidBuffers(stack)
    ensures ValidEntries(Entries(SystemOf(gps), part))
    ensures var sys, es := SystemOf(gps), Entries(SystemOf(gps), part);
            && MsmFrame(h, es, t, stack) == MsmFrame(h, es, t, SomeBuffers())
            && EpochState(sys, es, t, stack).track == EpochState(sys, es, t, SomeBuffers()).track
  {
    hide MsmFrame, PairsDiffer, SlotsDiffer, Entries, SystemOf, SomeBuffers, Cells, Sigs;
    var sys, es := SystemOf(gps), Entries(SystemOf(gps), part);
    SetEntriesDistinct(part, gps);
    OneColumn(part, gps);
    FrameIgnoresStack(h, es, t, stack, SomeBuffers());
    EpochIgnoresStack(sys, es, t, stack, SomeBuffers());
  }

  // ---------- from the stream ----------

  lemma {:induction false} FramesWhole(s: seq<byte>)
    ensures Whole(Scan(s).frames)
    decreases |s|, 1
  {
    var i := NextSync(s, 0);
    if i < |s| {
      CollectedWhole(s[i..]);
    }
  }

  lemma {:induction false} CollectedWhole(t: seq<byte>)
    requires SyncAt(t, 0)
    ensures Whole(Collect(t).frames)
    decreases |t|, 0
  {
    if !Incomplete(t) {
      FramesWhole(t[if TooLong(t) then 10 else Oem4Framing.MessageLength(t) + 4..]);
    }
  }

  /** The bundles that the messages of a stream give rise to. */
  ghost function BundlesIn(env: Environment, stream: seq<byte>): seq<Bundle> {
    FramesWhole(stream);
    Bundles(env, Scan(stream).frames)
  }

  /** More bytes only add bundles at the end. */
  lemma BundlesInGrow(env: Environment, s: seq<byte>, x: seq<byte>)
    ensures BundlesIn(env, s) <= BundlesIn(env, s + x)
  {
    FramesWhole(s);
    FramesWhole(s + x);
    ScanResumes(s, x);
    BundlesGrow(env, Scan(s).frames, Scan(Scan(s).rest + x).frames);
  }

  lemma {:induction false} BundlesGrow(env: Environment, a: seq<seq<byte>>, b: seq<seq<byte>>)
    requires Whole(a) && Whole(a + b)
    ensures Bundles(env, a) <= Bundles(env, a + b)
  {
    hide StepBundle, WorldAfter;
    if |b| == 0 {
      assert a + b == a;
    } else {
      assert (a + b)[..|a + b| - 1] == a + b[..|b| - 1];
      BundlesGrow(env, a, b[..|b| - 1]);
    }
  }
}
