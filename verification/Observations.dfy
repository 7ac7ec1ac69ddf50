/** Range records into observation sets: tracking status, satellite lookup, loss-of-lock flags, and the
    set of observations of one epoch that successive messages build up. */
module Observations {
  import opened MsmIndex
  import opened MsmSignals
  import opened Satellites

  const MAXOBS := 64

  /** One record of a range message, its floating-point fields already read. */
  datatype Record = Record(prn: nat, status: nat, psr: real, adr: real, snr: real, lockt: real)

  function StatusBits(status: nat, shift: nat, width: nat): nat
    requires shift > 0 && width > 0
  {
    status / shift % width
  }

  predicate PhaseLocked(r: Record) { StatusBits(r.status, 0x400, 2) == 1 }
  predicate ParityKnown(r: Record) { StatusBits(r.status, 0x800, 2) == 1 }
  predicate CodeLocked(r: Record) { StatusBits(r.status, 0x1000, 2) == 1 }
  predicate HalfCycle(r: Record) { StatusBits(r.status, 0x1000_0000, 2) == 1 }

  datatype Tracked = Untracked | Tracked(sys: System, code: nat)

  /** decode_trackstat: one signal of GPS and two of BeiDou are admitted, all on the first frequency. */
  function TrackStatus(status: nat): Tracked {
    var system, signal := StatusBits(status, 0x1_0000, 8), StatusBits(status, 0x20_0000, 32);
    if system == 0 then if signal == 0 then Tracked(Gps, CODE_L1C) else Untracked
    else if system == 4 then if signal == 0 || signal == 4 then Tracked(BeiDou, CODE_L1I) else Untracked
    else Untracked
  }

  datatype Use = Unusable | Use(sat: nat, code: nat)

  /** The satellite and code a record is filed under, if any. */
  function UseOf(r: Record): (u: Use)
    ensures u.Use? ==> ObservedCode(u.sat) == u.code && u.code != CODE_NONE
  {
    var t := TrackStatus(r.status);
    if t.Untracked? || SatNo(t.sys, r.prn) == 0 then Unusable else Use(SatNo(t.sys, r.prn), t.code)
  }

  /** The only code a satellite is ever observed on; CODE_NONE for satellites never observed. */
  function ObservedCode(sat: nat): nat {
    if 1 <= sat <= 32 then CODE_L1C else if 84 <= sat <= MAXSAT then CODE_L1I else CODE_NONE
  }

  /** Signal strength in steps of 0.25 dBHz, in one byte. */
  function SnrField(snr: real): nat {
    if 0.0 <= snr < 255.0 then (snr * 4.0 + 0.5).Floor % 256 else 0
  }

  /** What a record says about its signal, apart from the loss-of-lock flags. */
  function Measured(r: Record): Signal {
    var code := if UseOf(r).Use? then UseOf(r).code else CODE_NONE;
    Signal(if PhaseLocked(r) then -r.adr else 0.0, if CodeLocked(r) then r.psr else 0.0, SnrField(r.snr), 0, code)
  }

  // ---------- the receiver's memory ----------

  /** raw_t: the current set, the time of the last range message (0 s: none yet), and the lock times and
      half-cycle flags of every satellite. Times are in ms. */
  datatype Memory = Memory(obs: seq<Obs>, tobs: int, lockt: seq<real>, halfc: seq<bool>)

  ghost predicate ValidMemory(m: Memory) {
    |m.lockt| == MAXSAT && |m.halfc| == MAXSAT && ObsSet(m.obs)
  }

  /** At most 64 observations, of different satellites, at one time, each of an admitted signal. */
  ghost predicate ObsSet(obs: seq<Obs>) {
    && |obs| <= MAXOBS
    && (forall i, j | 0 <= i < j < |obs| :: obs[i].sat != obs[j].sat)
    && (forall i | 0 <= i < |obs| :: obs[i].time == obs[0].time && Admitted(obs[i]))
  }

  predicate Admitted(o: Obs) {
    && ObservedCode(o.sat) != CODE_NONE
    && |o.signals| == NFREQ
    && o.signals[0].code == ObservedCode(o.sat)
    && o.signals[1] == NO_SIGNAL && o.signals[2] == NO_SIGNAL
  }

  function SatsOf(obs: seq<Obs>): (r: seq<nat>)
    ensures |r| == |obs|
  {
    seq(|obs|, i requires 0 <= i < |obs| => obs[i].sat)
  }

  /** The place of a satellite in the set, or the set's size. */
  function Find(obs: seq<Obs>, sat: nat): (k: nat)
    ensures k <= |obs|
    ensures k < |obs| ==> obs[k].sat == sat
    ensures k == |obs| ==> sat !in SatsOf(obs)
  {
    if |obs| == 0 then 0
    else
      var k := Find(obs[..|obs| - 1], sat);
      if k < |obs| - 1 || obs[|obs| - 1].sat == sat then k
      else
        assert SatsOf(obs) == SatsOf(obs[..|obs| - 1]) + [obs[|obs| - 1].sat];
        |obs|
  }

  lemma FindNone(obs: seq<Obs>, sat: nat)
    requires sat !in SatsOf(obs)
    ensures Find(obs, sat) == |obs|
  {
    forall k | 0 <= k < |obs|
      ensures obs[k].sat != sat
    {
      assert SatsOf(obs)[k] == obs[k].sat;
    }
  }

  /** What is remembered of a satellite between its records. */
  datatype Lock = Lock(lockt: real, halfc: bool)

  function LockOf(m: Memory, sat: nat): Lock
    requires 1 <= sat <= MAXSAT && |m.lockt| == MAXSAT && |m.halfc| == MAXSAT
  {
    Lock(m.lockt[sat - 1], m.halfc[sat - 1])
  }

  /** The loss-of-lock flags of a record of a satellite last seen with the lock was, the last message
      being of time tobs: bit 0 for a slip since, bit 1 for an unknown parity. */
  function LossOfLock(was: Lock, r: Record, tobs: int, time: int): nat {
    var slip := !Unset(tobs)
                && (r.lockt - was.lockt + 0.05 <= (time - tobs) as real / 1000.0
                    || HalfCycle(r) != was.halfc);
    (if slip then 1 else 0) + (if ParityKnown(r) then 0 else 2)
  }

  /** Filing a signal: under its satellite if that is in the set, else at the end; not at all once the
      set is full. */
  function File(obs: seq<Obs>, time: int, sat: nat, s: Signal): seq<Obs> {
    if |obs| >= MAXOBS then obs
    else
      var k := Find(obs, sat);
      if k < |obs| then obs[k := Obs(obs[k].time, sat, [s, NO_SIGNAL, NO_SIGNAL])]
      else obs + [Obs(time, sat, [s, NO_SIGNAL, NO_SIGNAL])]
  }

  /** A new time empties the set. */
  function Current(obs: seq<Obs>, time: int): seq<Obs> {
    if |obs| > 0 && obs[0].time != time then [] else obs
  }

  function StepRecord(m: Memory, time: int, r: Record): Memory
    requires |m.lockt| == MAXSAT && |m.halfc| == MAXSAT
  {
    if UseOf(r).Unusable? then m
    else
      var sat := UseOf(r).sat;
      var s := Measured(r).(lli := LossOfLock(LockOf(m, sat), r, m.tobs, time));
      Memory(File(Current(m.obs, time), time, sat, s), m.tobs,
             m.lockt[sat - 1 := r.lockt], m.halfc[sat - 1 := HalfCycle(r)])
  }

  function Records(m: Memory, time: int, rs: seq<Record>): (r: Memory)
    requires |m.lockt| == MAXSAT && |m.halfc| == MAXSAT
    ensures |r.lockt| == MAXSAT && |r.halfc| == MAXSAT
  {
    if |rs| == 0 then m else StepRecord(Records(m, time, rs[..|rs| - 1]), time, rs[|rs| - 1])
  }

  /** The memory after a range message. */
  function RangeMessage(m: Memory, time: int, rs: seq<Record>): (r: Memory)
    requires |m.lockt| == MAXSAT && |m.halfc| == MAXSAT
    ensures |r.lockt| == MAXSAT && |r.halfc| == MAXSAT
  {
    var after := Records(m, time, rs);
    Memory(after.obs, time, after.lockt, after.halfc)
  }

  function Fresh(): (m: Memory)
    ensures ValidMemory(m)
  {
    Memory([], 0, seq(MAXSAT, _ => 0.0), seq(MAXSAT, _ => false))
  }

  // ---------- the invariant ----------

  lemma FileKeeps(obs: seq<Obs>, time: int, sat: nat, s: Signal)
    requires ObsSet(obs) && (|obs| > 0 ==> obs[0].time == time)
    requires s.code == ObservedCode(sat) != CODE_NONE
    ensures ObsSet(File(obs, time, sat, s))
  {
    var k := Find(obs, sat);
    forall i | 0 <= i < |obs|
      ensures k == |obs| ==> obs[i].sat != sat
    {
      assert SatsOf(obs)[i] == obs[i].sat;
    }
  }

  lemma StepKeeps(m: Memory, time: int, r: Record)
    requires ValidMemory(m)
    ensures ValidMemory(StepRecord(m, time, r))
  {
    if UseOf(r).Use? {
      var sat := UseOf(r).sat;
      FileKeeps(Current(m.obs, time), time, sat, Measured(r).(lli := LossOfLock(LockOf(m, sat), r, m.tobs, time)));
    }
  }

  lemma {:induction false} RecordsKeep(m: Memory, time: int, rs: seq<Record>)
    requires ValidMemory(m)
    ensures ValidMemory(Records(m, time, rs))
  {
    if |rs| > 0 {
      RecordsKeep(m, time, rs[..|rs| - 1]);
      StepKeeps(Records(m, time, rs[..|rs| - 1]), time, rs[|rs| - 1]);
    }
  }

  /** One range message of a run: its time and its records. */
  datatype Range = Range(time: int, records: seq<Record>)

  function MemoryAfter(run: seq<Range>): (m: Memory)
    ensures |m.lockt| == MAXSAT && |m.halfc| == MAXSAT
  {
    if |run| == 0 then Fresh()
    else RangeMessage(MemoryAfter(run[..|run| - 1]), run[|run| - 1].time, run[|run| - 1].records)
  }

  /** After any run of range messages the set holds at most 64 observations, of different satellites,
      all at one time. */
  lemma {:induction false} SetOnEveryRun(run: seq<Range>)
    ensures ValidMemory(MemoryAfter(run)) && |MemoryAfter(run).obs| <= 64
  {
    if |run| > 0 {
      SetOnEveryRun(run[..|run| - 1]);
      RecordsKeep(MemoryAfter(run[..|run| - 1]), run[|run| - 1].time, run[|run| - 1].records);
    }
  }
}
