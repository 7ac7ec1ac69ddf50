/** What a range message does to the observation set: the satellites of its usable records appear in the
    order in which they first occur, and every satellite holds its last record, with the loss-of-lock
    flags against the one before, as far as the records count. They count until the set is full; from then
    on even satellites in the set are not updated. */
module ObservationFold {
  import opened MsmIndex
  import opened Observations
  import opened Satellites

  /** The satellites of the usable records, in order. */
  function UsableSats(rs: seq<Record>): seq<nat> {
    if |rs| == 0 then []
    else UsableSats(rs[..|rs| - 1]) + (if UseOf(rs[|rs| - 1]).Use? then [UseOf(rs[|rs| - 1]).sat] else [])
  }

  /** Each value once, in order of first appearance. */
  function Distinctly(s: seq<nat>): (d: seq<nat>)
    ensures forall x :: x in d <==> x in s
  {
    if |s| == 0 then []
    else
      var d := Distinctly(s[..|s| - 1]);
      assert s == s[..|s| - 1] + [s[|s| - 1]];
      if s[|s| - 1] in d then d else d + [s[|s| - 1]]
  }

  datatype Latest = Absent | Latest(signal: Signal)

  /** What the last usable record of a satellite says about its lock; without one, what the memory says. */
  function LastLock(m: Memory, rs: seq<Record>, sat: nat): Lock
    requires 1 <= sat <= MAXSAT && |m.lockt| == MAXSAT && |m.halfc| == MAXSAT
  {
    if |rs| == 0 then LockOf(m, sat)
    else
      var r := rs[|rs| - 1];
      if UseOf(r).Use? && UseOf(r).sat == sat then Lock(r.lockt, HalfCycle(r)) else LastLock(m, rs[..|rs| - 1], sat)
  }

  /** The signal of a usable record that follows the records before. */
  function SignalOf(m: Memory, time: int, before: seq<Record>, r: Record): Signal
    requires UseOf(r).Use? && |m.lockt| == MAXSAT && |m.halfc| == MAXSAT
  {
    Measured(r).(lli := LossOfLock(LastLock(m, before, UseOf(r).sat), r, m.tobs, time))
  }

  /** The signal of a satellite's last usable record. */
  function LastSignal(m: Memory, time: int, rs: seq<Record>, sat: nat): Latest
    requires |m.lockt| == MAXSAT && |m.halfc| == MAXSAT
  {
    if |rs| == 0 then Absent
    else
      var before, r := rs[..|rs| - 1], rs[|rs| - 1];
      if UseOf(r).Use? && UseOf(r).sat == sat then Latest(SignalOf(m, time, before, r))
      else LastSignal(m, time, before, sat)
  }

  /** What the set says about a satellite. */
  function Held(obs: seq<Obs>, sat: nat): Latest
    requires forall i | 0 <= i < |obs| :: |obs[i].signals| == NFREQ
  {
    var k := Find(obs, sat);
    if k == |obs| then Absent else Latest(obs[k].signals[0])
  }

  function Newer(held: Latest, latest: Latest): Latest {
    if latest.Latest? then latest else held
  }

  lemma SatsNew(obs: seq<Obs>, o: Obs)
    ensures SatsOf(obs + [o]) == SatsOf(obs) + [o.sat]
  {
  }

  lemma SatsReplaced(obs: seq<Obs>, k: nat, o: Obs)
    requires k < |obs| && obs[k].sat == o.sat
    ensures SatsOf(obs[k := o]) == SatsOf(obs)
  {
  }

  lemma {:induction false} DistinctlyOf(s: seq<nat>)
    requires forall i, j | 0 <= i < j < |s| :: s[i] != s[j]
    ensures Distinctly(s) == s
  {
    if |s| > 0 {
      var t := s[..|s| - 1];
      DistinctlyOf(t);
      assert s == t + [s[|s| - 1]];
    }
  }

  /** In a set of different satellites the place of a satellite is where it stands. */
  lemma FindAt(obs: seq<Obs>, k: nat)
    requires k < |obs| && forall i, j | 0 <= i < j < |obs| :: obs[i].sat != obs[j].sat
    ensures Find(obs, obs[k].sat) == k
  {
    var j := Find(obs, obs[k].sat);
    assert SatsOf(obs)[k] == obs[k].sat;
  }

  lemma FileSats(obs: seq<Obs>, time: int, sat: nat, s: Signal)
    requires |obs| < MAXOBS
    ensures SatsOf(File(obs, time, sat, s)) == if sat in SatsOf(obs) then SatsOf(obs) else SatsOf(obs) + [sat]
  {
    var k := Find(obs, sat);
    var o := Obs(time, sat, [s, NO_SIGNAL, NO_SIGNAL]);
    SatsNew(obs, o);
    if k < |obs| {
      assert SatsOf(obs)[k] == sat;
      SatsReplaced(obs, k, Obs(obs[k].time, sat, [s, NO_SIGNAL, NO_SIGNAL]));
    }
  }

  lemma FileHolds(obs: seq<Obs>, time: int, sat: nat, s: Signal, other: nat)
    requires |obs| < MAXOBS && ObsSet(obs) && (|obs| > 0 ==> obs[0].time == time)
    requires s.code == ObservedCode(sat) != CODE_NONE
    ensures ObsSet(File(obs, time, sat, s))
    ensures Held(File(obs, time, sat, s), other) == if other == sat then Latest(s) else Held(obs, other)
  {
    FileKeeps(obs, time, sat, s);
    FileSats(obs, time, sat, s);
    var now, k, j := File(obs, time, sat, s), Find(obs, sat), Find(obs, other);
    assert k < |now| && now[k].sat == sat;
    if other == sat {
      FindAt(now, k);
    } else if j < |obs| {
      assert now[j] == obs[j];
      FindAt(now, j);
    } else {
      FindNone(now, other);
    }
  }

  lemma DistinctlyNext(u: seq<nat>, x: nat)
    ensures Distinctly(u + [x]) == if x in Distinctly(u) then Distinctly(u) else Distinctly(u) + [x]
  {
    assert (u + [x])[..|u|] == u;
  }

  lemma DistinctlyGrows(base: seq<nat>, before: seq<Record>, r: Record)
    ensures |Distinctly(base + UsableSats(before))| <= |Distinctly(base + UsableSats(before + [r]))|
    ensures var u := base + UsableSats(before);
            Distinctly(base + UsableSats(before + [r]))
            == if UseOf(r).Unusable? || UseOf(r).sat in Distinctly(u) then Distinctly(u)
               else Distinctly(u) + [UseOf(r).sat]
  {
    var u := base + UsableSats(before);
    assert (before + [r])[..|before|] == before;
    if UseOf(r).Use? {
      var sat := UseOf(r).sat;
      assert UsableSats(before + [r]) == UsableSats(before) + [sat];
      assert base + UsableSats(before + [r]) == u + [sat];
      DistinctlyNext(u, sat);
    } else {
      assert UsableSats(before + [r]) == UsableSats(before);
    }
  }

  /** The memory after any records, full set or not: the lock of every satellite is its last one. */
  lemma {:induction false} LocksKept(m: Memory, time: int, rs: seq<Record>, sat: nat)
    requires 1 <= sat <= MAXSAT && |m.lockt| == MAXSAT && |m.halfc| == MAXSAT
    ensures LockOf(Records(m, time, rs), sat) == LastLock(m, rs, sat) && Records(m, time, rs).tobs == m.tobs
  {
    if |rs| > 0 {
      LocksKept(m, time, rs[..|rs| - 1], sat);
    }
  }

  /** Over every run of range messages: the lock of every satellite is that of its last usable record, and
      the time is that of the last message. */
  lemma {:induction false} LocksOnEveryRun(run: seq<Range>, sat: nat)
    requires 1 <= sat <= MAXSAT
    ensures LockOf(MemoryAfter(run), sat) == LastLock(Fresh(), AllRecords(run), sat)
    ensures MemoryAfter(run).tobs == if |run| == 0 then 0 else run[|run| - 1].time
  {
    if |run| > 0 {
      var past, now := run[..|run| - 1], run[|run| - 1];
      LocksOnEveryRun(past, sat);
      LocksKept(MemoryAfter(past), now.time, now.records, sat);
      LastLockConcat(Fresh(), MemoryAfter(past), AllRecords(past), now.records, sat);
    }
  }

  function AllRecords(run: seq<Range>): seq<Record> {
    if |run| == 0 then [] else AllRecords(run[..|run| - 1]) + run[|run| - 1].records
  }

  lemma {:induction false} LastLockConcat(m: Memory, now: Memory, a: seq<Record>, b: seq<Record>, sat: nat)
    requires 1 <= sat <= MAXSAT && |m.lockt| == MAXSAT && |m.halfc| == MAXSAT
    requires |now.lockt| == MAXSAT && |now.halfc| == MAXSAT && LockOf(now, sat) == LastLock(m, a, sat)
    ensures LastLock(now, b, sat) == LastLock(m, a + b, sat)
  {
    if |b| == 0 {
      assert a + b == a;
    } else {
      LastLockConcat(m, now, a, b[..|b| - 1], sat);
      assert (a + b)[..|a + b| - 1] == a + b[..|b| - 1];
    }
  }

  lemma UnusableStep(m: Memory, was: Memory, time: int, before: seq<Record>, r: Record)
    requires |m.lockt| == MAXSAT && |m.halfc| == MAXSAT && |was.lockt| == MAXSAT && |was.halfc| == MAXSAT
    requires UseOf(r).Unusable?
    ensures StepRecord(was, time, r) == was
    ensures forall x :: LastSignal(m, time, before + [r], x) == LastSignal(m, time, before, x)
  {
    assert (before + [r])[..|before|] == before;
  }

  lemma FoldStep(m: Memory, base: seq<Obs>, was: Memory, time: int, before: seq<Record>, r: Record)
    requires ObsSet(base) && ValidMemory(m) && ValidMemory(was) && UseOf(r).Use?
    requires |was.obs| < MAXOBS && (|was.obs| > 0 ==> was.obs[0].time == time)
    requires was.tobs == m.tobs && LockOf(was, UseOf(r).sat) == LastLock(m, before, UseOf(r).sat)
    requires forall sat :: Held(was.obs, sat) == Newer(Held(base, sat), LastSignal(m, time, before, sat))
    ensures var now, sat := StepRecord(was, time, r).obs, UseOf(r).sat;
            && ObsSet(now)
            && (|now| > 0 ==> now[0].time == time)
            && SatsOf(now) == (if sat in SatsOf(was.obs) then SatsOf(was.obs) else SatsOf(was.obs) + [sat])
            && forall x :: Held(now, x) == Newer(Held(base, x), LastSignal(m, time, before + [r], x))
  {
    var sat, s := UseOf(r).sat, SignalOf(m, time, before, r);
    FileSats(was.obs, time, sat, s);
    assert (before + [r])[..|before|] == before;
    FileKeeps(was.obs, time, sat, s);
    forall x
      ensures Held(File(was.obs, time, sat, s), x) == Newer(Held(base, x), LastSignal(m, time, before + [r], x))
    {
      FileHolds(was.obs, time, sat, s, x);
    }
  }

  /** Whatever the set held before: the first usable record of a message at a new time empties it. */
  lemma {:induction false} OldSetDropped(m: Memory, time: int, rs: seq<Record>)
    requires |m.lockt| == MAXSAT && |m.halfc| == MAXSAT && UsableSats(rs) != []
    ensures Records(m, time, rs) == Records(m.(obs := Current(m.obs, time)), time, rs)
  {
    var before := rs[..|rs| - 1];
    if UsableSats(before) != [] {
      OldSetDropped(m, time, before);
    } else {
      UnusableRecordsIgnored(m, time, before);
      UnusableRecordsIgnored(m.(obs := Current(m.obs, time)), time, before);
    }
  }

  lemma {:induction false} UnusableRecordsIgnored(m: Memory, time: int, rs: seq<Record>)
    requires |m.lockt| == MAXSAT && |m.halfc| == MAXSAT && UsableSats(rs) == []
    ensures Records(m, time, rs) == m
  {
    if |rs| > 0 {
      UnusableRecordsIgnored(m, time, rs[..|rs| - 1]);
    }
  }

  // ---------- every message ----------

  /** How many records of a message count, for a set that holds the satellites base: all up to the one
      that fills it. */
  function Counted(base: seq<nat>, rs: seq<Record>): (p: nat)
    ensures p <= |rs|
  {
    if |rs| == 0 then 0
    else
      var before := rs[..|rs| - 1];
      var p := Counted(base, before);
      if p < |before| || |Distinctly(base + UsableSats(before))| >= MAXOBS then p else |rs|
  }

  /** The set now is the fold of the records rs, of a message of the given time, over the memory m. */
  ghost predicate Folded(m: Memory, time: int, rs: seq<Record>, now: seq<Obs>)
    requires ValidMemory(m) && ObsSet(now)
  {
    var base := Current(m.obs, time);
    && SatsOf(now) == Distinctly(SatsOf(base) + UsableSats(rs))
    && forall sat :: Held(now, sat) == Newer(Held(base, sat), LastSignal(m, time, rs, sat))
  }

  lemma StartFolded(m: Memory, time: int)
    requires ValidMemory(m)
    ensures ObsSet(Current(m.obs, time)) && Folded(m, time, [], Current(m.obs, time))
  {
    var base := Current(m.obs, time);
    assert SatsOf(base) + [] == SatsOf(base);
    DistinctlyOf(SatsOf(base));
  }

  /** The next record, while the set is not full. */
  lemma OneMoreFolded(m: Memory, was: Memory, time: int, before: seq<Record>, r: Record)
    requires ValidMemory(m) && ValidMemory(was) && Folded(m, time, before, was.obs)
    requires |was.obs| < MAXOBS && (|was.obs| > 0 ==> was.obs[0].time == time)
    requires was.tobs == m.tobs && (UseOf(r).Use? ==> LockOf(was, UseOf(r).sat) == LastLock(m, before, UseOf(r).sat))
    ensures ValidMemory(StepRecord(was, time, r))
    ensures Folded(m, time, before + [r], StepRecord(was, time, r).obs)
    ensures |StepRecord(was, time, r).obs| > 0 ==> StepRecord(was, time, r).obs[0].time == time
  {
    hide UseOf, Held, ObsSet, Distinctly, UsableSats, LastSignal, StepRecord, Current, LastLock;
    var base := Current(m.obs, time);
    CurrentSet(m.obs, time);
    StepKeeps(was, time, r);
    DistinctlyGrows(SatsOf(base), before, r);
    if UseOf(r).Use? {
      FoldStep(m, base, was, time, before, r);
    } else {
      UnusableStep(m, was, time, before, r);
    }
  }

  lemma CurrentSet(obs: seq<Obs>, time: int)
    requires ObsSet(obs)
    ensures ObsSet(Current(obs, time))
  {
  }

  /** A full set is left alone, even by records of satellites that are in it. */
  lemma FullSetStands(m: Memory, time: int, r: Record)
    requires ValidMemory(m) && |m.obs| == MAXOBS && m.obs[0].time == time
    ensures StepRecord(m, time, r).obs == m.obs
  {
  }

  lemma {:induction false} MessageFolds(m: Memory, time: int, rs: seq<Record>)
    requires ValidMemory(m) && Current(m.obs, time) == m.obs
    ensures ValidMemory(Records(m, time, rs))
    ensures var now, p := Records(m, time, rs).obs, Counted(SatsOf(m.obs), rs);
            && Folded(m, time, rs[..p], now)
            && (|now| > 0 ==> now[0].time == time)
            && (p < |rs| ==> |now| == MAXOBS)
  {
    hide StepRecord, Folded, ValidMemory, Distinctly, UsableSats, LastLock, LockOf, UseOf;
    SetOf(m);
    RecordsKeep(m, time, rs);
    if |rs| == 0 {
      StartFolded(m, time);
    } else {
      var before, r := rs[..|rs| - 1], rs[|rs| - 1];
      var p, was := Counted(SatsOf(m.obs), before), Records(m, time, before);
      MessageFolds(m, time, before);
      SetOf(was);
      FoldedSize(m, time, before[..p], was.obs);
      if p == |before| && |was.obs| < MAXOBS {
        assert before[..p] == before && rs == before + [r] && rs[..|rs|] == rs;
        LockBefore(m, time, before, r);
        OneMoreFolded(m, was, time, before, r);
      } else {
        assert before[..p] == rs[..p];
        assert p == |before| ==> before[..p] == before;
        FullSetStands(was, time, r);
      }
    }
  }

  lemma LockBefore(m: Memory, time: int, before: seq<Record>, r: Record)
    requires |m.lockt| == MAXSAT && |m.halfc| == MAXSAT
    ensures Records(m, time, before).tobs == m.tobs
    ensures UseOf(r).Use? ==> LockOf(Records(m, time, before), UseOf(r).sat) == LastLock(m, before, UseOf(r).sat)
  {
    LocksKept(m, time, before, if UseOf(r).Use? then UseOf(r).sat else 1);
  }

  lemma SetOf(m: Memory)
    requires ValidMemory(m)
    ensures ObsSet(m.obs) && |m.obs| <= MAXOBS && |m.lockt| == MAXSAT && |m.halfc| == MAXSAT
  {
  }

  lemma FoldedSize(m: Memory, time: int, rs: seq<Record>, now: seq<Obs>)
    requires ValidMemory(m) && ObsSet(now) && Folded(m, time, rs, now)
    ensures |now| == |Distinctly(SatsOf(Current(m.obs, time)) + UsableSats(rs))|
  {
  }

  /** Only the current set and the locks of the memory matter. */
  lemma FoldedOf(m: Memory, time: int, rs: seq<Record>, now: seq<Obs>)
    requires ValidMemory(m) && ObsSet(now) && ValidMemory(m.(obs := Current(m.obs, time)))
    requires Folded(m.(obs := Current(m.obs, time)), time, rs, now)
    ensures Folded(m, time, rs, now)
  {
    hide Held, ObsSet;
    forall sat
      ensures LastSignal(m.(obs := Current(m.obs, time)), time, rs, sat) == LastSignal(m, time, rs, sat)
    {
      SignalsIgnoreSet(m, Current(m.obs, time), time, rs, sat);
    }
  }

  lemma {:induction false} SignalsIgnoreSet(m: Memory, obs: seq<Obs>, time: int, rs: seq<Record>, sat: nat)
    requires |m.lockt| == MAXSAT && |m.halfc| == MAXSAT
    ensures LastSignal(m.(obs := obs), time, rs, sat) == LastSignal(m, time, rs, sat)
    ensures 1 <= sat <= MAXSAT ==> LastLock(m.(obs := obs), rs, sat) == LastLock(m, rs, sat)
  {
    if |rs| > 0 {
      SignalsIgnoreSet(m, obs, time, rs[..|rs| - 1], sat);
    }
  }

  /** Every message with a usable record, from any memory: the set is the fold of the records that count,
      flags and all, and when some do not, it is full. */
  lemma MessageResult(m: Memory, time: int, rs: seq<Record>)
    requires ValidMemory(m) && UsableSats(rs) != []
    ensures ObsSet(Records(m, time, rs).obs)
    ensures var now, p := Records(m, time, rs).obs, Counted(SatsOf(Current(m.obs, time)), rs);
            && Folded(m, time, rs[..p], now)
            && now != [] && now[0].time == time
            && (p < |rs| ==> |now| == MAXOBS)
  {
    hide Folded, LastSignal;
    var base := Current(m.obs, time);
    OldSetDropped(m, time, rs);
    MessageFolds(m.(obs := base), time, rs);
    var p := Counted(SatsOf(base), rs);
    FoldedOf(m, time, rs[..p], Records(m, time, rs).obs);
    if p == |rs| {
      assert rs[..p] == rs;
      FoldedSize(m, time, rs, Records(m, time, rs).obs);
      assert UsableSats(rs)[0] in SatsOf(base) + UsableSats(rs);
    }
  }

  // ---------- when the last record wins ----------

  /** The fold over all records of the message, whether they count or not. */
  ghost predicate LastRecordWins(m: Memory, time: int, rs: seq<Record>)
    requires ValidMemory(m)
  {
    RecordsKeep(m, time, rs);
    Folded(m, time, rs, Records(m, time, rs).obs)
  }

  /** The records that do not count. */
  function Late(m: Memory, time: int, rs: seq<Record>): seq<Record> {
    rs[Counted(SatsOf(Current(m.obs, time)), rs)..]
  }

  lemma {:induction false} UsableConcat(a: seq<Record>, b: seq<Record>)
    ensures UsableSats(a + b) == UsableSats(a) + UsableSats(b)
  {
    if |b| == 0 {
      assert a + b == a;
    } else {
      UsableConcat(a, b[..|b| - 1]);
      assert (a + b)[..|a + b| - 1] == a + b[..|b| - 1];
    }
  }

  lemma {:induction false} DistinctlyAbsorbs(u: seq<nat>, v: seq<nat>)
    requires forall x | x in v :: x in u
    ensures Distinctly(u + v) == Distinctly(u)
  {
    if |v| == 0 {
      assert u + v == u;
    } else {
      var w := v[..|v| - 1];
      DistinctlyAbsorbs(u, w);
      assert u + v == (u + w) + [v[|v| - 1]];
      DistinctlyNext(u + w, v[|v| - 1]);
    }
  }

  /** A satellite has a last record exactly when it has a usable one. */
  lemma {:induction false} LastIfUsable(m: Memory, time: int, rs: seq<Record>, sat: nat)
    requires |m.lockt| == MAXSAT && |m.halfc| == MAXSAT
    ensures LastSignal(m, time, rs, sat).Latest? <==> sat in UsableSats(rs)
  {
    if |rs| > 0 {
      LastIfUsable(m, time, rs[..|rs| - 1], sat);
    }
  }

  /** Records of other satellites say nothing about a satellite. */
  lemma {:induction false} NothingLater(m: Memory, time: int, a: seq<Record>, b: seq<Record>, sat: nat)
    requires |m.lockt| == MAXSAT && |m.halfc| == MAXSAT && sat !in UsableSats(b)
    ensures LastSignal(m, time, a + b, sat) == LastSignal(m, time, a, sat)
  {
    if |b| == 0 {
      assert a + b == a;
    } else {
      NothingLater(m, time, a, b[..|b| - 1], sat);
      assert (a + b)[..|a + b| - 1] == a + b[..|b| - 1];
    }
  }

  lemma HeldIfIn(obs: seq<Obs>, sat: nat)
    requires ObsSet(obs)
    ensures Held(obs, sat).Latest? <==> sat in SatsOf(obs)
  {
    var k := Find(obs, sat);
    if k < |obs| {
      assert SatsOf(obs)[k] == sat;
    }
  }

  /** Where the fold over a and the fold over a and b agree: b says nothing new. */
  lemma FoldsAgree(m: Memory, time: int, a: seq<Record>, b: seq<Record>, now: seq<Obs>)
    requires ValidMemory(m) && ObsSet(now) && Folded(m, time, a, now)
    ensures Folded(m, time, a + b, now)
            <==> forall sat | sat in UsableSats(b) :: Held(now, sat) == LastSignal(m, time, a + b, sat)
  {
    hide Held, LastSignal, Distinctly, UsableSats, Current;
    var base := Current(m.obs, time);
    forall sat
      ensures LastSignal(m, time, a + b, sat).Latest? <==> sat in UsableSats(a) || sat in UsableSats(b)
      ensures sat !in UsableSats(b) ==> LastSignal(m, time, a + b, sat) == LastSignal(m, time, a, sat)
    {
      UsableConcat(a, b);
      LastIfUsable(m, time, a + b, sat);
      if sat !in UsableSats(b) {
        NothingLater(m, time, a, b, sat);
      }
    }
    UsableConcat(a, b);
    if forall sat | sat in UsableSats(b) :: Held(now, sat) == LastSignal(m, time, a + b, sat) {
      var u := SatsOf(base) + UsableSats(a);
      forall sat | sat in UsableSats(b)
        ensures sat in u
      {
        HeldIfIn(now, sat);
        assert sat in Distinctly(u);
      }
      assert SatsOf(base) + UsableSats(a + b) == u + UsableSats(b);
      DistinctlyAbsorbs(u, UsableSats(b));
    }
  }

  /** What is held of a satellite once the records that count are filed. */
  function Filed(m: Memory, time: int, rs: seq<Record>, sat: nat): Latest
    requires |m.lockt| == MAXSAT && |m.halfc| == MAXSAT
    requires forall i | 0 <= i < |m.obs| :: |m.obs[i].signals| == NFREQ
  {
    var base := Current(m.obs, time);
    Newer(Held(base, sat), LastSignal(m, time, rs[..Counted(SatsOf(base), rs)], sat))
  }

  /** The last record wins for every satellite exactly when the records after the filling one say last what
      those that count said last, or the set held already. */
  lemma LastRecordWinsIff(m: Memory, time: int, rs: seq<Record>)
    requires ValidMemory(m) && UsableSats(rs) != []
    ensures LastRecordWins(m, time, rs)
            <==> forall sat | sat in UsableSats(Late(m, time, rs)) ::
                   Filed(m, time, rs, sat) == LastSignal(m, time, rs, sat)
  {
    hide LastSignal, Held, UsableSats, Folded, Filed, Current;
    MessageResult(m, time, rs);
    RecordsKeep(m, time, rs);
    var now, p := Records(m, time, rs).obs, Counted(SatsOf(Current(m.obs, time)), rs);
    FoldsAgree(m, time, rs[..p], rs[p..], now);
    assert rs[..p] + rs[p..] == rs;
    FiledIsHeld(m, time, rs, now);
  }

  lemma FiledIsHeld(m: Memory, time: int, rs: seq<Record>, now: seq<Obs>)
    requires ValidMemory(m) && ObsSet(now)
    requires Folded(m, time, rs[..Counted(SatsOf(Current(m.obs, time)), rs)], now)
    ensures forall sat :: Held(now, sat) == Filed(m, time, rs, sat)
  {
  }

  // ---------- by the order of the satellites alone ----------

  /** Records of the same satellites and signals in the same order, whatever they measure. */
  predicate SameOrder(a: seq<Record>, b: seq<Record>) {
    |a| == |b| && forall i | 0 <= i < |a| :: a[i].prn == b[i].prn && a[i].status == b[i].status
  }

  lemma {:induction false} OrderDecides(base: seq<nat>, a: seq<Record>, b: seq<Record>)
    requires SameOrder(a, b)
    ensures UsableSats(a) == UsableSats(b) && Counted(base, a) == Counted(base, b)
  {
    if |a| > 0 {
      OrderDecides(base, a[..|a| - 1], b[..|b| - 1]);
    }
  }

  /** Whether the last record wins whatever the records measure depends on their order alone: it does
      exactly when no usable record comes after the one that fills the set. */
  lemma LastRecordWinsByOrder(m: Memory, time: int, rs: seq<Record>)
    requires ValidMemory(m) && UsableSats(rs) != []
    ensures (forall a | SameOrder(rs, a) :: LastRecordWins(m, time, a)) <==> UsableSats(Late(m, time, rs)) == []
  {
    hide LastRecordWins;
    if UsableSats(Late(m, time, rs)) == [] {
      forall a | SameOrder(rs, a)
        ensures LastRecordWins(m, time, a)
      {
        LateOrder(m, time, rs, a);
        OrderDecides([], rs, a);
        LastRecordWinsIff(m, time, a);
      }
    } else {
      var a := LosingRecords(m, time, rs);
    }
  }

  lemma LateOrder(m: Memory, time: int, rs: seq<Record>, a: seq<Record>)
    requires SameOrder(rs, a)
    ensures SameOrder(Late(m, time, rs), Late(m, time, a))
    ensures UsableSats(Late(m, time, rs)) == UsableSats(Late(m, time, a))
  {
    OrderDecides(SatsOf(Current(m.obs, time)), rs, a);
    OrderDecides([], Late(m, time, rs), Late(m, time, a));
  }

  /** With a usable late record, measurements whose last one is lost. */
  lemma LosingRecords(m: Memory, time: int, rs: seq<Record>) returns (a: seq<Record>)
    requires ValidMemory(m) && UsableSats(Late(m, time, rs)) != []
    ensures SameOrder(rs, a) && !LastRecordWins(m, time, a)
  {
    hide LastRecordWins, LastSignal, Held;
    var base := Current(m.obs, time);
    var p := Counted(SatsOf(base), rs);
    var j := LastUsable(rs[p..]);
    var was := rs[p + j];
    var said := Filed(m, time, rs, UseOf(was).sat);
    var r := was.(snr := if said.Latest? && said.signal.snr == 0 then 1.0 else 0.0);
    DifferentStrengths(was);
    a := rs[p + j := r];
    OrderDecides(SatsOf(base), rs, a);
    assert a[..p] == rs[..p] && a[p..] == rs[p..][j := r];
    NotHeld(m, time, a, j);
  }

  /** A late record of another strength than the records that count is lost. */
  lemma NotHeld(m: Memory, time: int, a: seq<Record>, j: nat)
    requires ValidMemory(m)
    requires var late := Late(m, time, a);
             j < |late| && UseOf(late[j]).Use? && forall i | j < i < |late| :: UseOf(late[i]).Unusable?
    requires var r := Late(m, time, a)[j];
             var held := Filed(m, time, a, UseOf(r).sat);
             held.Latest? ==> held.signal.snr != Measured(r).snr
    ensures !LastRecordWins(m, time, a)
  {
    hide LastRecordWins, Held, Measured, UseOf, ObsSet;
    var p, late := Counted(SatsOf(Current(m.obs, time)), a), Late(m, time, a);
    var sat := UseOf(late[j]).sat;
    LastIsLast(m, time, a[..p], late, j);
    assert a[..p] + late == a;
    LateUsable(late, j);
    UsableConcat(a[..p], late);
    LastRecordWinsIff(m, time, a);
  }

  lemma {:induction false} LateUsable(rs: seq<Record>, j: nat)
    requires j < |rs| && UseOf(rs[j]).Use?
    ensures UseOf(rs[j]).sat in UsableSats(rs)
  {
    if j < |rs| - 1 {
      LateUsable(rs[..|rs| - 1], j);
    }
  }

  lemma DifferentStrengths(r: Record)
    ensures Measured(r.(snr := 0.0)).snr == 0 && Measured(r.(snr := 1.0)).snr == 4
  {
    assert SnrField(0.0) == 0 && SnrField(1.0) == 4;
  }

  lemma {:induction false} LastUsable(rs: seq<Record>) returns (j: nat)
    requires UsableSats(rs) != []
    ensures j < |rs| && UseOf(rs[j]).Use? && forall i | j < i < |rs| :: UseOf(rs[i]).Unusable?
  {
    j := |rs| - 1;
    if UseOf(rs[j]).Unusable? {
      j := LastUsable(rs[..|rs| - 1]);
    }
  }

  lemma {:induction false} LastIsLast(m: Memory, time: int, a: seq<Record>, b: seq<Record>, j: nat)
    requires |m.lockt| == MAXSAT && |m.halfc| == MAXSAT
    requires j < |b| && UseOf(b[j]).Use? && forall i | j < i < |b| :: UseOf(b[i]).Unusable?
    ensures LastSignal(m, time, a + b, UseOf(b[j]).sat) == Latest(SignalOf(m, time, a + b[..j], b[j]))
  {
    var c := b[..|b| - 1];
    assert (a + b)[..|a + b| - 1] == a + c;
    if j < |c| {
      LastIsLast(m, time, a, c, j);
      assert c[..j] == b[..j];
    }
  }

  /** The last signal of a satellite is that of its last usable record. */
  lemma {:induction false} LastSignalIs(m: Memory, time: int, rs: seq<Record>, j: nat)
    requires |m.lockt| == MAXSAT && |m.halfc| == MAXSAT && j < |rs| && UseOf(rs[j]).Use?
    requires forall i | j < i < |rs| :: UseOf(rs[i]).Use? ==> UseOf(rs[i]).sat != UseOf(rs[j]).sat
    ensures LastSignal(m, time, rs, UseOf(rs[j]).sat) == Latest(SignalOf(m, time, rs[..j], rs[j]))
  {
    var before := rs[..|rs| - 1];
    if j < |before| {
      LastSignalIs(m, time, before, j);
      assert before[..j] == rs[..j];
    }
  }

  // ---------- a message whose last record is lost ----------

  /** All 32 satellites of GPS and the first 32 of BeiDou. */
  function Crowd(): (rs: seq<Record>)
    ensures |rs| == 64
  {
    seq(64, i requires 0 <= i < 64 =>
      if i < 32 then Record(i + 1, 0, 0.0, 0.0, 0.0, 0.0) else Record(i + 129, 0x4_0000, 0.0, 0.0, 0.0, 0.0))
  }

  /** After them the first satellite comes once more, at 1 dBHz. */
  const ONCE_MORE := Record(1, 0, 0.0, 0.0, 1.0, 0.0)

  function CrowdSat(i: nat): nat {
    if i < 32 then i + 1 else i + 52
  }

  lemma CrowdUsed(i: nat)
    requires i < 64
    ensures UseOf(Crowd()[i]).Use? && UseOf(Crowd()[i]).sat == CrowdSat(i) && Measured(Crowd()[i]).snr == 0
  {
    var r := Crowd()[i];
    assert r.status == (if i < 32 then 0 else 0x4_0000) && r.snr == 0.0;
    assert StatusBits(r.status, 0x20_0000, 32) == 0;
    assert StatusBits(r.status, 0x1_0000, 8) == if i < 32 then 0 else 4;
    assert SnrField(0.0) == 0;
  }

  lemma {:induction false} CrowdSats(n: nat)
    requires n <= 64
    ensures var u := UsableSats(Crowd()[..n]); |u| == n && forall i | 0 <= i < n :: u[i] == CrowdSat(i)
  {
    hide UseOf, Crowd, CrowdSat;
    if n > 0 {
      CrowdSats(n - 1);
      CrowdUsed(n - 1);
      assert Crowd()[..n][..n - 1] == Crowd()[..n - 1];
    }
  }

  lemma {:induction false} CrowdCounts(n: nat)
    requires n <= 64
    ensures |Distinctly([] + UsableSats(Crowd()[..n]))| == n == Counted([], Crowd()[..n])
  {
    hide UseOf, Crowd, UsableSats;
    var rs := Crowd()[..n];
    if n > 0 {
      CrowdCounts(n - 1);
      assert rs[..n - 1] == Crowd()[..n - 1];
    }
    CrowdSats(n);
    DistinctlyOf(UsableSats(rs));
    assert [] + UsableSats(rs) == UsableSats(rs);
  }

  lemma {:induction false} CrowdWeak(n: nat, sat: nat)
    requires n <= 64
    ensures var latest := LastSignal(Fresh(), 0, Crowd()[..n], sat); latest.Latest? ==> latest.signal.snr == 0
  {
    hide UseOf, Measured, Fresh, LossOfLock;
    if n > 0 {
      CrowdWeak(n - 1, sat);
      CrowdUsed(n - 1);
      assert Crowd()[..n][..n - 1] == Crowd()[..n - 1];
    }
  }

  /** A message after which the set does not hold the last record of a satellite that is in it. */
  lemma LastRecordLost()
    ensures !LastRecordWins(Fresh(), 0, Crowd() + [ONCE_MORE])
  {
    hide LastSignal, Distinctly, UsableSats, LastRecordWins;
    var rs := Crowd() + [ONCE_MORE];
    CrowdCounts(64);
    CrowdWeak(64, 1);
    assert rs[..64] == Crowd() == Crowd()[..64] && rs[64..] == [ONCE_MORE];
    assert SatsOf(Current(Fresh().obs, 0)) == [];
    DifferentStrengths(ONCE_MORE);
    NotHeld(Fresh(), 0, rs, 0);
  }
}
