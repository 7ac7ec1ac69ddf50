/** decode_oem4 and decode_rangeb: from the bytes of a message to the receiver's memory. */
module RangeDecoder {
  import opened BitFields
  import opened Crc32
  import opened CrcDivision
  import opened MsmIndex
  import opened Observations
  import opened Oem4Framing
  import opened Satellites
  import TimeScales

  /** What lies outside the model: reading little-endian floats, and the week adjusted by the clock. */
  datatype Environment = Environment(single: seq<byte> -> real, double: seq<byte> -> real, week: nat -> int)

  function U2(s: seq<byte>, p: nat): nat
    requires p + 2 <= |s|
  {
    s[p] as int + 256 * (s[p + 1] as int)
  }

  function U4(s: seq<byte>, p: nat): nat
    requires p + 4 <= |s|
  {
    U2(s, p) + 0x1_0000 * U2(s, p + 2)
  }

  const ID_RANGE := 43
  const RECORD_LENGTH := 44

  /** The i-th record of a range message. */
  function RecordAt(env: Environment, s: seq<byte>, i: nat): Record
    requires HEADER_LENGTH + 4 + RECORD_LENGTH * (i + 1) <= |s|
  {
    var p := HEADER_LENGTH + 4 + RECORD_LENGTH * i;
    Record(U2(s, p), U4(s, p + 40), env.double(s[p + 4..p + 12]), env.double(s[p + 16..p + 24]),
           env.single(s[p + 32..p + 36]), env.single(s[p + 36..p + 40]))
  }

  function RecordsOf(env: Environment, s: seq<byte>, n: nat): (r: seq<Record>)
    requires HEADER_LENGTH + 4 + RECORD_LENGTH * n <= |s|
    ensures |r| == n
  {
    if n == 0 then [] else RecordsOf(env, s, n - 1) + [RecordAt(env, s, n - 1)]
  }

  datatype Decoded =
    | Rejected                      // -1: bad CRC
    | Ignored                       // 0: not a binary range message
    | BadLength(time: int)          // -1: fewer records than announced
    | Ranges(time: int, records: seq<Record>)  // 43

  function MessageTime(env: Environment, s: seq<byte>): int
    requires |s| >= 20
  {
    TimeScales.GPST0 + env.week(U2(s, 14)) * TimeScales.WEEK + U4(s, 16)
  }

  predicate CrcGood(s: seq<byte>)
    requires |s| >= 4
  {
    Crc(Zeros(32), s[..|s| - 4]) == LsbBits(s[|s| - 4..])
  }

  /** What a whole message, CRC included, decodes to. */
  function Decode(env: Environment, s: seq<byte>): Decoded
    requires |s| >= HEADER_LENGTH + 4
  {
    if !CrcGood(s) then Rejected
    else if (s[6] as int) / 16 % 4 != 0 || U2(s, 4) != ID_RANGE then Ignored
    else
      var time := MessageTime(env, s);
      var n := U4(s, HEADER_LENGTH);
      if |s| - 4 < HEADER_LENGTH + 4 + n * RECORD_LENGTH then BadLength(time) else Ranges(time, RecordsOf(env, s, n))
  }

  /** A message passes exactly when the register ends at zero over all of it. */
  lemma PassesIffZeroResidue(s: seq<byte>)
    requires |s| >= 4
    ensures CrcGood(s) <==> Crc(Zeros(32), s) == Zeros(32)
  {
    hide Crc, LsbBits, Zeros;
    TakeDrop(s, |s| - 4);
    IntactIffZeroResidue(s[..|s| - 4], s[|s| - 4..]);
  }

  lemma TakeDrop(s: seq<byte>, n: nat)
    requires n <= |s|
    ensures s[..n] + s[n..] == s
  {
  }

  /** A passing message with up to four consecutive bytes changed, its length unchanged, is rejected. */
  lemma BurstRejected(env: Environment, head: seq<byte>, m: seq<byte>, m': seq<byte>, tail: seq<byte>)
    requires |head + m + tail| >= HEADER_LENGTH + 4 && |m| == |m'| <= 4 && m != m'
    requires Decode(env, head + m + tail) != Rejected
    ensures Decode(env, head + m' + tail) == Rejected
  {
    PassesIffZeroResidue(head + m + tail);
    PassesIffZeroResidue(head + m' + tail);
    BurstChangesCrc(head, m, m', tail);
  }

  /** raw_t, apart from the framing. */
  class RawData {
    var obs: seq<Obs>
    var tobs: int
    var time: int
    var lockt: seq<real>
    var halfc: seq<bool>

    function View(): Memory
      reads this
    {
      Memory(obs, tobs, lockt, halfc)
    }

    ghost predicate Valid()
      reads this
    {
      ValidMemory(View())
    }

    /** rawData_Init. */
    constructor ()
      ensures Valid() && View() == Fresh()
    {
      obs, tobs, time := [], 0, 0;
      lockt, halfc := seq(MAXSAT, _ => 0.0), seq(MAXSAT, _ => false);
    }

    /** obsindex: the place of a satellite, made at the end when it has none; -1 once the set is full. */
    method ObsIndex(sat: nat) returns (index: int)
      modifies this`obs
      ensures |old(obs)| >= MAXOBS ==> index == -1 && obs == old(obs)
      ensures |old(obs)| < MAXOBS ==> 0 <= index == Find(old(obs), sat) < |obs|
      ensures |old(obs)| < MAXOBS ==>
                obs == if index < |old(obs)| then old(obs)
                       else old(obs) + [Obs(time, sat, [NO_SIGNAL, NO_SIGNAL, NO_SIGNAL])]
    {
      if |obs| >= MAXOBS {
        return -1;
      }
      var i := 0;
      while i < |obs|
        invariant 0 <= i <= |obs|
        invariant sat !in SatsOf(obs[..i])
      {
        if obs[i].sat == sat {
          FindFirst(obs, sat, i);
          return i;
        }
        assert SatsOf(obs[..i + 1]) == SatsOf(obs[..i]) + [obs[i].sat];
        i := i + 1;
      }
      assert obs[..|obs|] == obs;
      FindNone(obs, sat);
      obs := obs + [Obs(time, sat, [NO_SIGNAL, NO_SIGNAL, NO_SIGNAL])];
      index := i;
    }

    /** The body of decode_rangeb's loop, for one record. */
    method OneRecord(r: Record)
      requires Valid()
      modifies this`obs, this`lockt, this`halfc
      ensures View() == StepRecord(old(View()), time, r) && Valid()
    {
      ghost var was := View();
      StepKeeps(was, time, r);
      var use := UseOf(r);
      if use.Unusable? {
        return;
      }
      var sat := use.sat;
      var lli := LossOfLock(Lock(lockt[sat - 1], halfc[sat - 1]), r, tobs, time);
      lockt := lockt[sat - 1 := r.lockt];
      halfc := halfc[sat - 1 := HalfCycle(r)];
      StoreSignal(sat, Measured(r).(lli := lli));
    }

    /** File a signal in the set. */
    method StoreSignal(sat: nat, s: Signal)
      requires ObsSet(obs)
      modifies this`obs
      ensures obs == File(Current(old(obs), time), time, sat, s)
    {
      if |obs| > 0 && obs[0].time != time {
        obs := [];
      }
      ghost var base := obs;
      var index := ObsIndex(sat);
      if index >= 0 {
        obs := obs[index := Obs(obs[index].time, obs[index].sat, [s] + obs[index].signals[1..])];
        if index < |base| {
          assert [s] + base[index].signals[1..] == [s, NO_SIGNAL, NO_SIGNAL];
        } else {
          assert [s] + [NO_SIGNAL, NO_SIGNAL, NO_SIGNAL][1..] == [s, NO_SIGNAL, NO_SIGNAL];
        }
      }
    }

    /** decode_rangeb: n records of a message whose length has been checked. */
    method DecodeRangeB(env: Environment, s: seq<byte>, n: nat)
      requires Valid() && HEADER_LENGTH + 4 + RECORD_LENGTH * n <= |s|
      modifies this`obs, this`lockt, this`halfc, this`tobs
      ensures View() == RangeMessage(old(View()), time, RecordsOf(env, s, n)) && Valid()
    {
      hide StepRecord, U2, U4, RecordAt;
      ghost var was := View();
      var i := 0;
      while i < n
        invariant 0 <= i <= n && Valid()
        invariant View() == Records(was, time, RecordsOf(env, s, i))
      {
        RecordsNext(env, s, i, was, time);
        OneRecord(RecordAt(env, s, i));
        i := i + 1;
      }
      tobs := time;
    }

    /** decode_oem4 of the first len + 4 bytes of a buffer. */
    method DecodeOem4(env: Environment, buff: array<byte>, len: nat) returns (ret: int)
      requires Valid() && HEADER_LENGTH <= len && len + 4 <= buff.Length
      modifies this
      ensures Valid()
      ensures var d := Decode(env, buff[..len + 4]);
              && ret == (if d.Ranges? then 43 else if d.Ignored? then 0 else -1)
              && View() == (if d.Ranges? then RangeMessage(old(View()), d.time, d.records) else old(View()))
              && (d.Ranges? ==> time == d.time)
    {
      var s := buff[..len + 4];
      var crc := Crc32Of(buff, len);
      assert s[..len] == buff[..len];
      if crc != LsbBits(s[len..]) {
        return -1;
      }
      time := MessageTime(env, s);
      if (s[6] as int) / 16 % 4 != 0 || U2(s, 4) != ID_RANGE {
        return 0;
      }
      var n := U4(s, HEADER_LENGTH);
      if len < HEADER_LENGTH + 4 + n * RECORD_LENGTH {
        return -1;
      }
      DecodeRangeB(env, s, n);
      ret := 43;
    }
  }

  lemma RecordsNext(env: Environment, s: seq<byte>, i: nat, m: Memory, time: int)
    requires HEADER_LENGTH + 4 + RECORD_LENGTH * (i + 1) <= |s| && |m.lockt| == MAXSAT && |m.halfc| == MAXSAT
    ensures Records(m, time, RecordsOf(env, s, i + 1))
         == StepRecord(Records(m, time, RecordsOf(env, s, i)), time, RecordAt(env, s, i))
  {
    hide StepRecord, RecordAt;
    assert RecordsOf(env, s, i + 1)[..i] == RecordsOf(env, s, i);
  }

  /** Find gives the first place of a satellite. */
  lemma {:induction false} FindFirst(obs: seq<Obs>, sat: nat, i: nat)
    requires i < |obs| && obs[i].sat == sat && sat !in SatsOf(obs[..i])
    ensures Find(obs, sat) == i
  {
    var before := obs[..|obs| - 1];
    if i < |before| {
      assert before[..i] == obs[..i];
      FindFirst(before, sat, i);
    } else {
      FindNone(before, sat);
    }
  }
}
