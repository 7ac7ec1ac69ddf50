/** The MSM4 encoder: header, masks, satellite data and signal data written field by field. */
module MsmEncode {
  import opened BitFields
  import opened BitWriter
  import opened MsmIndex
  import opened MsmSignals
  import opened Quantisation
  import Rtcm3
  import opened Satellites
  import TimeScales

  // ---------- header fields ----------

  /** to_lock: the session time indicator. */
  function ToLock(lock: int): (r: nat)
    ensures r <= 127
  {
    if lock < 0 then 0
    else if lock < 24 then lock
    else if lock < 72 then (lock + 24) / 2
    else if lock < 168 then (lock + 120) / 4
    else if lock < 360 then (lock + 408) / 8
    else if lock < 744 then (lock + 1176) / 16
    else if lock < 937 then (lock + 3096) / 32
    else 127
  }

  /** The least time a receiver takes an indicator to mean. */
  function LockFloor(i: nat): int {
    if i < 24 then i
    else if i < 48 then 2 * i - 24
    else if i < 72 then 4 * i - 120
    else if i < 96 then 8 * i - 408
    else if i < 120 then 16 * i - 1176
    else if i < 127 then 32 * i - 3096
    else 937
  }

  /** The indicator is the one whose interval the time lies in; the last interval is open, and a negative
      time counts as none. */
  lemma LockInterval(lock: int)
    ensures lock < 0 ==> ToLock(lock) == 0
    ensures lock >= 0 ==> LockFloor(ToLock(lock)) <= lock
    ensures ToLock(lock) < 127 ==> lock < LockFloor(ToLock(lock) + 1)
  {
    if 744 <= lock < 937 {
      assert 120 <= ToLock(lock) <= 126;
    }
  }

  /** to_msm_lock. */
  function ToMsmLock(lock: int): (r: nat)
    ensures r <= 15
  {
    if lock < 32 then 0
    else if lock < 64 then 1
    else if lock < 128 then 2
    else if lock < 256 then 3
    else if lock < 512 then 4
    else if lock < 1024 then 5
    else if lock < 2048 then 6
    else if lock < 4096 then 7
    else if lock < 8192 then 8
    else if lock < 16384 then 9
    else if lock < 32768 then 10
    else if lock < 65536 then 11
    else if lock < 131072 then 12
    else if lock < 262144 then 13
    else if lock < 524288 then 14
    else 15
  }

  /** Indicators double the lock time they stand for: n from 1 on means at least 16 * 2^n. */
  lemma MsmLockInterval(lock: int)
    ensures var n := ToMsmLock(lock);
            && (n > 0 ==> 16 * Pow2(n) <= lock)
            && (n < 15 ==> lock < 16 * Pow2(n + 1))
  {
    PowersUpTo8();
    assert Pow2(10) == 1024;
    assert Pow2(12) == 4096;
    assert Pow2(14) == 16384;
    assert Pow2(15) == 32768;
  }

  const GPST_TO_BDT := 14000  // ms

  /** time2gpst: the time of week, the week being found by division towards zero. */
  function TimeOfWeek(time: int): int {
    var d := time - TimeScales.GPST0;
    if d >= 0 then d % TimeScales.WEEK else -((-d) % TimeScales.WEEK)
  }

  /** The epoch field. Before the origin of the scale the conversion to unsigned wraps. */
  function Epoch(sys: System, time: int): nat {
    TimeOfWeek(if sys == BeiDou then time - GPST_TO_BDT else time) % U32
  }

  /** Time since the origin of a system's own scale. */
  function SinceOrigin(sys: System, time: int): int {
    time - (if sys == BeiDou then GPST_TO_BDT else 0) - TimeScales.GPST0
  }

  /** From the origin of the scale on, the epoch is the time into the current week, and fits its field. */
  lemma EpochOfWeek(sys: System, time: int)
    requires SinceOrigin(sys, time) >= 0
    ensures Epoch(sys, time) < TimeScales.WEEK < 0x4000_0000
    ensures (SinceOrigin(sys, time) - Epoch(sys, time)) % TimeScales.WEEK == 0
  {
    var d := SinceOrigin(sys, time);
    DivModUnique(d - d % TimeScales.WEEK, TimeScales.WEEK, d / TimeScales.WEEK, 0);
  }

  function MessageType(sys: System): nat {
    if sys == Gps then 1074 else 1124
  }

  datatype Header = Header(sys: System, staid: nat, time: int, sync: nat, seqno: nat, session: int)

  function HeaderFront(h: Header): (r: seq<bool>)
    ensures |r| == 89
  {
    Rtcm3.FrameHead(0) + Field(MessageType(h.sys), 12) + Field(h.staid, 12) + Field(Epoch(h.sys, h.time), 30)
    + Field(h.sync, 1) + Field(h.seqno, 3) + Field(ToLock(h.session), 7)
  }

  /** Clock steering, external clock, smoothing indicator and smoothing interval: all zero. */
  function ClockBits(): (r: seq<bool>)
    ensures |r| == 8
  {
    [] + Field(0, 2) + Field(0, 2) + Field(0, 1) + Field(0, 3)
  }

  function HeaderBits(h: Header): (r: seq<bool>)
    ensures |r| == 97
  {
    HeaderFront(h) + ClockBits()
  }

  // ---------- data fields ----------

  function IntFields(rrng: seq<real>, n: nat): (r: seq<nat>)
    requires n <= |rrng|
    ensures |r| == n
  {
    seq(n, k requires 0 <= k < n => IntMs(rrng[k]))
  }

  function ModFields(rrng: seq<real>, n: nat): (r: seq<nat>)
    requires n <= |rrng|
    ensures |r| == n
  {
    seq(n, k requires 0 <= k < n => ModMs(rrng[k]))
  }

  function PsrFields(psrng: seq<real>, n: nat): (r: seq<int>)
    requires n <= |psrng|
    ensures |r| == n
  {
    seq(n, k requires 0 <= k < n => FinePsr(psrng[k]))
  }

  function PhrFields(phrng: seq<real>, n: nat): (r: seq<int>)
    requires n <= |phrng|
    ensures |r| == n
  {
    seq(n, k requires 0 <= k < n => FinePhr(phrng[k]))
  }

  function LockFields(lock: seq<int>, n: nat): (r: seq<nat>)
    requires n <= |lock|
    ensures |r| == n
  {
    seq(n, k requires 0 <= k < n => ToMsmLock(lock[k]))
  }

  function HalfFields(half: seq<bool>, n: nat): (r: seq<nat>)
    requires n <= |half|
    ensures |r| == n
  {
    seq(n, k requires 0 <= k < n => if half[k] then 1 else 0)
  }

  /** cnr is SNR * 0.25, rounded to whole dBHz. */
  function CnrValue(snr: nat): nat {
    (snr + 2) / 4
  }

  function CnrFields(cnr: seq<nat>, n: nat): (r: seq<nat>)
    requires n <= |cnr|
    ensures |r| == n
  {
    seq(n, k requires 0 <= k < n => CnrValue(cnr[k]))
  }

  lemma CnrValueIsRounded(snr: nat)
    ensures CnrValue(snr) == Round(snr as real * 0.25)
  {
  }

  /** The satellite and signal data after what has been written before them. */
  function DataBits(acc: seq<bool>, rrng: seq<real>, nsat: nat, b: Buffers, ncell: nat): seq<bool>
    requires nsat <= |rrng| && ValidBuffers(b) && ncell <= 64
  {
    acc + FieldsU(IntFields(rrng, nsat), 8) + FieldsU(ModFields(rrng, nsat), 10)
    + FieldsS(PsrFields(b.psrng, ncell), 15) + FieldsS(PhrFields(b.phrng, ncell), 22)
    + FieldsU(LockFields(b.lock, ncell), 4) + FieldsU(HalfFields(b.half, ncell), 1)
    + FieldsU(CnrFields(b.cnr, ncell), 6)
  }

  /** The cell mask as sent: no more than its first 64 bits. */
  function SentCells(m: seq<bool>): (r: seq<bool>)
    ensures |r| == if |m| <= 64 then |m| else 64
  {
    if |m| <= 64 then m else m[..64]
  }

  /** Header and masks. */
  ghost function HeadBits(h: Header, es: seq<Entry>): (r: seq<bool>)
    requires ValidEntries(es)
    ensures |r| == 193 + |SentCells(CellMask(es))|
  {
    HeaderBits(h) + SatMask(es) + SigMask(es) + SentCells(CellMask(es))
  }

  /** A whole MSM4 message, from the preamble to the last signal field. */
  ghost function MessageBits(h: Header, es: seq<Entry>, rrng: seq<real>, b: Buffers): seq<bool>
    requires ValidEntries(es) && |rrng| == 64 && ValidBuffers(b)
  {
    DataBits(HeadBits(h, es), rrng, Sats(es), b, FieldCount(es))
  }

  ghost predicate HeadDone(es: seq<Entry>, nsat: nat, ncell: nat, rrng: seq<real>) {
    ValidEntries(es) && nsat == Sats(es) && ncell == FieldCount(es) && RoughFilled(rrng, es, es)
  }

  // ---------- the loops that write them ----------

  method EmitMask(buff: array<byte>, i0: nat, flags: array<nat>, n: nat, ghost m: seq<bool>, ghost acc: seq<bool>)
      returns (i: nat, ghost out: seq<bool>)
    requires n <= flags.Length && |m| == n && i0 == |acc| && i0 + n <= 8 * buff.Length
    requires flags as object != buff as object
    requires forall k | 0 <= k < n :: (flags[k] != 0) == m[k]
    requires Written(buff[..], acc)
    modifies buff
    ensures out == acc + m && i == |out| && Written(buff[..], out)
  {
    i, out := i0, acc;
    assert acc + m[..0] == acc;
    for j := 0 to n
      invariant out == acc + m[..j] && i == |out|
      invariant forall k | 0 <= k < n :: (flags[k] != 0) == m[k]
      invariant Written(buff[..], out)
    {
      OneBitField(flags[j] != 0);
      assert acc + m[..j + 1] == acc + m[..j] + [m[j]];
      i, out := Emit(buff, i, 1, if flags[j] != 0 then 1 else 0, out);
    }
    assert m[..n] == m;
  }

  lemma OneBitField(v: bool)
    ensures Field(if v then 1 else 0, 1) == [v]
  {
    FieldStep(if v then 1 else 0, 1);
  }

  /** encode_msm_int_rrng. */
  method EncodeIntRrng(buff: array<byte>, i0: nat, rrng: seq<real>, nsat: nat, ghost acc: seq<bool>)
      returns (i: nat, ghost out: seq<bool>)
    requires nsat <= |rrng| && i0 == |acc| && i0 + 8 * nsat <= 8 * buff.Length && Written(buff[..], acc)
    modifies buff
    ensures out == acc + FieldsU(IntFields(rrng, nsat), 8) && i == |out| && Written(buff[..], out)
  {
    i, out := i0, acc;
    ghost var f := IntFields(rrng, nsat);
    for j := 0 to nsat
      invariant out == acc + FieldsU(f[..j], 8) && i == |out| == i0 + 8 * j
      invariant Written(buff[..], out)
    {
      NextFieldU(f, 8, j, acc);
      i, out := Emit(buff, i, 8, IntMs(rrng[j]), out);
    }
    assert f[..nsat] == f;
  }

  lemma NextFieldU(vals: seq<nat>, w: nat, j: nat, acc: seq<bool>)
    requires j < |vals|
    ensures acc + FieldsU(vals[..j + 1], w) == acc + FieldsU(vals[..j], w) + Field(vals[j], w)
  {
    assert vals[..j + 1][..j] == vals[..j];
  }

  lemma NextFieldS(vals: seq<int>, w: nat, j: nat, acc: seq<bool>)
    requires j < |vals| && w > 0
    ensures acc + FieldsS(vals[..j + 1], w) == acc + FieldsS(vals[..j], w) + SField(vals[j], w)
  {
    assert vals[..j + 1][..j] == vals[..j];
  }

  /** encode_msm_mod_rrng. */
  method EncodeModRrng(buff: array<byte>, i0: nat, rrng: seq<real>, nsat: nat, ghost acc: seq<bool>)
      returns (i: nat, ghost out: seq<bool>)
    requires nsat <= |rrng| && i0 == |acc| && i0 + 10 * nsat <= 8 * buff.Length && Written(buff[..], acc)
    modifies buff
    ensures out == acc + FieldsU(ModFields(rrng, nsat), 10) && i == |out| && Written(buff[..], out)
  {
    i, out := i0, acc;
    ghost var f := ModFields(rrng, nsat);
    for j := 0 to nsat
      invariant out == acc + FieldsU(f[..j], 10) && i == |out| == i0 + 10 * j
      invariant Written(buff[..], out)
    {
      NextFieldU(f, 10, j, acc);
      i, out := Emit(buff, i, 10, ModMs(rrng[j]), out);
    }
    assert f[..nsat] == f;
  }

  /** encode_msm_psrng. */
  method EncodePsrng(buff: array<byte>, i0: nat, psrng: seq<real>, ncell: nat, ghost acc: seq<bool>)
      returns (i: nat, ghost out: seq<bool>)
    requires ncell <= |psrng| && i0 == |acc| && i0 + 15 * ncell <= 8 * buff.Length && Written(buff[..], acc)
    modifies buff
    ensures out == acc + FieldsS(PsrFields(psrng, ncell), 15) && i == |out| && Written(buff[..], out)
  {
    i, out := i0, acc;
    ghost var f := PsrFields(psrng, ncell);
    for j := 0 to ncell
      invariant out == acc + FieldsS(f[..j], 15) && i == |out| == i0 + 15 * j
      invariant Written(buff[..], out)
    {
      NextFieldS(f, 15, j, acc);
      i, out := EmitSigned(buff, i, 15, FinePsr(psrng[j]), out);
    }
    assert f[..ncell] == f;
  }

  /** encode_msm_phrng. */
  method EncodePhrng(buff: array<byte>, i0: nat, phrng: seq<real>, ncell: nat, ghost acc: seq<bool>)
      returns (i: nat, ghost out: seq<bool>)
    requires ncell <= |phrng| && i0 == |acc| && i0 + 22 * ncell <= 8 * buff.Length && Written(buff[..], acc)
    modifies buff
    ensures out == acc + FieldsS(PhrFields(phrng, ncell), 22) && i == |out| && Written(buff[..], out)
  {
    i, out := i0, acc;
    ghost var f := PhrFields(phrng, ncell);
    for j := 0 to ncell
      invariant out == acc + FieldsS(f[..j], 22) && i == |out| == i0 + 22 * j
      invariant Written(buff[..], out)
    {
      NextFieldS(f, 22, j, acc);
      i, out := EmitSigned(buff, i, 22, FinePhr(phrng[j]), out);
    }
    assert f[..ncell] == f;
  }

  /** encode_msm_lock. */
  method EncodeLock(buff: array<byte>, i0: nat, lock: seq<int>, ncell: nat, ghost acc: seq<bool>)
      returns (i: nat, ghost out: seq<bool>)
    requires ncell <= |lock| && i0 == |acc| && i0 + 4 * ncell <= 8 * buff.Length && Written(buff[..], acc)
    modifies buff
    ensures out == acc + FieldsU(LockFields(lock, ncell), 4) && i == |out| && Written(buff[..], out)
  {
    i, out := i0, acc;
    ghost var f := LockFields(lock, ncell);
    for j := 0 to ncell
      invariant out == acc + FieldsU(f[..j], 4) && i == |out| == i0 + 4 * j
      invariant Written(buff[..], out)
    {
      NextFieldU(f, 4, j, acc);
      i, out := Emit(buff, i, 4, ToMsmLock(lock[j]), out);
    }
    assert f[..ncell] == f;
  }

  /** encode_msm_half_amb. */
  method EncodeHalfAmb(buff: array<byte>, i0: nat, half: seq<bool>, ncell: nat, ghost acc: seq<bool>)
      returns (i: nat, ghost out: seq<bool>)
    requires ncell <= |half| && i0 == |acc| && i0 + ncell <= 8 * buff.Length && Written(buff[..], acc)
    modifies buff
    ensures out == acc + FieldsU(HalfFields(half, ncell), 1) && i == |out| && Written(buff[..], out)
  {
    i, out := i0, acc;
    ghost var f := HalfFields(half, ncell);
    for j := 0 to ncell
      invariant out == acc + FieldsU(f[..j], 1) && i == |out| == i0 + j
      invariant Written(buff[..], out)
    {
      NextFieldU(f, 1, j, acc);
      i, out := Emit(buff, i, 1, if half[j] then 1 else 0, out);
    }
    assert f[..ncell] == f;
  }

  /** encode_msm_cnr. */
  method EncodeCnr(buff: array<byte>, i0: nat, cnr: seq<nat>, ncell: nat, ghost acc: seq<bool>)
      returns (i: nat, ghost out: seq<bool>)
    requires ncell <= |cnr| && i0 == |acc| && i0 + 6 * ncell <= 8 * buff.Length && Written(buff[..], acc)
    modifies buff
    ensures out == acc + FieldsU(CnrFields(cnr, ncell), 6) && i == |out| && Written(buff[..], out)
  {
    i, out := i0, acc;
    ghost var f := CnrFields(cnr, ncell);
    for j := 0 to ncell
      invariant out == acc + FieldsU(f[..j], 6) && i == |out| == i0 + 6 * j
      invariant Written(buff[..], out)
    {
      NextFieldU(f, 6, j, acc);
      i, out := Emit(buff, i, 6, CnrValue(cnr[j]), out);
    }
    assert f[..ncell] == f;
  }

  /** The fixed header fields, the cumulative session time already at hand. */
  method WriteHeader(buff: array<byte>, h: Header) returns (i: nat, ghost out: seq<bool>)
    requires buff.Length == 1200 && Written(buff[..], Rtcm3.FrameHead(0))
    modifies buff
    ensures out == HeaderBits(h) && i == |out| && Written(buff[..], out)
  {
    i, out := 24, Rtcm3.FrameHead(0);
    i, out := Emit(buff, i, 12, MessageType(h.sys), out);
    i, out := Emit(buff, i, 12, h.staid, out);
    i, out := Emit(buff, i, 30, Epoch(h.sys, h.time), out);
    i, out := Emit(buff, i, 1, h.sync, out);
    i, out := Emit(buff, i, 3, h.seqno, out);
    i, out := Emit(buff, i, 7, ToLock(h.session), out);
    assert out == HeaderFront(h);
    i, out := EncodeClock(buff, i, out);
  }

  /** The clock and smoothing fields. */
  method EncodeClock(buff: array<byte>, i0: nat, ghost acc: seq<bool>) returns (i: nat, ghost out: seq<bool>)
    requires i0 == |acc| && i0 + 8 <= 8 * buff.Length && Written(buff[..], acc)
    modifies buff
    ensures out == acc + ClockBits() && i == |out| && Written(buff[..], out)
  {
    i, out := Emit(buff, i0, 2, 0, acc);
    i, out := Emit(buff, i, 2, 0, out);
    i, out := Emit(buff, i, 1, 0, out);
    i, out := Emit(buff, i, 3, 0, out);
  }

  /** The satellite and signal data of encode_msm4. */
  method EncodeData(buff: array<byte>, i0: nat, rrng: seq<real>, nsat: nat, b: Buffers, ncell: nat,
                    ghost acc: seq<bool>)
      returns (i: nat, ghost out: seq<bool>)
    requires buff.Length == 1200 && i0 == |acc| <= 257 && Written(buff[..], acc)
    requires nsat <= 64 == |rrng| && ValidBuffers(b) && ncell <= 64
    modifies buff
    ensures out == DataBits(acc, rrng, nsat, b, ncell)
    ensures i == |out| && Written(buff[..], out)
  {
    i, out := EncodeIntRrng(buff, i0, rrng, nsat, acc);
    i, out := EncodeModRrng(buff, i, rrng, nsat, out);
    i, out := EncodePsrng(buff, i, b.psrng, ncell, out);
    i, out := EncodePhrng(buff, i, b.phrng, ncell, out);
    i, out := EncodeLock(buff, i, b.lock, ncell, out);
    i, out := EncodeHalfAmb(buff, i, b.half, ncell, out);
    i, out := EncodeCnr(buff, i, b.cnr, ncell, out);
  }

  /** rtcm_t. The offsets and lock times are kept by the tracker; times are in ms. */
  class Rtcm {
    const buff: array<byte>
    const tracker: Tracker
    var staid: nat
    var seqno: nat
    var time: int
    var timeS: int
    var obs: seq<Obs>
    var nbit: nat
    var len: nat
    var nbyte: nat

    ghost predicate Valid()
      reads this, tracker
    {
      buff.Length == 1200 && tracker.Valid() && ValidList(obs)
    }

    /** DgnssData_Init. */
    constructor ()
      ensures Valid() && fresh(buff) && fresh(tracker)
      ensures tracker.View() == Track(seq(SLOTS, _ => 0.0), seq(SLOTS, _ => 0))
      ensures obs == [] && staid == 0 && seqno == 0 && timeS == 0
    {
      buff := new byte[1200](_ => 0);
      tracker := new Tracker();
      staid, seqno, time, timeS, obs, nbit, len, nbyte := 0, 0, 0, 0, [], 0, 0, 0;
    }

    /** The session start after locktime(time, &time_s, 0). */
    ghost function SessionStart(): int
      reads this
    {
      LockStart(time, timeS, false)
    }

    ghost function HeaderOf(sys: System, sync: nat): Header
      reads this
    {
      Header(sys, staid, time, sync, seqno, WholeSeconds(time - SessionStart()))
    }

    /** The fixed fields of encode_msm_head. */
    method EncodeHeader(sys: System, sync: nat) returns (i: nat, ghost out: seq<bool>)
      requires Valid() && Written(buff[..], Rtcm3.FrameHead(0))
      modifies this`timeS, buff
      ensures timeS == old(SessionStart())
      ensures out == HeaderBits(old(HeaderOf(sys, sync))) && i == |out| && Written(buff[..], out)
    {
      ghost var expected := HeaderOf(sys, sync);
      if Unset(timeS) {
        timeS := time;
      }
      var h := Header(sys, staid, time, sync, seqno, WholeSeconds(time - timeS));
      assert h == expected;
      i, out := WriteHeader(buff, h);
    }

    /** encode_msm_head: everything it computes and writes is a function of the header, the observations
        and the tracked state. */
    method EncodeMsmHead(sys: System, sync: nat, stack: Buffers)
        returns (i: nat, nsat: nat, ncell: nat, rrng: seq<real>, b: Buffers, ghost out: seq<bool>)
      requires Valid() && (sys == Gps || sys == BeiDou) && ValidBuffers(stack)
      requires Written(buff[..], Rtcm3.FrameHead(0))
      modifies this`timeS, tracker, buff
      ensures Valid() && timeS == old(SessionStart())
      ensures HeadDone(Entries(sys, obs), nsat, ncell, rrng)
      ensures State(tracker.View(), b) == EpochState(sys, Entries(sys, obs), old(tracker.View()), stack)
      ensures out == HeadBits(old(HeaderOf(sys, sync)), Entries(sys, obs))
      ensures i == |out| && Written(buff[..], out)
    {
      var satInd, sigInd, cellInd, nsig;
      i, nsat, nsig, ncell, satInd, sigInd, cellInd, out := EncodeIndex(sys, sync);
      rrng := GenMsmSat(sys, obs, satInd);
      b := tracker.GenMsmSig(sys, obs, nsig, ncell, satInd, sigInd, cellInd, rrng, stack);
    }

    /** Its first half: the header fields and the masks. */
    method EncodeIndex(sys: System, sync: nat)
        returns (i: nat, nsat: nat, nsig: nat, ncell: nat, satInd: array<nat>, sigInd: array<nat>,
                 cellInd: array<nat>, ghost out: seq<bool>)
      requires Valid() && (sys == Gps || sys == BeiDou)
      requires Written(buff[..], Rtcm3.FrameHead(0))
      modifies this`timeS, buff
      ensures timeS == old(SessionStart())
      ensures fresh(satInd) && fresh(sigInd) && fresh(cellInd)
      ensures var es := Entries(sys, obs);
              && ValidEntries(es) && nsat == Sats(es) && ncell == FieldCount(es)
              && Numbered(satInd[..], sigInd[..], nsig, es) && CellsNumbered(cellInd[..], es)
              && out == HeadBits(old(HeaderOf(sys, sync)), es)
      ensures i == |out| && Written(buff[..], out)
    {
      satInd, sigInd, cellInd := new nat[64](_ => 0), new nat[32](_ => 0), new nat[2048](_ => 0);
      nsat, nsig, ncell := GenMsmIndex(sys, obs, satInd, sigInd, cellInd);
      i, out := EncodeHeader(sys, sync);
      i, out := EncodeMasks(nsat, nsig, satInd, sigInd, cellInd, i, Entries(sys, obs), out);
    }

    /** encode_msm4. */
    method EncodeMsm4(sys: System, sync: nat, stack: Buffers)
        returns (ghost out: seq<bool>, ghost rrng: seq<real>, ghost b: Buffers)
      requires Valid() && (sys == Gps || sys == BeiDou) && ValidBuffers(stack)
      requires Written(buff[..], Rtcm3.FrameHead(0))
      modifies this`timeS, this`nbit, tracker, buff
      ensures Valid() && timeS == old(SessionStart())
      ensures var es := Entries(sys, obs);
              && ValidEntries(es)
              && RoughFilled(rrng, es, es)
              && State(tracker.View(), b) == EpochState(sys, es, old(tracker.View()), stack)
              && out == MessageBits(old(HeaderOf(sys, sync)), es, rrng, b)
      ensures nbit == |out| && Written(buff[..], out)
    {
      var i, nsat, ncell, rough, bufs;
      i, nsat, ncell, rough, bufs, out := EncodeMsmHead(sys, sync, stack);
      rrng, b := rough, bufs;
      i, out := EncodeData(buff, i, rough, nsat, bufs, ncell, out);
      nbit := i;
    }

    /** The three masks; the cell mask stops at its 64th bit. */
    method EncodeMasks(nsat: nat, nsig: nat, satInd: array<nat>, sigInd: array<nat>, cellInd: array<nat>,
                       i0: nat, ghost es: seq<Entry>, ghost acc: seq<bool>)
        returns (i: nat, ghost out: seq<bool>)
      requires buff.Length == 1200 && Written(buff[..], acc) && i0 == |acc| == 97
      requires ValidEntries(es) && Numbered(satInd[..], sigInd[..], nsig, es) && CellsNumbered(cellInd[..], es)
      requires nsat == Sats(es)
      requires satInd as object != buff && sigInd as object != buff && cellInd as object != buff
      modifies buff
      ensures out == acc + SatMask(es) + SigMask(es) + SentCells(CellMask(es)) && i == |out|
      ensures Written(buff[..], out)
    {
      i, out := EmitMask(buff, i0, satInd, 64, SatMask(es), acc);
      i, out := EmitMask(buff, i, sigInd, 32, SigMask(es), out);
      MulMonotone(0, nsat, nsig);
      var n := if nsat * nsig < 64 then nsat * nsig else 64;
      i, out := EmitMask(buff, i, cellInd, n, SentCells(CellMask(es)), out);
    }
  }
}
