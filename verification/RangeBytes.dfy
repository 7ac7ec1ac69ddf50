/** Range messages byte by byte: a message laid out as the receiver sends it, and what the server makes of
    the values written in it, in the field positions and bit numbers of the format. */
module RangeBytes {
  import opened BitFields
  import opened Crc32
  import opened CrcDivision
  import opened MsmIndex
  import opened ObservationFold
  import opened Observations
  import opened Oem4Framing
  import opened RangeDecoder
  import opened Satellites

  // ---------- the layout ----------

  /** One record: numbers as they are meant, floats as their bytes. */
  datatype Written = Written(prn: nat, channel: seq<byte>, psr: seq<byte>, psrDev: seq<byte>, adr: seq<byte>,
                             adrDev: seq<byte>, doppler: seq<byte>, snr: seq<byte>, lockt: seq<byte>, status: nat)

  predicate ValidWritten(w: Written) {
    && w.prn < 65536 && |w.channel| == 2 && |w.psr| == 8 && |w.psrDev| == 4 && |w.adr| == 8
    && |w.adrDev| == 4 && |w.doppler| == 4 && |w.snr| == 4 && |w.lockt| == 4 && w.status < U32
  }

  function Le2(n: nat): (r: seq<byte>)
    ensures |r| == 2
  {
    [ByteFor(n), ByteFor(n / 256)]
  }

  function Le4(n: nat): (r: seq<byte>)
    ensures |r| == 4
  {
    Le2(n) + Le2(n / 65536)
  }

  /** PRN at 0, pseudorange at 4, carrier range at 16, strength at 32, lock time at 36, status at 40. */
  function RecordBytes(w: Written): (r: seq<byte>)
    requires ValidWritten(w)
    ensures |r| == 44
  {
    Le2(w.prn) + w.channel + w.psr + w.psrDev + w.adr + w.adrDev + w.doppler + w.snr + w.lockt + Le4(w.status)
  }

  function RecordsBytes(ws: seq<Written>): (r: seq<byte>)
    requires forall w | w in ws :: ValidWritten(w)
    ensures |r| == 44 * |ws|
  {
    if |ws| == 0 then [] else RecordsBytes(ws[..|ws| - 1]) + RecordBytes(ws[|ws| - 1])
  }

  /** The header of a message, but for its identifier and its length. */
  datatype Front = Front(headerLength: byte, format: byte, port: byte, sequence: seq<byte>, idle: byte,
                         quality: byte, week: nat, tow: nat, rest: seq<byte>)

  predicate ValidFront(f: Front) {
    |f.sequence| == 2 && |f.rest| == 8 && f.week < 65536 && f.tow < U32 && f.format & 0x30 == 0
  }

  /** Identifier 43 at 4, format at 6, length at 8, week at 14, milliseconds of the week at 16. */
  function HeaderBytes(f: Front, length: nat): (r: seq<byte>)
    requires ValidFront(f)
    ensures |r| == 28
  {
    [0xAA, 0x44, 0x12, f.headerLength, 43, 0, f.format, f.port] + Le2(length) + f.sequence + [f.idle, f.quality]
    + Le2(f.week) + Le4(f.tow) + f.rest
  }

  function BodyBytes(ws: seq<Written>): (r: seq<byte>)
    requires forall w | w in ws :: ValidWritten(w)
    ensures |r| == 4 + 44 * |ws|
  {
    Le4(|ws|) + RecordsBytes(ws)
  }

  /** A message whose last four bytes are the CRC-32 of the others, low byte first. */
  predicate ValidMessage(f: Front, ws: seq<Written>, crc: seq<byte>) {
    && ValidFront(f) && (forall w | w in ws :: ValidWritten(w)) && 32 + 44 * |ws| <= 4092
    && |crc| == 4
    && LsbBits(crc) == Parity(GENERATOR32, LsbBits(HeaderBytes(f, 4 + 44 * |ws|) + BodyBytes(ws)))
  }

  function MessageBytes(f: Front, ws: seq<Written>, crc: seq<byte>): (r: seq<byte>)
    requires ValidMessage(f, ws, crc)
    ensures |r| == 36 + 44 * |ws|
  {
    HeaderBytes(f, 4 + 44 * |ws|) + BodyBytes(ws) + crc
  }

  // ---------- reading it back ----------

  lemma ReadLe2(n: nat)
    ensures U2(Le2(n), 0) == n % 65536
  {
    hide ByteFor;
    TwoDigits(n);
  }

  lemma TwoDigits(n: nat)
    ensures n % 65536 == n % 256 + 256 * (n / 256 % 256)
  {
    DivModUnique(n, 65536, n / 256 / 256, n % 256 + 256 * (n / 256 % 256));
  }

  lemma ReadLe4(n: nat)
    requires n < U32
    ensures U4(Le4(n), 0) == n
  {
    hide Le2, U2;
    ReadLe2(n);
    ReadLe2(n / 65536);
    Slice2(Le4(n), 2);
    Slice2(Le4(n), 0);
    assert Le4(n)[0..2] == Le2(n) && Le4(n)[2..4] == Le2(n / 65536);
  }

  lemma Slice2(s: seq<byte>, p: nat)
    requires p + 2 <= |s|
    ensures U2(s, p) == U2(s[p..p + 2], 0)
  {
  }

  lemma Slice4(s: seq<byte>, p: nat)
    requires p + 4 <= |s|
    ensures U4(s, p) == U4(s[p..p + 4], 0)
  {
    hide U2;
    Slice2(s, p);
    Slice2(s, p + 2);
    Slice2(s[p..p + 4], 0);
    Slice2(s[p..p + 4], 2);
    assert s[p..p + 4][0..2] == s[p..p + 2] && s[p..p + 4][2..4] == s[p + 2..p + 4];
  }

  lemma RecordLayout(w: Written)
    requires ValidWritten(w)
    ensures var r := RecordBytes(w);
            && r[0..2] == Le2(w.prn) && r[4..12] == w.psr && r[16..24] == w.adr && r[32..36] == w.snr
            && r[36..40] == w.lockt && r[40..44] == Le4(w.status)
  {
    hide Le2, Le4;
  }

  /** The record as it is meant. */
  function Read(env: Environment, w: Written): Record {
    Record(w.prn, w.status, env.double(w.psr), env.double(w.adr), env.single(w.snr), env.single(w.lockt))
  }

  function ReadAll(env: Environment, ws: seq<Written>): (rs: seq<Record>)
    ensures |rs| == |ws|
  {
    seq(|ws|, i requires 0 <= i < |ws| => Read(env, ws[i]))
  }

  lemma RecordRead(env: Environment, s: seq<byte>, w: Written, i: nat)
    requires ValidWritten(w) && 32 + 44 * (i + 1) <= |s| && s[32 + 44 * i..76 + 44 * i] == RecordBytes(w)
    ensures RecordAt(env, s, i) == Read(env, w)
  {
    hide RecordBytes, U2, U4, Le2, Le4;
    var p, r := 32 + 44 * i, RecordBytes(w);
    RecordLayout(w);
    SubSlice(s, p, 44, 0, 2);
    SubSlice(s, p, 44, 4, 12);
    SubSlice(s, p, 44, 16, 24);
    SubSlice(s, p, 44, 32, 36);
    SubSlice(s, p, 44, 36, 40);
    SubSlice(s, p, 44, 40, 44);
    Slice2(s, p);
    Slice4(s, p + 40);
    ReadLe2(w.prn);
    ReadLe4(w.status);
  }

  lemma SubSlice(s: seq<byte>, p: nat, n: nat, i: nat, j: nat)
    requires p + n <= |s| && i <= j <= n
    ensures s[p..p + n][i..j] == s[p + i..p + j]
  {
    var x, y := s[p..p + n][i..j], s[p + i..p + j];
    assert |x| == |y|;
    forall k | 0 <= k < |x|
      ensures x[k] == y[k]
    {
    }
  }

  lemma SliceOfFirst(a: seq<byte>, b: seq<byte>, i: nat, j: nat)
    requires i <= j <= |a|
    ensures (a + b)[i..j] == a[i..j]
  {
  }

  lemma SliceOfSecond(a: seq<byte>, b: seq<byte>)
    ensures (a + b)[|a|..|a| + |b|] == b
  {
  }

  lemma {:induction false} RecordPlace(ws: seq<Written>, i: nat)
    requires i < |ws| && forall w | w in ws :: ValidWritten(w)
    ensures RecordsBytes(ws)[44 * i..44 * i + 44] == RecordBytes(ws[i])
  {
    hide RecordBytes;
    var before, last := ws[..|ws| - 1], ws[|ws| - 1];
    assert RecordsBytes(ws) == RecordsBytes(before) + RecordBytes(last);
    if i < |before| {
      RecordPlace(before, i);
      SliceOfFirst(RecordsBytes(before), RecordBytes(last), 44 * i, 44 * i + 44);
    } else {
      SliceOfSecond(RecordsBytes(before), RecordBytes(last));
    }
  }

  lemma {:induction false} RecordsRead(env: Environment, s: seq<byte>, ws: seq<Written>, n: nat)
    requires n <= |ws| && 32 + 44 * |ws| <= |s| && forall w | w in ws :: ValidWritten(w)
    requires s[32..32 + 44 * |ws|] == RecordsBytes(ws)
    ensures RecordsOf(env, s, n) == ReadAll(env, ws)[..n]
  {
    hide RecordsBytes, RecordAt, Read, RecordBytes;
    if n > 0 {
      RecordsRead(env, s, ws, n - 1);
      RecordPlace(ws, n - 1);
      SubSlice(s, 32, 44 * |ws|, 44 * (n - 1), 44 * n);
      RecordRead(env, s, ws[n - 1], n - 1);
    }
  }

  lemma FrontRead(f: Front, length: nat, more: seq<byte>)
    requires ValidFront(f) && length < 65536
    ensures var s := HeaderBytes(f, length) + more;
            && s[6] == f.format && U2(s, 4) == 43 && U2(s, 14) == f.week && U4(s, 16) == f.tow
            && s[0] == 0xAA && s[1] == 0x44 && s[2] == 0x12 && U2(s, 8) == length
  {
    hide U2, U4, Le2, Le4;
    var s := HeaderBytes(f, length) + more;
    assert s[4..6] == [43, 0] && s[8..10] == Le2(length) && s[14..16] == Le2(f.week) && s[16..20] == Le4(f.tow);
    Slice2(s, 4);
    Slice2(s, 8);
    Slice2(s, 14);
    Slice4(s, 16);
    Identifier();
    ReadLe2(length);
    ReadLe2(f.week);
    ReadLe4(f.tow);
  }

  lemma Identifier()
    ensures U2([43, 0], 0) == 43
  {
  }

  // ---------- what a message decodes to ----------

  /** A message of any valid values is found by the framing, and decodes to the records meant, at the time
      of its week and milliseconds on the scale that begins on 6 January 1980. */
  lemma MessageDecodes(env: Environment, f: Front, ws: seq<Written>, crc: seq<byte>)
    requires ValidMessage(f, ws, crc)
    ensures LaidOut(HeaderBytes(f, 4 + 44 * |ws|), BodyBytes(ws), crc)
    ensures Decode(env, MessageBytes(f, ws, crc))
         == Ranges(315964800000 + env.week(f.week) * 604800000 + f.tow, ReadAll(env, ws))
  {
    hide U2, U4, HeaderBytes, BodyBytes, ValidMessage, MessageBytes, RecordsOf, ReadAll, CrcGood, LaidOut;
    var s := MessageBytes(f, ws, crc);
    MessageIsLaidOut(f, ws, crc);
    MessageFields(f, ws, crc);
    MessageRecords(env, f, ws, crc);
    FormatBits(s[6]);
  }

  lemma MessageFields(f: Front, ws: seq<Written>, crc: seq<byte>)
    requires ValidMessage(f, ws, crc)
    ensures var s := MessageBytes(f, ws, crc);
            && s[6] & 0x30 == 0 && U2(s, 4) == 43 && U2(s, 14) == f.week && U4(s, 16) == f.tow && U4(s, 28) == |ws|
            && CrcGood(s)
  {
    hide U2, U4, HeaderBytes, LsbBits, Parity, Crc, RecordsBytes, Le4;
    var h, b := HeaderBytes(f, 4 + 44 * |ws|), BodyBytes(ws);
    assert MessageBytes(f, ws, crc) == h + (b + crc);
    FrontRead(f, 4 + 44 * |ws|, b + crc);
    BodyPlace(h, Le4(|ws|), RecordsBytes(ws), crc);
    Slice4(MessageBytes(f, ws, crc), 28);
    ReadLe4(|ws|);
    CrcIsGood(h + b, crc);
  }

  lemma MessageRecords(env: Environment, f: Front, ws: seq<Written>, crc: seq<byte>)
    requires ValidMessage(f, ws, crc)
    ensures RecordsOf(env, MessageBytes(f, ws, crc), |ws|) == ReadAll(env, ws)
  {
    hide RecordsOf, ReadAll, HeaderBytes, LsbBits, Parity, RecordsBytes, Le4;
    BodyPlace(HeaderBytes(f, 4 + 44 * |ws|), Le4(|ws|), RecordsBytes(ws), crc);
    RecordsRead(env, MessageBytes(f, ws, crc), ws, |ws|);
    assert ReadAll(env, ws)[..|ws|] == ReadAll(env, ws);
  }

  lemma BodyPlace(h: seq<byte>, n: seq<byte>, r: seq<byte>, crc: seq<byte>)
    requires |h| == 28 && |n| == 4
    ensures var s := h + (n + r) + crc;
            s[28..32] == n && s[32..32 + |r|] == r
  {
  }

  lemma CrcIsGood(s: seq<byte>, crc: seq<byte>)
    requires |crc| == 4 && LsbBits(crc) == Parity(GENERATOR32, LsbBits(s))
    ensures CrcGood(s + crc)
  {
    hide Crc, LsbBits, Parity;
    RegisterIsParity(s);
    assert (s + crc)[..|s + crc| - 4] == s && (s + crc)[|s + crc| - 4..] == crc;
  }

  lemma MessageIsLaidOut(f: Front, ws: seq<Written>, crc: seq<byte>)
    requires ValidMessage(f, ws, crc)
    ensures LaidOut(HeaderBytes(f, 4 + 44 * |ws|), BodyBytes(ws), crc)
  {
    hide RecordsBytes, Le2, Le4, Parity, LsbBits, HeaderBytes, LengthBytes;
    HeaderPlaces(f, 4 + 44 * |ws|);
    LengthWritten(4 + 44 * |ws|);
  }

  lemma HeaderPlaces(f: Front, length: nat)
    requires ValidFront(f)
    ensures var h := HeaderBytes(f, length);
            h[0] == 0xAA && h[1] == 0x44 && h[2] == 0x12 && h[8] == Le2(length)[0] && h[9] == Le2(length)[1]
  {
    hide Le2, Le4;
  }

  lemma LengthWritten(n: nat)
    requires n < 65536
    ensures LengthBytes(Le2(n)[0] as int, Le2(n)[1] as int, n)
  {
    hide ByteFor;
    assert n / 256 % 256 == n / 256;
  }

  /** A message that passes the CRC is ignored when bits 4 and 5 of byte 6 or the identifier in bytes 4 and 5
      are others, and has the wrong length when it is shorter than its count of records requires. */
  lemma OtherMessages(env: Environment, s: seq<byte>)
    requires |s| >= 32
    ensures Decode(env, s).Rejected? <==> Parity(GENERATOR32, LsbBits(s[..|s| - 4])) != LsbBits(s[|s| - 4..])
    ensures Decode(env, s).Ignored?
       <==> !Decode(env, s).Rejected? && (s[6] & 0x30 != 0 || s[4] != 43 || s[5] != 0)
    ensures Decode(env, s).BadLength?
       <==> !Decode(env, s).Rejected? && !Decode(env, s).Ignored? && |s| < 36 + 44 * U4(s, 28)
  {
    hide Crc, LsbBits, Parity, RecordsOf, U4;
    RegisterIsParity(s[..|s| - 4]);
    FormatBits(s[6]);
    IdentifierBytes(s[4], s[5]);
  }

  lemma FormatBits(b: byte)
    ensures (b as int) / 16 % 4 == 0 <==> b & 0x30 == 0
  {
    var high, format, low := b >> 6, (b >> 4) & 3, b & 15;
    assert b as int == 64 * (high as int) + 16 * (format as int) + low as int;
    assert format as int < 4 && low as int < 16;
    assert (b as int) / 16 % 4 == format as int;
    assert format == 0 <==> b & 0x30 == 0;
  }

  lemma IdentifierBytes(a: byte, b: byte)
    ensures a as int + 256 * (b as int) == 43 <==> a == 43 && b == 0
  {
  }

  // ---------- what is filed ----------

  /** The satellite a record counts for: GPS by its PRN, BeiDou by its PRN less 77; 0 for none. */
  function Satellite(w: Written): nat {
    var system, signal := w.status / 65536 % 8, w.status / 2097152 % 32;
    if system == 0 && signal == 0 && 1 <= w.prn <= 32 then w.prn
    else if system == 4 && (signal == 0 || signal == 4) && 161 <= w.prn <= 197 then w.prn - 77
    else 0
  }

  /** What a record says of its signal, when its satellite was last seen with the lock was and the last
      message was of time tobs: the pseudorange if bit 12 of the status is set, the carrier range with its
      sign turned if bit 10 is, the strength in quarters; flag 2 for an unknown parity, bit 11, and flag 1
      for a lock time that has not grown with the clock or a change of bit 28. */
  ghost predicate Says(env: Environment, w: Written, was: Lock, tobs: int, time: int, s: Signal) {
    var snr, lockt := env.single(w.snr), env.single(w.lockt);
    && s.range == (if w.status / 0x1000 % 2 == 1 then env.double(w.psr) else 0.0)
    && s.phase == (if w.status / 0x400 % 2 == 1 then -env.double(w.adr) else 0.0)
    && s.code == (if Satellite(w) < 84 then 1 else 47)
    && (0.0 <= snr < 63.875 ==> -0.5 <= 4.0 * snr - s.snr as real < 0.5)
    && (snr < 0.0 || 255.0 <= snr ==> s.snr == 0)
    && s.lli < 4
    && (s.lli / 2 == 1 <==> w.status / 0x800 % 2 == 0)
    && (s.lli % 2 == 1 <==>
          && tobs / 1000 != 0
          && (|| lockt - was.lockt + 0.05 <= (time - tobs) as real / 1000.0
              || (w.status / 0x1000_0000 % 2 == 1) != was.halfc))
  }

  lemma UseOfWritten(env: Environment, w: Written)
    ensures UseOf(Read(env, w))
         == if Satellite(w) == 0 then Unusable else Use(Satellite(w), if Satellite(w) < 84 then 1 else 47)
  {
  }

  lemma SignalSays(env: Environment, m: Memory, time: int, before: seq<Record>, w: Written)
    requires |m.lockt| == MAXSAT && |m.halfc| == MAXSAT && UseOf(Read(env, w)).Use?
    ensures Satellite(w) == UseOf(Read(env, w)).sat
    ensures Says(env, w, LastLock(m, before, Satellite(w)), m.tobs, time, SignalOf(m, time, before, Read(env, w)))
  {
    hide LastLock, UseOf;
    UseOfWritten(env, w);
  }

  /** The record i is the last of its satellite among the first n. */
  ghost predicate LastOf(ws: seq<Written>, n: nat, i: nat) {
    i < n <= |ws| && forall j | i < j < n :: Satellite(ws[j]) != Satellite(ws[i])
  }

  /** What is remembered of a satellite before the i-th record: what its last record before says, or what
      was remembered before the message. */
  ghost predicate Seen(env: Environment, m: Memory, ws: seq<Written>, i: nat, sat: nat, was: Lock)
    requires |m.lockt| == MAXSAT && |m.halfc| == MAXSAT && 1 <= sat <= MAXSAT && i <= |ws|
  {
    && ((forall j | 0 <= j < i :: Satellite(ws[j]) != sat) ==> was == Lock(m.lockt[sat - 1], m.halfc[sat - 1]))
    && forall j: nat | LastOf(ws, i, j) && Satellite(ws[j]) == sat ::
         was == Lock(env.single(ws[j].lockt), ws[j].status / 0x1000_0000 % 2 == 1)
  }

  lemma {:induction false} LockSeen(env: Environment, m: Memory, ws: seq<Written>, i: nat, sat: nat)
    requires |m.lockt| == MAXSAT && |m.halfc| == MAXSAT && 1 <= sat <= MAXSAT && i <= |ws|
    ensures Seen(env, m, ws, i, sat, LastLock(m, ReadAll(env, ws)[..i], sat))
  {
    hide UseOf, Satellite, HalfCycle, Seen;
    var rs := ReadAll(env, ws);
    if i == 0 {
      NothingSeen(env, m, ws, sat);
    } else {
      LockSeen(env, m, ws, i - 1, sat);
      UseOfWritten(env, ws[i - 1]);
      HalfOf(env, ws[i - 1]);
      assert rs[..i][..i - 1] == rs[..i - 1] && rs[..i][i - 1] == Read(env, ws[i - 1]);
      SeenNext(env, m, ws, i, sat, LastLock(m, rs[..i - 1], sat));
    }
  }

  lemma NothingSeen(env: Environment, m: Memory, ws: seq<Written>, sat: nat)
    requires |m.lockt| == MAXSAT && |m.halfc| == MAXSAT && 1 <= sat <= MAXSAT
    ensures Seen(env, m, ws, 0, sat, LockOf(m, sat))
  {
  }

  lemma SeenNext(env: Environment, m: Memory, ws: seq<Written>, i: nat, sat: nat, was: Lock)
    requires |m.lockt| == MAXSAT && |m.halfc| == MAXSAT && 1 <= sat <= MAXSAT && 0 < i <= |ws|
    requires Seen(env, m, ws, i - 1, sat, was)
    ensures var last := ws[i - 1];
            Seen(env, m, ws, i, sat, if Satellite(last) != sat then was
                                     else Lock(env.single(last.lockt), last.status / 0x1000_0000 % 2 == 1))
  {
    hide Satellite;
    var last := ws[i - 1];
    var now := if Satellite(last) != sat then was
               else Lock(env.single(last.lockt), last.status / 0x1000_0000 % 2 == 1);
    forall j: nat | LastOf(ws, i, j) && Satellite(ws[j]) == sat
      ensures now == Lock(env.single(ws[j].lockt), ws[j].status / 0x1000_0000 % 2 == 1)
    {
      if j < i - 1 {
        assert LastOf(ws, i - 1, j);
      }
    }
  }

  lemma HalfOf(env: Environment, w: Written)
    ensures HalfCycle(Read(env, w)) == (w.status / 0x1000_0000 % 2 == 1)
  {
  }

  /** How many records of a message count for a memory: all up to the one that fills the set. */
  function CountedOf(env: Environment, m: Memory, time: int, ws: seq<Written>): (p: nat)
    ensures p <= |ws|
  {
    Counted(SatsOf(Current(m.obs, time)), ReadAll(env, ws))
  }

  /** The set holds the signal that record i says. */
  ghost predicate Holds(env: Environment, m: Memory, time: int, ws: seq<Written>, i: nat, obs: seq<Obs>, was: Lock)
    requires i < |ws|
  {
    exists k :: 0 <= k < |obs| && obs[k].sat == Satellite(ws[i]) && obs[k].time == time && |obs[k].signals| == NFREQ
                && Says(env, ws[i], was, m.tobs, time, obs[k].signals[0])
  }

  /** Of every satellite the set holds what its last record says, as far as the records count. */
  lemma MessageFiles(env: Environment, m: Memory, time: int, ws: seq<Written>, i: nat) returns (was: Lock)
    requires ValidMemory(m) && LastOf(ws, CountedOf(env, m, time, ws), i) && Satellite(ws[i]) != 0
    ensures 1 <= Satellite(ws[i]) <= MAXSAT && Seen(env, m, ws, i, Satellite(ws[i]), was)
    ensures Holds(env, m, time, ws, i, RangeMessage(m, time, ReadAll(env, ws)).obs, was)
  {
    hide LastSignal, Held, Says, Seen, Satellite, UseOf, SignalOf, Counted;
    var rs, p, w, sat := ReadAll(env, ws), CountedOf(env, m, time, ws), ws[i], Satellite(ws[i]);
    UseOfWritten(env, w);
    SatelliteInRange(w);
    was := LastLock(m, rs[..i], sat);
    LockSeen(env, m, ws, i, sat);
    SignalSays(env, m, time, rs[..i], w);
    LastCounts(env, m, time, ws, i, p);
    SomeUsable(rs, i);
    MessageResult(m, time, rs);
    HeldAt(Records(m, time, rs).obs, sat);
  }

  lemma SatelliteInRange(w: Written)
    ensures Satellite(w) <= MAXSAT
  {
  }

  lemma {:induction false} SomeUsable(rs: seq<Record>, i: nat)
    requires i < |rs| && UseOf(rs[i]).Use?
    ensures UsableSats(rs) != []
  {
    if i < |rs| - 1 {
      SomeUsable(rs[..|rs| - 1], i);
    }
  }

  lemma LastCounts(env: Environment, m: Memory, time: int, ws: seq<Written>, i: nat, p: nat)
    requires |m.lockt| == MAXSAT && |m.halfc| == MAXSAT && LastOf(ws, p, i) && Satellite(ws[i]) != 0
    ensures var rs := ReadAll(env, ws);
            && UseOf(rs[i]).Use?
            && LastSignal(m, time, rs[..p], Satellite(ws[i])) == Latest(SignalOf(m, time, rs[..i], rs[i]))
  {
    hide UseOf, Satellite, SignalOf;
    var rs := ReadAll(env, ws);
    forall j | 0 <= j < p
      ensures UseOf(rs[j]) == if Satellite(ws[j]) == 0 then Unusable
                              else Use(Satellite(ws[j]), if Satellite(ws[j]) < 84 then 1 else 47)
    {
      UseOfWritten(env, ws[j]);
    }
    LastSignalIs(m, time, rs[..p], i);
    assert rs[..p][..i] == rs[..i];
  }

  lemma HeldAt(obs: seq<Obs>, sat: nat)
    requires ObsSet(obs) && Held(obs, sat).Latest?
    ensures var k := Find(obs, sat);
            && k < |obs| && obs[k].sat == sat && obs[k].time == obs[0].time && |obs[k].signals| == NFREQ
            && Held(obs, sat) == Latest(obs[k].signals[0])
  {
  }

  /** Every satellite of the message that counts: what the set holds, and what is remembered. */
  ghost predicate AllFiled(env: Environment, was: Memory, time: int, ws: seq<Written>, now: Memory)
    requires ValidMemory(was) && ValidMemory(now)
  {
    && now.tobs == time
    && (forall i: nat | LastOf(ws, CountedOf(env, was, time, ws), i) && Satellite(ws[i]) != 0 ::
          exists lock :: 1 <= Satellite(ws[i]) <= MAXSAT && Seen(env, was, ws, i, Satellite(ws[i]), lock)
                         && Holds(env, was, time, ws, i, now.obs, lock))
    && (forall sat: nat | 1 <= sat <= MAXSAT ::
          Seen(env, was, ws, |ws|, sat, LockOf(now, sat)))
  }

  lemma MessageFiled(env: Environment, m: Memory, time: int, ws: seq<Written>)
    requires ValidMemory(m) && ValidMemory(RangeMessage(m, time, ReadAll(env, ws)))
    ensures AllFiled(env, m, time, ws, RangeMessage(m, time, ReadAll(env, ws)))
  {
    hide Seen, Holds, CountedOf, Satellite, LastLock, ObsSet;
    var rs, now := ReadAll(env, ws), RangeMessage(m, time, ReadAll(env, ws));
    forall i: nat | LastOf(ws, CountedOf(env, m, time, ws), i) && Satellite(ws[i]) != 0
      ensures exists lock :: 1 <= Satellite(ws[i]) <= MAXSAT && Seen(env, m, ws, i, Satellite(ws[i]), lock)
                             && Holds(env, m, time, ws, i, now.obs, lock)
    {
      var lock := MessageFiles(env, m, time, ws, i);
    }
    forall sat: nat | 1 <= sat <= MAXSAT
      ensures Seen(env, m, ws, |ws|, sat, LockOf(now, sat))
    {
      LocksKept(m, time, rs, sat);
      LockSeen(env, m, ws, |ws|, sat);
      assert rs[..|ws|] == rs;
    }
  }

  /** decode_oem4 of a message laid out in the buffer files the values written in it. */
  method FileMessage(raw: RawData, env: Environment, buff: array<byte>, ghost f: Front, ghost ws: seq<Written>,
                     ghost crc: seq<byte>, len: nat)
      returns (ret: int)
    requires raw.Valid() && ValidMessage(f, ws, crc) && len == 32 + 44 * |ws| && len + 4 <= buff.Length
    requires buff[..len + 4] == MessageBytes(f, ws, crc)
    modifies raw
    ensures raw.Valid() && ret == 43 && raw.time == 315964800000 + env.week(f.week) * 604800000 + f.tow
    ensures AllFiled(env, old(raw.View()), raw.time, ws, raw.View())
  {
    hide ValidMessage, Decode, RangeMessage, MessageBytes;
    MessageDecodes(env, f, ws, crc);
    ghost var was := raw.View();
    ret := raw.DecodeOem4(env, buff, len);
    MessageFiled(env, was, raw.time, ws);
  }
}
