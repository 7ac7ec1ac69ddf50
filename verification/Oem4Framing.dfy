/** The byte-at-a-time framing of NovAtel OEM4 messages.

    The decoder keeps a three-byte window while it hunts for the sync AA 44 12 and a growing buffer
    while it collects a message. It is proved to hand over exactly the messages that a scan of the
    whole stream finds, whatever the stream and however it is cut into calls. */
module Oem4Framing {
  import opened BitFields

  const SYNC1: byte := 0xAA
  const SYNC2: byte := 0x44
  const SYNC3: byte := 0x12
  const HEADER_LENGTH := 28
  const MAX_RAW_LENGTH := 4096

  // ---------- the reference: scanning a whole stream ----------

  predicate SyncAt(s: seq<byte>, i: nat) {
    i + 2 < |s| && s[i] == SYNC1 && s[i + 1] == SYNC2 && s[i + 2] == SYNC3
  }

  /** The first sync at or after i, or |s| when there is none. */
  function NextSync(s: seq<byte>, i: nat): (r: nat)
    requires i <= |s|
    ensures i <= r <= |s|
    ensures r < |s| ==> SyncAt(s, r)
    decreases |s| - i
  {
    if i == |s| || SyncAt(s, i) then i else NextSync(s, i + 1)
  }

  lemma {:induction false} NextSyncIsFirst(s: seq<byte>, i: nat)
    requires i <= |s|
    ensures forall k: nat | i <= k < NextSync(s, i) :: !SyncAt(s, k)
    decreases |s| - i
  {
    if i < |s| && !SyncAt(s, i) {
      NextSyncIsFirst(s, i + 1);
    }
  }

  /** The length of a message without its CRC: the little-endian body length plus the header. */
  function MessageLength(s: seq<byte>): (n: nat)
    requires |s| >= 10
    ensures n >= HEADER_LENGTH
  {
    s[8] as int + 256 * (s[9] as int) + HEADER_LENGTH
  }

  predicate TooLong(s: seq<byte>)
    requires |s| >= 10
  {
    MessageLength(s) > MAX_RAW_LENGTH - 4
  }

  datatype Scanned = Scanned(frames: seq<seq<byte>>, rest: seq<byte>)

  /** The messages of a stream, and the part of it not yet turned into messages. */
  function Scan(s: seq<byte>): (r: Scanned)
    decreases |s|, 1
  {
    var i := NextSync(s, 0);
    if i == |s| then Scanned([], s) else Collect(s[i..])
  }

  /** A stream that begins with a sync. An over-long header costs ten bytes; then the hunt goes on. */
  function Collect(t: seq<byte>): (r: Scanned)
    requires SyncAt(t, 0)
    decreases |t|, 0
  {
    if |t| < 10 then Scanned([], t)
    else if TooLong(t) then Scan(t[10..])
    else if |t| < MessageLength(t) + 4 then Scanned([], t)
    else
      var n := MessageLength(t) + 4;
      var more := Scan(t[n..]);
      Scanned([t[..n]] + more.frames, more.rest)
  }

  function After(first: Scanned, x: seq<byte>): Scanned {
    var more := Scan(first.rest + x);
    Scanned(first.frames + more.frames, more.rest)
  }

  lemma NextSyncUnique(s: seq<byte>, i: nat)
    requires SyncAt(s, i)
    requires forall k: nat | k < i :: !SyncAt(s, k)
    ensures NextSync(s, 0) == i
  {
    NextSyncIsFirst(s, 0);
  }

  lemma NextSyncExtend(s: seq<byte>, x: seq<byte>)
    requires NextSync(s, 0) < |s|
    ensures NextSync(s + x, 0) == NextSync(s, 0)
  {
    var i := NextSync(s, 0);
    NextSyncIsFirst(s, 0);
    forall k: nat | k < i
      ensures !SyncAt(s + x, k)
    {
      assert !SyncAt(s, k);
    }
    NextSyncUnique(s + x, i);
  }

  lemma ScanCollects(t: seq<byte>)
    requires SyncAt(t, 0)
    ensures Scan(t) == Collect(t)
  {
    NextSyncUnique(t, 0);
    assert t[0..] == t;
  }

  /** Scanning can stop anywhere and resume from the part not yet consumed. */
  lemma {:induction false} ScanResumes(s: seq<byte>, x: seq<byte>)
    ensures Scan(s + x) == After(Scan(s), x)
    decreases |s|, 1
  {
    var i := NextSync(s, 0);
    if i < |s| {
      NextSyncExtend(s, x);
      assert (s + x)[i..] == s[i..] + x;
      CollectResumes(s[i..], x);
    }
  }

  predicate SyncFree(s: seq<byte>) {
    forall i: nat | i < |s| :: !SyncAt(s, i)
  }

  predicate Incomplete(t: seq<byte>)
    requires SyncAt(t, 0)
  {
    |t| < 10 || (!TooLong(t) && |t| < MessageLength(t) + 4)
  }

  predicate WellFormed(f: seq<byte>) {
    |f| >= 10 && SyncAt(f, 0) && !TooLong(f) && |f| == MessageLength(f) + 4
  }

  lemma CollectIncomplete(t: seq<byte>)
    requires SyncAt(t, 0) && Incomplete(t)
    ensures Collect(t) == Scanned([], t)
  {
  }

  lemma CollectTooLong(h: seq<byte>, more: seq<byte>)
    requires |h| == 10 && SyncAt(h, 0) && TooLong(h)
    ensures SyncAt(h + more, 0) && Collect(h + more) == Scan(more)
  {
    assert (h + more)[10..] == more;
  }

  lemma CollectMessage(f: seq<byte>, more: seq<byte>)
    requires WellFormed(f)
    ensures SyncAt(f + more, 0)
    ensures Collect(f + more) == Scanned([f] + Scan(more).frames, Scan(more).rest)
  {
    assert (f + more)[..|f|] == f && (f + more)[|f|..] == more;
  }

  lemma AfterMore(f: seq<byte>, more: Scanned, x: seq<byte>)
    ensures After(Scanned([f] + more.frames, more.rest), x)
         == Scanned([f] + After(more, x).frames, After(more, x).rest)
  {
    assert [f] + more.frames + Scan(more.rest + x).frames == [f] + (more.frames + Scan(more.rest + x).frames);
  }

  lemma {:induction false} CollectResumes(t: seq<byte>, x: seq<byte>)
    requires SyncAt(t, 0)
    ensures SyncAt(t + x, 0) && Collect(t + x) == After(Collect(t), x)
    decreases |t|, 0
  {
    hide Scan, Collect;
    if Incomplete(t) {
      CollectIncomplete(t);
      ScanCollects(t + x);
    } else {
      var n := if TooLong(t) then 10 else MessageLength(t) + 4;
      var f, more := t[..n], t[n..];
      assert t == f + more && t + x == f + (more + x);
      ScanResumes(more, x);
      if TooLong(t) {
        CollectTooLong(f, more);
        CollectTooLong(f, more + x);
      } else {
        CollectMessage(f, more);
        CollectMessage(f, more + x);
        AfterMore(f, Scan(more), x);
      }
    }
  }

  // ---------- the decoder ----------

  datatype Event =
    | Quiet                      // 0: nothing complete yet
    | LengthError                // -1: over-long header
    | Message(bytes: seq<byte>)  // a whole message in the buffer, handed to decode_oem4

  class Decoder {
    var nbyte: nat
    var len: nat
    const buff: array<byte>

    ghost var received: seq<byte>
    ghost var handed: seq<seq<byte>>

    /** How the window or the buffer stands for the unconsumed part of the stream. Right after a
        message or at the start the window is stale, and no stale byte can begin a sync. */
    ghost predicate Holds(rest: seq<byte>)
      reads this, buff
      requires buff.Length == MAX_RAW_LENGTH
    {
      if nbyte == 0 then
        && SyncFree(rest)
        && (|rest| < 2 ==> buff[1] != SYNC1)
        && (|rest| < 1 ==> buff[2] != SYNC1)
        && (|rest| >= 1 ==> buff[2] == rest[|rest| - 1])
        && (|rest| >= 2 ==> buff[1] == rest[|rest| - 2])
      else
        && 3 <= nbyte < MAX_RAW_LENGTH
        && rest == buff[..nbyte]
        && SyncAt(rest, 0)
        && (nbyte >= 10 ==> len == MessageLength(rest) <= MAX_RAW_LENGTH - 4 && nbyte < len + 4)
    }

    ghost predicate Valid()
      reads this, buff
    {
      && buff.Length == MAX_RAW_LENGTH
      && Holds(Scan(received).rest)
      && handed == Scan(received).frames
    }

    constructor ()
      ensures Valid() && fresh(buff)
      ensures received == [] && handed == []
    {
      nbyte, len := 0, 0;
      buff := new byte[MAX_RAW_LENGTH](_ => 0);
      received, handed := [], [];
    }

    /** sync_oem4: shift the window and test it. */
    method Sync(data: byte) returns (found: bool)
      requires buff.Length == MAX_RAW_LENGTH
      modifies buff
      ensures buff[0] == old(buff[1]) && buff[1] == old(buff[2]) && buff[2] == data
      ensures found <==> buff[0] == SYNC1 && buff[1] == SYNC2 && buff[2] == SYNC3
    {
      buff[0] := buff[1];
      buff[1] := buff[2];
      buff[2] := data;
      found := buff[0] == SYNC1 && buff[1] == SYNC2 && buff[2] == SYNC3;
    }

    /** A whole message as decode_oem4 finds it: len bytes in the buffer and four of CRC. */
    ghost predicate InBuffer(s: seq<byte>)
      reads this, buff
    {
      WellFormed(s) && len + 4 <= buff.Length && s == buff[..len + 4]
    }

    /** input_oem4. */
    method Input(data: byte) returns (event: Event)
      requires Valid()
      modifies this, buff
      ensures Valid()
      ensures received == old(received) + [data]
      ensures handed == old(handed) + (if event.Message? then [event.bytes] else [])
      ensures event.Message? ==> InBuffer(event.bytes)
    {
      ghost var rest := Scan(received).rest;
      ScanResumes(received, [data]);
      if nbyte == 0 {
        Hunt(data, rest);
        event := Quiet;
      } else {
        event := Gather(data, rest);
      }
      received := received + [data];
      handed := handed + (if event.Message? then [event.bytes] else []);
    }

    /** The branch of input_oem4 taken between messages. */
    method Hunt(data: byte, ghost rest: seq<byte>)
      requires buff.Length == MAX_RAW_LENGTH && Holds(rest) && nbyte == 0
      modifies this`nbyte, buff
      ensures Scan(rest + [data]).frames == []
      ensures Holds(Scan(rest + [data]).rest)
    {
      var found := Sync(data);
      HuntStep(rest, data);
      if found {
        nbyte := 3;
        assert buff[..3] == [SYNC1, SYNC2, SYNC3];
      }
    }

    /** U2(buff + 8) and the header. */
    method ReadLength() returns (n: nat)
      requires buff.Length == MAX_RAW_LENGTH
      ensures n == MessageLength(buff[..10])
    {
      n := buff[8] as int + 256 * (buff[9] as int) + HEADER_LENGTH;
    }

    /** The branch of input_oem4 taken inside a message. */
    method Gather(data: byte, ghost rest: seq<byte>) returns (event: Event)
      requires buff.Length == MAX_RAW_LENGTH && Holds(rest) && nbyte != 0
      modifies this`nbyte, this`len, buff
      ensures Scan(rest + [data]).frames == if event.Message? then [event.bytes] else []
      ensures Holds(Scan(rest + [data]).rest)
      ensures event.Message? ==> InBuffer(event.bytes)
    {
      hide Scan, MessageLength;
      ghost var next := rest + [data];
      CollectStep(next);
      SameLength(rest, next);
      buff[nbyte] := data;
      nbyte := nbyte + 1;
      assert next == buff[..nbyte];
      if nbyte == 10 {
        len := ReadLength();
        if len > MAX_RAW_LENGTH - 4 {
          nbyte := 0;
          return LengthError;
        }
      }
      if nbyte < 10 || nbyte < len + 4 {
        return Quiet;
      }
      nbyte := 0;
      event := Message(buff[..len + 4]);
    }
  }

  /** The length does not change as a message grows. */
  lemma SameLength(s: seq<byte>, t: seq<byte>)
    requires |s| <= |t| && t[..|s|] == s
    ensures |s| >= 10 ==> MessageLength(t) == MessageLength(s)
  {
    if |s| >= 10 {
      assert t[..|s|][8] == t[8] && t[..|s|][9] == t[9];
    }
  }

  /** Hunting: the unconsumed part only grows until its last three bytes are the sync. */
  lemma HuntStep(rest: seq<byte>, data: byte)
    requires SyncFree(rest)
    ensures var next := rest + [data];
            if |rest| >= 2 && SyncAt(next, |rest| - 2) then Scan(next) == Scanned([], [SYNC1, SYNC2, SYNC3])
            else SyncFree(next) && Scan(next) == Scanned([], next)
  {
    var next := rest + [data];
    SyncAtEnd(rest, data);
    if |rest| >= 2 && SyncAt(next, |rest| - 2) {
      NextSyncUnique(next, |rest| - 2);
      assert next[|rest| - 2..] == [SYNC1, SYNC2, SYNC3];
    } else {
      NextSyncNone(next);
    }
  }

  /** Collecting: a message comes out exactly when its last byte has come in. */
  lemma CollectStep(next: seq<byte>)
    requires SyncAt(next, 0)
    ensures |next| < 10 ==> Scan(next) == Scanned([], next)
    ensures |next| == 10 && TooLong(next) ==> Scan(next) == Scanned([], [])
    ensures |next| >= 10 && !TooLong(next) && |next| < MessageLength(next) + 4 ==> Scan(next) == Scanned([], next)
    ensures |next| >= 10 && !TooLong(next) && |next| == MessageLength(next) + 4 ==> Scan(next) == Scanned([next], [])
  {
    ScanCollects(next);
    assert next + [] == next;
    NextSyncNone([]);
    if Incomplete(next) {
      CollectIncomplete(next);
    } else if |next| == 10 && TooLong(next) {
      CollectTooLong(next, []);
    } else if !TooLong(next) && |next| == MessageLength(next) + 4 {
      CollectMessage(next, []);
    }
  }

  lemma NextSyncNone(s: seq<byte>)
    requires SyncFree(s)
    ensures NextSync(s, 0) == |s|
  {
  }

  /** One more byte can only complete a sync that ends with it. */
  lemma SyncAtEnd(rest: seq<byte>, data: byte)
    requires SyncFree(rest)
    ensures forall i: nat | i < |rest| + 1 && i + 2 != |rest| :: !SyncAt(rest + [data], i)
  {
    forall i: nat | i < |rest| + 1 && i + 2 != |rest|
      ensures !SyncAt(rest + [data], i)
    {
      assert i + 2 < |rest| ==> !SyncAt(rest, i);
    }
  }

  // ---------- what a stream of messages yields ----------

  /** A message, byte by byte: a header of 28 bytes that begins with the sync AA 44 12 and has the length of
      the body in bytes 8 and 9, low byte first; the body; four bytes of CRC; at most 4096 bytes in all. */
  predicate LaidOut(head: seq<byte>, body: seq<byte>, crc: seq<byte>) {
    && |head| == 28 && |crc| == 4 && 28 + |body| <= 4092
    && head[0] == 0xAA && head[1] == 0x44 && head[2] == 0x12
    && LengthBytes(head[8] as int, head[9] as int, |body|)
  }

  predicate LengthBytes(lo: int, hi: int, n: nat) {
    lo == n % 256 && hi == n / 256
  }

  /** Bytes without a sync. */
  ghost predicate NoSync(s: seq<byte>) {
    forall i: nat | i + 2 < |s| :: s[i] == 0xAA && s[i + 1] == 0x44 ==> s[i + 2] != 0x12
  }

  datatype Sent = Sent(gap: seq<byte>, head: seq<byte>, body: seq<byte>, crc: seq<byte>)

  function Stream(sent: seq<Sent>, tail: seq<byte>): seq<byte> {
    if |sent| == 0 then tail
    else sent[0].gap + (sent[0].head + sent[0].body + sent[0].crc) + Stream(sent[1..], tail)
  }

  function Messages(sent: seq<Sent>): seq<seq<byte>> {
    if |sent| == 0 then [] else [sent[0].head + sent[0].body + sent[0].crc] + Messages(sent[1..])
  }

  lemma LaidOutWellFormed(head: seq<byte>, body: seq<byte>, crc: seq<byte>)
    requires LaidOut(head, body, crc)
    ensures WellFormed(head + body + crc)
  {
    hide LengthBytes;
    var f := head + body + crc;
    LengthOfBytes(head[8] as int, head[9] as int, |body|);
    assert f[8] == head[8] && f[9] == head[9] && f[0] == head[0] && f[1] == head[1] && f[2] == head[2];
  }

  predicate InBytes(f: seq<byte>) {
    |f| >= 32 && LaidOut(f[..28], f[28..|f| - 4], f[|f| - 4..])
  }

  /** Only such messages are found: whatever the stream, everything handed over is laid out so. */
  lemma {:induction false} FoundLaidOut(s: seq<byte>)
    ensures forall f | f in Scan(s).frames :: InBytes(f)
    decreases |s|, 1
  {
    hide InBytes;
    var i := NextSync(s, 0);
    if i < |s| {
      CollectedLaidOut(s[i..]);
    }
  }

  lemma {:induction false} CollectedLaidOut(t: seq<byte>)
    requires SyncAt(t, 0)
    ensures forall f | f in Collect(t).frames :: InBytes(f)
    decreases |t|, 0
  {
    hide InBytes, Scan;
    if !Incomplete(t) {
      var n := if TooLong(t) then 10 else MessageLength(t) + 4;
      FoundLaidOut(t[n..]);
      if !TooLong(t) {
        WellFormedInBytes(t[..n]);
      }
    }
  }

  lemma WellFormedInBytes(f: seq<byte>)
    requires WellFormed(f)
    ensures InBytes(f)
  {
    hide LengthBytes, MessageLength, SyncAt;
    LengthInBytes(f);
    SyncInBytes(f);
    assert |f[28..|f| - 4]| == |f| - 32;
  }

  lemma LengthInBytes(f: seq<byte>)
    requires |f| >= 28
    ensures MessageLength(f) >= 28 && LengthBytes(f[..28][8] as int, f[..28][9] as int, MessageLength(f) - 28)
  {
    hide LengthBytes;
    BytesOfLength(f[8] as int, f[9] as int);
    assert f[..28][8] == f[8] && f[..28][9] == f[9];
  }

  lemma SyncInBytes(f: seq<byte>)
    requires SyncAt(f, 0) && |f| >= 28
    ensures f[..28][0] == 0xAA && f[..28][1] == 0x44 && f[..28][2] == 0x12
  {
  }

  lemma BytesOfLength(lo: int, hi: int)
    requires 0 <= lo < 256 && 0 <= hi
    ensures LengthBytes(lo, hi, lo + 256 * hi)
  {
  }

  lemma LengthOfBytes(lo: int, hi: int, n: nat)
    requires LengthBytes(lo, hi, n)
    ensures n == lo + 256 * hi
  {
  }

  /** A gap without a sync cannot form one with the message behind it. */
  lemma GapThenMessage(gap: seq<byte>, x: seq<byte>)
    requires SyncFree(gap) && SyncAt(x, 0)
    ensures NextSync(gap + x, 0) == |gap|
  {
    forall k: nat | k < |gap|
      ensures !SyncAt(gap + x, k)
    {
      assert !SyncAt(gap, k);
    }
    assert SyncAt(gap + x, |gap|);
    NextSyncUnique(gap + x, |gap|);
  }

  /** Every message of a stream is recovered, in order and unchanged, and nothing else. */
  lemma {:induction false} AllRecovered(sent: seq<Sent>, tail: seq<byte>)
    requires forall k | 0 <= k < |sent| :: NoSync(sent[k].gap) && LaidOut(sent[k].head, sent[k].body, sent[k].crc)
    requires NoSync(tail)
    ensures Scan(Stream(sent, tail)) == Scanned(Messages(sent), tail)
  {
    if |sent| == 0 {
      NextSyncNone(tail);
    } else {
      var gap, f := sent[0].gap, sent[0].head + sent[0].body + sent[0].crc;
      var more := Stream(sent[1..], tail);
      AllRecovered(sent[1..], tail);
      LaidOutWellFormed(sent[0].head, sent[0].body, sent[0].crc);
      GapThenMessage(gap, f + more);
      var s := Stream(sent, tail);
      assert s == gap + (f + more);
      assert s[|gap|..] == f + more;
      CollectMessage(f, more);
    }
  }
}
