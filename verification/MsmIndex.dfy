/** The satellite, signal and cell masks of an MSM message: how a set of observed (satellite, signal)
    pairs is numbered and sent, and how a receiver gets the set back. */
module MsmIndex {
  import opened BitFields
  import opened Masks
  import opened Satellites

  const NFREQ := 3

  /** One signal of an observation record. */
  datatype Signal = Signal(phase: real, range: real, snr: nat, lli: nat, code: nat)

  const NO_SIGNAL := Signal(0.0, 0.0, 0, 0, CODE_NONE)

  /** An observation record: time in ms, satellite number, NFREQ signals. */
  datatype Obs = Obs(time: int, sat: nat, signals: seq<Signal>)

  ghost predicate ValidObs(o: Obs) {
    |o.signals| == NFREQ
  }

  ghost predicate ValidList(obs: seq<Obs>) {
    forall i | 0 <= i < |obs| :: ValidObs(obs[i])
  }

  /** A signal that belongs to the message of one system, with its identifiers. */
  datatype Entry = Entry(satId: nat, sigId: nat, sat: nat, slot: nat, frequency: nat, signal: Signal, time: int)

  ghost predicate ValidEntry(e: Entry) {
    && 1 <= e.satId <= 64
    && 1 <= e.sigId <= 32
    && 1 <= e.sat <= MAXSAT
    && e.slot < NFREQ
  }

  ghost predicate ValidEntries(es: seq<Entry>) {
    forall k | 0 <= k < |es| :: ValidEntry(es[k])
  }

  /** The entry of one signal, if it has one. */
  function SignalEntry(sys: System, o: Obs, j: nat): (r: seq<Entry>)
    requires j < |o.signals|
  {
    var s := o.signals[j];
    var satId, sigId := ToSatId(sys, o.sat), ToSigId(sys, s.code);
    if satId != 0 && sigId != 0
    then [Entry(satId, sigId, o.sat, j, SignalFrequency(sys, s.code), s, o.time)] else []
  }

  /** The entries of the first j signals of a record. */
  function RecordEntries(sys: System, o: Obs, j: nat): seq<Entry>
    requires j <= |o.signals|
  {
    if j == 0 then [] else RecordEntries(sys, o, j - 1) + SignalEntry(sys, o, j - 1)
  }

  /** The entries of a list of records, in the order the encoder's double loops visit them. */
  function Entries(sys: System, obs: seq<Obs>): seq<Entry>
  {
    if |obs| == 0 then []
    else Entries(sys, obs[..|obs| - 1]) + RecordEntries(sys, obs[|obs| - 1], |obs[|obs| - 1].signals|)
  }

  lemma RecordOfThree(sys: System, o: Obs)
    requires |o.signals| == NFREQ
    ensures RecordEntries(sys, o, NFREQ) == SignalEntry(sys, o, 0) + SignalEntry(sys, o, 1) + SignalEntry(sys, o, 2)
  {
    hide SignalEntry;
    assert RecordEntries(sys, o, 0) == [];
    assert RecordEntries(sys, o, 1) == SignalEntry(sys, o, 0);
    assert RecordEntries(sys, o, 2) == RecordEntries(sys, o, 1) + SignalEntry(sys, o, 1);
    assert RecordEntries(sys, o, 3) == RecordEntries(sys, o, 2) + SignalEntry(sys, o, 2);
  }

  lemma SignalEntryValid(sys: System, o: Obs, j: nat)
    requires sys != NoSystem && j < |o.signals| <= NFREQ
    ensures ValidEntries(SignalEntry(sys, o, j))
  {
  }

  lemma {:induction false} RecordEntriesValid(sys: System, o: Obs, j: nat)
    requires sys != NoSystem && j <= |o.signals| <= NFREQ
    ensures ValidEntries(RecordEntries(sys, o, j))
  {
    if j > 0 {
      RecordEntriesValid(sys, o, j - 1);
      SignalEntryValid(sys, o, j - 1);
    }
  }

  lemma {:induction false} EntriesValid(sys: System, obs: seq<Obs>)
    requires sys != NoSystem && ValidList(obs)
    ensures ValidEntries(Entries(sys, obs))
  {
    if |obs| > 0 {
      EntriesValid(sys, obs[..|obs| - 1]);
      RecordEntriesValid(sys, obs[|obs| - 1], NFREQ);
    }
  }

  /** A record of another system has no entries. */
  lemma {:induction false} OtherSystemNoEntries(sys: System, o: Obs, j: nat)
    requires j <= |o.signals| && ToSatId(sys, o.sat) == 0
    ensures RecordEntries(sys, o, j) == []
  {
    if j > 0 {
      OtherSystemNoEntries(sys, o, j - 1);
    }
  }

  // ---------- masks ----------

  ghost predicate HasSat(es: seq<Entry>, id: nat) {
    exists k :: 0 <= k < |es| && es[k].satId == id
  }

  ghost predicate HasSig(es: seq<Entry>, id: nat) {
    exists k :: 0 <= k < |es| && es[k].sigId == id
  }

  ghost function SatMask(es: seq<Entry>): (m: seq<bool>)
    ensures |m| == 64
  {
    seq(64, i requires 0 <= i < 64 => HasSat(es, i + 1))
  }

  ghost function SigMask(es: seq<Entry>): (m: seq<bool>)
    ensures |m| == 32
  {
    seq(32, i requires 0 <= i < 32 => HasSig(es, i + 1))
  }

  ghost function Sats(es: seq<Entry>): (n: nat)
    ensures n <= 64
  {
    Count(SatMask(es), 64)
  }

  ghost function Sigs(es: seq<Entry>): (n: nat)
    ensures n <= 32
  {
    Count(SigMask(es), 32)
  }

  /** The cell of an entry: row-major, one row per satellite. */
  ghost function CellOf(es: seq<Entry>, e: Entry): int
    requires ValidEntry(e)
  {
    Count(SigMask(es), e.sigId - 1) + Count(SatMask(es), e.satId - 1) * Sigs(es)
  }

  /** Whether an entry of the list done falls in cell c, as the cells of es are numbered. */
  ghost predicate HasCell(es: seq<Entry>, done: seq<Entry>, c: int)
    requires ValidEntries(done)
  {
    exists k :: 0 <= k < |done| && CellOf(es, done[k]) == c
  }

  ghost function CellMask(es: seq<Entry>): (m: seq<bool>)
    requires ValidEntries(es)
    ensures |m| == Sats(es) * Sigs(es)
  {
    seq(Sats(es) * Sigs(es), c requires 0 <= c < Sats(es) * Sigs(es) => HasCell(es, es, c))
  }

  ghost function Cells(es: seq<Entry>): nat
    requires ValidEntries(es)
  {
    Count(CellMask(es), Sats(es) * Sigs(es))
  }

  lemma CellInRange(es: seq<Entry>, e: Entry)
    requires ValidEntries(es) && e in es
    ensures 0 <= CellOf(es, e) < Sats(es) * Sigs(es) <= 2048
    ensures CellMask(es)[CellOf(es, e)]
  {
    assert HasSat(es, e.satId) && HasSig(es, e.sigId);
    CountBelowSet(SatMask(es), e.satId - 1, 64);
    CountBelowSet(SigMask(es), e.sigId - 1, 32);
    RowMajor(Count(SatMask(es), e.satId - 1), Sats(es), Count(SigMask(es), e.sigId - 1), Sigs(es));
    MulMonotone(Sats(es), 64, Sigs(es));
  }

  lemma RowMajor(q: int, rows: int, r: int, n: int)
    requires 0 <= q < rows && 0 <= r < n
    ensures 0 <= r + q * n < rows * n
  {
    MulMonotone(q + 1, rows, n);
    assert (q + 1) * n == q * n + n;
    MulMonotone(0, q, n);
  }

  lemma MulMonotone(a: int, b: int, n: nat)
    requires a <= b
    ensures a * n <= b * n
  {
    assert b * n == a * n + (b - a) * n;
  }

  // ---------- gen_msm_index ----------

  /** The first double loop of gen_msm_index: flag the satellites and signals observed. */
  method FlagSatsAndSigs(sys: System, obs: seq<Obs>, satInd: array<nat>, sigInd: array<nat>)
    requires sys != NoSystem && ValidList(obs)
    requires satInd.Length == 64 && sigInd.Length == 32 && satInd != sigInd
    requires Flagged(satInd[..], sigInd[..], [])
    modifies satInd, sigInd
    ensures Flagged(satInd[..], sigInd[..], Entries(sys, obs))
  {
    ghost var es: seq<Entry> := [];
    var i := 0;
    while i < |obs|
      invariant 0 <= i <= |obs|
      invariant es == Entries(sys, obs[..i])
      invariant Flagged(satInd[..], sigInd[..], es)
    {
      NextRecord(sys, obs, i);
      es := FlagRecord(sys, obs[i], satInd, sigInd, es);
      i := i + 1;
    }
    assert obs[..|obs|] == obs;
  }

  /** Its inner loop, over the signals of one record. */
  method FlagRecord(sys: System, o: Obs, satInd: array<nat>, sigInd: array<nat>, ghost before: seq<Entry>)
      returns (ghost es: seq<Entry>)
    requires ValidObs(o) && satInd != sigInd
    requires Flagged(satInd[..], sigInd[..], before)
    modifies satInd, sigInd
    ensures es == before + RecordEntries(sys, o, NFREQ)
    ensures Flagged(satInd[..], sigInd[..], es)
  {
    es := before;
    var sat := ToSatId(sys, o.sat);
    if sat == 0 {
      OtherSystemNoEntries(sys, o, NFREQ);
      return;
    }
    var j := 0;
    while j < NFREQ
      invariant 0 <= j <= NFREQ
      invariant es == before + RecordEntries(sys, o, j)
      invariant Flagged(satInd[..], sigInd[..], es)
    {
      ghost var e := NextSignal(sys, o, j, before, es);
      var sig := ToSigId(sys, o.signals[j].code);
      if sig != 0 {
        MarkSatAndSig(sat, sig, satInd, sigInd, es, e);
        es := es + [e];
      }
      j := j + 1;
    }
  }

  /** sat_ind[sat-1] = sig_ind[sig-1] = 1. */
  method MarkSatAndSig(sat: nat, sig: nat, satInd: array<nat>, sigInd: array<nat>, ghost es: seq<Entry>, ghost e: Entry)
    requires satInd != sigInd && 1 <= sat <= 64 && 1 <= sig <= 32
    requires e.satId == sat && e.sigId == sig && Flagged(satInd[..], sigInd[..], es)
    modifies satInd, sigInd
    ensures Flagged(satInd[..], sigInd[..], es + [e])
  {
    ghost var satWas, sigWas := satInd[..], sigInd[..];
    FlagOne(satWas, sigWas, es, e);
    satInd[sat - 1], sigInd[sig - 1] := 1, 1;
    assert satInd[..] == satWas[sat - 1 := 1];
    assert sigInd[..] == sigWas[sig - 1 := 1];
  }

  lemma NextRecord(sys: System, obs: seq<Obs>, i: nat)
    requires i < |obs|
    ensures Entries(sys, obs[..i + 1]) == Entries(sys, obs[..i]) + RecordEntries(sys, obs[i], |obs[i].signals|)
  {
    assert obs[..i + 1][..i] == obs[..i];
  }

  /** The signal visited next adds one entry when it has an identifier, none otherwise. */
  lemma NextSignal(sys: System, o: Obs, j: nat, before: seq<Entry>, es: seq<Entry>) returns (e: Entry)
    requires j < |o.signals| && ToSatId(sys, o.sat) != 0
    requires es == before + RecordEntries(sys, o, j)
    ensures e == Entry(ToSatId(sys, o.sat), ToSigId(sys, o.signals[j].code), o.sat, j,
                       SignalFrequency(sys, o.signals[j].code), o.signals[j], o.time)
    ensures before + RecordEntries(sys, o, j + 1)
         == if ToSigId(sys, o.signals[j].code) != 0 then es + [e] else es
  {
    e := Entry(ToSatId(sys, o.sat), ToSigId(sys, o.signals[j].code), o.sat, j,
               SignalFrequency(sys, o.signals[j].code), o.signals[j], o.time);
  }

  ghost predicate Flagged(satInd: seq<nat>, sigInd: seq<nat>, es: seq<Entry>) {
    && |satInd| == 64 && |sigInd| == 32
    && (forall i | 0 <= i < 64 :: satInd[i] == if HasSat(es, i + 1) then 1 else 0)
    && (forall i | 0 <= i < 32 :: sigInd[i] == if HasSig(es, i + 1) then 1 else 0)
  }

  lemma FlagOne(satInd: seq<nat>, sigInd: seq<nat>, es: seq<Entry>, e: Entry)
    requires Flagged(satInd, sigInd, es) && 1 <= e.satId <= 64 && 1 <= e.sigId <= 32
    ensures Flagged(satInd[e.satId - 1 := 1], sigInd[e.sigId - 1 := 1], es + [e])
  {
    forall id: nat
      ensures HasSat(es + [e], id) == (HasSat(es, id) || id == e.satId)
      ensures HasSig(es + [e], id) == (HasSig(es, id) || id == e.sigId)
    {
      HasAppend(es, e, id);
    }
  }

  lemma HasAppend(es: seq<Entry>, e: Entry, id: nat)
    ensures HasSat(es + [e], id) == (HasSat(es, id) || id == e.satId)
    ensures HasSig(es + [e], id) == (HasSig(es, id) || id == e.sigId)
  {
    var all := es + [e];
    assert all[|es|] == e;
    if HasSat(es, id) {
      var k :| 0 <= k < |es| && es[k].satId == id;
      assert all[k].satId == id;
    }
    if HasSig(es, id) {
      var k :| 0 <= k < |es| && es[k].sigId == id;
      assert all[k].sigId == id;
    }
  }

  /** The second double loop: flag the cells observed. */
  method FlagCells(sys: System, obs: seq<Obs>, satInd: array<nat>, sigInd: array<nat>, nsig: nat, cellInd: array<nat>)
    requires sys != NoSystem && ValidList(obs)
    requires cellInd != satInd && cellInd != sigInd
    requires Numbered(satInd[..], sigInd[..], nsig, Entries(sys, obs))
    requires CellsFlagged(cellInd[..], Entries(sys, obs), [])
    modifies cellInd
    ensures CellsFlagged(cellInd[..], Entries(sys, obs), Entries(sys, obs))
  {
    ghost var all := Entries(sys, obs);
    EntriesValid(sys, obs);
    ghost var done: seq<Entry> := [];
    var i := 0;
    while i < |obs|
      invariant 0 <= i <= |obs|
      invariant done == Entries(sys, obs[..i])
      invariant CellsFlagged(cellInd[..], all, done)
    {
      NextRecord(sys, obs, i);
      RecordIncluded(sys, obs, i);
      done := FlagRecordCells(sys, obs[i], satInd, sigInd, nsig, cellInd, all, done);
      i := i + 1;
    }
    assert obs[..|obs|] == obs;
  }

  ghost predicate Numbered(satInd: seq<nat>, sigInd: seq<nat>, nsig: nat, es: seq<Entry>) {
    satInd == Ranks(SatMask(es)) && sigInd == Ranks(SigMask(es)) && nsig == Sigs(es)
  }

  /** Cells hold 1 exactly when one of the entries done falls in them. */
  ghost predicate CellsFlagged(cellInd: seq<nat>, es: seq<Entry>, done: seq<Entry>) {
    && |cellInd| == 2048 && ValidEntries(done)
    && forall c | 0 <= c < 2048 :: cellInd[c] == if HasCell(es, done, c) then 1 else 0
  }

  ghost predicate RecordWithin(sys: System, o: Obs, all: seq<Entry>)
    requires ValidObs(o)
  {
    forall e | e in RecordEntries(sys, o, NFREQ) :: e in all
  }

  method FlagRecordCells(sys: System, o: Obs, satInd: array<nat>, sigInd: array<nat>, nsig: nat, cellInd: array<nat>,
                         ghost all: seq<Entry>, ghost before: seq<Entry>)
      returns (ghost done: seq<Entry>)
    requires ValidObs(o) && cellInd != satInd && cellInd != sigInd
    requires ValidEntries(all) && RecordWithin(sys, o, all)
    requires Numbered(satInd[..], sigInd[..], nsig, all)
    requires CellsFlagged(cellInd[..], all, before)
    modifies cellInd
    ensures done == before + RecordEntries(sys, o, NFREQ)
    ensures CellsFlagged(cellInd[..], all, done)
  {
    done := before;
    var sat := ToSatId(sys, o.sat);
    if sat == 0 {
      OtherSystemNoEntries(sys, o, NFREQ);
      return;
    }
    var j := 0;
    while j < NFREQ
      invariant 0 <= j <= NFREQ
      invariant done == before + RecordEntries(sys, o, j)
      invariant CellsFlagged(cellInd[..], all, done)
    {
      done := FlagSlotCell(sys, o, j, sat, satInd, sigInd, nsig, cellInd, all, before, done);
      j := j + 1;
    }
  }

  method FlagSlotCell(sys: System, o: Obs, j: nat, sat: nat, satInd: array<nat>, sigInd: array<nat>, nsig: nat,
                      cellInd: array<nat>, ghost all: seq<Entry>, ghost before: seq<Entry>, ghost done0: seq<Entry>)
      returns (ghost done: seq<Entry>)
    requires ValidObs(o) && j < NFREQ && cellInd != satInd && cellInd != sigInd
    requires ValidEntries(all) && RecordWithin(sys, o, all) && sat == ToSatId(sys, o.sat) != 0
    requires Numbered(satInd[..], sigInd[..], nsig, all)
    requires done0 == before + RecordEntries(sys, o, j) && CellsFlagged(cellInd[..], all, done0)
    modifies cellInd
    ensures done == before + RecordEntries(sys, o, j + 1) && CellsFlagged(cellInd[..], all, done)
  {
    done := done0;
    ghost var e := NextSignal(sys, o, j, before, done);
    var sig := ToSigId(sys, o.signals[j].code);
    if sig != 0 {
      SignalWithin(sys, o, j, all);
      MarkCell(sat, sig, satInd, sigInd, nsig, cellInd, all, done, e);
      done := done + [e];
    }
  }

  /** cell = sig_ind[sig-1] - 1 + (sat_ind[sat-1] - 1) * nsig; cell_ind[cell] = 1. */
  method MarkCell(sat: nat, sig: nat, satInd: array<nat>, sigInd: array<nat>, nsig: nat, cellInd: array<nat>,
                  ghost all: seq<Entry>, ghost done: seq<Entry>, ghost e: Entry)
    requires cellInd != satInd && cellInd != sigInd
    requires ValidEntries(all) && e in all && e.satId == sat && e.sigId == sig
    requires Numbered(satInd[..], sigInd[..], nsig, all)
    requires CellsFlagged(cellInd[..], all, done)
    modifies cellInd
    ensures CellsFlagged(cellInd[..], all, done + [e])
  {
    NumberedCell(satInd[..], sigInd[..], nsig, all, e);
    var cell := sigInd[sig - 1] - 1 + (satInd[sat - 1] - 1) * nsig;
    ghost var was := cellInd[..];
    FlagCell(was, all, done, e);
    cellInd[cell] := 1;
    assert cellInd[..] == was[cell := 1];
  }

  /** The subscript the encoder computes from the numbered masks is the cell of the entry. */
  lemma NumberedCell(satInd: seq<nat>, sigInd: seq<nat>, nsig: nat, es: seq<Entry>, e: Entry)
    requires ValidEntries(es) && e in es && Numbered(satInd, sigInd, nsig, es)
    ensures satInd[e.satId - 1] >= 1 && sigInd[e.sigId - 1] >= 1
    ensures 0 <= CellOf(es, e) == sigInd[e.sigId - 1] - 1 + (satInd[e.satId - 1] - 1) * nsig < 2048
  {
    assert HasSat(es, e.satId) && HasSig(es, e.sigId);
    CellInRange(es, e);
  }

  lemma FlagCell(cellInd: seq<nat>, es: seq<Entry>, done: seq<Entry>, e: Entry)
    requires CellsFlagged(cellInd, es, done) && ValidEntry(e) && 0 <= CellOf(es, e) < 2048
    ensures CellsFlagged(cellInd[CellOf(es, e) := 1], es, done + [e])
  {
    var all := done + [e];
    forall c | 0 <= c < 2048
      ensures HasCell(es, all, c) == (HasCell(es, done, c) || c == CellOf(es, e))
    {
      assert all[|done|] == e;
      if HasCell(es, done, c) {
        var k :| 0 <= k < |done| && CellOf(es, done[k]) == c;
        assert all[k] == done[k];
      }
    }
  }

  lemma {:induction false} SignalWithinFrom(sys: System, o: Obs, j: nat, n: nat)
    requires j < n <= |o.signals|
    ensures forall e | e in SignalEntry(sys, o, j) :: e in RecordEntries(sys, o, n)
  {
    if j < n - 1 {
      SignalWithinFrom(sys, o, j, n - 1);
    }
  }

  lemma SignalWithin(sys: System, o: Obs, j: nat, all: seq<Entry>)
    requires ValidObs(o) && RecordWithin(sys, o, all) && j < NFREQ
    requires ToSatId(sys, o.sat) != 0 && ToSigId(sys, o.signals[j].code) != 0
    ensures SignalEntry(sys, o, j)[0] in all
  {
    SignalWithinFrom(sys, o, j, NFREQ);
  }

  lemma {:induction false} RecordIncluded(sys: System, obs: seq<Obs>, i: nat)
    requires ValidList(obs) && i < |obs|
    ensures RecordWithin(sys, obs[i], Entries(sys, obs))
  {
    var n := |obs| - 1;
    if i < n {
      RecordIncluded(sys, obs[..n], i);
    }
  }

  /** gen_msm_index: the numbered masks. Ranks stop at 64 cells, and flags past that stay at 1. */
  method GenMsmIndex(sys: System, obs: seq<Obs>, satInd: array<nat>, sigInd: array<nat>, cellInd: array<nat>)
      returns (nsat: nat, nsig: nat, ncell: nat)
    requires sys != NoSystem && ValidList(obs)
    requires satInd.Length == 64 && sigInd.Length == 32 && cellInd.Length == 2048
    requires satInd != sigInd && satInd != cellInd && sigInd != cellInd
    requires forall i | 0 <= i < 64 :: satInd[i] == 0
    requires forall i | 0 <= i < 32 :: sigInd[i] == 0
    requires forall i | 0 <= i < 2048 :: cellInd[i] == 0
    modifies satInd, sigInd, cellInd
    ensures var es := Entries(sys, obs);
            && ValidEntries(es)
            && Numbered(satInd[..], sigInd[..], nsig, es) && nsat == Sats(es)
            && ncell == (if Cells(es) <= 64 then Cells(es) else 64)
            && CellsNumbered(cellInd[..], es)
  {
    hide Entries;
    ghost var es := Entries(sys, obs);
    EntriesValid(sys, obs);
    FlagSatsAndSigs(sys, obs, satInd, sigInd);
    hide HasSat, HasSig;
    nsat := NumberMask(satInd, 64, SatMask(es));
    nsig := NumberMask(sigInd, 32, SigMask(es));
    FlagCells(sys, obs, satInd, sigInd, nsig, cellInd);
    MulMonotone(nsat, 64, nsig);
    FlagsOfMask(cellInd[..], CellMask(es));
    ncell := NumberFlags(cellInd, nsat * nsig, 64);
  }

  /** Flags that fit the limit all become ranks. */
  method NumberMask(a: array<nat>, size: nat, ghost m: seq<bool>) returns (n: nat)
    requires a.Length == size == |m| <= 64
    requires forall i | 0 <= i < size :: a[i] == if m[i] then 1 else 0
    modifies a
    ensures a[..] == Ranks(m) && n == Count(m, size)
  {
    FlagsOfMask(a[..], m);
    n := NumberFlags(a, size, size);
    AllNumbered(m);
  }

  lemma FlagsOfMask(a: seq<nat>, m: seq<bool>)
    requires |m| <= |a|
    requires forall i | 0 <= i < |m| :: a[i] == if m[i] then 1 else 0
    ensures Flags(a, |m|) == m
  {
  }

  /** With at most 64 set flags every one of them gets its rank. */
  lemma AllNumbered(m: seq<bool>)
    requires |m| <= 64
    ensures forall i | 0 <= i < |m| :: Number(if m[i] then 1 else 0, m, i, |m|) == Rank(m, i)
  {
    forall i | 0 <= i < |m|
      ensures Number(if m[i] then 1 else 0, m, i, |m|) == Rank(m, i)
    {
      if m[i] {
        CountBelowSet(m, i, |m|);
      }
    }
  }

  ghost predicate CellsNumbered(cellInd: seq<nat>, es: seq<Entry>)
    requires ValidEntries(es)
  {
    && |cellInd| == 2048 && Sats(es) * Sigs(es) <= 2048
    && forall c | 0 <= c < Sats(es) * Sigs(es) ::
         cellInd[c] == Number(if CellMask(es)[c] then 1 else 0, CellMask(es), c, 64)
  }

  // ---------- what a receiver reads back ----------

  function PairOf(e: Entry): (nat, nat) {
    (e.satId, e.sigId)
  }

  ghost function ObservedPairs(es: seq<Entry>): set<(nat, nat)> {
    set e | e in es :: PairOf(e)
  }

  /** The same signals of the same satellites, whatever they measure. */
  ghost predicate SameSignals(a: seq<Entry>, b: seq<Entry>) {
    && |a| == |b|
    && forall i | 0 <= i < |a| ::
         b[i].(signal := a[i].signal, time := a[i].time) == a[i] && b[i].signal.code == a[i].signal.code
  }

  /** They have the same masks. */
  lemma SameSignalsSameMasks(a: seq<Entry>, b: seq<Entry>)
    requires ValidEntries(a) && SameSignals(a, b)
    ensures ValidEntries(b) && SatMask(a) == SatMask(b) && SigMask(a) == SigMask(b) && CellMask(a) == CellMask(b)
    ensures Cells(a) == Cells(b) && ObservedPairs(a) == ObservedPairs(b)
    ensures forall i | 0 <= i < |a| :: PairOf(b[i]) == PairOf(a[i])
  {
    SameIds(a, b);
    SameIds(b, a);
    forall c | 0 <= c < Sats(a) * Sigs(a)
      ensures HasCell(a, a, c) == HasCell(b, b, c)
    {
      forall k | 0 <= k < |a|
        ensures CellOf(a, a[k]) == CellOf(b, b[k])
      {
      }
    }
  }

  lemma SameIds(a: seq<Entry>, b: seq<Entry>)
    requires |a| == |b| && forall i | 0 <= i < |a| :: a[i].satId == b[i].satId && a[i].sigId == b[i].sigId
    ensures SatMask(a) == SatMask(b) && SigMask(a) == SigMask(b) && ObservedPairs(a) <= ObservedPairs(b)
  {
    forall id: nat
      ensures HasSat(a, id) == HasSat(b, id) && HasSig(a, id) == HasSig(b, id)
    {
    }
    forall p | p in ObservedPairs(a)
      ensures p in ObservedPairs(b)
    {
      var i :| 0 <= i < |a| && PairOf(a[i]) == p;
      assert b[i] in b;
    }
  }

  /** The pair a receiver assigns to cell c of the grid of selected satellites and signals. */
  function PairAt(satMask: seq<bool>, sigMask: seq<bool>, c: nat): (nat, nat)
    requires c < Count(satMask, |satMask|) * Count(sigMask, |sigMask|)
  {
    var n := Count(sigMask, |sigMask|);
    CellSplits(c, Count(satMask, |satMask|), n);
    (Select(satMask, |satMask|)[c / n] + 1, Select(sigMask, |sigMask|)[c % n] + 1)
  }

  lemma CellSplits(c: nat, rows: nat, n: nat)
    requires c < rows * n
    ensures n > 0 && c / n < rows && c % n < n
  {
    assert rows * 0 == 0;
    if c / n >= rows {
      MulMonotone(rows, c / n, n);
    }
  }

  function DecodedPairs(satMask: seq<bool>, sigMask: seq<bool>, cellMask: seq<bool>): set<(nat, nat)>
    requires |cellMask| == Count(satMask, |satMask|) * Count(sigMask, |sigMask|)
  {
    set c: nat | c < |cellMask| && cellMask[c] :: PairAt(satMask, sigMask, c)
  }

  /** An entry's cell decodes to its own pair, so cells of different pairs are different. */
  lemma PairOfCell(es: seq<Entry>, e: Entry)
    requires ValidEntries(es) && e in es
    ensures 0 <= CellOf(es, e) < Sats(es) * Sigs(es)
    ensures PairAt(SatMask(es), SigMask(es), CellOf(es, e)) == PairOf(e)
  {
    CellInRange(es, e);
    RowAndColumn(es, e);
    hide SatMask, SigMask, Select, Count;
    DivModUnique(CellOf(es, e), Sigs(es), Count(SatMask(es), e.satId - 1), Count(SigMask(es), e.sigId - 1));
  }

  lemma RowAndColumn(es: seq<Entry>, e: Entry)
    requires ValidEntries(es) && e in es
    ensures var q, r := Count(SatMask(es), e.satId - 1), Count(SigMask(es), e.sigId - 1);
            && q < Sats(es) && Select(SatMask(es), 64)[q] == e.satId - 1
            && r < Sigs(es) && Select(SigMask(es), 32)[r] == e.sigId - 1
  {
    assert HasSat(es, e.satId) && HasSig(es, e.sigId);
    SelectRank(SatMask(es), e.satId - 1, 64);
    SelectRank(SigMask(es), e.sigId - 1, 32);
  }

  /** The three masks carry exactly the observed pairs. */
  lemma MasksCarryPairs(es: seq<Entry>)
    requires ValidEntries(es)
    ensures DecodedPairs(SatMask(es), SigMask(es), CellMask(es)) == ObservedPairs(es)
  {
    var m := CellMask(es);
    forall e | e in es
      ensures PairOf(e) in DecodedPairs(SatMask(es), SigMask(es), m)
    {
      PairOfCell(es, e);
      CellInRange(es, e);
      assert m[CellOf(es, e)];
    }
    forall c: nat | c < |m| && m[c]
      ensures PairAt(SatMask(es), SigMask(es), c) in ObservedPairs(es)
    {
      assert HasCell(es, es, c);
      var k :| 0 <= k < |es| && CellOf(es, es[k]) == c;
      PairOfCell(es, es[k]);
      assert es[k] in es;
    }
  }

  /** The number given to an entry's cell: the position of its fields in the signal data, from 1. */
  ghost function FieldOf(es: seq<Entry>, e: Entry): (k: nat)
    requires ValidEntries(es) && e in es
  {
    CellInRange(es, e);
    Number(1, CellMask(es), CellOf(es, e), 64)
  }

  /** With fewer than 64 cells the fields are numbered 1..ncell, one per observed pair. */
  lemma FieldInRange(es: seq<Entry>, e: Entry)
    requires ValidEntries(es) && e in es && Cells(es) < 64
    ensures 1 <= FieldOf(es, e) <= Cells(es)
    ensures var m := CellMask(es); Select(m, |m|)[FieldOf(es, e) - 1] == CellOf(es, e)
  {
    var m := CellMask(es);
    CellInRange(es, e);
    CountBelowSet(m, CellOf(es, e), |m|);
    SelectRank(m, CellOf(es, e), |m|);
  }

  lemma SameFieldSamePair(es: seq<Entry>, e: Entry, f: Entry)
    requires ValidEntries(es) && e in es && f in es && Cells(es) < 64
    ensures FieldOf(es, e) == FieldOf(es, f) <==> PairOf(e) == PairOf(f)
  {
    FieldInRange(es, e);
    FieldInRange(es, f);
    if PairOf(e) == PairOf(f) {
      assert CellOf(es, e) == CellOf(es, f);
    } else if CellOf(es, e) == CellOf(es, f) {
      PairOfCell(es, e);
      PairOfCell(es, f);
    }
  }

  /** Every field belongs to an entry, and a receiver finds that entry's pair at the field's cell. */
  lemma FieldHasEntry(es: seq<Entry>, k: nat) returns (e: Entry)
    requires ValidEntries(es) && k < Cells(es) < 64
    ensures e in es && FieldOf(es, e) == k + 1
    ensures var c := Select(CellMask(es), |CellMask(es)|)[k];
            c < |CellMask(es)| && PairAt(SatMask(es), SigMask(es), c) == PairOf(e)
  {
    var m := CellMask(es);
    var c := Select(m, |m|)[k];
    SelectedIsSet(m, k, |m|);
    assert HasCell(es, es, c);
    var i :| 0 <= i < |es| && CellOf(es, es[i]) == c;
    e := es[i];
    PairOfCell(es, e);
  }
}
