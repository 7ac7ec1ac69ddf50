/** The rolling log file: what survives on disk is always the end of the log, and never less of it than
    the rolled files are sized for. The file system is a map in which append, rename and remove always
    succeed. */
module RollingLog {

  /** The log file and its numbered backups. */
  datatype Slot = Current | Backup(n: nat)

  type Files = map<Slot, string>

  function Content(files: Files, s: Slot): string {
    if s in files then files[s] else ""
  }

  /** rename: nothing happens when there is no such file. */
  function Renamed(files: Files, from: Slot, to: Slot): Files {
    if from in files then files[to := files[from]] - {from} else files
  }

  /** Backups n to 1, oldest first. */
  function Backups(files: Files, n: nat): string {
    if n == 0 then "" else Content(files, Backup(n)) + Backups(files, n - 1)
  }

  /** Everything on disk, oldest first. */
  function Log(files: Files, rolls: nat): string {
    Backups(files, rolls) + Content(files, Current)
  }

  /** The backups above m: those not written by this writer, when it has rolled m times. */
  function Older(files: Files, n: nat, m: nat): nat
    decreases n
  {
    if n <= m then 0 else |Content(files, Backup(n))| + Older(files, n - 1, m)
  }

  /** The files after a roll: every slot has moved one up, the last is gone. */
  ghost predicate Shifted(was: Files, now: Files, rolls: nat) {
    && Current !in now
    && (forall k | 1 <= k < rolls :: SameAs(was, Backup(k), now, Backup(k + 1)))
    && (rolls >= 1 ==> SameAs(was, Current, now, Backup(1)))
  }

  ghost predicate SameAs(was: Files, s: Slot, now: Files, t: Slot) {
    (s in was <==> t in now) && Content(was, s) == Content(now, t)
  }

  lemma {:induction false} BackupsShifted(was: Files, now: Files, rolls: nat, n: nat)
    requires Shifted(was, now, rolls) && 1 <= n <= rolls
    ensures Backups(now, n) == Backups(was, n - 1) + Content(was, Current)
  {
    if n > 1 {
      BackupsShifted(was, now, rolls, n - 1);
      assert SameAs(was, Backup(n - 1), now, Backup(n));
    } else {
      assert Backups(now, 1) == Content(now, Backup(1)) + "";
    }
  }

  /** Rolling removes the oldest backup from the front of the log and nothing else. */
  lemma LogShifted(was: Files, now: Files, rolls: nat)
    requires Shifted(was, now, rolls) && rolls >= 1
    ensures Log(was, rolls) == Content(was, Backup(rolls)) + Log(now, rolls)
  {
    BackupsShifted(was, now, rolls, rolls);
  }

  lemma {:induction false} OlderShifted(was: Files, now: Files, rolls: nat, n: nat, m: nat)
    requires Shifted(was, now, rolls) && m < n <= rolls
    ensures Older(was, n, m) == Older(now, n, m + 1) + |Content(was, Backup(n))|
    decreases n
  {
    if m + 1 < n {
      OlderShifted(was, now, rolls, n - 1, m);
      assert SameAs(was, Backup(n - 1), now, Backup(n));
    }
  }

  ghost predicate AllAtLeast(files: Files, n: int, size: nat) {
    forall k | 1 <= k <= n :: |Content(files, Backup(k))| >= size
  }

  ghost predicate AllBelow(files: Files, n: int, size: nat) {
    forall k | 1 <= k <= n :: |Content(files, Backup(k))| < size
  }

  /** All slots filled to the limit hold at least that many times the limit. */
  lemma {:induction false} FilledBackups(files: Files, n: nat, size: nat)
    requires AllAtLeast(files, n, size)
    ensures |Backups(files, n)| >= n * size
  {
    if n > 0 {
      FilledBackups(files, n - 1, size);
      assert n * size == (n - 1) * size + size;
    }
  }

  lemma {:induction false} BackupsLength(files: Files, n: nat, m: nat)
    requires m <= n
    ensures |Backups(files, n)| == Older(files, n, m) + |Backups(files, m)|
    decreases n
  {
    if n > m {
      BackupsLength(files, n - 1, m);
    }
  }

  function Min(a: int, b: int): int {
    if a <= b then a else b
  }

  class FileLogWriter {
    const maxFileSize: nat
    const rollCount: nat
    var files: Files
    var open: bool
    var curFileSize: nat

    /** What was on disk when the writer was made, and what has been written since. */
    ghost const initial: string
    ghost var written: string
    ghost var longest: nat
    ghost var rolled: nat
    ghost var dropped: nat

    /** What is on disk is the log from place dropped on. */
    ghost predicate KeepsEnd()
      reads this
    {
      dropped <= |initial + written| && Log(files, rollCount) == (initial + written)[dropped..]
    }

    /** The file sizes behind the promises below. */
    ghost predicate Sizes()
      reads this
    {
      && maxFileSize >= 1 && rollCount >= 1
      && (open ==> Current in files && curFileSize == |files[Current]|)
      && (rolled >= 1 && open ==> curFileSize < maxFileSize)
      && (!open ==> Current !in files)
      && AllAtLeast(files, Min(rolled, rollCount), maxFileSize)
      && AllBelow(files, Min(rolled - 1, rollCount), maxFileSize + longest)
      && (rolled <= rollCount ==> dropped + Older(files, rollCount, rolled) <= |initial|)
    }

    ghost predicate Valid()
      reads this
    {
      KeepsEnd() && Sizes()
    }

    /** The constructor opens the file, of whatever length it already is. */
    constructor (files: Files, maxFileSize: nat, rollCount: nat)
      requires maxFileSize >= 1 && rollCount >= 1
      ensures Valid() && written == "" && initial == Log(files, rollCount) && rolled == 0 && dropped == 0
      ensures this.maxFileSize == maxFileSize && this.rollCount == rollCount
    {
      this.maxFileSize, this.rollCount := maxFileSize, rollCount;
      this.files := files[Current := Content(files, Current)];
      open := true;
      curFileSize := |Content(files, Current)|;
      initial := Log(files, rollCount);
      written, longest, rolled, dropped := "", 0, 0, 0;
      new;
      SameBackups(files, this.files, rollCount);
      BackupsLength(this.files, rollCount, 0);
      assert initial + "" == initial;
    }

    /** write, the text already formatted. */
    method Write(text: string)
      requires Valid()
      modifies this
      ensures Valid() && written == old(written) + text
      ensures longest == if |text| > old(longest) then |text| else old(longest)
    {
      if !open {
        files := files[Current := ""];
        curFileSize := 0;
        open := true;
        SameBackups(old(files), files, rollCount);
      }
      Append(text);
      if curFileSize >= maxFileSize {
        open := false;
        DoRollOver();
      }
    }

    /** Between opening and rolling: as Valid, but the file may have reached its limit. */
    ghost predicate Filling(text: nat)
      reads this
    {
      && KeepsEnd()
      && maxFileSize >= 1 && rollCount >= 1
      && Current in files && curFileSize == |files[Current]|
      && (rolled >= 1 ==> curFileSize < maxFileSize + text)
      && AllAtLeast(files, Min(rolled, rollCount), maxFileSize)
      && AllBelow(files, Min(rolled - 1, rollCount), maxFileSize + longest)
      && (rolled <= rollCount ==> dropped + Older(files, rollCount, rolled) <= |initial|)
    }

    method Append(text: string)
      requires Filling(0)
      modifies this`files, this`curFileSize, this`written, this`longest
      ensures Filling(|text|) && written == old(written) + text
      ensures longest == if |text| > old(longest) then |text| else old(longest)
    {
      hide Older, Backups;
      ghost var was := files;
      files := files[Current := files[Current] + text];
      curFileSize := curFileSize + |text|;
      written := written + text;
      if |text| > longest {
        longest := |text|;
      }
      SameBackups(was, files, rollCount);
      EndGrows(initial + old(written), Backups(files, rollCount), Content(was, Current), text, dropped);
      assert initial + written == initial + old(written) + text;
    }

    /** doRollOver. */
    method DoRollOver()
      requires Filling(longest) && curFileSize >= maxFileSize
      modifies this`files, this`rolled, this`dropped
      ensures KeepsEnd() && Current !in files
      ensures rolled == old(rolled) + 1
      ensures AllAtLeast(files, Min(rolled, rollCount), maxFileSize)
      ensures AllBelow(files, Min(rolled - 1, rollCount), maxFileSize + longest)
      ensures rolled <= rollCount ==> dropped + Older(files, rollCount, rolled) <= |initial|
    {
      hide Older, Backups, AllAtLeast, Shifted;
      ghost var was := files;
      Shift();
      LogShifted(was, files, rollCount);
      if rolled < rollCount {
        OlderShifted(was, files, rollCount, rollCount, rolled);
      }
      SizesMovedUp(was, files, rollCount, Min(rolled, rollCount), maxFileSize);
      SizesMovedUp(was, files, rollCount, Min(rolled - 1, rollCount), maxFileSize + longest);
      dropped := dropped + |Content(was, Backup(rollCount))|;
      rolled := rolled + 1;
    }

    /** Remove the last backup and rename the others, from the highest down. */
    method Shift()
      requires rollCount >= 1
      modifies this`files
      ensures Shifted(old(files), files, rollCount)
    {
      files := files - {Backup(rollCount)};
      var idx := rollCount - 1;
      while idx > 0
        invariant 0 <= idx < rollCount && Moving(old(files), files, idx, rollCount)
      {
        RenameOne(old(files), files, idx, rollCount);
        files := Renamed(files, Backup(idx), Backup(idx + 1));
        idx := idx - 1;
      }
      files := Renamed(files, Current, Backup(1));
    }

    /** What the writer's users rely on: the disk holds the end of the log, and of what was written at
        least as much as the backups are sized for, or all of it. */
    lemma Retention()
      requires Valid()
      ensures exists cut: nat :: cut <= |initial + written| && Log(files, rollCount) == (initial + written)[cut..]
                                 && |initial + written| - (if cut > |initial| then cut else |initial|)
                                    >= Min(|written|, rollCount * maxFileSize)
    {
      if dropped > |initial| {
        FilledBackups(files, rollCount, maxFileSize);
      }
    }
  }

  /** The renames done down to idx: the slots above have moved, the others not yet. */
  ghost predicate Moving(was: Files, now: Files, idx: nat, rolls: nat) {
    && Backup(idx + 1) !in now
    && (forall k | 1 <= k <= idx :: SameAs(was, Backup(k), now, Backup(k)))
    && (forall k | idx < k < rolls :: SameAs(was, Backup(k), now, Backup(k + 1)))
    && SameAs(was, Current, now, Current)
  }

  lemma RenameOne(was: Files, now: Files, idx: nat, rolls: nat)
    requires 1 <= idx < rolls && Moving(was, now, idx, rolls)
    ensures Moving(was, Renamed(now, Backup(idx), Backup(idx + 1)), idx - 1, rolls)
  {
    assert SameAs(was, Backup(idx), now, Backup(idx));
  }

  lemma EndGrows(all: string, backups: string, current: string, text: string, cut: nat)
    requires cut <= |all| && backups + current == all[cut..]
    ensures backups + (current + text) == (all + text)[cut..]
  {
    assert backups + (current + text) == (backups + current) + text;
  }

  lemma {:induction false} SameBackups(a: Files, b: Files, n: nat)
    requires forall k | 1 <= k <= n :: Content(a, Backup(k)) == Content(b, Backup(k))
    ensures Backups(a, n) == Backups(b, n)
    ensures forall m | 0 <= m <= n :: Older(a, n, m) == Older(b, n, m)
  {
    if n > 0 {
      SameBackups(a, b, n - 1);
    }
  }

  lemma MovedUp(was: Files, now: Files, rolls: nat)
    requires Shifted(was, now, rolls) && rolls >= 1
    ensures Content(now, Backup(1)) == Content(was, Current)
    ensures forall k | 1 < k <= rolls :: Content(now, Backup(k)) == Content(was, Backup(k - 1))
  {
    forall k | 1 < k <= rolls
      ensures Content(now, Backup(k)) == Content(was, Backup(k - 1))
    {
      assert SameAs(was, Backup(k - 1), now, Backup(k));
    }
  }

  /** The rolled file joins those behind it. */
  lemma SizesMovedUp(was: Files, now: Files, rolls: nat, n: int, size: nat)
    requires Shifted(was, now, rolls) && rolls >= 1
    ensures AllAtLeast(was, n, size) && |Content(was, Current)| >= size ==> AllAtLeast(now, Min(n + 1, rolls), size)
    ensures AllBelow(was, n, size) && |Content(was, Current)| < size ==> AllBelow(now, Min(n + 1, rolls), size)
  {
    MovedUp(was, now, rolls);
    forall k | 1 <= k <= Min(n + 1, rolls)
      ensures AllAtLeast(was, n, size) && |Content(was, Current)| >= size ==> |Content(now, Backup(k))| >= size
      ensures AllBelow(was, n, size) && |Content(was, Current)| < size ==> |Content(now, Backup(k))| < size
    {
      assert k > 1 ==> Content(now, Backup(k)) == Content(was, Backup(k - 1));
    }
  }
}
