/** The INI loader and its printer. Lines are classified one by one; comment and unknown lines are carried
    forward to the next entry. Loading what has been saved gives the store back exactly when every name,
    key, value and comment can be told apart again, which is so for everything ever loaded. */
module IniFile {

  // ---------- lines ----------

  /** The lines of a text; a last line without a newline counts when it is not empty. */
  function Lines(text: string): seq<string> {
    if text == "" then []
    else
      var n := LineLength(text);
      if n == |text| then [text] else [text[..n]] + Lines(text[n + 1..])
  }

  /** Up to the first newline, or all of it. */
  function LineLength(text: string): (n: nat)
    ensures n <= |text|
    ensures n < |text| ==> text[n] == '\n'
    ensures NoNewline(text[..n])
  {
    if text == "" || text[0] == '\n' then 0
    else
      var n := LineLength(text[1..]);
      assert text[..n + 1] == [text[0]] + text[1..][..n];
      n + 1
  }

  predicate NoNewline(s: string) {
    forall i | 0 <= i < |s| :: s[i] != '\n'
  }

  /** Each line with a newline behind it. */
  function Unlines(ls: seq<string>): string {
    if |ls| == 0 then "" else Unlines(ls[..|ls| - 1]) + ls[|ls| - 1] + "\n"
  }

  lemma {:induction false} LineLengthIs(text: string, n: nat)
    requires n <= |text| && NoNewline(text[..n]) && (n < |text| ==> text[n] == '\n')
    ensures LineLength(text) == n
  {
    if n > 0 {
      assert text[..n][0] == text[0];
      assert text[1..][..n - 1] == text[..n][1..];
      LineLengthIs(text[1..], n - 1);
    }
  }

  lemma LinesCons(line: string, text: string)
    requires NoNewline(line)
    ensures Lines(line + "\n" + text) == [line] + Lines(text)
  {
    var t := line + "\n" + text;
    assert t[..|line|] == line;
    LineLengthIs(t, |line|);
    assert t[|line| + 1..] == text;
  }

  lemma {:induction false} UnlinesConcat(a: seq<string>, b: seq<string>)
    ensures Unlines(a + b) == Unlines(a) + Unlines(b)
  {
    if |b| == 0 {
      assert a + b == a;
    } else {
      UnlinesConcat(a, b[..|b| - 1]);
      assert (a + b)[..|a + b| - 1] == a + b[..|b| - 1];
    }
  }

  lemma UnlinesOne(line: string)
    ensures Unlines([line]) == line + "\n"
  {
    assert Unlines([]) + line + "\n" == line + "\n";
  }

  lemma Regroup(a: string, b: string, c: string, d: string)
    ensures a + b + c + d == a + (b + c + d)
  {
  }

  /** Lines written one after another are read back one after another. */
  lemma {:induction false} LinesOfUnlines(ls: seq<string>, text: string)
    requires forall i | 0 <= i < |ls| :: NoNewline(ls[i])
    ensures Lines(Unlines(ls) + text) == ls + Lines(text)
  {
    hide Lines;
    if |ls| == 0 {
      assert Unlines(ls) + text == text;
    } else {
      var n := |ls| - 1;
      LinesOfUnlines(ls[..n], ls[n] + "\n" + text);
      LinesCons(ls[n], text);
      Regroup(Unlines(ls[..n]), ls[n], "\n", text);
    }
  }

  lemma {:induction false} LinesHaveNoNewline(text: string)
    ensures forall l | l in Lines(text) :: NoNewline(l)
    decreases |text|
  {
    if text != "" && LineLength(text) < |text| {
      LinesHaveNoNewline(text[LineLength(text) + 1..]);
    } else if text != "" {
      assert text[..|text|] == text;
    }
  }

  // ---------- classification ----------

  datatype Flag = EmptyLine | CommentLine | SectionLine | EntryLine | UnknownLine

  /** getFirstVisibleChar: NUL when there is none. */
  function FirstVisible(line: string): char {
    if line == "" then '\0'
    else if line[0] != ' ' && line[0] != '\t' then line[0] else FirstVisible(line[1..])
  }

  /** find_first_of, or the length. */
  function IndexOf(s: string, c: char): (k: nat)
    ensures k <= |s|
    ensures k < |s| ==> s[k] == c
    ensures forall i | 0 <= i < k :: s[i] != c
  {
    if s == "" || s[0] == c then 0 else 1 + IndexOf(s[1..], c)
  }

  /** find_last_of, or -1. */
  function LastIndexOf(s: string, c: char): (k: int)
    ensures -1 <= k < |s|
    ensures k >= 0 ==> s[k] == c
    ensures forall i | k < i < |s| :: s[i] != c
  {
    if s == "" then -1 else if s[|s| - 1] == c then |s| - 1 else LastIndexOf(s[..|s| - 1], c)
  }

  /** parseLine. */
  function Classify(line: string): Flag {
    var c := FirstVisible(line);
    if line == "" then EmptyLine
    else if c == ';' || c == '#' then CommentLine
    else if c == '[' then SectionLine
    else if IndexOf(line, '=') < |line| then EntryLine
    else UnknownLine
  }

  /** parseSectionName: between the first '[' and the last ']'; without a ']', all from the '['. */
  function SectionName(line: string): string {
    var start, stop := IndexOf(line, '['), LastIndexOf(line, ']');
    if stop < 0 then line[start..] else if start < stop then line[start + 1..stop] else ""
  }

  datatype Entry = Entry(key: string, value: string, comment: string)
  datatype Section = Section(name: string, entries: seq<Entry>)
  datatype Store = Store(fileComment: string, sections: seq<Section>)

  /** parseEntry: split at the first '='. */
  function ParseEntry(line: string, comment: string): Entry {
    var k := IndexOf(line, '=');
    Entry(line[..k], if k < |line| then line[k + 1..] else line, comment)
  }

  // ---------- what the lines mean ----------

  /** The first character that is neither a space nor a tab decides: ; or # make a comment, [ a section; any
      other line is an entry exactly when it has an = somewhere. */
  lemma LineMeans(pad: string, c: char, rest: string)
    requires Blank(pad) && c != ' ' && c != '\t' && c != '\0'
    ensures var line := pad + [c] + rest;
            Classify(line) == if c == ';' || c == '#' then CommentLine else if c == '[' then SectionLine
                              else if '=' in line then EntryLine else UnknownLine
  {
    var line := pad + [c] + rest;
    assert line == pad + ([c] + rest);
    FirstVisibleOf(pad, [c] + rest);
    if IndexOf(line, '=') < |line| {
      assert line[IndexOf(line, '=')] in line;
    }
  }

  /** An empty line is skipped; one of spaces and tabs is carried like an unknown one. */
  lemma BlankMeans(pad: string)
    requires Blank(pad)
    ensures Classify(pad) == if pad == "" then EmptyLine else UnknownLine
  {
    FirstVisibleOf(pad, "");
    assert pad + "" == pad;
  }

  /** A section is named by what stands between its brackets. */
  lemma SectionNamed(pad: string, name: string, rest: string)
    requires '[' !in pad && ']' !in rest
    ensures SectionName(pad + "[" + name + "]" + rest) == name
  {
    var line, start, stop := pad + "[" + name + "]" + rest, |pad|, |pad| + |name| + 1;
    assert line[start] == '[' && line[stop] == ']';
    forall i | 0 <= i < start
      ensures line[i] != '['
    {
      assert line[i] == pad[i];
    }
    forall i | stop < i < |line|
      ensures line[i] != ']'
    {
      assert line[i] == rest[i - stop - 1];
    }
    assert IndexOf(line, '[') == start && LastIndexOf(line, ']') == stop;
    assert line[start + 1..stop] == name;
  }

  /** An entry is split at its first =. */
  lemma EntrySplit(key: string, value: string, comment: string)
    requires '=' !in key
    ensures ParseEntry(key + "=" + value, comment) == Entry(key, value, comment)
  {
    var line := key + "=" + value;
    assert line[|key|] == '=';
    forall i | 0 <= i < |key|
      ensures line[i] != '='
    {
      assert line[i] == key[i];
    }
    assert IndexOf(line, '=') == |key|;
  }

  /** How a section and an entry are printed. */
  lemma PrintedAs(ss: seq<Section>, name: string, es: seq<Entry>, e: Entry)
    ensures EntriesText(es + [e]) == EntriesText(es) + e.comment + (e.key + "=" + e.value + "\n")
    ensures SectionsText(ss + [Section(name, es)]) == SectionsText(ss) + ("\n[" + name + "]\n") + EntriesText(es)
  {
    assert (es + [e])[..|es|] == es && (ss + [Section(name, es)])[..|ss|] == ss;
  }

  // ---------- load, as a fold over lines ----------

  /** The sections complete so far, the one being filled, and the comment waiting for an entry. */
  datatype Parse = Parse(done: seq<Section>, sec: Section, comment: string)

  const NOTHING := Section("", [])

  function Complete(p: Parse): seq<Section> {
    if p.sec == NOTHING then p.done else p.done + [p.sec]
  }

  function StepLine(p: Parse, line: string): Parse {
    match Classify(line)
    case SectionLine => Parse(Complete(p), Section(SectionName(line), []), p.comment)
    case EntryLine =>
      Parse(p.done, Section(p.sec.name, p.sec.entries + [ParseEntry(line, p.comment)]), "")
    case EmptyLine => p
    case CommentLine => Parse(p.done, p.sec, p.comment + line + "\n")
    case UnknownLine => Parse(p.done, p.sec, p.comment + line + "\n")
  }

  function Body(p: Parse, ls: seq<string>): Parse {
    if |ls| == 0 then p else StepLine(Body(p, ls[..|ls| - 1]), ls[|ls| - 1])
  }

  /** The number of comment lines at the top. */
  function HeaderLines(ls: seq<string>): (n: nat)
    ensures n <= |ls|
    ensures forall i | 0 <= i < n :: Classify(ls[i]) == CommentLine
    ensures n < |ls| ==> Classify(ls[n]) != CommentLine
  {
    if |ls| == 0 || Classify(ls[0]) != CommentLine then 0 else 1 + HeaderLines(ls[1..])
  }

  const START := Parse([], NOTHING, "")

  function Loaded(ls: seq<string>): Store {
    var h := HeaderLines(ls);
    Store(Unlines(ls[..h]), Complete(Body(START, ls[h..])))
  }

  function Load(text: string): Store {
    Loaded(Lines(text))
  }

  // ---------- save ----------

  function EntriesText(es: seq<Entry>): string {
    if |es| == 0 then ""
    else
      var e := es[|es| - 1];
      EntriesText(es[..|es| - 1]) + e.comment + (e.key + "=" + e.value + "\n")
  }

  function SectionsText(ss: seq<Section>): string {
    if |ss| == 0 then ""
    else
      var s := ss[|ss| - 1];
      SectionsText(ss[..|ss| - 1]) + ("\n[" + s.name + "]\n") + EntriesText(s.entries)
  }

  function Save(x: Store): string {
    x.fileComment + SectionsText(x.sections)
  }

  // ---------- what survives saving and loading ----------

  predicate CarriedLine(line: string) {
    NoNewline(line) && (Classify(line) == CommentLine || Classify(line) == UnknownLine)
  }

  /** Whole lines, all of which are carried forward. */
  ghost predicate GoodComment(c: string) {
    c == Unlines(Lines(c)) && forall l | l in Lines(c) :: CarriedLine(l)
  }

  ghost predicate GoodFileComment(c: string) {
    c == Unlines(Lines(c)) && forall l | l in Lines(c) :: Classify(l) == CommentLine
  }

  /** A key without '=' that does not look like a comment or a section. */
  predicate GoodEntry(e: Entry) {
    && NoNewline(e.key) && NoNewline(e.value)
    && IndexOf(e.key, '=') == |e.key|
    && FirstVisible(e.key) != ';' && FirstVisible(e.key) != '#' && FirstVisible(e.key) != '['
  }

  ghost predicate GoodSection(s: Section) {
    && NoNewline(s.name) && s != NOTHING
    && forall e | e in s.entries :: GoodEntry(e) && GoodComment(e.comment)
  }

  ghost predicate WellFormed(x: Store) {
    GoodFileComment(x.fileComment) && forall s | s in x.sections :: GoodSection(s)
  }

  lemma LinesOfWhole(ls: seq<string>)
    requires forall i | 0 <= i < |ls| :: NoNewline(ls[i])
    ensures Lines(Unlines(ls)) == ls
  {
    LinesOfUnlines(ls, "");
    assert Unlines(ls) + "" == Unlines(ls) && ls + Lines("") == ls;
  }

  // ---------- everything loaded is well formed ----------

  predicate Blank(s: string) {
    forall i | 0 <= i < |s| :: s[i] == ' ' || s[i] == '\t'
  }

  lemma {:induction false} FirstVisibleOf(a: string, b: string)
    ensures FirstVisible(a + b) == if Blank(a) then FirstVisible(b) else FirstVisible(a)
    ensures Blank(a) ==> FirstVisible(a) == '\0'
  {
    if a == "" {
      assert a + b == b;
    } else {
      assert (a + b)[1..] == a[1..] + b;
      FirstVisibleOf(a[1..], b);
      assert Blank(a) <==> (a[0] == ' ' || a[0] == '\t') && Blank(a[1..]);
    }
  }

  lemma IndexOfIs(s: string, c: char, k: nat)
    requires k <= |s| && (k < |s| ==> s[k] == c) && forall i | 0 <= i < k :: s[i] != c
    ensures IndexOf(s, c) == k
  {
  }

  lemma ParsedEntryIsGood(line: string, comment: string)
    requires NoNewline(line) && Classify(line) == EntryLine
    ensures GoodEntry(ParseEntry(line, comment))
  {
    var k := IndexOf(line, '=');
    assert line == line[..k] + line[k..];
    FirstVisibleOf(line[..k], line[k..]);
    IndexOfIs(line[..k], '=', k);
  }

  lemma GoodCommentGrows(c: string, line: string)
    requires GoodComment(c) && CarriedLine(line)
    ensures GoodComment(c + line + "\n")
  {
    var ls := Lines(c);
    UnlinesConcat(ls, [line]);
    UnlinesOne(line);
    LinesHaveNoNewline(c);
    assert Unlines(ls + [line]) == c + line + "\n";
    LinesOfWhole(ls + [line]);
  }

  lemma NoComment()
    ensures GoodComment("")
  {
  }

  /** What holds between lines while loading. */
  ghost predicate GoodParse(p: Parse) {
    && (forall s | s in p.done :: GoodSection(s))
    && NoNewline(p.sec.name) && (forall e | e in p.sec.entries :: GoodEntry(e) && GoodComment(e.comment))
    && GoodComment(p.comment)
  }

  lemma StepStaysGood(p: Parse, line: string)
    requires GoodParse(p) && NoNewline(line)
    ensures GoodParse(StepLine(p, line))
  {
    hide GoodComment, GoodEntry, FirstVisible, IndexOf, LastIndexOf;
    NoComment();
    match Classify(line)
    case SectionLine =>
      assert NoNewline(SectionName(line));
    case EntryLine =>
      ParsedEntryIsGood(line, p.comment);
    case EmptyLine =>
    case CommentLine =>
      GoodCommentGrows(p.comment, line);
    case UnknownLine =>
      GoodCommentGrows(p.comment, line);
  }

  lemma {:induction false} BodyStaysGood(ls: seq<string>)
    requires forall l | l in ls :: NoNewline(l)
    ensures GoodParse(Body(START, ls))
  {
    if |ls| == 0 {
      NoComment();
    } else {
      BodyStaysGood(ls[..|ls| - 1]);
      StepStaysGood(Body(START, ls[..|ls| - 1]), ls[|ls| - 1]);
    }
  }

  /** Whatever the text, what is loaded from it is well formed. */
  lemma LoadedIsWellFormed(text: string)
    ensures WellFormed(Load(text))
  {
    hide GoodSection, GoodComment, GoodEntry;
    var ls := Lines(text);
    var h := HeaderLines(ls);
    LinesHaveNoNewline(text);
    LinesOfWhole(ls[..h]);
    BodyStaysGood(ls[h..]);
    CompleteIsGood(Body(START, ls[h..]));
  }

  lemma CompleteIsGood(p: Parse)
    requires GoodParse(p)
    ensures forall s | s in Complete(p) :: GoodSection(s)
  {
  }

  // ---------- well-formed stores come back ----------

  function EntryLines(es: seq<Entry>): seq<string> {
    if |es| == 0 then []
    else
      var e := es[|es| - 1];
      EntryLines(es[..|es| - 1]) + (Lines(e.comment) + [e.key + "=" + e.value])
  }

  function SectionLines(ss: seq<Section>): seq<string> {
    if |ss| == 0 then []
    else
      var s := ss[|ss| - 1];
      SectionLines(ss[..|ss| - 1]) + (["", "[" + s.name + "]"] + EntryLines(s.entries))
  }

  ghost predicate Plain(ls: seq<string>) {
    forall l | l in ls :: NoNewline(l)
  }

  lemma {:induction false} EntriesTextIs(es: seq<Entry>)
    requires forall e | e in es :: GoodEntry(e) && GoodComment(e.comment)
    ensures EntriesText(es) == Unlines(EntryLines(es)) && Plain(EntryLines(es))
  {
    hide Lines, Unlines, GoodEntry, GoodComment, Plain;
    if |es| == 0 {
      NoLines();
    } else {
      var e, before := es[|es| - 1], es[..|es| - 1];
      EntriesTextIs(before);
      EntryTextIs(e);
      UnlinesConcat(EntryLines(before), Lines(e.comment) + [e.key + "=" + e.value]);
      PlainConcat(EntryLines(before), Lines(e.comment) + [e.key + "=" + e.value]);
      Assoc(EntriesText(before), e.comment, e.key + "=" + e.value + "\n");
    }
  }

  lemma PlainConcat(a: seq<string>, b: seq<string>)
    requires Plain(a) && Plain(b)
    ensures Plain(a + b)
  {
  }

  lemma Assoc(a: string, b: string, c: string)
    ensures a + b + c == a + (b + c)
  {
  }

  lemma NoLines()
    ensures Unlines([]) == "" && Plain([])
  {
  }

  lemma EntryTextIs(e: Entry)
    requires GoodEntry(e) && GoodComment(e.comment)
    ensures e.comment + (e.key + "=" + e.value + "\n") == Unlines(Lines(e.comment) + [e.key + "=" + e.value])
    ensures Plain(Lines(e.comment) + [e.key + "=" + e.value])
  {
    var line := e.key + "=" + e.value;
    LinesHaveNoNewline(e.comment);
    UnlinesConcat(Lines(e.comment), [line]);
    UnlinesOne(line);
  }

  lemma {:induction false} SectionsTextIs(ss: seq<Section>)
    requires forall s | s in ss :: GoodSection(s)
    ensures SectionsText(ss) == Unlines(SectionLines(ss)) && Plain(SectionLines(ss))
  {
    if |ss| == 0 {
      NoLines();
    } else {
      hide Unlines, EntryLines, EntriesText, Plain, GoodSection;
      var s, before := ss[|ss| - 1], ss[..|ss| - 1];
      SectionsTextIs(before);
      SectionTextIs(s);
      UnlinesConcat(SectionLines(before), ["", "[" + s.name + "]"] + EntryLines(s.entries));
      PlainConcat(SectionLines(before), ["", "[" + s.name + "]"] + EntryLines(s.entries));
      Assoc(SectionsText(before), "\n[" + s.name + "]\n", EntriesText(s.entries));
    }
  }

  lemma SectionTextIs(s: Section)
    requires GoodSection(s)
    ensures ("\n[" + s.name + "]\n") + EntriesText(s.entries)
         == Unlines(["", "[" + s.name + "]"] + EntryLines(s.entries))
    ensures Plain(["", "[" + s.name + "]"] + EntryLines(s.entries))
  {
    hide GoodEntry, GoodComment, Unlines, EntriesText, EntryLines;
    var head := "[" + s.name + "]";
    EntriesTextIs(s.entries);
    HeadText(head);
    UnlinesConcat(["", head], EntryLines(s.entries));
    assert "\n[" + s.name + "]\n" == "\n" + head + "\n";
  }

  lemma HeadText(head: string)
    ensures Unlines(["", head]) == "\n" + head + "\n"
  {
    assert ["", head][..1] == [""];
    UnlinesOne("");
  }

  lemma {:induction false} BodyConcat(p: Parse, a: seq<string>, b: seq<string>)
    ensures Body(p, a + b) == Body(Body(p, a), b)
  {
    if |b| == 0 {
      assert a + b == a;
    } else {
      BodyConcat(p, a, b[..|b| - 1]);
      assert (a + b)[..|a + b| - 1] == a + b[..|b| - 1];
    }
  }

  lemma BodyNone(p: Parse)
    ensures Body(p, []) == p
  {
  }

  lemma BodyOne(p: Parse, line: string)
    ensures Body(p, [line]) == StepLine(p, line)
  {
    assert Body(p, []) == p;
  }

  lemma {:induction false} CarryLines(p: Parse, ls: seq<string>)
    requires forall l | l in ls :: CarriedLine(l)
    ensures Body(p, ls) == Parse(p.done, p.sec, p.comment + Unlines(ls))
  {
    if |ls| == 0 {
      assert p.comment + "" == p.comment;
    } else {
      CarryLines(p, ls[..|ls| - 1]);
      assert CarriedLine(ls[|ls| - 1]);
      Regroup(p.comment, Unlines(ls[..|ls| - 1]), ls[|ls| - 1], "\n");
    }
  }

  lemma EntryLineParses(e: Entry)
    requires GoodEntry(e)
    ensures Classify(e.key + "=" + e.value) == EntryLine
    ensures ParseEntry(e.key + "=" + e.value, e.comment) == e
  {
    var line := e.key + "=" + e.value;
    assert line == e.key + ("=" + e.value);
    FirstVisibleOf(e.key, "=" + e.value);
    assert FirstVisible("=" + e.value) == '=';
    forall i | 0 <= i < |e.key|
      ensures line[i] != '='
    {
      assert line[i] == e.key[i];
    }
    IndexOfIs(line, '=', |e.key|);
    assert line[..|e.key|] == e.key && line[|e.key| + 1..] == e.value;
  }

  lemma {:induction false} EntriesParse(done: seq<Section>, name: string, es: seq<Entry>)
    requires forall e | e in es :: GoodEntry(e) && GoodComment(e.comment)
    ensures Body(Parse(done, Section(name, []), ""), EntryLines(es)) == Parse(done, Section(name, es), "")
  {
    hide Body, GoodEntry, GoodComment, Lines;
    var start := Parse(done, Section(name, []), "");
    if |es| == 0 {
      BodyNone(start);
    } else {
      var e, before := es[|es| - 1], es[..|es| - 1];
      var line := e.key + "=" + e.value;
      var mid := Parse(done, Section(name, before), "");
      EntriesParse(done, name, before);
      BodyConcat(start, EntryLines(before), Lines(e.comment) + [line]);
      OneEntryParses(mid, e);
      assert before + [e] == es;
    }
  }

  lemma OneEntryParses(p: Parse, e: Entry)
    requires GoodEntry(e) && GoodComment(e.comment) && p.comment == ""
    ensures Body(p, Lines(e.comment) + [e.key + "=" + e.value])
         == Parse(p.done, Section(p.sec.name, p.sec.entries + [e]), "")
  {
    var line := e.key + "=" + e.value;
    BodyConcat(p, Lines(e.comment), [line]);
    CarryLines(p, Lines(e.comment));
    assert "" + e.comment == e.comment;
    BodyOne(Parse(p.done, p.sec, e.comment), line);
    EntryLineParses(e);
  }

  lemma SectionLineParses(name: string)
    ensures Classify("[" + name + "]") == SectionLine && SectionName("[" + name + "]") == name
  {
    var line := "[" + name + "]";
    assert FirstVisible(line) == '[';
    IndexOfIs(line, '[', 0);
    assert LastIndexOf(line, ']') == |line| - 1;
    assert line[1..|line| - 1] == name;
  }

  lemma OneSectionParses(p: Parse, s: Section)
    requires GoodSection(s) && p.comment == ""
    ensures Body(p, ["", "[" + s.name + "]"] + EntryLines(s.entries)) == Parse(Complete(p), s, "")
  {
    var head := "[" + s.name + "]";
    BodyConcat(p, ["", head], EntryLines(s.entries));
    assert ["", head] == [""] + [head];
    BodyConcat(p, [""], [head]);
    BodyOne(p, "");
    BodyOne(p, head);
    SectionLineParses(s.name);
    EntriesParse(Complete(p), s.name, s.entries);
  }

  lemma CompleteWith(done: seq<Section>, s: Section)
    requires GoodSection(s)
    ensures Complete(Parse(done, s, "")) == done + [s]
  {
  }

  lemma {:induction false} SectionsParse(ss: seq<Section>)
    requires forall s | s in ss :: GoodSection(s)
    ensures Body(START, SectionLines(ss)).comment == "" && Complete(Body(START, SectionLines(ss))) == ss
  {
    hide Body, GoodSection, EntryLines;
    if |ss| == 0 {
      BodyNone(START);
    } else {
      var s, before := ss[|ss| - 1], ss[..|ss| - 1];
      SectionsParse(before);
      BodyConcat(START, SectionLines(before), ["", "[" + s.name + "]"] + EntryLines(s.entries));
      OneSectionParses(Body(START, SectionLines(before)), s);
      CompleteWith(before, s);
      assert before + [s] == ss;
    }
  }

  lemma {:induction false} HeaderLinesIs(a: seq<string>, b: seq<string>)
    requires forall l | l in a :: Classify(l) == CommentLine
    requires |b| > 0 ==> Classify(b[0]) != CommentLine
    ensures HeaderLines(a + b) == |a|
  {
    if |a| == 0 {
      assert a + b == b;
    } else {
      assert a[0] in a && (a + b)[1..] == a[1..] + b;
      HeaderLinesIs(a[1..], b);
    }
  }

  lemma {:induction false} SectionsStartEmpty(ss: seq<Section>)
    ensures SectionLines(ss) != [] ==> SectionLines(ss)[0] == ""
  {
    if |ss| > 0 {
      SectionsStartEmpty(ss[..|ss| - 1]);
    }
  }

  lemma WellFormedComesBack(x: Store)
    requires WellFormed(x)
    ensures Load(Save(x)) == x
  {
    hide Lines, Body, HeaderLines, GoodSection, SectionLines, SectionsText, Classify;
    var a, b := Lines(x.fileComment), SectionLines(x.sections);
    SectionsTextIs(x.sections);
    UnlinesConcat(a, b);
    LinesHaveNoNewline(x.fileComment);
    LinesOfWhole(a + b);
    SectionsStartEmpty(x.sections);
    EmptyIsNoComment();
    HeaderLinesIs(a, b);
    assert (a + b)[..|a|] == a && (a + b)[|a|..] == b;
    SectionsParse(x.sections);
  }

  lemma EmptyIsNoComment()
    ensures Classify("") == EmptyLine
  {
  }

  /** Exactly the well-formed stores survive saving and loading. */
  lemma SurvivesIffWellFormed(x: Store)
    ensures Load(Save(x)) == x <==> WellFormed(x)
  {
    hide Load, Save, WellFormed;
    LoadedIsWellFormed(Save(x));
    if WellFormed(x) {
      WellFormedComesBack(x);
    }
  }

  /** A loaded file survives: saving it and loading it again changes nothing. */
  lemma LoadSaveLoad(text: string)
    ensures Load(Save(Load(text))) == Load(text)
  {
    hide Load, Save, WellFormed;
    LoadedIsWellFormed(text);
    SurvivesIffWellFormed(Load(text));
  }

  // ---------- comments go to the next entry ----------

  function EntryComments(es: seq<Entry>): string {
    if |es| == 0 then "" else EntryComments(es[..|es| - 1]) + es[|es| - 1].comment
  }

  function SectionComments(ss: seq<Section>): string {
    if |ss| == 0 then "" else SectionComments(ss[..|ss| - 1]) + EntryComments(ss[|ss| - 1].entries)
  }

  /** The comment and unknown lines of a body. */
  function CarriedText(ls: seq<string>): string {
    if |ls| == 0 then ""
    else
      var line := ls[|ls| - 1];
      CarriedText(ls[..|ls| - 1])
      + (if Classify(line) == CommentLine || Classify(line) == UnknownLine then line + "\n" else "")
  }

  /** No comment or unknown line is lost or moved past another: those of the body are, in order, the
      comments of the entries and then what still waits for one. */
  lemma {:induction false} CommentsCarried(ls: seq<string>)
    ensures var p := Body(START, ls);
            SectionComments(p.done) + EntryComments(p.sec.entries) + p.comment == CarriedText(ls)
  {
    hide Classify;
    if |ls| > 0 {
      var p, line := Body(START, ls[..|ls| - 1]), ls[|ls| - 1];
      CommentsCarried(ls[..|ls| - 1]);
      CommentStep(p, line);
    }
  }

  lemma CommentStep(p: Parse, line: string)
    ensures var q := StepLine(p, line);
            SectionComments(q.done) + EntryComments(q.sec.entries) + q.comment
            == SectionComments(p.done) + EntryComments(p.sec.entries) + p.comment
               + (if Classify(line) == CommentLine || Classify(line) == UnknownLine then line + "\n" else "")
  {
    hide Classify, ParseEntry, SectionName;
    var a, b, c := SectionComments(p.done), EntryComments(p.sec.entries), p.comment;
    match Classify(line)
    case SectionLine =>
      CompleteComments(p);
      assert a + b + "" + c == a + b + c + "";
    case EntryLine =>
      var e := ParseEntry(line, p.comment);
      EntryKeepsComment(line, p.comment);
      assert (p.sec.entries + [e])[..|p.sec.entries|] == p.sec.entries;
      assert a + (b + c) + "" == a + b + c + "";
    case EmptyLine =>
      assert a + b + c + "" == a + b + c;
    case CommentLine =>
      assert a + b + (c + line + "\n") == a + b + c + (line + "\n");
    case UnknownLine =>
      assert a + b + (c + line + "\n") == a + b + c + (line + "\n");
  }

  lemma EntryKeepsComment(line: string, comment: string)
    ensures ParseEntry(line, comment).comment == comment
  {
  }

  lemma CompleteComments(p: Parse)
    ensures SectionComments(Complete(p)) == SectionComments(p.done) + EntryComments(p.sec.entries)
  {
    if p.sec == NOTHING {
      assert SectionComments(p.done) + "" == SectionComments(p.done);
    } else {
      assert (p.done + [p.sec])[..|p.done|] == p.done;
    }
  }

  // ---------- the class ----------

  /** An input stream: what is left, whether its end has been seen, whether the last read succeeded. */
  datatype Stream = Stream(rest: string, eof: bool, ok: bool)

  /** getline: at the end of the stream the line keeps what it held, unless nothing was left to find out. */
  function GetLine(s: Stream, line: string): (Stream, string) {
    if !s.ok || s.eof then (Stream(s.rest, s.eof, false), line)
    else if s.rest == "" then (Stream("", true, false), "")
    else
      var n := LineLength(s.rest);
      if n == |s.rest| then (Stream("", true, true), s.rest)
      else (Stream(s.rest[n + 1..], false, true), s.rest[..n])
  }

  /** The lines still to come. */
  function Pending(s: Stream): seq<string> {
    if !s.ok || s.eof then [] else Lines(s.rest)
  }

  lemma GetLineTakes(s: Stream, line: string)
    ensures var (t, l) := GetLine(s, line);
            if t.ok then Pending(s) == [l] + Pending(t) else Pending(s) == [] && Pending(t) == []
  {
    if s.ok && !s.eof && s.rest != "" {
      assert [s.rest] + [] == [s.rest];
    }
  }

  lemma PendingAtStart(text: string)
    ensures Pending(Stream(text, false, true)) == Lines(text)
  {
  }

  lemma BodyCons(p: Parse, line: string, ls: seq<string>)
    ensures Body(p, [line] + ls) == Body(StepLine(p, line), ls)
  {
    BodyConcat(p, [line], ls);
    BodyOne(p, line);
  }

  class IniFile {
    var fileComment: string
    var sections: seq<Section>

    function View(): Store
      reads this
    {
      Store(fileComment, sections)
    }

    constructor ()
      ensures View() == Store("", [])
    {
      fileComment, sections := "", [];
    }

    /** load, the file open. */
    method LoadText(text: string)
      modifies this
      ensures View() == Load(text)
    {
      fileComment, sections := "", [];
      var flag, line, s := LoadHeader(text);
      ghost var ls := Lines(text);
      ghost var target := Complete(Body(START, ls[HeaderLines(ls)..]));
      var sec, comment, more := NOTHING, "", true;
      ghost var read := s.ok;
      if !read {
        assert ls[HeaderLines(ls)..] == [];
        BodyNone(START);
      }
      while more
        invariant fileComment == Load(text).fileComment
        invariant more && read ==>
                    && flag == Classify(line) && s.ok
                    && Complete(Body(Parse(sections, sec, comment), [line] + Pending(s))) == target
        invariant more && !read ==> flag in {CommentLine, UnknownLine} && Pending(s) == [] && !s.ok
        invariant !more || !read ==> Complete(Parse(sections, sec, comment)) == target
        decreases |Pending(s)|, more
      {
        ghost var p := Parse(sections, sec, comment);
        sec, comment := Take(flag, line, sec, comment);
        if read {
          BodyCons(p, line, Pending(s));
        }
        GetLineTakes(s, line);
        var next := GetLine(s, line);
        if read && !next.0.ok {
          BodyNone(StepLine(p, line));
        }
        s, line := next.0, next.1;
        flag := Classify(line);
        more := s.ok;
      }
      if sec != NOTHING {
        sections := sections + [sec];
      }
    }

    /** The body of the loop: the switch on the kind of line. */
    method Take(flag: Flag, line: string, sec0: Section, comment0: string) returns (sec: Section, comment: string)
      modifies this`sections
      ensures flag == Classify(line) ==>
                Parse(sections, sec, comment) == StepLine(Parse(old(sections), sec0, comment0), line)
      ensures flag in {CommentLine, UnknownLine} ==>
                sections == old(sections) && sec == sec0 && comment == comment0 + line + "\n"
    {
      sec, comment := sec0, comment0;
      match flag {
        case SectionLine =>
          if sec != NOTHING {
            sections := sections + [sec];
          }
          sec := Section(SectionName(line), []);
        case EntryLine =>
          sec := Section(sec.name, sec.entries + [ParseEntry(line, comment)]);
          comment := "";
        case EmptyLine =>
        case CommentLine =>
          comment := comment + line + "\n";
        case UnknownLine =>
          comment := comment + line + "\n";
      }
    }

    /** The comment lines at the top, and the line that ends them. */
    method LoadHeader(text: string) returns (flag: Flag, line: string, s: Stream)
      requires fileComment == ""
      modifies this`fileComment
      ensures var ls := Lines(text);
              var h := HeaderLines(ls);
              && fileComment == Unlines(ls[..h])
              && (s.ok ==> flag == Classify(line) && ls[h..] == [line] + Pending(s))
              && (!s.ok ==> h == |ls| && Pending(s) == [] && flag in {CommentLine, UnknownLine})
    {
      hide Classify, HeaderLines, GetLine, Pending, Lines;
      flag, line, s := UnknownLine, "", Stream(text, false, true);
      PendingAtStart(text);
      ghost var ls, k := Lines(text), 0;
      GetLineTakes(s, line);
      var next := GetLine(s, line);
      s, line := next.0, next.1;
      while s.ok
        invariant 0 <= k <= |ls| && fileComment == Unlines(ls[..k])
        invariant forall l | l in ls[..k] :: Classify(l) == CommentLine
        invariant if s.ok then ls[k..] == [line] + Pending(s) else k == |ls| && Pending(s) == []
        invariant flag in {CommentLine, UnknownLine}
        decreases |Pending(s)|, s.ok
      {
        assert line == ls[k..][0] && ls[..k] + ls[k..] == ls;
        flag := Classify(line);
        if flag != CommentLine {
          HeaderLinesIs(ls[..k], ls[k..]);
          return;
        }
        fileComment := fileComment + line + "\n";
        assert ls[..k + 1] == ls[..k] + [line] && ls[k + 1..] == ls[k..][1..];
        assert ls[..k + 1][..k] == ls[..k];
        k := k + 1;
        GetLineTakes(s, line);
        next := GetLine(s, line);
        s, line := next.0, next.1;
      }
      HeaderLinesIs(ls, []);
      assert ls + [] == ls && ls[..|ls|] == ls;
    }

    /** save, the file open. */
    method SaveText() returns (text: string)
      ensures text == Save(View())
    {
      text := fileComment;
      var i := 0;
      while i < |sections|
        invariant 0 <= i <= |sections| && text == fileComment + SectionsText(sections[..i])
      {
        assert sections[..i + 1][..i] == sections[..i];
        var es := SaveEntries(sections[i].entries);
        Regroup(fileComment, SectionsText(sections[..i]), "\n[" + sections[i].name + "]\n", es);
        text := text + ("\n[" + sections[i].name + "]\n") + es;
        i := i + 1;
      }
      assert sections[..|sections|] == sections;
    }

    static method SaveEntries(es: seq<Entry>) returns (text: string)
      ensures text == EntriesText(es)
    {
      text := "";
      var i := 0;
      while i < |es|
        invariant 0 <= i <= |es| && text == EntriesText(es[..i])
      {
        assert es[..i + 1][..i] == es[..i];
        if es[i].comment != "" {
          text := text + es[i].comment;
        }
        text := text + (es[i].key + "=" + es[i].value + "\n");
        i := i + 1;
      }
      assert es[..|es|] == es;
    }
  }
}
