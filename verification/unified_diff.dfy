/** `addedLinesByFile` of eduai-summer-2026/scripts/pr-patch-coverage.js: reading the
    added line numbers out of a zero-context unified diff, against a printer of such
    diffs in git's format. */
module UnifiedDiff {
  import opened Options
  import opened Text

  type AddedLines = map<string, set<nat>>

  /** The reader's variables: the lines found, the file at hand, the next new line; and
      whether it has thrown, after which it reads nothing. */
  datatype Reader = Reader(added: AddedLines, file: Option<string>, newLine: nat, thrown: bool)

  /** The names that a plain object answers for without having them: the table is one,
      and takes what it inherits for the lines of such a file. */
  const INHERITED: set<string> := {
    "__proto__", "constructor", "hasOwnProperty", "isPrototypeOf", "propertyIsEnumerable", "toLocaleString", "toString",
    "valueOf", "__defineGetter__", "__defineSetter__", "__lookupGetter__", "__lookupSetter__"}

  function WithoutPrefixB(s: string): string {
    if "b/" <= s then s[2..] else s
  }

  /** The first `+` followed by digits, as the header's regular expression finds it. */
  function FirstPlusNumber(line: string): Option<nat> {
    if line == "" then None
    else if line[0] == '+' && LeadingDigits(line[1..]) != "" then Some(ParseDigits(LeadingDigits(line[1..])))
    else FirstPlusNumber(line[1..])
  }

  predicate IsAddition(line: string) {
    "+" <= line && !("+++" <= line)
  }

  function LinesOf(added: AddedLines, path: string): set<nat> {
    if path in added then added[path] else {}
  }

  /** A file gets its set of lines unless the table seems to have one already. */
  function WithSet(added: AddedLines, path: string): AddedLines {
    if path in INHERITED then added else added[path := LinesOf(added, path)]
  }

  /** The body of the reading loop. An empty file name is falsy, as in the source; what
      is inherited has no `add`, so adding a line to it throws. */
  function ReadLine(r: Reader, line: string): Reader {
    if r.thrown then r
    else if "+++ " <= line then
      var p := Trim(WithoutPrefixB(line[4..]));
      if p == "/dev/null" || p == "" then r.(file := None)
      else r.(file := Some(p), added := WithSet(r.added, p))
    else if "@@" <= line then
      var m := FirstPlusNumber(line);
      r.(newLine := if m.Some? then m.value else 0)
    else if r.file.Some? && IsAddition(line) then
      if r.file.value in INHERITED then r.(thrown := true)
      else r.(added := r.added[r.file.value := LinesOf(r.added, r.file.value) + {r.newLine}], newLine := r.newLine + 1)
    else r
  }

  function ReadLines(r: Reader, lines: seq<string>): Reader
    decreases |lines|
  {
    if lines == [] then r else ReadLines(ReadLine(r, lines[0]), lines[1..])
  }

  const START := Reader(map[], None, 0, false)

  /** What the reader returns; nothing when it throws. */
  function Returned(r: Reader): Option<AddedLines> {
    if r.thrown then None else Some(r.added)
  }

  lemma {:induction false} ReadsNoMore(r: Reader, lines: seq<string>)
    requires r.thrown
    ensures ReadLines(r, lines) == r
    decreases |lines|
  {
    if lines != [] { ReadsNoMore(r, lines[1..]); }
  }

  /** `addedLinesByFile`, given what `git diff` printed. */
  method AddedLinesByFile(diff: string) returns (result: Option<AddedLines>)
    ensures result == Returned(ReadLines(START, Split(diff, '\n')))
  {
    var added: AddedLines := map[];
    var file: Option<string> := None;
    var newLine: nat := 0;
    var lines := Split(diff, '\n');
    hide Trim, WithoutPrefixB, FirstPlusNumber, INHERITED, Split;
    for k := 0 to |lines|
      invariant ReadLines(Reader(added, file, newLine, false), lines[k..]) == ReadLines(START, lines)
    {
      var line := lines[k];
      assert lines[k..][0] == line && lines[k..][1..] == lines[k + 1..];
      if "+++ " <= line {
        var p := Trim(WithoutPrefixB(line[4..]));
        file := if p == "/dev/null" || p == "" then None else Some(p);
        if file.Some? && p !in added && p !in INHERITED { added := added[p := {}]; }
        else if file.Some? && p in added { assert added[p := added[p]] == added; }
        continue;
      }
      if "@@" <= line {
        var m := FirstPlusNumber(line);
        newLine := if m.Some? then m.value else 0;
        continue;
      }
      if file.Some? && "+" <= line && !("+++" <= line) {
        if file.value in INHERITED {
          ReadsNoMore(Reader(added, file, newLine, true), lines[k + 1..]);
          return None;
        }
        added := added[file.value := LinesOf(added, file.value) + {newLine}];
        newLine := newLine + 1;
        continue;
      }
    }
    return Some(added);
  }

  // The printer.

  /** A hunk: lines from `newStart` on are added, after some are removed. */
  datatype Hunk = Hunk(
    oldStart: nat, newStart: nat, removed: seq<string>, added: seq<string>, heading: string,
    oldEndsBare: bool, newEndsBare: bool)

  /** What git prints for one file: only lines such as a rename or a mode change, or
      those followed by the two file names and the hunks. */
  datatype Section =
    | MetadataOnly(preamble: seq<string>)
    | TextPatch(preamble: seq<string>, oldName: string, path: string, hunks: seq<Hunk>)

  function RangeText(start: nat, count: nat): string {
    if count == 1 then Decimal(start) else Decimal(start) + "," + Decimal(count)
  }

  function HunkHeader(h: Hunk): string {
    "@@ -" + RangeText(h.oldStart, |h.removed|) + " +" + (RangeText(h.newStart, |h.added|) + " @@" + h.heading)
  }

  function Prefixed(mark: string, texts: seq<string>): (r: seq<string>)
    ensures |r| == |texts| && forall i :: 0 <= i < |texts| ==> r[i] == mark + texts[i]
  {
    seq(|texts|, i requires 0 <= i < |texts| => mark + texts[i])
  }

  function BareEnd(bare: bool): seq<string> {
    if bare then ["\\ No newline at end of file"] else []
  }

  function PrintHunk(h: Hunk): seq<string> {
    [HunkHeader(h)] + Prefixed("-", h.removed) + BareEnd(h.oldEndsBare) + Prefixed("+", h.added) + BareEnd(h.newEndsBare)
  }

  function PrintHunks(hunks: seq<Hunk>): seq<string> {
    if hunks == [] then [] else PrintHunk(hunks[0]) + PrintHunks(hunks[1..])
  }

  /** Git ends a file name that holds a space with a tab. */
  function NameLine(path: string): string {
    "+++ " + ("b/" + path + if ' ' in path then "\t" else "")
  }

  function PrintSection(s: Section): seq<string> {
    match s
    case MetadataOnly(preamble) => preamble
    case TextPatch(preamble, oldName, path, hunks) =>
      preamble + ["--- " + oldName, NameLine(path)] + PrintHunks(hunks)
  }

  function PrintLines(patch: seq<Section>): seq<string> {
    if patch == [] then [] else PrintSection(patch[0]) + PrintLines(patch[1..])
  }

  /** The whole output, each line ended by a line feed. */
  function Print(patch: seq<Section>): string {
    Join(PrintLines(patch) + [""], '\n')
  }

  predicate IsOneLine(s: string) {
    '\n' !in s
  }

  predicate OneLiners(ss: seq<string>) {
    forall i :: 0 <= i < |ss| ==> IsOneLine(ss[i])
  }

  /** Lines that the reader passes over: no addition, no hunk, no file name. */
  predicate IsInert(line: string) {
    !("+" <= line) && !("@@" <= line)
  }

  predicate IsHunk(h: Hunk) {
    OneLiners(h.removed) && OneLiners(h.added) && IsOneLine(h.heading)
  }

  /** A file name git prints as it stands. */
  predicate IsPath(path: string) {
    path != "" && path != "/dev/null" && Trim(path) == path && IsOneLine(path)
  }

  predicate IsSection(s: Section) {
    && OneLiners(s.preamble) && (forall i :: 0 <= i < |s.preamble| ==> IsInert(s.preamble[i]))
    && (s.TextPatch? ==>
          IsOneLine(s.oldName) && IsPath(s.path) && forall i :: 0 <= i < |s.hunks| ==> IsHunk(s.hunks[i]))
  }

  predicate IsPatch(patch: seq<Section>) {
    forall i :: 0 <= i < |patch| ==> IsSection(patch[i])
  }

  // What should be read.

  function Lines(start: nat, count: nat): (r: set<nat>)
    ensures forall n: nat :: n in r <==> start <= n < start + count
    decreases count
  {
    if count == 0 then {} else {start} + Lines(start + 1, count - 1)
  }

  function AddHunks(lines: set<nat>, hunks: seq<Hunk>): set<nat>
    decreases |hunks|
  {
    if hunks == [] then lines
    else AddHunks(lines + Lines(hunks[0].newStart, |hunks[0].added|), hunks[1..])
  }

  function AddSection(added: AddedLines, s: Section): AddedLines {
    if s.MetadataOnly? then added else added[s.path := AddHunks(LinesOf(added, s.path), s.hunks)]
  }

  function AddSections(added: AddedLines, patch: seq<Section>): AddedLines
    decreases |patch|
  {
    if patch == [] then added else AddSections(AddSection(added, patch[0]), patch[1..])
  }

  /** The lines a patch adds, file by file. */
  function Expected(patch: seq<Section>): AddedLines {
    AddSections(map[], patch)
  }

  ghost predicate Adds(s: Section, path: string, n: nat) {
    s.TextPatch? && s.path == path && exists i :: 0 <= i < |s.hunks| && HunkAdds(s.hunks[i], n)
  }

  ghost predicate HunkAdds(h: Hunk, n: nat) {
    h.newStart <= n < h.newStart + |h.added|
  }

  lemma {:induction false} AddHunksIsUnion(lines: set<nat>, hunks: seq<Hunk>, n: nat)
    ensures n in AddHunks(lines, hunks) <==> n in lines || exists i :: 0 <= i < |hunks| && HunkAdds(hunks[i], n)
    decreases |hunks|
  {
    if hunks != [] {
      AddHunksIsUnion(lines + Lines(hunks[0].newStart, |hunks[0].added|), hunks[1..], n);
      if i :| 0 <= i < |hunks| && HunkAdds(hunks[i], n) { if i > 0 { assert HunkAdds(hunks[1..][i - 1], n); } }
      if i :| 0 <= i < |hunks| - 1 && HunkAdds(hunks[1..][i], n) { assert HunkAdds(hunks[i + 1], n); }
    }
  }

  lemma {:induction false} AddSectionsIsUnion(added: AddedLines, patch: seq<Section>, path: string, n: nat)
    ensures n in LinesOf(AddSections(added, patch), path)
       <==> n in LinesOf(added, path) || exists i :: 0 <= i < |patch| && Adds(patch[i], path, n)
    ensures path in AddSections(added, patch)
       <==> path in added || exists i :: 0 <= i < |patch| && patch[i].TextPatch? && patch[i].path == path
    decreases |patch|
  {
    if patch != [] {
      AddSectionsIsUnion(AddSection(added, patch[0]), patch[1..], path, n);
      if patch[0].TextPatch? { AddHunksIsUnion(LinesOf(added, patch[0].path), patch[0].hunks, n); }
      if i :| 0 <= i < |patch| && Adds(patch[i], path, n) { if i > 0 { assert Adds(patch[1..][i - 1], path, n); } }
      if i :| 0 <= i < |patch| - 1 && Adds(patch[1..][i], path, n) { assert Adds(patch[i + 1], path, n); }
      if i :| 0 <= i < |patch| && patch[i].TextPatch? && patch[i].path == path {
        if i > 0 { assert patch[1..][i - 1].path == path; }
      }
      if i :| 0 <= i < |patch| - 1 && patch[1..][i].TextPatch? && patch[1..][i].path == path {
        assert patch[i + 1].path == path;
      }
    }
  }

  /** `Expected`, said without folding: a line is there exactly when some hunk of
      that file adds it. */
  lemma ExpectedIsUnion(patch: seq<Section>, path: string, n: nat)
    ensures n in LinesOf(Expected(patch), path) <==> exists i :: 0 <= i < |patch| && Adds(patch[i], path, n)
    ensures path in Expected(patch) <==> exists i :: 0 <= i < |patch| && patch[i].TextPatch? && patch[i].path == path
  {
    AddSectionsIsUnion(map[], patch, path, n);
  }

  // Reading what was printed.

  lemma {:induction false} ReadConcat(r: Reader, a: seq<string>, b: seq<string>)
    ensures ReadLines(r, a + b) == ReadLines(ReadLines(r, a), b)
    decreases |a|
  {
    if a == [] { assert a + b == b; }
    else {
      assert (a + b)[1..] == a[1..] + b;
      ReadConcat(ReadLine(r, a[0]), a[1..], b);
    }
  }

  lemma {:induction false} ReadInert(r: Reader, lines: seq<string>)
    requires forall i :: 0 <= i < |lines| ==> IsInert(lines[i])
    ensures ReadLines(r, lines) == r
    decreases |lines|
  {
    if lines != [] {
      assert IsInert(lines[0]);
      NameLineStartsWithPlus(lines[0]);
      ReadInert(r, lines[1..]);
    }
  }

  lemma NameLineStartsWithPlus(line: string)
    ensures "+++ " <= line ==> "+" <= line
  {
  }

  lemma {:induction false} NoPlus(s: string, rest: string)
    requires forall i :: 0 <= i < |s| ==> s[i] != '+'
    ensures FirstPlusNumber(s + rest) == FirstPlusNumber(rest)
    decreases |s|
  {
    if s == "" { assert s + rest == rest; }
    else {
      assert (s + rest)[1..] == s[1..] + rest;
      NoPlus(s[1..], rest);
    }
  }

  lemma ReadHunkHeader(r: Reader, h: Hunk)
    requires !r.thrown
    ensures ReadLine(r, HunkHeader(h)) == r.(newLine := h.newStart)
  {
    var (line, range) := (HunkHeader(h), RangeText(h.newStart, |h.added|));
    var before := "@@ -" + RangeText(h.oldStart, |h.removed|) + " ";
    var after := range + (" @@" + h.heading);
    assert line == before + ("+" + after);
    RangeHasNoPlus(h.oldStart, |h.removed|);
    StartsWithNumber(h.newStart, |h.added|, " @@" + h.heading);
    HasDigits(h.newStart);
    hide RangeText, LeadingDigits, ParseDigits, Decimal, HunkHeader;
    NoPlus(before, "+" + after);
    assert ("+" + after)[0] == '+' && ("+" + after)[1..] == after;
    assert FirstPlusNumber("+" + after) == Some(h.newStart);
    hide FirstPlusNumber;
    assert line[0] == '@' && line[1] == '@';
    assert "@@" <= line && !("+++ " <= line);
  }

  lemma HasDigits(n: nat)
    ensures Decimal(n) != ""
  {
  }

  lemma RangeHasNoPlus(start: nat, count: nat)
    ensures var s := RangeText(start, count); forall i :: 0 <= i < |s| ==> s[i] != '+'
  {
    var (a, b) := (Decimal(start), Decimal(count));
    assert forall i :: 0 <= i < |a| ==> IsDigit(a[i]);
    assert forall i :: 0 <= i < |b| ==> IsDigit(b[i]);
  }

  lemma StartsWithNumber(start: nat, count: nat, rest: string)
    requires rest != "" && !IsDigit(rest[0])
    ensures LeadingDigits(RangeText(start, count) + rest) == Decimal(start)
    ensures ParseDigits(Decimal(start)) == start
  {
    ParseDecimal(start);
    if count == 1 { LeadingDigitsOf(Decimal(start), rest); }
    else {
      assert RangeText(start, count) + rest == Decimal(start) + ("," + Decimal(count) + rest);
      LeadingDigitsOf(Decimal(start), "," + Decimal(count) + rest);
    }
  }

  /** The added text that misleads the reader. */
  predicate IsMisread(text: string) {
    "++" <= text
  }

  lemma PlusLine(text: string)
    ensures "+" <= "+" + text && !("@@" <= "+" + text)
    ensures "+++" <= "+" + text <==> IsMisread(text)
    ensures "+++ " <= "+" + text ==> IsMisread(text)
  {
    var line := "+" + text;
    assert line[0] == '+' && line[1..] == text;
    if "+++" <= line { assert text[0] == line[1] && text[1] == line[2]; }
    if IsMisread(text) { assert line[1] == text[0] && line[2] == text[1]; }
    if "+++ " <= line { assert text[0] == line[1] && text[1] == line[2]; }
  }

  /** The reader stands at a file whose lines it can add to. */
  predicate Writes(r: Reader) {
    !r.thrown && r.file.Some? && r.file.value in r.added && r.file.value !in INHERITED
  }

  lemma {:induction false} ReadAdditions(r: Reader, texts: seq<string>)
    requires Writes(r)
    requires forall i :: 0 <= i < |texts| ==> !IsMisread(texts[i])
    ensures ReadLines(r, Prefixed("+", texts))
         == r.(added := r.added[r.file.value := r.added[r.file.value] + Lines(r.newLine, |texts|)],
               newLine := r.newLine + |texts|)
    decreases |texts|
  {
    var lines := Prefixed("+", texts);
    if texts == [] {
      var mine := r.added[r.file.value];
      assert mine + Lines(r.newLine, 0) == mine;
      assert r.added[r.file.value := mine] == r.added;
    } else {
      PlusLine(texts[0]);
      assert lines[1..] == Prefixed("+", texts[1..]);
      var (path, mine, next) := (r.file.value, r.added[r.file.value], ReadLine(r, lines[0]));
      assert next.added == r.added[path := mine + {r.newLine}] && next.newLine == r.newLine + 1;
      ReadAdditions(next, texts[1..]);
      assert (mine + {r.newLine}) + Lines(r.newLine + 1, |texts| - 1) == mine + Lines(r.newLine, |texts|);
      UpdateTwice(r.added, path, mine + {r.newLine}, mine + Lines(r.newLine, |texts|));
    }
  }

  lemma UpdateTwice(added: AddedLines, path: string, once: set<nat>, twice: set<nat>)
    ensures added[path := once][path := twice] == added[path := twice]
  {
  }

  predicate MisreadIn(h: Hunk) {
    exists i :: 0 <= i < |h.added| && IsMisread(h.added[i])
  }

  predicate MisreadInSection(s: Section) {
    s.TextPatch? && exists i :: 0 <= i < |s.hunks| && MisreadIn(s.hunks[i])
  }

  lemma InertParts(h: Hunk)
    ensures forall i :: 0 <= i < |h.removed| ==> IsInert(Prefixed("-", h.removed)[i])
    ensures forall b: bool, i :: 0 <= i < |BareEnd(b)| ==> IsInert(BareEnd(b)[i])
  {
    forall i | 0 <= i < |h.removed| ensures IsInert(Prefixed("-", h.removed)[i]) {
      assert Prefixed("-", h.removed)[i][0] == '-';
    }
    assert "\\ No newline at end of file"[0] == '\\';
  }

  lemma ReadHunk(r: Reader, h: Hunk)
    requires Writes(r) && !MisreadIn(h)
    ensures ReadLines(r, PrintHunk(h))
         == r.(added := r.added[r.file.value := r.added[r.file.value] + Lines(h.newStart, |h.added|)],
               newLine := h.newStart + |h.added|)
  {
    var (removed, plus) := (Prefixed("-", h.removed), Prefixed("+", h.added));
    var s := r.(newLine := h.newStart);
    ReadHunkHeader(r, h);
    InertParts(h);
    ReadInert(s, removed);
    ReadInert(s, BareEnd(h.oldEndsBare));
    ReadAdditions(s, h.added);
    var t := ReadLines(s, plus);
    ReadInert(t, BareEnd(h.newEndsBare));
    ReadConcat(r, [HunkHeader(h)] + removed + BareEnd(h.oldEndsBare) + plus, BareEnd(h.newEndsBare));
    ReadConcat(r, [HunkHeader(h)] + removed + BareEnd(h.oldEndsBare), plus);
    ReadConcat(r, [HunkHeader(h)] + removed, BareEnd(h.oldEndsBare));
    ReadConcat(r, [HunkHeader(h)], removed);
    assert ReadLines(r, [HunkHeader(h)]) == s;
  }

  lemma {:induction false} ReadHunks(r: Reader, hunks: seq<Hunk>)
    requires Writes(r)
    requires forall i :: 0 <= i < |hunks| ==> !MisreadIn(hunks[i])
    ensures var (path, read) := (r.file.value, ReadLines(r, PrintHunks(hunks)));
            !read.thrown && read.file == r.file && read.added == r.added[path := AddHunks(r.added[path], hunks)]
    decreases |hunks|
  {
    if hunks == [] {
      assert r.added[r.file.value := r.added[r.file.value]] == r.added;
    } else {
      ReadHunk(r, hunks[0]);
      ReadConcat(r, PrintHunk(hunks[0]), PrintHunks(hunks[1..]));
      ReadHunks(ReadLines(r, PrintHunk(hunks[0])), hunks[1..]);
    }
  }

  /** A file of an inherited name throws at the first line that is added to it. */
  lemma ReadInheritedHunk(r: Reader, h: Hunk)
    requires !r.thrown && r.file.Some? && r.file.value in INHERITED && !MisreadIn(h)
    ensures var read := ReadLines(r, PrintHunk(h));
            read.added == r.added && read.file == r.file && (read.thrown <==> h.added != [])
  {
    var (removed, plus) := (Prefixed("-", h.removed), Prefixed("+", h.added));
    var s := r.(newLine := h.newStart);
    ReadHunkHeader(r, h);
    InertParts(h);
    ReadInert(s, removed);
    ReadInert(s, BareEnd(h.oldEndsBare));
    ReadConcat(r, [HunkHeader(h)] + removed + BareEnd(h.oldEndsBare) + plus, BareEnd(h.newEndsBare));
    ReadConcat(r, [HunkHeader(h)] + removed + BareEnd(h.oldEndsBare), plus);
    ReadConcat(r, [HunkHeader(h)] + removed, BareEnd(h.oldEndsBare));
    ReadConcat(r, [HunkHeader(h)], removed);
    assert ReadLines(r, [HunkHeader(h)]) == s;
    if h.added != [] { FirstAdditionThrows(s, h.added); }
    var t := ReadLines(s, plus);
    ReadInert(t, BareEnd(h.newEndsBare));
  }

  lemma FirstAdditionThrows(r: Reader, texts: seq<string>)
    requires !r.thrown && r.file.Some? && r.file.value in INHERITED && texts != [] && !IsMisread(texts[0])
    ensures ReadLines(r, Prefixed("+", texts)) == r.(thrown := true)
  {
    PlusLine(texts[0]);
    ReadsNoMore(r.(thrown := true), Prefixed("+", texts)[1..]);
  }

  lemma {:induction false} ReadInheritedHunks(r: Reader, hunks: seq<Hunk>)
    requires !r.thrown && r.file.Some? && r.file.value in INHERITED
    requires forall i :: 0 <= i < |hunks| ==> !MisreadIn(hunks[i])
    ensures var read := ReadLines(r, PrintHunks(hunks));
            read.added == r.added && (read.thrown <==> Total(hunks) > 0)
    decreases |hunks|
  {
    if hunks != [] {
      ReadInheritedHunk(r, hunks[0]);
      ReadConcat(r, PrintHunk(hunks[0]), PrintHunks(hunks[1..]));
      var next := ReadLines(r, PrintHunk(hunks[0]));
      if next.thrown { ReadsNoMore(next, PrintHunks(hunks[1..])); } else { ReadInheritedHunks(next, hunks[1..]); }
    }
  }

  lemma ReadName(r: Reader, path: string)
    requires IsPath(path) && !r.thrown
    ensures ReadLine(r, NameLine(path)) == r.(file := Some(path), added := WithSet(r.added, path))
  {
    var ending := if ' ' in path then "\t" else "";
    var line := NameLine(path);
    assert line[..4] == "+++ " && line[4..] == "b/" + path + ending;
    assert line[4..][2..] == path + ending;
    assert "b/" <= line[4..] by { assert line[4..][..2] == "b/"; }
    if ' ' in path { TrimTrailing(path, '\t'); assert path + "\t" == path + ['\t']; }
    else { assert path + "" == path; }
  }

  /** The section adds a line to a file of an inherited name. */
  predicate Throws(s: Section) {
    s.TextPatch? && s.path in INHERITED && Total(s.hunks) > 0
  }

  lemma ReadSection(r: Reader, s: Section)
    requires IsSection(s) && !MisreadInSection(s) && !r.thrown
    ensures var read := ReadLines(r, PrintSection(s));
            && (read.thrown <==> Throws(s))
            && read.added == if s.TextPatch? && s.path in INHERITED then r.added else AddSection(r.added, s)
  {
    ReadInert(r, s.preamble);
    if s.TextPatch? {
      var names := ["--- " + s.oldName, NameLine(s.path)];
      ReadConcat(r, s.preamble + names, PrintHunks(s.hunks));
      ReadConcat(r, s.preamble, names);
      ReadNames(r, s.oldName, s.path);
      hide ReadLine, ReadLines, PrintHunks, NameLine, Total, INHERITED;
      ReadNamed(r, s);
    }
  }

  lemma ReadNamed(r: Reader, s: Section)
    requires s.TextPatch? && !MisreadInSection(s) && !r.thrown
    ensures var read := ReadLines(r.(file := Some(s.path), added := WithSet(r.added, s.path)), PrintHunks(s.hunks));
            && (read.thrown <==> Throws(s))
            && read.added == if s.path in INHERITED then r.added else AddSection(r.added, s)
  {
    hide ReadLine, ReadLines, PrintHunks, Total, INHERITED;
    var named := r.(file := Some(s.path), added := WithSet(r.added, s.path));
    if s.path in INHERITED {
      ReadInheritedHunks(named, s.hunks);
    } else {
      ReadHunks(named, s.hunks);
      UpdateTwice(r.added, s.path, LinesOf(r.added, s.path), AddHunks(LinesOf(r.added, s.path), s.hunks));
    }
  }

  lemma ReadNames(r: Reader, oldName: string, path: string)
    requires IsPath(path) && !r.thrown
    ensures ReadLines(r, ["--- " + oldName, NameLine(path)]) == r.(file := Some(path), added := WithSet(r.added, path))
  {
    var names := ["--- " + oldName, NameLine(path)];
    ReadName(r, path);
    hide NameLine;
    assert names[1..] == [NameLine(path)] && names[1..][1..] == [];
    assert ("--- " + oldName)[0] == '-';
    assert ReadLine(r, names[0]) == r;
    assert ReadLines(r, names[1..]) == ReadLine(r, NameLine(path));
  }

  /** `lines` as the table holds them: without the files of inherited names. */
  function Held(lines: AddedLines): AddedLines {
    lines - INHERITED
  }

  lemma HeldSection(lines: AddedLines, s: Section)
    ensures Held(AddSection(lines, s)) == if s.TextPatch? && s.path in INHERITED then Held(lines) else AddSection(Held(lines), s)
  {
    hide INHERITED, AddHunks;
  }

  lemma {:induction false} ReadSections(r: Reader, patch: seq<Section>, lines: AddedLines)
    requires IsPatch(patch) && forall i :: 0 <= i < |patch| ==> !MisreadInSection(patch[i])
    requires !r.thrown && r.added == Held(lines)
    ensures var read := ReadLines(r, PrintLines(patch));
            && (read.thrown <==> exists i :: 0 <= i < |patch| && Throws(patch[i]))
            && (!read.thrown ==> read.added == Held(AddSections(lines, patch)))
    decreases |patch|
  {
    hide Throws, Held, AddSection, PrintSection, MisreadInSection, IsSection;
    if patch != [] {
      var (s, rest) := (patch[0], patch[1..]);
      ReadSectionHeld(r, s, lines);
      ReadConcat(r, PrintSection(s), PrintLines(rest));
      var next := ReadLines(r, PrintSection(s));
      if next.thrown {
        ReadsNoMore(next, PrintLines(rest));
      } else {
        ReadSections(next, rest, AddSection(lines, s));
        if i :| 0 <= i < |patch| && Throws(patch[i]) { assert Throws(rest[i - 1]); }
        if i :| 0 <= i < |rest| && Throws(rest[i]) { assert Throws(patch[i + 1]); }
      }
    }
  }

  lemma ReadSectionHeld(r: Reader, s: Section, lines: AddedLines)
    requires IsSection(s) && !MisreadInSection(s) && !r.thrown && r.added == Held(lines)
    ensures var read := ReadLines(r, PrintSection(s));
            (read.thrown <==> Throws(s)) && read.added == Held(AddSection(lines, s))
  {
    hide ReadLines, PrintSection, Throws, IsSection, MisreadInSection, AddSection, Held, INHERITED;
    ReadSection(r, s);
    HeldSection(lines, s);
  }

  lemma {:induction false} PrintsOneLiners(patch: seq<Section>)
    requires IsPatch(patch)
    ensures OneLiners(PrintLines(patch))
    decreases |patch|
  {
    if patch != [] {
      PrintsOneLiners(patch[1..]);
      SectionOneLiners(patch[0]);
    }
  }

  lemma SectionOneLiners(s: Section)
    requires IsSection(s)
    ensures OneLiners(PrintSection(s))
  {
    if s.TextPatch? {
      HunksOneLiners(s.hunks);
      assert IsOneLine("--- " + s.oldName) && IsOneLine(NameLine(s.path));
    }
  }

  lemma {:induction false} HunksOneLiners(hunks: seq<Hunk>)
    requires forall i :: 0 <= i < |hunks| ==> IsHunk(hunks[i])
    ensures OneLiners(PrintHunks(hunks))
    decreases |hunks|
  {
    hide PrintHunk;
    if hunks != [] {
      HunkOneLiners(hunks[0]);
      HunksOneLiners(hunks[1..]);
    }
  }

  lemma HunkOneLiners(h: Hunk)
    requires IsHunk(h)
    ensures OneLiners(PrintHunk(h))
  {
    RangeIsOneLine(h.oldStart, |h.removed|);
    RangeIsOneLine(h.newStart, |h.added|);
    hide RangeText;
    assert IsOneLine(HunkHeader(h));
    hide HunkHeader;
  }

  lemma RangeIsOneLine(start: nat, count: nat)
    ensures IsOneLine(RangeText(start, count))
  {
    var (a, b) := (Decimal(start), Decimal(count));
    assert forall i :: 0 <= i < |a| ==> IsDigit(a[i]);
    assert forall i :: 0 <= i < |b| ==> IsDigit(b[i]);
  }

  /** What the reader returns for a printed patch. */
  function Found(patch: seq<Section>): Option<AddedLines> {
    Returned(ReadLines(START, Split(Print(patch), '\n')))
  }

  lemma FoundInLines(patch: seq<Section>)
    requires IsPatch(patch)
    ensures Found(patch) == Returned(ReadLines(START, PrintLines(patch)))
  {
    var lines := PrintLines(patch) + [""];
    PrintsOneLiners(patch);
    assert IsOneLine("");
    SplitJoin(lines, '\n');
    ReadConcat(START, PrintLines(patch), [""]);
    ReadInert(ReadLines(START, PrintLines(patch)), [""]);
  }

  /** What becomes of any printed patch of which no added text begins with `++`: the
      reader throws exactly when a line is added to a file of an inherited name, and
      otherwise returns the lines added, without such files. */
  lemma DiffRead(patch: seq<Section>)
    requires IsPatch(patch) && forall i :: 0 <= i < |patch| ==> !MisreadInSection(patch[i])
    ensures Found(patch).None? <==> exists i :: 0 <= i < |patch| && Throws(patch[i])
    ensures Found(patch).Some? ==> Found(patch).value == Held(Expected(patch))
  {
    hide Throws, MisreadInSection, IsSection, PrintLines;
    FoundInLines(patch);
    assert Held(map[]) == map[];
    hide Held, INHERITED;
    ReadSections(START, patch, map[]);
  }

  /** The section is of a file with an inherited name. */
  predicate InheritedIn(s: Section) {
    s.TextPatch? && s.path in INHERITED
  }

  /** Reading back a printed patch gives exactly the lines it adds, provided no added
      text begins with `++` and no file has an inherited name. */
  lemma DiffRoundTrip(patch: seq<Section>)
    requires IsPatch(patch) && forall i :: 0 <= i < |patch| ==> !MisreadInSection(patch[i]) && !InheritedIn(patch[i])
    ensures Found(patch) == Some(Expected(patch))
  {
    DiffRead(patch);
    hide IsPatch, MisreadInSection, Expected, INHERITED;
    forall path ensures path in Expected(patch) ==> path !in INHERITED { ExpectedIsUnion(patch, path, 0); }
    assert Held(Expected(patch)) == Expected(patch);
  }

  // The proviso is exact: a patch with such an added text loses at least a line, and the
  // table never holds an inherited name.

  lemma {:induction false} NeverHoldsInherited(r: Reader, lines: seq<string>, path: string)
    requires path in INHERITED && path !in r.added
    ensures path !in ReadLines(r, lines).added
    decreases |lines|
  {
    hide Trim, WithoutPrefixB, FirstPlusNumber, INHERITED, LinesOf;
    if lines != [] { NeverHoldsInherited(ReadLine(r, lines[0]), lines[1..], path); }
  }

  /** The (file, line) pairs recorded. */
  ghost function Pairs(added: AddedLines): set<(string, nat)> {
    set path, n | path in added && n in added[path] :: (path, n)
  }

  /** No line of a file is added twice. */
  ghost predicate NoLineTwice(added: AddedLines, patch: seq<Section>)
    decreases |patch|
  {
    patch != [] ==>
      && (patch[0].TextPatch? ==> NoLineTwiceIn(LinesOf(added, patch[0].path), patch[0].hunks))
      && NoLineTwice(AddSection(added, patch[0]), patch[1..])
  }

  ghost predicate NoLineTwiceIn(lines: set<nat>, hunks: seq<Hunk>)
    decreases |hunks|
  {
    hunks != [] ==>
      var more := Lines(hunks[0].newStart, |hunks[0].added|);
      lines !! more && NoLineTwiceIn(lines + more, hunks[1..])
  }

  function Additions(lines: seq<string>): nat {
    if lines == [] then 0 else (if IsAddition(lines[0]) then 1 else 0) + Additions(lines[1..])
  }

  function Total(hunks: seq<Hunk>): nat {
    if hunks == [] then 0 else |hunks[0].added| + Total(hunks[1..])
  }

  function TotalOf(patch: seq<Section>): nat {
    if patch == [] then 0 else (if patch[0].TextPatch? then Total(patch[0].hunks) else 0) + TotalOf(patch[1..])
  }

  /** Each addition the reader sees records at most one pair. */
  lemma {:induction false} RecordsAtMost(r: Reader, lines: seq<string>)
    ensures |Pairs(ReadLines(r, lines).added)| <= |Pairs(r.added)| + Additions(lines)
    decreases |lines|
  {
    if lines != [] {
      var next := ReadLine(r, lines[0]);
      RecordsOneAtMost(r, lines[0]);
      RecordsAtMost(next, lines[1..]);
    }
  }

  lemma RecordsOneAtMost(r: Reader, line: string)
    ensures |Pairs(ReadLine(r, line).added)| <= |Pairs(r.added)| + if IsAddition(line) then 1 else 0
  {
    hide Trim, WithoutPrefixB, FirstPlusNumber, Pairs, INHERITED;
    if r.thrown {
    } else if "+++ " <= line {
      var p := Trim(WithoutPrefixB(line[4..]));
      PairsAdded(r.added, p, {});
    } else if !("@@" <= line) && r.file.Some? && IsAddition(line) {
      PairsAdded(r.added, r.file.value, {r.newLine});
    }
  }

  lemma PairsAdded(added: AddedLines, path: string, more: set<nat>)
    ensures |Pairs(added[path := LinesOf(added, path) + more])| <= |Pairs(added)| + |more|
    ensures added[path := LinesOf(added, path)] == added[path := LinesOf(added, path) + {}]
  {
    assert LinesOf(added, path) + {} == LinesOf(added, path);
    TagCount(path, more);
    PairsUnion(added, path, more);
  }

  lemma PairIn(added: AddedLines, pair: (string, nat))
    ensures pair in Pairs(added) <==> pair.1 in LinesOf(added, pair.0)
  {
    if pair.1 in LinesOf(added, pair.0) { assert (pair.0, pair.1) in Pairs(added); }
  }

  lemma PairsUnion(added: AddedLines, path: string, more: set<nat>)
    ensures Pairs(added[path := LinesOf(added, path) + more]) == Pairs(added) + Tagged(path, more)
  {
    var larger := added[path := LinesOf(added, path) + more];
    forall pair: (string, nat) ensures pair in Pairs(larger) <==> pair in Pairs(added) + Tagged(path, more) {
      PairIn(added, pair);
      PairIn(larger, pair);
      hide Pairs;
      if pair.0 == path && pair.1 in more { assert (path, pair.1) in Tagged(path, more); }
    }
  }

  lemma {:induction false} AdditionsConcat(a: seq<string>, b: seq<string>)
    ensures Additions(a + b) == Additions(a) + Additions(b)
    decreases |a|
  {
    if a == [] { assert a + b == b; }
    else {
      assert (a + b)[1..] == a[1..] + b;
      AdditionsConcat(a[1..], b);
    }
  }

  lemma {:induction false} NoAdditions(lines: seq<string>)
    requires forall i :: 0 <= i < |lines| ==> !("+" <= lines[i]) || "+++" <= lines[i]
    ensures Additions(lines) == 0
    decreases |lines|
  {
    if lines != [] { NoAdditions(lines[1..]); }
  }

  lemma {:induction false} AdditionsOfTexts(texts: seq<string>)
    ensures Additions(Prefixed("+", texts)) <= |texts|
    ensures (exists i :: 0 <= i < |texts| && IsMisread(texts[i])) ==> Additions(Prefixed("+", texts)) < |texts|
    decreases |texts|
  {
    if texts != [] {
      PlusLine(texts[0]);
      assert Prefixed("+", texts)[1..] == Prefixed("+", texts[1..]);
      AdditionsOfTexts(texts[1..]);
      if i :| 0 <= i < |texts| && IsMisread(texts[i]) { if i > 0 { assert IsMisread(texts[1..][i - 1]); } }
    }
  }

  lemma AdditionsOfHunk(h: Hunk)
    ensures Additions(PrintHunk(h)) <= |h.added|
    ensures MisreadIn(h) ==> Additions(PrintHunk(h)) < |h.added|
  {
    var (removed, plus) := (Prefixed("-", h.removed), Prefixed("+", h.added));
    InertParts(h);
    assert HunkHeader(h)[0] == '@';
    NoAdditions([HunkHeader(h)]);
    NoAdditions(removed);
    NoAdditions(BareEnd(h.oldEndsBare));
    NoAdditions(BareEnd(h.newEndsBare));
    AdditionsOfTexts(h.added);
    AdditionsConcat([HunkHeader(h)] + removed + BareEnd(h.oldEndsBare) + plus, BareEnd(h.newEndsBare));
    AdditionsConcat([HunkHeader(h)] + removed + BareEnd(h.oldEndsBare), plus);
    AdditionsConcat([HunkHeader(h)] + removed, BareEnd(h.oldEndsBare));
    AdditionsConcat([HunkHeader(h)], removed);
  }

  lemma {:induction false} AdditionsOfHunks(hunks: seq<Hunk>)
    ensures Additions(PrintHunks(hunks)) <= Total(hunks)
    ensures (exists i :: 0 <= i < |hunks| && MisreadIn(hunks[i])) ==> Additions(PrintHunks(hunks)) < Total(hunks)
    decreases |hunks|
  {
    if hunks != [] {
      AdditionsOfHunk(hunks[0]);
      AdditionsConcat(PrintHunk(hunks[0]), PrintHunks(hunks[1..]));
      AdditionsOfHunks(hunks[1..]);
      if i :| 0 <= i < |hunks| && MisreadIn(hunks[i]) { if i > 0 { assert MisreadIn(hunks[1..][i - 1]); } }
    }
  }

  lemma AdditionsOfSection(s: Section)
    requires IsSection(s)
    ensures Additions(PrintSection(s)) <= if s.TextPatch? then Total(s.hunks) else 0
    ensures MisreadInSection(s) ==> Additions(PrintSection(s)) < Total(s.hunks)
  {
    NoAdditions(s.preamble);
    if s.TextPatch? {
      var names := ["--- " + s.oldName, NameLine(s.path)];
      assert ("--- " + s.oldName)[0] == '-';
      assert NameLine(s.path)[..3] == "+++";
      NoAdditions(names);
      AdditionsConcat(s.preamble + names, PrintHunks(s.hunks));
      AdditionsConcat(s.preamble, names);
      AdditionsOfHunks(s.hunks);
    }
  }

  lemma {:induction false} AdditionsOfPatch(patch: seq<Section>)
    requires IsPatch(patch)
    ensures Additions(PrintLines(patch)) <= TotalOf(patch)
    ensures (exists i :: 0 <= i < |patch| && MisreadInSection(patch[i])) ==> Additions(PrintLines(patch)) < TotalOf(patch)
    decreases |patch|
  {
    if patch != [] {
      AdditionsOfSection(patch[0]);
      AdditionsConcat(PrintSection(patch[0]), PrintLines(patch[1..]));
      AdditionsOfPatch(patch[1..]);
      if i :| 0 <= i < |patch| && MisreadInSection(patch[i]) {
        if i > 0 { assert MisreadInSection(patch[1..][i - 1]); }
      }
    }
  }

  lemma {:induction false} LinesCount(start: nat, count: nat)
    ensures |Lines(start, count)| == count
    decreases count
  {
    if count > 0 { LinesCount(start + 1, count - 1); }
  }

  lemma {:induction false} HunksCount(lines: set<nat>, hunks: seq<Hunk>)
    requires NoLineTwiceIn(lines, hunks)
    ensures |AddHunks(lines, hunks)| == |lines| + Total(hunks)
    decreases |hunks|
  {
    if hunks != [] {
      var more := Lines(hunks[0].newStart, |hunks[0].added|);
      LinesCount(hunks[0].newStart, |hunks[0].added|);
      HunksCount(lines + more, hunks[1..]);
    }
  }

  /** Replacing the lines of one file changes the pairs by as many. */
  lemma PairsUpdate(added: AddedLines, path: string, lines: set<nat>)
    ensures |Pairs(added[path := lines])| == |Pairs(added)| - |LinesOf(added, path)| + |lines|
  {
    var others := Pairs(added - {path});
    PairsSplit(added, path);
    PairsSplit(added[path := lines], path);
    assert added[path := lines] - {path} == added - {path};
  }

  lemma PairsSplit(added: AddedLines, path: string)
    ensures |Pairs(added)| == |Pairs(added - {path})| + |LinesOf(added, path)|
  {
    var (mine, others) := (Tagged(path, LinesOf(added, path)), Pairs(added - {path}));
    assert Pairs(added) == mine + others && mine !! others;
    TagCount(path, LinesOf(added, path));
  }

  ghost function Tagged(path: string, lines: set<nat>): set<(string, nat)> {
    set n | n in lines :: (path, n)
  }

  lemma {:induction false} TagCount(path: string, lines: set<nat>)
    ensures |Tagged(path, lines)| == |lines|
    decreases lines
  {
    if lines != {} {
      var m :| m in lines;
      TagCount(path, lines - {m});
      assert Tagged(path, lines) == Tagged(path, lines - {m}) + {(path, m)};
    }
  }

  lemma {:induction false} SectionsCount(added: AddedLines, patch: seq<Section>)
    requires NoLineTwice(added, patch)
    ensures |Pairs(AddSections(added, patch))| == |Pairs(added)| + TotalOf(patch)
    decreases |patch|
  {
    if patch != [] {
      var s := patch[0];
      if s.TextPatch? {
        HunksCount(LinesOf(added, s.path), s.hunks);
        PairsUpdate(added, s.path, AddHunks(LinesOf(added, s.path), s.hunks));
      }
      SectionsCount(AddSection(added, s), patch[1..]);
    }
  }

  /** For a patch that adds no line twice, as every diff does, reading it back is right
      exactly when no added text begins with `++` and no file has an inherited name. */
  lemma DiffRoundTripExact(patch: seq<Section>)
    requires IsPatch(patch) && NoLineTwice(map[], patch)
    ensures Found(patch) == Some(Expected(patch))
       <==> forall i :: 0 <= i < |patch| ==> !MisreadInSection(patch[i]) && !InheritedIn(patch[i])
  {
    hide IsPatch, MisreadInSection, Expected, InheritedIn;
    if forall i :: 0 <= i < |patch| ==> !MisreadInSection(patch[i]) && !InheritedIn(patch[i]) {
      DiffRoundTrip(patch);
    } else if i :| 0 <= i < |patch| && InheritedIn(patch[i]) {
      InheritedIsLost(patch, i);
    } else {
      MisreadLosesLines(patch);
    }
  }

  lemma InheritedIsLost(patch: seq<Section>, i: nat)
    requires IsPatch(patch) && i < |patch| && InheritedIn(patch[i])
    ensures Found(patch) != Some(Expected(patch))
  {
    var path := patch[i].path;
    FoundInLines(patch);
    ExpectedIsUnion(patch, path, 0);
    hide INHERITED, IsPatch, Expected, ReadLines;
    NeverHoldsInherited(START, PrintLines(patch), path);
  }

  lemma MisreadLosesLines(patch: seq<Section>)
    requires IsPatch(patch) && NoLineTwice(map[], patch) && exists i :: 0 <= i < |patch| && MisreadInSection(patch[i])
    ensures Found(patch) != Some(Expected(patch))
  {
    FoundInLines(patch);
    RecordsAtMost(START, PrintLines(patch));
    AdditionsOfPatch(patch);
    SectionsCount(map[], patch);
    assert Pairs(map[]) == {};
  }

  /** The patch that adds one line to a root-level file of one of these names makes the
      reader throw. */
  lemma InheritedNameThrows(name: string)
    requires name in {"constructor", "toString", "valueOf", "hasOwnProperty", "isPrototypeOf", "propertyIsEnumerable",
                      "toLocaleString", "__proto__", "__defineGetter__", "__defineSetter__", "__lookupGetter__",
                      "__lookupSetter__"}
    ensures var patch := [TextPatch([], "/dev/null", name, [Hunk(0, 1, [], ["x"], "", false, false)])];
            IsPatch(patch) && NoLineTwice(map[], patch) && Found(patch) == None
  {
    var h := Hunk(0, 1, [], ["x"], "", false, false);
    var patch := [TextPatch([], "/dev/null", name, [h])];
    InheritedIsPath(name);
    OneLineAdded(h, name, patch);
    DiffRead(patch);
    hide INHERITED, IsPath;
    assert Throws(patch[0]);
  }

  lemma OneLineAdded(h: Hunk, name: string, patch: seq<Section>)
    requires h == Hunk(0, 1, [], ["x"], "", false, false) && patch == [TextPatch([], "/dev/null", name, [h])]
    requires IsPath(name)
    ensures IsPatch(patch) && NoLineTwice(map[], patch) && Total([h]) == 1 && !MisreadInSection(patch[0])
  {
    hide IsPath;
    assert !MisreadIn(h) && IsHunk(h);
    assert [h][1..] == [] && patch[1..] == [];
    assert LinesOf(map[], name) == {} && NoLineTwiceIn({}, [h]);
  }

  lemma InheritedIsPath(name: string)
    requires name in {"constructor", "toString", "valueOf", "hasOwnProperty", "isPrototypeOf", "propertyIsEnumerable",
                      "toLocaleString", "__proto__", "__defineGetter__", "__defineSetter__", "__lookupGetter__",
                      "__lookupSetter__"}
    ensures name in INHERITED && IsPath(name)
  {
    assert name != "" && !IsSpace(name[0]) && !IsSpace(name[|name| - 1]) && name[0] != '/';
    hide INHERITED;
    NothingToTrim(name);
  }

  lemma NothingToTrim(s: string)
    requires s != "" && !IsSpace(s[0]) && !IsSpace(s[|s| - 1])
    ensures Trim(s) == s
  {
  }

  /** After the name of no file, additions are passed over. */
  lemma {:induction false} NoFileAddsNothing(r: Reader, texts: seq<string>)
    requires !r.thrown && forall i :: 0 <= i < |texts| ==> !IsMisread(texts[i])
    ensures ReadLines(r, ["+++ /dev/null"] + Prefixed("+", texts)) == r.(file := None)
  {
    var (name, lines) := ("+++ /dev/null", Prefixed("+", texts));
    assert name[4..] == "/dev/null";
    assert !("b/" <= "/dev/null") by { assert "/dev/null"[0] == '/' && "b/"[0] == 'b'; }
    NothingToTrim("/dev/null");
    assert ReadLine(r, name) == r.(file := None);
    assert ([name] + lines)[1..] == lines;
    forall i | 0 <= i < |lines| ensures !("+++" <= lines[i]) && !("@@" <= lines[i]) {
      assert lines[i] == "+" + texts[i];
      PlusLine(texts[i]);
    }
    NoFileReads(r.(file := None), lines);
  }

  lemma {:induction false} NoFileReads(r: Reader, lines: seq<string>)
    requires r.file.None? && forall i :: 0 <= i < |lines| ==> !("+++" <= lines[i]) && !("@@" <= lines[i])
    ensures ReadLines(r, lines) == r
    decreases |lines|
  {
    if lines != [] {
      assert !("+++ " <= lines[0]);
      NoFileReads(r, lines[1..]);
    }
  }
}
