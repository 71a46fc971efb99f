/** The counting in `main` of eduai-summer-2026/scripts/pr-patch-coverage.js: which of
    the lines a patch adds a test executes, and the list of those that none does. */
module PatchCoverage {
  import Diff = UnifiedDiff
  import opened Options
  import Ranges = CompressRanges
  import opened Sequences

  /** The executable lines of a file, with how often the tests ran them. */
  type Hits = map<nat, int>

  datatype Result =
    | NeverImported(file: string, addedCount: nat)
    | Counted(file: string, executable: nat, covered: nat, uncovered: seq<nat>)

  predicate IsUncovered(n: nat, lines: Hits) {
    n in lines && lines[n] <= 0
  }

  ghost function Executable(added: set<nat>, lines: Hits): set<nat> {
    set n | n in added && n in lines
  }

  ghost function Covered(added: set<nat>, lines: Hits): set<nat> {
    set n | n in added && n in lines && lines[n] > 0
  }

  /** Each added line is taken for what it is, and once. */
  ghost predicate Accounts(r: Result, added: set<nat>, lines: Hits) {
    && r.Counted? && r.executable == |Executable(added, lines)| && r.covered == |Covered(added, lines)|
    && (forall n :: n in r.uncovered <==> n in added && IsUncovered(n, lines))
    && Distinct(r.uncovered) && r.executable == r.covered + |r.uncovered|
  }

  /** The loop over the added lines of one file, in whatever order the set gives them. */
  method CountFile(file: string, added: set<nat>, lines: Option<Hits>) returns (r: Result)
    ensures r.file == file
    ensures if lines.None? then r == NeverImported(file, |added|) else Accounts(r, added, lines.value)
  {
    if lines.None? { return NeverImported(file, |added|); }
    var executable: nat, covered: nat, uncovered := 0, 0, [];
    var left := added;
    while left != {}
      invariant left <= added
      invariant Accounts(Counted(file, executable, covered, uncovered), added - left, lines.value)
      decreases left
    {
      var ln :| ln in left;
      OneMoreLine(Counted(file, executable, covered, uncovered), added - left, lines.value, ln);
      assert added - (left - {ln}) == (added - left) + {ln};
      left := left - {ln};
      if ln !in lines.value { continue; }
      executable := executable + 1;
      if lines.value[ln] > 0 { covered := covered + 1; } else { uncovered := uncovered + [ln]; }
    }
    assert added - left == added;
    return Counted(file, executable, covered, uncovered);
  }

  lemma OneMoreLine(r: Result, done: set<nat>, lines: Hits, ln: nat)
    requires Accounts(r, done, lines) && ln !in done
    ensures Accounts(
              if ln !in lines then r
              else if lines[ln] > 0 then r.(executable := r.executable + 1, covered := r.covered + 1)
              else r.(executable := r.executable + 1, uncovered := r.uncovered + [ln]), done + {ln}, lines)
  {
    SetsGrow(done, lines, ln);
    hide Executable, Covered;
    assert ln !in r.uncovered;
  }

  lemma SetsGrow(done: set<nat>, lines: Hits, ln: nat)
    requires ln !in done
    ensures |Executable(done + {ln}, lines)| == |Executable(done, lines)| + if ln in lines then 1 else 0
    ensures |Covered(done + {ln}, lines)| == |Covered(done, lines)| + if ln in lines && lines[ln] > 0 then 1 else 0
  {
    var (e, c) := (Executable(done, lines), Covered(done, lines));
    assert Executable(done + {ln}, lines) == if ln in lines then e + {ln} else e;
    assert Covered(done + {ln}, lines) == if ln in lines && lines[ln] > 0 then c + {ln} else c;
  }

  function TotalExecutable(rs: seq<Result>): nat {
    if rs == [] then 0
    else TotalExecutable(rs[..|rs| - 1]) + if rs[|rs| - 1].Counted? then rs[|rs| - 1].executable else 0
  }

  function TotalCovered(rs: seq<Result>): nat {
    if rs == [] then 0
    else TotalCovered(rs[..|rs| - 1]) + if rs[|rs| - 1].Counted? then rs[|rs| - 1].covered else 0
  }

  function TotalUncovered(rs: seq<Result>): nat {
    if rs == [] then 0
    else TotalUncovered(rs[..|rs| - 1]) + if rs[|rs| - 1].Counted? then |rs[|rs| - 1].uncovered| else 0
  }

  /** The totals of two lists of files are those of both together; of one file, its own. */
  lemma {:induction false} TotalsAdd(a: seq<Result>, b: seq<Result>)
    ensures TotalExecutable(a + b) == TotalExecutable(a) + TotalExecutable(b)
    ensures TotalCovered(a + b) == TotalCovered(a) + TotalCovered(b)
    ensures TotalUncovered(a + b) == TotalUncovered(a) + TotalUncovered(b)
    ensures |b| == 1 && b[0].Counted? ==>
              && TotalExecutable(b) == b[0].executable && TotalCovered(b) == b[0].covered
              && TotalUncovered(b) == |b[0].uncovered|
    decreases |b|
  {
    if b == [] { assert a + b == a; }
    else {
      assert (a + b)[..|a + b| - 1] == a + b[..|b| - 1];
      TotalsAdd(a, b[..|b| - 1]);
    }
  }

  predicate IsAssessable(r: Result) {
    r.NeverImported? || r.executable > 0
  }

  /** The totals of the report, over the files with something to assess. */
  method Totals(results: seq<Result>) returns (totalExec: nat, totalCov: nat)
    ensures totalExec == TotalExecutable(results)
    ensures (forall r :: r in results && r.Counted? ==> r.executable == r.covered + |r.uncovered|) ==>
              totalCov == TotalCovered(results) && totalCov + TotalUncovered(results) == totalExec
  {
    totalExec, totalCov := 0, 0;
    for i := 0 to |results|
      invariant totalExec == TotalExecutable(results[..i])
      invariant (forall r :: r in results && r.Counted? ==> r.executable == r.covered + |r.uncovered|) ==>
                  totalCov == TotalCovered(results[..i]) && totalCov + TotalUncovered(results[..i]) == totalExec
    {
      var r := results[i];
      assert results[..i + 1][..i] == results[..i] && r in results;
      if !IsAssessable(r) || r.NeverImported? { continue; }
      totalExec := totalExec + r.executable;
      totalCov := totalCov + r.covered;
    }
    assert results[..|results|] == results;
  }

  /** From git's output to the printed ranges, for a patch without misread lines: the
      script dies exactly when a line is added to a file of an inherited name, and the
      ranges listed for a file are exactly the lines that some hunk of the patch adds
      to it and that are executable but never ran, in ascending order. */
  method ReportUncovered(diff: string, file: string, lines: Hits, ghost patch: seq<Diff.Section>)
    returns (thrown: bool, text: Option<string>)
    requires Diff.IsPatch(patch) && diff == Diff.Print(patch)
    requires forall i :: 0 <= i < |patch| ==> !Diff.MisreadInSection(patch[i])
    ensures thrown <==> exists i :: 0 <= i < |patch| && Diff.Throws(patch[i])
    ensures !thrown ==>
              (text.Some? <==> file !in Diff.INHERITED
                               && exists i :: 0 <= i < |patch| && patch[i].TextPatch? && patch[i].path == file)
    ensures text.Some? ==> Ranges.IsStrictlySorted(Ranges.ReadRanges(text.value))
    ensures text.Some? ==>
              forall n :: n in Ranges.ReadRanges(text.value) <==>
                          IsUncovered(n, lines) && exists i :: 0 <= i < |patch| && Diff.Adds(patch[i], file, n)
  {
    thrown, text := false, None;
    var added := Diff.AddedLinesByFile(diff);
    Diff.DiffRead(patch);
    hide Diff.Expected, Diff.Print, Diff.IsPatch, Diff.MisreadInSection, Diff.ReadLines, Diff.Adds, Diff.Throws,
         Diff.INHERITED;
    Diff.ExpectedIsUnion(patch, file, 0);
    if added.None? { return true, None; }
    if file !in added.value { return; }
    var r := CountFile(file, added.value[file], Some(lines));
    var printed := Ranges.Compress(r.uncovered);
    SortedHas(r.uncovered);
    forall n ensures n in added.value[file] <==> exists i :: 0 <= i < |patch| && Diff.Adds(patch[i], file, n) {
      Diff.ExpectedIsUnion(patch, file, n);
    }
    text := Some(printed);
  }

  lemma SortedHas(ns: seq<nat>)
    requires Distinct(ns)
    ensures Ranges.IsStrictlySorted(Ranges.Sorted(ns)) && forall n :: n in Ranges.Sorted(ns) <==> n in ns
  {
    Ranges.DistinctSortsStrictly(ns);
    forall n ensures n in Ranges.Sorted(ns) <==> n in ns {
      assert n in Ranges.Sorted(ns) <==> n in multiset(Ranges.Sorted(ns));
      assert n in ns <==> n in multiset(ns);
    }
  }
}
