/** `compressRanges` of eduai-summer-2026/scripts/pr-patch-coverage.js. */
module CompressRanges {
  import opened Sequences
  import opened Text

  datatype Range = Range(start: nat, end: nat)

  predicate IsSorted(s: seq<nat>) {
    |s| > 1 ==> s[0] <= s[1] && IsSorted(s[1..])
  }

  predicate IsStrictlySorted(s: seq<nat>) {
    forall i, j :: 0 <= i < j < |s| ==> s[i] < s[j]
  }

  function Insert(n: nat, s: seq<nat>): (r: seq<nat>)
    requires IsSorted(s)
    ensures IsSorted(r) && r != [] && (r[0] == n || (s != [] && r[0] == s[0] && s[0] <= n))
    ensures multiset(r) == multiset(s) + multiset{n}
  {
    if s == [] || n <= s[0] then
      assert ([n] + s)[1..] == s;
      [n] + s
    else
      var rest := Insert(n, s[1..]);
      assert ([s[0]] + rest)[1..] == rest;
      assert s == [s[0]] + s[1..];
      [s[0]] + rest
  }

  /** The host's numeric sort. */
  function Sorted(nums: seq<nat>): (r: seq<nat>)
    ensures IsSorted(r) && multiset(r) == multiset(nums)
  {
    if nums == [] then []
    else
      assert nums == [nums[0]] + nums[1..];
      Insert(nums[0], Sorted(nums[1..]))
  }

  /** Sorting puts the numbers in ascending order and loses none. */
  lemma SortsExactly(nums: seq<nat>)
    ensures multiset(Sorted(nums)) == multiset(nums)
    ensures forall i, j :: 0 <= i < j < |nums| ==> |Sorted(nums)| == |nums| && Sorted(nums)[i] <= Sorted(nums)[j]
  {
    assert |multiset(Sorted(nums))| == |multiset(nums)|;
    forall i, j | 0 <= i < j < |Sorted(nums)| ensures Sorted(nums)[i] <= Sorted(nums)[j] { Ascends(Sorted(nums), i, j); }
  }

  lemma {:induction false} Ascends(s: seq<nat>, i: nat, j: nat)
    requires IsSorted(s) && i < j < |s|
    ensures s[i] <= s[j]
    decreases |s|
  {
    if i > 0 { Ascends(s[1..], i - 1, j - 1); }
    else if j > 1 { Ascends(s[1..], 0, j - 1); }
  }

  lemma InsertHas(n: nat, s: seq<nat>, k: nat)
    requires IsSorted(s)
    ensures k in Insert(n, s) <==> k == n || k in s
  {
    hide IsSorted;
    assert k in Insert(n, s) <==> k in multiset(Insert(n, s));
    assert k in s <==> k in multiset(s);
  }

  lemma {:induction false} InsertStrictly(n: nat, s: seq<nat>)
    requires IsSorted(s) && IsStrictlySorted(s) && n !in s
    ensures IsStrictlySorted(Insert(n, s))
    ensures forall k :: k in Insert(n, s) ==> k == n || k in s
  {
    forall k ensures k in Insert(n, s) ==> k == n || k in s { InsertHas(n, s, k); }
    if s != [] && n > s[0] {
      InsertStrictly(n, s[1..]);
      var rest := Insert(n, s[1..]);
      forall j | 0 <= j < |rest| ensures s[0] < rest[j] { InsertHas(n, s[1..], rest[j]); }
      assert Insert(n, s) == [s[0]] + rest;
      hide Insert, IsSorted;
    }
  }

  /** Distinct numbers, such as the line numbers of a set, sort strictly. */
  lemma {:induction false} DistinctSortsStrictly(nums: seq<nat>)
    requires Distinct(nums)
    ensures IsStrictlySorted(Sorted(nums)) && forall k :: k in Sorted(nums) ==> k in nums
  {
    if nums != [] {
      DistinctSortsStrictly(nums[1..]);
      assert nums[0] !in Sorted(nums[1..]) by {
        assert forall j :: 0 <= j < |nums| - 1 ==> nums[1..][j] == nums[j + 1];
      }
      InsertStrictly(nums[0], Sorted(nums[1..]));
    }
  }

  function Run(start: nat, end: nat): (r: seq<nat>)
    ensures forall k :: k in r <==> start <= k <= end
    decreases end + 1 - start
  {
    if end < start then [] else [start] + Run(start + 1, end)
  }

  function Expand(parts: seq<Range>): seq<nat> {
    if parts == [] then [] else Expand(parts[..|parts| - 1]) + Run(parts[|parts| - 1].start, parts[|parts| - 1].end)
  }

  lemma {:induction false} RunGrows(start: nat, end: nat)
    requires start <= end + 1
    ensures Run(start, end + 1) == Run(start, end) + [end + 1]
    decreases end + 1 - start
  {
    if start <= end { RunGrows(start + 1, end); }
  }

  /** No two neighbouring ranges could have been one. */
  predicate AreApart(parts: seq<Range>) {
    && (forall i :: 0 <= i < |parts| ==> parts[i].start <= parts[i].end)
    && (forall i :: 0 <= i < |parts| - 1 ==> HasGap(parts, i))
  }

  predicate HasGap(parts: seq<Range>, i: nat)
    requires i < |parts| - 1
  {
    parts[i + 1].start != parts[i].end + 1
  }

  lemma AppendRange(parts: seq<Range>, r: Range)
    ensures Expand(parts + [r]) == Expand(parts) + Run(r.start, r.end)
    ensures AreApart(parts) && r.start <= r.end && (parts != [] ==> r.start != parts[|parts| - 1].end + 1)
            ==> AreApart(parts + [r])
  {
    assert (parts + [r])[..|parts|] == parts;
    hide Expand, Run;
    if AreApart(parts) && r.start <= r.end && (parts != [] ==> r.start != parts[|parts| - 1].end + 1) {
      StaysApart(parts, r);
    }
  }

  lemma StaysApart(parts: seq<Range>, r: Range)
    requires AreApart(parts) && r.start <= r.end && (parts != [] ==> r.start != parts[|parts| - 1].end + 1)
    ensures AreApart(parts + [r])
  {
    var more := parts + [r];
    forall i | 0 <= i < |more| - 1 ensures HasGap(more, i) {
      if i < |parts| - 1 { assert HasGap(parts, i); }
    }
  }

  /** The loop of `compressRanges`, on the sorted numbers. */
  method MergeRuns(s: seq<nat>) returns (parts: seq<Range>)
    ensures Expand(parts) == s && AreApart(parts)
  {
    parts := [];
    if s == [] { return; }
    var start, prev := s[0], s[0];
    var i := 1;
    BeginsMerging(s);
    hide Merging, Expand, AreApart, Run;
    while i <= |s|
      invariant 1 <= i <= |s| + 1
      invariant i <= |s| ==> Merging(parts, start, prev, s, i)
      invariant i == |s| + 1 ==> Expand(parts) == s && AreApart(parts)
      decreases |s| + 1 - i
    {
      if i < |s| && s[i] == prev + 1 {
        MergeOne(parts, start, prev, s, i);
        prev := s[i];
      } else {
        CloseRange(parts, start, prev, s, i);
        parts := parts + [Range(start, prev)];
        if i < |s| { start, prev := s[i], s[i]; }
      }
      i := i + 1;
    }
  }

  /** The finished ranges and the one from `start` to `prev` make up the first `i` numbers. */
  ghost predicate Merging(parts: seq<Range>, start: nat, prev: nat, s: seq<nat>, i: nat)
    requires 0 < i <= |s|
  {
    && start <= prev && Expand(parts) + Run(start, prev) == s[..i] && prev == s[i - 1]
    && AreApart(parts) && (parts != [] ==> start != parts[|parts| - 1].end + 1)
  }

  lemma BeginsMerging(s: seq<nat>)
    requires s != []
    ensures Merging([], s[0], s[0], s, 1)
  {
    assert Run(s[0], s[0]) == [s[0]] == s[..1];
  }

  lemma MergeOne(parts: seq<Range>, start: nat, prev: nat, s: seq<nat>, i: nat)
    requires 0 < i < |s| && Merging(parts, start, prev, s, i) && s[i] == prev + 1
    ensures Merging(parts, start, s[i], s, i + 1)
  {
    RunGrows(start, prev);
    hide Expand, AreApart, Run;
    assert s[..i + 1] == s[..i] + [s[i]];
    assert Expand(parts) + (Run(start, prev) + [s[i]]) == Expand(parts) + Run(start, prev) + [s[i]];
  }

  lemma CloseRange(parts: seq<Range>, start: nat, prev: nat, s: seq<nat>, i: nat)
    requires 0 < i <= |s| && Merging(parts, start, prev, s, i)
    ensures var more := parts + [Range(start, prev)];
            if i == |s| then Expand(more) == s && AreApart(more)
            else s[i] != prev + 1 ==> Merging(more, s[i], s[i], s, i + 1)
  {
    AppendRange(parts, Range(start, prev));
    if i == |s| {
      assert s[..i] == s;
    } else {
      assert s[..i + 1] == s[..i] + [s[i]];
      assert Run(s[i], s[i]) == [s[i]];
    }
    hide Expand, AreApart, Run;
  }

  function Rendered(r: Range): string {
    if r.start == r.end then Decimal(r.start) else Decimal(r.start) + "-" + Decimal(r.end)
  }

  /** The rendered parts, each but the first after the blank of the separator. */
  function Pieces(parts: seq<Range>): seq<string> {
    PiecesFrom(parts, "")
  }

  function PiecesFrom(parts: seq<Range>, lead: string): (r: seq<string>)
    ensures |r| == |parts|
  {
    seq(|parts|, i requires 0 <= i < |parts| => (if i == 0 then lead else " ") + Rendered(parts[i]))
  }

  /** `compressRanges` */
  method Compress(nums: seq<nat>) returns (text: string)
    ensures ReadRanges(text) == Sorted(nums)
    ensures exists parts :: Expand(parts) == Sorted(nums) && AreApart(parts) && IsPrinted(text, parts)
  {
    var parts := MergeRuns(Sorted(nums));
    text := Join(Pieces(parts), ',');
    ReadsBack(parts);
    PiecesPrint(parts);
  }

  /** The text lists the ranges: a number alone, or the first and the last with a hyphen;
      between two a comma and a blank. */
  ghost predicate IsPrinted(text: string, parts: seq<Range>) {
    if parts == [] then text == ""
    else
      var r := parts[0];
      var first := if r.start == r.end then Decimal(r.start) else Decimal(r.start) + "-" + Decimal(r.end);
      if |parts| == 1 then text == first
      else first + ", " <= text && IsPrinted(text[|first| + 2..], parts[1..])
  }

  lemma PiecesPrint(parts: seq<Range>)
    ensures IsPrinted(Join(Pieces(parts), ','), parts)
  {
    PiecesFromPrint(parts, "");
    var text := Join(Pieces(parts), ',');
    assert text == Join(PiecesFrom(parts, ""), ',');
    hide Rendered, Pieces, PiecesFrom, Join, IsPrinted;
    assert text[|""|..] == text;
  }

  lemma {:induction false} PiecesFromPrint(parts: seq<Range>, lead: string)
    ensures parts != [] ==> lead <= Join(PiecesFrom(parts, lead), ',')
    ensures parts != [] ==> IsPrinted(Join(PiecesFrom(parts, lead), ',')[|lead|..], parts)
    ensures parts == [] ==> IsPrinted(Join(PiecesFrom(parts, lead), ','), parts)
    decreases |parts|
  {
    if parts != [] {
      var (first, text) := (Rendered(parts[0]), Join(PiecesFrom(parts, lead), ','));
      if |parts| == 1 {
        assert text == lead + first && text[|lead|..] == first;
      } else {
        PiecesFromPrint(parts[1..], " ");
        var rest := Join(PiecesFrom(parts[1..], " "), ',');
        assert PiecesFrom(parts, lead)[1..] == PiecesFrom(parts[1..], " ");
        assert text == lead + first + [','] + rest;
        hide Join, PiecesFrom;
        OneMorePrinted(parts, lead, first, rest);
      }
    }
  }

  lemma OneMorePrinted(parts: seq<Range>, lead: string, first: string, rest: string)
    requires |parts| > 1 && first == Rendered(parts[0]) && " " <= rest && IsPrinted(rest[1..], parts[1..])
    ensures var text := lead + first + [','] + rest; lead <= text && IsPrinted(text[|lead|..], parts)
  {
    Separated(lead, first, rest);
    hide Rendered, IsPrinted;
    PrintedBy(parts, first, rest, (lead + first + [','] + rest)[|lead|..]);
  }

  lemma PrintedBy(parts: seq<Range>, first: string, rest: string, tail: string)
    requires |parts| > 1 && first == Rendered(parts[0]) && " " <= rest && IsPrinted(rest[1..], parts[1..])
    requires first + ", " <= tail && tail[|first| + 2..] == rest[1..]
    ensures IsPrinted(tail, parts)
  {
  }

  lemma Separated(lead: string, first: string, rest: string)
    requires " " <= rest
    ensures var text := lead + first + [','] + rest;
            var tail := text[|lead|..];
            lead <= text && first + ", " <= tail && tail[|first| + 2..] == rest[1..]
  {
    var text := lead + first + [','] + rest;
    var tail := text[|lead|..];
    assert tail == first + ([','] + rest);
    assert [','] + rest == ", " + rest[1..];
    assert tail == first + ", " + rest[1..];
  }

  /** The example beside the source, and a number alone. */
  lemma PrintsLikeThis()
    ensures IsPrinted("3-5, 9-10", [Range(3, 5), Range(9, 10)]) && IsPrinted("7", [Range(7, 7)])
    ensures Expand([Range(3, 5), Range(9, 10)]) == [3, 4, 5, 9, 10]
  {
    var (parts, text) := ([Range(3, 5), Range(9, 10)], "3-5, 9-10");
    SmallDecimals();
    hide Decimal;
    assert parts[1..] == [Range(9, 10)] && text[5..] == "9-10";
    assert parts[..1] == [Range(3, 5)] && [Range(3, 5)][..0] == [];
    SmallRuns();
    hide Run;
  }

  lemma SmallRuns()
    ensures Run(3, 5) == [3, 4, 5] && Run(9, 10) == [9, 10]
  {
  }

  lemma SmallDecimals()
    ensures Decimal(3) == "3" && Decimal(5) == "5" && Decimal(9) == "9" && Decimal(7) == "7" && Decimal(10) == "10"
  {
    assert Decimal(10) == Decimal(1) + Decimal(0);
  }

  // A reader of the text, to say what it means.

  function ReadBare(text: string): seq<nat> {
    var first := LeadingDigits(text);
    var rest := if |first| <= |text| then text[|first|..] else "";
    if first == "" then []
    else if "-" <= rest then Run(ParseDigits(first), ParseDigits(LeadingDigits(rest[1..])))
    else [ParseDigits(first)]
  }

  function ReadRange(piece: string): seq<nat> {
    ReadBare(if " " <= piece then piece[1..] else piece)
  }

  function ReadAll(pieces: seq<string>): seq<nat> {
    if pieces == [] then [] else ReadAll(pieces[..|pieces| - 1]) + ReadRange(pieces[|pieces| - 1])
  }

  function ReadRanges(text: string): seq<nat> {
    ReadAll(Split(text, ','))
  }

  lemma ReadsBare(r: Range)
    requires r.start <= r.end
    ensures ReadBare(Rendered(r)) == Run(r.start, r.end)
  {
    var (a, b) := (Decimal(r.start), Decimal(r.end));
    ParseDecimal(r.start);
    ParseDecimal(r.end);
    hide Decimal, ParseDigits, LeadingDigits;
    LeadingDigitsOf(b, "");
    assert b + "" == b;
    if r.start == r.end {
      LeadingDigitsOf(a, "");
      assert a + "" == a;
      assert Run(r.start, r.end) == [r.start];
    } else {
      LeadingDigitsOf(a, "-" + b);
      assert Rendered(r) == a + ("-" + b);
      assert Rendered(r)[|a|..] == "-" + b && ("-" + b)[1..] == b;
    }
  }

  lemma RenderedText(r: Range)
    ensures var s := Rendered(r); ',' !in s && s != "" && s[0] != ' '
  {
    var (a, b) := (Decimal(r.start), Decimal(r.end));
    assert forall i :: 0 <= i < |a| ==> IsDigit(a[i]);
    assert forall i :: 0 <= i < |b| ==> IsDigit(b[i]);
    hide Decimal;
    assert Rendered(r)[0] == a[0];
  }

  lemma ReadsPiece(r: Range, first: bool)
    requires r.start <= r.end
    ensures ReadRange((if first then "" else " ") + Rendered(r)) == Run(r.start, r.end)
    ensures ',' !in (if first then "" else " ") + Rendered(r)
  {
    ReadsBare(r);
    RenderedText(r);
    hide Rendered, ReadBare, Run;
    var piece := (if first then "" else " ") + Rendered(r);
    if first {
      assert piece == Rendered(r);
    } else {
      assert piece[0] == ' ' && piece[1..] == Rendered(r);
    }
  }

  lemma {:induction false} ReadsPieces(parts: seq<Range>)
    requires forall i :: 0 <= i < |parts| ==> parts[i].start <= parts[i].end
    ensures ReadAll(Pieces(parts)) == Expand(parts)
    ensures forall i :: 0 <= i < |parts| ==> ',' !in Pieces(parts)[i]
    decreases |parts|
  {
    hide Rendered, Run, ReadRange;
    if parts != [] {
      var last := |parts| - 1;
      ReadsPieces(parts[..last]);
      ReadsPiece(parts[last], last == 0);
      assert Pieces(parts)[..last] == Pieces(parts[..last]);
      assert forall i :: 0 <= i < last ==> Pieces(parts)[i] == Pieces(parts[..last])[i];
    }
  }

  lemma ReadsBack(parts: seq<Range>)
    requires AreApart(parts)
    ensures ReadRanges(Join(Pieces(parts), ',')) == Expand(parts)
  {
    ReadsPieces(parts);
    if parts == [] {
      assert Split("", ',') == [""];
      assert ReadAll([""]) == ReadAll([]) + ReadRange("");
    } else {
      SplitJoin(Pieces(parts), ',');
    }
  }

  // For distinct numbers the list of ranges is as short as can be.

  lemma {:induction false} ExpandHas(parts: seq<Range>, k: nat)
    ensures k in Expand(parts) <==> exists i :: 0 <= i < |parts| && parts[i].start <= k <= parts[i].end
    decreases |parts|
  {
    if parts != [] {
      var (front, r) := (parts[..|parts| - 1], parts[|parts| - 1]);
      ExpandHas(front, k);
      assert Expand(parts) == Expand(front) + Run(r.start, r.end);
      hide Expand, Run;
      if i :| 0 <= i < |front| && front[i].start <= k <= front[i].end {
        assert parts[i].start <= k <= parts[i].end;
      }
      if i :| 0 <= i < |parts| && parts[i].start <= k <= parts[i].end {
        if i < |front| { assert front[i].start <= k <= front[i].end; }
      }
    }
  }

  lemma {:induction false} ExpandAfter(parts: seq<Range>, i: nat)
    requires IsStrictlySorted(Expand(parts)) && AreApart(parts) && i < |parts|
    ensures IsStrictlySorted(Expand(parts[..i + 1]))
    ensures forall k :: k in Expand(parts[..i]) ==> k < parts[i].start
    ensures i > 0 ==> parts[i - 1].end + 2 <= parts[i].start
    decreases |parts|
  {
    var last := |parts| - 1;
    LastAfter(parts);
    if i == last {
      assert parts[..i + 1] == parts;
    } else {
      hide Expand, AreApart, IsStrictlySorted;
      ExpandAfter(parts[..last], i);
      assert parts[..last][..i + 1] == parts[..i + 1] && parts[..last][..i] == parts[..i];
    }
  }

  /** The last range comes after all the others, with a gap. */
  lemma LastAfter(parts: seq<Range>)
    requires IsStrictlySorted(Expand(parts)) && AreApart(parts) && parts != []
    ensures var (front, last) := (parts[..|parts| - 1], parts[|parts| - 1]);
            && IsStrictlySorted(Expand(front)) && AreApart(front)
            && (forall k :: k in Expand(front) ==> k < last.start)
            && (front != [] ==> front[|front| - 1].end + 2 <= last.start)
  {
    var (front, last) := (parts[..|parts| - 1], parts[|parts| - 1]);
    assert Expand(parts) == Expand(front) + Run(last.start, last.end);
    FrontApart(parts);
    assert Run(last.start, last.end) != [] && Run(last.start, last.end)[0] == last.start;
    hide Expand, Run, AreApart, IsStrictlySorted;
    SortedParts(Expand(front), Run(last.start, last.end));
    if front != [] { EndIsIn(front); }
  }

  lemma FrontApart(parts: seq<Range>)
    requires AreApart(parts) && parts != []
    ensures AreApart(parts[..|parts| - 1]) && parts[|parts| - 1].start <= parts[|parts| - 1].end
    ensures |parts| > 1 ==> parts[|parts| - 1].start != parts[|parts| - 2].end + 1
  {
    var front := parts[..|parts| - 1];
    forall j | 0 <= j < |front| - 1 ensures HasGap(front, j) { assert HasGap(parts, j); }
    if |parts| > 1 { assert HasGap(parts, |parts| - 2); }
  }

  lemma EndIsIn(parts: seq<Range>)
    requires AreApart(parts) && parts != []
    ensures parts[|parts| - 1].end in Expand(parts)
  {
    var last := parts[|parts| - 1];
    assert last.end in Run(last.start, last.end);
  }

  lemma SortedParts(front: seq<nat>, run: seq<nat>)
    requires IsStrictlySorted(front + run) && run != []
    ensures IsStrictlySorted(front) && forall k :: k in front ==> k < run[0]
  {
    var all := front + run;
    assert forall a :: 0 <= a < |front| ==> front[a] == all[a];
    assert all[|front|] == run[0];
  }

  /** Neighbouring ranges are at least two apart, so the number before a range
      starts is missing. */
  lemma BeforeStartIsMissing(parts: seq<Range>, i: nat)
    requires IsStrictlySorted(Expand(parts)) && AreApart(parts) && i < |parts| && parts[i].start > 0
    ensures parts[i].start - 1 !in Expand(parts)
  {
    var k := parts[i].start - 1;
    ExpandHas(parts, k);
    forall j | 0 <= j < |parts| ensures !(parts[j].start <= k <= parts[j].end) {
      if j < i { StartsAscend(parts, j, i); }
      if j > i { StartsAscend(parts, i, j); }
    }
  }

  lemma {:induction false} StartsAscend(parts: seq<Range>, i: nat, j: nat)
    requires IsStrictlySorted(Expand(parts)) && AreApart(parts) && i < j < |parts|
    ensures parts[i].end + 2 <= parts[j].start
    decreases j
  {
    ExpandAfter(parts, j);
    if i < j - 1 {
      StartsAscend(parts, i, j - 1);
      assert parts[j - 1].start <= parts[j - 1].end;
    }
  }

  ghost predicate SameNumbers(a: seq<Range>, b: seq<Range>) {
    forall k :: k in Expand(a) <==> k in Expand(b)
  }

  predicate Covers(r: Range, k: nat) {
    r.start <= k <= r.end
  }

  /** A range that covers the start of range `i`. */
  lemma CoverOf(parts: seq<Range>, other: seq<Range>, i: nat) returns (c: nat)
    requires AreApart(parts) && SameNumbers(parts, other) && i < |parts|
    ensures c < |other| && Covers(other[c], parts[i].start)
  {
    var start := parts[i].start;
    ExpandHas(parts, start);
    assert parts[i].start <= start <= parts[i].end;
    ExpandHas(other, start);
    c :| 0 <= c < |other| && other[c].start <= start <= other[c].end;
  }

  /** One range cannot cover the starts of two ranges. */
  lemma CoversOneStart(parts: seq<Range>, other: seq<Range>, a: nat, b: nat, c: nat)
    requires IsStrictlySorted(Expand(parts)) && AreApart(parts) && SameNumbers(parts, other)
    requires a < b < |parts| && c < |other| && Covers(other[c], parts[a].start)
    ensures !Covers(other[c], parts[b].start)
  {
    StartsAscend(parts, a, b);
    assert parts[a].start <= parts[a].end;
    BeforeStartIsMissing(parts, b);
    hide AreApart, IsStrictlySorted;
    if Covers(other[c], parts[b].start) {
      ExpandHas(other, parts[b].start - 1);
    }
  }

  ghost predicate CoversStarts(cover: seq<nat>, parts: seq<Range>, other: seq<Range>) {
    && |cover| <= |parts|
    && forall a :: 0 <= a < |cover| ==> cover[a] < |other| && Covers(other[cover[a]], parts[a].start)
  }

  /** For each of the first ranges a range that covers its start, none of them twice. */
  lemma {:induction false} DifferentCovers(parts: seq<Range>, other: seq<Range>, n: nat) returns (cover: seq<nat>)
    requires IsStrictlySorted(Expand(parts)) && AreApart(parts) && SameNumbers(parts, other) && n <= |parts|
    ensures |cover| == n && CoversStarts(cover, parts, other) && Distinct(cover)
    decreases n
  {
    cover := [];
    if n > 0 {
      var c := CoverOf(parts, other, n - 1);
      cover := DifferentCovers(parts, other, n - 1);
      forall a | 0 <= a < n - 1 ensures cover[a] != c { CoversOneStart(parts, other, a, n - 1, cover[a]); }
      hide IsStrictlySorted, AreApart, SameNumbers, Expand, Covers;
      cover := cover + [c];
    }
  }

  /** No shorter list of ranges covers the same numbers. */
  lemma FewestRanges(parts: seq<Range>, other: seq<Range>)
    requires IsStrictlySorted(Expand(parts)) && AreApart(parts) && SameNumbers(parts, other)
    ensures |parts| <= |other|
  {
    hide IsStrictlySorted, AreApart, SameNumbers, Expand;
    var cover := DifferentCovers(parts, other, |parts|);
    DistinctBelow(cover, |other|);
  }

  lemma {:induction false} DistinctBelow(s: seq<nat>, n: nat)
    requires (forall i :: 0 <= i < |s| ==> s[i] < n) && Distinct(s)
    ensures |s| <= n
    decreases n
  {
    assert s == [] || s[0] < n;
    if n > 0 {
      if i :| 0 <= i < |s| && s[i] == n - 1 {
        DistinctBelow(s[..i] + s[i + 1..], n - 1);
      } else {
        DistinctBelow(s, n - 1);
      }
    }
  }
}
