/** `parseIssueHours` of eduai-summer-2026/scripts/parse-issue-hours.js, from the
    classified lines of an issue body on. */
module IssueHours {
  import opened Options
  import opened Sequences

  /** What the patterns make of a line: a code fence, a well-formed hours line
      (`person` is empty when none is named), a line that only mentions the phrase. */
  datatype Line = Fence | Hours(scope: string, hours: real, person: string) | Phrase | Text

  datatype Entry = Entry(lineNumber: nat, scope: string, hours: real, person: string)

  datatype Counted = Counted(entry: Entry, username: string)

  datatype Warning =
    | MissingHours
    | InvalidFormat(lineNumber: nat)
    | DuplicatePerson(username: string)
    | MixedNamedAndUnnamed
    | UnnamedNeedsReview
    | MultipleUnnamed

  /** Whether a fence is open after these lines. */
  function IsOpen(lines: seq<Line>): bool {
    if lines == [] then false
    else if lines[|lines| - 1].Fence? then !IsOpen(lines[..|lines| - 1])
    else IsOpen(lines[..|lines| - 1])
  }

  /** The well-formed hours lines outside fences. */
  function ValidEntries(lines: seq<Line>): seq<Entry> {
    if lines == [] then []
    else
      var (done, l) := (lines[..|lines| - 1], lines[|lines| - 1]);
      ValidEntries(done)
      + if l.Hours? && !IsOpen(done) then [Entry(|lines|, l.scope, l.hours, l.person)] else []
  }

  /** The line numbers that mention the phrase, outside fences, without being well-formed. */
  function InvalidLines(lines: seq<Line>): seq<nat> {
    if lines == [] then []
    else
      var (done, l) := (lines[..|lines| - 1], lines[|lines| - 1]);
      InvalidLines(done) + if l.Phrase? && !IsOpen(done) then [|lines|] else []
  }

  /** The first loop. */
  method Classify(lines: seq<Line>) returns (valid: seq<Entry>, invalid: seq<nat>)
    ensures valid == ValidEntries(lines) && invalid == InvalidLines(lines)
  {
    valid, invalid := [], [];
    var insideFence := false;
    for index := 0 to |lines|
      invariant insideFence == IsOpen(lines[..index])
      invariant valid == ValidEntries(lines[..index]) && invalid == InvalidLines(lines[..index])
    {
      assert lines[..index + 1][..index] == lines[..index];
      var line := lines[index];
      if line.Fence? {
        insideFence := !insideFence;
        continue;
      }
      if insideFence { continue; }
      if line.Hours? {
        valid := valid + [Entry(index + 1, line.scope, line.hours, line.person)];
      } else if line.Phrase? {
        invalid := invalid + [index + 1];
      }
    }
    assert lines[..|lines|] == lines;
  }

  predicate IsNamed(e: Entry) {
    e.person != ""
  }

  function Named(es: seq<Entry>, named: bool): (r: seq<Entry>)
    ensures forall e :: e in r <==> e in es && IsNamed(e) == named
  {
    if es == [] then []
    else Named(es[..|es| - 1], named) + if IsNamed(es[|es| - 1]) == named then [es[|es| - 1]] else []
  }

  lemma NamedSnoc(es: seq<Entry>, e: Entry, named: bool)
    ensures Named(es + [e], named) == if IsNamed(e) == named then Named(es, named) + [e] else Named(es, named)
  {
    assert (es + [e])[..|es|] == es;
  }

  lemma {:induction false} NamedAndUnnamed(es: seq<Entry>)
    ensures multiset(es) == multiset(Named(es, true)) + multiset(Named(es, false))
  {
    if es == [] {
      NoneNamed();
    } else {
      hide Named, IsNamed;
      var (front, e) := (es[..|es| - 1], es[|es| - 1]);
      NamedAndUnnamed(front);
      assert es == front + [e];
      NamedSnoc(front, e, true);
      NamedSnoc(front, e, false);
      OneMorePart(front, Named(front, true), Named(front, false), e);
    }
  }

  lemma NoneNamed()
    ensures Named([], true) == Named([], false) == []
  {
  }

  /** The key hours are grouped under; `lower` is the host's `toLowerCase`. */
  function KeyOf(person: string, scope: string, lower: string -> string): string {
    lower(person) + "|" + lower(scope)
  }

  function Key(e: Entry, lower: string -> string): string {
    KeyOf(e.person, e.scope, lower)
  }

  /** The entries with one key, in order. */
  function Group(es: seq<Entry>, key: string, lower: string -> string): (r: seq<Entry>)
    ensures forall e :: e in r <==> e in es && Key(e, lower) == key
  {
    if es == [] then []
    else Group(es[..|es| - 1], key, lower) + if Key(es[|es| - 1], lower) == key then [es[|es| - 1]] else []
  }

  /** The keys in the order in which a `Map` first sees them. */
  function KeysOf(es: seq<Entry>, lower: string -> string): (r: seq<string>)
    ensures Distinct(r)
  {
    if es == [] then []
    else
      var (done, key) := (KeysOf(es[..|es| - 1], lower), Key(es[|es| - 1], lower));
      if key in done then done else done + [key]
  }

  lemma {:induction false} KeysCover(es: seq<Entry>, lower: string -> string)
    ensures forall e :: e in es ==> Key(e, lower) in KeysOf(es, lower)
    ensures forall key :: key in KeysOf(es, lower) ==> Group(es, key, lower) != []
  {
    if es != [] {
      var done := es[..|es| - 1];
      KeysCover(done, lower);
      assert es == done + [es[|es| - 1]];
    }
  }

  /** `namedByUser`: the keys with their groups. */
  method GroupByKey(es: seq<Entry>, lower: string -> string) returns (keys: seq<string>, groups: map<string, seq<Entry>>)
    ensures keys == KeysOf(es, lower)
    ensures forall key :: key in groups <==> key in keys
    ensures forall key :: key in groups ==> groups[key] == Group(es, key, lower)
  {
    keys, groups := [], map[];
    NothingGrouped(lower);
    hide Grouped, KeysOf, Group, Key, Distinct;
    assert es[..0] == [];
    for i := 0 to |es|
      invariant Grouped(es[..i], keys, groups, lower)
    {
      var key := Key(es[i], lower);
      var existing := if key in groups then groups[key] else [];
      OneMoreGrouped(es[..i], es[i], keys, groups, lower);
      assert es[..i + 1] == es[..i] + [es[i]];
      if key !in groups { keys := keys + [key]; }
      groups := groups[key := existing + [es[i]]];
    }
    assert es[..|es|] == es;
    GroupedMeans(es, keys, groups, lower);
  }

  ghost predicate Grouped(es: seq<Entry>, keys: seq<string>, groups: map<string, seq<Entry>>, lower: string -> string) {
    && keys == KeysOf(es, lower)
    && (forall key :: key in groups <==> key in keys)
    && forall key :: key in groups ==> groups[key] == Group(es, key, lower)
  }

  lemma NothingGrouped(lower: string -> string)
    ensures Grouped([], [], map[], lower)
  {
  }

  lemma GroupedMeans(es: seq<Entry>, keys: seq<string>, groups: map<string, seq<Entry>>, lower: string -> string)
    requires Grouped(es, keys, groups, lower)
    ensures keys == KeysOf(es, lower)
    ensures forall key :: key in groups <==> key in keys
    ensures forall key :: key in groups ==> groups[key] == Group(es, key, lower)
  {
  }

  lemma OneMoreGrouped(
    es: seq<Entry>, e: Entry, keys: seq<string>, groups: map<string, seq<Entry>>, lower: string -> string)
    requires Grouped(es, keys, groups, lower)
    ensures var key := Key(e, lower);
            var existing := if key in groups then groups[key] else [];
            Grouped(es + [e], if key in groups then keys else keys + [key], groups[key := existing + [e]], lower)
  {
    var key := Key(e, lower);
    KeysCoverKey(es, key, lower);
    KeysSnoc(es, e, lower);
    forall other { GroupSnoc(es, e, other, lower); }
    hide KeysOf, Group, Key;
  }

  lemma KeysSnoc(es: seq<Entry>, e: Entry, lower: string -> string)
    ensures KeysOf(es + [e], lower) == if Key(e, lower) in KeysOf(es, lower) then KeysOf(es, lower)
                                       else KeysOf(es, lower) + [Key(e, lower)]
  {
    assert (es + [e])[..|es|] == es;
  }

  lemma GroupSnoc(es: seq<Entry>, e: Entry, key: string, lower: string -> string)
    ensures Group(es + [e], key, lower) == Group(es, key, lower) + if Key(e, lower) == key then [e] else []
  {
    assert (es + [e])[..|es|] == es;
  }

  lemma KeysCoverKey(es: seq<Entry>, key: string, lower: string -> string)
    ensures key !in KeysOf(es, lower) ==> Group(es, key, lower) == []
  {
    KeysCover(es, lower);
    var group := Group(es, key, lower);
    if |group| > 0 { assert group[0] in group; }
  }

  /** All the entries of the groups of `keys`. */
  ghost function Flattened(keys: seq<string>, es: seq<Entry>, lower: string -> string): multiset<Entry> {
    if keys == [] then multiset{}
    else Flattened(keys[..|keys| - 1], es, lower) + multiset(Group(es, keys[|keys| - 1], lower))
  }

  lemma {:induction false} FlattenedStep(keys: seq<string>, es: seq<Entry>, e: Entry, lower: string -> string)
    requires Distinct(keys)
    ensures Flattened(keys, es + [e], lower)
         == Flattened(keys, es, lower) + if Key(e, lower) in keys then multiset{e} else multiset{}
    decreases |keys|
  {
    if keys != [] {
      var last := |keys| - 1;
      FlattenedStep(keys[..last], es, e, lower);
      assert (es + [e])[..|es|] == es;
      assert Key(e, lower) in keys <==> Key(e, lower) in keys[..last] || Key(e, lower) == keys[last];
    }
  }

  /** The groups hold every entry once. */
  lemma {:induction false} FlattenedIsAll(keys: seq<string>, es: seq<Entry>, lower: string -> string)
    requires Distinct(keys)
    requires forall e :: e in es ==> Key(e, lower) in keys
    ensures Flattened(keys, es, lower) == multiset(es)
    decreases |es|
  {
    if es == [] { NothingFlattened(keys, lower); }
    else {
      var last := |es| - 1;
      assert es == es[..last] + [es[last]];
      FlattenedIsAll(keys, es[..last], lower);
      FlattenedStep(keys, es[..last], es[last], lower);
    }
  }

  lemma {:induction false} NothingFlattened(keys: seq<string>, lower: string -> string)
    ensures Flattened(keys, [], lower) == multiset{}
  {
    if keys != [] { NothingFlattened(keys[..|keys| - 1], lower); }
  }

  function EntriesOf(counted: seq<Counted>): (r: seq<Entry>)
    ensures |r| == |counted| && forall i :: 0 <= i < |r| ==> r[i] == counted[i].entry
  {
    seq(|counted|, i requires 0 <= i < |counted| => counted[i].entry)
  }

  /** Who, if anyone, the hours of `e` are counted for. */
  function CountedFor(valid: seq<Entry>, e: Entry, assignees: seq<string>, lower: string -> string): Option<string> {
    if IsNamed(e) then
      if |Group(Named(valid, true), Key(e, lower), lower)| == 1 then Some(e.person) else None
    else if Named(valid, true) == [] && |Named(valid, false)| == 1 && |assignees| == 1 then Some(assignees[0])
    else None
  }

  // What the loop over the groups collects.

  function CountedGroups(keys: seq<string>, es: seq<Entry>, lower: string -> string): seq<Counted> {
    if keys == [] then []
    else
      var group := Group(es, keys[|keys| - 1], lower);
      CountedGroups(keys[..|keys| - 1], es, lower) + if |group| == 1 then [Counted(group[0], group[0].person)] else []
  }

  function ReviewedGroups(keys: seq<string>, es: seq<Entry>, lower: string -> string): seq<Entry> {
    if keys == [] then []
    else
      var group := Group(es, keys[|keys| - 1], lower);
      ReviewedGroups(keys[..|keys| - 1], es, lower) + if |group| > 1 then group else []
  }

  function AskedGroups(keys: seq<string>, es: seq<Entry>, lower: string -> string): seq<Warning> {
    if keys == [] then []
    else
      var group := Group(es, keys[|keys| - 1], lower);
      AskedGroups(keys[..|keys| - 1], es, lower) + if |group| > 1 then [DuplicatePerson(group[0].person)] else []
  }

  /** Counted, left to review, and the warnings that ask for that review. */
  datatype Outcome = Outcome(counted: seq<Counted>, review: seq<Entry>, asked: seq<Warning>)

  /** What becomes of the valid entries of one issue. */
  function Settled(valid: seq<Entry>, assignees: seq<string>, lower: string -> string): Outcome {
    var (named, unnamed) := (Named(valid, true), Named(valid, false));
    var keys := KeysOf(named, lower);
    var o := Outcome(CountedGroups(keys, named, lower), ReviewedGroups(keys, named, lower), AskedGroups(keys, named, lower));
    if unnamed == [] then o
    else if named != [] then Outcome(o.counted, o.review + unnamed, o.asked + [MixedNamedAndUnnamed])
    else if |unnamed| > 1 then Outcome(o.counted, o.review + unnamed, o.asked + [MultipleUnnamed])
    else if |assignees| == 1 then o.(counted := o.counted + [Counted(unnamed[0], assignees[0])])
    else Outcome(o.counted, o.review + [unnamed[0]], o.asked + [UnnamedNeedsReview])
  }

  /** The loop over the groups. */
  method CountNamed(named: seq<Entry>, lower: string -> string)
    returns (counted: seq<Counted>, review: seq<Entry>, asked: seq<Warning>)
    ensures var keys := KeysOf(named, lower);
            && counted == CountedGroups(keys, named, lower)
            && review == ReviewedGroups(keys, named, lower)
            && asked == AskedGroups(keys, named, lower)
  {
    var keys, groups := GroupByKey(named, lower);
    KeysCover(named, lower);
    hide KeysOf, Group;
    counted, review, asked := [], [], [];
    for k := 0 to |keys|
      invariant counted == CountedGroups(keys[..k], named, lower)
      invariant review == ReviewedGroups(keys[..k], named, lower)
      invariant asked == AskedGroups(keys[..k], named, lower)
    {
      assert keys[..k + 1][..k] == keys[..k] && keys[..k + 1][k] == keys[k];
      assert keys[k] in keys;
      var entries := groups[keys[k]];
      assert entries == Group(named, keys[k], lower) && entries != [];
      if |entries| > 1 {
        asked := asked + [DuplicatePerson(entries[0].person)];
        review := review + entries;
        continue;
      }
      counted := counted + [Counted(entries[0], entries[0].person)];
    }
    assert keys[..|keys|] == keys;
  }

  /** `parseIssueHours` */
  method ParseIssueHours(lines: seq<Line>, assignees: seq<string>, lower: string -> string)
    returns (counted: seq<Counted>, review: seq<Entry>, invalid: seq<nat>, warnings: seq<Warning>)
    ensures var o := Settled(ValidEntries(lines), assignees, lower);
            && counted == o.counted && review == o.review && invalid == InvalidLines(lines)
            && warnings == Warnings(ValidEntries(lines), invalid) + o.asked
  {
    var valid;
    valid, invalid := Classify(lines);
    var plain := PlainWarnings(valid, invalid);
    var named, unnamed := Named(valid, true), Named(valid, false);
    var asked: seq<Warning>;
    counted, review, asked := CountNamed(named, lower);
    hide KeysOf, CountedGroups, ReviewedGroups, AskedGroups, Named, Warnings;
    if |unnamed| > 0 && |named| > 0 {
      asked := asked + [MixedNamedAndUnnamed];
      review := review + unnamed;
    } else if |unnamed| == 1 {
      if |assignees| == 1 {
        counted := counted + [Counted(unnamed[0], assignees[0])];
      } else {
        asked := asked + [UnnamedNeedsReview];
        review := review + [unnamed[0]];
      }
    } else if |unnamed| > 1 {
      asked := asked + [MultipleUnnamed];
      review := review + unnamed;
    }
    warnings := plain + asked;
  }

  method PlainWarnings(valid: seq<Entry>, invalid: seq<nat>) returns (warnings: seq<Warning>)
    ensures warnings == Warnings(valid, invalid)
  {
    warnings := if valid == [] && invalid == [] then [MissingHours] else [];
    for i := 0 to |invalid|
      invariant warnings == (if valid == [] && invalid == [] then [MissingHours] else []) + InvalidFormats(invalid[..i])
    {
      assert invalid[..i + 1][..i] == invalid[..i];
      warnings := warnings + [InvalidFormat(invalid[i])];
    }
    assert invalid[..|invalid|] == invalid;
  }

  /** The warnings that concern no review. */
  function Warnings(valid: seq<Entry>, invalid: seq<nat>): seq<Warning> {
    (if valid == [] && invalid == [] then [MissingHours] else []) + InvalidFormats(invalid)
  }

  function InvalidFormats(invalid: seq<nat>): seq<Warning> {
    seq(|invalid|, i requires 0 <= i < |invalid| => InvalidFormat(invalid[i]))
  }

  // What is promised of the outcome.

  ghost function Landed(keys: seq<string>, es: seq<Entry>, lower: string -> string): multiset<Entry> {
    InAll(CountedGroups(keys, es, lower), ReviewedGroups(keys, es, lower))
  }

  ghost function InAll(counted: seq<Counted>, review: seq<Entry>): multiset<Entry> {
    multiset(EntriesOf(counted)) + multiset(review)
  }

  lemma InAllConcat(a: seq<Counted>, b: seq<Counted>, c: seq<Entry>, d: seq<Entry>)
    ensures InAll(a + b, c + d) == InAll(a, c) + InAll(b, d)
  {
    assert EntriesOf(a + b) == EntriesOf(a) + EntriesOf(b);
  }

  lemma InAllOne(e: Entry, username: string)
    ensures InAll([Counted(e, username)], []) == multiset{e}
    ensures InAll([], []) == multiset{}
  {
    assert EntriesOf([Counted(e, username)]) == [e];
  }

  lemma InAllReviewed(es: seq<Entry>)
    ensures InAll([], es) == multiset(es)
  {
    assert EntriesOf([]) == [];
  }

  lemma LandedStep(keys: seq<string>, es: seq<Entry>, lower: string -> string)
    requires keys != [] && Group(es, keys[|keys| - 1], lower) != []
    ensures Landed(keys, es, lower)
         == Landed(keys[..|keys| - 1], es, lower) + multiset(Group(es, keys[|keys| - 1], lower))
  {
    var (front, group) := (keys[..|keys| - 1], Group(es, keys[|keys| - 1], lower));
    var (counted, review) := (CountedGroups(front, es, lower), ReviewedGroups(front, es, lower));
    hide Group, InAll;
    if |group| == 1 {
      assert group == [group[0]] && review + [] == review;
      InAllConcat(counted, [Counted(group[0], group[0].person)], review, []);
      InAllOne(group[0], group[0].person);
    } else {
      assert counted + [] == counted;
      InAllConcat(counted, [], review, group);
      InAllReviewed(group);
    }
  }

  lemma {:induction false} GroupsSettled(keys: seq<string>, es: seq<Entry>, lower: string -> string)
    requires forall key :: key in keys ==> Group(es, key, lower) != []
    ensures Landed(keys, es, lower) == Flattened(keys, es, lower)
    ensures ReviewedGroups(keys, es, lower) == [] <==> AskedGroups(keys, es, lower) == []
    decreases |keys|
  {
    if keys != [] {
      assert keys[|keys| - 1] in keys;
      LandedStep(keys, es, lower);
      GroupsSettled(keys[..|keys| - 1], es, lower);
      hide Landed, Group;
    }
  }

  lemma {:induction false} GroupsCounted(keys: seq<string>, es: seq<Entry>, lower: string -> string)
    requires Distinct(keys)
    ensures forall c :: c in CountedGroups(keys, es, lower) <==>
              Key(c.entry, lower) in keys && Group(es, Key(c.entry, lower), lower) == [c.entry] && c.username == c.entry.person
    ensures DistinctCounts(CountedGroups(keys, es, lower), lower)
    decreases |keys|
  {
    if keys != [] {
      var (front, last) := (keys[..|keys| - 1], keys[|keys| - 1]);
      var (group, before) := (Group(es, last, lower), CountedGroups(front, es, lower));
      GroupsCounted(front, es, lower);
      assert forall key :: key in keys <==> key in front || key == last;
      if |group| == 1 {
        assert group[0] in group && group == [group[0]];
        forall i | 0 <= i < |before| ensures CountKey(before[i], lower) != last {
          assert before[i] in before;
        }
      }
    }
  }

  /** The (person, scope) pair that a count is for. */
  function CountKey(c: Counted, lower: string -> string): string {
    KeyOf(c.username, c.entry.scope, lower)
  }

  ghost predicate DistinctCounts(counted: seq<Counted>, lower: string -> string) {
    forall i, j :: 0 <= i < j < |counted| ==> CountKey(counted[i], lower) != CountKey(counted[j], lower)
  }

  /** Every valid hours line lands exactly once, among the counted or the reviewed;
      and nothing is reviewed without a warning. */
  lemma EachLineLandsOnce(valid: seq<Entry>, assignees: seq<string>, lower: string -> string)
    ensures var o := Settled(valid, assignees, lower);
            multiset(valid) == InAll(o.counted, o.review) && (o.review == [] <==> o.asked == [])
  {
    var (named, unnamed) := (Named(valid, true), Named(valid, false));
    var keys := KeysOf(named, lower);
    var (counted, review) := (CountedGroups(keys, named, lower), ReviewedGroups(keys, named, lower));
    NamedLand(valid, lower);
    hide KeysOf, Group, Flattened, Named, InAll, CountedGroups, ReviewedGroups, AskedGroups;
    if unnamed == [] {
    } else if named == [] && |unnamed| == 1 {
      SoleUnnamed(valid, assignees, lower);
    } else {
      assert counted + [] == counted;
      InAllConcat(counted, [], review, unnamed);
      InAllReviewed(unnamed);
    }
  }

  lemma SoleUnnamed(valid: seq<Entry>, assignees: seq<string>, lower: string -> string)
    requires Named(valid, true) == [] && |Named(valid, false)| == 1
    ensures var o := Settled(valid, assignees, lower);
            multiset(valid) == InAll(o.counted, o.review) && (o.review == [] <==> o.asked == [])
  {
    var unnamed := Named(valid, false);
    NamedAndUnnamed(valid);
    NoGroups(Named(valid, true), lower);
    hide KeysOf, Named, InAll, CountedGroups, ReviewedGroups, AskedGroups;
    assert unnamed == [unnamed[0]] == [] + [unnamed[0]];
    InAllReviewed(unnamed);
    if |assignees| == 1 {
      InAllOne(unnamed[0], assignees[0]);
      assert [] + [Counted(unnamed[0], assignees[0])] == [Counted(unnamed[0], assignees[0])];
    }
  }

  /** A person is counted at most once for each scope of an issue. */
  lemma CountedOncePerScope(valid: seq<Entry>, assignees: seq<string>, lower: string -> string)
    ensures DistinctCounts(Settled(valid, assignees, lower).counted, lower)
  {
    var named := Named(valid, true);
    GroupsCounted(KeysOf(named, lower), named, lower);
    if named == [] { NoGroups(named, lower); }
  }

  lemma NamedLand(valid: seq<Entry>, lower: string -> string)
    ensures var named := Named(valid, true);
            var keys := KeysOf(named, lower);
            && multiset(valid) == InAll(CountedGroups(keys, named, lower), ReviewedGroups(keys, named, lower))
                                  + multiset(Named(valid, false))
            && (ReviewedGroups(keys, named, lower) == [] <==> AskedGroups(keys, named, lower) == [])
  {
    var named := Named(valid, true);
    NamedAndUnnamed(valid);
    KeysCover(named, lower);
    FlattenedIsAll(KeysOf(named, lower), named, lower);
    GroupsSettled(KeysOf(named, lower), named, lower);
  }

  lemma NoGroups(named: seq<Entry>, lower: string -> string)
    requires named == []
    ensures KeysOf(named, lower) == []
    ensures CountedGroups([], named, lower) == [] && ReviewedGroups([], named, lower) == []
    ensures AskedGroups([], named, lower) == []
  {
  }

  lemma NamedCounted(valid: seq<Entry>, lower: string -> string, c: Counted)
    ensures var named := Named(valid, true);
            c in CountedGroups(KeysOf(named, lower), named, lower) <==>
              && c.entry in valid && IsNamed(c.entry)
              && |Group(named, Key(c.entry, lower), lower)| == 1 && c.username == c.entry.person
  {
    var named := Named(valid, true);
    var (keys, group) := (KeysOf(named, lower), Group(named, Key(c.entry, lower), lower));
    KeysCover(named, lower);
    GroupsCounted(keys, named, lower);
    hide KeysOf, Named, CountedGroups;
    assert c.entry in group <==> c.entry in named;
    hide Group, Key;
    if |group| == 1 { assert group == [group[0]]; }
  }

  lemma CountedByGroup(valid: seq<Entry>, assignees: seq<string>, lower: string -> string, c: Counted)
    ensures c in Settled(valid, assignees, lower).counted <==>
              c.entry in valid && CountedFor(valid, c.entry, assignees, lower) == Some(c.username)
  {
    var unnamed := Named(valid, false);
    NamedCounted(valid, lower, c);
    SettledCounts(valid, assignees, lower);
    hide Settled, KeysOf, Group, Key, CountedGroups, Named, IsNamed;
    assert c.entry in unnamed <==> c.entry in valid && !IsNamed(c.entry);
    assert c.entry in Named(valid, true) <==> c.entry in valid && IsNamed(c.entry);
    if |unnamed| == 1 { assert c.entry in unnamed <==> c.entry == unnamed[0]; }
  }

  /** The counted entries: those of the groups, and perhaps the one without a name. */
  lemma SettledCounts(valid: seq<Entry>, assignees: seq<string>, lower: string -> string)
    ensures var (named, unnamed) := (Named(valid, true), Named(valid, false));
            var grouped := CountedGroups(KeysOf(named, lower), named, lower);
            Settled(valid, assignees, lower).counted
            == if named == [] && |unnamed| == 1 && |assignees| == 1 then grouped + [Counted(unnamed[0], assignees[0])]
               else grouped
  {
  }

  // The same in terms of the lines alone.

  /** Names are written without a bar; so their keys tell persons and scopes apart. */
  ghost predicate ArePlain(valid: seq<Entry>, lower: string -> string) {
    forall i :: 0 <= i < |valid| && valid[i].person != "" ==> '|' !in lower(valid[i].person)
  }

  lemma KeysTellApart(p: string, s: string, q: string, t: string, lower: string -> string)
    requires '|' !in lower(p) && '|' !in lower(q)
    ensures KeyOf(p, s, lower) == KeyOf(q, t, lower) <==> lower(p) == lower(q) && lower(s) == lower(t)
  {
    if KeyOf(p, s, lower) == KeyOf(q, t, lower) { BarsTellApart(lower(p), lower(s), lower(q), lower(t)); }
  }

  lemma {:induction false} BarsTellApart(p: string, s: string, q: string, t: string)
    requires '|' !in p && '|' !in q && p + "|" + s == q + "|" + t
    ensures p == q && s == t
    decreases |p|
  {
    var (a, b) := (p + "|" + s, q + "|" + t);
    assert p != "" ==> a[0] == p[0] && p[0] in p;
    assert q != "" ==> b[0] == q[0] && q[0] in q;
    assert (p == "" ==> a[0] == '|') && (q == "" ==> b[0] == '|');
    if p == "" {
      assert a[1..] == s && b[1..] == t;
    } else {
      assert p[0] == a[0] == b[0] == q[0];
      assert a[1..] == p[1..] + "|" + s && b[1..] == q[1..] + "|" + t;
      BarsTellApart(p[1..], s, q[1..], t);
      assert p == [p[0]] + p[1..] && q == [q[0]] + q[1..];
    }
  }

  /** Two lines speak of the same person and scope. */
  predicate SameReport(a: Entry, b: Entry, lower: string -> string) {
    a.person != "" && b.person != "" && lower(a.person) == lower(b.person) && lower(a.scope) == lower(b.scope)
  }

  /** No other line speaks of the person and scope of line `i`. */
  ghost predicate IsAlone(valid: seq<Entry>, i: nat, lower: string -> string)
    requires i < |valid|
  {
    forall j :: 0 <= j < |valid| && j != i ==> !SameReport(valid[j], valid[i], lower)
  }

  lemma {:induction false} GroupSizes(valid: seq<Entry>, key: string, lower: string -> string, i: nat)
    requires i < |valid| && IsNamed(valid[i]) && Key(valid[i], lower) == key
    ensures |Group(Named(valid, true), key, lower)| == 1 <==>
              forall j :: 0 <= j < |valid| && j != i && IsNamed(valid[j]) ==> Key(valid[j], lower) != key
    ensures Group(Named(valid, true), key, lower) != []
  {
    hide Named, Group, IsNamed, Key;
    var (front, last) := (valid[..|valid| - 1], |valid| - 1);
    var e := valid[last];
    assert valid == front + [e];
    NamedSnoc(front, e, true);
    GroupSnoc(Named(front, true), e, key, lower);
    if i < last {
      GroupSizes(front, key, lower, i);
    } else {
      NobodysGroup(front, key, lower);
    }
  }

  lemma NobodysGroup(es: seq<Entry>, key: string, lower: string -> string)
    ensures Group(Named(es, true), key, lower) == [] <==>
              forall j :: 0 <= j < |es| && IsNamed(es[j]) ==> Key(es[j], lower) != key
  {
    var group := Group(Named(es, true), key, lower);
    hide Named, Group, IsNamed, Key;
    if j :| 0 <= j < |es| && IsNamed(es[j]) && Key(es[j], lower) == key { assert es[j] in group; }
    if group != [] {
      assert group[0] in group;
      var j :| 0 <= j < |es| && es[j] == group[0];
    }
  }

  /** Whom line `i` is counted for, if anyone: its own person when no other line speaks
      of that person and scope, the sole assignee when it is the only line and names nobody. */
  lemma CountedForExactly(valid: seq<Entry>, i: nat, assignees: seq<string>, lower: string -> string, who: string)
    requires i < |valid| && ArePlain(valid, lower)
    ensures CountedFor(valid, valid[i], assignees, lower) == Some(who) <==>
              if valid[i].person != "" then who == valid[i].person && IsAlone(valid, i, lower)
              else |valid| == 1 && assignees == [who]
  {
    var e := valid[i];
    if e.person != "" {
      GroupSizes(valid, Key(e, lower), lower, i);
      forall j | 0 <= j < |valid| && valid[j].person != ""
        ensures Key(valid[j], lower) == Key(e, lower) <==> SameReport(valid[j], e, lower)
      {
        KeysTellApart(valid[j].person, valid[j].scope, e.person, e.scope, lower);
      }
      hide Group, Named, Key;
    } else {
      OnlyUnnamed(valid, i);
      hide Group, Named, Key;
      if |assignees| == 1 { assert assignees == [assignees[0]]; }
    }
  }

  lemma OnlyUnnamed(valid: seq<Entry>, i: nat)
    requires i < |valid| && !IsNamed(valid[i])
    ensures Named(valid, true) == [] && |Named(valid, false)| == 1 <==> |valid| == 1
  {
    NamedAndUnnamed(valid);
    hide Named;
    assert |multiset(valid)| == |valid|;
    assert |multiset(Named(valid, true))| == |Named(valid, true)|;
    assert |multiset(Named(valid, false))| == |Named(valid, false)|;
    assert valid[i] in Named(valid, false);
  }

  /** Exactly which lines are counted, and for whom: a line that names a person, for that
      person, when no other line speaks of that person and scope; and the only line of
      an issue, when it names nobody, for the sole assignee. */
  lemma CountedExactly(valid: seq<Entry>, assignees: seq<string>, lower: string -> string, c: Counted)
    requires ArePlain(valid, lower)
    ensures c in Settled(valid, assignees, lower).counted <==>
              exists i :: 0 <= i < |valid| && valid[i] == c.entry
                          && if valid[i].person != "" then c.username == valid[i].person && IsAlone(valid, i, lower)
                             else |valid| == 1 && assignees == [c.username]
  {
    CountedByGroup(valid, assignees, lower, c);
    forall i | 0 <= i < |valid| { CountedForExactly(valid, i, assignees, lower, c.username); }
    hide Settled, CountedFor, IsAlone;
  }

  /** Line `i` can be counted for nobody. */
  ghost predicate IsForNobody(valid: seq<Entry>, i: nat, assignees: seq<string>, lower: string -> string)
    requires i < |valid|
  {
    if valid[i].person != "" then !IsAlone(valid, i, lower) else |valid| > 1 || |assignees| != 1
  }

  /** Those valid lines, and no others, await review. */
  lemma ReviewedExactly(valid: seq<Entry>, assignees: seq<string>, lower: string -> string, i: nat)
    requires ArePlain(valid, lower) && Distinct(valid) && i < |valid|
    ensures valid[i] in Settled(valid, assignees, lower).review <==> IsForNobody(valid, i, assignees, lower)
    ensures forall e :: e in Settled(valid, assignees, lower).review ==> e in valid
  {
    forall e { ReviewedByGroup(valid, assignees, lower, e); }
    hide Settled;
    NobodyExactly(valid, i, assignees, lower);
  }

  lemma NobodyExactly(valid: seq<Entry>, i: nat, assignees: seq<string>, lower: string -> string)
    requires ArePlain(valid, lower) && i < |valid|
    ensures CountedFor(valid, valid[i], assignees, lower).None? <==> IsForNobody(valid, i, assignees, lower)
  {
    var who := CountedFor(valid, valid[i], assignees, lower);
    hide CountedFor, IsAlone;
    if who.Some? { CountedForExactly(valid, i, assignees, lower, who.value); }
    CountedForExactly(valid, i, assignees, lower, valid[i].person);
    if |assignees| == 1 {
      CountedForExactly(valid, i, assignees, lower, assignees[0]);
      assert assignees == [assignees[0]];
    }
  }

  lemma ReviewedByGroup(valid: seq<Entry>, assignees: seq<string>, lower: string -> string, e: Entry)
    requires Distinct(valid)
    ensures e in Settled(valid, assignees, lower).review <==> e in valid && CountedFor(valid, e, assignees, lower).None?
  {
    var o := Settled(valid, assignees, lower);
    EachLineLandsOnce(valid, assignees, lower);
    OnceEach(valid, e);
    hide Settled, CountedFor, InAll, Distinct;
    LandsIn(o.counted, o.review, e);
    forall who { CountedByGroup(valid, assignees, lower, Counted(e, who)); }
    if c :| c in o.counted && c.entry == e { assert c == Counted(e, c.username); }
    var who := CountedFor(valid, e, assignees, lower);
    if e in valid && who.Some? { assert Counted(e, who.value) in o.counted; }
  }

  lemma LandsIn(counted: seq<Counted>, review: seq<Entry>, e: Entry)
    requires InAll(counted, review)[e] <= 1
    ensures e in review <==> InAll(counted, review)[e] == 1 && forall c :: c in counted ==> c.entry != e
  {
    var entries := EntriesOf(counted);
    assert e in entries <==> exists c :: c in counted && c.entry == e by {
      if i :| 0 <= i < |entries| && entries[i] == e { assert counted[i] in counted; }
    }
  }

  lemma {:induction false} FirstOfGroup(valid: seq<Entry>, key: string, lower: string -> string, i: nat)
    requires i < |valid| && IsNamed(valid[i]) && Key(valid[i], lower) == key
    requires forall k :: 0 <= k < i && IsNamed(valid[k]) ==> Key(valid[k], lower) != key
    ensures Group(Named(valid, true), key, lower) != [] && Group(Named(valid, true), key, lower)[0] == valid[i]
  {
    hide Named, Group, IsNamed, Key;
    var (front, last) := (valid[..|valid| - 1], |valid| - 1);
    assert valid == front + [valid[last]];
    NamedSnoc(front, valid[last], true);
    GroupSnoc(Named(front, true), valid[last], key, lower);
    if i < last { FirstOfGroup(front, key, lower, i); } else { NobodysGroup(front, key, lower); }
  }

  ghost predicate AsksAbout(key: string, es: seq<Entry>, lower: string -> string, w: Warning) {
    |Group(es, key, lower)| > 1 && w == DuplicatePerson(Group(es, key, lower)[0].person)
  }

  lemma {:induction false} AskedByGroup(keys: seq<string>, es: seq<Entry>, lower: string -> string, w: Warning)
    ensures w in AskedGroups(keys, es, lower) <==> exists key :: key in keys && AsksAbout(key, es, lower, w)
  {
    if keys != [] {
      var (front, last) := (keys[..|keys| - 1], keys[|keys| - 1]);
      AskedByGroup(front, es, lower, w);
      assert w in AskedGroups(keys, es, lower) <==> w in AskedGroups(front, es, lower) || AsksAbout(last, es, lower, w);
      hide AsksAbout, AskedGroups;
      assert forall key :: key in keys <==> key in front || key == last;
    }
  }

  /** Line `i` is the first of several that speak of one person and scope. */
  ghost predicate IsFirstOfSeveral(valid: seq<Entry>, i: nat, lower: string -> string) {
    && i < |valid| && !IsAlone(valid, i, lower)
    && forall k :: 0 <= k < i ==> !SameReport(valid[k], valid[i], lower)
  }

  /** Who is asked about duplicates: the person of the first of several such lines. */
  lemma DuplicatesExactly(valid: seq<Entry>, lower: string -> string, w: Warning)
    requires ArePlain(valid, lower)
    ensures var named := Named(valid, true);
            w in AskedGroups(KeysOf(named, lower), named, lower) <==>
              exists i: nat :: IsFirstOfSeveral(valid, i, lower) && w == DuplicatePerson(valid[i].person)
  {
    var named := Named(valid, true);
    var keys := KeysOf(named, lower);
    AskedByGroup(keys, named, lower, w);
    KeysCover(named, lower);
    hide AskedGroups, KeysOf, Named;
    if key :| key in keys && AsksAbout(key, named, lower, w) {
      var i := FirstWith(valid, key, lower);
      FirstOfGroup(valid, key, lower, i);
      SeveralExactly(valid, i, lower);
    }
    if i: nat :| IsFirstOfSeveral(valid, i, lower) && w == DuplicatePerson(valid[i].person) {
      SeveralExactly(valid, i, lower);
      var key := Key(valid[i], lower);
      FirstOfGroup(valid, key, lower, i);
      assert valid[i] in named && AsksAbout(key, named, lower, w);
    }
  }

  lemma FirstWith(valid: seq<Entry>, key: string, lower: string -> string) returns (i: nat)
    requires Group(Named(valid, true), key, lower) != []
    ensures i < |valid| && IsNamed(valid[i]) && Key(valid[i], lower) == key
    ensures forall k :: 0 <= k < i && IsNamed(valid[k]) ==> Key(valid[k], lower) != key
  {
    NobodysGroup(valid, key, lower);
    hide Named, Group, Key;
    i := 0;
    while !(IsNamed(valid[i]) && Key(valid[i], lower) == key)
      invariant i < |valid|
      invariant exists j :: i <= j < |valid| && IsNamed(valid[j]) && Key(valid[j], lower) == key
      invariant forall k :: 0 <= k < i && IsNamed(valid[k]) ==> Key(valid[k], lower) != key
      decreases |valid| - i
    {
      i := i + 1;
    }
  }

  lemma SeveralExactly(valid: seq<Entry>, i: nat, lower: string -> string)
    requires ArePlain(valid, lower) && i < |valid|
    ensures IsFirstOfSeveral(valid, i, lower) <==>
              && IsNamed(valid[i]) && |Group(Named(valid, true), Key(valid[i], lower), lower)| > 1
              && forall k :: 0 <= k < i && IsNamed(valid[k]) ==> Key(valid[k], lower) != Key(valid[i], lower)
  {
    var e := valid[i];
    if IsNamed(e) {
      GroupSizes(valid, Key(e, lower), lower, i);
      forall j | 0 <= j < |valid| && valid[j].person != ""
        ensures Key(valid[j], lower) == Key(e, lower) <==> SameReport(valid[j], e, lower)
      {
        KeysTellApart(valid[j].person, valid[j].scope, e.person, e.scope, lower);
      }
      hide Group, Named, Key;
    }
  }

  /** The warnings, each with its reason in the lines. */
  lemma AskedExactly(valid: seq<Entry>, assignees: seq<string>, lower: string -> string, w: Warning)
    requires ArePlain(valid, lower)
    ensures w in Settled(valid, assignees, lower).asked <==>
              match w
              case DuplicatePerson(who) => exists i: nat :: IsFirstOfSeveral(valid, i, lower) && valid[i].person == who
              case MixedNamedAndUnnamed =>
                && (exists i :: 0 <= i < |valid| && valid[i].person != "")
                && (exists i :: 0 <= i < |valid| && valid[i].person == "")
              case MultipleUnnamed => |valid| > 1 && forall i :: 0 <= i < |valid| ==> valid[i].person == ""
              case UnnamedNeedsReview => |valid| == 1 && valid[0].person == "" && |assignees| != 1
              case _ => false
  {
    DuplicatesExactly(valid, lower, w);
    var (named, unnamed) := (Named(valid, true), Named(valid, false));
    AskedFor(valid, assignees, lower);
    WhoIsNamed(valid);
    hide Settled, AskedGroups, KeysOf, Named, IsFirstOfSeveral, IsNamed;
  }

  lemma AskedFor(valid: seq<Entry>, assignees: seq<string>, lower: string -> string)
    ensures var (named, unnamed) := (Named(valid, true), Named(valid, false));
            Settled(valid, assignees, lower).asked
            == AskedGroups(KeysOf(named, lower), named, lower)
               + if unnamed == [] then [] else if named != [] then [MixedNamedAndUnnamed]
                 else if |unnamed| > 1 then [MultipleUnnamed]
                 else if |assignees| == 1 then [] else [UnnamedNeedsReview]
  {
  }

  lemma WhoIsNamed(valid: seq<Entry>)
    ensures Named(valid, true) != [] <==> exists i :: 0 <= i < |valid| && valid[i].person != ""
    ensures Named(valid, false) != [] <==> exists i :: 0 <= i < |valid| && valid[i].person == ""
    ensures Named(valid, true) == [] ==> |Named(valid, false)| == |valid|
  {
    var (named, unnamed) := (Named(valid, true), Named(valid, false));
    NamedAndUnnamed(valid);
    hide Named;
    assert |multiset(valid)| == |valid| && |multiset(named)| == |named| && |multiset(unnamed)| == |unnamed|;
    if i :| 0 <= i < |valid| && valid[i].person != "" { assert valid[i] in named; }
    if i :| 0 <= i < |valid| && valid[i].person == "" { assert valid[i] in unnamed; }
    if named != [] { assert named[0] in named; }
    if unnamed != [] { assert unnamed[0] in unnamed; }
  }

  /** And the two that concern no review. */
  lemma WarnedExactly(valid: seq<Entry>, invalid: seq<nat>, w: Warning)
    ensures w in Warnings(valid, invalid) <==>
              (w == MissingHours && valid == [] && invalid == []) || (w.InvalidFormat? && w.lineNumber in invalid)
  {
    var formats := InvalidFormats(invalid);
    if w.InvalidFormat? && w.lineNumber in invalid {
      var i :| 0 <= i < |invalid| && invalid[i] == w.lineNumber;
      assert formats[i] == w;
    }
  }

  function Fences(lines: seq<Line>): nat {
    if lines == [] then 0 else Fences(lines[..|lines| - 1]) + if lines[|lines| - 1].Fence? then 1 else 0
  }

  lemma {:induction false} OpenExactly(lines: seq<Line>)
    ensures IsOpen(lines) <==> Fences(lines) % 2 == 1
  {
    if lines != [] { OpenExactly(lines[..|lines| - 1]); }
  }

  lemma FencesBefore(done: seq<Line>, l: Line)
    ensures forall n: nat :: n <= |done| ==> Fences((done + [l])[..n]) == Fences(done[..n])
  {
    forall n: nat | n <= |done| ensures Fences((done + [l])[..n]) == Fences(done[..n]) {
      assert (done + [l])[..n] == done[..n];
    }
  }

  ghost predicate IsValidLine(lines: seq<Line>, e: Entry) {
    && 0 < e.lineNumber <= |lines| && lines[e.lineNumber - 1] == Hours(e.scope, e.hours, e.person)
    && Fences(lines[..e.lineNumber - 1]) % 2 == 0
  }

  ghost predicate IsInvalidLine(lines: seq<Line>, n: nat) {
    0 < n <= |lines| && lines[n - 1] == Phrase && Fences(lines[..n - 1]) % 2 == 0
  }

  lemma OneMoreLine(done: seq<Line>, l: Line)
    ensures forall e: Entry :: IsValidLine(done + [l], e) <==>
              IsValidLine(done, e) || (e == Entry(|done| + 1, e.scope, e.hours, e.person)
                                       && l == Hours(e.scope, e.hours, e.person) && Fences(done) % 2 == 0)
    ensures forall n: nat :: IsInvalidLine(done + [l], n) <==>
              IsInvalidLine(done, n) || (n == |done| + 1 && l == Phrase && Fences(done) % 2 == 0)
  {
    FencesBefore(done, l);
    hide Fences;
    assert done[..|done|] == done && (done + [l])[|done|] == l;
    assert forall i :: 0 <= i < |done| ==> (done + [l])[i] == done[i];
  }

  /** An hours line is valid, and a line that only mentions the phrase is invalid, exactly
      when an even number of fences comes before it. */
  lemma {:induction false} ValidExactly(lines: seq<Line>)
    ensures forall e :: e in ValidEntries(lines) <==> IsValidLine(lines, e)
  {
    if lines != [] {
      var (done, l) := (lines[..|lines| - 1], lines[|lines| - 1]);
      ValidExactly(done);
      OpenExactly(done);
      assert lines == done + [l];
      OneMoreLine(done, l);
      hide Fences, IsOpen, IsValidLine, IsInvalidLine;
    }
  }

  lemma {:induction false} InvalidExactly(lines: seq<Line>)
    ensures forall n :: n in InvalidLines(lines) <==> IsInvalidLine(lines, n)
  {
    if lines != [] {
      var (done, l) := (lines[..|lines| - 1], lines[|lines| - 1]);
      InvalidExactly(done);
      OpenExactly(done);
      assert lines == done + [l];
      OneMoreLine(done, l);
      hide Fences, IsOpen, IsValidLine, IsInvalidLine;
    }
  }

  ghost predicate Ascends(es: seq<Entry>) {
    forall i, j :: 0 <= i < j < |es| ==> es[i].lineNumber < es[j].lineNumber
  }

  /** Both are in the order of the lines. */
  lemma {:induction false} LinesAscend(lines: seq<Line>)
    ensures Ascends(ValidEntries(lines)) && Distinct(ValidEntries(lines))
    ensures forall e :: e in ValidEntries(lines) ==> e.lineNumber <= |lines|
  {
    if lines != [] {
      hide IsOpen;
      LinesAscend(lines[..|lines| - 1]);
    }
  }

  lemma {:induction false} InvalidAscend(lines: seq<Line>)
    ensures forall i, j :: 0 <= i < j < |InvalidLines(lines)| ==> InvalidLines(lines)[i] < InvalidLines(lines)[j]
    ensures forall i :: 0 <= i < |InvalidLines(lines)| ==> InvalidLines(lines)[i] <= |lines|
  {
    if lines != [] {
      hide IsOpen;
      InvalidAscend(lines[..|lines| - 1]);
    }
  }

  // Line by line: who each valid line is counted for.

  /** The valid lines that are counted, one after the other. */
  function CountedLines(es: seq<Entry>, valid: seq<Entry>, assignees: seq<string>, lower: string -> string): seq<Counted> {
    if es == [] then []
    else
      var (front, e) := (es[..|es| - 1], es[|es| - 1]);
      var (before, who) := (CountedLines(front, valid, assignees, lower), CountedFor(valid, e, assignees, lower));
      if who.None? then before else before + [Counted(e, who.value)]
  }

  lemma {:induction false} CountedLinesHave(es: seq<Entry>, valid: seq<Entry>, assignees: seq<string>, lower: string -> string)
    ensures forall c :: c in CountedLines(es, valid, assignees, lower) <==>
              c.entry in es && CountedFor(valid, c.entry, assignees, lower) == Some(c.username)
  {
    hide CountedFor;
    if es != [] {
      var front := es[..|es| - 1];
      CountedLinesHave(front, valid, assignees, lower);
      assert es == front + [es[|es| - 1]];
    }
  }

  lemma {:induction false} CountedLinesDistinct(
    es: seq<Entry>, valid: seq<Entry>, assignees: seq<string>, lower: string -> string)
    requires Distinct(es)
    ensures Distinct(CountedLines(es, valid, assignees, lower))
  {
    hide CountedFor;
    if es != [] {
      var front := es[..|es| - 1];
      CountedLinesDistinct(front, valid, assignees, lower);
      CountedLinesHave(front, valid, assignees, lower);
      assert es[|es| - 1] !in front;
    }
  }

  /** The counted entries, in whatever order the groups give them, are the counted lines. */
  lemma CountedAreLines(lines: seq<Line>, assignees: seq<string>, lower: string -> string)
    ensures var valid := ValidEntries(lines);
            multiset(Settled(valid, assignees, lower).counted) == multiset(CountedLines(valid, valid, assignees, lower))
  {
    var valid := ValidEntries(lines);
    LinesAscend(lines);
    hide ValidEntries, Settled, CountedLines, CountedFor;
    CountedLinesDistinct(valid, valid, assignees, lower);
    CountedLinesHave(valid, valid, assignees, lower);
    CountedOncePerScope(valid, assignees, lower);
    forall c { CountedByGroup(valid, assignees, lower, c); }
    SameElements(Settled(valid, assignees, lower).counted, CountedLines(valid, valid, assignees, lower));
  }

  function HoursIn(e: Entry): real {
    e.hours
  }

  /** So hours are conserved: what is counted and what awaits review add up to what
      the issue reports. */
  function TotalHours(es: seq<Entry>): real {
    SumOf(es, HoursIn)
  }
}
