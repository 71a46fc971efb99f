/** The alias-chasing searches of three rules under anti-slop/rules/: functions that
    return `unknown`, parameters typed `object`, and aliases that hide `unknown`. */
module KeywordSearch {
  import opened Options
  import opened TypeSyntax

  /** What sets the three searches apart. */
  datatype Rule = Rule(keyword: Keyword, throughPromise: bool, throughUnion: bool)

  const UNKNOWN_RETURNS := Rule(UnknownKw, true, true)
  const OBJECT_PARAMETERS := Rule(ObjectKw, false, true)
  const UNKNOWN_ALIASES := Rule(UnknownKw, false, false)

  const PROMISES: set<Name> := {"Promise", "PromiseLike"}

  type Table = map<Name, Alias>

  // The tables: the last alias of each name wins; the rule on parameters never
  // records a generic alias, so there an earlier plain one survives a generic one.

  function DeclaredAlias(s: Statement): Option<(Name, Alias)> {
    match s
    case Bare(AliasDecl(n, a)) => Some((n, a))
    case ExportNamed(Some(AliasDecl(n, a))) => Some((n, a))
    case _ => None
  }

  /** The statement at `i` is an alias that the rule records, exported or not. */
  ghost predicate RecordedAt(program: seq<Statement>, i: nat, name: Name, alias: Alias, generics: bool) {
    && i < |program| && (generics || alias.params == [])
    && (program[i] == Bare(AliasDecl(name, alias)) || program[i] == ExportNamed(Some(AliasDecl(name, alias))))
  }

  ghost predicate IsLastRecorded(program: seq<Statement>, name: Name, alias: Alias, generics: bool) {
    exists i: nat :: RecordedAt(program, i, name, alias, generics)
                     && forall j: nat, other :: i < j ==> !RecordedAt(program, j, name, other, generics)
  }

  /** The table has for `name` the last alias that the rule records. */
  ghost predicate Records(table: Table, program: seq<Statement>, generics: bool, name: Name) {
    forall alias :: IsLastRecorded(program, name, alias, generics) <==> name in table && table[name] == alias
  }

  /** The `Program` visitor of each rule. */
  method CollectAliases(program: seq<Statement>, generics: bool) returns (table: Table)
    ensures forall name :: Records(table, program, generics, name)
  {
    table := map[];
    assert program[..0] == [];
    for k := 0 to |program|
      invariant forall name :: Records(table, program[..k], generics, name)
    {
      var d := DeclaredAlias(program[k]);
      ghost var before := table;
      if d.Some? && (generics || d.value.1.params == []) {
        table := table[d.value.0 := d.value.1];
      }
      assert program[..k + 1] == program[..k] + [program[k]];
      forall name ensures Records(table, program[..k] + [program[k]], generics, name) {
        OneMoreRecorded(before, program[..k], program[k], name, generics);
      }
    }
    assert program[..|program|] == program;
  }

  lemma OneMoreRecorded(table: Table, done: seq<Statement>, s: Statement, name: Name, generics: bool)
    requires Records(table, done, generics, name)
    ensures var d := DeclaredAlias(s);
            Records(if d.Some? && (generics || d.value.1.params == []) then table[d.value.0 := d.value.1] else table,
                    done + [s], generics, name)
  {
    var d := DeclaredAlias(s);
    var found := d.Some? && (generics || d.value.1.params == []) && d.value.0 == name;
    forall alias
      ensures IsLastRecorded(done + [s], name, alias, generics) <==>
                if found then alias == d.value.1 else IsLastRecorded(done, name, alias, generics)
    {
      LastRecordedStep(done, s, name, alias, generics);
    }
    hide IsLastRecorded;
  }

  lemma LastRecordedStep(done: seq<Statement>, s: Statement, name: Name, alias: Alias, generics: bool)
    ensures var d := DeclaredAlias(s);
            IsLastRecorded(done + [s], name, alias, generics) <==>
              if d.Some? && (generics || d.value.1.params == []) && d.value.0 == name then alias == d.value.1
              else IsLastRecorded(done, name, alias, generics)
  {
    var (all, last, d) := (done + [s], |done|, DeclaredAlias(s));
    forall i: nat, other | i != last
      ensures RecordedAt(all, i, name, other, generics) <==> RecordedAt(done, i, name, other, generics)
    {
      if i < last { assert all[i] == done[i]; }
    }
    forall other
      ensures RecordedAt(all, last, name, other, generics) <==>
                d == Some((name, other)) && (generics || other.params == [])
    {
      assert all[last] == s;
    }
    if d.Some? && d.value.0 == name && (generics || d.value.1.params == []) {
      assert RecordedAt(all, last, name, d.value.1, generics);
    }
    hide RecordedAt;
  }

  /** `resolvesToUnknown` and `resolvesToObject` */
  predicate Search(rule: Rule, t: Type, table: Table, shadowed: set<Name>, visited: set<Name>)
    decreases table.Keys - visited, t
  {
    match t
    case Kw(keyword) => keyword == rule.keyword
    case Paren(inner) => Search(rule, inner, table, shadowed, visited)
    case Union(members) =>
      rule.throughUnion && exists i :: 0 <= i < |members| && Search(rule, members[i], table, shadowed, visited)
    case Ref(name, args) =>
      if rule.throughPromise && name in PROMISES then
        args != [] && Search(rule, args[0], table, shadowed, visited)
      else
        && args == [] && name !in visited && name !in shadowed
        && name in table && table[name].params == []
        && Search(rule, table[name].body, table, shadowed, visited + {name})
    case _ => false
  }

  /** Unfolding at most `k` aliases on the way, `t` reaches the keyword. */
  ghost predicate ReachesWithin(rule: Rule, t: Type, table: Table, shadowed: set<Name>, k: nat)
    decreases k, t
  {
    match t
    case Kw(keyword) => keyword == rule.keyword
    case Paren(inner) => ReachesWithin(rule, inner, table, shadowed, k)
    case Union(members) =>
      rule.throughUnion && exists i :: 0 <= i < |members| && ReachesWithin(rule, members[i], table, shadowed, k)
    case Ref(name, args) =>
      if rule.throughPromise && name in PROMISES then
        args != [] && ReachesWithin(rule, args[0], table, shadowed, k)
      else
        && k > 0 && args == [] && name !in shadowed && name in table && table[name].params == []
        && ReachesWithin(rule, table[name].body, table, shadowed, k - 1)
    case _ => false
  }

  ghost predicate Reaches(rule: Rule, t: Type, table: Table, shadowed: set<Name>) {
    exists k: nat :: ReachesWithin(rule, t, table, shadowed, k)
  }

  lemma {:induction false} SearchFinds(rule: Rule, t: Type, table: Table, shadowed: set<Name>, visited: set<Name>)
    requires Search(rule, t, table, shadowed, visited)
    ensures ReachesWithin(rule, t, table, shadowed, |table.Keys - visited|)
    decreases table.Keys - visited, t
  {
    match t
    case Paren(inner) => SearchFinds(rule, inner, table, shadowed, visited);
    case Union(members) =>
      var i :| 0 <= i < |members| && Search(rule, members[i], table, shadowed, visited);
      SearchFinds(rule, members[i], table, shadowed, visited);
    case Ref(name, args) =>
      if rule.throughPromise && name in PROMISES { SearchFinds(rule, args[0], table, shadowed, visited); }
      else {
        SearchFinds(rule, table[name].body, table, shadowed, visited + {name});
        assert table.Keys - (visited + {name}) == (table.Keys - visited) - {name};
      }
    case _ =>
  }

  /** None of the aliases on the path reaches the keyword within fewer than `k`. */
  ghost predicate NotYet(rule: Rule, table: Table, shadowed: set<Name>, visited: set<Name>, k: nat) {
    forall a, j: nat :: a in visited && a in table && j < k ==> !ReachesWithin(rule, table[a].body, table, shadowed, j)
  }

  /** A shortest unfolding never goes through one alias twice, so the names visited
      on the path hide no way to the keyword. */
  lemma {:induction false} SearchMissesNothing(
    rule: Rule, t: Type, table: Table, shadowed: set<Name>, visited: set<Name>, k: nat)
    requires ReachesWithin(rule, t, table, shadowed, k) && NotYet(rule, table, shadowed, visited, k)
    ensures Search(rule, t, table, shadowed, visited)
    decreases k, t
  {
    match t
    case Paren(inner) => SearchMissesNothing(rule, inner, table, shadowed, visited, k);
    case Union(members) =>
      var i :| 0 <= i < |members| && ReachesWithin(rule, members[i], table, shadowed, k);
      SearchMissesNothing(rule, members[i], table, shadowed, visited, k);
    case Ref(name, args) =>
      if rule.throughPromise && name in PROMISES { SearchMissesNothing(rule, args[0], table, shadowed, visited, k); }
      else {
        var j := Soonest(rule, table[name].body, table, shadowed, k - 1);
        assert name !in visited;
        SearchMissesNothing(rule, table[name].body, table, shadowed, visited + {name}, j);
      }
    case _ =>
  }

  lemma Soonest(rule: Rule, t: Type, table: Table, shadowed: set<Name>, k: nat) returns (j: nat)
    requires ReachesWithin(rule, t, table, shadowed, k)
    ensures j <= k && ReachesWithin(rule, t, table, shadowed, j)
    ensures forall i: nat :: i < j ==> !ReachesWithin(rule, t, table, shadowed, i)
  {
    j := 0;
    while !ReachesWithin(rule, t, table, shadowed, j)
      invariant j <= k && forall i: nat :: i < j ==> !ReachesWithin(rule, t, table, shadowed, i)
      decreases k - j
    {
      j := j + 1;
    }
  }

  /** The searches terminate on every table and answer exactly whether a finite
      unfolding reaches the keyword. */
  lemma SearchExact(rule: Rule, t: Type, table: Table, shadowed: set<Name>)
    ensures Search(rule, t, table, shadowed, {}) <==> Reaches(rule, t, table, shadowed)
  {
    if Search(rule, t, table, shadowed, {}) { SearchFinds(rule, t, table, shadowed, {}); }
    if Reaches(rule, t, table, shadowed) {
      var k: nat :| ReachesWithin(rule, t, table, shadowed, k);
      SearchMissesNothing(rule, t, table, shadowed, {}, k);
    }
  }

  /** The searches satisfy their own equation although they carry visited names along. */
  lemma SearchByShape(rule: Rule, t: Type, table: Table, shadowed: set<Name>)
    ensures Search(rule, t, table, shadowed, {}) <==>
              match t
              case Kw(keyword) => keyword == rule.keyword
              case Paren(inner) => Search(rule, inner, table, shadowed, {})
              case Union(members) =>
                rule.throughUnion && exists i :: 0 <= i < |members| && Search(rule, members[i], table, shadowed, {})
              case Ref(name, args) =>
                if rule.throughPromise && name in {"Promise", "PromiseLike"} then
                  args != [] && Search(rule, args[0], table, shadowed, {})
                else
                  && args == [] && name !in shadowed && name in table && table[name].params == []
                  && Search(rule, table[name].body, table, shadowed, {})
              case _ => false
  {
    if t.Ref? && !(rule.throughPromise && t.name in PROMISES) {
      var (name, args) := (t.name, t.args);
      SearchExact(rule, t, table, shadowed);
      if args == [] && name !in shadowed && name in table && table[name].params == [] {
        SearchExact(rule, table[name].body, table, shadowed);
        if k: nat :| ReachesWithin(rule, table[name].body, table, shadowed, k) {
          assert ReachesWithin(rule, t, table, shadowed, k + 1);
        }
        if k: nat :| ReachesWithin(rule, t, table, shadowed, k) {
          assert ReachesWithin(rule, table[name].body, table, shadowed, k - 1);
        }
      }
    }
  }

  /** What functions may not return: `unknown`, in unions, in promises, behind aliases. */
  lemma ReturnsByShape(t: Type, table: Table, shadowed: set<Name>)
    ensures Reaches(UNKNOWN_RETURNS, t, table, shadowed) <==>
              match t
              case Kw(keyword) => keyword == UnknownKw
              case Paren(inner) => Reaches(UNKNOWN_RETURNS, inner, table, shadowed)
              case Union(members) => exists i :: 0 <= i < |members| && Reaches(UNKNOWN_RETURNS, members[i], table, shadowed)
              case Ref(name, args) =>
                if name in {"Promise", "PromiseLike"} then args != [] && Reaches(UNKNOWN_RETURNS, args[0], table, shadowed)
                else
                  && args == [] && name !in shadowed && name in table && table[name].params == []
                  && Reaches(UNKNOWN_RETURNS, table[name].body, table, shadowed)
              case _ => false
  {
    SearchByShape(UNKNOWN_RETURNS, t, table, shadowed);
    forall u { SearchExact(UNKNOWN_RETURNS, u, table, shadowed); }
    hide Search, Reaches;
  }

  /** What parameters may not be: `object`, in unions, behind aliases. */
  lemma ParametersByShape(t: Type, table: Table, shadowed: set<Name>)
    ensures Reaches(OBJECT_PARAMETERS, t, table, shadowed) <==>
              match t
              case Kw(keyword) => keyword == ObjectKw
              case Paren(inner) => Reaches(OBJECT_PARAMETERS, inner, table, shadowed)
              case Union(members) => exists i :: 0 <= i < |members| && Reaches(OBJECT_PARAMETERS, members[i], table, shadowed)
              case Ref(name, args) =>
                && args == [] && name !in shadowed && name in table && table[name].params == []
                && Reaches(OBJECT_PARAMETERS, table[name].body, table, shadowed)
              case _ => false
  {
    SearchByShape(OBJECT_PARAMETERS, t, table, shadowed);
    forall u { SearchExact(OBJECT_PARAMETERS, u, table, shadowed); }
    hide Search, Reaches;
  }

  /** `checkReturnType`: a function without a return annotation is passed over. */
  method CheckReturnType(annotation: Option<Type>, table: Table, shadowed: set<Name>) returns (reported: bool)
    ensures reported <==> annotation.Some? && Reaches(UNKNOWN_RETURNS, annotation.value, table, shadowed)
  {
    if annotation.None? { return false; }
    SearchExact(UNKNOWN_RETURNS, annotation.value, table, shadowed);
    return Search(UNKNOWN_RETURNS, annotation.value, table, shadowed, {});
  }

  /** The parameter at `i` may be any object. */
  ghost predicate IsBroad(annotations: seq<Option<Type>>, i: nat, table: Table, shadowed: set<Name>)
    requires i < |annotations|
  {
    annotations[i].Some? && Reaches(OBJECT_PARAMETERS, annotations[i].value, table, shadowed)
  }

  /** `checkParameters`: the positions of the parameters it reports. */
  method CheckParameters(annotations: seq<Option<Type>>, table: Table, shadowed: set<Name>) returns (reported: seq<nat>)
    ensures forall i, j :: 0 <= i < j < |reported| ==> reported[i] < reported[j]
    ensures forall i: nat :: i in reported <==> i < |annotations| && IsBroad(annotations, i, table, shadowed)
  {
    reported := [];
    for k := 0 to |annotations|
      invariant forall i, j :: 0 <= i < j < |reported| ==> reported[i] < reported[j]
      invariant forall i: nat :: i in reported <==> i < k && IsBroad(annotations, i, table, shadowed)
    {
      var annotation := annotations[k];
      if annotation.None? { continue; }
      SearchExact(OBJECT_PARAMETERS, annotation.value, table, shadowed);
      if !Search(OBJECT_PARAMETERS, annotation.value, table, shadowed, {}) { continue; }
      assert forall i :: 0 <= i < |reported| ==> reported[i] in reported;
      reported := reported + [k];
    }
  }

  /** The rule on aliases starts from each alias with its own name visited. */
  lemma SearchFromAliasExact(rule: Rule, a: Name, table: Table)
    requires a in table
    ensures Search(rule, table[a].body, table, {}, {a}) <==> Reaches(rule, table[a].body, table, {})
  {
    if Search(rule, table[a].body, table, {}, {a}) { SearchFinds(rule, table[a].body, table, {}, {a}); }
    if Reaches(rule, table[a].body, table, {}) {
      var k: nat :| ReachesWithin(rule, table[a].body, table, {}, k);
      var j := Soonest(rule, table[a].body, table, {}, k);
      SearchMissesNothing(rule, table[a].body, table, {}, {a}, j);
    }
  }

  /** The reporting loop of the rule on aliases. */
  method ReportUnknownAliases(table: Table) returns (reported: set<Name>)
    ensures reported == set a | a in table && Reaches(UNKNOWN_ALIASES, table[a].body, table, {})
  {
    reported := {};
    var rest := table.Keys;
    while rest != {}
      invariant rest <= table.Keys
      invariant forall a :: a in reported <==>
                  a in table.Keys - rest && Reaches(UNKNOWN_ALIASES, table[a].body, table, {})
      decreases rest
    {
      var a :| a in rest;
      SearchFromAliasExact(UNKNOWN_ALIASES, a, table);
      if Search(UNKNOWN_ALIASES, table[a].body, table, {}, {a}) { reported := reported + {a}; }
      rest := rest - {a};
    }
  }

  /** For the rule on aliases the unfolding is a chain: each alias names the next,
      and the last one's body is the keyword. */
  ghost predicate ChainTo(keyword: Keyword, chain: seq<Name>, table: Table) {
    && chain != []
    && (forall i :: 0 <= i < |chain| ==> chain[i] in table)
    && (forall i :: 0 <= i < |chain| - 1 ==> Names(chain[i], chain[i + 1], table))
    && Bared(table[chain[|chain| - 1]].body) == Kw(keyword)
  }

  ghost predicate Names(a: Name, b: Name, table: Table)
    requires a in table && b in table
  {
    Bared(table[a].body) == Ref(b, []) && table[b].params == []
  }

  function Bared(t: Type): Type {
    if t.Paren? then Bared(t.inner) else t
  }

  lemma {:induction false} ReachesBared(rule: Rule, t: Type, table: Table, k: nat)
    ensures ReachesWithin(rule, t, table, {}, k) == ReachesWithin(rule, Bared(t), table, {}, k)
    decreases t
  {
    if t.Paren? { ReachesBared(rule, t.inner, table, k); }
  }

  lemma {:induction false} ReachesIsChain(a: Name, table: Table, k: nat) returns (chain: seq<Name>)
    requires a in table && ReachesWithin(UNKNOWN_ALIASES, table[a].body, table, {}, k)
    ensures chain != [] && chain[0] == a && ChainTo(UnknownKw, chain, table)
    decreases k
  {
    ReachesBared(UNKNOWN_ALIASES, table[a].body, table, k);
    var t := Bared(table[a].body);
    BaredIsBare(table[a].body);
    if t.Ref? {
      var rest := ReachesIsChain(t.name, table, k - 1);
      chain := [a] + rest;
      assert Names(a, rest[0], table);
      forall i | 0 <= i < |chain| - 1 ensures Names(chain[i], chain[i + 1], table) {
        if i > 0 { assert Names(rest[i - 1], rest[i], table); }
      }
    } else {
      chain := [a];
    }
  }

  lemma {:induction false} BaredIsBare(t: Type)
    ensures !Bared(t).Paren?
    decreases t
  {
    if t.Paren? { BaredIsBare(t.inner); }
  }

  lemma {:induction false} ChainReaches(chain: seq<Name>, table: Table)
    requires ChainTo(UnknownKw, chain, table)
    ensures ReachesWithin(UNKNOWN_ALIASES, table[chain[0]].body, table, {}, |chain| - 1)
    decreases |chain|
  {
    ReachesBared(UNKNOWN_ALIASES, table[chain[0]].body, table, |chain| - 1);
    if |chain| > 1 {
      assert Names(chain[0], chain[1], table);
      ChainReaches(chain[1..], table);
    }
  }

  /** An alias reaches `unknown` exactly when its reference chain ends there. */
  lemma AliasReachesByChain(a: Name, table: Table)
    requires a in table
    ensures Reaches(UNKNOWN_ALIASES, table[a].body, table, {})
       <==> exists chain :: chain != [] && chain[0] == a && ChainTo(UnknownKw, chain, table)
  {
    if Reaches(UNKNOWN_ALIASES, table[a].body, table, {}) {
      var k: nat :| ReachesWithin(UNKNOWN_ALIASES, table[a].body, table, {}, k);
      var chain := ReachesIsChain(a, table, k);
    }
    if chain :| chain != [] && chain[0] == a && ChainTo(UnknownKw, chain, table) { ChainReaches(chain, table); }
  }
}
