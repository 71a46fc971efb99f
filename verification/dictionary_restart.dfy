/** `classifyUnsafeDictionary` on generic programs.  Its second phase starts again
    with no alias being resolved while the first phase's bindings are still there,
    so an alias on the first phase's path can be entered again and overwrite
    bindings that are in use.  With closed defaults this does no harm: such an
    alias replays the first phase and ends in the dictionary itself, which is
    never an unsafe value. */
module DictionaryRestart {
  import opened ArgumentChain
  import opened DictionaryTypes
  import opened GenericResolver
  import opened Options
  import opened ParameterScope
  import opened Sequences
  import opened Substitution
  import opened TypeEnvironment
  import opened TypeMeaning
  import opened TypeSyntax

  /** Hygienic, and moreover: no default mentions a parameter, no name is both an
      alias and an interface, and a built-in name that is declared is shadowed. */
  ghost predicate StrictlyHygienic(env: Environment) {
    StrictOver(env, AllParameters(env))
  }

  ghost predicate StrictOver(env: Environment, all: set<Name>) {
    && HygienicOver(env, all)
    && env.aliases.Keys !! env.interfaces.Keys
    && DeclaredIsShadowed(env)
    && forall a | a in env.aliases :: ClosedDefaults(env.aliases[a].params, all)
  }

  ghost predicate ClosedDefaults(params: seq<Parameter>, all: set<Name>) {
    forall j | 0 <= j < |params| :: params[j].default.Some? ==> InScope(params[j].default.value, {}, all)
  }

  /** The first phase, at type `t`, having entered `chain` to get there. */
  ghost predicate Walking(
    env: Environment, all: set<Name>, t: Type, subs: Substitutions, resolving: set<Name>, theta: Closing,
    chain: seq<Name>, loc: map<Name, nat>)
  {
    && StrictOver(env, all)
    && Scope(all, subs, theta, Flat(env, chain))
    && Located(env, all, subs, chain, loc)
    && (forall i :: 0 <= i < |chain| ==> chain[i] in env.aliases && chain[i] in resolving)
    && Distinct(chain)
    && InScope(t, Live(env, chain), all)
  }

  /** Other bindings that agree on what was written above the first `m` aliases. */
  ghost predicate Matches(
    env: Environment, all: set<Name>, subs: Substitutions, other: Substitutions, chain: seq<Name>,
    loc: map<Name, nat>, m: nat)
  {
    && other.Keys <= all
    && forall i, p | m <= i < |chain| && Owns(env, chain[i], p) ::
         p in loc && loc[p] >= m && p in subs ==> p in other && other[p] == subs[p]
  }

  /** As long as the walk stays above alias `m` of the chain, it goes the same way
      under any bindings of the aliases up to `m`, and finds nothing unsafe. */
  ghost predicate Replays(
    depth: nat, env: Environment, all: set<Name>, t: Type, subs: Substitutions, chain: seq<Name>,
    loc: map<Name, nat>, last: seq<Name>)
  {
    forall m: nat, other: Substitutions, resolving: set<Name> |
      m <= |chain| && (m == 0 || chain[m - 1] in last) && Matches(env, all, subs, other, chain, loc, m) ::
      DirectValue(depth, t, env, other, resolving) == Done(None)
  }

  /** Going on with what a live parameter is bound to. */
  lemma WalkParameter(
    env: Environment, all: set<Name>, u: Type, subs: Substitutions, resolving: set<Name>, theta: Closing,
    chain: seq<Name>, loc: map<Name, nat>)
    returns (theta': Closing, chain': seq<Name>)
    requires Walking(env, all, u, subs, resolving, theta, chain, loc)
    requires u.Ref? && u.name in subs
    ensures u.name in loc && loc[u.name] <= |chain| && chain' == chain[..loc[u.name]]
    ensures Walking(env, all, subs[u.name], subs, resolving, theta', chain', loc)
    ensures Apply(theta', subs[u.name]) == Apply(theta, u)
    ensures exists i :: loc[u.name] <= i < |chain| && Owns(env, chain[i], u.name)
  {
    hide Scope, Located, StrictOver, InScope, Apply;
    var order := Flat(env, chain);
    var i := ParameterPlace(env, all, u, subs, theta, chain, loc);
    chain' := chain[..loc[u.name]];
    FlatPrefix(env, chain, |chain'|);
    Truncate(all, subs, theta, order, |Flat(env, chain')|);
    theta' := Restrict(theta, Live(env, chain'));
    LocatedPrefix(env, all, subs, chain, loc, |chain'|);
  }

  lemma ParameterPlace(
    env: Environment, all: set<Name>, u: Type, subs: Substitutions, theta: Closing, chain: seq<Name>,
    loc: map<Name, nat>)
    returns (i: nat)
    requires Scope(all, subs, theta, Flat(env, chain)) && Located(env, all, subs, chain, loc)
    requires u.Ref? && u.name in subs && InScope(u, Live(env, chain), all)
    ensures i < |chain| && Owns(env, chain[i], u.name) && u.name in loc && loc[u.name] <= i
    ensures InScope(subs[u.name], Live(env, chain[..loc[u.name]]), all)
    ensures Apply(theta, subs[u.name]) == Apply(theta, u)
  {
    var order := Flat(env, chain);
    assert order[..|order|] == order;
    var k := BoundAt(all, subs, theta, order, |order|, u);
    i := OwnerOf(env, chain, u.name);
    assert LocatedAt(env, all, subs, chain, loc, i, u.name);
  }

  lemma LocatedPrefix(
    env: Environment, all: set<Name>, subs: Substitutions, chain: seq<Name>, loc: map<Name, nat>, n: nat)
    requires Located(env, all, subs, chain, loc) && n <= |chain|
    ensures Located(env, all, subs, chain[..n], loc)
  {
    forall i, p | 0 <= i < n && Owns(env, chain[..n][i], p) ensures LocatedAt(env, all, subs, chain[..n], loc, i, p) {
      assert LocatedAt(env, all, subs, chain, loc, i, p);
      assert chain[..n][..loc[p]] == chain[..loc[p]];
    }
  }

  /** `loc` after entering an alias. */
  ghost function Relocate(alias: Alias, args: seq<Type>, loc: map<Name, nat>, here: nat, all: set<Name>): map<Name, nat> {
    map p | p in loc.Keys + NameSet(alias.params) ::
      if p in NameSet(alias.params) then
        var j :| 0 <= j < |alias.params| && alias.params[j].name == p;
        LocOf(Raw(alias.params, args, j), loc, here, all)
      else loc[p]
  }

  ghost function LocOf(raw: Type, loc: map<Name, nat>, here: nat, all: set<Name>): nat {
    if IsParameter(raw, all) && Unwrap(raw).name in loc then loc[Unwrap(raw).name] else here
  }

  lemma RelocateAt(alias: Alias, args: seq<Type>, loc: map<Name, nat>, here: nat, all: set<Name>, j: nat)
    requires DistinctNames(alias.params) && j < |alias.params|
    ensures var loc' := Relocate(alias, args, loc, here, all);
            alias.params[j].name in loc' && loc'[alias.params[j].name] == LocOf(Raw(alias.params, args, j), loc, here, all)
  {
    assert alias.params[j] in alias.params;
  }

  /** An argument or default, seen from the caller. */
  lemma RawInScope(env: Environment, all: set<Name>, a: Name, args: seq<Type>, live: set<Name>, j: nat)
    requires StrictOver(env, all) && a in env.aliases && j < |env.aliases[a].params|
    requires forall i :: 0 <= i < |args| ==> InScope(args[i], live, all)
    ensures InScope(Raw(env.aliases[a].params, args, j), live, all)
    ensures IsParameter(Raw(env.aliases[a].params, args, j), all) ==> Unwrap(Raw(env.aliases[a].params, args, j)).name in live
  {
    var params := env.aliases[a].params;
    var raw := Raw(params, args, j);
    if j >= |args| && params[j].default.Some? { AvoidsFewer(raw, all - {}, all - live); }
    AvoidsUnwrap(raw, all - live);
  }

  /** Entering an alias keeps the walk's invariant. */
  lemma WalkAlias(
    env: Environment, all: set<Name>, u: Type, subs: Substitutions, resolving: set<Name>, theta: Closing,
    chain: seq<Name>, loc: map<Name, nat>)
    returns (theta': Closing)
    requires Walking(env, all, u, subs, resolving, theta, chain, loc)
    requires u.Ref? && u.name in env.aliases && u.name !in resolving
    requires BindParameters(env.aliases[u.name].params, u.args, subs).Some?
    ensures var alias := env.aliases[u.name];
            && Walking(env, all, alias.body, BindParameters(alias.params, u.args, subs).value, resolving + {u.name},
                 theta', chain + [u.name], Relocate(alias, u.args, loc, |chain|, all))
            && Expansion(alias, ApplyAll(theta, u.args)) == Some(Apply(theta', alias.body))
  {
    hide Scope, Located, StrictOver, InScope, Apply, Expansion, Relocate, Distinct, BindParameters;
    var (a, alias, order) := (u.name, env.aliases[u.name], Flat(env, chain));
    StrictIsHygienic(env, all);
    assert order[..|order|] == order;
    ArgumentsInScope(u, order, |order|, all);
    FlatOwned(env, chain, resolving);
    theta' := Enter(env, all, a, u.args, subs, theta, order, resolving);
    assert (chain + [a])[..|chain|] == chain;
    assert Flat(env, chain + [a]) == order + NameList(alias.params);
    LocatedAlias(env, all, u, subs, resolving, theta, chain, loc);
    ChainGrows(env, chain, resolving, a);
  }

  lemma ChainGrows(env: Environment, chain: seq<Name>, resolving: set<Name>, a: Name)
    requires Distinct(chain) && a in env.aliases && a !in resolving
    requires forall i :: 0 <= i < |chain| ==> chain[i] in env.aliases && chain[i] in resolving
    ensures var more := chain + [a];
            Distinct(more) && forall i :: 0 <= i < |more| ==> more[i] in env.aliases && more[i] in resolving + {a}
  {
  }

  lemma StrictIsHygienic(env: Environment, all: set<Name>)
    requires StrictOver(env, all)
    ensures HygienicOver(env, all)
    ensures forall a :: a in env.aliases ==> DistinctNames(env.aliases[a].params) && NameSet(env.aliases[a].params) <= all
  {
    forall a | a in env.aliases ensures DistinctNames(env.aliases[a].params) && NameSet(env.aliases[a].params) <= all {
      assert HygienicAlias(env.aliases[a], all);
    }
  }

  lemma LocatedAlias(
    env: Environment, all: set<Name>, u: Type, subs: Substitutions, resolving: set<Name>, theta: Closing,
    chain: seq<Name>, loc: map<Name, nat>)
    requires Walking(env, all, u, subs, resolving, theta, chain, loc)
    requires u.Ref? && u.name in env.aliases && u.name !in resolving
    requires BindParameters(env.aliases[u.name].params, u.args, subs).Some?
    ensures var alias := env.aliases[u.name];
            Located(env, all, BindParameters(alias.params, u.args, subs).value, chain + [u.name],
              Relocate(alias, u.args, loc, |chain|, all))
  {
    hide Walking, LocatedAt, Relocate, BindParameters;
    var alias := env.aliases[u.name];
    var next := BindParameters(alias.params, u.args, subs).value;
    var (chain', loc') := (chain + [u.name], Relocate(alias, u.args, loc, |chain|, all));
    forall i, p | 0 <= i < |chain'| && Owns(env, chain'[i], p) ensures LocatedAt(env, all, next, chain', loc', i, p) {
      if i < |chain| { WalkAliasOld(env, all, u, subs, resolving, theta, chain, loc, i, p); }
      else { WalkAliasNew(env, all, u, subs, resolving, theta, chain, loc, p); }
    }
  }

  lemma OwnNames(env: Environment, all: set<Name>, chain: seq<Name>, a: Name, resolving: set<Name>, p: Name)
    requires HygienicOver(env, all) && a in env.aliases && a !in resolving
    requires forall i :: 0 <= i < |chain| ==> chain[i] in env.aliases && chain[i] in resolving
    requires p in Live(env, chain)
    ensures p !in NameSet(env.aliases[a].params)
  {
    var i := OwnerOf(env, chain, p);
  }

  lemma WalkAliasOld(
    env: Environment, all: set<Name>, u: Type, subs: Substitutions, resolving: set<Name>, theta: Closing,
    chain: seq<Name>, loc: map<Name, nat>, i: nat, p: Name)
    requires Walking(env, all, u, subs, resolving, theta, chain, loc)
    requires u.Ref? && u.name in env.aliases && u.name !in resolving
    requires BindParameters(env.aliases[u.name].params, u.args, subs).Some?
    requires i < |chain| && Owns(env, chain[i], p)
    ensures var alias := env.aliases[u.name];
            LocatedAt(env, all, BindParameters(alias.params, u.args, subs).value, chain + [u.name],
              Relocate(alias, u.args, loc, |chain|, all), i, p)
  {
    assert LocatedAt(env, all, subs, chain, loc, i, p);
    OwnedIsLive(env, chain, i, p);
    OwnNames(env, all, chain, u.name, resolving, p);
    BindOthers(env.aliases[u.name].params, u.args, subs, p);
    assert (chain + [u.name])[..loc[p]] == chain[..loc[p]];
  }

  lemma WalkAliasNew(
    env: Environment, all: set<Name>, u: Type, subs: Substitutions, resolving: set<Name>, theta: Closing,
    chain: seq<Name>, loc: map<Name, nat>, p: Name)
    requires Walking(env, all, u, subs, resolving, theta, chain, loc)
    requires u.Ref? && u.name in env.aliases && u.name !in resolving
    requires BindParameters(env.aliases[u.name].params, u.args, subs).Some?
    requires Owns(env, u.name, p)
    ensures var alias := env.aliases[u.name];
            LocatedAt(env, all, BindParameters(alias.params, u.args, subs).value, chain + [u.name],
              Relocate(alias, u.args, loc, |chain|, all), |chain|, p)
  {
    hide Scope, StrictOver, InScope, IsSettled, Relocate, BindParameters;
    var (a, alias, order) := (u.name, env.aliases[u.name], Flat(env, chain));
    var j :| 0 <= j < |alias.params| && alias.params[j].name == p;
    var raw := Raw(alias.params, u.args, j);
    StrictIsHygienic(env, all);
    assert order[..|order|] == order;
    ArgumentsInScope(u, order, |order|, all);
    RawInScope(env, all, a, u.args, Live(env, chain), j);
    RelocateAt(alias, u.args, loc, |chain|, all, j);
    if IsParameter(raw, all) {
      PassedOn(env, all, u, subs, resolving, theta, chain, loc, j);
    } else {
      assert subs.Keys <= all by { ScopeKeys(all, subs, theta, order); }
      BindAt(alias.params, u.args, subs, j, all);
      assert (chain + [a])[..|chain|] == chain;
      assert IsSettled(raw, all) by { SettledIfNotParameter(raw, all); }
    }
  }

  lemma ScopeKeys(all: set<Name>, subs: Substitutions, theta: Closing, order: seq<Name>)
    requires Scope(all, subs, theta, order)
    ensures subs.Keys <= all
  {
  }

  lemma SettledIfNotParameter(t: Type, all: set<Name>)
    ensures IsSettled(t, all) <==> !IsParameter(t, all)
  {
  }

  /** A parameter of the caller passed on as parameter `j`. */
  lemma PassedOn(
    env: Environment, all: set<Name>, u: Type, subs: Substitutions, resolving: set<Name>, theta: Closing,
    chain: seq<Name>, loc: map<Name, nat>, j: nat)
    requires Walking(env, all, u, subs, resolving, theta, chain, loc)
    requires u.Ref? && u.name in env.aliases && u.name !in resolving && j < |env.aliases[u.name].params|
    requires BindParameters(env.aliases[u.name].params, u.args, subs).Some?
    requires var raw := Raw(env.aliases[u.name].params, u.args, j);
             IsParameter(raw, all) && Unwrap(raw).name in Live(env, chain)
    requires var alias := env.aliases[u.name];
             var (p, q) := (alias.params[j].name, Unwrap(Raw(alias.params, u.args, j)).name);
             var loc' := Relocate(alias, u.args, loc, |chain|, all);
             p in loc' && loc'[p] == (if q in loc then loc[q] else |chain|)
    ensures var alias := env.aliases[u.name];
            LocatedAt(env, all, BindParameters(alias.params, u.args, subs).value, chain + [u.name],
              Relocate(alias, u.args, loc, |chain|, all), |chain|, alias.params[j].name)
  {
    hide Scope, StrictOver, InScope, Relocate, BindParameters;
    var alias := env.aliases[u.name];
    var q := Unwrap(Raw(alias.params, u.args, j)).name;
    var i := OwnerOf(env, chain, q);
    assert LocatedAt(env, all, subs, chain, loc, i, q);
    StrictIsHygienic(env, all);
    OwnNames(env, all, chain, u.name, resolving, q);
    ScopeKeys(all, subs, theta, Flat(env, chain));
    BindAt(alias.params, u.args, subs, j, all);
    assert (chain + [u.name])[..loc[q]] == chain[..loc[q]];
  }

  /** Where the first phase ends up: its bindings, how they are closed, and the
      chain it is under. */
  datatype Arrival = Arrival(subs: Substitutions, theta: Closing, chain: seq<Name>, stage: nat)

  ghost predicate Arrived(
    env: Environment, all: set<Name>, t: Type, theta: Closing, chain: seq<Name>, resolving: set<Name>,
    vs: seq<ResolvedType>, end: Arrival)
  {
    && (forall i :: 0 <= i < |vs| ==> vs[i].subs == end.subs && InScope(vs[i].valueType, Live(env, end.chain), all))
    && Scope(all, end.subs, end.theta, Flat(env, end.chain))
    && |ValuesAt(end.stage, Apply(theta, t), env)| == |vs|
    && (forall i :: 0 <= i < |vs| ==>
          ValuesAt(end.stage, Apply(theta, t), env)[i] == Apply(end.theta, vs[i].valueType))
    && forall i | 0 <= i < |end.chain| ::
         end.chain[i] in chain || (end.chain[i] !in resolving && DeadEnd(env, all, end.chain[i]))
  }

  /** The first phase at a dictionary type itself: those are safe as values. */
  lemma WalkEnds(
    depth: nat, env: Environment, all: set<Name>, u: Type, subs: Substitutions, resolving: set<Name>, theta: Closing,
    chain: seq<Name>, loc: map<Name, nat>)
    requires Walking(env, all, u, subs, resolving, theta, chain, loc)
    requires u == Unwrap(u) && depth > 0
    requires u.Literal? || u.Mapped? || (u.Ref? && u.name == "Record" && IsBuiltIn(u.name, env))
    requires ValueTypes(depth, u, env, subs, resolving).Done? && ValueTypes(depth, u, env, subs, resolving).result != []
    ensures Arrived(env, all, u, theta, chain, resolving, ValueTypes(depth, u, env, subs, resolving).result,
                    Arrival(subs, theta, chain, 0))
    ensures Replays(depth, env, all, u, subs, chain, loc, chain)
  {
    hide Scope, HygienicOver, Located, InScope, Arrived, ValueTypes;
    if u.Literal? {
      LiteralEnds(depth, env, all, u, subs, resolving, theta, chain);
    } else if u.Ref? {
      BuiltInsAreNotParameters(env, all);
      forall other: Substitutions, resolving': set<Name> | other.Keys <= all
        ensures DirectValue(depth, u, env, other, resolving') == Done(None)
      { RecordIsSafe(depth, env, u, other, resolving'); }
      RecordEnds(depth, env, all, u, subs, resolving, theta, chain);
    } else {
      MappedEnds(depth, env, all, u, subs, resolving, theta, chain);
    }
  }

  lemma MappedEnds(
    depth: nat, env: Environment, all: set<Name>, u: Type, subs: Substitutions, resolving: set<Name>, theta: Closing,
    chain: seq<Name>)
    requires Scope(all, subs, theta, Flat(env, chain)) && InScope(u, Live(env, chain), all)
    requires u.Mapped? && depth > 0
    requires ValueTypes(depth, u, env, subs, resolving).Done? && ValueTypes(depth, u, env, subs, resolving).result != []
    ensures Arrived(env, all, u, theta, chain, resolving, ValueTypes(depth, u, env, subs, resolving).result,
                    Arrival(subs, theta, chain, 0))
  {
    hide Scope;
  }

  lemma BuiltInsAreNotParameters(env: Environment, all: set<Name>)
    requires HygienicOver(env, all)
    ensures BUILT_INS !! all
  {
  }

  lemma RecordIsSafe(depth: nat, env: Environment, u: Type, other: Substitutions, resolving: set<Name>)
    requires u.Ref? && u.name == "Record" && IsBuiltIn(u.name, env) && DeclaredIsShadowed(env)
    requires depth > 0 && u.name !in other
    ensures DirectValue(depth, u, env, other, resolving) == Done(None)
  {
    assert "Record" !in TRANSPARENT_WRAPPERS by {
      assert |"Record"| == 6 && "Record"[0] == 'R' && "Readonly"[1] == 'e' && |"Partial"| == 7;
    }
  }

  lemma RecordEnds(
    depth: nat, env: Environment, all: set<Name>, u: Type, subs: Substitutions, resolving: set<Name>, theta: Closing,
    chain: seq<Name>)
    requires Scope(all, subs, theta, Flat(env, chain)) && InScope(u, Live(env, chain), all) && BUILT_INS !! all
    requires u.Ref? && u.name == "Record" && IsBuiltIn(u.name, env)
    requires ValueTypes(depth, u, env, subs, resolving).Done? && ValueTypes(depth, u, env, subs, resolving).result != []
    ensures Arrived(env, all, u, theta, chain, resolving, ValueTypes(depth, u, env, subs, resolving).result,
                    Arrival(subs, theta, chain, 0))
  {
  }

  lemma LiteralEnds(
    depth: nat, env: Environment, all: set<Name>, u: Type, subs: Substitutions, resolving: set<Name>, theta: Closing,
    chain: seq<Name>)
    requires Scope(all, subs, theta, Flat(env, chain)) && InScope(u, Live(env, chain), all)
    requires u.Literal? && depth > 0
    requires ValueTypes(depth, u, env, subs, resolving).Done? && ValueTypes(depth, u, env, subs, resolving).result != []
    ensures Arrived(env, all, u, theta, chain, resolving, ValueTypes(depth, u, env, subs, resolving).result,
                    Arrival(subs, theta, chain, 0))
    ensures !AllEffectivelyEmpty(u.signatures)
  {
    hide Scope;
    IndexValuesApply(theta, u.signatures);
    IndexValuesInScope(u.signatures, all - Live(env, chain));
  }

  lemma {:induction false} IndexValuesInScope(ss: seq<Signature>, names: set<Name>)
    requires forall i :: 0 <= i < |ss| ==> SignatureAvoids(ss[i], names)
    ensures forall i :: 0 <= i < |IndexValues(ss)| ==> Avoids(IndexValues(ss)[i], names)
    ensures IndexValues(ss) != [] ==> !AllEffectivelyEmpty(ss)
  {
    if ss != [] { IndexValuesInScope(ss[1..], names); }
  }

  /** The whole first phase. */
  lemma {:induction false} Walk(
    depth: nat, env: Environment, all: set<Name>, t: Type, subs: Substitutions, resolving: set<Name>, theta: Closing,
    chain: seq<Name>, loc: map<Name, nat>)
    returns (end: Arrival)
    requires Walking(env, all, t, subs, resolving, theta, chain, loc)
    requires ValueTypes(depth, t, env, subs, resolving).Done? && ValueTypes(depth, t, env, subs, resolving).result != []
    ensures Arrived(env, all, t, theta, chain, resolving, ValueTypes(depth, t, env, subs, resolving).result, end)
    ensures Replays(depth, env, all, t, subs, chain, loc, end.chain)
    decreases depth
  {
    hide Arrived, Replays, Scope, Located, StrictOver, InScope, Apply, Expansion, Relocate, Live, BindParameters, Flat;
    var u := Unwrap(t);
    WalkUnwrapped(depth, env, all, t, subs, resolving, theta, chain, loc);
    if u.Ref? {
      var (name, args) := (u.name, u.args);
      BuiltInsAreNotLive(env, all, u, subs, resolving, theta, chain, loc);
      if name in subs {
        var theta', chain' := WalkParameter(env, all, u, subs, resolving, theta, chain, loc);
        end := Walk(depth - 1, env, all, subs[name], subs, resolving, theta', chain', loc);
        AfterParameter(depth, env, all, u, subs, resolving, theta, theta', chain, loc, end);
      } else if IsWrapper(name, env) || (name in {"Pick", "Omit"} && IsBuiltIn(name, env)) {
        end := Walk(depth - 1, env, all, args[0], subs, resolving, theta, chain, loc);
        AfterBuiltIn(depth, env, all, u, subs, resolving, theta, chain, loc, end);
      } else if name == "Record" && IsBuiltIn(name, env) {
        end := Arrival(subs, theta, chain, 0);
        WalkEnds(depth, env, all, u, subs, resolving, theta, chain, loc);
      } else {
        var alias := env.aliases[name];
        var next := BindParameters(alias.params, args, subs).value;
        var theta' := WalkAlias(env, all, u, subs, resolving, theta, chain, loc);
        end := Walk(depth - 1, env, all, alias.body, next, resolving + {name}, theta', chain + [name],
                    Relocate(alias, args, loc, |chain|, all));
        end := AfterAlias(depth, env, all, u, subs, resolving, theta, theta', chain, loc, end);
      }
    } else {
      end := Arrival(subs, theta, chain, 0);
      WalkEnds(depth, env, all, u, subs, resolving, theta, chain, loc);
    }
    WrapUp(depth, env, all, t, subs, resolving, theta, chain, loc, end);
  }

  /** Parentheses and `readonly` change nothing along the walk. */
  lemma WalkUnwrapped(
    depth: nat, env: Environment, all: set<Name>, t: Type, subs: Substitutions, resolving: set<Name>, theta: Closing,
    chain: seq<Name>, loc: map<Name, nat>)
    requires Walking(env, all, t, subs, resolving, theta, chain, loc)
    ensures Walking(env, all, Unwrap(t), subs, resolving, theta, chain, loc)
    ensures ValueTypes(depth, Unwrap(t), env, subs, resolving) == ValueTypes(depth, t, env, subs, resolving)
  {
    hide Scope, Located, StrictOver;
    AvoidsUnwrap(t, all - Live(env, chain));
  }

  lemma WrapUp(
    depth: nat, env: Environment, all: set<Name>, t: Type, subs: Substitutions, resolving: set<Name>, theta: Closing,
    chain: seq<Name>, loc: map<Name, nat>, end: Arrival)
    requires ValueTypes(depth, t, env, subs, resolving).Done?
    requires Arrived(env, all, Unwrap(t), theta, chain, resolving, ValueTypes(depth, t, env, subs, resolving).result, end)
    requires Replays(depth, env, all, Unwrap(t), subs, chain, loc, end.chain)
    ensures Arrived(env, all, t, theta, chain, resolving, ValueTypes(depth, t, env, subs, resolving).result, end)
    ensures Replays(depth, env, all, t, subs, chain, loc, end.chain)
  {
    hide Scope, Matches, InScope;
    ApplyUnwrap(theta, t);
    forall m: nat, other: Substitutions, resolving': set<Name> |
      m <= |chain| && (m == 0 || chain[m - 1] in end.chain) && Matches(env, all, subs, other, chain, loc, m)
      ensures DirectValue(depth, t, env, other, resolving') == Done(None)
    {
      assert DirectValue(depth, Unwrap(t), env, other, resolving') == Done(None);
      assert DirectValue(depth, t, env, other, resolving') == DirectValue(depth, Unwrap(t), env, other, resolving');
    }
  }

  lemma BuiltInsAreNotLive(
    env: Environment, all: set<Name>, u: Type, subs: Substitutions, resolving: set<Name>, theta: Closing,
    chain: seq<Name>, loc: map<Name, nat>)
    requires Walking(env, all, u, subs, resolving, theta, chain, loc) && u.Ref?
    ensures u.name in BUILT_INS ==> u.name !in subs && u.name !in all
    ensures u.name in env.aliases ==>
              u.name !in all && u.name !in subs && u.name !in theta && u.name !in env.interfaces
    ensures IsBuiltIn(u.name, env) ==> u.name !in env.aliases && u.name !in env.interfaces
    ensures subs.Keys <= all && theta.Keys <= all
    ensures forall i :: 0 <= i < |u.args| ==> InScope(u.args[i], Live(env, chain), all)
  {
    hide Located;
  }

  lemma AfterParameter(
    depth: nat, env: Environment, all: set<Name>, u: Type, subs: Substitutions, resolving: set<Name>, theta: Closing,
    theta': Closing, chain: seq<Name>, loc: map<Name, nat>, end: Arrival)
    requires depth > 0 && u.Ref? && u.name in subs && u.name in loc && loc[u.name] <= |chain|
    requires !IsUnappliedReferenceTo(subs[u.name], u.name) && u.name !in BUILT_INS
    requires Apply(theta', subs[u.name]) == Apply(theta, u)
    requires forall i :: 0 <= i < |chain| ==> chain[i] in resolving
    requires Distinct(chain)
    requires exists i :: loc[u.name] <= i < |chain| && Owns(env, chain[i], u.name)
    requires var vs := ValueTypes(depth, u, env, subs, resolving);
             vs.Done? && Arrived(env, all, subs[u.name], theta', chain[..loc[u.name]], resolving, vs.result, end)
    requires Replays(depth - 1, env, all, subs[u.name], subs, chain[..loc[u.name]], loc, end.chain)
    ensures Arrived(env, all, u, theta, chain, resolving, ValueTypes(depth, u, env, subs, resolving).result, end)
    ensures Replays(depth, env, all, u, subs, chain, loc, end.chain)
  {
    hide Scope, InScope, DeadEnd, ValueTypes, Apply;
    var n := loc[u.name];
    forall m: nat, other: Substitutions, resolving': set<Name> |
      m <= |chain| && (m == 0 || chain[m - 1] in end.chain) && Matches(env, all, subs, other, chain, loc, m)
      ensures DirectValue(depth, u, env, other, resolving') == Done(None)
    {
      if m > n {
        assert false;
      }
      var i :| n <= i < |chain| && Owns(env, chain[i], u.name);
      assert other[u.name] == subs[u.name];
      assert Matches(env, all, subs, other, chain[..n], loc, m) by {
        assert forall i :: 0 <= i < n ==> chain[..n][i] == chain[i];
      }
    }
  }

  lemma AfterBuiltIn(
    depth: nat, env: Environment, all: set<Name>, u: Type, subs: Substitutions, resolving: set<Name>, theta: Closing,
    chain: seq<Name>, loc: map<Name, nat>, end: Arrival)
    requires depth > 0 && u.Ref? && u.args != [] && u.name !in all && subs.Keys <= all && theta.Keys <= all
    requires IsWrapper(u.name, env) || (u.name in {"Pick", "Omit"} && IsBuiltIn(u.name, env))
    requires u.name !in env.aliases && u.name !in env.interfaces
    requires var vs := ValueTypes(depth, u, env, subs, resolving);
             vs.Done? && Arrived(env, all, u.args[0], theta, chain, resolving, vs.result, end)
    requires Replays(depth - 1, env, all, u.args[0], subs, chain, loc, end.chain)
    ensures Arrived(env, all, u, theta, chain, resolving, ValueTypes(depth, u, env, subs, resolving).result, end)
    ensures Replays(depth, env, all, u, subs, chain, loc, end.chain)
  {
    hide Scope, InScope, DeadEnd, ValueTypes;
    assert ValuesAt(end.stage, Apply(theta, u), env) == ValuesAt(end.stage, Apply(theta, u.args[0]), env);
    forall m: nat, other: Substitutions, resolving': set<Name> |
      m <= |chain| && (m == 0 || chain[m - 1] in end.chain) && Matches(env, all, subs, other, chain, loc, m)
      ensures DirectValue(depth, u, env, other, resolving') == Done(None)
    {
      if IsWrapper(u.name, env) {
        assert DirectValue(depth - 1, u.args[0], env, other, resolving') == Done(None);
      }
    }
  }

  lemma {:induction false} BindsAlike(params: seq<Parameter>, args: seq<Type>, a: Substitutions, b: Substitutions)
    ensures BindParameters(params, args, a).Some? == BindParameters(params, args, b).Some?
    decreases |params|
  {
    if params != [] && (args != [] || params[0].default.Some?) {
      var arg := if args != [] then args[0] else params[0].default.value;
      BindsAlike(params[1..], if args == [] then [] else args[1..],
                 a[params[0].name := ResolvedArgument(arg, a)], b[params[0].name := ResolvedArgument(arg, b)]);
    }
  }

  /** Bindings that match before an alias is entered match inside it. */
  lemma MatchesInside(
    env: Environment, all: set<Name>, u: Type, subs: Substitutions, other: Substitutions, resolving: set<Name>,
    theta: Closing, chain: seq<Name>, loc: map<Name, nat>, m: nat)
    requires Walking(env, all, u, subs, resolving, theta, chain, loc)
    requires u.Ref? && u.name in env.aliases && u.name !in resolving && m <= |chain|
    requires BindParameters(env.aliases[u.name].params, u.args, subs).Some?
    requires BindParameters(env.aliases[u.name].params, u.args, other).Some?
    requires Matches(env, all, subs, other, chain, loc, m)
    ensures var alias := env.aliases[u.name];
            Matches(env, all, BindParameters(alias.params, u.args, subs).value,
              BindParameters(alias.params, u.args, other).value, chain + [u.name],
              Relocate(alias, u.args, loc, |chain|, all), m)
  {
    var (alias, chain') := (env.aliases[u.name], chain + [u.name]);
    var (a, b) := (BindParameters(alias.params, u.args, subs).value, BindParameters(alias.params, u.args, other).value);
    var loc' := Relocate(alias, u.args, loc, |chain|, all);
    hide Walking, Relocate, BindParameters, Owns;
    forall i, p | m <= i < |chain'| && Owns(env, chain'[i], p)
      ensures p in loc' && loc'[p] >= m && p in a ==> p in b && b[p] == a[p]
    {
      if i < |chain| { InsideOld(env, all, u, subs, other, resolving, theta, chain, loc, m, i, p); }
      else { InsideNew(env, all, u, subs, other, resolving, theta, chain, loc, m, p); }
    }
    InsideKeys(env, all, u, subs, other, resolving, theta, chain, loc);
  }

  lemma InsideKeys(
    env: Environment, all: set<Name>, u: Type, subs: Substitutions, other: Substitutions, resolving: set<Name>,
    theta: Closing, chain: seq<Name>, loc: map<Name, nat>)
    requires Walking(env, all, u, subs, resolving, theta, chain, loc)
    requires u.Ref? && u.name in env.aliases && other.Keys <= all
    requires BindParameters(env.aliases[u.name].params, u.args, other).Some?
    ensures BindParameters(env.aliases[u.name].params, u.args, other).value.Keys <= all
  {
    StrictIsHygienic(env, all);
    BindKeys(env.aliases[u.name].params, u.args, other);
  }

  lemma InsideOld(
    env: Environment, all: set<Name>, u: Type, subs: Substitutions, other: Substitutions, resolving: set<Name>,
    theta: Closing, chain: seq<Name>, loc: map<Name, nat>, m: nat, i: nat, p: Name)
    requires Walking(env, all, u, subs, resolving, theta, chain, loc)
    requires u.Ref? && u.name in env.aliases && u.name !in resolving && m <= i < |chain| && Owns(env, chain[i], p)
    requires BindParameters(env.aliases[u.name].params, u.args, subs).Some?
    requires BindParameters(env.aliases[u.name].params, u.args, other).Some?
    requires Matches(env, all, subs, other, chain, loc, m)
    ensures var alias := env.aliases[u.name];
            var a := BindParameters(alias.params, u.args, subs).value;
            var b := BindParameters(alias.params, u.args, other).value;
            var loc' := Relocate(alias, u.args, loc, |chain|, all);
            p in loc' && loc'[p] >= m && p in a ==> p in b && b[p] == a[p]
  {
    hide Scope, StrictOver, InScope, IsSettled;
    var params := env.aliases[u.name].params;
    StrictIsHygienic(env, all);
    OwnedIsLive(env, chain, i, p);
    OwnNames(env, all, chain, u.name, resolving, p);
    BindOthers(params, u.args, subs, p);
    BindOthers(params, u.args, other, p);
    assert LocatedAt(env, all, subs, chain, loc, i, p);
  }

  lemma InsideNew(
    env: Environment, all: set<Name>, u: Type, subs: Substitutions, other: Substitutions, resolving: set<Name>,
    theta: Closing, chain: seq<Name>, loc: map<Name, nat>, m: nat, p: Name)
    requires Walking(env, all, u, subs, resolving, theta, chain, loc)
    requires u.Ref? && u.name in env.aliases && u.name !in resolving && m <= |chain| && Owns(env, u.name, p)
    requires BindParameters(env.aliases[u.name].params, u.args, subs).Some?
    requires BindParameters(env.aliases[u.name].params, u.args, other).Some?
    requires Matches(env, all, subs, other, chain, loc, m)
    ensures var alias := env.aliases[u.name];
            var a := BindParameters(alias.params, u.args, subs).value;
            var b := BindParameters(alias.params, u.args, other).value;
            var loc' := Relocate(alias, u.args, loc, |chain|, all);
            p in loc' && loc'[p] >= m && p in a ==> p in b && b[p] == a[p]
  {
    hide Scope, StrictOver, InScope, Relocate, BindParameters;
    var alias := env.aliases[u.name];
    var j :| 0 <= j < |alias.params| && alias.params[j].name == p;
    var (raw, order) := (Raw(alias.params, u.args, j), Flat(env, chain));
    assert order[..|order|] == order;
    StrictIsHygienic(env, all);
    ScopeKeys(all, subs, theta, order);
    ArgumentsInScope(u, order, |order|, all);
    RawInScope(env, all, u.name, u.args, Live(env, chain), j);
    RelocateAt(alias, u.args, loc, |chain|, all, j);
    if IsParameter(raw, all) {
      var q := Unwrap(raw).name;
      var i := OwnerOf(env, chain, q);
      assert LocatedAt(env, all, subs, chain, loc, i, q);
      OwnNames(env, all, chain, u.name, resolving, q);
      BindAt(alias.params, u.args, subs, j, all);
      if loc[q] >= m {
        assert other[q] == subs[q];
        BindAt(alias.params, u.args, other, j, all);
      }
    } else {
      BindAt(alias.params, u.args, subs, j, all);
      BindAt(alias.params, u.args, other, j, all);
    }
  }

  lemma AfterAlias(
    depth: nat, env: Environment, all: set<Name>, u: Type, subs: Substitutions, resolving: set<Name>, theta: Closing,
    theta': Closing, chain: seq<Name>, loc: map<Name, nat>, inner: Arrival)
    returns (end: Arrival)
    requires Walking(env, all, u, subs, resolving, theta, chain, loc)
    requires depth > 0 && u.Ref? && u.name in env.aliases && u.name !in resolving && !IsBuiltIn(u.name, env)
    requires u.name !in subs && u.name !in theta && u.name !in env.interfaces && u.name !in all
    requires BindParameters(env.aliases[u.name].params, u.args, subs).Some?
    requires Expansion(env.aliases[u.name], ApplyAll(theta, u.args)) == Some(Apply(theta', env.aliases[u.name].body))
    requires var alias := env.aliases[u.name];
             var vs := ValueTypes(depth, u, env, subs, resolving);
             vs.Done? && Arrived(env, all, alias.body, theta', chain + [u.name], resolving + {u.name}, vs.result, inner)
    requires var alias := env.aliases[u.name];
             Replays(depth - 1, env, all, alias.body, BindParameters(alias.params, u.args, subs).value,
               chain + [u.name], Relocate(alias, u.args, loc, |chain|, all), inner.chain)
    ensures end.chain == inner.chain
    ensures Arrived(env, all, u, theta, chain, resolving, ValueTypes(depth, u, env, subs, resolving).result, end)
    ensures Replays(depth, env, all, u, subs, chain, loc, end.chain)
  {
    hide Walking, Scope, InScope, ValueTypes, Relocate, BindParameters, DeadEnd, Expansion, Apply;
    end := inner.(stage := inner.stage + 1);
    var (name, alias) := (u.name, env.aliases[u.name]);
    var next := BindParameters(alias.params, u.args, subs).value;
    if name in inner.chain { EnteredIsDeadEnd(depth - 1, env, all, name, next, chain, Relocate(alias, u.args, loc, |chain|, all), inner.chain); }
    ExpandedValues(inner.stage, env, u, theta, theta');
    forall i | 0 <= i < |end.chain|
      ensures end.chain[i] in chain || (end.chain[i] !in resolving && DeadEnd(env, all, end.chain[i]))
    {
      if end.chain[i] in chain + [name] && end.chain[i] != name { assert end.chain[i] in chain; }
    }
    forall m: nat, other: Substitutions, resolving': set<Name> |
      m <= |chain| && (m == 0 || chain[m - 1] in end.chain) && Matches(env, all, subs, other, chain, loc, m)
      ensures DirectValue(depth, u, env, other, resolving') == Done(None)
    {
      BindsAlike(alias.params, u.args, subs, other);
      MatchesInside(env, all, u, subs, other, resolving, theta, chain, loc, m);
      var inside := BindParameters(alias.params, u.args, other).value;
      assert m == 0 || (chain + [name])[m - 1] == chain[m - 1];
      assert DirectValue(depth - 1, alias.body, env, inside, resolving' + {name}) == Done(None);
    }
  }

  lemma ExpandedValues(k: nat, env: Environment, u: Type, theta: Closing, theta': Closing)
    requires u.Ref? && u.name in env.aliases && !IsBuiltIn(u.name, env) && u.name !in theta
    requires Expansion(env.aliases[u.name], ApplyAll(theta, u.args)) == Some(Apply(theta', env.aliases[u.name].body))
    ensures ValuesAt(k + 1, Apply(theta, u), env) == ValuesAt(k, Apply(theta', env.aliases[u.name].body), env)
  {
  }

  lemma EnteredIsDeadEnd(
    depth: nat, env: Environment, all: set<Name>, a: Name, next: Substitutions, chain: seq<Name>,
    loc: map<Name, nat>, last: seq<Name>)
    requires a in env.aliases && a in last
    requires Replays(depth, env, all, env.aliases[a].body, next, chain + [a], loc, last)
    ensures DeadEnd(env, all, a)
  {
    forall subs: Substitutions, resolving: set<Name> | subs.Keys <= all
      ensures DirectValue(depth, env.aliases[a].body, env, subs, resolving) == Done(None)
    {
      assert (chain + [a])[|chain|] == a;
      assert Matches(env, all, next, subs, chain + [a], loc, |chain| + 1);
    }
    assert AlwaysSafe(depth, env, all, a);
  }

  /** The second phase, on the value types the first one found. */
  lemma {:induction false} RestartSound(env: Environment, all: set<Name>, vs: seq<ResolvedType>, end: Arrival)
    returns (depth: nat)
    requires StrictOver(env, all) && Scope(all, end.subs, end.theta, Flat(env, end.chain))
    requires forall i :: 0 <= i < |end.chain| ==> DeadEnd(env, all, end.chain[i])
    requires forall i :: 0 <= i < |vs| ==>
               vs[i].subs == end.subs && InScope(vs[i].valueType, Live(env, end.chain), all)
    ensures FirstUnsafe(depth, vs, env).Done?
    ensures var v := FirstUnsafe(depth, vs, env).result;
            v.Some? ==> exists i :: 0 <= i < |vs| && Means(Apply(end.theta, vs[i].valueType), env, v.value)
    decreases |vs|
  {
    hide Scope, StrictOver, InScope, DeadEnd;
    depth := 0;
    if vs != [] {
      var order := Flat(env, end.chain);
      var t := vs[0].valueType;
      var dead := set i | 0 <= i < |end.chain| :: end.chain[i];
      FlatOwned(env, end.chain, dead);
      StrictIsHygienic(env, all);
      assert {} + dead == dead && order[..|order|] == order;
      var d0, k := DirectValueSound(env, all, t, end.subs, {}, end.theta, order, |order|, dead);
      var d1 := RestartSound(env, all, vs[1..], end);
      depth := if d0 < d1 then d1 else d0;
      DirectValueDeeper(d0, depth, t, env, end.subs, {});
      FirstUnsafeDeeper(d1, depth, vs[1..], env);
      var v := DirectValue(depth, t, env, end.subs, {}).result;
      if v.Some? {
        assert KindAt(k, Apply(end.theta, t), env) == Some(v.value);
        assert Means(Apply(end.theta, vs[0].valueType), env, v.value);
      } else if FirstUnsafe(depth, vs[1..], env).result.Some? {
        var w := FirstUnsafe(depth, vs[1..], env).result.value;
        var i :| 0 <= i < |vs[1..]| && Means(Apply(end.theta, vs[1..][i].valueType), env, w);
        assert vs[i + 1] == vs[1..][i];
      }
    }
  }

  /** `classifyUnsafeDictionary` terminates on strictly hygienic programs, and a
      dictionary it reports does store an unsafe type, for the reason given. */
  lemma ClassifyDictionarySound(t: Type, env: Environment) returns (depth: nat)
    requires StrictlyHygienic(env) && IsQuery(t, env)
    ensures ClassifyDictionary(depth, t, env).Done?
    ensures forall v :: ClassifyDictionary(depth, t, env).result == Some(v) ==> StoresUnsafe(t, env, v)
  {
    var all := AllParameters(env);
    var none: Substitutions := map[];
    EmptyScope(env, all, t);
    StrictIsHygienic(env, all);
    hide StrictOver, HygienicOver, Scope, InScope, DeadEnd;
    var d0 := ValueTypesStops(env, all, t, none, {}, none, [], 0);
    var vs := ValueTypes(d0, t, env, none, {}).result;
    depth := d0;
    if vs != [] {
      var end := Walk(d0, env, all, t, none, {}, none, [], map[]);
      var d1 := RestartSound(env, all, vs, end);
      depth := if d0 < d1 then d1 else d0;
      ValueTypesDeeper(d0, depth, t, env, none, {});
      FirstUnsafeDeeper(d1, depth, vs, env);
      var r := FirstUnsafe(depth, vs, env).result;
      if r.Some? {
        var i :| 0 <= i < |vs| && Means(Apply(end.theta, vs[i].valueType), env, r.value);
        StoredValue(t, env, end.stage, i, r.value);
      }
    }
  }

  lemma EmptyScope(env: Environment, all: set<Name>, t: Type)
    requires StrictOver(env, all) && InScope(t, {}, all)
    ensures Walking(env, all, t, map[], {}, map[], [], map[])
    ensures Ready(env, all, t, map[], {}, map[], [], 0, {})
  {
    var none: Substitutions := map[];
    assert none.Keys == {} && Names([]) == {};
    assert Flat(env, []) == [];
  }

  lemma StoredValue(t: Type, env: Environment, k: nat, i: nat, v: UnsafeValue)
    requires i < |ValuesAt(k, Apply(map[], t), env)| && Means(ValuesAt(k, Apply(map[], t), env)[i], env, v)
    ensures StoresUnsafe(t, env, v)
  {
    ValuesNormal(k, t, env);
    var value := ValuesAt(k, t, env)[i];
    var l: nat :| KindAt(l, Apply(map[], value), env) == Some(v);
    KindNormal(l, value, env);
    assert Means(ValuesAt(k, t, env)[i], env, v);
  }
}
