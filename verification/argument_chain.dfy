/** Where the live parameters come from: the chain of aliases entered to reach the
    type at hand, and how far down that chain each bound type was written. */
module ArgumentChain {
  import opened ParameterScope
  import opened Substitution
  import opened TypeEnvironment
  import opened TypeMeaning
  import opened TypeSyntax

  /** The parameters of the aliases of a chain, in order. */
  ghost function Flat(env: Environment, chain: seq<Name>): seq<Name> {
    if chain == [] then []
    else
      var last := chain[|chain| - 1];
      Flat(env, chain[..|chain| - 1]) + if last in env.aliases then NameList(env.aliases[last].params) else []
  }

  /** The parameters of a chain, as a set. */
  ghost function Live(env: Environment, chain: seq<Name>): set<Name> {
    Names(Flat(env, chain))
  }

  lemma {:induction false} FlatPrefix(env: Environment, chain: seq<Name>, n: nat)
    requires n <= |chain|
    ensures |Flat(env, chain[..n])| <= |Flat(env, chain)|
    ensures Flat(env, chain)[..|Flat(env, chain[..n])|] == Flat(env, chain[..n])
    decreases |chain|
  {
    if n < |chain| {
      var front := chain[..|chain| - 1];
      FlatPrefix(env, front, n);
      assert front[..n] == chain[..n];
    } else {
      assert chain[..n] == chain;
    }
  }

  lemma LiveGrows(env: Environment, chain: seq<Name>, n: nat)
    requires n <= |chain|
    ensures Live(env, chain[..n]) <= Live(env, chain)
  {
    FlatPrefix(env, chain, n);
    var short, long := Flat(env, chain[..n]), Flat(env, chain);
    assert forall i :: 0 <= i < |short| ==> short[i] == long[i];
  }

  lemma {:induction false} OwnerOf(env: Environment, chain: seq<Name>, p: Name) returns (i: nat)
    requires p in Live(env, chain)
    ensures i < |chain| && Owns(env, chain[i], p)
    decreases |chain|
  {
    var last := |chain| - 1;
    var front := Flat(env, chain[..last]);
    var k :| 0 <= k < |Flat(env, chain)| && Flat(env, chain)[k] == p;
    if k < |front| {
      assert front[k] == p;
      i := OwnerOf(env, chain[..last], p);
    } else {
      assert env.aliases[chain[last]].params[k - |front|] in env.aliases[chain[last]].params;
      i := last;
    }
  }

  lemma {:induction false} OwnedIsLive(env: Environment, chain: seq<Name>, i: nat, p: Name)
    requires i < |chain| && Owns(env, chain[i], p)
    ensures p in Live(env, chain)
    decreases |chain|
  {
    var last := |chain| - 1;
    if i == last { NamesMore(Flat(env, chain[..last]), env.aliases[chain[last]].params); }
    else {
      OwnedIsLive(env, chain[..last], i, p);
      LiveGrows(env, chain, last);
    }
  }

  lemma FlatOwned(env: Environment, chain: seq<Name>, owners: set<Name>)
    requires forall i :: 0 <= i < |chain| ==> chain[i] in owners
    ensures Owned(env, Flat(env, chain), owners)
  {
    var order := Flat(env, chain);
    forall k | 0 <= k < |order| ensures HasOwner(env, order[k], owners) {
      var i := OwnerOf(env, chain, order[k]);
    }
  }

  /** `loc[p]` is how much of the chain the type bound to `p` was written under. */
  ghost predicate Located(env: Environment, all: set<Name>, subs: Substitutions, chain: seq<Name>, loc: map<Name, nat>) {
    forall i, p | 0 <= i < |chain| && Owns(env, chain[i], p) :: LocatedAt(env, all, subs, chain, loc, i, p)
  }

  ghost predicate LocatedAt(
    env: Environment, all: set<Name>, subs: Substitutions, chain: seq<Name>, loc: map<Name, nat>, i: nat, p: Name)
    requires i < |chain|
  {
    && p in loc && p in subs && loc[p] <= i
    && InScope(subs[p], Live(env, chain[..loc[p]]), all) && IsSettled(subs[p], all)
  }

  ghost function Restrict(theta: Closing, names: set<Name>): Closing {
    map n | n in theta && n in names :: theta[n]
  }

  /** Forgetting the younger part of a scope. */
  lemma Truncate(all: set<Name>, subs: Substitutions, theta: Closing, order: seq<Name>, n: nat)
    requires Scope(all, subs, theta, order) && n <= |order|
    ensures Scope(all, subs, Restrict(theta, Names(order[..n])), order[..n])
    ensures forall t :: InScope(t, Names(order[..n]), all) ==> Apply(Restrict(theta, Names(order[..n])), t) == Apply(theta, t)
  {
    var short := order[..n];
    var less := Restrict(theta, Names(short));
    assert Names(short) <= Names(order);
    forall t | InScope(t, Names(short), all) ensures Apply(less, t) == Apply(theta, t) {
      ApplyExtends(all, less, theta, Names(short), t);
    }
    forall i | 0 <= i < n ensures BoundInScope(all, subs, less, short, i) {
      assert BoundInScope(all, subs, theta, order, i);
      assert short[..i] == order[..i] && Names(short[..i]) <= Names(short);
      AvoidsFewer(subs[short[i]], all - Names(short[..i]), all - Names(short));
    }
  }

  /** The argument or default that parameter `j` takes. */
  ghost function Raw(params: seq<Parameter>, args: seq<Type>, j: nat): Type
    requires j < |params|
  {
    if j < |args| then args[j] else if params[j].default.Some? then params[j].default.value else Opaque
  }

  ghost predicate IsParameter(t: Type, all: set<Name>) {
    Unwrap(t).Ref? && Unwrap(t).name in all
  }

  lemma {:induction false} BindOthers(params: seq<Parameter>, args: seq<Type>, next: Substitutions, n: Name)
    requires BindParameters(params, args, next).Some? && n !in NameSet(params)
    ensures var r := BindParameters(params, args, next).value; (n in r <==> n in next) && (n in next ==> r[n] == next[n])
    decreases |params|
  {
    if params != [] {
      assert params[0] in params && NameSet(params[1..]) <= NameSet(params);
      var arg := if args != [] then args[0] else params[0].default.value;
      BindOthers(params[1..], if args == [] then [] else args[1..],
                 next[params[0].name := ResolvedArgument(arg, next)], n);
    }
  }

  lemma ResolvedOnce(raw: Type, next: Substitutions, all: set<Name>)
    requires next.Keys <= all
    requires IsParameter(raw, all) ==> Unwrap(raw).name in next && IsSettled(next[Unwrap(raw).name], all)
    ensures ResolvedArgument(raw, next) == if IsParameter(raw, all) then next[Unwrap(raw).name] else raw
  {
    if IsParameter(raw, all) {
      var q := Unwrap(raw).name;
      assert ResolvedArgument(raw, next) == ResolvedArgument(next[q], next, {q});
    }
  }

  /** What parameter `j` is bound to: a parameter passed on hands over its value,
      anything else is bound as it stands. */
  lemma {:induction false} BindAt(params: seq<Parameter>, args: seq<Type>, next: Substitutions, j: nat, all: set<Name>)
    requires j < |params| && DistinctNames(params) && next.Keys + NameSet(params) <= all
    requires BindParameters(params, args, next).Some?
    requires var raw := Raw(params, args, j);
             IsParameter(raw, all) ==>
               var q := Unwrap(raw).name; q !in NameSet(params) && q in next && IsSettled(next[q], all)
    ensures var r := BindParameters(params, args, next).value;
            params[j].name in r
    ensures var (r, raw) := (BindParameters(params, args, next).value, Raw(params, args, j));
            r[params[j].name] == if IsParameter(raw, all) then next[Unwrap(raw).name] else raw
    decreases |params|
  {
    var p := params[0].name;
    var arg := if args != [] then args[0] else params[0].default.value;
    var rest := if args == [] then [] else args[1..];
    assert params[0] in params && NameSet(params[1..]) <= NameSet(params);
    var next' := next[p := ResolvedArgument(arg, next)];
    if j == 0 {
      ResolvedOnce(arg, next, all);
      assert p !in NameSet(params[1..]);
      BindOthers(params[1..], rest, next', p);
    } else {
      assert Raw(params[1..], rest, j - 1) == Raw(params, args, j);
      BindAt(params[1..], rest, next', j - 1, all);
    }
  }
}
