/** Programs whose aliases and parameters can be given levels, so that no alias is
    reached again through its own body, arguments or defaults. */
module AliasLevels {
  import opened GenericResolver
  import opened Options
  import opened ParameterScope
  import opened Substitution
  import opened TypeEnvironment
  import opened TypeMeaning
  import opened TypeSyntax

  type Level = Name -> nat

  /** The aliases and parameters from level `n` on. */
  ghost function AtLeast(env: Environment, all: set<Name>, level: Level, n: nat): set<Name> {
    set x | x in env.aliases.Keys + all && level(x) >= n
  }

  /** What is bound to `p` mentions nothing above `p`. */
  ghost predicate FlowsInto(env: Environment, all: set<Name>, level: Level, t: Type, p: Name) {
    Avoids(t, AtLeast(env, all, level, level(p) + 1))
  }

  ghost predicate ArgumentsFlow(
    env: Environment, all: set<Name>, level: Level, params: seq<Parameter>, args: seq<Type>)
  {
    forall i | 0 <= i < |args| && i < |params| :: FlowsInto(env, all, level, args[i], params[i].name)
  }

  /** Every argument in `t` flows into its parameter, and no optional property of a
      literal has a bare parameter for its type. */
  ghost predicate Layered(env: Environment, all: set<Name>, level: Level, t: Type)
    decreases t
  {
    match t
    case Paren(inner) => Layered(env, all, level, inner)
    case Operator(_, inner) => Layered(env, all, level, inner)
    case Union(members) => forall i :: 0 <= i < |members| ==> Layered(env, all, level, members[i])
    case Intersection(members) => forall i :: 0 <= i < |members| ==> Layered(env, all, level, members[i])
    case Ref(name, args) =>
      && (forall i :: 0 <= i < |args| ==> Layered(env, all, level, args[i]))
      && (name in env.aliases ==> ArgumentsFlow(env, all, level, env.aliases[name].params, args))
    case Literal(signatures) => forall i :: 0 <= i < |signatures| ==> SignatureLayered(env, all, level, signatures[i])
    case Mapped(value) => value.Some? ==> Layered(env, all, level, value.value)
    case _ => true
  }

  ghost predicate SignatureLayered(env: Environment, all: set<Name>, level: Level, s: Signature)
    decreases s
  {
    match s
    case Property(optional, annotation) =>
      annotation.Some? ==> Layered(env, all, level, annotation.value) && (optional ==> IsSettled(annotation.value, all))
    case IndexSignature(annotation) => annotation.Some? ==> Layered(env, all, level, annotation.value)
    case OtherSignature => true
  }

  /** Levels that fit: a body stays below its alias, and a default at most at the
      level of its parameter. */
  ghost predicate Stratified(env: Environment, all: set<Name>, level: Level) {
    forall a | a in env.aliases :: StratifiedAlias(env, all, level, a, env.aliases[a])
  }

  ghost predicate StratifiedAlias(env: Environment, all: set<Name>, level: Level, a: Name, alias: Alias) {
    && Avoids(alias.body, AtLeast(env, all, level, level(a))) && Layered(env, all, level, alias.body)
    && DefaultsFlow(env, all, level, alias.params)
  }

  ghost predicate DefaultsFlow(env: Environment, all: set<Name>, level: Level, params: seq<Parameter>) {
    forall j | 0 <= j < |params| && params[j].default.Some? ::
      Layered(env, all, level, params[j].default.value) && FlowsInto(env, all, level, params[j].default.value, params[j].name)
  }

  /** What the live parameters are bound to respects the levels. */
  ghost predicate Leveled(env: Environment, all: set<Name>, level: Level, subs: Substitutions, order: seq<Name>) {
    forall i | 0 <= i < |order| :: BoundLeveled(env, all, level, subs, order[i])
  }

  ghost predicate BoundLeveled(env: Environment, all: set<Name>, level: Level, subs: Substitutions, p: Name) {
    p in subs && Layered(env, all, level, subs[p]) && FlowsInto(env, all, level, subs[p], p)
  }

  /** `t` lies below everything passed through on the way to it. */
  ghost predicate Below(env: Environment, all: set<Name>, level: Level, t: Type, passed: set<Name>) {
    forall r | r in passed :: Avoids(t, AtLeast(env, all, level, level(r)))
  }

  ghost predicate Staged(
    env: Environment, all: set<Name>, level: Level, t: Type, subs: Substitutions, order: seq<Name>, passed: set<Name>)
  {
    && Stratified(env, all, level) && Layered(env, all, level, t) && Leveled(env, all, level, subs, order)
    && Below(env, all, level, t, passed)
  }

  lemma AtLeastShrinks(env: Environment, all: set<Name>, level: Level, m: nat, n: nat)
    requires m <= n
    ensures AtLeast(env, all, level, n) <= AtLeast(env, all, level, m)
  {
  }

  lemma {:induction false} LayeredUnwrap(env: Environment, all: set<Name>, level: Level, t: Type)
    ensures Layered(env, all, level, t) == Layered(env, all, level, Unwrap(t))
  {
    match t
    case Paren(inner) => LayeredUnwrap(env, all, level, inner);
    case Operator(readonly, inner) => if readonly { LayeredUnwrap(env, all, level, inner); }
    case _ =>
  }

  lemma StagedUnwrap(
    env: Environment, all: set<Name>, level: Level, t: Type, subs: Substitutions, order: seq<Name>, passed: set<Name>)
    ensures Staged(env, all, level, t, subs, order, passed) == Staged(env, all, level, Unwrap(t), subs, order, passed)
  {
    LayeredUnwrap(env, all, level, t);
    forall r | r in passed { AvoidsUnwrap(t, AtLeast(env, all, level, level(r))); }
  }

  /** An alias that `t` refers to has not been passed. */
  lemma NotPassed(
    env: Environment, all: set<Name>, level: Level, u: Type, subs: Substitutions, order: seq<Name>, passed: set<Name>)
    requires Staged(env, all, level, u, subs, order, passed) && u.Ref? && u.name in env.aliases
    ensures u.name !in passed
  {
    assert u.name in AtLeast(env, all, level, level(u.name));
    assert !Avoids(u, AtLeast(env, all, level, level(u.name)));
  }

  /** Looking up a parameter stays below what was passed. */
  lemma BoundStaged(
    env: Environment, all: set<Name>, level: Level, u: Type, subs: Substitutions, order: seq<Name>, passed: set<Name>,
    i: nat)
    requires Staged(env, all, level, u, subs, order, passed)
    requires u.Ref? && i < |order| && order[i] == u.name && u.name in subs && u.name in all
    ensures Staged(env, all, level, subs[u.name], subs, order, passed)
  {
    var bound := subs[u.name];
    assert BoundLeveled(env, all, level, subs, order[i]);
    forall r | r in passed ensures Avoids(bound, AtLeast(env, all, level, level(r))) {
      assert Avoids(u, AtLeast(env, all, level, level(r)));
      AtLeastShrinks(env, all, level, level(u.name) + 1, level(r));
      AvoidsFewer(bound, AtLeast(env, all, level, level(u.name) + 1), AtLeast(env, all, level, level(r)));
    }
  }

  /** Resolving an argument keeps it within its level. */
  lemma ResolvedFlows(
    env: Environment, all: set<Name>, level: Level, subs: Substitutions, theta: Closing, order: seq<Name>, p: Name,
    arg: Type)
    requires Scope(all, subs, theta, order) && InScope(arg, Names(order), all)
    requires Leveled(env, all, level, subs, order)
    requires Layered(env, all, level, arg) && FlowsInto(env, all, level, arg, p)
    ensures var r := ResolvedArgument(arg, subs); Layered(env, all, level, r) && FlowsInto(env, all, level, r, p)
  {
    hide Layered;
    var u := Unwrap(arg);
    AvoidsUnwrap(arg, all - Names(order));
    if u.Ref? && u.name in subs {
      var i :| 0 <= i < |order| && order[i] == u.name;
      assert BoundInScope(all, subs, theta, order, i) && BoundLeveled(env, all, level, subs, order[i]);
      var high := AtLeast(env, all, level, level(p) + 1);
      AvoidsUnwrap(arg, high);
      assert u.name !in high;
      AtLeastShrinks(env, all, level, level(u.name) + 1, level(p) + 1);
      AvoidsFewer(subs[u.name], AtLeast(env, all, level, level(u.name) + 1), high);
      assert ResolvedArgument(arg, subs) == subs[u.name];
    }
  }

  /** One parameter more. */
  lemma OneLeveled(
    env: Environment, all: set<Name>, level: Level, subs: Substitutions, theta: Closing, order: seq<Name>, p: Name,
    arg: Type)
    requires Scope(all, subs, theta, order) && InScope(arg, Names(order), all) && p in all && p !in order
    requires Leveled(env, all, level, subs, order)
    requires Layered(env, all, level, arg) && FlowsInto(env, all, level, arg, p)
    ensures Leveled(env, all, level, subs[p := ResolvedArgument(arg, subs)], order + [p])
  {
    var r := ResolvedArgument(arg, subs);
    var (subs', order') := (subs[p := r], order + [p]);
    ResolvedFlows(env, all, level, subs, theta, order, p, arg);
    assert BoundLeveled(env, all, level, subs', p);
    hide BoundLeveled;
    forall i | 0 <= i < |order'| ensures BoundLeveled(env, all, level, subs', order'[i]) {
      if i < |order| { StillLeveled(env, all, level, subs, order[i], p, r); }
    }
  }

  lemma StillLeveled(env: Environment, all: set<Name>, level: Level, subs: Substitutions, q: Name, p: Name, r: Type)
    requires BoundLeveled(env, all, level, subs, q) && p != q
    ensures BoundLeveled(env, all, level, subs[p := r], q)
  {
  }

  /** Binding the parameters of an alias keeps the levels. */
  lemma {:induction false} BindLeveled(
    env: Environment, all: set<Name>, level: Level, params: seq<Parameter>, args: seq<Type>, subs: Substitutions,
    theta: Closing, order: seq<Name>, outer: Closing, caller: set<Name>, inst: Closing)
    requires Binding(all, params, args, subs, theta, order, outer, caller, inst)
    requires Leveled(env, all, level, subs, order)
    requires (forall i :: 0 <= i < |args| ==> Layered(env, all, level, args[i]))
    requires ArgumentsFlow(env, all, level, params, args) && DefaultsFlow(env, all, level, params)
    ensures var next := BindParameters(params, args, subs);
            next.Some? ==> Leveled(env, all, level, next.value, order + NameList(params))
    decreases |params|
  {
    if params == [] {
      assert order + NameList(params) == order;
    } else if args != [] || params[0].default.Some? {
      var p := params[0].name;
      var arg := if args != [] then args[0] else params[0].default.value;
      var rest := if args == [] then [] else args[1..];
      var closed := Apply(theta, arg);
      FirstFlows(env, all, level, params, args);
      ArgumentInScope(all, params, args, subs, theta, order, outer, caller, inst, arg);
      OneLeveled(env, all, level, subs, theta, order, p, arg);
      BindOne(all, params, args, subs, theta, order, outer, caller, inst, arg);
      hide Binding, Leveled, Layered, FlowsInto;
      BindLeveled(env, all, level, params[1..], rest, subs[p := ResolvedArgument(arg, subs)],
                  theta[p := closed], order + [p], outer, caller, inst[p := closed]);
      BindUnfold(params, args, subs, outer, inst, arg, closed);
      BindNames(params, order, inst, closed);
    }
  }

  lemma FirstFlows(env: Environment, all: set<Name>, level: Level, params: seq<Parameter>, args: seq<Type>)
    requires params != [] && (args != [] || params[0].default.Some?)
    requires (forall i :: 0 <= i < |args| ==> Layered(env, all, level, args[i]))
    requires ArgumentsFlow(env, all, level, params, args) && DefaultsFlow(env, all, level, params)
    ensures var arg := if args != [] then args[0] else params[0].default.value;
            Layered(env, all, level, arg) && FlowsInto(env, all, level, arg, params[0].name)
    ensures var rest := if args == [] then [] else args[1..];
            && (forall i :: 0 <= i < |rest| ==> Layered(env, all, level, rest[i]))
            && ArgumentsFlow(env, all, level, params[1..], rest) && DefaultsFlow(env, all, level, params[1..])
  {
    hide Layered, FlowsInto;
    var rest := if args == [] then [] else args[1..];
    forall i | 0 <= i < |rest| && i < |params[1..]| ensures FlowsInto(env, all, level, rest[i], params[1..][i].name) {
      assert rest[i] == args[i + 1] && params[1..][i] == params[i + 1];
    }
  }

  lemma ArgumentInScope(
    all: set<Name>, params: seq<Parameter>, args: seq<Type>, subs: Substitutions, theta: Closing, order: seq<Name>,
    outer: Closing, caller: set<Name>, inst: Closing, arg: Type)
    requires params != [] && Binding(all, params, args, subs, theta, order, outer, caller, inst)
    requires if args != [] then arg == args[0] else params[0].default == Some(arg)
    ensures Scope(all, subs, theta, order) && InScope(arg, Names(order), all)
    ensures params[0].name in all && params[0].name !in order
  {
    assert params[0].name in NameSet(params);
    AvoidsFewer(arg, all - (if args != [] then caller else inst.Keys), all - Names(order));
  }

  /** Inside an alias everything is staged again, one alias more having been passed. */
  lemma StagedInside(
    env: Environment, all: set<Name>, level: Level, u: Type, subs: Substitutions, theta: Closing, order: seq<Name>,
    top: nat, passed: set<Name>)
    requires u.Ref? && u.name in env.aliases && Ready(env, all, u, subs, passed, theta, order, top, {})
    requires Staged(env, all, level, u, subs, order, passed)
    requires BindParameters(env.aliases[u.name].params, u.args, subs).Some?
    ensures var alias := env.aliases[u.name];
            Staged(env, all, level, alias.body, BindParameters(alias.params, u.args, subs).value,
                   order + NameList(alias.params), passed + {u.name})
  {
    var alias := env.aliases[u.name];
    NotPassed(env, all, level, u, subs, order, passed);
    EntersBinding(env, all, u, subs, theta, order, top, passed);
    assert StratifiedAlias(env, all, level, u.name, alias);
    BindLeveled(env, all, level, alias.params, u.args, subs, theta, order, theta, Names(order), map[]);
    hide Layered, Leveled, Stratified, Ready, Binding;
    forall r | r in passed + {u.name} ensures Avoids(alias.body, AtLeast(env, all, level, level(r))) {
      if r in passed {
        assert Avoids(u, AtLeast(env, all, level, level(r)));
        AtLeastShrinks(env, all, level, level(u.name), level(r));
        AvoidsFewer(alias.body, AtLeast(env, all, level, level(u.name)), AtLeast(env, all, level, level(r)));
      }
    }
  }

  lemma EntersBinding(
    env: Environment, all: set<Name>, u: Type, subs: Substitutions, theta: Closing, order: seq<Name>, top: nat,
    passed: set<Name>)
    requires u.Ref? && u.name in env.aliases && u.name !in passed
    requires Ready(env, all, u, subs, passed, theta, order, top, {})
    ensures Binding(all, env.aliases[u.name].params, u.args, subs, theta, order, theta, Names(order), map[])
  {
    var alias := env.aliases[u.name];
    assert HygienicAlias(alias, all);
    assert passed + {} == passed;
    NotOwned(env, u.name, order, passed);
    ArgumentsInScope(u, order, top, all);
    hide Owned, InScope;
    var none: Closing := map[];
    assert none.Keys == {};
  }
}
