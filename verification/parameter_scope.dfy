/** Scopes of alias parameters: what the resolver has bound, which of it is live,
    and how it is closed by substitution. */
module ParameterScope {
  import opened Options
  import opened Sequences
  import opened Substitution
  import opened TypeEnvironment
  import opened TypeMeaning
  import opened TypeSyntax

  ghost function NameSet(params: seq<Parameter>): set<Name> {
    set p | p in params :: p.name
  }

  function NameList(params: seq<Parameter>): seq<Name> {
    seq(|params|, i requires 0 <= i < |params| => params[i].name)
  }

  ghost function AllParameters(env: Environment): set<Name> {
    set a, p | a in env.aliases && p in env.aliases[a].params :: p.name
  }

  /** `t` mentions none of `names`. */
  ghost predicate Avoids(t: Type, names: set<Name>) {
    match t
    case Paren(inner) => Avoids(inner, names)
    case Operator(_, inner) => Avoids(inner, names)
    case Union(members) => forall i :: 0 <= i < |members| ==> Avoids(members[i], names)
    case Intersection(members) => forall i :: 0 <= i < |members| ==> Avoids(members[i], names)
    case Ref(name, args) => name !in names && forall i :: 0 <= i < |args| ==> Avoids(args[i], names)
    case Literal(signatures) => forall i :: 0 <= i < |signatures| ==> SignatureAvoids(signatures[i], names)
    case Mapped(value) => value.Some? ==> Avoids(value.value, names)
    case _ => true
  }

  ghost predicate SignatureAvoids(s: Signature, names: set<Name>) {
    match s
    case Property(_, annotation) => annotation.Some? ==> Avoids(annotation.value, names)
    case IndexSignature(annotation) => annotation.Some? ==> Avoids(annotation.value, names)
    case OtherSignature => true
  }

  /** `t` mentions no parameter outside `scope`. */
  ghost predicate InScope(t: Type, scope: set<Name>, all: set<Name>) {
    Avoids(t, all - scope)
  }

  ghost predicate DistinctNames(params: seq<Parameter>) {
    forall i, j :: 0 <= i < j < |params| ==> params[i].name != params[j].name
  }

  /** Parameter names are distinct from each other, across aliases too, and from
      every declared and built-in name; a body mentions its own parameters only,
      and a default only earlier ones. */
  ghost predicate Hygienic(env: Environment) {
    HygienicOver(env, AllParameters(env))
  }

  ghost predicate HygienicOver(env: Environment, all: set<Name>) {
    && (forall a, b | a in env.aliases && b in env.aliases && a != b ::
          NameSet(env.aliases[a].params) !! NameSet(env.aliases[b].params))
    && all !! env.aliases.Keys + env.interfaces.Keys + BUILT_INS
    && forall a | a in env.aliases :: HygienicAlias(env.aliases[a], all)
  }

  ghost predicate HygienicAlias(alias: Alias, all: set<Name>) {
    && DistinctNames(alias.params) && NameSet(alias.params) <= all
    && InScope(alias.body, NameSet(alias.params), all)
    && DefaultsInScope(alias.params, {}, all)
  }

  /** Each default mentions only `earlier` and the parameters before its own. */
  ghost predicate DefaultsInScope(params: seq<Parameter>, earlier: set<Name>, all: set<Name>) {
    params != [] ==>
      && (params[0].default.Some? ==> InScope(params[0].default.value, earlier, all))
      && DefaultsInScope(params[1..], earlier + {params[0].name}, all)
  }

  lemma {:induction false} AvoidsFewer(t: Type, names: set<Name>, fewer: set<Name>)
    requires Avoids(t, names) && fewer <= names
    ensures Avoids(t, fewer)
    decreases t
  {
    match t
    case Paren(inner) => AvoidsFewer(inner, names, fewer);
    case Operator(_, inner) => AvoidsFewer(inner, names, fewer);
    case Union(members) => forall i | 0 <= i < |members| { AvoidsFewer(members[i], names, fewer); }
    case Intersection(members) => forall i | 0 <= i < |members| { AvoidsFewer(members[i], names, fewer); }
    case Ref(name, args) => forall i | 0 <= i < |args| { AvoidsFewer(args[i], names, fewer); }
    case Literal(signatures) =>
      forall i | 0 <= i < |signatures| ensures SignatureAvoids(signatures[i], fewer) {
        match signatures[i]
        case Property(_, annotation) => if annotation.Some? { AvoidsFewer(annotation.value, names, fewer); }
        case IndexSignature(annotation) => if annotation.Some? { AvoidsFewer(annotation.value, names, fewer); }
        case _ =>
      }
    case Mapped(value) => if value.Some? { AvoidsFewer(value.value, names, fewer); }
    case _ =>
  }

  lemma {:induction false} AvoidsUnwrap(t: Type, names: set<Name>)
    ensures Avoids(t, names) == Avoids(Unwrap(t), names)
  {
    match t
    case Paren(inner) => AvoidsUnwrap(inner, names);
    case Operator(readonly, inner) => if readonly { AvoidsUnwrap(inner, names); }
    case _ =>
  }

  /** Outside `names`, the two closings bind the same. */
  ghost predicate AgreeOutside(a: Closing, b: Closing, names: set<Name>) {
    forall n :: n !in names ==> (n in a <==> n in b) && (n in a ==> a[n] == b[n])
  }

  lemma {:induction false} ApplyAgree(a: Closing, b: Closing, t: Type, names: set<Name>)
    requires Avoids(t, names) && AgreeOutside(a, b, names)
    ensures Apply(a, t) == Apply(b, t)
    decreases t
  {
    match t
    case Paren(inner) => ApplyAgree(a, b, inner, names);
    case Operator(_, inner) => ApplyAgree(a, b, inner, names);
    case Union(members) =>
      forall i | 0 <= i < |members| { ApplyAgree(a, b, members[i], names); }
      assert ApplyAll(a, members) == ApplyAll(b, members);
    case Intersection(members) =>
      forall i | 0 <= i < |members| { ApplyAgree(a, b, members[i], names); }
      assert ApplyAll(a, members) == ApplyAll(b, members);
    case Ref(name, args) =>
      forall i | 0 <= i < |args| { ApplyAgree(a, b, args[i], names); }
      assert ApplyAll(a, args) == ApplyAll(b, args);
    case Literal(signatures) =>
      forall i | 0 <= i < |signatures| ensures ApplySignature(a, signatures[i]) == ApplySignature(b, signatures[i]) {
        assert SignatureAvoids(signatures[i], names);
        match signatures[i]
        case Property(_, annotation) => if annotation.Some? { ApplyAgree(a, b, annotation.value, names); }
        case IndexSignature(annotation) => if annotation.Some? { ApplyAgree(a, b, annotation.value, names); }
        case _ =>
      }
      assert ApplySignatures(a, signatures) == ApplySignatures(b, signatures);
    case Mapped(value) => if value.Some? { ApplyAgree(a, b, value.value, names); }
    case _ =>
  }

  ghost function Names(order: seq<Name>): set<Name> {
    set n | n in order
  }

  /** A scope: `order` lists the parameters that are live, oldest first; each is
      bound to a type over the ones before it, and `theta` closes them all. Bound
      names outside `order` are left-overs that nothing live mentions. */
  ghost predicate Scope(all: set<Name>, subs: Substitutions, theta: Closing, order: seq<Name>) {
    && Names(order) == theta.Keys && theta.Keys <= subs.Keys && subs.Keys <= all
    && Distinct(order)
    && Normal(theta)
    && forall i | 0 <= i < |order| :: BoundInScope(all, subs, theta, order, i)
  }

  ghost predicate BoundInScope(all: set<Name>, subs: Substitutions, theta: Closing, order: seq<Name>, i: nat)
    requires i < |order| && order[i] in subs && order[i] in theta
  {
    var bound := subs[order[i]];
    && InScope(bound, Names(order[..i]), all)
    && theta[order[i]] == Apply(theta, bound)
    && IsSettled(bound, all)
  }

  /** Not a reference that could be looked up again. */
  ghost predicate IsSettled(t: Type, all: set<Name>) {
    !(Unwrap(t).Ref? && Unwrap(t).name in all)
  }

  /** Resolving an argument does not change what it stands for. */
  lemma ResolvedMeans(all: set<Name>, subs: Substitutions, theta: Closing, order: seq<Name>, arg: Type)
    requires Scope(all, subs, theta, order) && InScope(arg, Names(order), all)
    ensures var r := ResolvedArgument(arg, subs);
            IsSettled(r, all) && InScope(r, Names(order), all) && Apply(theta, r) == Apply(theta, arg)
  {
    var u := Unwrap(arg);
    AvoidsUnwrap(arg, all - Names(order));
    ApplyUnwrap(theta, arg);
    if u.Ref? && u.name in all {
      var i :| 0 <= i < |order| && order[i] == u.name;
      assert BoundInScope(all, subs, theta, order, i);
      AvoidsFewer(subs[u.name], all - Names(order[..i]), all - Names(order));
    }
  }

  /** One parameter more. */
  lemma ExtendScope(all: set<Name>, subs: Substitutions, theta: Closing, order: seq<Name>, p: Name, arg: Type)
    requires Scope(all, subs, theta, order) && InScope(arg, Names(order), all)
    requires p in all && p !in order
    ensures Scope(all, subs[p := ResolvedArgument(arg, subs)], theta[p := Apply(theta, arg)], order + [p])
  {
    var r := ResolvedArgument(arg, subs);
    var subs', theta', order' := subs[p := r], theta[p := Apply(theta, arg)], order + [p];
    ResolvedMeans(all, subs, theta, order, arg);
    ApplyNormal(theta, arg);
    assert order'[..|order|] == order;
    forall i | 0 <= i < |order'| ensures BoundInScope(all, subs', theta', order', i) {
      var bound := subs'[order'[i]];
      var outside := all - Names(order);
      if i < |order| {
        assert order'[..i] == order[..i];
        assert BoundInScope(all, subs, theta, order, i);
        AvoidsFewer(bound, all - Names(order[..i]), outside);
      }
      ApplyAgree(theta, theta', bound, outside);
    }
  }

  /** Part-way through binding the parameters of an alias: `params` and `args`
      are what is left, `caller` is what the arguments may mention, `outer` closes
      it, and `inst` is the instance built so far. */
  ghost predicate Binding(
    all: set<Name>, params: seq<Parameter>, args: seq<Type>, subs: Substitutions, theta: Closing,
    order: seq<Name>, outer: Closing, caller: set<Name>, inst: Closing)
  {
    && Scope(all, subs, theta, order)
    && DistinctNames(params) && NameSet(params) <= all && NameSet(params) !! Names(order)
    && Normal(outer) && caller <= outer.Keys <= all && Extends(theta, outer, caller)
    && (forall i :: 0 <= i < |args| ==> InScope(args[i], caller, all))
    && Extends(theta, inst, inst.Keys)
    && DefaultsInScope(params, inst.Keys, all)
  }

  /** `theta` binds `names` as `part` does. */
  ghost predicate Extends(theta: Closing, part: Closing, names: set<Name>) {
    names <= theta.Keys && forall n :: n in names ==> n in part && theta[n] == part[n]
  }

  lemma ApplyExtends(all: set<Name>, theta: Closing, part: Closing, names: set<Name>, t: Type)
    requires Extends(theta, part, names) && InScope(t, names, all)
    requires theta.Keys <= all && part.Keys <= all
    ensures Apply(theta, t) == Apply(part, t)
  {
    ApplyAgree(theta, part, t, all - names);
  }

  lemma ExtendsMore(theta: Closing, part: Closing, names: set<Name>, p: Name, closed: Type)
    requires Extends(theta, part, names) && p !in theta
    ensures Extends(theta[p := closed], part, names) && Extends(theta[p := closed], part[p := closed], names + {p})
  {
  }

  lemma BindOne(
    all: set<Name>, params: seq<Parameter>, args: seq<Type>, subs: Substitutions, theta: Closing,
    order: seq<Name>, outer: Closing, caller: set<Name>, inst: Closing, arg: Type)
    requires params != [] && Binding(all, params, args, subs, theta, order, outer, caller, inst)
    requires if args != [] then arg == args[0] else params[0].default == Some(arg)
    ensures var (p, closed) := (params[0].name, Apply(theta, arg));
            && closed == (if args != [] then Apply(map[], ApplyAll(outer, args)[0]) else Apply(inst, arg))
            && Binding(all, params[1..], if args == [] then [] else args[1..],
                 subs[p := ResolvedArgument(arg, subs)], theta[p := closed], order + [p], outer, caller,
                 inst[p := closed])
  {
    hide Binding, Apply;
    ArgumentCloses(all, params, args, subs, theta, order, outer, caller, inst, arg);
    BindingGrows(all, params, args, subs, theta, order, outer, caller, inst, arg);
  }

  /** An argument closes as its caller closes it, a default as the instance does. */
  lemma ArgumentCloses(
    all: set<Name>, params: seq<Parameter>, args: seq<Type>, subs: Substitutions, theta: Closing,
    order: seq<Name>, outer: Closing, caller: set<Name>, inst: Closing, arg: Type)
    requires params != [] && Binding(all, params, args, subs, theta, order, outer, caller, inst)
    requires if args != [] then arg == args[0] else params[0].default == Some(arg)
    ensures Apply(theta, arg) == if args != [] then Apply(map[], ApplyAll(outer, args)[0]) else Apply(inst, arg)
  {
    assert theta.Keys <= all by { assert Scope(all, subs, theta, order); }
    hide Scope;
    if args != [] {
      ApplyNormal(outer, arg);
      ApplyExtends(all, theta, outer, caller, arg);
    } else {
      ApplyExtends(all, theta, inst, inst.Keys, arg);
    }
  }

  lemma BindingGrows(
    all: set<Name>, params: seq<Parameter>, args: seq<Type>, subs: Substitutions, theta: Closing,
    order: seq<Name>, outer: Closing, caller: set<Name>, inst: Closing, arg: Type)
    requires params != [] && Binding(all, params, args, subs, theta, order, outer, caller, inst)
    requires if args != [] then arg == args[0] else params[0].default == Some(arg)
    ensures var (p, closed) := (params[0].name, Apply(theta, arg));
            Binding(all, params[1..], if args == [] then [] else args[1..],
              subs[p := ResolvedArgument(arg, subs)], theta[p := closed], order + [p], outer, caller, inst[p := closed])
  {
    var p := params[0].name;
    var scope := if args != [] then caller else inst.Keys;
    assert p in NameSet(params) && NameSet(params[1..]) <= NameSet(params);
    AvoidsFewer(arg, all - scope, all - Names(order));
    ExtendScope(all, subs, theta, order, p, arg);
    assert theta.Keys == Names(order) && theta.Keys <= all && p !in order;
    hide Scope, Normal, Apply;
    assert Names(order + [p]) == Names(order) + {p};
    var closed := Apply(theta, arg);
    ExtendsMore(theta, outer, caller, p, closed);
    ExtendsMore(theta, inst, inst.Keys, p, closed);
    hide Extends;
    assert inst[p := closed].Keys == inst.Keys + {p};
    assert NameSet(params[1..]) !! {p};
  }

  /** What binding `params` gives: the scope grew by them, and where both sides
      succeed the new closing extends the instance. */
  ghost predicate Bound(
    all: set<Name>, result: Option<Substitutions>, instance: Option<Closing>, order: seq<Name>, own: set<Name>,
    theta: Closing)
  {
    && (result.Some? <==> instance.Some?)
    && (result.Some? ==>
          && Scope(all, result.value, theta, order)
          && Extends(theta, instance.value, instance.value.Keys)
          && own <= instance.value.Keys <= theta.Keys)
  }

  /** Binding the parameters of an alias extends the scope by them, and closes
      them as the alias's instance does. */
  lemma {:induction false} BindScope(
    all: set<Name>, params: seq<Parameter>, args: seq<Type>, subs: Substitutions, theta: Closing,
    order: seq<Name>, outer: Closing, caller: set<Name>, inst: Closing)
    returns (theta': Closing)
    requires Binding(all, params, args, subs, theta, order, outer, caller, inst)
    ensures Bound(all, BindParameters(params, args, subs), Instance(params, ApplyAll(outer, args), inst),
                  order + NameList(params), inst.Keys + NameSet(params), theta')
    decreases |params|
  {
    theta' := theta;
    if params == [] {
      assert order + NameList(params) == order;
    } else if args != [] || params[0].default.Some? {
      var p := params[0].name;
      var arg := if args != [] then args[0] else params[0].default.value;
      var rest := if args == [] then [] else args[1..];
      var closed := Apply(theta, arg);
      BindOne(all, params, args, subs, theta, order, outer, caller, inst, arg);
      theta' := BindScope(all, params[1..], rest, subs[p := ResolvedArgument(arg, subs)],
                          theta[p := closed], order + [p], outer, caller, inst[p := closed]);
      BindUnfold(params, args, subs, outer, inst, arg, closed);
      BindNames(params, order, inst, closed);
    }
  }

  lemma BindNames(params: seq<Parameter>, order: seq<Name>, inst: Closing, closed: Type)
    requires params != []
    ensures order + [params[0].name] + NameList(params[1..]) == order + NameList(params)
    ensures inst[params[0].name := closed].Keys + NameSet(params[1..]) == inst.Keys + NameSet(params)
  {
    var p := params[0].name;
    assert NameSet(params) == {p} + NameSet(params[1..]);
    assert NameList(params) == [p] + NameList(params[1..]);
    assert inst[p := closed].Keys == inst.Keys + {p};
  }

  lemma BindUnfold(
    params: seq<Parameter>, args: seq<Type>, subs: Substitutions, outer: Closing, inst: Closing, arg: Type, closed: Type)
    requires params != []
    requires if args != [] then arg == args[0] && closed == Apply(map[], ApplyAll(outer, args)[0])
             else params[0].default == Some(arg) && closed == Apply(inst, arg)
    ensures var (p, rest) := (params[0].name, if args == [] then [] else args[1..]);
            && BindParameters(params, args, subs)
               == BindParameters(params[1..], rest, subs[p := ResolvedArgument(arg, subs)])
            && Instance(params, ApplyAll(outer, args), inst)
               == Instance(params[1..], ApplyAll(outer, rest), inst[p := closed])
  {
    if args == [] {
      assert ApplyAll(outer, args) == [] == ApplyAll(outer, []);
    } else {
      assert ApplyAll(outer, args)[1..] == ApplyAll(outer, args[1..]);
    }
  }

  /** Every live parameter belongs to an alias in `owners`. */
  ghost predicate Owned(env: Environment, order: seq<Name>, owners: set<Name>) {
    forall i :: 0 <= i < |order| ==> HasOwner(env, order[i], owners)
  }

  ghost predicate HasOwner(env: Environment, p: Name, owners: set<Name>) {
    exists a :: a in owners && Owns(env, a, p)
  }

  ghost predicate Owns(env: Environment, a: Name, p: Name) {
    a in env.aliases && p in NameSet(env.aliases[a].params)
  }

  /** Going into an alias whose parameters are not live. */
  lemma Enter(
    env: Environment, all: set<Name>, a: Name, args: seq<Type>, subs: Substitutions, theta: Closing,
    order: seq<Name>, owners: set<Name>)
    returns (theta': Closing)
    requires HygienicOver(env, all) && a in env.aliases && a !in owners
    requires Scope(all, subs, theta, order) && Owned(env, order, owners)
    requires forall i :: 0 <= i < |args| ==> InScope(args[i], Names(order), all)
    ensures var alias := env.aliases[a];
            var next := BindParameters(alias.params, args, subs);
            var body := Expansion(alias, ApplyAll(theta, args));
            var order' := order + NameList(alias.params);
            && (next.Some? <==> body.Some?)
            && (next.Some? ==>
                  && Scope(all, next.value, theta', order')
                  && Owned(env, order', owners + {a})
                  && InScope(alias.body, Names(order'), all)
                  && Apply(theta', alias.body) == body.value)
  {
    var alias := env.aliases[a];
    assert HygienicAlias(alias, all);
    NotOwned(env, a, order, owners);
    OwnedMore(env, a, order, owners);
    hide Owned, HygienicOver;
    var none: Closing := map[];
    assert none.Keys == {};
    theta' := BindScope(all, alias.params, args, subs, theta, order, theta, Names(order), none);
    if BindParameters(alias.params, args, subs).Some? {
      var inst := Instance(alias.params, ApplyAll(theta, args), none).value;
      var own := NameSet(alias.params);
      InstanceKeys(alias.params, ApplyAll(theta, args), none);
      NamesMore(order, alias.params);
      hide Scope;
      AvoidsFewer(alias.body, all - own, all - Names(order + NameList(alias.params)));
      ApplyExtends(all, theta', inst, own, alias.body);
    }
  }

  lemma NamesMore(order: seq<Name>, params: seq<Parameter>)
    ensures Names(order + NameList(params)) == Names(order) + NameSet(params)
  {
    assert forall i :: 0 <= i < |params| ==> (order + NameList(params))[|order| + i] == params[i].name;
  }

  lemma OwnedMore(env: Environment, a: Name, order: seq<Name>, owners: set<Name>)
    requires a in env.aliases && Owned(env, order, owners)
    ensures Owned(env, order + NameList(env.aliases[a].params), owners + {a})
  {
    var params := env.aliases[a].params;
    var order' := order + NameList(params);
    forall i | 0 <= i < |order'| ensures HasOwner(env, order'[i], owners + {a}) {
      if i < |order| {
        assert HasOwner(env, order[i], owners);
        var b :| b in owners && Owns(env, b, order[i]);
        assert b in owners + {a} && Owns(env, b, order'[i]);
      } else {
        assert params[i - |order|] in params;
        assert Owns(env, a, order'[i]);
      }
    }
  }

  lemma NotOwned(env: Environment, a: Name, order: seq<Name>, owners: set<Name>)
    requires Owned(env, order, owners) && a in env.aliases && a !in owners
    requires forall a, b | a in env.aliases && b in env.aliases && a != b ::
               NameSet(env.aliases[a].params) !! NameSet(env.aliases[b].params)
    ensures NameSet(env.aliases[a].params) !! Names(order)
  {
    forall i | 0 <= i < |order| ensures order[i] !in NameSet(env.aliases[a].params) {
      assert HasOwner(env, order[i], owners);
      var b :| b in owners && Owns(env, b, order[i]);
    }
  }

  lemma {:induction false} InstanceKeys(params: seq<Parameter>, args: seq<Type>, inst: Closing)
    requires Instance(params, args, inst).Some?
    ensures Instance(params, args, inst).value.Keys == inst.Keys + NameSet(params)
  {
    if params != [] {
      var rest := if args == [] then [] else args[1..];
      var closed := if args != [] then Apply(map[], args[0]) else Apply(inst, params[0].default.value);
      InstanceKeys(params[1..], rest, inst[params[0].name := closed]);
      assert NameSet(params) == {params[0].name} + NameSet(params[1..]);
    }
  }

  lemma {:induction false} BindKeys(params: seq<Parameter>, args: seq<Type>, subs: Substitutions)
    requires BindParameters(params, args, subs).Some?
    ensures BindParameters(params, args, subs).value.Keys == subs.Keys + NameSet(params)
  {
    if params != [] {
      var rest := if args == [] then [] else args[1..];
      var arg := if args != [] then args[0] else params[0].default.value;
      BindKeys(params[1..], rest, subs[params[0].name := ResolvedArgument(arg, subs)]);
      assert NameSet(params) == {params[0].name} + NameSet(params[1..]);
    }
  }

  lemma ArgumentsInScope(u: Type, order: seq<Name>, top: nat, all: set<Name>)
    requires u.Ref? && top <= |order| && InScope(u, Names(order[..top]), all)
    ensures forall i :: 0 <= i < |u.args| ==> InScope(u.args[i], Names(order), all)
  {
    forall i | 0 <= i < |u.args| ensures InScope(u.args[i], Names(order), all) {
      AvoidsFewer(u.args[i], all - Names(order[..top]), all - Names(order));
    }
  }
}
