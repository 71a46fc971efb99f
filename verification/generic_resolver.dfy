/** The resolver on programs with generic aliases: when parameter names do not
    clash it terminates, and what it reports is really there once every alias is
    expanded by substitution. */
module GenericResolver {
  import opened DictionaryTypes
  import opened Options
  import opened ParameterScope
  import opened Substitution
  import opened TypeEnvironment
  import opened TypeMeaning
  import opened TypeSyntax

  /** Whatever is bound, the body of `a` is found safe. */
  ghost predicate DeadEnd(env: Environment, all: set<Name>, a: Name) {
    a in env.aliases && exists n: nat :: AlwaysSafe(n, env, all, a)
  }

  ghost predicate AlwaysSafe(n: nat, env: Environment, all: set<Name>, a: Name)
    requires a in env.aliases
  {
    forall subs: Substitutions, resolving: set<Name> | subs.Keys <= all ::
      DirectValue(n, env.aliases[a].body, env, subs, resolving) == Done(None)
  }

  ghost predicate Ready(
    env: Environment, all: set<Name>, t: Type, subs: Substitutions, resolving: set<Name>, theta: Closing,
    order: seq<Name>, top: nat, dead: set<Name>)
  {
    && HygienicOver(env, all) && Scope(all, subs, theta, order)
    && Owned(env, order, resolving + dead) && (forall a :: a in dead ==> DeadEnd(env, all, a))
    && top <= |order| && InScope(t, Names(order[..top]), all)
  }

  /** `unsafeDirectValue` stops, and a reason it gives is the one that the closed
      type has under the reference meaning. */
  lemma {:induction false} DirectValueSound(
    env: Environment, all: set<Name>, t: Type, subs: Substitutions, resolving: set<Name>, theta: Closing,
    order: seq<Name>, top: nat, dead: set<Name>)
    returns (depth: nat, k: nat)
    requires Ready(env, all, t, subs, resolving, theta, order, top, dead)
    ensures DirectValue(depth, t, env, subs, resolving).Done?
    ensures var v := DirectValue(depth, t, env, subs, resolving).result; v.Some? ==> KindAt(k, Apply(theta, t), env) == v
    decreases env.aliases.Keys - resolving, top, t
  {
    hide Scope, HygienicOver, Owned, KindAt, SomeMember, EachMember;
    var u := Unwrap(t);
    AvoidsUnwrap(t, all - Names(order[..top]));
    ApplyUnwrap(theta, t);
    if u.Union? {
      depth, k := SomeMemberSound(env, all, u, u.members, 0, subs, resolving, theta, order, top, dead);
      UnionVerdict(depth, k, u, env, subs, resolving, theta);
      depth := depth + 1;
    } else if u.Intersection? {
      depth, k := EachMemberSound(env, all, u, u.members, 0, subs, resolving, theta, order, top, dead);
      IntersectionVerdict(depth, k, u, env, subs, resolving, theta);
      depth := depth + 1;
    } else if u.Ref? {
      depth, k := ReferenceSound(env, all, u, subs, resolving, theta, order, top, dead);
    } else {
      depth, k := 1, 0;
      LeafVerdict(u, env, subs, resolving, theta);
    }
    assert DirectValue(depth, t, env, subs, resolving) == DirectValue(depth, u, env, subs, resolving);
  }

  lemma UnionVerdict(
    depth: nat, k: nat, u: Type, env: Environment, subs: Substitutions, resolving: set<Name>, theta: Closing)
    requires u.Union? && SomeMember(depth, u.members, 0, env, subs, resolving).Done?
    requires SomeMember(depth, u.members, 0, env, subs, resolving).result ==>
               exists j :: 0 <= j < |u.members| && KindAt(k, ApplyAll(theta, u.members)[j], env).Some?
    ensures DirectValue(depth + 1, u, env, subs, resolving).Done?
    ensures var v := DirectValue(depth + 1, u, env, subs, resolving).result;
            v.Some? ==> KindAt(k, Apply(theta, u), env) == v
  {
  }

  lemma IntersectionVerdict(
    depth: nat, k: nat, u: Type, env: Environment, subs: Substitutions, resolving: set<Name>, theta: Closing)
    requires u.Intersection? && EachMember(depth, u.members, 0, env, subs, resolving).Done?
    requires var vs := EachMember(depth, u.members, 0, env, subs, resolving).result;
             forall j :: 0 <= j < |vs| && vs[j].Some? ==> KindAt(k, ApplyAll(theta, u.members)[j], env) == vs[j]
    ensures DirectValue(depth + 1, u, env, subs, resolving).Done?
    ensures var v := DirectValue(depth + 1, u, env, subs, resolving).result;
            v.Some? ==> KindAt(k, Apply(theta, u), env) == v
  {
    var vs := EachMember(depth, u.members, 0, env, subs, resolving).result;
    if Meet(vs).Some? { MeetKept(vs, KindsAt(k, ApplyAll(theta, u.members), env)); }
  }

  lemma LeafVerdict(u: Type, env: Environment, subs: Substitutions, resolving: set<Name>, theta: Closing)
    requires u == Unwrap(u) && !u.Union? && !u.Intersection? && !u.Ref?
    ensures DirectValue(1, u, env, subs, resolving).Done?
    ensures var v := DirectValue(1, u, env, subs, resolving).result; v.Some? ==> KindAt(0, Apply(theta, u), env) == v
  {
    if u.Literal? && AllEffectivelyEmpty(u.signatures) { EmptinessApplied(theta, u.signatures); }
  }

  lemma {:induction false} SomeMemberSound(
    env: Environment, all: set<Name>, parent: Type, ts: seq<Type>, i: nat, subs: Substitutions, resolving: set<Name>,
    theta: Closing, order: seq<Name>, top: nat, dead: set<Name>)
    returns (depth: nat, k: nat)
    requires i <= |ts| && forall j :: 0 <= j < |ts| ==> ts[j] < parent
    requires forall j :: 0 <= j < |ts| ==> Ready(env, all, ts[j], subs, resolving, theta, order, top, dead)
    ensures SomeMember(depth, ts, i, env, subs, resolving).Done?
    ensures SomeMember(depth, ts, i, env, subs, resolving).result ==>
              exists j :: i <= j < |ts| && KindAt(k, ApplyAll(theta, ts)[j], env).Some?
    decreases env.aliases.Keys - resolving, top, parent, |ts| - i
  {
    depth, k := 0, 0;
    if i < |ts| {
      depth, k := DirectValueSound(env, all, ts[i], subs, resolving, theta, order, top, dead);
      var v := DirectValue(depth, ts[i], env, subs, resolving).result;
      if v.Some? {
        assert KindAt(k, ApplyAll(theta, ts)[i], env).Some?;
      } else {
        var depth', k' := SomeMemberSound(env, all, parent, ts, i + 1, subs, resolving, theta, order, top, dead);
        var deep := if depth < depth' then depth' else depth;
        DirectValueDeeper(depth, deep, ts[i], env, subs, resolving);
        SomeMemberDeeper(depth', deep, ts, i + 1, env, subs, resolving);
        depth, k := deep, k';
      }
    }
  }

  lemma {:induction false} EachMemberSound(
    env: Environment, all: set<Name>, parent: Type, ts: seq<Type>, i: nat, subs: Substitutions, resolving: set<Name>,
    theta: Closing, order: seq<Name>, top: nat, dead: set<Name>)
    returns (depth: nat, k: nat)
    requires i <= |ts| && forall j :: 0 <= j < |ts| ==> ts[j] < parent
    requires forall j :: 0 <= j < |ts| ==> Ready(env, all, ts[j], subs, resolving, theta, order, top, dead)
    ensures EachMember(depth, ts, i, env, subs, resolving).Done?
    ensures var vs := EachMember(depth, ts, i, env, subs, resolving).result;
            forall j :: i <= j < |ts| && vs[j - i].Some? ==> KindAt(k, ApplyAll(theta, ts)[j], env) == vs[j - i]
    decreases env.aliases.Keys - resolving, top, parent, |ts| - i
  {
    depth, k := 0, 0;
    if i < |ts| {
      var depth0, k0 := DirectValueSound(env, all, ts[i], subs, resolving, theta, order, top, dead);
      var depth1, k1 := EachMemberSound(env, all, parent, ts, i + 1, subs, resolving, theta, order, top, dead);
      depth, k := if depth0 < depth1 then depth1 else depth0, if k0 < k1 then k1 else k0;
      DirectValueDeeper(depth0, depth, ts[i], env, subs, resolving);
      EachMemberDeeper(depth1, depth, ts, i + 1, env, subs, resolving);
      var vs := EachMember(depth, ts, i, env, subs, resolving).result;
      var rest := EachMember(depth1, ts, i + 1, env, subs, resolving).result;
      forall j | i <= j < |ts| && vs[j - i].Some? ensures KindAt(k, ApplyAll(theta, ts)[j], env) == vs[j - i] {
        if j == i { KindKept(k0, k, ApplyAll(theta, ts)[j], env); }
        else {
          assert vs[j - i] == rest[j - (i + 1)];
          KindKept(k1, k, ApplyAll(theta, ts)[j], env);
        }
      }
    }
  }

  lemma {:induction false} ReferenceSound(
    env: Environment, all: set<Name>, u: Type, subs: Substitutions, resolving: set<Name>, theta: Closing,
    order: seq<Name>, top: nat, dead: set<Name>)
    returns (depth: nat, k: nat)
    requires u.Ref? && Ready(env, all, u, subs, resolving, theta, order, top, dead)
    ensures DirectValue(depth, u, env, subs, resolving).Done?
    ensures var v := DirectValue(depth, u, env, subs, resolving).result; v.Some? ==> KindAt(k, Apply(theta, u), env) == v
    decreases env.aliases.Keys - resolving, top, u, 1
  {
    hide Owned, DeadEnd, HygienicAlias;
    var (name, args) := (u.name, u.args);
    if name in subs {
      assert !IsWrapper(name, env);
      var i := BoundAt(all, subs, theta, order, top, u);
      depth, k := 1, 0;
      if !IsUnappliedReferenceTo(subs[name], name) {
        depth, k := DirectValueSound(env, all, subs[name], subs, resolving, theta, order, i, dead);
        depth := depth + 1;
      }
    } else if IsWrapper(name, env) {
      depth, k := 1, 0;
      if args != [] {
        assert InScope(args[0], Names(order[..top]), all);
        depth, k := DirectValueSound(env, all, args[0], subs, resolving, theta, order, top, dead);
        depth := depth + 1;
      }
    } else if name !in env.interfaces && name in env.aliases && name !in resolving {
      depth, k := AliasSound(env, all, u, subs, resolving, theta, order, top, dead);
    } else {
      depth, k := 1, 0;
    }
  }

  /** Where a parameter stands in the scope, and what it is bound to there. */
  lemma BoundAt(
    all: set<Name>, subs: Substitutions, theta: Closing, order: seq<Name>, top: nat, u: Type)
    returns (i: nat)
    requires Scope(all, subs, theta, order) && top <= |order| && InScope(u, Names(order[..top]), all)
    requires u.Ref? && u.name in subs
    ensures i < top && order[i] == u.name && u.name in theta
    ensures InScope(subs[u.name], Names(order[..i]), all) && theta[u.name] == Apply(theta, subs[u.name])
  {
    i :| 0 <= i < top && order[i] == u.name;
    assert BoundInScope(all, subs, theta, order, i);
  }

  lemma {:induction false} AliasSound(
    env: Environment, all: set<Name>, u: Type, subs: Substitutions, resolving: set<Name>, theta: Closing,
    order: seq<Name>, top: nat, dead: set<Name>)
    returns (depth: nat, k: nat)
    requires u.Ref? && Ready(env, all, u, subs, resolving, theta, order, top, dead)
    requires u.name in env.aliases && u.name !in subs && u.name !in resolving
    requires !IsWrapper(u.name, env) && u.name !in env.interfaces
    ensures DirectValue(depth, u, env, subs, resolving).Done?
    ensures var v := DirectValue(depth, u, env, subs, resolving).result; v.Some? ==> KindAt(k, Apply(theta, u), env) == v
    decreases env.aliases.Keys - resolving, top, u, 0
  {
    hide Scope, HygienicOver, Owned, KindAt, DeadEnd, InScope, Names, DirectValue, Expansion, NameSet;
    var (name, alias) := (u.name, env.aliases[u.name]);
    ArgumentsInScope(u, order, top, all);
    AliasFacts(env, all, name, subs, theta, order);
    var next := BindParameters(alias.params, u.args, subs);
    if next.None? {
      depth, k := 1, 0;
      Unbound(env, u, subs, resolving);
    } else if name in dead {
      k := 0;
      depth := DeadEndStops(env, all, u, subs, resolving);
    } else {
      var theta' := Enter(env, all, name, u.args, subs, theta, order, resolving + dead);
      var order' := order + NameList(alias.params);
      assert order'[..|order'|] == order';
      assert resolving + dead + {name} == (resolving + {name}) + dead;
      depth, k := DirectValueSound(env, all, alias.body, next.value, resolving + {name}, theta', order', |order'|, dead);
      EnteredVerdict(depth, k, u, env, subs, resolving, theta, theta');
      depth, k := depth + 1, k + 1;
    }
  }

  lemma Unbound(env: Environment, u: Type, subs: Substitutions, resolving: set<Name>)
    requires u.Ref? && u.name in env.aliases && u.name !in subs && !IsWrapper(u.name, env) && u.name !in env.interfaces
    requires BindParameters(env.aliases[u.name].params, u.args, subs).None?
    ensures DirectValue(1, u, env, subs, resolving) == Done(None)
  {
  }

  lemma EnteredVerdict(
    depth: nat, k: nat, u: Type, env: Environment, subs: Substitutions, resolving: set<Name>, theta: Closing,
    theta': Closing)
    requires u.Ref? && u.name in env.aliases && u.name !in subs && u.name !in resolving && u.name !in theta
    requires !IsWrapper(u.name, env) && u.name !in env.interfaces
    requires BindParameters(env.aliases[u.name].params, u.args, subs).Some?
    requires Expansion(env.aliases[u.name], ApplyAll(theta, u.args)) == Some(Apply(theta', env.aliases[u.name].body))
    requires var next := BindParameters(env.aliases[u.name].params, u.args, subs).value;
             var body := env.aliases[u.name].body;
             var r := DirectValue(depth, body, env, next, resolving + {u.name});
             r.Done? && (r.result.Some? ==> KindAt(k, Apply(theta', body), env) == r.result)
    ensures DirectValue(depth + 1, u, env, subs, resolving).Done?
    ensures var v := DirectValue(depth + 1, u, env, subs, resolving).result;
            v.Some? ==> KindAt(k + 1, Apply(theta, u), env) == v
  {
  }

  lemma AliasFacts(
    env: Environment, all: set<Name>, a: Name, subs: Substitutions, theta: Closing, order: seq<Name>)
    requires HygienicOver(env, all) && Scope(all, subs, theta, order) && a in env.aliases && a !in subs
    ensures a !in theta && subs.Keys <= all && NameSet(env.aliases[a].params) <= all
  {
    assert HygienicAlias(env.aliases[a], all);
  }

  lemma DeadEndStops(env: Environment, all: set<Name>, u: Type, subs: Substitutions, resolving: set<Name>)
    returns (depth: nat)
    requires u.Ref? && DeadEnd(env, all, u.name) && subs.Keys <= all && NameSet(env.aliases[u.name].params) <= all
    requires u.name !in subs && !IsWrapper(u.name, env) && u.name !in env.interfaces && u.name !in resolving
    requires BindParameters(env.aliases[u.name].params, u.args, subs).Some?
    ensures DirectValue(depth, u, env, subs, resolving) == Done(None)
  {
    var n: nat :| AlwaysSafe(n, env, all, u.name);
    BindKeys(env.aliases[u.name].params, u.args, subs);
    depth := n + 1;
  }

  lemma EmptinessApplied(theta: Closing, signatures: seq<Signature>)
    requires AllEffectivelyEmpty(signatures)
    ensures AllEffectivelyEmpty(ApplySignatures(theta, signatures))
  {
    forall i | 0 <= i < |signatures| ensures IsEffectivelyEmptyMember(ApplySignatures(theta, signatures)[i]) {
      ApplyUnwrap(theta, signatures[i].annotation.value);
    }
  }

  /** Inside an alias that is not being resolved everything is ready again. */
  lemma ReadyInside(
    env: Environment, all: set<Name>, u: Type, subs: Substitutions, resolving: set<Name>, theta: Closing,
    order: seq<Name>, top: nat)
    returns (theta': Closing)
    requires u.Ref? && u.name in env.aliases && u.name !in resolving
    requires Ready(env, all, u, subs, resolving, theta, order, top, {})
    requires BindParameters(env.aliases[u.name].params, u.args, subs).Some?
    ensures var alias := env.aliases[u.name];
            var order' := order + NameList(alias.params);
            Ready(env, all, alias.body, BindParameters(alias.params, u.args, subs).value, resolving + {u.name}, theta',
                  order', |order'|, {})
  {
    hide Scope, HygienicOver, Owned;
    ArgumentsInScope(u, order, top, all);
    assert resolving + {} == resolving && (resolving + {u.name}) + {} == resolving + {u.name};
    theta' := Enter(env, all, u.name, u.args, subs, theta, order, resolving);
    var order' := order + NameList(env.aliases[u.name].params);
    assert order'[..|order'|] == order';
  }

  /** `dictionaryValueTypes` stops. */
  lemma {:induction false} ValueTypesStops(
    env: Environment, all: set<Name>, t: Type, subs: Substitutions, resolving: set<Name>, theta: Closing,
    order: seq<Name>, top: nat)
    returns (depth: nat)
    requires Ready(env, all, t, subs, resolving, theta, order, top, {})
    ensures ValueTypes(depth, t, env, subs, resolving).Done?
    decreases env.aliases.Keys - resolving, top, t
  {
    hide Scope, HygienicOver, Owned;
    depth := 1;
    var u := Unwrap(t);
    AvoidsUnwrap(t, all - Names(order[..top]));
    if u.Ref? {
      var (name, args) := (u.name, u.args);
      if name in subs {
        var i := BoundAt(all, subs, theta, order, top, u);
        if !IsUnappliedReferenceTo(subs[name], name) {
          depth := ValueTypesStops(env, all, subs[name], subs, resolving, theta, order, i);
          depth := depth + 1;
        }
      } else if IsWrapper(name, env) || (name in {"Pick", "Omit"} && IsBuiltIn(name, env)) {
        if args != [] {
          depth := ValueTypesStops(env, all, args[0], subs, resolving, theta, order, top);
          depth := depth + 1;
        }
      } else if name == "Record" && IsBuiltIn(name, env) {
      } else if name in env.aliases && name !in resolving {
        var alias := env.aliases[name];
        var next := BindParameters(alias.params, args, subs);
        if next.Some? {
          var theta' := ReadyInside(env, all, u, subs, resolving, theta, order, top);
          var order' := order + NameList(alias.params);
          depth := ValueTypesStops(env, all, alias.body, next.value, resolving + {name}, theta', order', |order'|);
          depth := depth + 1;
        }
      }
    }
  }

  /** The type mentions no alias's parameter. */
  ghost predicate IsQuery(t: Type, env: Environment) {
    InScope(t, {}, AllParameters(env))
  }

  /** `classifyUnsafeDictionaryValue` terminates on hygienic programs, and an unsafe
      value it reports is unsafe, for that very reason. */
  lemma ClassifyValueSound(t: Type, env: Environment)
    requires Hygienic(env) && IsQuery(t, env)
    ensures exists depth: nat :: ClassifyValue(depth, t, env).Done?
    ensures forall depth: nat, v :: ClassifyValue(depth, t, env) == Done(Some(v)) ==> Means(t, env, v)
  {
    var all := AllParameters(env);
    var subs: Substitutions := map[];
    assert subs.Keys == {};
    assert Names([]) == {};
    var enough, k := DirectValueSound(env, all, t, subs, {}, subs, [], 0, {});
    assert ClassifyValue(enough, t, env).Done?;
    forall depth: nat, v | ClassifyValue(depth, t, env) == Done(Some(v)) ensures Means(t, env, v) {
      DirectValueDeeper(depth, if depth < enough then enough else depth, t, env, subs, {});
      DirectValueDeeper(enough, if depth < enough then enough else depth, t, env, subs, {});
      KindNormal(k, t, env);
    }
  }
}
