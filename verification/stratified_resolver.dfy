/** The resolver on generic programs whose aliases and parameters have levels: it
    misses nothing, and the second phase of `classifyUnsafeDictionary` never comes
    back to an alias of the first. */
module StratifiedResolver {
  import opened AliasLevels
  import opened DictionaryTypes
  import opened GenericResolver
  import opened Options
  import opened ParameterScope
  import opened PlainResolver
  import opened Substitution
  import opened TypeEnvironment
  import opened TypeMeaning
  import opened TypeSyntax

  /** Where the resolver stands: what it has bound, and what it has passed. */
  datatype Place = Place(subs: Substitutions, theta: Closing, order: seq<Name>, passed: set<Name>)

  /** `t` may be looked at here, mentioning the first `top` live parameters. */
  ghost predicate At(env: Environment, all: set<Name>, level: Level, t: Type, p: Place, top: nat) {
    && Ready(env, all, t, p.subs, p.passed, p.theta, p.order, top, {})
    && Staged(env, all, level, t, p.subs, p.order, p.passed)
  }

  ghost predicate AllAt(env: Environment, all: set<Name>, level: Level, ts: seq<Type>, p: Place, top: nat) {
    forall i :: 0 <= i < |ts| ==> At(env, all, level, ts[i], p, top)
  }

  lemma UnwrappedAt(env: Environment, all: set<Name>, level: Level, t: Type, p: Place, top: nat)
    requires At(env, all, level, t, p, top)
    ensures At(env, all, level, Unwrap(t), p, top) && Apply(p.theta, t) == Apply(p.theta, Unwrap(t))
  {
    hide Staged;
    StagedUnwrap(env, all, level, t, p.subs, p.order, p.passed);
    AvoidsUnwrap(t, all - Names(p.order[..top]));
    ApplyUnwrap(p.theta, t);
  }

  lemma PartsAt(env: Environment, all: set<Name>, level: Level, u: Type, ts: seq<Type>, p: Place, top: nat)
    requires At(env, all, level, u, p, top)
    requires u == Union(ts) || u == Intersection(ts) || (u.Ref? && u.args == ts)
    ensures AllAt(env, all, level, ts, p, top)
  {
    hide Scope, HygienicOver, Owned, Stratified, Leveled, SignatureLayered, ArgumentsFlow;
    forall i | 0 <= i < |ts| ensures At(env, all, level, ts[i], p, top) {
      forall r | r in p.passed ensures Avoids(ts[i], AtLeast(env, all, level, level(r))) {
        assert Avoids(u, AtLeast(env, all, level, level(r)));
      }
    }
  }

  /** The values that a literal or a mapped type stores. */
  lemma SignaturesAt(env: Environment, all: set<Name>, level: Level, u: Type, p: Place, top: nat)
    requires At(env, all, level, u, p, top) && u.Literal?
    ensures AllAt(env, all, level, IndexValues(u.signatures), p, top)
  {
    hide Scope, HygienicOver, Owned, Stratified, Leveled, ArgumentsFlow;
    IndexValuesAt(env, all, level, u.signatures, p, top);
  }

  lemma {:induction false} IndexValuesAt(
    env: Environment, all: set<Name>, level: Level, ss: seq<Signature>, p: Place, top: nat)
    requires At(env, all, level, Literal(ss), p, top)
    ensures AllAt(env, all, level, IndexValues(ss), p, top)
  {
    hide Scope, HygienicOver, Owned, Stratified, Leveled, ArgumentsFlow;
    if ss != [] {
      forall r | r in p.passed ensures Avoids(Literal(ss[1..]), AtLeast(env, all, level, level(r))) {
        assert Avoids(Literal(ss), AtLeast(env, all, level, level(r)));
      }
      IndexValuesAt(env, all, level, ss[1..], p, top);
      if ss[0].IndexSignature? && ss[0].annotation.Some? {
        assert SignatureLayered(env, all, level, ss[0]) && SignatureAvoids(ss[0], all - Names(p.order[..top]));
        forall r | r in p.passed ensures Avoids(ss[0].annotation.value, AtLeast(env, all, level, level(r))) {
          assert Avoids(Literal(ss), AtLeast(env, all, level, level(r)));
          assert SignatureAvoids(ss[0], AtLeast(env, all, level, level(r)));
        }
      }
    }
  }

  /** A parameter that is met is live, and its binding may be looked at. */
  lemma ParameterAt(env: Environment, all: set<Name>, level: Level, u: Type, p: Place, top: nat) returns (i: nat)
    requires At(env, all, level, u, p, top) && u.Ref? && u.name in p.subs
    ensures At(env, all, level, p.subs[u.name], p, i) && u.name in p.theta
    ensures p.theta[u.name] == Apply(p.theta, p.subs[u.name]) && !IsUnappliedReferenceTo(p.subs[u.name], u.name)
    ensures !IsWrapper(u.name, env) && !IsBuiltIn(u.name, env)
  {
    i := BoundAt(all, p.subs, p.theta, p.order, top, u);
    assert BoundInScope(all, p.subs, p.theta, p.order, i);
    hide Staged, Owned;
    BoundStaged(env, all, level, u, p.subs, p.order, p.passed, i);
  }

  /** An alias that is met has not been passed; inside it lies a new place, where its
      body closes to the alias's expansion. */
  lemma AliasAt(env: Environment, all: set<Name>, level: Level, u: Type, p: Place, top: nat) returns (q: Place)
    requires At(env, all, level, u, p, top) && u.Ref? && u.name in env.aliases && u.name !in p.subs
    ensures u.name !in p.passed && u.name !in p.theta
    ensures var alias := env.aliases[u.name];
            var next := BindParameters(alias.params, u.args, p.subs);
            && (next.Some? <==> Expansion(alias, ApplyAll(p.theta, u.args)).Some?)
            && (next.Some? ==>
                  && q.subs == next.value && q.passed == p.passed + {u.name}
                  && At(env, all, level, alias.body, q, |q.order|)
                  && Expansion(alias, ApplyAll(p.theta, u.args)) == Some(Apply(q.theta, alias.body)))
  {
    hide Staged, HygienicOver, Scope, Owned, Avoids, Expansion;
    var alias := env.aliases[u.name];
    NotPassed(env, all, level, u, p.subs, p.order, p.passed);
    AliasFacts(env, all, u.name, p.subs, p.theta, p.order);
    ArgumentsInScope(u, p.order, top, all);
    assert p.passed + {} == p.passed && (p.passed + {u.name}) + {} == p.passed + {u.name};
    var theta' := Enter(env, all, u.name, u.args, p.subs, p.theta, p.order, p.passed);
    var order' := p.order + NameList(alias.params);
    assert order'[..|order'|] == order';
    q := p;
    if BindParameters(alias.params, u.args, p.subs).Some? {
      StagedInside(env, all, level, u, p.subs, p.theta, p.order, top, p.passed);
      q := Place(BindParameters(alias.params, u.args, p.subs).value, theta', order', p.passed + {u.name});
    }
  }

  /** Every reason of the closed type is found. */
  lemma {:induction false} NothingMissed(
    env: Environment, all: set<Name>, level: Level, depth: nat, k: nat, t: Type, p: Place, top: nat)
    requires At(env, all, level, t, p, top) && DirectValue(depth, t, env, p.subs, p.passed).Done?
    requires KindAt(k, Apply(p.theta, t), env).Some?
    ensures DirectValue(depth, t, env, p.subs, p.passed).result == KindAt(k, Apply(p.theta, t), env)
    decreases depth, 1
  {
    hide At, KindAt, KindsAt, SomeMember, EachMember;
    var u := Unwrap(t);
    UnwrappedAt(env, all, level, t, p, top);
    if u.Union? {
      PartsAt(env, all, level, u, u.members, p, top);
      UnionHas(k, u, env, p.theta);
      SomeMemberFinds(env, all, level, depth - 1, k, u.members, 0, p, top);
    } else if u.Intersection? {
      PartsAt(env, all, level, u, u.members, p, top);
      EachMemberFinds(env, all, level, depth - 1, k, u.members, 0, p, top);
      var vs := EachMember(depth - 1, u.members, 0, env, p.subs, p.passed).result;
      IntersectionHas(k, u, env, p.theta, vs);
    } else if u.Ref? {
      ReferenceFinds(env, all, level, depth, k, u, p, top);
    } else {
      LeafFinds(env, all, level, depth, k, u, p, top);
    }
    assert DirectValue(depth, t, env, p.subs, p.passed) == DirectValue(depth, u, env, p.subs, p.passed);
  }

  lemma UnionHas(k: nat, u: Type, env: Environment, theta: Closing)
    requires u.Union? && KindAt(k, Apply(theta, u), env).Some?
    ensures KindAt(k, Apply(theta, u), env) == Some(UnionValue)
    ensures exists j :: 0 <= j < |u.members| && KindAt(k, ApplyAll(theta, u.members)[j], env).Some?
  {
  }

  lemma IntersectionHas(k: nat, u: Type, env: Environment, theta: Closing, vs: seq<Verdict>)
    requires u.Intersection? && KindAt(k, Apply(theta, u), env).Some? && |vs| == |u.members|
    requires forall j :: 0 <= j < |vs| && KindAt(k, ApplyAll(theta, u.members)[j], env).Some? ==>
               vs[j] == KindAt(k, ApplyAll(theta, u.members)[j], env)
    ensures Meet(vs) == KindAt(k, Apply(theta, u), env)
  {
    MeetKept(KindsAt(k, ApplyAll(theta, u.members), env), vs);
  }

  lemma LeafFinds(
    env: Environment, all: set<Name>, level: Level, depth: nat, k: nat, u: Type, p: Place, top: nat)
    requires At(env, all, level, u, p, top) && u == Unwrap(u) && !u.Union? && !u.Intersection? && !u.Ref?
    requires DirectValue(depth, u, env, p.subs, p.passed).Done? && KindAt(k, Apply(p.theta, u), env).Some?
    ensures DirectValue(depth, u, env, p.subs, p.passed).result == KindAt(k, Apply(p.theta, u), env)
  {
    if u.Literal? {
      forall i | 0 <= i < |u.signatures| ensures IsEffectivelyEmptyMember(u.signatures[i]) {
        assert IsEffectivelyEmptyMember(ApplySignatures(p.theta, u.signatures)[i]);
        assert SignatureLayered(env, all, level, u.signatures[i]);
        NeverStays(all, p.theta, u.signatures[i].annotation.value);
      }
    }
  }

  lemma NeverStays(all: set<Name>, theta: Closing, t: Type)
    requires theta.Keys <= all && IsSettled(t, all) && Unwrap(Apply(theta, t)) == Kw(NeverKw)
    ensures Unwrap(t) == Kw(NeverKw)
  {
    ApplyUnwrap(theta, t);
  }

  lemma {:induction false} SomeMemberFinds(
    env: Environment, all: set<Name>, level: Level, depth: nat, k: nat, ts: seq<Type>, i: nat, p: Place, top: nat)
    requires i <= |ts| && AllAt(env, all, level, ts, p, top)
    requires SomeMember(depth, ts, i, env, p.subs, p.passed).Done?
    requires exists j :: i <= j < |ts| && KindAt(k, ApplyAll(p.theta, ts)[j], env).Some?
    ensures SomeMember(depth, ts, i, env, p.subs, p.passed).result
    decreases depth, 2 + |ts| - i
  {
    hide At, KindAt, DirectValue;
    if DirectValue(depth, ts[i], env, p.subs, p.passed).result.None? {
      if KindAt(k, ApplyAll(p.theta, ts)[i], env).Some? { NothingMissed(env, all, level, depth, k, ts[i], p, top); }
      SomeMemberFinds(env, all, level, depth, k, ts, i + 1, p, top);
    }
  }

  lemma {:induction false} EachMemberFinds(
    env: Environment, all: set<Name>, level: Level, depth: nat, k: nat, ts: seq<Type>, i: nat, p: Place, top: nat)
    requires i <= |ts| && AllAt(env, all, level, ts, p, top)
    requires EachMember(depth, ts, i, env, p.subs, p.passed).Done?
    ensures var vs := EachMember(depth, ts, i, env, p.subs, p.passed).result;
            forall j :: i <= j < |ts| && KindAt(k, ApplyAll(p.theta, ts)[j], env).Some? ==>
                        vs[j - i] == KindAt(k, ApplyAll(p.theta, ts)[j], env)
    decreases depth, 2 + |ts| - i
  {
    hide At, KindAt, DirectValue;
    if i < |ts| {
      var rest := EachMember(depth, ts, i + 1, env, p.subs, p.passed).result;
      EachMemberFinds(env, all, level, depth, k, ts, i + 1, p, top);
      if KindAt(k, ApplyAll(p.theta, ts)[i], env).Some? { NothingMissed(env, all, level, depth, k, ts[i], p, top); }
      var vs := EachMember(depth, ts, i, env, p.subs, p.passed).result;
      assert vs[1..] == rest;
      forall j | i <= j < |ts| && KindAt(k, ApplyAll(p.theta, ts)[j], env).Some?
        ensures vs[j - i] == KindAt(k, ApplyAll(p.theta, ts)[j], env)
      {
        if j > i { assert vs[j - i] == rest[j - (i + 1)]; }
      }
    }
  }

  lemma {:induction false} ReferenceFinds(
    env: Environment, all: set<Name>, level: Level, depth: nat, k: nat, u: Type, p: Place, top: nat)
    requires u.Ref? && At(env, all, level, u, p, top) && DirectValue(depth, u, env, p.subs, p.passed).Done?
    requires KindAt(k, Apply(p.theta, u), env).Some?
    ensures DirectValue(depth, u, env, p.subs, p.passed).result == KindAt(k, Apply(p.theta, u), env)
    decreases depth, 0
  {
    hide At, Expansion, Apply, DirectValue, KindAt, BindParameters, IsWrapper, IsBuiltIn, IsUnappliedReferenceTo,
         IsEffectivelyEmptyInterface;
    var (name, args) := (u.name, u.args);
    OwnNamesAt(env, all, level, u, p, top);
    RunsSome(depth, u, env, p.subs, p.passed);
    ReferenceStep(depth, u, env, p.subs, p.passed);
    ReferenceKind(k, u, env, p.theta);
    if name in p.subs {
      var i := ParameterAt(env, all, level, u, p, top);
      NothingMissed(env, all, level, depth - 1, k, p.subs[name], p, i);
    } else if IsWrapper(name, env) {
      if args != [] {
        PartsAt(env, all, level, u, args, p, top);
        NothingMissed(env, all, level, depth - 1, k, args[0], p, top);
      }
    } else if name !in env.interfaces && name in env.aliases {
      var q := AliasAt(env, all, level, u, p, top);
      if BindParameters(env.aliases[name].params, args, p.subs).Some? {
        NothingMissed(env, all, level, depth - 1, k - 1, env.aliases[name].body, q, |q.order|);
      }
    }
  }

  lemma RunsSome(depth: nat, u: Type, env: Environment, subs: Substitutions, resolving: set<Name>)
    requires DirectValue(depth, u, env, subs, resolving).Done?
    ensures depth > 0
  {
  }

  /** One step of the meaning at a reference. */
  lemma ReferenceKind(k: nat, u: Type, env: Environment, theta: Closing)
    requires u.Ref?
    ensures var (name, args) := (u.name, ApplyAll(theta, u.args));
            KindAt(k, Apply(theta, u), env) ==
            if name in theta then KindAt(k, theta[name], env)
            else if IsWrapper(name, env) then (if args == [] then None else KindAt(k, args[0], env))
            else if name in env.interfaces then
              (if IsEffectivelyEmptyInterface(env.interfaces[name]) then Some(EmptyObjectValue) else None)
            else if k > 0 && name in env.aliases && Expansion(env.aliases[name], args).Some? then
              KindAt(k - 1, Expansion(env.aliases[name], args).value, env)
            else None
  {
  }

  lemma OwnNamesAt(env: Environment, all: set<Name>, level: Level, u: Type, p: Place, top: nat)
    requires u.Ref? && At(env, all, level, u, p, top)
    ensures u.name in p.theta ==> u.name in p.subs
    ensures u.name in p.subs ==> !IsWrapper(u.name, env) && !IsBuiltIn(u.name, env)
  {
    hide Staged, Owned;
  }

  /** Which of the passed aliases are remembered makes no difference: none is met again. */
  lemma {:induction false} ForgettingIsHarmless(
    env: Environment, all: set<Name>, level: Level, depth: nat, t: Type, p: Place, top: nat, kept: set<Name>)
    requires At(env, all, level, t, p, top) && kept <= p.passed
    ensures DirectValue(depth, t, env, p.subs, kept) == DirectValue(depth, t, env, p.subs, p.passed)
    decreases depth, 1
  {
    hide At;
    var u := Unwrap(t);
    UnwrappedAt(env, all, level, t, p, top);
    if depth > 0 {
      if u.Union? {
        PartsAt(env, all, level, u, u.members, p, top);
        ForgettingForSome(env, all, level, depth - 1, u.members, 0, p, top, kept);
      } else if u.Intersection? {
        PartsAt(env, all, level, u, u.members, p, top);
        ForgettingForEach(env, all, level, depth - 1, u.members, 0, p, top, kept);
      } else if u.Ref? {
        ForgettingAtReference(env, all, level, depth, u, p, top, kept);
      }
    }
  }

  lemma {:induction false} ForgettingForSome(
    env: Environment, all: set<Name>, level: Level, depth: nat, ts: seq<Type>, i: nat, p: Place, top: nat,
    kept: set<Name>)
    requires i <= |ts| && AllAt(env, all, level, ts, p, top) && kept <= p.passed
    ensures SomeMember(depth, ts, i, env, p.subs, kept) == SomeMember(depth, ts, i, env, p.subs, p.passed)
    decreases depth, 2 + |ts| - i
  {
    hide At, DirectValue;
    if i < |ts| {
      ForgettingIsHarmless(env, all, level, depth, ts[i], p, top, kept);
      ForgettingForSome(env, all, level, depth, ts, i + 1, p, top, kept);
    }
  }

  lemma {:induction false} ForgettingForEach(
    env: Environment, all: set<Name>, level: Level, depth: nat, ts: seq<Type>, i: nat, p: Place, top: nat,
    kept: set<Name>)
    requires i <= |ts| && AllAt(env, all, level, ts, p, top) && kept <= p.passed
    ensures EachMember(depth, ts, i, env, p.subs, kept) == EachMember(depth, ts, i, env, p.subs, p.passed)
    decreases depth, 2 + |ts| - i
  {
    hide At, DirectValue;
    if i < |ts| {
      ForgettingIsHarmless(env, all, level, depth, ts[i], p, top, kept);
      ForgettingForEach(env, all, level, depth, ts, i + 1, p, top, kept);
    }
  }

  lemma {:induction false} ForgettingAtReference(
    env: Environment, all: set<Name>, level: Level, depth: nat, u: Type, p: Place, top: nat, kept: set<Name>)
    requires u.Ref? && At(env, all, level, u, p, top) && kept <= p.passed && depth > 0
    ensures DirectValue(depth, u, env, p.subs, kept) == DirectValue(depth, u, env, p.subs, p.passed)
    decreases depth, 0
  {
    hide At, Expansion, Apply, DirectValue, BindParameters, IsWrapper, IsBuiltIn, IsUnappliedReferenceTo,
         IsEffectivelyEmptyInterface;
    var (name, args) := (u.name, u.args);
    OwnNamesAt(env, all, level, u, p, top);
    ReferenceStep(depth, u, env, p.subs, p.passed);
    ReferenceStep(depth, u, env, p.subs, kept);
    if name in p.subs {
      var i := ParameterAt(env, all, level, u, p, top);
      ForgettingIsHarmless(env, all, level, depth - 1, p.subs[name], p, i, kept);
    } else if IsWrapper(name, env) {
      if args != [] {
        PartsAt(env, all, level, u, args, p, top);
        ForgettingIsHarmless(env, all, level, depth - 1, args[0], p, top, kept);
      }
    } else if name in env.aliases {
      var q := AliasAt(env, all, level, u, p, top);
      if BindParameters(env.aliases[name].params, args, p.subs).Some? {
        ForgettingIsHarmless(env, all, level, depth - 1, env.aliases[name].body, q, |q.order|, kept + {name});
      }
    }
  }

  /** At any place, and whatever is remembered there, the resolver stops with exactly
      the reason of the closed type. */
  lemma ValueExact(
    env: Environment, all: set<Name>, level: Level, t: Type, p: Place, top: nat, kept: set<Name>)
    returns (depth: nat)
    requires At(env, all, level, t, p, top) && kept <= p.passed
    ensures DirectValue(depth, t, env, p.subs, kept).Done?
    ensures forall v :: DirectValue(depth, t, env, p.subs, kept).result == Some(v) <==> Means(Apply(p.theta, t), env, v)
  {
    var k: nat;
    depth, k := DirectValueSound(env, all, t, p.subs, p.passed, p.theta, p.order, top, {});
    ForgettingIsHarmless(env, all, level, depth, t, p, top, kept);
    hide At, DirectValue, KindAt;
    forall v | Means(Apply(p.theta, t), env, v) ensures DirectValue(depth, t, env, p.subs, kept).result == Some(v) {
      var l: nat :| KindAt(l, Apply(p.theta, t), env) == Some(v);
      NothingMissed(env, all, level, depth, l, t, p, top);
    }
  }

  /** On hygienic programs with levels `classifyUnsafeDictionaryValue` terminates and
      answers exactly the meaning. */
  lemma ClassifyValueStratified(t: Type, env: Environment, level: Level) returns (depth: nat)
    requires Hygienic(env) && IsQuery(t, env)
    requires Stratified(env, AllParameters(env), level) && Layered(env, AllParameters(env), level, t)
    ensures ClassifyValue(depth, t, env).Done?
    ensures forall v :: ClassifyValue(depth, t, env).result == Some(v) <==> Means(t, env, v)
  {
    var all := AllParameters(env);
    StartsAt(env, all, level, t);
    depth := ValueExact(env, all, level, t, ENTRY, 0, {});
    forall v ensures Means(Apply(map[], t), env, v) <==> Means(t, env, v) { NormalMeans(t, env, v); }
  }

  const ENTRY := Place(map[], map[], [], {})

  lemma StartsAt(env: Environment, all: set<Name>, level: Level, t: Type)
    requires HygienicOver(env, all) && InScope(t, {}, all)
    requires Stratified(env, all, level) && Layered(env, all, level, t)
    ensures At(env, all, level, t, ENTRY, 0)
  {
    hide Stratified, Layered, HygienicOver, InScope;
    NothingBound(all);
    assert Names([]) == {};
  }

  lemma NothingBound(all: set<Name>)
    ensures Scope(all, ENTRY.subs, ENTRY.theta, [])
  {
    assert Names([]) == {};
    assert ENTRY.theta.Keys == {} == ENTRY.subs.Keys;
  }

  lemma NormalMeans(t: Type, env: Environment, v: UnsafeValue)
    ensures Means(Apply(map[], t), env, v) <==> Means(t, env, v)
  {
    ApplyNormal(map[], t);
    if Means(t, env, v) { SameMeanings(t, Apply(map[], t), env, v); }
    if Means(Apply(map[], t), env, v) { SameMeanings(Apply(map[], t), t, env, v); }
  }

  // Dictionaries.

  /** What the first phase finds: types that may be looked at from one place, which
      there close to the types that the meaning stores from stage `k` on. */
  ghost predicate FoundAt(
    env: Environment, all: set<Name>, level: Level, vs: seq<ResolvedType>, closed: Type, k: nat, q: Place, reach: nat)
  {
    && vs == Under(TypesOf(vs), q.subs) && AllAt(env, all, level, TypesOf(vs), q, reach)
    && forall l: nat :: l >= k ==> ValuesAt(l, closed, env) == ApplyAll(q.theta, TypesOf(vs))
  }

  /** The first phase ends in one place, with the stored types of the closed type. */
  lemma {:induction false} ValuesFound(
    env: Environment, all: set<Name>, level: Level, depth: nat, t: Type, p: Place, top: nat)
    returns (k: nat, q: Place, reach: nat)
    requires At(env, all, level, t, p, top) && ValueTypes(depth, t, env, p.subs, p.passed).Done?
    ensures FoundAt(env, all, level, ValueTypes(depth, t, env, p.subs, p.passed).result, Apply(p.theta, t), k, q, reach)
    decreases depth, 1
  {
    hide At;
    var u := Unwrap(t);
    UnwrappedAt(env, all, level, t, p, top);
    k, q, reach := 0, p, top;
    var vs := ValueTypes(depth, t, env, p.subs, p.passed).result;
    if u.Literal? {
      SignaturesAt(env, all, level, u, p, top);
      IndexValuesApply(p.theta, u.signatures);
      assert TypesOf(vs) == IndexValues(u.signatures);
    } else if u.Mapped? {
      if u.value.Some? { MappedAt(env, all, level, u, p, top); }
    } else if u.Ref? {
      k, q, reach := ReferenceValuesFound(env, all, level, depth, u, p, top);
    }
  }

  lemma {:induction false} ReferenceValuesFound(
    env: Environment, all: set<Name>, level: Level, depth: nat, u: Type, p: Place, top: nat)
    returns (k: nat, q: Place, reach: nat)
    requires u.Ref? && At(env, all, level, u, p, top) && ValueTypes(depth, u, env, p.subs, p.passed).Done?
    ensures FoundAt(env, all, level, ValueTypes(depth, u, env, p.subs, p.passed).result, Apply(p.theta, u), k, q, reach)
    decreases depth, 0
  {
    hide At, Expansion, Apply, ValueTypes, ValuesAt, BindParameters, IsWrapper, IsBuiltIn, IsUnappliedReferenceTo;
    var (name, args) := (u.name, u.args);
    OwnNamesAt(env, all, level, u, p, top);
    FindsSome(depth, u, env, p.subs, p.passed);
    ValueStep(depth, u, env, p.subs, p.passed);
    forall l: nat { ReferenceValues(l, u, env, p.theta); }
    k, q, reach := 0, p, top;
    if name in p.subs {
      var i := ParameterAt(env, all, level, u, p, top);
      k, q, reach := ValuesFound(env, all, level, depth - 1, p.subs[name], p, i);
    } else if IsWrapper(name, env) || (name in {"Pick", "Omit"} && IsBuiltIn(name, env)) {
      if args != [] {
        PartsAt(env, all, level, u, args, p, top);
        k, q, reach := ValuesFound(env, all, level, depth - 1, args[0], p, top);
      }
    } else if name == "Record" && IsBuiltIn(name, env) {
      PartsAt(env, all, level, u, args, p, top);
    } else if name in env.aliases {
      var inner := AliasAt(env, all, level, u, p, top);
      if BindParameters(env.aliases[name].params, args, p.subs).Some? {
        k, q, reach := ValuesFound(env, all, level, depth - 1, env.aliases[name].body, inner, |inner.order|);
        k := k + 1;
      }
    }
  }

  lemma FindsSome(depth: nat, u: Type, env: Environment, subs: Substitutions, resolving: set<Name>)
    requires ValueTypes(depth, u, env, subs, resolving).Done?
    ensures depth > 0
  {
  }

  lemma ReferenceValues(k: nat, u: Type, env: Environment, theta: Closing)
    requires u.Ref?
    ensures var (name, args) := (u.name, ApplyAll(theta, u.args));
            ValuesAt(k, Apply(theta, u), env) ==
            if name in theta then ValuesAt(k, theta[name], env)
            else if IsWrapper(name, env) then (if args == [] then [] else ValuesAt(k, args[0], env))
            else if name == "Record" && IsBuiltIn(name, env) then (if |args| < 2 then [] else [args[1]])
            else if name in {"Pick", "Omit"} && IsBuiltIn(name, env) then
              (if args == [] then [] else ValuesAt(k, args[0], env))
            else if k > 0 && name in env.aliases && Expansion(env.aliases[name], args).Some? then
              ValuesAt(k - 1, Expansion(env.aliases[name], args).value, env)
            else []
  {
    if u.name !in theta {
      ReferenceStores(k, Apply(theta, u), env);
    }
  }

  lemma MappedAt(env: Environment, all: set<Name>, level: Level, u: Type, p: Place, top: nat)
    requires At(env, all, level, u, p, top) && u.Mapped? && u.value.Some?
    ensures At(env, all, level, u.value.value, p, top)
  {
    hide Scope, HygienicOver, Owned, Stratified, Leveled;
    forall r | r in p.passed ensures Avoids(u.value.value, AtLeast(env, all, level, level(r))) {
      assert Avoids(u, AtLeast(env, all, level, level(r)));
    }
  }

  /** The second phase, which remembers nothing of the first. */
  lemma {:induction false} FirstUnsafeAt(
    env: Environment, all: set<Name>, level: Level, vs: seq<ResolvedType>, p: Place, top: nat)
    returns (depth: nat)
    requires AllAt(env, all, level, TypesOf(vs), p, top) && vs == Under(TypesOf(vs), p.subs)
    ensures FirstUnsafe(depth, vs, env).Done?
    ensures forall v :: FirstUnsafe(depth, vs, env).result == Some(v) <==> FirstMeans(ApplyAll(p.theta, TypesOf(vs)), env, v)
  {
    hide At;
    depth := 0;
    if vs != [] {
      var (t, ts) := (vs[0].valueType, ApplyAll(p.theta, TypesOf(vs)));
      assert TypesOf(vs)[0] == t;
      var d0 := ValueExact(env, all, level, t, p, top, {});
      assert TypesOf(vs[1..]) == TypesOf(vs)[1..];
      var d1 := FirstUnsafeAt(env, all, level, vs[1..], p, top);
      depth := if d0 < d1 then d1 else d0;
      DirectValueDeeper(d0, depth, t, env, p.subs, {});
      FirstUnsafeDeeper(d1, depth, vs[1..], env);
      assert ts[1..] == ApplyAll(p.theta, TypesOf(vs[1..]));
      forall v ensures FirstUnsafe(depth, vs, env).result == Some(v) <==> FirstMeans(ts, env, v) {
        FirstMeansStep(ts, env, v);
      }
    }
  }

  /** On hygienic programs with levels `classifyUnsafeDictionary` terminates and reports
      exactly the first unsafe type that the dictionary stores; its defaults may mention
      earlier parameters. */
  lemma ClassifyDictionaryStratified(t: Type, env: Environment, level: Level) returns (depth: nat)
    requires Hygienic(env) && IsQuery(t, env)
    requires Stratified(env, AllParameters(env), level) && Layered(env, AllParameters(env), level, t)
    ensures ClassifyDictionary(depth, t, env).Done?
    ensures forall v :: ClassifyDictionary(depth, t, env).result == Some(v) <==> StoresFirst(t, env, v)
  {
    var all := AllParameters(env);
    StartsAt(env, all, level, t);
    var d0 := ValueTypesStops(env, all, t, ENTRY.subs, {}, ENTRY.theta, [], 0);
    var k, q, reach := ValuesFound(env, all, level, d0, t, ENTRY, 0);
    hide At, AllAt, Hygienic, Stratified, Layered, AllParameters, FirstMeans, FirstUnsafe, ValueTypes;
    var vs := ValueTypes(d0, t, env, ENTRY.subs, {}).result;
    var d1 := FirstUnsafeAt(env, all, level, vs, q, reach);
    depth := if d0 < d1 then d1 else d0;
    ValueTypesDeeper(d0, depth, t, env, ENTRY.subs, {});
    FirstUnsafeDeeper(d1, depth, vs, env);
    forall v ensures FirstMeans(ApplyAll(q.theta, TypesOf(vs)), env, v) <==> StoresFirst(t, env, v) {
      StoredAtStage(t, env, k, ApplyAll(q.theta, TypesOf(vs)), v);
    }
  }

  lemma StoredAtStage(t: Type, env: Environment, k: nat, ts: seq<Type>, v: UnsafeValue)
    requires forall l: nat :: l >= k ==> ValuesAt(l, Apply(map[], t), env) == ts
    ensures FirstMeans(ts, env, v) <==> StoresFirst(t, env, v)
  {
    hide FirstMeans;
    ValuesNormal(k, t, env);
    var stored := ValuesAt(k, t, env);
    SameTypesNormal(stored, stored);
    assert SameTypes(ts, stored) && SameTypes(stored, ts);
    if FirstMeans(ts, env, v) { FirstMeansSame(ts, stored, env, v); }
    if StoresFirst(t, env, v) {
      var l: nat :| FirstMeans(ValuesAt(l, t, env), env, v);
      LaterStored(t, env, l, k, ts, v);
    }
  }

  lemma LaterStored(t: Type, env: Environment, l: nat, k: nat, ts: seq<Type>, v: UnsafeValue)
    requires forall l: nat :: l >= k ==> ValuesAt(l, Apply(map[], t), env) == ts
    requires FirstMeans(ValuesAt(l, t, env), env, v)
    ensures FirstMeans(ts, env, v)
  {
    var later := if l < k then k else l;
    ValuesKept(l, later, t, env);
    ValuesNormal(later, t, env);
    SameTypesNormal(ValuesAt(l, t, env), ValuesAt(l, t, env));
    FirstMeansSame(ValuesAt(l, t, env), ts, env, v);
  }
}
