/** What a type means for the dictionary rule, independently of how the resolver
    looks for it: aliases are expanded by textbook simultaneous substitution, one
    more layer of aliases per stage, with no record of what was expanded before.
    The stages only ever add answers, so their limit is the least fixpoint. */
module TypeMeaning {
  import opened DictionaryTypes
  import opened Options
  import opened TypeEnvironment
  import opened TypeSyntax

  type Closing = map<Name, Type>

  /** Substitute everywhere at once, dropping parentheses and `readonly`. */
  function Apply(theta: Closing, t: Type): Type {
    match t
    case Kw(_) => t
    case Paren(inner) => Apply(theta, inner)
    case Operator(readonly, inner) =>
      if readonly then Apply(theta, inner) else Operator(false, Apply(theta, inner))
    case Union(members) => Union(ApplyAll(theta, members))
    case Intersection(members) => Intersection(ApplyAll(theta, members))
    case Ref(name, args) => if name in theta then theta[name] else Ref(name, ApplyAll(theta, args))
    case Literal(signatures) => Literal(ApplySignatures(theta, signatures))
    case Mapped(value) => Mapped(if value.None? then None else Some(Apply(theta, value.value)))
    case Opaque => t
  }

  function ApplyAll(theta: Closing, ts: seq<Type>): (r: seq<Type>)
    ensures |r| == |ts|
    ensures forall i :: 0 <= i < |ts| ==> r[i] == Apply(theta, ts[i])
  {
    seq(|ts|, i requires 0 <= i < |ts| => Apply(theta, ts[i]))
  }

  function ApplySignature(theta: Closing, s: Signature): Signature {
    match s
    case Property(optional, annotation) =>
      Property(optional, if annotation.None? then None else Some(Apply(theta, annotation.value)))
    case IndexSignature(annotation) =>
      IndexSignature(if annotation.None? then None else Some(Apply(theta, annotation.value)))
    case OtherSignature => s
  }

  function ApplySignatures(theta: Closing, ss: seq<Signature>): (r: seq<Signature>)
    ensures |r| == |ss|
    ensures forall i :: 0 <= i < |ss| ==> r[i] == ApplySignature(theta, ss[i])
  {
    seq(|ss|, i requires 0 <= i < |ss| => ApplySignature(theta, ss[i]))
  }

  /** The arguments of one use of an alias: a missing argument takes its default,
      in which the earlier parameters are already bound. */
  function Instance(params: seq<Parameter>, args: seq<Type>, bound: Closing): Option<Closing> {
    if params == [] then Some(bound)
    else if args != [] then
      Instance(params[1..], args[1..], bound[params[0].name := Apply(map[], args[0])])
    else if params[0].default.Some? then
      Instance(params[1..], [], bound[params[0].name := Apply(bound, params[0].default.value)])
    else None
  }

  /** The body of an alias at one use. */
  function Expansion(alias: Alias, args: seq<Type>): Option<Type> {
    match Instance(alias.params, args, map[])
    case None => None
    case Some(theta) => Some(Apply(theta, alias.body))
  }

  /** Why a type is unsafe as a dictionary value, looking through `k` aliases. */
  function KindAt(k: nat, t: Type, env: Environment): Verdict
    decreases k, t
  {
    match Unwrap(t)
    case Kw(UnknownKw) => Some(UnknownValue)
    case Kw(AnyKw) => Some(AnyValue)
    case Kw(ObjectKw) => Some(ObjectValue)
    case Literal(signatures) => if AllEffectivelyEmpty(signatures) then Some(EmptyObjectValue) else None
    case Union(members) =>
      if exists i :: 0 <= i < |members| && KindAt(k, members[i], env).Some? then Some(UnionValue) else None
    case Intersection(members) => Meet(KindsAt(k, members, env))
    case Ref(name, args) =>
      if IsWrapper(name, env) then (if args == [] then None else KindAt(k, args[0], env))
      else if name in env.interfaces then
        (if IsEffectivelyEmptyInterface(env.interfaces[name]) then Some(EmptyObjectValue) else None)
      else if k > 0 && name in env.aliases then
        (match Expansion(env.aliases[name], args)
         case None => None
         case Some(body) => KindAt(k - 1, body, env))
      else None
    case _ => None
  }

  function KindsAt(k: nat, ts: seq<Type>, env: Environment): (r: seq<Verdict>)
    ensures |r| == |ts|
    ensures forall i :: 0 <= i < |ts| ==> r[i] == KindAt(k, ts[i], env)
    decreases k, ts
  {
    seq(|ts|, i requires 0 <= i < |ts| => KindAt(k, ts[i], env))
  }

  /** The types a dictionary type stores, looking through `k` aliases. */
  function ValuesAt(k: nat, t: Type, env: Environment): seq<Type>
    decreases k, t
  {
    match Unwrap(t)
    case Literal(signatures) => IndexValues(signatures)
    case Mapped(Some(value)) => [value]
    case Ref(name, args) =>
      if IsWrapper(name, env) then (if args == [] then [] else ValuesAt(k, args[0], env))
      else if name == "Record" && IsBuiltIn(name, env) then (if |args| < 2 then [] else [args[1]])
      else if name in {"Pick", "Omit"} && IsBuiltIn(name, env) then
        (if args == [] then [] else ValuesAt(k, args[0], env))
      else if k > 0 && name in env.aliases then
        (match Expansion(env.aliases[name], args)
         case None => []
         case Some(body) => ValuesAt(k - 1, body, env))
      else []
    case _ => []
  }

  /** One step of `ValuesAt` at a reference. */
  lemma ReferenceStores(k: nat, u: Type, env: Environment)
    requires u.Ref?
    ensures var (name, args) := (u.name, u.args);
            ValuesAt(k, u, env) ==
            if IsWrapper(name, env) then (if args == [] then [] else ValuesAt(k, args[0], env))
            else if name == "Record" && IsBuiltIn(name, env) then (if |args| < 2 then [] else [args[1]])
            else if name in {"Pick", "Omit"} && IsBuiltIn(name, env) then
              (if args == [] then [] else ValuesAt(k, args[0], env))
            else if k > 0 && name in env.aliases && Expansion(env.aliases[name], args).Some? then
              ValuesAt(k - 1, Expansion(env.aliases[name], args).value, env)
            else []
  {
  }

  /** `v` is what the least-fixpoint meaning says of `t` as a dictionary value. */
  ghost predicate Means(t: Type, env: Environment, v: UnsafeValue) {
    exists k: nat :: KindAt(k, t, env) == Some(v)
  }

  /** One of the types that the dictionary type `t` stores is unsafe, for reason `v`. */
  ghost predicate StoresUnsafe(t: Type, env: Environment, v: UnsafeValue) {
    exists k: nat, i: nat :: i < |ValuesAt(k, t, env)| && Means(ValuesAt(k, t, env)[i], env, v)
  }

  /** The meaning is flat: a later stage keeps every answer of an earlier one. */
  lemma {:induction false} KindKept(k: nat, l: nat, t: Type, env: Environment)
    requires k <= l && KindAt(k, t, env).Some?
    ensures KindAt(l, t, env) == KindAt(k, t, env)
    decreases k, t
  {
    match Unwrap(t)
    case Union(members) =>
      var i :| 0 <= i < |members| && KindAt(k, members[i], env).Some?;
      KindKept(k, l, members[i], env);
    case Intersection(members) =>
      forall i | 0 <= i < |members| && KindAt(k, members[i], env).Some?
        ensures KindAt(l, members[i], env) == KindAt(k, members[i], env)
      { KindKept(k, l, members[i], env); }
      MeetKept(KindsAt(k, members, env), KindsAt(l, members, env));
    case Ref(name, args) =>
      if IsWrapper(name, env) { KindKept(k, l, args[0], env); }
      else if name !in env.interfaces {
        KindKept(k - 1, l - 1, Expansion(env.aliases[name], args).value, env);
      }
    case _ =>
  }

  lemma MeetKept(vs: seq<Verdict>, ws: seq<Verdict>)
    requires |vs| == |ws| && forall i :: 0 <= i < |vs| && vs[i].Some? ==> ws[i] == vs[i]
    requires Meet(vs).Some?
    ensures Meet(ws) == Meet(vs)
  {
    if Some(AnyValue) in vs {
      var i :| 0 <= i < |vs| && vs[i] == Some(AnyValue);
      assert ws[i] == Some(AnyValue);
    } else {
      assert forall i :: 0 <= i < |vs| ==> vs[i] in vs;
      assert vs == ws;
    }
  }

  lemma {:induction false} ValuesKept(k: nat, l: nat, t: Type, env: Environment)
    requires k <= l && ValuesAt(k, t, env) != []
    ensures ValuesAt(l, t, env) == ValuesAt(k, t, env)
    decreases k, t
  {
    var u := Unwrap(t);
    if u.Ref? && !(u.name == "Record" && IsBuiltIn(u.name, env)) {
      if IsWrapper(u.name, env) || (u.name in {"Pick", "Omit"} && IsBuiltIn(u.name, env)) {
        ValuesKept(k, l, u.args[0], env);
      } else {
        ValuesKept(k - 1, l - 1, Expansion(env.aliases[u.name], u.args).value, env);
      }
    }
  }

  /** A type means at most one thing. */
  lemma MeansOne(t: Type, env: Environment, v: UnsafeValue, w: UnsafeValue)
    requires Means(t, env, v) && Means(t, env, w)
    ensures v == w
  {
    var k: nat :| KindAt(k, t, env) == Some(v);
    var l: nat :| KindAt(l, t, env) == Some(w);
    if k <= l { KindKept(k, l, t, env); } else { KindKept(l, k, t, env); }
  }

  // Parentheses and `readonly` never matter, wherever they stand.

  lemma {:induction false} ApplyUnwrap(theta: Closing, t: Type)
    ensures Apply(theta, t) == Apply(theta, Unwrap(t))
  {
    match t
    case Paren(inner) => ApplyUnwrap(theta, inner);
    case Operator(readonly, inner) => if readonly { ApplyUnwrap(theta, inner); }
    case _ =>
  }

  /** The types a closing binds are free of parentheses and `readonly`. */
  ghost predicate Normal(theta: Closing) {
    forall n :: n in theta ==> Apply(map[], theta[n]) == theta[n]
  }

  lemma {:induction false} ApplyNormal(theta: Closing, t: Type)
    requires Normal(theta)
    ensures Apply(map[], Apply(theta, t)) == Apply(theta, t)
    decreases t
  {
    match t
    case Paren(inner) => ApplyNormal(theta, inner);
    case Operator(_, inner) => ApplyNormal(theta, inner);
    case Union(members) => ApplyAllNormal(theta, t, members);
    case Intersection(members) => ApplyAllNormal(theta, t, members);
    case Ref(_, args) => ApplyAllNormal(theta, t, args);
    case Literal(signatures) =>
      forall i | 0 <= i < |signatures|
        ensures ApplySignature(map[], ApplySignature(theta, signatures[i])) == ApplySignature(theta, signatures[i])
      {
        match signatures[i]
        case Property(_, annotation) => if annotation.Some? { ApplyNormal(theta, annotation.value); }
        case IndexSignature(annotation) => if annotation.Some? { ApplyNormal(theta, annotation.value); }
        case _ =>
      }
      assert ApplySignatures(map[], ApplySignatures(theta, signatures)) == ApplySignatures(theta, signatures);
    case Mapped(value) => if value.Some? { ApplyNormal(theta, value.value); }
    case _ =>
  }

  lemma {:induction false} ApplyAllNormal(theta: Closing, parent: Type, ts: seq<Type>)
    requires Normal(theta) && forall i :: 0 <= i < |ts| ==> ts[i] < parent
    ensures ApplyAll(map[], ApplyAll(theta, ts)) == ApplyAll(theta, ts)
    decreases parent, 0
  {
    forall i | 0 <= i < |ts| ensures Apply(map[], Apply(theta, ts[i])) == Apply(theta, ts[i]) {
      ApplyNormal(theta, ts[i]);
    }
  }

  lemma {:induction false} InstanceNormal(params: seq<Parameter>, args: seq<Type>, bound: Closing)
    ensures Instance(params, ApplyAll(map[], args), bound) == Instance(params, args, bound)
  {
    if params != [] {
      if args != [] {
        ApplyNormal(map[], args[0]);
        assert ApplyAll(map[], args)[1..] == ApplyAll(map[], args[1..]);
        InstanceNormal(params[1..], args[1..], bound[params[0].name := Apply(map[], args[0])]);
      } else {
        assert ApplyAll(map[], args) == [];
      }
    }
  }

  lemma {:induction false} InstanceIsNormal(params: seq<Parameter>, args: seq<Type>, bound: Closing)
    requires Normal(bound) && Instance(params, args, bound).Some?
    ensures Normal(Instance(params, args, bound).value)
  {
    if params != [] {
      var p := params[0];
      if args != [] {
        ApplyNormal(map[], args[0]);
        InstanceIsNormal(params[1..], args[1..], bound[p.name := Apply(map[], args[0])]);
      } else {
        ApplyNormal(bound, p.default.value);
        InstanceIsNormal(params[1..], [], bound[p.name := Apply(bound, p.default.value)]);
      }
    }
  }

  lemma ExpansionNormal(alias: Alias, args: seq<Type>)
    requires Expansion(alias, args).Some?
    ensures var body := Expansion(alias, args).value; Apply(map[], body) == body
  {
    InstanceIsNormal(alias.params, args, map[]);
    ApplyNormal(Instance(alias.params, args, map[]).value, alias.body);
  }

  lemma EmptinessNormal(signatures: seq<Signature>)
    ensures AllEffectivelyEmpty(ApplySignatures(map[], signatures)) <==> AllEffectivelyEmpty(signatures)
  {
    var normal := ApplySignatures(map[], signatures);
    forall i | 0 <= i < |signatures|
      ensures IsEffectivelyEmptyMember(normal[i]) <==> IsEffectivelyEmptyMember(signatures[i])
    {
      match signatures[i]
      case Property(_, Some(annotation)) =>
        ApplyUnwrap(map[], annotation);
        UnwrapNormal(annotation);
      case _ =>
    }
  }

  lemma {:induction false} UnwrapNormal(t: Type)
    ensures Unwrap(Apply(map[], t)) == Apply(map[], t)
  {
    match t
    case Paren(inner) => UnwrapNormal(inner);
    case Operator(_, inner) => UnwrapNormal(inner);
    case _ =>
  }

  lemma {:induction false} KindNormal(k: nat, t: Type, env: Environment)
    ensures KindAt(k, Apply(map[], t), env) == KindAt(k, t, env)
    decreases k, t
  {
    var u := Unwrap(t);
    ApplyUnwrap(map[], t);
    UnwrapNormal(t);
    match u
    case Union(members) => KindsNormal(k, u, members, env);
    case Intersection(members) =>
      KindsNormal(k, u, members, env);
      assert KindsAt(k, ApplyAll(map[], members), env) == KindsAt(k, members, env);
    case Literal(signatures) => EmptinessNormal(signatures);
    case Ref(name, args) =>
      if IsWrapper(name, env) {
        if args != [] { KindNormal(k, args[0], env); }
      } else if name !in env.interfaces && k > 0 && name in env.aliases {
        InstanceNormal(env.aliases[name].params, args, map[]);
      }
    case _ =>
  }

  lemma {:induction false} KindsNormal(k: nat, parent: Type, ts: seq<Type>, env: Environment)
    requires forall i :: 0 <= i < |ts| ==> ts[i] < parent
    ensures forall i :: 0 <= i < |ts| ==> KindAt(k, ApplyAll(map[], ts)[i], env) == KindAt(k, ts[i], env)
    decreases k, parent, 0
  {
    forall i | 0 <= i < |ts| ensures KindAt(k, ApplyAll(map[], ts)[i], env) == KindAt(k, ts[i], env) {
      KindNormal(k, ts[i], env);
    }
  }

  lemma {:induction false} IndexValuesApply(theta: Closing, ss: seq<Signature>)
    ensures IndexValues(ApplySignatures(theta, ss)) == ApplyAll(theta, IndexValues(ss))
  {
    if ss != [] {
      IndexValuesApply(theta, ss[1..]);
      assert ApplySignatures(theta, ss)[1..] == ApplySignatures(theta, ss[1..]);
    }
  }

  lemma {:induction false} ValuesNormal(k: nat, t: Type, env: Environment)
    ensures ValuesAt(k, Apply(map[], t), env) == ApplyAll(map[], ValuesAt(k, t, env))
    decreases k, t
  {
    var u := Unwrap(t);
    ApplyUnwrap(map[], t);
    UnwrapNormal(t);
    match u
    case Literal(signatures) => IndexValuesApply(map[], signatures);
    case Ref(name, args) =>
      if IsWrapper(name, env) || (name in {"Pick", "Omit"} && IsBuiltIn(name, env)) {
        if args != [] { ValuesNormal(k, args[0], env); }
      } else if name == "Record" && IsBuiltIn(name, env) {
      } else if k > 0 && name in env.aliases {
        InstanceNormal(env.aliases[name].params, args, map[]);
        var body := Expansion(env.aliases[name], args);
        if body.Some? {
          ExpansionNormal(env.aliases[name], args);
          ValuesNormal(k - 1, body.value, env);
        }
      }
    case _ =>
  }

  // The limit of the stages is the least fixpoint of one round of the rules.

  ghost function Says(m: Type -> Verdict, ts: seq<Type>): (r: seq<Verdict>)
    ensures |r| == |ts| && forall i :: 0 <= i < |ts| ==> r[i] == m(ts[i])
  {
    if ts == [] then [] else [m(ts[0])] + Says(m, ts[1..])
  }

  /** What the rules say of `t`, given what `m` says of the types it refers to. */
  ghost function Rule(m: Type -> Verdict, t: Type, env: Environment): Verdict {
    var u := Unwrap(t);
    if u.Union? then
      if exists i :: 0 <= i < |u.members| && m(u.members[i]).Some? then Some(UnionValue) else None
    else if u.Intersection? then Meet(Says(m, u.members))
    else if u.Ref? then
      if IsWrapper(u.name, env) then (if u.args == [] then None else m(u.args[0]))
      else if u.name in env.interfaces then
        (if IsEffectivelyEmptyInterface(env.interfaces[u.name]) then Some(EmptyObjectValue) else None)
      else if u.name in env.aliases && Expansion(env.aliases[u.name], u.args).Some? then
        m(Expansion(env.aliases[u.name], u.args).value)
      else None
    else KindAt(0, u, env)
  }

  /** The least-fixpoint meaning as a function. */
  ghost function Limit(t: Type, env: Environment): Verdict {
    if exists v :: Means(t, env, v) then var v :| Means(t, env, v); Some(v) else None
  }

  lemma LimitIs(t: Type, env: Environment, v: UnsafeValue)
    ensures Limit(t, env) == Some(v) <==> Means(t, env, v)
  {
    if Means(t, env, v) && Limit(t, env).Some? { MeansOne(t, env, v, Limit(t, env).value); }
  }

  /** Any assignment that accepts what the rules conclude from it accepts every stage. */
  lemma {:induction false} StagesAreLeast(m: Type -> Verdict, k: nat, t: Type, env: Environment)
    requires forall u :: Rule(m, u, env).Some? ==> m(u) == Rule(m, u, env)
    requires KindAt(k, t, env).Some?
    ensures m(t) == KindAt(k, t, env)
    decreases k, t
  {
    var u := Unwrap(t);
    if u.Union? {
      var i :| 0 <= i < |u.members| && KindAt(k, u.members[i], env).Some?;
      StagesAreLeast(m, k, u.members[i], env);
    } else if u.Intersection? {
      forall i | 0 <= i < |u.members| && KindAt(k, u.members[i], env).Some?
        ensures m(u.members[i]) == KindAt(k, u.members[i], env)
      { StagesAreLeast(m, k, u.members[i], env); }
      MeetKept(KindsAt(k, u.members, env), Says(m, u.members));
    } else if u.Ref? {
      if IsWrapper(u.name, env) { StagesAreLeast(m, k, u.args[0], env); }
      else if u.name !in env.interfaces {
        StagesAreLeast(m, k - 1, Expansion(env.aliases[u.name], u.args).value, env);
      }
    }
    assert Rule(m, t, env) == KindAt(k, t, env);
  }

  lemma StageOfLimit(k: nat, l: nat, t: Type, env: Environment)
    requires k <= l && (Limit(t, env).Some? ==> KindAt(k, t, env) == Limit(t, env))
    ensures KindAt(l, t, env) == Limit(t, env)
  {
    if Limit(t, env).Some? { KindKept(k, l, t, env); }
    else if KindAt(l, t, env).Some? { LimitIs(t, env, KindAt(l, t, env).value); }
  }

  /** A stage at which all of `ts` have the answer they will ever have. */
  lemma {:induction false} CommonStage(ts: seq<Type>, env: Environment) returns (k: nat)
    ensures forall i :: 0 <= i < |ts| ==> KindAt(k, ts[i], env) == Limit(ts[i], env)
  {
    k := 0;
    if ts != [] {
      var rest := CommonStage(ts[1..], env);
      var first: nat := 0;
      if Limit(ts[0], env).Some? {
        LimitIs(ts[0], env, Limit(ts[0], env).value);
        first :| KindAt(first, ts[0], env) == Limit(ts[0], env);
      }
      k := if first < rest then rest else first;
      forall i | 0 <= i < |ts| ensures KindAt(k, ts[i], env) == Limit(ts[i], env) {
        if i > 0 { assert ts[i] == ts[1..][i - 1]; }
        StageOfLimit(if i == 0 then first else rest, k, ts[i], env);
      }
    }
  }

  /** The meaning satisfies its own rules. */
  lemma LimitIsFixpoint(t: Type, env: Environment)
    ensures Limit(t, env) == Rule(u => Limit(u, env), t, env)
  {
    var u := Unwrap(t);
    var needed :=
      if u.Union? || u.Intersection? then u.members
      else if u.Ref? && IsWrapper(u.name, env) then u.args
      else if u.Ref? && u.name in env.aliases && Expansion(env.aliases[u.name], u.args).Some?
      then [Expansion(env.aliases[u.name], u.args).value] else [];
    var k := CommonStage(needed, env);
    var l := CommonStage([t], env);
    assert [t][0] == t;
    var stage := if k + 1 < l then l else k + 1;
    forall i | 0 <= i < |needed|
      ensures KindAt(stage, needed[i], env) == Limit(needed[i], env)
      ensures KindAt(stage - 1, needed[i], env) == Limit(needed[i], env)
    {
      StageOfLimit(k, stage, needed[i], env);
      StageOfLimit(k, stage - 1, needed[i], env);
    }
    StageOfLimit(l, stage, t, env);
    RuleAtStage(stage, t, env, needed);
  }

  lemma RuleAtStage(k: nat, t: Type, env: Environment, needed: seq<Type>)
    requires k > 0
    requires var u := Unwrap(t);
             && (u.Union? || u.Intersection? ==> needed == u.members)
             && (u.Ref? && IsWrapper(u.name, env) ==> needed == u.args)
             && (u.Ref? && !IsWrapper(u.name, env) && u.name in env.aliases
                 && Expansion(env.aliases[u.name], u.args).Some?
                 ==> needed == [Expansion(env.aliases[u.name], u.args).value])
    requires forall i :: 0 <= i < |needed| ==>
               KindAt(k, needed[i], env) == Limit(needed[i], env) == KindAt(k - 1, needed[i], env)
    ensures KindAt(k, t, env) == Rule(u => Limit(u, env), t, env)
  {
    var m := u => Limit(u, env);
    var u := Unwrap(t);
    if u.Union? {
      assert forall i :: 0 <= i < |needed| ==> m(needed[i]) == KindAt(k, needed[i], env);
    } else if u.Intersection? {
      assert Says(m, needed) == KindsAt(k, needed, env);
    } else if u.Ref? && needed != [] {
      assert m(needed[0]) == Limit(needed[0], env);
    }
  }
}
