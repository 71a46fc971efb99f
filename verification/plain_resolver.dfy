/** The resolver on programs without generic aliases, cyclic ones included: its
    answer is the least-fixpoint meaning, so the visited names it carries along a
    path lose nothing. */
module PlainResolver {
  import opened DictionaryTypes
  import opened GenericResolver
  import opened Options
  import opened ParameterScope
  import opened Substitution
  import opened TypeEnvironment
  import opened TypeMeaning
  import opened TypeSyntax

  ghost predicate NoGenerics(env: Environment) {
    forall a :: a in env.aliases ==> env.aliases[a].params == []
  }

  const NOTHING: Substitutions := map[]

  lemma PlainIsHygienic(t: Type, env: Environment)
    requires NoGenerics(env)
    ensures Hygienic(env) && IsQuery(t, env)
  {
    assert AllParameters(env) == {};
    forall a | a in env.aliases ensures HygienicAlias(env.aliases[a], {}) {
      AvoidsNothing(env.aliases[a].body, {} - NameSet(env.aliases[a].params));
    }
    AvoidsNothing(t, {} - {});
  }

  lemma {:induction false} AvoidsNothing(t: Type, none: set<Name>)
    requires none == {}
    ensures Avoids(t, none)
    decreases t
  {
    match t
    case Paren(inner) => AvoidsNothing(inner, none);
    case Operator(_, inner) => AvoidsNothing(inner, none);
    case Union(members) => forall i | 0 <= i < |members| { AvoidsNothing(members[i], none); }
    case Intersection(members) => forall i | 0 <= i < |members| { AvoidsNothing(members[i], none); }
    case Ref(_, args) => forall i | 0 <= i < |args| { AvoidsNothing(args[i], none); }
    case Literal(signatures) =>
      forall i | 0 <= i < |signatures| ensures SignatureAvoids(signatures[i], none) {
        match signatures[i]
        case Property(_, annotation) => if annotation.Some? { AvoidsNothing(annotation.value, none); }
        case IndexSignature(annotation) => if annotation.Some? { AvoidsNothing(annotation.value, none); }
        case _ =>
      }
    case Mapped(value) => if value.Some? { AvoidsNothing(value.value, none); }
    case _ =>
  }

  /** At stage `k`, none of the aliases in `resolving` has an answer yet. */
  ghost predicate Unanswered(k: nat, env: Environment, resolving: set<Name>) {
    forall a, j: nat :: a in resolving && a in env.aliases && j < k ==> KindAt(j, env.aliases[a].body, env).None?
  }

  lemma PlainExpansion(env: Environment, a: Name, args: seq<Type>, j: nat)
    requires NoGenerics(env) && a in env.aliases
    ensures BindParameters(env.aliases[a].params, args, NOTHING) == Some(NOTHING)
    ensures Expansion(env.aliases[a], args) == Some(Apply(map[], env.aliases[a].body))
    ensures KindAt(j, Apply(map[], env.aliases[a].body), env) == KindAt(j, env.aliases[a].body, env)
  {
    KindNormal(j, env.aliases[a].body, env);
  }

  /** Cutting off names already on the path loses no answer: the first stage that
      answers an alias does so without going through that alias again. */
  lemma {:induction false} NothingLost(
    k: nat, depth: nat, t: Type, env: Environment, resolving: set<Name>)
    requires NoGenerics(env) && Unanswered(k, env, resolving)
    requires KindAt(k, t, env).Some? && DirectValue(depth, t, env, NOTHING, resolving).Done?
    ensures DirectValue(depth, t, env, NOTHING, resolving).result == KindAt(k, t, env)
    decreases k, t
  {
    var u := Unwrap(t);
    match u
    case Union(members) => NothingLostUnion(k, depth, u, env, resolving, 0);
    case Intersection(members) =>
      NothingLostIntersection(k, depth, u, env, resolving, 0);
      MeetKept(KindsAt(k, members, env), EachMember(depth - 1, members, 0, env, NOTHING, resolving).result);
    case Ref(name, args) =>
      if IsWrapper(name, env) {
        NothingLost(k, depth - 1, args[0], env, resolving);
      } else if name !in env.interfaces {
        var body := env.aliases[name].body;
        PlainExpansion(env, name, args, k - 1);
        var j := FirstAnswer(k - 1, body, env);
        if name in resolving { assert false; }
        assert Unanswered(j, env, resolving + {name});
        NothingLost(j, depth - 1, body, env, resolving + {name});
      }
    case _ =>
  }

  lemma FirstAnswer(k: nat, t: Type, env: Environment) returns (j: nat)
    requires KindAt(k, t, env).Some?
    ensures j <= k && KindAt(j, t, env) == KindAt(k, t, env)
    ensures forall i: nat :: i < j ==> KindAt(i, t, env).None?
  {
    j := 0;
    while KindAt(j, t, env).None?
      invariant j <= k && forall i: nat :: i < j ==> KindAt(i, t, env).None?
      decreases k - j
    {
      j := j + 1;
    }
    KindKept(j, k, t, env);
  }

  lemma {:induction false} NothingLostUnion(
    k: nat, depth: nat, u: Type, env: Environment, resolving: set<Name>, i: nat)
    requires u.Union? && i <= |u.members| && depth > 0
    requires NoGenerics(env) && Unanswered(k, env, resolving)
    requires exists j :: i <= j < |u.members| && KindAt(k, u.members[j], env).Some?
    requires SomeMember(depth - 1, u.members, i, env, NOTHING, resolving).Done?
    ensures SomeMember(depth - 1, u.members, i, env, NOTHING, resolving).result
    decreases k, u, |u.members| - i
  {
    if DirectValue(depth - 1, u.members[i], env, NOTHING, resolving).result.None? {
      if KindAt(k, u.members[i], env).Some? { NothingLost(k, depth - 1, u.members[i], env, resolving); }
      NothingLostUnion(k, depth, u, env, resolving, i + 1);
    }
  }

  lemma {:induction false} NothingLostIntersection(
    k: nat, depth: nat, u: Type, env: Environment, resolving: set<Name>, i: nat)
    requires u.Intersection? && i <= |u.members| && depth > 0
    requires NoGenerics(env) && Unanswered(k, env, resolving)
    requires EachMember(depth - 1, u.members, i, env, NOTHING, resolving).Done?
    ensures var vs := EachMember(depth - 1, u.members, i, env, NOTHING, resolving).result;
            forall j :: i <= j < |u.members| && KindAt(k, u.members[j], env).Some?
                        ==> vs[j - i] == KindAt(k, u.members[j], env)
    decreases k, u, |u.members| - i
  {
    if i < |u.members| {
      var rest := EachMember(depth - 1, u.members, i + 1, env, NOTHING, resolving).result;
      if KindAt(k, u.members[i], env).Some? { NothingLost(k, depth - 1, u.members[i], env, resolving); }
      NothingLostIntersection(k, depth, u, env, resolving, i + 1);
      assert EachMember(depth - 1, u.members, i, env, NOTHING, resolving).result[1..] == rest;
    }
  }

  /** `classifyUnsafeDictionaryValue` terminates, and answers exactly the meaning. */
  lemma ClassifyValueExact(t: Type, env: Environment)
    requires NoGenerics(env)
    ensures exists depth: nat :: ClassifyValue(depth, t, env).Done?
    ensures forall depth: nat, v :: ClassifyValue(depth, t, env).Done? ==>
              (ClassifyValue(depth, t, env).result == Some(v) <==> Means(t, env, v))
  {
    PlainIsHygienic(t, env);
    ClassifyValueSound(t, env);
    forall depth: nat, v | ClassifyValue(depth, t, env).Done? && Means(t, env, v)
      ensures ClassifyValue(depth, t, env).result == Some(v)
    {
      var k: nat :| KindAt(k, t, env) == Some(v);
      NothingLost(k, depth, t, env, {});
    }
  }

  // Dictionaries: the value types found are those of the meaning.

  function TypesOf(vs: seq<ResolvedType>): (ts: seq<Type>)
    ensures |ts| == |vs| && forall i :: 0 <= i < |vs| ==> ts[i] == vs[i].valueType
  {
    seq(|vs|, i requires 0 <= i < |vs| => vs[i].valueType)
  }

  /** The same types, up to parentheses and `readonly`. */
  ghost predicate SameTypes(a: seq<Type>, b: seq<Type>) {
    ApplyAll(map[], a) == ApplyAll(map[], b)
  }

  lemma SameTypesNormal(a: seq<Type>, b: seq<Type>)
    requires SameTypes(a, b)
    ensures SameTypes(a, ApplyAll(map[], b))
  {
    forall i | 0 <= i < |b| { ApplyNormal(map[], b[i]); }
  }

  lemma SameMeanings(a: Type, b: Type, env: Environment, v: UnsafeValue)
    requires Apply(map[], a) == Apply(map[], b) && Means(a, env, v)
    ensures Means(b, env, v)
  {
    var k: nat :| KindAt(k, a, env) == Some(v);
    KindNormal(k, a, env);
    KindNormal(k, b, env);
  }

  /** The value types found under no bindings, all of them stored at stage `k`. */
  ghost predicate AreStored(vs: seq<ResolvedType>, k: nat, t: Type, env: Environment) {
    && (forall i :: 0 <= i < |vs| ==> vs[i].subs == NOTHING)
    && (vs != [] ==> SameTypes(TypesOf(vs), ValuesAt(k, t, env)))
  }

  /** `dictionaryValueTypes` stops, and what it finds is stored. */
  lemma {:induction false} ValueTypesFound(t: Type, env: Environment, resolving: set<Name>)
    returns (depth: nat, k: nat)
    requires NoGenerics(env)
    ensures ValueTypes(depth, t, env, NOTHING, resolving).Done?
    ensures AreStored(ValueTypes(depth, t, env, NOTHING, resolving).result, k, t, env)
    decreases env.aliases.Keys - resolving, t, 1
  {
    hide AreStored, IsWrapper, IsBuiltIn, BindParameters, Expansion;
    depth, k := 1, 0;
    var u := Unwrap(t);
    if u.Ref? {
      depth, k := ReferenceTypesFound(u, env, resolving);
    } else {
      LeafTypesFound(u, env, resolving);
    }
    assert ValueTypes(depth, t, env, NOTHING, resolving) == ValueTypes(depth, u, env, NOTHING, resolving);
    SameStored(ValueTypes(depth, t, env, NOTHING, resolving).result, k, t, env);
  }

  lemma SameStored(vs: seq<ResolvedType>, k: nat, t: Type, env: Environment)
    ensures AreStored(vs, k, t, env) == AreStored(vs, k, Unwrap(t), env)
  {
    assert ValuesAt(k, t, env) == ValuesAt(k, Unwrap(t), env);
  }

  lemma LeafTypesFound(u: Type, env: Environment, resolving: set<Name>)
    requires u == Unwrap(u) && !u.Ref?
    ensures ValueTypes(1, u, env, NOTHING, resolving).Done?
    ensures AreStored(ValueTypes(1, u, env, NOTHING, resolving).result, 0, u, env)
  {
    match u
    case Literal(signatures) => assert TypesOf(Under(IndexValues(signatures), NOTHING)) == IndexValues(signatures);
    case Mapped(Some(value)) => assert TypesOf([ResolvedType(value, NOTHING)]) == [value];
    case _ =>
  }

  lemma {:induction false} ReferenceTypesFound(u: Type, env: Environment, resolving: set<Name>)
    returns (depth: nat, k: nat)
    requires NoGenerics(env) && u.Ref?
    ensures ValueTypes(depth, u, env, NOTHING, resolving).Done?
    ensures AreStored(ValueTypes(depth, u, env, NOTHING, resolving).result, k, u, env)
    decreases env.aliases.Keys - resolving, u, 0
  {
    hide ValueTypes, ValuesAt, IsWrapper, IsBuiltIn, BindParameters, Expansion;
    var (name, args) := (u.name, u.args);
    depth, k := 1, 0;
    if IsWrapper(name, env) || (name != "Record" && name in {"Pick", "Omit"} && IsBuiltIn(name, env)) {
      if args != [] {
        depth, k := ValueTypesFound(args[0], env, resolving);
        depth := depth + 1;
      }
    } else if name == "Record" && IsBuiltIn(name, env) {
      if |args| >= 2 { assert TypesOf([ResolvedType(args[1], NOTHING)]) == [args[1]]; }
    } else if name in env.aliases && name !in resolving {
      var body := env.aliases[name].body;
      depth, k := ValueTypesFound(body, env, resolving + {name});
      var vs := ValueTypes(depth, body, env, NOTHING, resolving + {name}).result;
      PlainExpansion(env, name, args, 0);
      ValuesNormal(k, body, env);
      if vs != [] { SameTypesNormal(TypesOf(vs), ValuesAt(k, body, env)); }
      depth, k := depth + 1, k + 1;
    }
    ValueStep(depth, u, env, NOTHING, resolving);
    ReferenceStores(k, u, env);
  }

  ghost predicate Unstored(k: nat, env: Environment, resolving: set<Name>) {
    forall a, j: nat :: a in resolving && a in env.aliases && j < k ==> ValuesAt(j, env.aliases[a].body, env) == []
  }

  lemma FirstStored(k: nat, t: Type, env: Environment) returns (j: nat)
    requires ValuesAt(k, t, env) != []
    ensures j <= k && ValuesAt(j, t, env) != [] && forall i: nat :: i < j ==> ValuesAt(i, t, env) == []
  {
    j := 0;
    while ValuesAt(j, t, env) == []
      invariant j <= k && forall i: nat :: i < j ==> ValuesAt(i, t, env) == []
      decreases k - j
    {
      j := j + 1;
    }
  }

  lemma {:induction false} NoValuesLost(k: nat, depth: nat, t: Type, env: Environment, resolving: set<Name>)
    requires NoGenerics(env) && Unstored(k, env, resolving)
    requires ValuesAt(k, t, env) != [] && ValueTypes(depth, t, env, NOTHING, resolving).Done?
    ensures ValueTypes(depth, t, env, NOTHING, resolving).result != []
    decreases k, t
  {
    var u := Unwrap(t);
    if u.Ref? && !(u.name == "Record" && IsBuiltIn(u.name, env)) {
      var (name, args) := (u.name, u.args);
      if IsWrapper(name, env) || (name in {"Pick", "Omit"} && IsBuiltIn(name, env)) {
        NoValuesLost(k, depth - 1, args[0], env, resolving);
      } else {
        var body := env.aliases[name].body;
        PlainExpansion(env, name, args, 0);
        ValuesNormal(k - 1, body, env);
        var j := FirstStored(k - 1, body, env);
        if name in resolving { assert false; }
        assert Unstored(j, env, resolving + {name});
        NoValuesLost(j, depth - 1, body, env, resolving + {name});
      }
    }
  }

  ghost predicate IsUnsafe(t: Type, env: Environment) {
    exists v :: Means(t, env, v)
  }

  /** The first unsafe type among `ts` is unsafe for reason `v`. */
  ghost predicate FirstMeans(ts: seq<Type>, env: Environment, v: UnsafeValue) {
    exists i :: 0 <= i < |ts| && Means(ts[i], env, v) && forall j :: 0 <= j < i ==> !IsUnsafe(ts[j], env)
  }

  /** The first unsafe type a dictionary stores is unsafe for reason `v`. */
  ghost predicate StoresFirst(t: Type, env: Environment, v: UnsafeValue) {
    exists k: nat :: FirstMeans(ValuesAt(k, t, env), env, v)
  }

  lemma FirstMeansSame(a: seq<Type>, b: seq<Type>, env: Environment, v: UnsafeValue)
    requires SameTypes(a, b) && FirstMeans(a, env, v)
    ensures FirstMeans(b, env, v)
  {
    var i :| 0 <= i < |a| && Means(a[i], env, v) && forall j :: 0 <= j < i ==> !IsUnsafe(a[j], env);
    assert |ApplyAll(map[], a)| == |ApplyAll(map[], b)|;
    assert forall j :: 0 <= j < |a| ==> ApplyAll(map[], a)[j] == ApplyAll(map[], b)[j];
    SameMeanings(a[i], b[i], env, v);
    forall j | 0 <= j < i ensures !IsUnsafe(b[j], env) {
      if w :| Means(b[j], env, w) { SameMeanings(b[j], a[j], env, w); assert IsUnsafe(a[j], env); }
    }
  }

  /** One value, without and with a verdict. */
  lemma ValueVerdict(t: Type, env: Environment) returns (depth: nat)
    requires NoGenerics(env)
    ensures DirectValue(depth, t, env, NOTHING, {}).Done?
    ensures forall v :: DirectValue(depth, t, env, NOTHING, {}).result == Some(v) <==> Means(t, env, v)
  {
    ClassifyValueExact(t, env);
    depth :| ClassifyValue(depth, t, env).Done?;
  }

  /** The classifying loop over the value types found. */
  lemma {:induction false} FirstUnsafeExact(vs: seq<ResolvedType>, env: Environment) returns (depth: nat)
    requires NoGenerics(env) && forall i :: 0 <= i < |vs| ==> vs[i].subs == NOTHING
    ensures FirstUnsafe(depth, vs, env).Done?
    ensures forall v :: FirstUnsafe(depth, vs, env).result == Some(v) <==> FirstMeans(TypesOf(vs), env, v)
  {
    hide DirectValue, FirstMeans, Means, NoGenerics;
    depth := 0;
    if vs == [] {
      NothingFirst(env);
    } else {
      var t := vs[0].valueType;
      var d0 := ValueVerdict(t, env);
      var d1 := FirstUnsafeExact(vs[1..], env);
      depth := if d0 < d1 then d1 else d0;
      DirectValueDeeper(d0, depth, t, env, NOTHING, {});
      FirstUnsafeDeeper(d1, depth, vs[1..], env);
      assert TypesOf(vs)[1..] == TypesOf(vs[1..]);
      forall v ensures FirstUnsafe(depth, vs, env).result == Some(v) <==> FirstMeans(TypesOf(vs), env, v) {
        FirstMeansStep(TypesOf(vs), env, v);
      }
    }
  }

  lemma NothingFirst(env: Environment)
    ensures forall v :: !FirstMeans([], env, v)
  {
  }

  lemma FirstMeansStep(ts: seq<Type>, env: Environment, v: UnsafeValue)
    requires ts != []
    ensures FirstMeans(ts, env, v) <==>
              Means(ts[0], env, v) || (!IsUnsafe(ts[0], env) && FirstMeans(ts[1..], env, v))
  {
    var rest := ts[1..];
    if FirstMeans(ts, env, v) && !Means(ts[0], env, v) {
      var i :| 0 <= i < |ts| && Means(ts[i], env, v) && forall j :: 0 <= j < i ==> !IsUnsafe(ts[j], env);
      assert Means(rest[i - 1], env, v) && forall j :: 0 <= j < i - 1 ==> rest[j] == ts[j + 1];
    }
    if !IsUnsafe(ts[0], env) && FirstMeans(rest, env, v) {
      var i :| 0 <= i < |rest| && Means(rest[i], env, v) && forall j :: 0 <= j < i ==> !IsUnsafe(rest[j], env);
      assert Means(ts[i + 1], env, v) && forall j :: 0 < j < i + 1 ==> ts[j] == rest[j - 1];
    }
  }

  /** `classifyUnsafeDictionary` terminates on every such program, and reports
      exactly the first unsafe type that the dictionary stores. */
  lemma ClassifyDictionaryExact(t: Type, env: Environment) returns (depth: nat)
    requires NoGenerics(env)
    ensures ClassifyDictionary(depth, t, env).Done?
    ensures forall v :: ClassifyDictionary(depth, t, env).result == Some(v) <==> StoresFirst(t, env, v)
  {
    var d0, k := ValueTypesFound(t, env, {});
    var vs := ValueTypes(d0, t, env, NOTHING, {}).result;
    var d1 := FirstUnsafeExact(vs, env);
    depth := if d0 < d1 then d1 else d0;
    ValueTypesDeeper(d0, depth, t, env, NOTHING, {});
    FirstUnsafeDeeper(d1, depth, vs, env);
    forall v ensures ClassifyDictionary(depth, t, env).result == Some(v) <==> StoresFirst(t, env, v) {
      if FirstMeans(TypesOf(vs), env, v) { FirstMeansSame(TypesOf(vs), ValuesAt(k, t, env), env, v); }
      if StoresFirst(t, env, v) {
        var l: nat :| FirstMeans(ValuesAt(l, t, env), env, v);
        NoValuesLost(l, d0, t, env, {});
        assert |ApplyAll(map[], TypesOf(vs))| == |ApplyAll(map[], ValuesAt(k, t, env))|;
        if k <= l { ValuesKept(k, l, t, env); } else { ValuesKept(l, k, t, env); }
        FirstMeansSame(ValuesAt(k, t, env), TypesOf(vs), env, v);
      }
    }
  }
}
