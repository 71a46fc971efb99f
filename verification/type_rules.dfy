/** What the two classifiers of anti-slop/shared/dictionary-types.ts answer, shape by
    shape of the type they are given, said in terms of the syntax alone. */
module TypeRules {
  import opened AliasLevels
  import opened DictionaryTypes
  import opened GenericResolver
  import opened Options
  import opened ParameterScope
  import opened PlainResolver
  import opened StratifiedResolver
  import opened TypeEnvironment
  import opened TypeMeaning
  import opened TypeSyntax

  /** `never`, in any number of parentheses and `readonly`s. */
  predicate IsNever(t: Type) {
    t == Kw(NeverKw) || (t.Paren? && IsNever(t.inner)) || (t.Operator? && t.readonly && IsNever(t.inner))
  }

  /** A property that nobody can give a value. */
  predicate IsOptionalNever(m: Signature) {
    m.Property? && m.optional && m.annotation.Some? && IsNever(m.annotation.value)
  }

  predicate HoldsNothing(ms: seq<Signature>) {
    forall i :: 0 <= i < |ms| ==> IsOptionalNever(ms[i])
  }

  predicate IsKeywordFor(keyword: Keyword, v: UnsafeValue) {
    || (keyword == UnknownKw && v == UnknownValue)
    || (keyword == AnyKw && v == AnyValue)
    || (keyword == ObjectKw && v == ObjectValue)
  }

  // The values.

  /** When a type is unsafe as a dictionary value, in terms of its parts. */
  ghost predicate ValueRule(t: Type, env: Environment, v: UnsafeValue) {
    match t
    case Kw(keyword) => IsKeywordFor(keyword, v)
    case Paren(inner) => Means(inner, env, v)
    case Operator(readonly, inner) => readonly && Means(inner, env, v)
    case Literal(signatures) => v == EmptyObjectValue && HoldsNothing(signatures)
    case Union(members) => v == UnionValue && exists i :: 0 <= i < |members| && IsUnsafe(members[i], env)
    case Intersection(members) =>
      if exists i :: 0 <= i < |members| && Means(members[i], env, AnyValue) then v == AnyValue
      else
        && members != [] && Means(members[0], env, v)
        && forall i :: 0 <= i < |members| ==> IsUnsafe(members[i], env)
    case Ref(name, args) =>
      if name in {"Readonly", "Partial", "Required", "NonNullable"} && name !in env.shadowed then
        args != [] && Means(args[0], env, v)
      else if name in env.interfaces then
        && v == EmptyObjectValue
        && exists only :: env.interfaces[name] == [only] && only.extendsCount == 0 && HoldsNothing(only.body)
      else name in env.aliases && exists body :: Expansion(env.aliases[name], args) == Some(body) && Means(body, env, v)
    case _ => false
  }

  lemma {:induction false} NeverIs(t: Type)
    ensures IsNever(t) <==> Unwrap(t) == Kw(NeverKw)
  {
    match t
    case Paren(inner) => NeverIs(inner);
    case Operator(_, inner) => NeverIs(inner);
    case _ =>
  }

  lemma EmptyIs(ms: seq<Signature>)
    ensures HoldsNothing(ms) <==> AllEffectivelyEmpty(ms)
  {
    forall i | 0 <= i < |ms| ensures IsOptionalNever(ms[i]) <==> IsEffectivelyEmptyMember(ms[i]) {
      if ms[i].Property? && ms[i].annotation.Some? { NeverIs(ms[i].annotation.value); }
    }
  }

  lemma MeansLimit(t: Type, env: Environment)
    ensures IsUnsafe(t, env) <==> Limit(t, env).Some?
  {
    if v :| Means(t, env, v) { LimitIs(t, env, v); }
    if Limit(t, env).Some? { LimitIs(t, env, Limit(t, env).value); }
  }

  /** The meaning of a value, shape by shape. */
  lemma MeansByShape(t: Type, env: Environment, v: UnsafeValue)
    ensures Means(t, env, v) <==> ValueRule(t, env, v)
  {
    LimitIs(t, env, v);
    LimitIsFixpoint(t, env);
    match t
    case Paren(inner) => SameMeaning(t, inner, env, v);
    case Operator(readonly, inner) => if readonly { SameMeaning(t, inner, env, v); } else { NoMeaning(t, env, v); }
    case Literal(signatures) => EmptyIs(signatures);
    case Union(members) =>
      forall i | 0 <= i < |members| { MeansLimit(members[i], env); }
    case Intersection(members) => IntersectionMeans(t, env, v);
    case Ref(name, args) => ReferenceMeans(t, env, v);
    case _ => NoMeaning(t, env, v);
  }

  lemma SameMeaning(t: Type, inner: Type, env: Environment, v: UnsafeValue)
    requires Unwrap(t) == Unwrap(inner)
    ensures Means(t, env, v) <==> Means(inner, env, v)
  {
    forall k: nat ensures KindAt(k, t, env) == KindAt(k, inner, env) { }
  }

  lemma NoMeaning(t: Type, env: Environment, v: UnsafeValue)
    requires Unwrap(t) == t && (t.Operator? || t.Mapped? || t.Opaque? || t.Kw?)
    ensures Means(t, env, v) <==> t.Kw? && IsKeywordFor(t.keyword, v)
  {
    assert forall k: nat :: KindAt(k, t, env) == KindAt(0, t, env);
    if t.Kw? && IsKeywordFor(t.keyword, v) { assert KindAt(0, t, env) == Some(v); }
  }

  lemma IntersectionMeans(t: Type, env: Environment, v: UnsafeValue)
    requires t.Intersection?
    ensures Means(t, env, v) <==> ValueRule(t, env, v)
  {
    var (members, verdicts) := (t.members, Says(u => Limit(u, env), t.members));
    LimitIs(t, env, v);
    LimitIsFixpoint(t, env);
    forall i, w | 0 <= i < |members| ensures verdicts[i] == Some(w) <==> Means(members[i], env, w) {
      LimitIs(members[i], env, w);
    }
    forall i | 0 <= i < |members| ensures verdicts[i].Some? <==> IsUnsafe(members[i], env) { MeansLimit(members[i], env); }
    assert Limit(t, env) == Meet(verdicts);
    hide Means, IsUnsafe, Limit, Says;
    MeetIs(verdicts, v);
  }

  lemma MeetIs(verdicts: seq<Verdict>, v: UnsafeValue)
    ensures Meet(verdicts) == Some(v) <==>
              if exists i :: 0 <= i < |verdicts| && verdicts[i] == Some(AnyValue) then v == AnyValue
              else verdicts != [] && verdicts[0] == Some(v) && forall i :: 0 <= i < |verdicts| ==> verdicts[i].Some?
  {
  }

  lemma ReferenceMeans(t: Type, env: Environment, v: UnsafeValue)
    requires t.Ref?
    ensures Means(t, env, v) <==> ValueRule(t, env, v)
  {
    var (name, args) := (t.name, t.args);
    LimitIs(t, env, v);
    LimitIsFixpoint(t, env);
    WrapperIs(name, env);
    if IsWrapper(name, env) {
      if args != [] { LimitIs(args[0], env, v); }
    } else if name in env.interfaces {
      var declarations := env.interfaces[name];
      if |declarations| == 1 {
        assert declarations == [declarations[0]];
        EmptyIs(declarations[0].body);
      }
    } else if name in env.aliases && Expansion(env.aliases[name], args).Some? {
      LimitIs(Expansion(env.aliases[name], args).value, env, v);
    }
  }

  lemma WrapperIs(name: Name, env: Environment)
    ensures IsWrapper(name, env) <==> name in {"Readonly", "Partial", "Required", "NonNullable"} && name !in env.shadowed
    ensures name in {"Pick", "Omit", "Record"} ==> (IsBuiltIn(name, env) <==> name !in env.shadowed)
  {
  }

  ghost predicate ReportsValue(t: Type, env: Environment, v: UnsafeValue) {
    exists depth: nat :: ClassifyValue(depth, t, env) == Done(Some(v))
  }

  /** `classifyUnsafeDictionaryValue`, shape by shape. */
  lemma ValueByShape(t: Type, env: Environment, v: UnsafeValue)
    requires NoGenerics(env)
    ensures ReportsValue(t, env, v) <==> ValueRule(t, env, v)
  {
    MeansByShape(t, env, v);
    ClassifyValueExact(t, env);
    hide ValueRule, Means;
    if Means(t, env, v) { var depth: nat :| ClassifyValue(depth, t, env).Done?; }
  }

  // The dictionaries.

  /** Some index signature is unsafe for reason `v`, and no earlier one is unsafe. */
  ghost predicate FirstSignatureMeans(ms: seq<Signature>, env: Environment, v: UnsafeValue) {
    exists i :: 0 <= i < |ms| && SignatureMeans(ms[i], env, v) && forall j :: 0 <= j < i ==> SignatureIsSafe(ms[j], env)
  }

  ghost predicate SignatureMeans(m: Signature, env: Environment, v: UnsafeValue) {
    m.IndexSignature? && m.annotation.Some? && Means(m.annotation.value, env, v)
  }

  ghost predicate SignatureIsSafe(m: Signature, env: Environment) {
    m.IndexSignature? && m.annotation.Some? ==> !IsUnsafe(m.annotation.value, env)
  }

  /** When a dictionary type is reported, in terms of its parts. */
  ghost predicate DictionaryRule(t: Type, env: Environment, v: UnsafeValue) {
    match t
    case Paren(inner) => StoresFirst(inner, env, v)
    case Operator(readonly, inner) => readonly && StoresFirst(inner, env, v)
    case Literal(signatures) => FirstSignatureMeans(signatures, env, v)
    case Mapped(value) => value.Some? && Means(value.value, env, v)
    case Ref(name, args) =>
      if name in {"Readonly", "Partial", "Required", "NonNullable", "Pick", "Omit"} && name !in env.shadowed then
        args != [] && StoresFirst(args[0], env, v)
      else if name == "Record" && name !in env.shadowed then |args| >= 2 && Means(args[1], env, v)
      else
        name in env.aliases && exists body :: Expansion(env.aliases[name], args) == Some(body) && StoresFirst(body, env, v)
    case _ => false
  }

  lemma {:induction false} LiteralFirst(ms: seq<Signature>, env: Environment, v: UnsafeValue)
    ensures FirstMeans(IndexValues(ms), env, v) <==> FirstSignatureMeans(ms, env, v)
  {
    if ms != [] {
      var m := ms[0];
      LiteralFirst(ms[1..], env, v);
      FirstSignatureStep(ms, env, v);
      hide Means, IsUnsafe, FirstMeans, FirstSignatureMeans;
      if m.IndexSignature? && m.annotation.Some? {
        FirstMeansStep(IndexValues(ms), env, v);
        assert IndexValues(ms)[1..] == IndexValues(ms[1..]);
      } else {
        assert IndexValues(ms) == IndexValues(ms[1..]);
      }
    }
  }

  lemma FirstSignatureStep(ms: seq<Signature>, env: Environment, v: UnsafeValue)
    requires ms != []
    ensures FirstSignatureMeans(ms, env, v) <==>
              SignatureMeans(ms[0], env, v) || (SignatureIsSafe(ms[0], env) && FirstSignatureMeans(ms[1..], env, v))
  {
    var rest := ms[1..];
    hide SignatureMeans, SignatureIsSafe;
    if FirstSignatureMeans(ms, env, v) && !SignatureMeans(ms[0], env, v) {
      var i :| 0 <= i < |ms| && SignatureMeans(ms[i], env, v) && forall j :: 0 <= j < i ==> SignatureIsSafe(ms[j], env);
      assert SignatureMeans(rest[i - 1], env, v) && forall j :: 0 <= j < i - 1 ==> rest[j] == ms[j + 1];
    }
    if SignatureIsSafe(ms[0], env) && FirstSignatureMeans(rest, env, v) {
      var i :| 0 <= i < |rest| && SignatureMeans(rest[i], env, v) && forall j :: 0 <= j < i ==> SignatureIsSafe(rest[j], env);
      assert SignatureMeans(ms[i + 1], env, v) && forall j :: 0 < j < i + 1 ==> ms[j] == rest[j - 1];
    }
  }

  lemma OneStored(t: Type, env: Environment, v: UnsafeValue)
    ensures FirstMeans([t], env, v) <==> Means(t, env, v)
    ensures !FirstMeans([], env, v)
  {
    if Means(t, env, v) { assert Means([t][0], env, v); }
  }

  /** What a dictionary stores first, shape by shape. */
  lemma StoresByShape(t: Type, env: Environment, v: UnsafeValue)
    ensures StoresFirst(t, env, v) <==> DictionaryRule(t, env, v)
  {
    hide FirstMeans, Means;
    match t
    case Paren(inner) => SameFirst(t, inner, env, v);
    case Operator(readonly, inner) => if readonly { SameFirst(t, inner, env, v); } else { StoresAtOnce(t, env, v); }
    case Ref(name, args) => ReferenceStoresFirst(t, env, v);
    case _ => StoresAtOnce(t, env, v);
  }

  lemma SameFirst(t: Type, other: Type, env: Environment, v: UnsafeValue)
    requires forall k: nat :: ValuesAt(k, t, env) == ValuesAt(k, other, env)
    ensures StoresFirst(t, env, v) <==> StoresFirst(other, env, v)
  {
  }

  lemma StoresAtOnce(t: Type, env: Environment, v: UnsafeValue)
    requires Unwrap(t) == t && !t.Ref? && !t.Paren?
    ensures StoresFirst(t, env, v) <==>
              match t
              case Literal(signatures) => FirstSignatureMeans(signatures, env, v)
              case Mapped(value) => value.Some? && Means(value.value, env, v)
              case _ => false
  {
    hide FirstMeans, Means, FirstSignatureMeans;
    var values := ValuesAt(0, t, env);
    assert forall k: nat :: ValuesAt(k, t, env) == values;
    if t.Literal? { LiteralFirst(t.signatures, env, v); }
    else if t.Mapped? && t.value.Some? { OneStored(t.value.value, env, v); }
    else { OneStored(t, env, v); }
  }

  lemma ReferenceStoresFirst(t: Type, env: Environment, v: UnsafeValue)
    requires t.Ref?
    ensures StoresFirst(t, env, v) <==> DictionaryRule(t, env, v)
  {
    hide FirstMeans, Means, ValuesAt;
    var (name, args) := (t.name, t.args);
    WrapperIs(name, env);
    forall k: nat { ReferenceStores(k, t, env); }
    OneStored(t, env, v);
    if IsWrapper(name, env) || (name in {"Pick", "Omit"} && IsBuiltIn(name, env)) {
      if args != [] { SameFirst(t, args[0], env, v); }
    } else if name == "Record" && IsBuiltIn(name, env) {
      if |args| >= 2 { OneStored(args[1], env, v); assert ValuesAt(0, t, env) == [args[1]]; }
    } else if name in env.aliases && Expansion(env.aliases[name], args).Some? {
      var body := Expansion(env.aliases[name], args).value;
      if StoresFirst(body, env, v) {
        var k: nat :| FirstMeans(ValuesAt(k, body, env), env, v);
        assert ValuesAt(k + 1, t, env) == ValuesAt(k, body, env);
      }
      if StoresFirst(t, env, v) {
        var k: nat :| FirstMeans(ValuesAt(k, t, env), env, v);
        assert k > 0 && ValuesAt(k, t, env) == ValuesAt(k - 1, body, env);
      }
    }
  }

  ghost predicate Reports(t: Type, env: Environment, v: UnsafeValue) {
    exists depth: nat :: ClassifyDictionary(depth, t, env) == Done(Some(v))
  }

  lemma SameReport(t: Type, env: Environment, d: nat, v: UnsafeValue)
    requires ClassifyDictionary(d, t, env).Done?
    ensures Reports(t, env, v) <==> ClassifyDictionary(d, t, env) == Done(Some(v))
  {
    if Reports(t, env, v) {
      var e: nat :| ClassifyDictionary(e, t, env) == Done(Some(v));
      Deeper(d, if d < e then e else d, t, env);
      Deeper(e, if d < e then e else d, t, env);
    }
  }

  lemma Deeper(d: nat, e: nat, t: Type, env: Environment)
    requires d <= e && ClassifyDictionary(d, t, env).Done?
    ensures ClassifyDictionary(e, t, env) == ClassifyDictionary(d, t, env)
  {
    ValueTypesDeeper(d, e, t, env, map[], {});
    FirstUnsafeDeeper(d, e, ValueTypes(d, t, env, map[], {}).result, env);
  }

  /** `classifyUnsafeDictionary`, shape by shape, without generic aliases. */
  lemma DictionaryByShape(t: Type, env: Environment, v: UnsafeValue)
    requires NoGenerics(env)
    ensures Reports(t, env, v) <==> DictionaryRule(t, env, v)
  {
    var depth := ClassifyDictionaryExact(t, env);
    StoresByShape(t, env, v);
    hide DictionaryRule, StoresFirst, ClassifyDictionary;
    SameReport(t, env, depth, v);
  }

  /** And with generic aliases whose levels fit. */
  lemma DictionaryByShapeStratified(t: Type, env: Environment, level: Level, v: UnsafeValue)
    requires Hygienic(env) && IsQuery(t, env)
    requires Stratified(env, AllParameters(env), level) && Layered(env, AllParameters(env), level, t)
    ensures Reports(t, env, v) <==> DictionaryRule(t, env, v)
  {
    var depth := ClassifyDictionaryStratified(t, env, level);
    StoresByShape(t, env, v);
    hide DictionaryRule, StoresFirst, ClassifyDictionary;
    SameReport(t, env, depth, v);
  }

  /** A literal is reported for its first unsafe index signature, wherever it stands. */
  lemma LiteralReported(ms: seq<Signature>, env: Environment, v: UnsafeValue)
    requires NoGenerics(env)
    ensures Reports(Literal(ms), env, v) <==>
              exists i :: 0 <= i < |ms| && SignatureMeans(ms[i], env, v)
                          && forall j :: 0 <= j < i ==> SignatureIsSafe(ms[j], env)
  {
    DictionaryByShape(Literal(ms), env, v);
  }

  /** `values` are the types that the annotated index signatures, those at the
      positions `at`, annotate. */
  ghost predicate InOrder(ms: seq<Signature>, values: seq<Type>, at: seq<nat>) {
    && |at| == |values|
    && (forall k, l :: 0 <= k < l < |at| ==> at[k] < at[l])
    && (forall k :: 0 <= k < |at| ==> at[k] < |ms| && ms[at[k]] == IndexSignature(Some(values[k])))
    && forall i: nat :: i < |ms| && ms[i].IndexSignature? && ms[i].annotation.Some? ==> i in at
  }

  /** The value types of a literal are those of its index signatures, in their order. */
  lemma {:induction false} SignaturesInOrder(ms: seq<Signature>) returns (at: seq<nat>)
    ensures InOrder(ms, IndexValues(ms), at)
    decreases |ms|
  {
    at := [];
    if ms != [] {
      hide InOrder, InOrderLater;
      var rest := SignaturesInOrder(ms[1..]);
      var values := IndexValues(ms[1..]);
      at := Later(ms, values, rest);
      if ms[0].IndexSignature? && ms[0].annotation.Some? {
        assert IndexValues(ms) == [ms[0].annotation.value] + values;
        hide IndexValues;
        FirstInOrder(ms, ms[0].annotation.value, values, at);
        at := [0] + at;
      } else {
        assert IndexValues(ms) == values;
        SkipInOrder(ms, values, at);
      }
    }
  }

  /** `at` are the positions of the values from position 1 on. */
  ghost predicate InOrderLater(ms: seq<Signature>, values: seq<Type>, at: seq<nat>) {
    && |at| == |values|
    && (forall k, l :: 0 <= k < l < |at| ==> at[k] < at[l])
    && (forall k :: 0 <= k < |at| ==> 0 < at[k] < |ms| && ms[at[k]] == IndexSignature(Some(values[k])))
    && forall i: nat :: 0 < i < |ms| && ms[i].IndexSignature? && ms[i].annotation.Some? ==> i in at
  }

  lemma SkipInOrder(ms: seq<Signature>, values: seq<Type>, later: seq<nat>)
    requires ms != [] && !(ms[0].IndexSignature? && ms[0].annotation.Some?) && InOrderLater(ms, values, later)
    ensures InOrder(ms, values, later)
  {
  }

  lemma FirstInOrder(ms: seq<Signature>, value: Type, values: seq<Type>, later: seq<nat>)
    requires ms != [] && ms[0] == IndexSignature(Some(value)) && InOrderLater(ms, values, later)
    ensures InOrder(ms, [value] + values, [0] + later)
  {
    var at := [0] + later;
    assert at[0] == 0;
    assert forall k :: 0 < k < |at| ==> at[k] == later[k - 1];
    assert forall i :: i in later ==> i in at;
  }

  lemma Later(ms: seq<Signature>, values: seq<Type>, rest: seq<nat>) returns (at: seq<nat>)
    requires ms != [] && InOrder(ms[1..], values, rest)
    ensures InOrderLater(ms, values, at)
  {
    at := seq(|rest|, k requires 0 <= k < |rest| => rest[k] + 1);
    assert forall k :: 0 <= k < |at| ==> ms[at[k]] == ms[1..][rest[k]];
    forall i: nat | 0 < i < |ms| && ms[i].IndexSignature? && ms[i].annotation.Some? ensures i in at {
      assert ms[1..][i - 1] == ms[i];
      var k :| 0 <= k < |rest| && rest[k] == i - 1;
      assert at[k] == i;
    }
  }

  /** A reference to an alias without parameters stands for the alias's body. */
  lemma PlainAliasByShape(a: Name, args: seq<Type>, env: Environment, v: UnsafeValue)
    requires NoGenerics(env) && a in env.aliases && (a in BUILT_INS ==> a in env.shadowed)
    ensures Reports(Ref(a, args), env, v) <==> Reports(env.aliases[a].body, env, v)
    ensures a !in env.interfaces ==> (ReportsValue(Ref(a, args), env, v) <==> ReportsValue(env.aliases[a].body, env, v))
  {
    var (t, body) := (Ref(a, args), env.aliases[a].body);
    var expanded := Apply(map[], body);
    PlainExpansion(env, a, args, 0);
    ApplyNormal(map[], body);
    DictionaryByShape(t, env, v);
    DictionaryByShape(body, env, v);
    StoresByShape(body, env, v);
    ValueByShape(t, env, v);
    ValueByShape(body, env, v);
    MeansByShape(body, env, v);
    hide Reports, ReportsValue, DictionaryRule, ValueRule, StoresFirst, Means;
    NormalMeans(body, env, v);
    PlainReference(t, expanded, env, v);
  }

  lemma PlainReference(t: Type, expanded: Type, env: Environment, v: UnsafeValue)
    requires t.Ref? && t.name in env.aliases && (t.name in BUILT_INS ==> t.name in env.shadowed)
    requires Expansion(env.aliases[t.name], t.args) == Some(expanded)
    ensures DictionaryRule(t, env, v) <==> StoresFirst(expanded, env, v)
    ensures t.name !in env.interfaces ==> (ValueRule(t, env, v) <==> Means(expanded, env, v))
  {
    hide StoresFirst, Means, Expansion;
  }

  lemma NormalMeans(t: Type, env: Environment, v: UnsafeValue)
    ensures Means(Apply(map[], t), env, v) <==> Means(t, env, v)
    ensures StoresFirst(Apply(map[], t), env, v) <==> StoresFirst(t, env, v)
  {
    ApplyNormal(map[], t);
    if Means(t, env, v) { SameMeanings(t, Apply(map[], t), env, v); }
    if Means(Apply(map[], t), env, v) { SameMeanings(Apply(map[], t), t, env, v); }
    forall k: nat ensures FirstMeans(ValuesAt(k, Apply(map[], t), env), env, v) <==> FirstMeans(ValuesAt(k, t, env), env, v) {
      var stored := ValuesAt(k, t, env);
      ValuesNormal(k, t, env);
      SameTypesNormal(stored, stored);
      hide FirstMeans;
      var normal := ApplyAll(map[], stored);
      if FirstMeans(stored, env, v) { FirstMeansSame(stored, normal, env, v); }
      if FirstMeans(normal, env, v) { FirstMeansSame(normal, stored, env, v); }
    }
  }
}
