/** Concrete programs that show where the resolver's guarantees end. */
module ResolverLimits {
  import opened AliasLevels
  import opened DictionaryTypes
  import opened Options
  import opened ParameterScope
  import opened Substitution
  import opened TypeEnvironment
  import opened TypeMeaning
  import opened TypeSyntax

  const NUMBER := Kw(OtherKw)

  /** `S | null` */
  const S_OR_NULL := Union([Ref("S", []), Kw(OtherKw)])

  const NOTHING: Substitutions := map[]

  function Program(aliases: map<Name, Alias>): Environment {
    Environment(aliases, map[], {})
  }

  lemma ShortNamesAreNoWrappers(name: Name, env: Environment)
    requires |name| < 7
    ensures !IsWrapper(name, env)
  {
    assert |"Readonly"| == 8 && |"Partial"| == 7 && |"Required"| == 8 && |"NonNullable"| == 11;
  }

  /** One call on an alias that can be entered. */
  lemma Enters(
    depth: nat, name: Name, args: seq<Type>, env: Environment, subs: Substitutions, resolving: set<Name>,
    next: Substitutions)
    requires |name| < 7 && depth > 0 && name in env.aliases && name !in subs && name !in env.interfaces
    requires name !in resolving && BindParameters(env.aliases[name].params, args, subs) == Some(next)
    ensures DirectValue(depth, Ref(name, args), env, subs, resolving)
         == DirectValue(depth - 1, env.aliases[name].body, env, next, resolving + {name})
  {
    ShortNamesAreNoWrappers(name, env);
  }

  /** One call on a bound parameter. */
  lemma Substitutes(depth: nat, name: Name, env: Environment, subs: Substitutions, resolving: set<Name>)
    requires |name| < 7 && depth > 0 && name in subs && !IsUnappliedReferenceTo(subs[name], name)
    ensures DirectValue(depth, Ref(name, []), env, subs, resolving) == DirectValue(depth - 1, subs[name], env, subs, resolving)
  {
    ShortNamesAreNoWrappers(name, env);
  }

  /** A parameter bound to a union that mentions it sends the search round for ever. */
  lemma {:induction false} SelfReferenceDiverges(depth: nat, env: Environment, subs: Substitutions, resolving: set<Name>)
    requires "S" in subs && subs["S"] == S_OR_NULL
    ensures DirectValue(depth, S_OR_NULL, env, subs, resolving) == OutOfDepth
    decreases depth
  {
    if depth >= 2 {
      SelfReferenceDiverges(depth - 2, env, subs, resolving);
      Substitutes(depth - 1, "S", env, subs, resolving);
      assert SomeMember(depth - 1, S_OR_NULL.members, 0, env, subs, resolving) == OutOfDepth;
    } else if depth == 1 {
      assert DirectValue(0, Ref("S", []), env, subs, resolving) == OutOfDepth;
      assert SomeMember(0, S_OR_NULL.members, 0, env, subs, resolving) == OutOfDepth;
    }
  }

  // type Option<S> = S;  type Deep<S> = Option<S | null>;

  const PARAMETER_S := [Parameter("S", None)]

  const SHARED_NAME := Program(map[
    "Option" := Alias(PARAMETER_S, Ref("S", [])),
    "Deep" := Alias(PARAMETER_S, Ref("Option", [S_OR_NULL]))])

  lemma BindsOne(arg: Type, subs: Substitutions)
    requires !Unwrap(arg).Ref?
    ensures BindParameters(PARAMETER_S, [arg], subs) == Some(subs["S" := arg])
  {
    assert PARAMETER_S[1..] == [];
  }

  /** Two aliases share a parameter name: no depth answers on `Deep<number>`. */
  lemma SharedNameDiverges(depth: nat)
    ensures ClassifyValue(depth, Ref("Deep", [NUMBER]), SHARED_NAME) == OutOfDepth
  {
    var (env, more) := (SHARED_NAME, depth + 4);
    var (outer, inner) := (NOTHING["S" := NUMBER], NOTHING["S" := NUMBER]["S" := S_OR_NULL]);
    assert "Deep" != "Option" by { assert |"Deep"| != |"Option"|; }
    BindsOne(NUMBER, NOTHING);
    Enters(more, "Deep", [NUMBER], env, NOTHING, {}, outer);
    BindsOne(S_OR_NULL, outer);
    Enters(more - 1, "Option", [S_OR_NULL], env, outer, {} + {"Deep"}, inner);
    Substitutes(more - 2, "S", env, inner, {} + {"Deep"} + {"Option"});
    SelfReferenceDiverges(more - 3, env, inner, {} + {"Deep"} + {"Option"});
    if ClassifyValue(depth, Ref("Deep", [NUMBER]), env).Done? {
      DirectValueDeeper(depth, more, Ref("Deep", [NUMBER]), env, NOTHING, {});
    }
  }

  /** The name by itself, in any number of parentheses and `readonly`s. */
  predicate IsOwnName(t: Type, name: Name) {
    t == Ref(name, []) || (t.Paren? && IsOwnName(t.inner, name)) || (t.Operator? && t.readonly && IsOwnName(t.inner, name))
  }

  lemma {:induction false} OwnNameIs(t: Type, name: Name)
    ensures IsOwnName(t, name) <==> Unwrap(t) == Ref(name, [])
  {
    match t
    case Paren(inner) => OwnNameIs(inner, name);
    case Operator(_, inner) => OwnNameIs(inner, name);
    case _ =>
  }

  /** A parameter bound to itself is looked up once: it is no unsafe value and no dictionary. */
  lemma OwnNameStops(depth: nat, name: Name, args: seq<Type>, env: Environment, subs: Substitutions, resolving: set<Name>)
    requires depth > 0 && name in subs && IsOwnName(subs[name], name) && name !in BUILT_INS
    ensures DirectValue(depth, Ref(name, args), env, subs, resolving) == Done(None)
    ensures ValueTypes(depth, Ref(name, args), env, subs, resolving) == Done([])
  {
    OwnNameIs(subs[name], name);
  }

  /** So `Option<S>`, used where a type parameter `S` is in scope, is found safe. */
  lemma FreeParameterIsSafe()
    ensures var t := Ref("Option", [Ref("S", [])]);
            ClassifyValue(2, t, SHARED_NAME) == Done(None) && ClassifyDictionary(2, t, SHARED_NAME) == Done(None)
  {
    var (env, own) := (SHARED_NAME, Ref("S", []));
    var next := NOTHING["S" := own];
    SelfBound(own);
    OptionIsAnAlias();
    hide BindParameters;
    Enters(2, "Option", [own], env, NOTHING, {}, next);
    ValueStep(2, Ref("Option", [own]), env, NOTHING, {});
    OwnNameStops(1, "S", [], env, next, {} + {"Option"});
  }

  lemma SelfBound(own: Type)
    requires own == Ref("S", [])
    ensures BindParameters(PARAMETER_S, [own], NOTHING) == Some(NOTHING["S" := own])
  {
    assert ResolvedArgument(own, NOTHING) == own;
    assert PARAMETER_S[1..] == [];
  }

  lemma OptionIsAnAlias()
    ensures "Option" in SHARED_NAME.aliases && SHARED_NAME.aliases["Option"] == Alias(PARAMETER_S, Ref("S", []))
    ensures "Option" !in BUILT_INS && "S" !in BUILT_INS
  {
    assert "Deep" != "Option" by { assert |"Deep"| != |"Option"|; }
    assert forall n :: n in BUILT_INS ==> |n| > 1 && (|n| == 6 ==> n[0] == 'R');
  }

  // type Box<S, R = Record<string, Box<S | null, S>>> = R;

  const DEFAULT_R := Ref("Record", [Kw(OtherKw), Ref("Box", [S_OR_NULL, Ref("S", [])])])

  const PARAMETERS_SR := [Parameter("S", None), Parameter("R", Some(DEFAULT_R))]

  const DEFAULT_REENTERS := Program(map["Box" := Alias(PARAMETERS_SR, Ref("R", []))])

  /** The program is hygienic: its one default mentions an earlier parameter only. */
  lemma DefaultReentersIsHygienic()
    ensures Hygienic(DEFAULT_REENTERS) && InScope(Ref("Box", [NUMBER]), {}, AllParameters(DEFAULT_REENTERS))
  {
    BoxParameters();
    BoxScopes();
    hide AllParameters, NameSet, InScope, DefaultsInScope;
    assert forall n :: n in BUILT_INS ==> |n| > 1;
    assert |"Box"| == 3;
    assert DistinctNames(PARAMETERS_SR) by { assert "S"[0] != "R"[0]; }
  }

  /** The parameters of a program of one alias. */
  lemma SoleAlias(env: Environment, name: Name, alias: Alias)
    requires env.aliases == map[name := alias]
    ensures AllParameters(env) == NameSet(alias.params)
  {
    assert name in env.aliases && env.aliases[name] == alias;
    forall n ensures n in AllParameters(env) <==> n in NameSet(alias.params) {
      if n in NameSet(alias.params) {
        var p :| p in alias.params && p.name == n;
        assert name in env.aliases && p in env.aliases[name].params;
      }
    }
  }

  lemma BoxParameters()
    ensures AllParameters(DEFAULT_REENTERS) == {"S", "R"} == NameSet(PARAMETERS_SR)
  {
    SoleAlias(DEFAULT_REENTERS, "Box", Alias(PARAMETERS_SR, Ref("R", [])));
    var ps := PARAMETERS_SR;
    assert ps[0].name == "S" && ps[1].name == "R" && ps[0] in ps && ps[1] in ps;
  }

  lemma BoxScopes()
    ensures InScope(Ref("Box", [NUMBER]), {}, {"S", "R"})
    ensures InScope(Ref("R", []), {"S", "R"}, {"S", "R"})
    ensures DefaultsInScope(PARAMETERS_SR, {}, {"S", "R"})
  {
    var outside := {"S", "R"} - {"S"};
    assert "Record" !in {"S", "R"} && "Box" !in {"S", "R"} by { assert |"Record"| != 1 && |"Box"| != 1; }
    assert "S" != "R" by { assert "S"[0] != "R"[0]; }
    var union := S_OR_NULL;
    assert Avoids(union, outside) by {
      assert Avoids(union.members[0], outside) && Avoids(union.members[1], outside);
    }
    var stored := Ref("Box", [union, Ref("S", [])]);
    assert Avoids(stored, outside) by {
      assert Avoids(stored.args[0], outside) && Avoids(stored.args[1], outside);
    }
    var default := DEFAULT_R;
    assert Avoids(default, outside) by {
      assert Avoids(default.args[0], outside) && Avoids(default.args[1], outside);
    }
    var none: set<Name> := {};
    assert none + {"S"} == {"S"};
    assert PARAMETERS_SR[1..] == [PARAMETERS_SR[1]] && PARAMETERS_SR[1..][1..] == [];
    assert DefaultsInScope(PARAMETERS_SR[1..], {"S"}, {"S", "R"});
  }

  const FIRST_BOUND := NOTHING["S" := NUMBER]["R" := DEFAULT_R]

  const STORED_BOX := Ref("Box", [S_OR_NULL, Ref("S", [])])

  /** The first phase on `Box<number>` finds the stored type under its own bindings. */
  lemma BoxStores(depth: nat)
    requires depth >= 3
    ensures ValueTypes(depth, Ref("Box", [NUMBER]), DEFAULT_REENTERS, NOTHING, {}) == Done([ResolvedType(STORED_BOX, FIRST_BOUND)])
  {
    var env := DEFAULT_REENTERS;
    BindsBox(FIRST_BOUND, STORED_BOX, FIRST_BOUND["S" := S_OR_NULL]["R" := S_OR_NULL]);
    RecordIsFree(env);
    ShortNamesAreNoWrappers("Box", env);
    ShortNamesAreNoWrappers("R", env);
    assert "Box" != "Record" && "Box" !in {"Pick", "Omit"} by {
      assert |"Box"| == 3 && |"Record"| == 6 && |"Pick"| == 4 && |"Omit"| == 4;
    }
    hide BindParameters, IsWrapper, IsBuiltIn;
    ValueStep(depth, Ref("Box", [NUMBER]), env, NOTHING, {});
    ValueStep(depth - 1, Ref("R", []), env, FIRST_BOUND, {} + {"Box"});
    ValueStep(depth - 2, DEFAULT_R, env, FIRST_BOUND, {} + {"Box"});
  }

  /** The second phase on that type binds `S` to a union that mentions it. */
  lemma StoredBoxDiverges(depth: nat)
    requires depth >= 2
    ensures DirectValue(depth, STORED_BOX, DEFAULT_REENTERS, FIRST_BOUND, {}) == OutOfDepth
  {
    var (env, second) := (DEFAULT_REENTERS, FIRST_BOUND["S" := S_OR_NULL]["R" := S_OR_NULL]);
    BindsBox(FIRST_BOUND, STORED_BOX, second);
    hide DirectValue, BindParameters;
    Enters(depth, "Box", STORED_BOX.args, env, FIRST_BOUND, {}, second);
    Substitutes(depth - 1, "R", env, second, {} + {"Box"});
    SelfReferenceDiverges(depth - 2, env, second, {} + {"Box"});
  }

  /** Yet no depth answers on `Box<number>`: the second phase enters `Box` again
      and overwrites the `S` that the stored type mentions. */
  lemma RestartDiverges(depth: nat)
    ensures ClassifyDictionary(depth, Ref("Box", [NUMBER]), DEFAULT_REENTERS) == OutOfDepth
  {
    var (env, more, t) := (DEFAULT_REENTERS, depth + 4, Ref("Box", [NUMBER]));
    BoxStores(more);
    StoredBoxDiverges(more);
    hide DirectValue, ValueTypes, BindParameters;
    assert ClassifyDictionary(more, t, env) == OutOfDepth;
    if ClassifyDictionary(depth, t, env).Done? {
      var vs := ValueTypes(depth, t, env, NOTHING, {}).result;
      ValueTypesDeeper(depth, more, t, env, NOTHING, {});
      FirstUnsafeDeeper(depth, more, vs, env);
    }
  }

  lemma RecordIsFree(env: Environment)
    requires env == DEFAULT_REENTERS
    ensures IsBuiltIn("Record", env) && !IsWrapper("Record", env)
  {
    ShortNamesAreNoWrappers("Record", env);
  }

  lemma BindsBox(first: Substitutions, stored: Type, second: Substitutions)
    requires first == NOTHING["S" := NUMBER]["R" := DEFAULT_R] && stored == Ref("Box", [S_OR_NULL, Ref("S", [])])
    requires second == first["S" := S_OR_NULL]["R" := S_OR_NULL]
    ensures "Box" !in first && "S" in second && second["S"] == S_OR_NULL
    ensures BindParameters(PARAMETERS_SR, [NUMBER], NOTHING) == Some(first)
    ensures BindParameters(PARAMETERS_SR, stored.args, first) == Some(second)
  {
    assert "S" != "R" by { assert "S"[0] != "R"[0]; }
    assert |"Box"| != 1 && |"Record"| != 1;
    assert PARAMETERS_SR[1..][1..] == [];
    var half := first["S" := S_OR_NULL];
    assert BindParameters(PARAMETERS_SR[1..], [], NOTHING["S" := NUMBER]) == Some(first);
    assert ResolvedArgument(Ref("S", []), half) == ResolvedArgument(half["S"], half, {"S"}) == S_OR_NULL;
    assert stored.args[1..] == [Ref("S", [])];
    assert BindParameters(PARAMETERS_SR[1..], [Ref("S", [])], half) == Some(second);
  }

  // type Box<S, T, R = Record<string, Box<T, S, S>>> = R;

  const SWAPPED := Ref("Box", [Ref("T", []), Ref("S", []), Ref("S", [])])

  const DEFAULT_SWAPS := Ref("Record", [Kw(OtherKw), SWAPPED])

  const PARAMETERS_STR := [Parameter("S", None), Parameter("T", None), Parameter("R", Some(DEFAULT_SWAPS))]

  const SWAPS := Program(map["Box" := Alias(PARAMETERS_STR, Ref("R", []))])

  /** `Box<number, unknown>` */
  const SWAP_QUERY := Ref("Box", [NUMBER, Kw(UnknownKw)])

  lemma ShortNamesDiffer()
    ensures "S" != "T" && "S" != "R" && "T" != "R" && "Box" !in {"S", "T", "R"} && "Record" !in {"S", "T", "R"}
  {
    assert "S"[0] != "T"[0] && "S"[0] != "R"[0] && "T"[0] != "R"[0] && |"Box"| == 3 && |"Record"| == 6;
  }

  /** All its names are kept apart; its one default mentions earlier parameters only. */
  lemma DefaultSwapsIsHygienic()
    ensures Hygienic(SWAPS) && InScope(SWAP_QUERY, {}, AllParameters(SWAPS))
  {
    SwapParameters();
    SwapScopes();
    ShortNamesDiffer();
    hide AllParameters, NameSet, InScope, DefaultsInScope;
    assert forall n :: n in BUILT_INS ==> |n| > 1;
    assert DistinctNames(PARAMETERS_STR);
  }

  lemma SwapParameters()
    ensures AllParameters(SWAPS) == {"S", "T", "R"} == NameSet(PARAMETERS_STR)
  {
    var ps := PARAMETERS_STR;
    SoleAlias(SWAPS, "Box", SWAPS.aliases["Box"]);
    assert ps[0].name == "S" && ps[1].name == "T" && ps[2].name == "R" && ps[0] in ps && ps[1] in ps && ps[2] in ps;
  }

  lemma SwapScopes()
    ensures var all := {"S", "T", "R"};
            && InScope(SWAP_QUERY, {}, all) && InScope(Ref("R", []), all, all) && DefaultsInScope(PARAMETERS_STR, {}, all)
  {
    ShortNamesDiffer();
    var all := {"S", "T", "R"};
    var outside := all - {"S", "T"};
    assert Avoids(SWAPPED, outside) by {
      assert Avoids(SWAPPED.args[0], outside) && Avoids(SWAPPED.args[1], outside) && Avoids(SWAPPED.args[2], outside);
    }
    var default := DEFAULT_SWAPS;
    assert Avoids(default, outside) by { assert Avoids(default.args[0], outside) && Avoids(default.args[1], outside); }
    var none: set<Name> := {};
    assert none + {"S"} == {"S"} && none + {"S"} + {"T"} == {"S", "T"};
    var (ps, rest) := (PARAMETERS_STR, PARAMETERS_STR[1..]);
    assert rest[0] == ps[1] && rest[1..] == [ps[2]] && rest[1..][1..] == [];
    assert DefaultsInScope(rest[1..], {"S", "T"}, all);
    assert DefaultsInScope(rest, {"S"}, all);
  }

  const SWAP_FIRST := NOTHING["S" := NUMBER]["T" := Kw(UnknownKw)]["R" := DEFAULT_SWAPS]

  const SWAP_SECOND := SWAP_FIRST["S" := Kw(UnknownKw)]["T" := Kw(UnknownKw)]["R" := Kw(UnknownKw)]

  lemma BindsSwap()
    ensures "Box" !in SWAP_FIRST && "Box" !in NOTHING
    ensures BindParameters(PARAMETERS_STR, SWAP_QUERY.args, NOTHING) == Some(SWAP_FIRST)
    ensures BindParameters(PARAMETERS_STR, SWAPPED.args, SWAP_FIRST) == Some(SWAP_SECOND)
  {
    ShortNamesDiffer();
    var (ps, unknown) := (PARAMETERS_STR, Kw(UnknownKw));
    assert ps[1..][0] == ps[1] && ps[1..][1..] == [ps[2]] && ps[1..][1..][1..] == [];
    var one := NOTHING["S" := NUMBER];
    assert SWAP_QUERY.args[1..] == [unknown] && SWAP_QUERY.args[1..][1..] == [];
    assert BindParameters(ps[1..][1..], [], one["T" := unknown]) == Some(SWAP_FIRST);
    assert BindParameters(ps[1..], [unknown], one) == Some(SWAP_FIRST);
    // `S` becomes what `T` was, and then `T` and `R` become what `S` is by now.
    var half := SWAP_FIRST["S" := unknown];
    assert ResolvedArgument(Ref("T", []), SWAP_FIRST) == ResolvedArgument(SWAP_FIRST["T"], SWAP_FIRST, {"T"}) == unknown;
    assert ResolvedArgument(Ref("S", []), half) == ResolvedArgument(half["S"], half, {"S"}) == unknown;
    var most := half["T" := unknown];
    assert ResolvedArgument(Ref("S", []), most) == ResolvedArgument(most["S"], most, {"S"}) == unknown;
    assert SWAPPED.args[1..] == [Ref("S", []), Ref("S", [])] && SWAPPED.args[1..][1..] == [Ref("S", [])];
    assert BindParameters(ps[1..][1..], [Ref("S", [])], most) == Some(SWAP_SECOND);
    assert BindParameters(ps[1..], SWAPPED.args[1..], half) == Some(SWAP_SECOND);
  }

  /** The first phase on the query finds the default's stored type. */
  lemma SwapIsStored()
    ensures ValueTypes(6, SWAP_QUERY, SWAPS, NOTHING, {}) == Done([ResolvedType(SWAPPED, SWAP_FIRST)])
  {
    var env := SWAPS;
    ShortNamesDiffer();
    BindsSwap();
    ShortNamesAreNoWrappers("Box", env);
    ShortNamesAreNoWrappers("R", env);
    ShortNamesAreNoWrappers("Record", env);
    assert "Box" != "Record" && "Box" !in {"Pick", "Omit"} by {
      assert |"Box"| == 3 && |"Record"| == 6 && |"Pick"| == 4 && |"Omit"| == 4;
    }
    assert IsBuiltIn("Record", env);
    hide BindParameters, IsWrapper, IsBuiltIn, DirectValue, ValueTypes;
    ValueStep(6, SWAP_QUERY, env, NOTHING, {});
    ValueStep(5, Ref("R", []), env, SWAP_FIRST, {} + {"Box"});
    ValueStep(4, DEFAULT_SWAPS, env, SWAP_FIRST, {} + {"Box"});
  }

  lemma SwapIsReported()
    ensures DirectValue(6, SWAPPED, SWAPS, SWAP_FIRST, {}) == Done(Some(UnknownValue))
  {
    ShortNamesDiffer();
    BindsSwap();
    hide BindParameters, DirectValue;
    Enters(6, "Box", SWAPPED.args, SWAPS, SWAP_FIRST, {}, SWAP_SECOND);
    Substitutes(5, "R", SWAPS, SWAP_SECOND, {} + {"Box"});
    KeywordAnswers(4, Kw(UnknownKw), SWAPS, SWAP_SECOND, {} + {"Box"});
  }

  /** The second phase captures `S` while it binds the parameters of `Box` anew, and
      so reports `unknown`, */
  lemma RestartMisreports()
    ensures ClassifyDictionary(6, SWAP_QUERY, SWAPS) == Done(Some(UnknownValue))
  {
    SwapIsStored();
    SwapIsReported();
    hide DirectValue, ValueTypes;
  }

  /** although the dictionary stores nothing but `Box<unknown, number, number>`, which
      is `number`. */
  lemma MisreportedIsSafe()
    ensures !exists v :: StoresUnsafe(SWAP_QUERY, SWAPS, v)
  {
    forall k: nat, i: nat, v | i < |ValuesAt(k, SWAP_QUERY, SWAPS)|
      ensures !Means(ValuesAt(k, SWAP_QUERY, SWAPS)[i], SWAPS, v)
    {
      SwapStores(k);
      forall l: nat { SwappedIsNumber(l); }
    }
  }

  const SWAPPED_CLOSED := Ref("Box", [Kw(UnknownKw), NUMBER, NUMBER])

  lemma SwapStores(k: nat)
    ensures ValuesAt(k, SWAP_QUERY, SWAPS) == if k > 0 then [SWAPPED_CLOSED] else []
  {
    var env := SWAPS;
    ShortNamesDiffer();
    ShortNamesAreNoWrappers("Box", env);
    ShortNamesAreNoWrappers("Record", env);
    assert "Box" != "Record" && "Box" !in {"Pick", "Omit"} by {
      assert |"Box"| == 3 && |"Record"| == 6 && |"Pick"| == 4 && |"Omit"| == 4;
    }
    if k > 0 {
      SwapExpands(NUMBER, Kw(UnknownKw));
      assert ValuesAt(k - 1, Ref("Record", [Kw(OtherKw), SWAPPED_CLOSED]), env) == [SWAPPED_CLOSED];
    }
  }

  lemma SwapExpands(s: Type, t: Type)
    requires s == NUMBER && t == Kw(UnknownKw)
    ensures Expansion(SWAPS.aliases["Box"], [s, t]) == Some(Ref("Record", [Kw(OtherKw), SWAPPED_CLOSED]))
  {
    ShortNamesDiffer();
    var (ps, none) := (PARAMETERS_STR, map[]);
    var bound: Closing := none["S" := s]["T" := t];
    assert ps[1..][0] == ps[1] && ps[1..][1..] == [ps[2]] && ps[1..][1..][1..] == [];
    assert [s, t][1..] == [t] && [s, t][1..][1..] == [];
    assert ApplyAll(bound, SWAPPED.args) == SWAPPED_CLOSED.args;
    assert ApplyAll(bound, DEFAULT_SWAPS.args) == [Kw(OtherKw), SWAPPED_CLOSED];
    var closed := Apply(bound, DEFAULT_SWAPS);
    assert Instance(ps[1..][1..], [], bound) == Some(bound["R" := closed]);
    assert Instance(ps[1..], [t], none["S" := s]) == Some(bound["R" := closed]);
    assert Instance(ps, [s, t], map[]) == Some(bound["R" := closed]);
  }

  lemma SwappedIsNumber(k: nat)
    ensures KindAt(k, SWAPPED_CLOSED, SWAPS) == None
  {
    ShortNamesDiffer();
    ShortNamesAreNoWrappers("Box", SWAPS);
    var (ps, args, none) := (PARAMETERS_STR, SWAPPED_CLOSED.args, map[]);
    var bound: Closing := none["S" := Kw(UnknownKw)]["T" := NUMBER]["R" := NUMBER];
    assert ps[1..][0] == ps[1] && ps[1..][1..] == [ps[2]] && ps[1..][1..][1..] == [];
    assert args[1..] == [NUMBER, NUMBER] && args[1..][1..] == [NUMBER] && args[1..][1..][1..] == [];
    assert Instance(ps[1..][1..], [NUMBER], none["S" := Kw(UnknownKw)]["T" := NUMBER]) == Some(bound);
    assert Instance(ps[1..], [NUMBER, NUMBER], none["S" := Kw(UnknownKw)]) == Some(bound);
    assert Instance(ps, args, map[]) == Some(bound);
    assert Expansion(SWAPS.aliases["Box"], args) == Some(NUMBER);
    if k > 0 { assert KindAt(k - 1, NUMBER, SWAPS) == None; }
  }

  // type Id<S> = S;

  const IDENTITY := Program(map["Id" := Alias(PARAMETER_S, Ref("S", []))])

  /** The visited names hide an alias from its own argument: `Id<Id<unknown>>` means
      `unknown` and is found safe. */
  lemma NestedArgumentIsMissed()
    ensures var t := Ref("Id", [Ref("Id", [Kw(UnknownKw)])]);
            ClassifyValue(3, t, IDENTITY) == Done(None) && Means(t, IDENTITY, UnknownValue)
  {
    var (env, inner) := (IDENTITY, Ref("Id", [Kw(UnknownKw)]));
    var (t, subs) := (Ref("Id", [inner]), NOTHING["S" := inner]);
    assert "Id" != "S" by { assert |"Id"| != |"S"|; }
    assert PARAMETER_S[1..] == [] && [inner][1..] == [] && [Kw(UnknownKw)][1..] == [];
    assert ResolvedArgument(inner, NOTHING) == inner;
    assert BindParameters(PARAMETER_S, [inner], NOTHING) == Some(subs);
    Enters(3, "Id", [inner], env, NOTHING, {}, subs);
    Substitutes(2, "S", env, subs, {} + {"Id"});
    ShortNamesAreNoWrappers("Id", env);
    IdentityExpands(Kw(UnknownKw));
    IdentityExpands(inner);
    assert KindAt(1, inner, env) == Some(UnknownValue);
    assert KindAt(2, t, env) == KindAt(1, inner, env);
  }

  lemma IdentityExpands(arg: Type)
    ensures Expansion(IDENTITY.aliases["Id"], [arg]) == Some(Apply(map[], arg))
    ensures Apply(map[], Ref("Id", [Kw(UnknownKw)])) == Ref("Id", [Kw(UnknownKw)])
  {
    assert PARAMETER_S[1..] == [] && [arg][1..] == [];
    assert ApplyAll(map[], [Kw(UnknownKw)]) == [Kw(UnknownKw)];
    var none: Closing := map[];
    assert Instance(PARAMETER_S, [arg], map[]) == Some(none["S" := Apply(map[], arg)]);
  }

  // type Pair<A, B> = B;  type Outer<A> = Pair<unknown, A>;

  const PARAMETER_A := [Parameter("A", None)]

  const PARAMETERS_AB := [Parameter("A", None), Parameter("B", None)]

  const CAPTURE := Program(map[
    "Pair" := Alias(PARAMETERS_AB, Ref("B", [])),
    "Outer" := Alias(PARAMETER_A, Ref("Pair", [Kw(UnknownKw), Ref("A", [])]))])

  /** Arguments are resolved in the map being extended, so `Pair`'s own `A` captures
      the caller's: `Outer<number>` means `number` and is reported as `unknown`. */
  lemma CapturedArgumentIsReported()
    ensures var t := Ref("Outer", [NUMBER]);
            ClassifyValue(4, t, CAPTURE) == Done(Some(UnknownValue)) && forall v :: !Means(t, CAPTURE, v)
  {
    OuterIsReported();
    forall v ensures !Means(Ref("Outer", [NUMBER]), CAPTURE, v) {
      forall k: nat ensures KindAt(k, Ref("Outer", [NUMBER]), CAPTURE).None? { OuterMeansNumber(k); }
    }
  }

  lemma OuterIsReported()
    ensures ClassifyValue(4, Ref("Outer", [NUMBER]), CAPTURE) == Done(Some(UnknownValue))
  {
    var (env, t, inner) := (CAPTURE, Ref("Outer", [NUMBER]), Ref("Pair", [Kw(UnknownKw), Ref("A", [])]));
    var outer := NOTHING["A" := NUMBER];
    var both := outer["A" := Kw(UnknownKw)]["B" := Kw(UnknownKw)];
    assert "A" != "B" by { assert "A"[0] != "B"[0]; }
    assert "Outer" != "Pair" && |"Outer"| == 5 && |"Pair"| == 4 && |"A"| == 1 && |"B"| == 1;
    assert PARAMETER_A[1..] == [] && PARAMETERS_AB[1..][1..] == [];
    assert BindParameters(PARAMETER_A, [NUMBER], NOTHING) == Some(outer);
    var half := outer["A" := Kw(UnknownKw)];
    assert ResolvedArgument(Ref("A", []), half) == ResolvedArgument(half["A"], half, {"A"}) == Kw(UnknownKw);
    assert inner.args[1..] == [Ref("A", [])];
    assert BindParameters(PARAMETERS_AB[1..], [Ref("A", [])], half) == Some(both);
    assert BindParameters(PARAMETERS_AB, inner.args, outer) == Some(both);
    hide BindParameters, DirectValue;
    Enters(4, "Outer", [NUMBER], env, NOTHING, {}, outer);
    Enters(3, "Pair", inner.args, env, outer, {} + {"Outer"}, both);
    Substitutes(2, "B", env, both, {} + {"Outer"} + {"Pair"});
    KeywordAnswers(1, Kw(UnknownKw), env, both, {} + {"Outer"} + {"Pair"});
  }

  lemma KeywordAnswers(depth: nat, t: Type, env: Environment, subs: Substitutions, resolving: set<Name>)
    requires depth > 0 && t == Kw(UnknownKw)
    ensures DirectValue(depth, t, env, subs, resolving) == Done(Some(UnknownValue))
  {
  }

  lemma OuterMeansNumber(k: nat)
    ensures KindAt(k, Ref("Outer", [NUMBER]), CAPTURE).None?
  {
    var (env, t, inner) := (CAPTURE, Ref("Outer", [NUMBER]), Ref("Pair", [Kw(UnknownKw), Ref("A", [])]));
    var closed := Ref("Pair", [Kw(UnknownKw), NUMBER]);
    var none: Closing := map[];
    ShortNamesAreNoWrappers("Outer", env);
    ShortNamesAreNoWrappers("Pair", env);
    assert "A" != "B" by { assert "A"[0] != "B"[0]; }
    assert "Outer" != "Pair" && |"Outer"| == 5 && |"Pair"| == 4 && |"A"| == 1 && |"B"| == 1;
    assert PARAMETER_A[1..] == [] && PARAMETERS_AB[1..] == [PARAMETERS_AB[1]] && PARAMETERS_AB[1..][1..] == [];
    assert [NUMBER][1..] == [] && closed.args[1..] == [NUMBER];
    assert Instance(PARAMETER_A, [NUMBER], map[]) == Some(none["A" := NUMBER]);
    assert ApplyAll(none["A" := NUMBER], inner.args) == closed.args;
    assert Expansion(env.aliases["Outer"], [NUMBER]) == Some(closed);
    var both := none["A" := Kw(UnknownKw)]["B" := NUMBER];
    assert Instance(PARAMETERS_AB[1..], [NUMBER], none["A" := Kw(UnknownKw)]) == Some(both);
    assert Instance(PARAMETERS_AB, closed.args, map[]) == Some(both);
    assert Expansion(env.aliases["Pair"], closed.args) == Some(NUMBER);
    if k >= 2 {
      assert KindAt(k - 2, NUMBER, env) == None;
      assert KindAt(k - 1, closed, env) == None;
    } else if k == 1 {
      assert KindAt(0, closed, env) == None;
    }
  }

  // type Gone<S> = { gone?: S };

  const GONE := Literal([Property(true, Some(Ref("S", [])))])

  const OPTIONAL := Program(map["Gone" := Alias(PARAMETER_S, GONE)])

  /** A literal is tested for emptiness without its parameters: `Gone<never>` means
      `{ gone?: never }`, which is unsafe, and is found safe. */
  lemma OptionalNeverIsMissed()
    ensures var t := Ref("Gone", [Kw(NeverKw)]);
            ClassifyValue(2, t, OPTIONAL) == Done(None) && Means(t, OPTIONAL, EmptyObjectValue)
  {
    var (env, t, never) := (OPTIONAL, Ref("Gone", [Kw(NeverKw)]), Kw(NeverKw));
    var none: Closing := map[];
    BindsOne(never, NOTHING);
    Enters(2, "Gone", [never], env, NOTHING, {}, NOTHING["S" := never]);
    assert GONE.signatures[0] == Property(true, Some(Ref("S", [])));
    assert !IsEffectivelyEmptyMember(GONE.signatures[0]);
    ShortNamesAreNoWrappers("Gone", env);
    assert PARAMETER_S[1..] == [] && [never][1..] == [];
    assert Instance(PARAMETER_S, [never], map[]) == Some(none["S" := never]);
    var closed := Apply(none["S" := never], GONE);
    assert Apply(none["S" := never], Ref("S", [])) == never;
    assert ApplySignatures(none["S" := never], GONE.signatures)[0] == Property(true, Some(never));
    assert IsEffectivelyEmptyMember(closed.signatures[0]);
    assert KindAt(0, closed, env) == Some(EmptyObjectValue);
    assert KindAt(1, t, env) == KindAt(0, closed, env);
  }

  // type Table<S, R = Record<string, S>> = R;

  const DEFAULT_OF_S := Ref("Record", [Kw(OtherKw), Ref("S", [])])

  const TABLE := Alias([Parameter("S", None), Parameter("R", Some(DEFAULT_OF_S))], Ref("R", []))

  const LEVELED := Program(map["Table" := TABLE])

  function TableLevel(n: Name): nat {
    if n == "S" then 0 else if n == "R" then 1 else 2
  }

  /** A default that mentions an earlier parameter does no harm by itself: here every
      name is kept apart and levels fit. */
  lemma LevelsFit()
    ensures var (all, t) := (AllParameters(LEVELED), Ref("Table", [NUMBER]));
            && Hygienic(LEVELED) && InScope(t, {}, all)
            && Stratified(LEVELED, all, TableLevel) && Layered(LEVELED, all, TableLevel, t)
  {
    TableIsHygienic();
    TableIsLayered();
  }

  lemma TableIsHygienic()
    ensures Hygienic(LEVELED) && AllParameters(LEVELED) == {"S", "R"} && InScope(Ref("Table", [NUMBER]), {}, {"S", "R"})
  {
    TableParameters();
    TableScopes();
    hide AllParameters, NameSet, InScope, DefaultsInScope;
    assert forall n :: n in BUILT_INS ==> |n| > 1;
    assert |"Table"| == 5;
    assert DistinctNames(TABLE.params) by { assert "S"[0] != "R"[0]; }
  }

  lemma TableParameters()
    ensures AllParameters(LEVELED) == {"S", "R"} == NameSet(TABLE.params)
  {
    SoleAlias(LEVELED, "Table", TABLE);
    var ps := TABLE.params;
    assert ps[0].name == "S" && ps[1].name == "R" && ps[0] in ps && ps[1] in ps;
  }

  lemma TableScopes()
    ensures InScope(Ref("Table", [NUMBER]), {}, {"S", "R"}) && InScope(TABLE.body, {"S", "R"}, {"S", "R"})
    ensures DefaultsInScope(TABLE.params, {}, {"S", "R"})
  {
    var (outside, ps) := ({"S", "R"} - {"S"}, TABLE.params);
    assert |"Table"| == 5 && |"Record"| == 6 && "S"[0] != "R"[0];
    assert Avoids(DEFAULT_OF_S, outside) by {
      assert Avoids(DEFAULT_OF_S.args[0], outside) && Avoids(DEFAULT_OF_S.args[1], outside);
    }
    var none: set<Name> := {};
    assert none + {"S"} == {"S"};
    assert ps[1..] == [ps[1]] && ps[1..][1..] == [];
    assert DefaultsInScope(ps[1..], {"S"}, {"S", "R"});
  }

  lemma TableIsLayered()
    ensures Stratified(LEVELED, {"S", "R"}, TableLevel) && Layered(LEVELED, {"S", "R"}, TableLevel, Ref("Table", [NUMBER]))
  {
    var (env, all) := (LEVELED, {"S", "R"});
    assert |"Table"| == 5 && |"Record"| == 6 && |"S"| == 1 && |"R"| == 1;
    assert "S" != "R" by { assert "S"[0] != "R"[0]; }
    assert "Record" !in env.aliases;
    assert FlowsInto(env, all, TableLevel, DEFAULT_OF_S, "R") by {
      var above := AtLeast(env, all, TableLevel, 2);
      assert Avoids(DEFAULT_OF_S.args[0], above) && Avoids(DEFAULT_OF_S.args[1], above);
    }
    assert Layered(env, all, TableLevel, DEFAULT_OF_S.args[0]) && Layered(env, all, TableLevel, DEFAULT_OF_S.args[1]);
    assert Layered(env, all, TableLevel, Ref("R", []));
    assert StratifiedAlias(env, all, TableLevel, "Table", TABLE);
  }
}
