/** `unsafeDirectValue`, `dictionaryValueTypes` and their two classifiers, from
    anti-slop/shared/dictionary-types.ts.

    The source's recursion need not end, so every evaluator takes the number of
    nested calls it may still make and answers `OutOfDepth` when that is not
    enough.  The source terminates on an input when some depth gives `Done`. */
module DictionaryTypes {
  import opened Options
  import opened Substitution
  import opened TypeEnvironment
  import opened TypeSyntax

  datatype Run<+T> = OutOfDepth | Done(result: T)

  datatype UnsafeValue = AnyValue | EmptyObjectValue | ObjectValue | UnionValue | UnknownValue

  type Verdict = Option<UnsafeValue>

  /** `unsafeDirectValue` */
  function DirectValue(depth: nat, t: Type, env: Environment, subs: Substitutions, resolving: set<Name>): Run<Verdict>
    decreases depth, 0
  {
    if depth == 0 then OutOfDepth
    else
      match Unwrap(t)
      case Kw(UnknownKw) => Done(Some(UnknownValue))
      case Kw(AnyKw) => Done(Some(AnyValue))
      case Kw(ObjectKw) => Done(Some(ObjectValue))
      case Literal(signatures) =>
        Done(if AllEffectivelyEmpty(signatures) then Some(EmptyObjectValue) else None)
      case Union(members) =>
        (match SomeMember(depth - 1, members, 0, env, subs, resolving)
         case OutOfDepth => OutOfDepth
         case Done(found) => Done(if found then Some(UnionValue) else None))
      case Intersection(members) =>
        (match EachMember(depth - 1, members, 0, env, subs, resolving)
         case OutOfDepth => OutOfDepth
         case Done(verdicts) => Done(Meet(verdicts)))
      case Ref(name, args) =>
        if IsWrapper(name, env) then
          if args == [] then Done(None) else DirectValue(depth - 1, args[0], env, subs, resolving)
        else if name in subs then
          if IsUnappliedReferenceTo(subs[name], name) then Done(None)
          else DirectValue(depth - 1, subs[name], env, subs, resolving)
        else if name in env.interfaces then
          Done(if IsEffectivelyEmptyInterface(env.interfaces[name]) then Some(EmptyObjectValue) else None)
        else if name !in env.aliases || name in resolving then Done(None)
        else
          (match BindParameters(env.aliases[name].params, args, subs)
           case None => Done(None)
           case Some(next) => DirectValue(depth - 1, env.aliases[name].body, env, next, resolving + {name}))
      case _ => Done(None)
  }

  /** `types.some(...)` from index `i`: stops at the first unsafe member. */
  function SomeMember(depth: nat, ts: seq<Type>, i: nat, env: Environment, subs: Substitutions, resolving: set<Name>)
    : Run<bool>
    requires i <= |ts|
    decreases depth, 1 + |ts| - i
  {
    if i == |ts| then Done(false)
    else
      match DirectValue(depth, ts[i], env, subs, resolving)
      case OutOfDepth => OutOfDepth
      case Done(Some(_)) => Done(true)
      case Done(None) => SomeMember(depth, ts, i + 1, env, subs, resolving)
  }

  /** `types.map(...)` from index `i`: visits every member. */
  function EachMember(depth: nat, ts: seq<Type>, i: nat, env: Environment, subs: Substitutions, resolving: set<Name>)
    : (r: Run<seq<Verdict>>)
    requires i <= |ts|
    ensures r.Done? ==> |r.result| == |ts| - i
    decreases depth, 1 + |ts| - i
  {
    if i == |ts| then Done([])
    else
      match DirectValue(depth, ts[i], env, subs, resolving)
      case OutOfDepth => OutOfDepth
      case Done(v) =>
        match EachMember(depth, ts, i + 1, env, subs, resolving)
        case OutOfDepth => OutOfDepth
        case Done(vs) => Done([v] + vs)
  }

  /** How an intersection combines its members' verdicts. */
  function Meet(verdicts: seq<Verdict>): Verdict {
    if Some(AnyValue) in verdicts then Some(AnyValue)
    else if verdicts != [] && None !in verdicts then verdicts[0]
    else None
  }

  datatype ResolvedType = ResolvedType(valueType: Type, subs: Substitutions)

  /** The index-signature value types of a literal, in order. */
  function IndexValues(signatures: seq<Signature>): seq<Type> {
    if signatures == [] then []
    else
      (if signatures[0].IndexSignature? && signatures[0].annotation.Some? then [signatures[0].annotation.value] else [])
      + IndexValues(signatures[1..])
  }

  function Under(ts: seq<Type>, subs: Substitutions): seq<ResolvedType> {
    seq(|ts|, i requires 0 <= i < |ts| => ResolvedType(ts[i], subs))
  }

  /** `dictionaryValueTypes` */
  function ValueTypes(depth: nat, t: Type, env: Environment, subs: Substitutions, resolving: set<Name>)
    : Run<seq<ResolvedType>>
  {
    if depth == 0 then OutOfDepth
    else
      match Unwrap(t)
      case Literal(signatures) => Done(Under(IndexValues(signatures), subs))
      case Mapped(Some(value)) => Done([ResolvedType(value, subs)])
      case Ref(name, args) =>
        if name in subs then
          if IsUnappliedReferenceTo(subs[name], name) then Done([])
          else ValueTypes(depth - 1, subs[name], env, subs, resolving)
        else if IsWrapper(name, env) then
          if args == [] then Done([]) else ValueTypes(depth - 1, args[0], env, subs, resolving)
        else if name == "Record" && IsBuiltIn(name, env) then
          Done(if |args| < 2 then [] else [ResolvedType(args[1], subs)])
        else if name in {"Pick", "Omit"} && IsBuiltIn(name, env) then
          if args == [] then Done([]) else ValueTypes(depth - 1, args[0], env, subs, resolving)
        else if name !in env.aliases || name in resolving then Done([])
        else
          (match BindParameters(env.aliases[name].params, args, subs)
           case None => Done([])
           case Some(next) => ValueTypes(depth - 1, env.aliases[name].body, env, next, resolving + {name}))
      case _ => Done([])
  }

  /** The loop of `classifyUnsafeDictionary` over the value types: each one starts
      again with no alias being resolved, but keeps its substitutions. */
  function FirstUnsafe(depth: nat, vs: seq<ResolvedType>, env: Environment): Run<Verdict> {
    if vs == [] then Done(None)
    else
      match DirectValue(depth, vs[0].valueType, env, vs[0].subs, {})
      case OutOfDepth => OutOfDepth
      case Done(Some(v)) => Done(Some(v))
      case Done(None) => FirstUnsafe(depth, vs[1..], env)
  }

  /** `classifyUnsafeDictionaryValue` */
  function ClassifyValue(depth: nat, t: Type, env: Environment): Run<Verdict> {
    DirectValue(depth, t, env, map[], {})
  }

  /** `classifyUnsafeDictionary` */
  function ClassifyDictionary(depth: nat, t: Type, env: Environment): Run<Verdict> {
    match ValueTypes(depth, t, env, map[], {})
    case OutOfDepth => OutOfDepth
    case Done(vs) => FirstUnsafe(depth, vs, env)
  }

  /** One step of the resolver at a reference. */
  lemma ReferenceStep(depth: nat, u: Type, env: Environment, subs: Substitutions, resolving: set<Name>)
    requires u.Ref? && depth > 0
    ensures DirectValue(depth, u, env, subs, resolving) ==
            var name := u.name;
            if IsWrapper(name, env) then
              if u.args == [] then Done(None) else DirectValue(depth - 1, u.args[0], env, subs, resolving)
            else if name in subs then
              if IsUnappliedReferenceTo(subs[name], name) then Done(None)
              else DirectValue(depth - 1, subs[name], env, subs, resolving)
            else if name in env.interfaces then
              Done(if IsEffectivelyEmptyInterface(env.interfaces[name]) then Some(EmptyObjectValue) else None)
            else if name !in env.aliases || name in resolving then Done(None)
            else
              var next := BindParameters(env.aliases[name].params, u.args, subs);
              if next.None? then Done(None)
              else DirectValue(depth - 1, env.aliases[name].body, env, next.value, resolving + {name})
  {
  }

  /** And of the first phase of the dictionaries. */
  lemma ValueStep(depth: nat, u: Type, env: Environment, subs: Substitutions, resolving: set<Name>)
    requires u.Ref? && depth > 0
    ensures ValueTypes(depth, u, env, subs, resolving) ==
            var name := u.name;
            if name in subs then
              if IsUnappliedReferenceTo(subs[name], name) then Done([])
              else ValueTypes(depth - 1, subs[name], env, subs, resolving)
            else if IsWrapper(name, env) then
              if u.args == [] then Done([]) else ValueTypes(depth - 1, u.args[0], env, subs, resolving)
            else if name == "Record" && IsBuiltIn(name, env) then
              Done(if |u.args| < 2 then [] else [ResolvedType(u.args[1], subs)])
            else if name in {"Pick", "Omit"} && IsBuiltIn(name, env) then
              if u.args == [] then Done([]) else ValueTypes(depth - 1, u.args[0], env, subs, resolving)
            else if name !in env.aliases || name in resolving then Done([])
            else
              var next := BindParameters(env.aliases[name].params, u.args, subs);
              if next.None? then Done([])
              else ValueTypes(depth - 1, env.aliases[name].body, env, next.value, resolving + {name})
  {
  }

  // More depth changes no answer.

  lemma {:induction false} DirectValueDeeper(
    d: nat, e: nat, t: Type, env: Environment, subs: Substitutions, resolving: set<Name>)
    requires d <= e && DirectValue(d, t, env, subs, resolving).Done?
    ensures DirectValue(e, t, env, subs, resolving) == DirectValue(d, t, env, subs, resolving)
    decreases d, 1
  {
    var u := Unwrap(t);
    match u
    case Union(members) => SomeMemberDeeper(d - 1, e - 1, members, 0, env, subs, resolving);
    case Intersection(members) => EachMemberDeeper(d - 1, e - 1, members, 0, env, subs, resolving);
    case Ref(_, _) => ReferenceDeeper(d, e, u, env, subs, resolving);
    case _ =>
  }

  lemma {:induction false} ReferenceDeeper(
    d: nat, e: nat, u: Type, env: Environment, subs: Substitutions, resolving: set<Name>)
    requires u.Ref? && 0 < d <= e && DirectValue(d, u, env, subs, resolving).Done?
    ensures DirectValue(e, u, env, subs, resolving) == DirectValue(d, u, env, subs, resolving)
    decreases d, 0
  {
    hide DirectValue, IsWrapper, BindParameters, IsUnappliedReferenceTo, IsEffectivelyEmptyInterface;
    ReferenceStep(d, u, env, subs, resolving);
    ReferenceStep(e, u, env, subs, resolving);
    var (name, args) := (u.name, u.args);
    if IsWrapper(name, env) {
      if args != [] { DirectValueDeeper(d - 1, e - 1, args[0], env, subs, resolving); }
    } else if name in subs {
      if !IsUnappliedReferenceTo(subs[name], name) {
        DirectValueDeeper(d - 1, e - 1, subs[name], env, subs, resolving);
      }
    } else if name !in env.interfaces && name in env.aliases && name !in resolving {
      var next := BindParameters(env.aliases[name].params, args, subs);
      if next.Some? {
        DirectValueDeeper(d - 1, e - 1, env.aliases[name].body, env, next.value, resolving + {name});
      }
    }
  }

  lemma {:induction false} SomeMemberDeeper(
    d: nat, e: nat, ts: seq<Type>, i: nat, env: Environment, subs: Substitutions, resolving: set<Name>)
    requires d <= e && i <= |ts| && SomeMember(d, ts, i, env, subs, resolving).Done?
    ensures SomeMember(e, ts, i, env, subs, resolving) == SomeMember(d, ts, i, env, subs, resolving)
    decreases d, 2 + |ts| - i
  {
    if i < |ts| {
      DirectValueDeeper(d, e, ts[i], env, subs, resolving);
      if DirectValue(d, ts[i], env, subs, resolving).result.None? {
        SomeMemberDeeper(d, e, ts, i + 1, env, subs, resolving);
      }
    }
  }

  lemma {:induction false} EachMemberDeeper(
    d: nat, e: nat, ts: seq<Type>, i: nat, env: Environment, subs: Substitutions, resolving: set<Name>)
    requires d <= e && i <= |ts| && EachMember(d, ts, i, env, subs, resolving).Done?
    ensures EachMember(e, ts, i, env, subs, resolving) == EachMember(d, ts, i, env, subs, resolving)
    decreases d, 2 + |ts| - i
  {
    if i < |ts| {
      DirectValueDeeper(d, e, ts[i], env, subs, resolving);
      EachMemberDeeper(d, e, ts, i + 1, env, subs, resolving);
    }
  }

  lemma {:induction false} ValueTypesDeeper(
    d: nat, e: nat, t: Type, env: Environment, subs: Substitutions, resolving: set<Name>)
    requires d <= e && ValueTypes(d, t, env, subs, resolving).Done?
    ensures ValueTypes(e, t, env, subs, resolving) == ValueTypes(d, t, env, subs, resolving)
  {
    var u := Unwrap(t);
    if u.Ref? {
      var (name, args) := (u.name, u.args);
      if name in subs {
        if !IsUnappliedReferenceTo(subs[name], name) {
          ValueTypesDeeper(d - 1, e - 1, subs[name], env, subs, resolving);
        }
      } else if IsWrapper(name, env) {
        if args != [] { ValueTypesDeeper(d - 1, e - 1, args[0], env, subs, resolving); }
      } else if name == "Record" && IsBuiltIn(name, env) {
      } else if name in {"Pick", "Omit"} && IsBuiltIn(name, env) {
        if args != [] { ValueTypesDeeper(d - 1, e - 1, args[0], env, subs, resolving); }
      } else if name in env.aliases && name !in resolving {
        var next := BindParameters(env.aliases[name].params, args, subs);
        if next.Some? {
          ValueTypesDeeper(d - 1, e - 1, env.aliases[name].body, env, next.value, resolving + {name});
        }
      }
    }
  }

  lemma {:induction false} FirstUnsafeDeeper(d: nat, e: nat, vs: seq<ResolvedType>, env: Environment)
    requires d <= e && FirstUnsafe(d, vs, env).Done?
    ensures FirstUnsafe(e, vs, env) == FirstUnsafe(d, vs, env)
  {
    if vs != [] {
      DirectValueDeeper(d, e, vs[0].valueType, env, vs[0].subs, {});
      if DirectValue(d, vs[0].valueType, env, vs[0].subs, {}).result.None? {
        FirstUnsafeDeeper(d, e, vs[1..], env);
      }
    }
  }
}
