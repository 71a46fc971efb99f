/** Binding type arguments to alias parameters: `resolvedSubstitutionArgument`
    and `aliasSubstitution` of anti-slop/shared/dictionary-types.ts. */
module Substitution {
  import opened Options
  import opened TypeSyntax

  type Substitutions = map<Name, Type>

  /** `resolvedSubstitutionArgument`: follow bound names until the type is not a
      bound reference, or a name comes round again. */
  function ResolvedArgument(t: Type, base: Substitutions, resolving: set<Name> := {}): Type
    decreases base.Keys - resolving
  {
    var u := Unwrap(t);
    if u.Ref? && u.name !in resolving && u.name in base
    then ResolvedArgument(base[u.name], base, resolving + {u.name})
    else t
  }

  /** `aliasSubstitution`, from the parameter at hand onwards: each argument is
      resolved in the very map that is still being extended. */
  function BindParameters(params: seq<Parameter>, args: seq<Type>, next: Substitutions): Option<Substitutions> {
    if params == [] then Some(next)
    else
      var argument := if args != [] then Some(args[0]) else params[0].default;
      if argument.None? then None
      else
        BindParameters(params[1..], if args == [] then [] else args[1..],
                       next[params[0].name := ResolvedArgument(argument.value, next)])
  }

  /** The loop that the source runs for `BindParameters`. */
  method AliasSubstitution(alias: Alias, args: seq<Type>, base: Substitutions)
    returns (result: Option<Substitutions>)
    ensures result == BindParameters(alias.params, args, base)
  {
    var next := base;
    for index := 0 to |alias.params|
      invariant BindParameters(alias.params, args, base)
             == BindParameters(alias.params[index..], if index <= |args| then args[index..] else [], next)
    {
      var parameter := alias.params[index];
      assert alias.params[index..][1..] == alias.params[index + 1..];
      assert index < |args| ==> args[index..][0] == args[index] && args[index..][1..] == args[index + 1..];
      var argument := if index < |args| then Some(args[index]) else parameter.default;
      if argument.None? { return None; }
      next := next[parameter.name := ResolvedArgument(argument.value, next)];
    }
    return Some(next);
  }

  predicate IsBoundReference(t: Type, base: Substitutions) {
    Unwrap(t).Ref? && Unwrap(t).name in base
  }

  /** Each type of the path but the last is a reference bound to the next one, and
      no name is looked up twice. */
  ghost predicate IsPath(path: seq<Type>, base: Substitutions) {
    && path != []
    && (forall i :: 0 <= i < |path| - 1 ==> IsBoundReference(path[i], base) && path[i + 1] == base[Unwrap(path[i]).name])
    && (forall i, j :: 0 <= i < j < |path| - 1 ==> Unwrap(path[i]).name != Unwrap(path[j]).name)
  }

  /** The entry point of a cycle: looking it up again and again comes back to it. */
  ghost predicate IsCycle(path: seq<Type>, base: Substitutions) {
    IsPath(path, base) && |path| > 1 && path[|path| - 1] == path[0]
  }

  ghost function Looked(path: seq<Type>, base: Substitutions): set<Name>
    requires IsPath(path, base)
  {
    set i | 0 <= i < |path| - 1 :: Unwrap(path[i]).name
  }

  /** A name that was looked up before closes a cycle. */
  lemma CycleClosed(path: seq<Type>, base: Substitutions) returns (cycle: seq<Type>)
    requires IsPath(path, base) && IsBoundReference(path[|path| - 1], base)
    requires Unwrap(path[|path| - 1]).name in Looked(path, base)
    ensures IsCycle(cycle, base) && cycle[0] == path[|path| - 1]
  {
    var t := path[|path| - 1];
    var i :| 0 <= i < |path| - 1 && Unwrap(path[i]).name == Unwrap(t).name;
    cycle := [t] + path[i + 1..];
    assert forall j :: 1 <= j < |cycle| ==> cycle[j] == path[i + j];
  }

  /** Any other makes the path longer. */
  lemma LongerPath(path: seq<Type>, base: Substitutions)
    requires IsPath(path, base) && IsBoundReference(path[|path| - 1], base)
    requires Unwrap(path[|path| - 1]).name !in Looked(path, base)
    ensures var name := Unwrap(path[|path| - 1]).name;
            var longer := path + [base[name]];
            IsPath(longer, base) && Looked(longer, base) == Looked(path, base) + {name}
  {
    var name := Unwrap(path[|path| - 1]).name;
    var longer := path + [base[name]];
    assert forall i :: 0 <= i < |path| ==> longer[i] == path[i];
    forall i | 0 <= i < |path| - 1 ensures Unwrap(path[i]).name != name {
      assert Unwrap(path[i]).name in Looked(path, base);
    }
  }

  /** From the end of a path on: the result is no bound reference, or closes a cycle. */
  lemma {:induction false} ResolvedFrom(path: seq<Type>, base: Substitutions) returns (cycle: seq<Type>)
    requires IsPath(path, base)
    ensures var r := ResolvedArgument(path[|path| - 1], base, Looked(path, base));
            (!IsBoundReference(r, base) && cycle == []) || (IsCycle(cycle, base) && cycle[0] == r)
    decreases base.Keys - Looked(path, base)
  {
    var t := path[|path| - 1];
    cycle := [];
    if IsBoundReference(t, base) {
      var name := Unwrap(t).name;
      if name in Looked(path, base) {
        cycle := CycleClosed(path, base);
      } else {
        LongerPath(path, base);
        hide IsPath, Looked, IsCycle;
        cycle := ResolvedFrom(path + [base[name]], base);
      }
    }
  }

  /** Going once round a cycle ends where it began. */
  lemma {:induction false} RoundTheCycle(cycle: seq<Type>, base: Substitutions, j: nat)
    requires IsCycle(cycle, base) && j < |cycle|
    ensures IsPath(cycle[..j + 1], base)
    ensures ResolvedArgument(cycle[j], base, Looked(cycle[..j + 1], base)) == cycle[0]
    decreases |cycle| - j
  {
    var part := cycle[..j + 1];
    if j == |cycle| - 1 {
      assert Unwrap(part[0]).name in Looked(part, base);
    } else {
      RoundTheCycle(cycle, base, j + 1);
      assert Looked(cycle[..j + 2], base) == Looked(part, base) + {Unwrap(cycle[j]).name} by {
        assert forall i :: 0 <= i <= j ==> cycle[..j + 2][i] == cycle[i] && part[i] == cycle[i];
      }
    }
  }

  /** `resolvedSubstitutionArgument` is idempotent on every map, cyclic ones
      included: its result is no bound reference, or the entry point of a cycle. */
  lemma ResolvedArgumentIdempotent(t: Type, base: Substitutions) returns (cycle: seq<Type>)
    ensures var r := ResolvedArgument(t, base);
            && ResolvedArgument(r, base) == r
            && ((!IsBoundReference(r, base) && cycle == []) || (IsCycle(cycle, base) && cycle[0] == r))
  {
    assert Looked([t], base) == {};
    cycle := ResolvedFrom([t], base);
    if cycle != [] {
      RoundTheCycle(cycle, base, 0);
      assert Looked(cycle[..1], base) == {};
    }
  }
}
