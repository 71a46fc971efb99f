/** The declaration tables the type rules build before they look at any type. */
module TypeEnvironment {
  import opened Options
  import opened Sequences
  import opened TypeSyntax

  const BUILT_INS: set<Name> :=
    {"Record", "Readonly", "Partial", "Required", "Pick", "Omit", "PropertyKey", "NonNullable"}

  const TRANSPARENT_WRAPPERS: set<Name> := {"Readonly", "Partial", "Required", "NonNullable"}

  datatype Environment = Environment(
    aliases: map<Name, Alias>, interfaces: map<Name, seq<Interface>>, shadowed: set<Name>)

  predicate IsBuiltIn(name: Name, env: Environment) {
    name in BUILT_INS && name !in env.shadowed
  }

  predicate IsWrapper(name: Name, env: Environment) {
    name in TRANSPARENT_WRAPPERS && IsBuiltIn(name, env)
  }

  /** The declaration a statement carries, if any. */
  function Declared(s: Statement): Option<Declaration> {
    match s
    case Bare(d) => Some(d)
    case ExportNamed(d) => d
    case ExportDefault(d) => d
  }

  /** The names a declaration brings into the module's scope. */
  function NamesOf(d: Option<Declaration>): set<Name> {
    match d
    case Some(AliasDecl(n, _)) => {n}
    case Some(InterfaceDecl(n, _)) => {n}
    case Some(ImportDecl(locals)) => set n | n in locals
    case Some(EnumDecl(n)) => {n}
    case Some(ClassOrFunctionDecl(Some(n))) => {n}
    case _ => {}
  }

  function AliasOf(d: Option<Declaration>, name: Name): seq<Alias> {
    if d.Some? && d.value.AliasDecl? && d.value.name == name then [d.value.alias] else []
  }

  function InterfaceOf(d: Option<Declaration>, name: Name): seq<Interface> {
    if d.Some? && d.value.InterfaceDecl? && d.value.name == name then [d.value.iface] else []
  }

  /** Every alias declared as `name`, in source order. */
  function AliasesNamed(program: seq<Statement>, name: Name): seq<Alias> {
    if program == [] then []
    else
      AliasesNamed(program[..|program| - 1], name)
      + AliasOf(Declared(program[|program| - 1]), name)
  }

  /** Every interface declared as `name`, in source order. */
  function InterfacesNamed(program: seq<Statement>, name: Name): seq<Interface> {
    if program == [] then []
    else
      InterfacesNamed(program[..|program| - 1], name)
      + InterfaceOf(Declared(program[|program| - 1]), name)
  }

  ghost predicate Declares(program: seq<Statement>, name: Name) {
    exists i :: 0 <= i < |program| && name in NamesOf(Declared(program[i]))
  }

  /** What the environment says of one name: its first alias, all its interfaces,
      and whether a declaration stops it from meaning the built-in. */
  ghost predicate Describes(env: Environment, program: seq<Statement>, name: Name) {
    var aliases := AliasesNamed(program, name);
    var interfaces := InterfacesNamed(program, name);
    && (if aliases == [] then name !in env.aliases else name in env.aliases && env.aliases[name] == aliases[0])
    && (if interfaces == [] then name !in env.interfaces
        else name in env.interfaces && env.interfaces[name] == interfaces)
    && (name in env.shadowed <==> (name in BUILT_INS && Declares(program, name)) || |aliases| > 1)
  }

  /** `createTypeEnvironment` */
  method CreateTypeEnvironment(program: seq<Statement>) returns (env: Environment)
    ensures forall name :: Describes(env, program, name)
  {
    env := Environment(map[], map[], {});
    assert forall name :: Describes(env, program[..0], name);
    hide Describes, Declare, Declared;
    for k := 0 to |program|
      invariant forall name :: Describes(env, program[..k], name)
    {
      var next := Declare(env, Declared(program[k]));
      assert program[..k + 1] == program[..k] + [program[k]];
      forall name ensures Describes(next, program[..k] + [program[k]], name) {
        DescribesStep(env, program[..k], program[k], name);
      }
      env := next;
    }
    assert program[..|program|] == program;
  }

  /** The body of the loop in `createTypeEnvironment`. */
  function Declare(env: Environment, declaration: Option<Declaration>): Environment {
    match declaration
    case Some(ImportDecl(locals)) =>
      env.(shadowed := env.shadowed + set n | n in locals && n in BUILT_INS)
    case Some(AliasDecl(name, alias)) =>
      var known := name in env.aliases;
      env.(
        aliases := if known then env.aliases else env.aliases[name := alias],
        shadowed := env.shadowed + if known || name in BUILT_INS then {name} else {})
    case Some(InterfaceDecl(name, iface)) =>
      var earlier := if name in env.interfaces then env.interfaces[name] else [];
      env.(
        interfaces := env.interfaces[name := earlier + [iface]],
        shadowed := env.shadowed + if name in BUILT_INS then {name} else {})
    case Some(EnumDecl(name)) =>
      env.(shadowed := env.shadowed + if name in BUILT_INS then {name} else {})
    case Some(ClassOrFunctionDecl(Some(name))) =>
      env.(shadowed := env.shadowed + if name in BUILT_INS then {name} else {})
    case _ => env
  }

  lemma DescribesStep(env: Environment, done: seq<Statement>, s: Statement, name: Name)
    requires Describes(env, done, name)
    ensures Describes(Declare(env, Declared(s)), done + [s], name)
  {
    var d := Declared(s);
    var all := done + [s];
    assert all[..|all| - 1] == done && all[|all| - 1] == s;
    DeclaresStep(done, s, name);
    TableStep(env, d, name);
    assert AliasesNamed(all, name) == AliasesNamed(done, name) + AliasOf(d, name);
    assert InterfacesNamed(all, name) == InterfacesNamed(done, name) + InterfaceOf(d, name);
  }

  /** The effect of one declaration on the three tables, name by name. */
  lemma TableStep(env: Environment, d: Option<Declaration>, name: Name)
    ensures var next := Declare(env, d);
            && (name in next.aliases <==> name in env.aliases || AliasOf(d, name) != [])
            && (name in env.aliases ==> next.aliases[name] == env.aliases[name])
            && (name !in env.aliases && AliasOf(d, name) != [] ==> next.aliases[name] == AliasOf(d, name)[0])
            && (name in next.interfaces <==> name in env.interfaces || InterfaceOf(d, name) != [])
            && (name in next.interfaces ==>
                 var earlier := if name in env.interfaces then env.interfaces[name] else [];
                 next.interfaces[name] == earlier + InterfaceOf(d, name))
            && (name in next.shadowed <==>
                 name in env.shadowed || (name in BUILT_INS && name in NamesOf(d))
                 || (AliasOf(d, name) != [] && name in env.aliases))
  {
    match d
    case Some(ImportDecl(locals)) =>
    case Some(AliasDecl(n, alias)) =>
    case Some(InterfaceDecl(n, iface)) =>
    case Some(EnumDecl(n)) =>
    case Some(ClassOrFunctionDecl(Some(n))) =>
    case _ =>
  }

  lemma DeclaresStep(done: seq<Statement>, s: Statement, name: Name)
    ensures Declares(done + [s], name) <==> Declares(done, name) || name in NamesOf(Declared(s))
  {
    var all := done + [s];
    assert all[|done|] == s;
    if Declares(done, name) {
      var i :| 0 <= i < |done| && name in NamesOf(Declared(done[i]));
      assert all[i] == done[i];
    }
  }

  /** A built-in name that is declared no longer means the built-in. */
  ghost predicate DeclaredIsShadowed(env: Environment) {
    forall n | n in BUILT_INS :: n in env.aliases || n in env.interfaces ==> n in env.shadowed
  }

  lemma BuiltEnvironmentIsCoherent(env: Environment, program: seq<Statement>)
    requires forall name :: Describes(env, program, name)
    ensures DeclaredIsShadowed(env)
  {
    forall n | n in BUILT_INS && (n in env.aliases || n in env.interfaces) ensures n in env.shadowed {
      assert Describes(env, program, n);
      NamedIsDeclared(program, n);
    }
  }

  lemma {:induction false} NamedIsDeclared(program: seq<Statement>, name: Name)
    requires AliasesNamed(program, name) != [] || InterfacesNamed(program, name) != []
    ensures Declares(program, name)
  {
    var last := |program| - 1;
    if name in NamesOf(Declared(program[last])) {
    } else {
      NamedIsDeclared(program[..last], name);
      var i :| 0 <= i < last && name in NamesOf(Declared(program[..last][i]));
      assert program[..last][i] == program[i];
    }
  }

  // The same in terms of the statements.

  /** The statement is this declaration, exported or not. */
  ghost predicate IsDeclaration(s: Statement, d: Declaration) {
    s == Bare(d) || s == ExportNamed(Some(d)) || s == ExportDefault(Some(d))
  }

  ghost predicate Introduces(d: Declaration, name: Name) {
    || (d.AliasDecl? && d.name == name) || (d.InterfaceDecl? && d.name == name) || (d.EnumDecl? && d.name == name)
    || (d.ImportDecl? && name in d.locals) || d == ClassOrFunctionDecl(Some(name))
  }

  ghost predicate IsAliasAt(program: seq<Statement>, i: nat, name: Name, alias: Alias) {
    i < |program| && IsDeclaration(program[i], AliasDecl(name, alias))
  }

  ghost predicate IsInterfaceAt(program: seq<Statement>, i: nat, name: Name, iface: Interface) {
    i < |program| && IsDeclaration(program[i], InterfaceDecl(name, iface))
  }

  /** `at` are the positions of the declarations of an alias, `aliases` their aliases. */
  ghost predicate AliasesAt(program: seq<Statement>, name: Name, aliases: seq<Alias>, at: seq<nat>) {
    && |at| == |aliases| && (forall k, l :: 0 <= k < l < |at| ==> at[k] < at[l])
    && (forall k :: 0 <= k < |at| ==> IsAliasAt(program, at[k], name, aliases[k]))
    && forall i: nat, alias :: IsAliasAt(program, i, name, alias) ==> i in at
  }

  ghost predicate InterfacesAt(program: seq<Statement>, name: Name, interfaces: seq<Interface>, at: seq<nat>) {
    && |at| == |interfaces| && (forall k, l :: 0 <= k < l < |at| ==> at[k] < at[l])
    && (forall k :: 0 <= k < |at| ==> IsInterfaceAt(program, at[k], name, interfaces[k]))
    && forall i: nat, iface :: IsInterfaceAt(program, i, name, iface) ==> i in at
  }

  function AliasIn(s: Statement, name: Name): Option<Alias> {
    var found := AliasOf(Declared(s), name);
    if found == [] then None else Some(found[0])
  }

  function InterfaceIn(s: Statement, name: Name): Option<Interface> {
    var found := InterfaceOf(Declared(s), name);
    if found == [] then None else Some(found[0])
  }

  function AliasesIn(program: seq<Statement>, name: Name): (r: seq<Option<Alias>>)
    ensures |r| == |program| && forall i :: 0 <= i < |r| ==> r[i] == AliasIn(program[i], name)
  {
    seq(|program|, i requires 0 <= i < |program| => AliasIn(program[i], name))
  }

  function InterfacesIn(program: seq<Statement>, name: Name): (r: seq<Option<Interface>>)
    ensures |r| == |program| && forall i :: 0 <= i < |r| ==> r[i] == InterfaceIn(program[i], name)
  {
    seq(|program|, i requires 0 <= i < |program| => InterfaceIn(program[i], name))
  }

  lemma {:induction false} AliasesArePresent(program: seq<Statement>, name: Name)
    ensures AliasesNamed(program, name) == Present(AliasesIn(program, name))
  {
    if program != [] {
      var (front, here) := (program[..|program| - 1], AliasIn(program[|program| - 1], name));
      AliasesArePresent(front, name);
      assert AliasesIn(program, name) == AliasesIn(front, name) + [here];
      PresentSnoc(AliasesIn(front, name), here);
    }
  }

  lemma {:induction false} InterfacesArePresent(program: seq<Statement>, name: Name)
    ensures InterfacesNamed(program, name) == Present(InterfacesIn(program, name))
  {
    if program != [] {
      var (front, here) := (program[..|program| - 1], InterfaceIn(program[|program| - 1], name));
      InterfacesArePresent(front, name);
      assert InterfacesIn(program, name) == InterfacesIn(front, name) + [here];
      PresentSnoc(InterfacesIn(front, name), here);
    }
  }

  lemma AliasInIs(s: Statement, name: Name, alias: Alias)
    ensures AliasIn(s, name) == Some(alias) <==> IsDeclaration(s, AliasDecl(name, alias))
  {
  }

  lemma InterfaceInIs(s: Statement, name: Name, iface: Interface)
    ensures InterfaceIn(s, name) == Some(iface) <==> IsDeclaration(s, InterfaceDecl(name, iface))
  {
  }

  lemma AliasesInOrder(program: seq<Statement>, name: Name) returns (at: seq<nat>)
    ensures AliasesAt(program, name, AliasesNamed(program, name), at)
  {
    AliasesArePresent(program, name);
    at := PresentInOrder(AliasesIn(program, name));
    hide AliasesNamed, AliasIn, Present, IsDeclaration;
    forall i: nat, alias | i < |program|
      ensures AliasesIn(program, name)[i] == Some(alias) <==> IsAliasAt(program, i, name, alias)
    {
      AliasInIs(program[i], name, alias);
    }
  }

  lemma InterfacesInOrder(program: seq<Statement>, name: Name) returns (at: seq<nat>)
    ensures InterfacesAt(program, name, InterfacesNamed(program, name), at)
  {
    InterfacesArePresent(program, name);
    at := PresentInOrder(InterfacesIn(program, name));
    hide InterfacesNamed, InterfaceIn, Present, IsDeclaration;
    forall i: nat, iface | i < |program|
      ensures InterfacesIn(program, name)[i] == Some(iface) <==> IsInterfaceAt(program, i, name, iface)
    {
      InterfaceInIs(program[i], name, iface);
    }
  }

  /** The alias of a name is that of its first declaration, exported or not. */
  lemma AliasIsFirst(env: Environment, program: seq<Statement>, name: Name, alias: Alias)
    requires Describes(env, program, name)
    ensures name in env.aliases && env.aliases[name] == alias <==>
              exists i: nat :: IsAliasAt(program, i, name, alias)
                               && forall j: nat, other :: j < i ==> !IsAliasAt(program, j, name, other)
  {
    var at := AliasesInOrder(program, name);
    var aliases := AliasesNamed(program, name);
    hide AliasesNamed, InterfacesNamed, Declares, IsDeclaration;
    if aliases != [] { assert IsAliasAt(program, at[0], name, aliases[0]); }
    if i: nat :| IsAliasAt(program, i, name, alias) && forall j: nat, other :: j < i ==> !IsAliasAt(program, j, name, other) {
      var k :| 0 <= k < |at| && at[k] == i;
      assert at[0] <= i;
      OneAliasAt(program, i, name, alias, aliases[0]);
    }
  }

  lemma OneAliasAt(program: seq<Statement>, i: nat, name: Name, a: Alias, b: Alias)
    requires IsAliasAt(program, i, name, a) && IsAliasAt(program, i, name, b)
    ensures a == b
  {
  }

  /** The interfaces of a name are all its declarations, in their order. */
  lemma InterfacesAreAll(env: Environment, program: seq<Statement>, name: Name) returns (at: seq<nat>)
    requires Describes(env, program, name)
    ensures InterfacesAt(program, name, if name in env.interfaces then env.interfaces[name] else [], at)
    ensures name in env.interfaces ==> env.interfaces[name] != []
  {
    at := InterfacesInOrder(program, name);
  }

  /** What stops a name from meaning the built-in: an import, an alias, an interface, an
      enum, a class or a function of that name, or two aliases. */
  lemma ShadowedExactly(env: Environment, program: seq<Statement>, name: Name)
    requires Describes(env, program, name)
    ensures name in env.shadowed <==>
              || (name in {"Record", "Readonly", "Partial", "Required", "Pick", "Omit", "PropertyKey", "NonNullable"}
                  && exists i, d :: 0 <= i < |program| && IsDeclaration(program[i], d) && Introduces(d, name))
              || exists i: nat, j: nat, a, b :: i < j && IsAliasAt(program, i, name, a) && IsAliasAt(program, j, name, b)
  {
    var at := AliasesInOrder(program, name);
    var aliases := AliasesNamed(program, name);
    DeclaredExactly(program, name);
    hide AliasesNamed, InterfacesNamed, Declares, IsDeclaration;
    if |aliases| > 1 { assert IsAliasAt(program, at[0], name, aliases[0]) && IsAliasAt(program, at[1], name, aliases[1]); }
    if i: nat, j: nat, a, b :| i < j && IsAliasAt(program, i, name, a) && IsAliasAt(program, j, name, b) {
      assert i in at && j in at;
    }
  }

  lemma DeclaredExactly(program: seq<Statement>, name: Name)
    ensures Declares(program, name) <==>
              exists i, d :: 0 <= i < |program| && IsDeclaration(program[i], d) && Introduces(d, name)
  {
    if Declares(program, name) {
      var i :| 0 <= i < |program| && name in NamesOf(Declared(program[i]));
      assert IsDeclaration(program[i], Declared(program[i]).value) && Introduces(Declared(program[i]).value, name);
    }
    if i, d :| 0 <= i < |program| && IsDeclaration(program[i], d) && Introduces(d, name) {
      assert Declared(program[i]) == Some(d);
    }
  }
}
