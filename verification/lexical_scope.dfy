/** The type binders in scope at a node: anti-slop/shared/lexical-type-parameters.ts.
    The program walks up from a node; scoping is defined from the root down. */
module LexicalScope {
  type Name = string

  datatype Kind = Program | Mapped(key: Name) | Conditional | Infer(name: Name) | Plain

  /** The fields that scoping asks for; `visited` says whether the visitor keys of the
      node's type list the field. */
  datatype Role = NameType | TypeAnnotation | ExtendsType | TrueType | Unnamed
  datatype Field = Field(role: Role, visited: bool, node: Node)

  /** `typeParameters` names the node's own parameter list, empty when it has none. */
  datatype Node = Node(kind: Kind, typeParameters: seq<Name>, fields: seq<Field>)

  /** A node is known by the fields that lead to it from above. */
  type Path = seq<nat>

  predicate IsPath(node: Node, path: Path) {
    path == [] || (path[0] < |node.fields| && IsPath(node.fields[path[0]].node, path[1..]))
  }

  function NodeAt(node: Node, path: Path): Node
    requires IsPath(node, path)
  {
    if path == [] then node else NodeAt(node.fields[path[0]].node, path[1..])
  }

  lemma {:induction false} PathPrefix(node: Node, path: Path, i: nat)
    requires IsPath(node, path) && i <= |path|
    ensures IsPath(node, path[..i]) && IsPath(NodeAt(node, path[..i]), path[i..])
    ensures NodeAt(NodeAt(node, path[..i]), path[i..]) == NodeAt(node, path)
  {
    if i > 0 {
      PathPrefix(node.fields[path[0]].node, path[1..], i - 1);
      assert path[1..][..i - 1] == path[..i][1..];
      assert path[1..][i - 1..] == path[i..];
    } else {
      assert path[i..] == path;
    }
  }

  // Scoping, from the root down.

  /** The path leads only through fields that the visitor keys list. */
  predicate Visits(node: Node, path: Path)
    requires IsPath(node, path)
  {
    path == [] || (node.fields[path[0]].visited && Visits(node.fields[path[0]].node, path[1..]))
  }

  /** Somewhere in the node stands an `infer` of the name. */
  ghost predicate Infers(node: Node, name: Name) {
    exists path :: IsPath(node, path) && Visits(node, path) && NodeAt(node, path).kind == Infer(name)
  }

  /** The node binds the name for what stands in its field `f`; with no field, for
      the node itself. */
  ghost predicate Binds(node: Node, f: nat, name: Name) {
    || name in node.typeParameters
    || (f < |node.fields| &&
        var role := node.fields[f].role;
        || (node.kind == Mapped(name) && (role == NameType || role == TypeAnnotation))
        || (node.kind == Conditional && role == TrueType && InfersInExtends(node, name)))
  }

  ghost predicate InfersInExtends(node: Node, name: Name) {
    exists i :: 0 <= i < |node.fields| && node.fields[i].role == ExtendsType && Infers(node.fields[i].node, name)
  }

  /** The name is in scope at the end of the path, given whether it is in scope around
      the node.  A program begins with an empty scope. */
  ghost predicate InScope(node: Node, path: Path, name: Name, around: bool)
    requires IsPath(node, path)
  {
    var f := if path == [] then |node.fields| else path[0];
    var here := node.kind != Program && (around || Binds(node, f, name));
    if path == [] then here else InScope(node.fields[path[0]].node, path[1..], name, here)
  }

  // The walk up.

  /** `collectInferTypeParameterNames`, which adds to the set it is given. */
  method CollectInferTypeParameterNames(node: Node, into: set<Name>) returns (names: set<Name>)
    ensures forall name :: name in names <==> name in into || Infers(node, name)
    decreases node
  {
    names := into;
    if node.kind.Infer? { names := names + {node.kind.name}; }
    for i := 0 to |node.fields|
      invariant forall name :: name in names <==> name in into || node.kind == Infer(name) || InfersBelow(node, i, name)
    {
      if node.fields[i].visited { names := CollectInferTypeParameterNames(node.fields[i].node, names); }
    }
    forall name ensures Infers(node, name) <==> node.kind == Infer(name) || InfersBelow(node, |node.fields|, name) {
      InfersHereOrBelow(node, name);
    }
  }

  ghost predicate InfersBelow(node: Node, n: nat, name: Name)
    requires n <= |node.fields|
  {
    exists i :: 0 <= i < n && node.fields[i].visited && Infers(node.fields[i].node, name)
  }

  lemma InfersHereOrBelow(node: Node, name: Name)
    ensures Infers(node, name) <==> node.kind == Infer(name) || InfersBelow(node, |node.fields|, name)
  {
    if Infers(node, name) {
      var path :| IsPath(node, path) && Visits(node, path) && NodeAt(node, path).kind == Infer(name);
      if path != [] {
        assert IsPath(node.fields[path[0]].node, path[1..]);
        assert Infers(node.fields[path[0]].node, name);
      }
    }
    if node.kind == Infer(name) { assert IsPath(node, []) && Visits(node, []) && NodeAt(node, []) == node; }
    if InfersBelow(node, |node.fields|, name) {
      var i :| 0 <= i < |node.fields| && node.fields[i].visited && Infers(node.fields[i].node, name);
      var below :| IsPath(node.fields[i].node, below) && Visits(node.fields[i].node, below)
                   && NodeAt(node.fields[i].node, below).kind == Infer(name);
      var path := [i] + below;
      assert path[1..] == below;
      assert IsPath(node, path) && Visits(node, path) && NodeAt(node, path).kind == Infer(name);
    }
  }

  /** The names that the walk has collected on its way up from the end of the path to
      where `i` fields lead, without what stands there. */
  ghost predicate Collected(root: Node, path: Path, i: nat, name: Name)
    requires IsPath(root, path) && i <= |path|
  {
    exists j :: i <= j <= |path| && BindsAt(root, path, j, name)
  }

  ghost predicate BindsAt(root: Node, path: Path, j: nat, name: Name)
    requires IsPath(root, path) && j <= |path|
  {
    PathPrefix(root, path, j);
    var node := NodeAt(root, path[..j]);
    Binds(node, if j == |path| then |node.fields| else path[j], name)
  }

  predicate ProgramAt(root: Node, path: Path, j: nat)
    requires IsPath(root, path) && j <= |path|
  {
    PathPrefix(root, path, j);
    NodeAt(root, path[..j]).kind == Program
  }

  /** `lexicalTypeParameterNames`: exactly the names in scope. */
  method LexicalTypeParameterNames(root: Node, path: Path) returns (names: set<Name>)
    requires IsPath(root, path)
    ensures forall name :: name in names <==> InScope(root, path, name, false)
  {
    names := {};
    // `above` counts the nodes not yet walked: the current one is the last of them.
    var above := |path| + 1;
    PathPrefix(root, path, |path|);
    assert path[..|path|] == path;
    while above > 0 && !ProgramAt(root, path, above - 1)
      invariant 0 <= above <= |path| + 1
      invariant forall name :: name in names <==> above <= |path| && Collected(root, path, above, name)
      invariant forall j :: above <= j <= |path| ==> !ProgramAt(root, path, j)
    {
      var at := above - 1;
      PathPrefix(root, path, at);
      var current := NodeAt(root, path[..at]);
      ghost var before := names;
      names := names + (set i | 0 <= i < |current.typeParameters| :: current.typeParameters[i]);
      if at < |path| {
        var descendant := current.fields[path[at]];
        if current.kind.Mapped? && (descendant.role == NameType || descendant.role == TypeAnnotation) {
          names := names + {current.kind.key};
        }
        if current.kind == Conditional && descendant.role == TrueType {
          names := CollectFromExtends(current, names);
        }
      }
      forall name ensures name in names <==> name in before || BindsAt(root, path, at, name) { }
      above := at;
    }
    forall name ensures name in names <==> InScope(root, path, name, false) {
      WalkIsScope(root, path, above, name);
    }
  }

  method CollectFromExtends(node: Node, into: set<Name>) returns (names: set<Name>)
    ensures forall name :: name in names <==> name in into || InfersInExtends(node, name)
  {
    names := into;
    for i := 0 to |node.fields|
      invariant forall name :: name in names <==>
                  name in into || exists j :: 0 <= j < i && node.fields[j].role == ExtendsType && Infers(node.fields[j].node, name)
    {
      if node.fields[i].role == ExtendsType { names := CollectInferTypeParameterNames(node.fields[i].node, names); }
    }
  }

  /** Walking up to just below a program, or past the root, collects what is in scope. */
  lemma WalkIsScope(root: Node, path: Path, above: nat, name: Name)
    requires IsPath(root, path) && above <= |path| + 1
    requires above > 0 ==> ProgramAt(root, path, above - 1)
    requires forall j :: above <= j <= |path| ==> !ProgramAt(root, path, j)
    ensures InScope(root, path, name, false) <==> above <= |path| && Collected(root, path, above, name)
  {
    ScopeExactly(root, path, name, false);
  }

  /** A name is in scope exactly when some node on the path binds it for what lies
      below, and no program stands at or below that node. */
  lemma {:induction false} ScopeExactly(root: Node, path: Path, name: Name, around: bool)
    requires IsPath(root, path)
    ensures InScope(root, path, name, around) <==> (around && NoProgramFrom(root, path, 0)) || BoundFrom(root, path, 0, name)
    decreases |path|
  {
    if path == [] {
      assert BindsAt(root, path, 0, name) <==> Binds(root, |root.fields|, name);
      assert NoProgramFrom(root, path, 0) <==> !ProgramAt(root, path, 0);
      assert BoundFrom(root, path, 0, name) <==> BindsAt(root, path, 0, name) && NoProgramFrom(root, path, 0);
    } else {
      var (child, rest) := (root.fields[path[0]].node, path[1..]);
      var here := root.kind != Program && (around || Binds(root, path[0], name));
      ScopeExactly(child, rest, name, here);
      OneFieldDown(root, path, name);
      assert BindsAt(root, path, 0, name) <==> Binds(root, path[0], name);
      assert BoundFrom(root, path, 0, name) <==>
          (BindsAt(root, path, 0, name) && NoProgramFrom(root, path, 0)) || BoundFrom(root, path, 1, name);
    }
  }

  /** One field down, in full: what is in scope there are the type parameters of both
      nodes, a mapped type's key in its name and value, and, in the true branch of a
      conditional type, what its `extends` type infers. */
  lemma FieldScope(node: Node, f: nat, name: Name)
    requires f < |node.fields| && node.kind != Program && node.fields[f].node.kind != Program
    ensures InScope(node, [f], name, false) <==>
              || name in node.typeParameters || name in node.fields[f].node.typeParameters
              || (node.kind == Mapped(name) && node.fields[f].role in {NameType, TypeAnnotation})
              || (node.kind == Conditional && node.fields[f].role == TrueType
                  && exists i :: 0 <= i < |node.fields| && node.fields[i].role == ExtendsType
                                 && Infers(node.fields[i].node, name))
  {
    var child := node.fields[f].node;
    assert [f][1..] == [] && [f][0] == f;
    assert InScope(node, [f], name, false) <==> InScope(child, [], name, Binds(node, f, name));
    assert InScope(child, [], name, Binds(node, f, name)) <==> Binds(node, f, name) || name in child.typeParameters;
  }

  /** A program hides everything around it. */
  lemma ProgramScope(node: Node, path: Path, name: Name, around: bool)
    requires IsPath(node, path) && node.kind == Program
    ensures InScope(node, path, name, around) <==> path != [] && InScope(node.fields[path[0]].node, path[1..], name, false)
  {
  }

  ghost predicate NoProgramFrom(root: Node, path: Path, i: nat)
    requires IsPath(root, path)
  {
    forall j :: i <= j <= |path| ==> !ProgramAt(root, path, j)
  }

  ghost predicate BoundFrom(root: Node, path: Path, i: nat, name: Name)
    requires IsPath(root, path)
  {
    exists j :: i <= j <= |path| && BindsAt(root, path, j, name) && NoProgramFrom(root, path, j)
  }

  lemma Shifted(root: Node, path: Path, j: nat, name: Name)
    requires IsPath(root, path) && path != [] && j < |path|
    ensures BindsAt(root, path, j + 1, name) == BindsAt(root.fields[path[0]].node, path[1..], j, name)
    ensures ProgramAt(root, path, j + 1) == ProgramAt(root.fields[path[0]].node, path[1..], j)
  {
    assert path[..j + 1][1..] == path[1..][..j];
  }

  /** What a path says from its second node on, the rest of the path says of the child. */
  lemma OneFieldDown(root: Node, path: Path, name: Name)
    requires IsPath(root, path) && path != []
    ensures var (child, rest) := (root.fields[path[0]].node, path[1..]);
            && (NoProgramFrom(root, path, 0) <==> root.kind != Program && NoProgramFrom(child, rest, 0))
            && (BoundFrom(root, path, 1, name) <==> BoundFrom(child, rest, 0, name))
  {
    var (child, rest) := (root.fields[path[0]].node, path[1..]);
    hide Binds, BindsAt;
    forall j | 0 <= j < |path| { Shifted(root, path, j, name); }
    assert ProgramAt(root, path, 0) <==> root.kind == Program;
    forall j | 0 <= j < |path| ensures NoProgramFrom(root, path, j + 1) == NoProgramFrom(child, rest, j) {
      ShiftedPrograms(root, path, j);
    }
    if BoundFrom(root, path, 1, name) {
      var j :| 1 <= j <= |path| && BindsAt(root, path, j, name) && NoProgramFrom(root, path, j);
      assert BindsAt(child, rest, j - 1, name) && NoProgramFrom(child, rest, j - 1);
    }
    if BoundFrom(child, rest, 0, name) {
      var j :| 0 <= j <= |rest| && BindsAt(child, rest, j, name) && NoProgramFrom(child, rest, j);
      assert BindsAt(root, path, j + 1, name) && NoProgramFrom(root, path, j + 1);
    }
    assert NoProgramFrom(root, path, 0) <==> !ProgramAt(root, path, 0) && NoProgramFrom(root, path, 1);
  }

  lemma ShiftedPrograms(root: Node, path: Path, i: nat)
    requires IsPath(root, path) && path != [] && i < |path|
    ensures NoProgramFrom(root, path, i + 1) == NoProgramFrom(root.fields[path[0]].node, path[1..], i)
  {
    var (child, rest) := (root.fields[path[0]].node, path[1..]);
    forall j | 0 <= j < |path| ensures ProgramAt(root, path, j + 1) == ProgramAt(child, rest, j) {
      Shifted(root, path, j, "");
    }
    if NoProgramFrom(root, path, i + 1) {
      forall j | i <= j <= |rest| ensures !ProgramAt(child, rest, j) { assert !ProgramAt(root, path, j + 1); }
    }
    if NoProgramFrom(child, rest, i) {
      forall j | i + 1 <= j <= |path| ensures !ProgramAt(root, path, j) { assert !ProgramAt(child, rest, j - 1); }
    }
  }
}
