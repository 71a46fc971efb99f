/** Chained type assertions: anti-slop/rules/no-chained-type-assertions.ts. */
module AssertionChains {
  /** `as` and angle-bracket assertions alike; everything else that has children is
      `Other`, the program itself included. */
  datatype Node =
    | Assertion(isConst: bool, expression: Node, annotation: Node)
    | Paren(expression: Node)
    | Other(children: seq<Node>)

  /** The field that leads to a node from its parent. */
  datatype Field = Expression | Annotation | Child(index: nat)

  /** A node is known by the fields that lead to it from the root. */
  type Path = seq<Field>

  predicate HasField(node: Node, f: Field) {
    match f
    case Expression => !node.Other?
    case Annotation => node.Assertion?
    case Child(i) => node.Other? && i < |node.children|
  }

  function Along(node: Node, f: Field): Node
    requires HasField(node, f)
  {
    match f
    case Expression => node.expression
    case Annotation => node.annotation
    case Child(i) => node.children[i]
  }

  predicate IsPath(node: Node, path: Path) {
    path == [] || (HasField(node, path[0]) && IsPath(Along(node, path[0]), path[1..]))
  }

  function NodeAt(node: Node, path: Path): Node
    requires IsPath(node, path)
  {
    if path == [] then node else NodeAt(Along(node, path[0]), path[1..])
  }

  lemma {:induction false} PathSplits(node: Node, path: Path, i: nat)
    requires i <= |path|
    ensures IsPath(node, path) <==> IsPath(node, path[..i]) && IsPath(NodeAt(node, path[..i]), path[i..])
    ensures IsPath(node, path) ==> NodeAt(NodeAt(node, path[..i]), path[i..]) == NodeAt(node, path)
  {
    if i == 0 {
      assert path[i..] == path;
    } else if HasField(node, path[0]) {
      PathSplits(Along(node, path[0]), path[1..], i - 1);
      assert path[1..][..i - 1] == path[..i][1..] && path[1..][i - 1..] == path[i..];
    }
  }

  // Chains.

  predicate Inward(path: Path) {
    forall j :: 0 <= j < |path| ==> path[j] == Expression
  }

  predicate IsAssertion(root: Node, path: Path) {
    IsPath(root, path) && NodeAt(root, path).Assertion?
  }

  /** `inner` belongs to the chain that the assertion `outer` begins: operands and
      parentheses alone lead to it. */
  predicate InChain(root: Node, outer: Path, inner: Path) {
    IsAssertion(root, outer) && IsAssertion(root, inner) && outer <= inner && Inward(inner[|outer|..])
  }

  /** The assertion is in no chain but its own. */
  ghost predicate Outermost(root: Node, path: Path) {
    IsAssertion(root, path) && forall outer :: InChain(root, outer, path) ==> outer == path
  }

  // The rule.

  function Unwrapped(node: Node): (inner: Node)
    ensures !inner.Paren?
    ensures inner == node || inner < node
  {
    if node.Paren? then Unwrapped(node.expression) else node
  }

  function ChainLength(node: Node): nat {
    if node.Assertion? then 1 + ChainLength(Unwrapped(node.expression)) else 0
  }

  predicate HasNonConst(node: Node) {
    node.Assertion? && (!node.isConst || HasNonConst(Unwrapped(node.expression)))
  }

  method UnwrapParenthesizedExpression(expression: Node) returns (current: Node)
    ensures current == Unwrapped(expression)
  {
    current := expression;
    while current.Paren?
      invariant Unwrapped(current) == Unwrapped(expression)
      decreases current
    {
      current := current.expression;
    }
  }

  method IsForbiddenAssertionChain(node: Node) returns (forbidden: bool)
    ensures forbidden <==> ChainLength(node) > 1 && HasNonConst(node)
  {
    var assertionCount, hasNonConstAssertion := 0, false;
    var current := node;
    while current.Assertion?
      invariant assertionCount + ChainLength(current) == ChainLength(node)
      invariant hasNonConstAssertion || HasNonConst(current) <==> HasNonConst(node)
      decreases current
    {
      assertionCount := assertionCount + 1;
      hasNonConstAssertion := hasNonConstAssertion || !current.isConst;
      current := UnwrapParenthesizedExpression(current.expression);
    }
    return assertionCount > 1 && hasNonConstAssertion;
  }

  /** Climbs through parentheses, then looks at the parent; the root has none. */
  method IsOutermostAssertionInChain(root: Node, path: Path) returns (outermost: bool)
    requires IsAssertion(root, path)
    ensures outermost <==> Outermost(root, path)
  {
    var up := |path|;
    while up > 0 && At(root, path, up - 1).Paren?
      invariant 0 <= up <= |path|
      invariant forall j :: up <= j < |path| ==> At(root, path, j).Paren? && path[j] == Expression
    {
      StepAlong(root, path, up - 1);
      up := up - 1;
    }
    outermost := !(up > 0 && At(root, path, up - 1).Assertion? && path[up - 1] == Expression);
    ClimbDecides(root, path, up);
  }

  function At(root: Node, path: Path, i: nat): Node
    requires IsPath(root, path) && i <= |path|
  {
    PathSplits(root, path, i);
    NodeAt(root, path[..i])
  }

  lemma StepAlong(root: Node, path: Path, i: nat)
    requires IsPath(root, path) && i < |path|
    ensures HasField(At(root, path, i), path[i])
  {
    PathSplits(root, path, i);
    assert path[i..][0] == path[i];
  }

  lemma ClimbDecides(root: Node, path: Path, up: nat)
    requires IsAssertion(root, path) && up <= |path|
    requires forall j :: up <= j < |path| ==> At(root, path, j).Paren? && path[j] == Expression
    requires up > 0 ==> !At(root, path, up - 1).Paren?
    ensures Outermost(root, path) <==> !(up > 0 && At(root, path, up - 1).Assertion? && path[up - 1] == Expression)
  {
    if up > 0 && At(root, path, up - 1).Assertion? && path[up - 1] == Expression {
      var outer := path[..up - 1];
      PathSplits(root, path, up - 1);
      assert InChain(root, outer, path) && outer != path;
    } else {
      forall outer | InChain(root, outer, path) ensures outer == path {
        if outer != path {
          var i := |outer|;
          assert outer == path[..i] && At(root, path, i).Assertion?;
          assert path[i..][up - 1 - i] == path[up - 1];
          StepAlong(root, path, up - 1);
        }
      }
    }
  }

  /** What the visitor does at an assertion. */
  method CheckTypeAssertion(root: Node, path: Path) returns (report: bool)
    requires IsAssertion(root, path)
    ensures report <==>
            && Outermost(root, path)
            && (exists inner :: InChain(root, path, inner) && inner != path)
            && (exists inner :: InChain(root, path, inner) && !NodeAt(root, inner).isConst)
  {
    ReportedExactly(root, path);
    var outermost := IsOutermostAssertionInChain(root, path);
    if !outermost { return false; }
    var forbidden := IsForbiddenAssertionChain(NodeAt(root, path));
    return forbidden;
  }

  ghost predicate Reported(root: Node, path: Path) {
    Outermost(root, path) && ChainLength(NodeAt(root, path)) > 1 && HasNonConst(NodeAt(root, path))
  }

  /** Through operands and parentheses only, the path leads from the node to an assertion. */
  predicate Reaches(node: Node, path: Path) {
    IsPath(node, path) && Inward(path) && NodeAt(node, path).Assertion?
  }

  lemma ChainReaches(root: Node, outer: Path, inner: Path)
    requires InChain(root, outer, inner)
    ensures Reaches(NodeAt(root, outer), inner[|outer|..])
    ensures NodeAt(NodeAt(root, outer), inner[|outer|..]) == NodeAt(root, inner)
  {
    assert inner[..|outer|] == outer;
    PathSplits(root, inner, |outer|);
  }

  lemma OtherReachesNothing(node: Node, path: Path)
    requires node.Other?
    ensures !Reaches(node, path)
  {
    if path != [] && Inward(path) { assert path[0] == Expression; }
  }

  lemma {:induction false} ReachesSomething(node: Node)
    ensures ChainLength(Unwrapped(node)) > 0 <==> exists path :: Reaches(node, path)
  {
    if node.Assertion? {
      assert Reaches(node, []);
    } else if node.Paren? {
      ReachesSomething(node.expression);
      if path :| Reaches(node.expression, path) { Outward(node, path); }
      if path :| Reaches(node, path) { OneFurtherIn(node, path); }
    } else {
      forall path ensures !Reaches(node, path) { OtherReachesNothing(node, path); }
    }
  }

  lemma Outward(node: Node, path: Path)
    requires !node.Other? && Reaches(node.expression, path)
    ensures Reaches(node, [Expression] + path) && NodeAt(node, [Expression] + path) == NodeAt(node.expression, path)
  {
    assert ([Expression] + path)[1..] == path;
  }

  lemma OneFurtherIn(node: Node, path: Path)
    requires !node.Other? && Reaches(node, path) && (node.Paren? || path != [])
    ensures path != [] && Reaches(node.expression, path[1..]) && NodeAt(node.expression, path[1..]) == NodeAt(node, path)
  {
    assert path[0] == Expression;
  }

  ghost predicate ReachesNonConst(node: Node, path: Path) {
    Reaches(node, path) && !NodeAt(node, path).isConst
  }

  lemma {:induction false} ReachesNonConstSomething(node: Node)
    ensures HasNonConst(Unwrapped(node)) <==> exists path :: ReachesNonConst(node, path)
  {
    if node.Other? {
      forall path ensures !ReachesNonConst(node, path) { OtherReachesNothing(node, path); }
    } else {
      ReachesNonConstSomething(node.expression);
      if path :| ReachesNonConst(node.expression, path) {
        Outward(node, path);
        assert ReachesNonConst(node, [Expression] + path);
      }
      if node.Assertion? && !node.isConst { assert ReachesNonConst(node, []); }
      if path :| ReachesNonConst(node, path) && (node.Paren? || path != []) {
        OneFurtherIn(node, path);
        assert ReachesNonConst(node.expression, path[1..]);
      }
    }
  }

  /** An assertion is reported exactly when it is the outermost of its chain, the chain
      has another assertion, and not every assertion of the chain is `as const`. */
  lemma ReportedExactly(root: Node, path: Path)
    requires IsAssertion(root, path)
    ensures Reported(root, path) <==>
            && Outermost(root, path)
            && (exists inner :: InChain(root, path, inner) && inner != path)
            && (exists inner :: InChain(root, path, inner) && !NodeAt(root, inner).isConst)
  {
    var node := NodeAt(root, path);
    ReachesSomething(node.expression);
    ReachesNonConstSomething(node);
    if rest :| Reaches(node.expression, rest) {
      Outward(node, rest);
      InChainBelow(root, path, [Expression] + rest);
    }
    if inner :| InChain(root, path, inner) && inner != path {
      ChainReaches(root, path, inner);
      OneFurtherIn(node, inner[|path|..]);
    }
    if rest :| ReachesNonConst(node, rest) { InChainBelow(root, path, rest); }
    if inner :| InChain(root, path, inner) && !NodeAt(root, inner).isConst {
      ChainReaches(root, path, inner);
      assert ReachesNonConst(node, inner[|path|..]);
    }
  }

  lemma InChainBelow(root: Node, path: Path, rest: Path)
    requires IsAssertion(root, path) && Reaches(NodeAt(root, path), rest)
    ensures InChain(root, path, path + rest) && IsPath(root, path + rest)
    ensures NodeAt(root, path + rest) == NodeAt(NodeAt(root, path), rest)
  {
    assert (path + rest)[..|path|] == path && (path + rest)[|path|..] == rest;
    PathSplits(root, path + rest, |path|);
  }

  /** Every assertion belongs to exactly one maximal chain. */
  lemma OneOutermost(root: Node, path: Path)
    requires IsAssertion(root, path)
    ensures exists outer :: Outermost(root, outer) && InChain(root, outer, path)
    ensures forall a, b :: Outermost(root, a) && Outermost(root, b) && InChain(root, a, path) && InChain(root, b, path)
                           ==> a == b
  {
    assert InChain(root, path, path) by { assert path[|path|..] == []; }
    SomeOutermost(root, path, path);
    forall a, b | Outermost(root, a) && Outermost(root, b) && InChain(root, a, path) && InChain(root, b, path)
      ensures a == b
    {
      if |a| <= |b| { ChainsNest(root, a, b, path); } else { ChainsNest(root, b, a, path); }
    }
  }

  lemma ChainsNest(root: Node, a: Path, b: Path, path: Path)
    requires InChain(root, a, path) && InChain(root, b, path) && |a| <= |b|
    ensures InChain(root, a, b)
  {
    assert forall j :: 0 <= j < |b| - |a| ==> b[|a|..][j] == path[|a|..][j];
  }

  lemma {:induction false} SomeOutermost(root: Node, outer: Path, path: Path)
    requires InChain(root, outer, path)
    ensures exists o :: Outermost(root, o) && InChain(root, o, path)
    decreases |outer|
  {
    if !Outermost(root, outer) {
      var further :| InChain(root, further, outer) && further != outer;
      ChainsJoin(root, further, outer, path);
      SomeOutermost(root, further, path);
    }
  }

  lemma ChainsJoin(root: Node, a: Path, b: Path, c: Path)
    requires InChain(root, a, b) && InChain(root, b, c)
    ensures InChain(root, a, c)
  {
    forall j | 0 <= j < |c| - |a| ensures c[|a|..][j] == Expression {
      if j < |b| - |a| { assert c[|a|..][j] == b[|a|..][j]; } else { assert c[|a|..][j] == c[|b|..][j - (|b| - |a|)]; }
    }
  }
}
