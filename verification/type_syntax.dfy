/** The part of the TypeScript syntax tree that the type rules under
    anti-slop/ look at. */
module TypeSyntax {
  import opened Options

  type Name = string

  datatype Keyword = UnknownKw | AnyKw | ObjectKw | NeverKw | OtherKw

  /** A type node.  `Opaque` stands for every node no rule looks into: literal,
      array, tuple, function and conditional types, and references whose name is
      qualified (`A.B`). An absent type-argument list is the empty list. */
  datatype Type =
    | Kw(keyword: Keyword)
    | Paren(inner: Type)
    | Operator(readonly: bool, inner: Type)
    | Union(members: seq<Type>)
    | Intersection(members: seq<Type>)
    | Ref(name: Name, args: seq<Type>)
    | Literal(signatures: seq<Signature>)
    | Mapped(value: Option<Type>)
    | Opaque

  /** A member of a type literal or of an interface body. */
  datatype Signature =
    | Property(optional: bool, annotation: Option<Type>)
    | IndexSignature(annotation: Option<Type>)
    | OtherSignature

  datatype Parameter = Parameter(name: Name, default: Option<Type>)

  datatype Alias = Alias(params: seq<Parameter>, body: Type)

  datatype Interface = Interface(extendsCount: nat, body: seq<Signature>)

  datatype Declaration =
    | AliasDecl(name: Name, alias: Alias)
    | InterfaceDecl(name: Name, iface: Interface)
    | ImportDecl(locals: seq<Name>)
    | EnumDecl(name: Name)
    | ClassOrFunctionDecl(id: Option<Name>)
    | OtherDecl

  datatype Statement =
    | Bare(declaration: Declaration)
    | ExportNamed(exported: Option<Declaration>)
    | ExportDefault(exported: Option<Declaration>)

  /** `unwrapTransparentType`: parentheses and `readonly` say nothing. */
  function Unwrap(t: Type): (u: Type)
    ensures u == t || u < t
    ensures !u.Paren? && !(u.Operator? && u.readonly)
  {
    match t
    case Paren(inner) => Unwrap(inner)
    case Operator(true, inner) => Unwrap(inner)
    case _ => t
  }

  /** The loop that the source runs for `Unwrap`. */
  method UnwrapTransparentType(t: Type) returns (current: Type)
    ensures current == Unwrap(t)
  {
    current := t;
    while current.Paren? || (current.Operator? && current.readonly)
      invariant Unwrap(current) == Unwrap(t)
      decreases current
    {
      current := current.inner;
    }
  }

  predicate IsUnappliedReferenceTo(t: Type, name: Name) {
    Unwrap(t) == Ref(name, [])
  }

  predicate IsEffectivelyEmptyMember(m: Signature) {
    m.Property? && m.optional && m.annotation.Some? && Unwrap(m.annotation.value) == Kw(NeverKw)
  }

  predicate AllEffectivelyEmpty(ms: seq<Signature>) {
    forall i :: 0 <= i < |ms| ==> IsEffectivelyEmptyMember(ms[i])
  }

  predicate IsEffectivelyEmptyInterface(declarations: seq<Interface>) {
    |declarations| == 1 && declarations[0].extendsCount == 0 && AllEffectivelyEmpty(declarations[0].body)
  }
}
