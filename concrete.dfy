/**
 * The concrete syntax tree that an external grammar produces: a node has a
 * kind (its grammar name), its source text, and an ordered list of children,
 * each optionally labelled with a field name and marked named or anonymous.
 * The functions below are the few queries lowering makes of a node.
 */
module Concrete {
  import opened Wrappers

  /**
   * The grammar names lowering dispatches on (`grammar_name()`); every
   * other name is `Other`.
   */
  datatype Kind =
    | SourceFile | BlockStatement | ExpressionStatement | LetStatement | SetStatement
    | SetFieldStatement | IfStatement | WhileStatement | ReturnStatement | BreakStatement
    | ContinueStatement | OperatorStatement | TypeStatement
    | NahLiteral | NumberLiteral | BoolLiteral | StringLiteral | VariableReference
    | BlockExpression | CallExpression | CurryCallExpression | BinariesExpression
    | FunctionExpression | InstantiationExpression | FieldAccessExpression | IfExpression
    | TypeImplSection | TypeStaticSection | TypeConstraintsSection
    | Other(name: string)

  datatype Node = Node(kind: Kind, text: string, children: seq<Child>)

  datatype Child = Child(field: Option<string>, named: bool, node: Node)

  /** The number of nodes in a tree; the termination measure of lowering. */
  function Size(n: Node): (r: nat)
    decreases n, 1
    ensures r >= 1
  {
    1 + KidsSize(n, 0)
  }

  /** The summed sizes of the children of `n` from index `i` on. */
  function KidsSize(n: Node, i: nat): nat
    decreases n, 0, |n.children| - i
  {
    if i >= |n.children| then 0 else Size(n.children[i].node) + KidsSize(n, i + 1)
  }

  function SizeList(ns: seq<Node>): nat {
    if ns == [] then 0 else Size(ns[0]) + SizeList(ns[1..])
  }

  /** The children of `n` from index `i` on labelled `field`, in order (`children_by_field_name`). */
  function KidsWithField(n: Node, field: string, i: nat): (r: seq<Node>)
    decreases |n.children| - i
    ensures SizeList(r) <= KidsSize(n, i)
  {
    if i >= |n.children| then []
    else if n.children[i].field == Some(field) then [n.children[i].node] + KidsWithField(n, field, i + 1)
    else KidsWithField(n, field, i + 1)
  }

  /** The named children of `n` from index `i` on, in order. */
  function NamedKids(n: Node, i: nat): (r: seq<Node>)
    decreases |n.children| - i
    ensures SizeList(r) <= KidsSize(n, i)
  {
    if i >= |n.children| then []
    else if n.children[i].named then [n.children[i].node] + NamedKids(n, i + 1)
    else NamedKids(n, i + 1)
  }

  function ChildrenByField(n: Node, field: string): (r: seq<Node>)
    ensures SizeList(r) < Size(n)
  {
    KidsWithField(n, field, 0)
  }

  /** The first child labelled `field` (`child_by_field_name`). */
  function ChildByField(n: Node, field: string): (r: Option<Node>)
    ensures r.Some? ==> Size(r.value) < Size(n)
  {
    var kids := ChildrenByField(n, field);
    if kids == [] then None else Some(kids[0])
  }

  /** Whether a child labelled `field` exists (`child_by_field_name(..).is_some()`). */
  predicate HasField(n: Node, field: string) {
    ChildByField(n, field).Some?
  }

  function NamedChildren(n: Node): (r: seq<Node>)
    ensures SizeList(r) < Size(n)
  {
    NamedKids(n, 0)
  }

  /** The first child, named or not (`child(0)`). */
  function FirstChild(n: Node): (r: Option<Node>)
    ensures r.Some? ==> Size(r.value) < Size(n)
  {
    if n.children == [] then None else Some(n.children[0].node)
  }
}
