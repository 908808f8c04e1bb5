/**
 * Lowering of the concrete syntax tree to the evaluator's tree
 * (src/interpreter/tree_sitter_parser.rs: `parse_statement`,
 * `parse_expression`, `parse_function_body`, `parse_field`,
 * `parse_section`, `parse_method`, `parse_watch`).
 *
 * Every `unwrap`, `panic!` and `unimplemented!` of the source is a
 * `Failure(Panic)` here, and the failure reported is the first one the
 * source's evaluation order reaches.  The number parser, the precedence
 * table, the type-flavour conversion and the identifier hash are outside
 * the model and arrive as `Externals`.
 *
 * The recursive functions are the reference definitions.  The two arms the
 * source writes as loops (`binaries_expression` and `type_statement`) are
 * also given as methods, proved to compute the same result.
 */
module Lowering {
  import opened Wrappers
  import opened Identifiers
  import opened Syntax
  import opened Concrete
  import opened Precedence

  /** What lowering uses but does not define. */
  datatype Externals = Externals(
    hash: string -> u64,                         // the hash inside `Identifier::new`
    precedence: string -> int,                   // `calculate_precedence`
    parseNumber: string -> Option<real>,         // `str::parse::<f64>`
    flavorOf: string -> Option<TypeFlavor>)      // `TryFrom<&str> for TypeFlavor`

  /** The panics of lowering, one per `unwrap`/`panic!`/`unimplemented!` site. */
  datatype Panic =
    | MissingChild(field: string)
    | MissingFirstChild
    | NotAFieldAccess(what: Expr)
    | NotAStatement(kind: Kind)
    | NotAnExpression(kind: Kind)
    | NotAFunctionBody(kind: Kind)
    | NotASection(kind: Kind)
    | NonStaticDefault(ident: Identifier)
    | BadNumber(text: string)
    | BadBool(text: string)
    | BadTypeFlavor(text: string)
    | ShortStringLiteral(text: string)
    | Unreduced(reason: string)

  /** A lowered field declaration (`AnyField`). */
  datatype AnyField = Normal(field: FruField) | Static(field: FruField, init: Option<Expr>)

  /** A lowered section of a type declaration (`TypeSection`). */
  datatype TypeSection =
    | ImplSection(methods: seq<Method>)
    | StaticSection(methods: seq<Method>)
    | ConstraintsSection(watches: seq<Watch>)

  /** `Identifier::new` on the text of a node. */
  function Ident(ext: Externals, n: Node): (id: Identifier)
    ensures id.hashedIdent == ext.hash(n.text)
  {
    IdentifierOf(ext.hash, n.text)
  }

  function Idents(ext: Externals, ns: seq<Node>): (ids: seq<Identifier>)
    ensures |ids| == |ns| && forall k :: 0 <= k < |ns| ==> ids[k] == Ident(ext, ns[k])
  {
    seq(|ns|, k requires 0 <= k < |ns| => Ident(ext, ns[k]))
  }

  /** `child_by_field_name(field).unwrap()`. */
  function RequiredChild(n: Node, field: string): (r: Result<Node, Panic>)
    ensures r.Success? <==> ChildByField(n, field).Some?
    ensures r.Success? ==> r.value == ChildByField(n, field).value && Size(r.value) < Size(n)
    ensures r.Failure? ==> r.error == MissingChild(field)
  {
    match ChildByField(n, field)
    case Some(c) => Success(c)
    case None => Failure(MissingChild(field))
  }

  /** `try_into().unwrap()` of the flavour keyword. */
  function Flavor(ext: Externals, n: Node): (r: Result<TypeFlavor, Panic>)
    ensures r.Success? <==> ext.flavorOf(n.text).Some?
  {
    match ext.flavorOf(n.text)
    case Some(f) => Success(f)
    case None => Failure(BadTypeFlavor(n.text))
  }

  // ---------------------------------------------------------------------
  // The lowering functions

  /** `parse_statement`. */
  function LowerStatement(ext: Externals, n: Node): (r: Result<Stmt, Panic>)
    decreases Size(n), 0
  {
    match n.kind
    case SourceFile | BlockStatement =>
      var body :- LowerStatements(ext, ChildrenByField(n, "body"));
      Success(Stmt.Block(body))
    case ExpressionStatement =>
      var v :- RequiredChild(n, "value");
      var value :- LowerExpression(ext, v);
      Success(Expression(value))
    case LetStatement =>
      var i :- RequiredChild(n, "ident");
      var v :- RequiredChild(n, "value");
      var value :- LowerExpression(ext, v);
      Success(Let(Ident(ext, i), value))
    case SetStatement =>
      var i :- RequiredChild(n, "ident");
      var v :- RequiredChild(n, "value");
      var value :- LowerExpression(ext, v);
      Success(Set(Ident(ext, i), value))
    case SetFieldStatement =>
      var w :- RequiredChild(n, "what");
      var what :- LowerExpression(ext, w);
      var v :- RequiredChild(n, "value");
      var value :- LowerExpression(ext, v);
      if what.FieldAccess? then Success(SetField(what.what, what.field, value))
      else Failure(NotAFieldAccess(what))
    case IfStatement =>
      var c :- RequiredChild(n, "condition");
      var condition :- LowerExpression(ext, c);
      var t :- RequiredChild(n, "then_body");
      var thenBody :- LowerStatement(ext, t);
      var e := ChildByField(n, "else_body");
      if e.None? then Success(Stmt.If(condition, thenBody, None))
      else
        var elseBody :- LowerStatement(ext, e.value);
        Success(Stmt.If(condition, thenBody, Some(elseBody)))
    case WhileStatement =>
      var c :- RequiredChild(n, "condition");
      var cond :- LowerExpression(ext, c);
      var b :- RequiredChild(n, "body");
      var body :- LowerStatement(ext, b);
      Success(While(cond, body))
    case ReturnStatement =>
      var v := ChildByField(n, "value");
      if v.None? then Success(Return(Literal(Nah)))
      else
        var value :- LowerExpression(ext, v.value);
        Success(Return(value))
    case BreakStatement => Success(Break)
    case ContinueStatement => Success(Continue)
    case OperatorStatement =>
      var i :- RequiredChild(n, "ident");
      var commutative := HasField(n, "commutative");
      var li :- RequiredChild(n, "left_ident");
      var lt :- RequiredChild(n, "left_type_ident");
      var ri :- RequiredChild(n, "right_ident");
      var rt :- RequiredChild(n, "right_type_ident");
      var b :- RequiredChild(n, "body");
      var body :- LowerFunctionBody(ext, b);
      Success(Operator(Ident(ext, i), commutative, Ident(ext, li), Ident(ext, lt),
                       Ident(ext, ri), Ident(ext, rt), body))
    case TypeStatement =>
      var tt :- RequiredChild(n, "type_type");
      var flavor :- Flavor(ext, tt);
      var i :- RequiredChild(n, "ident");
      var fields :- LowerFields(ext, ChildrenByField(n, "fields"));
      var sections :- LowerSections(ext, ChildrenByField(n, "sections"));
      Success(Type(flavor, Ident(ext, i), NormalFields(fields), StaticFields(fields),
                   Watches(sections), ImplMethods(sections), StaticMethods(sections)))
    case _ => Failure(NotAStatement(n.kind))
  }

  /** `parse_expression`. */
  function LowerExpression(ext: Externals, n: Node): (r: Result<Expr, Panic>)
    decreases Size(n), 0
  {
    match n.kind
    case NahLiteral => Success(Literal(Nah))
    case NumberLiteral =>
      if ext.parseNumber(n.text).Some? then Success(Literal(Number(ext.parseNumber(n.text).value)))
      else Failure(BadNumber(n.text))
    case BoolLiteral =>
      if n.text == "true" then Success(Literal(Bool(true)))
      else if n.text == "false" then Success(Literal(Bool(false)))
      else Failure(BadBool(n.text))
    case StringLiteral =>
      if |n.text| >= 2 then Success(Literal(String(n.text[1..|n.text| - 1])))
      else Failure(ShortStringLiteral(n.text))
    case VariableReference =>
      if FirstChild(n).Some? then Success(Variable(Ident(ext, FirstChild(n).value)))
      else Failure(MissingFirstChild)
    case BlockExpression =>
      var body :- LowerStatements(ext, ChildrenByField(n, "body"));
      var e :- RequiredChild(n, "expr");
      var expr :- LowerExpression(ext, e);
      Success(Expr.Block(body, expr))
    case CallExpression =>
      var w :- RequiredChild(n, "what");
      var what :- LowerExpression(ext, w);
      var args :- LowerExpressions(ext, ChildrenByField(n, "args"));
      Success(Call(what, args))
    case CurryCallExpression =>
      var w :- RequiredChild(n, "what");
      var what :- LowerExpression(ext, w);
      var args :- LowerExpressions(ext, ChildrenByField(n, "args"));
      Success(CurryCall(what, args))
    case BinariesExpression =>
      var elems :- LowerElems(ext, NamedChildren(n), 0);
      PrecedenceSetCovers(elems);
      var reduced := Reduced(elems, PrecedenceSet(elems));
      if reduced.Success? then Success(reduced.value) else Failure(Unreduced(reduced.error))
    case FunctionExpression =>
      var args := Idents(ext, ChildrenByField(n, "args"));
      var b :- RequiredChild(n, "body");
      var body :- LowerFunctionBody(ext, b);
      Success(Function(args, body))
    case InstantiationExpression =>
      var w :- RequiredChild(n, "what");
      var what :- LowerExpression(ext, w);
      var args :- LowerExpressions(ext, ChildrenByField(n, "args"));
      Success(Instantiation(what, args))
    case FieldAccessExpression =>
      var w :- RequiredChild(n, "what");
      var what :- LowerExpression(ext, w);
      var f :- RequiredChild(n, "field");
      Success(FieldAccess(what, Ident(ext, f)))
    case IfExpression =>
      var c :- RequiredChild(n, "condition");
      var condition :- LowerExpression(ext, c);
      var t :- RequiredChild(n, "then_body");
      var thenBody :- LowerExpression(ext, t);
      var e :- RequiredChild(n, "else_body");
      var elseBody :- LowerExpression(ext, e);
      Success(Expr.If(condition, thenBody, elseBody))
    case _ => Failure(NotAnExpression(n.kind))
  }

  /** `parse_function_body`: a block statement as is, a block expression as `return` of it. */
  function LowerFunctionBody(ext: Externals, n: Node): (r: Result<Stmt, Panic>)
    decreases Size(n), 1
  {
    match n.kind
    case BlockStatement => LowerStatement(ext, n)
    case BlockExpression =>
      var value :- LowerExpression(ext, n);
      Success(Return(value))
    case _ => Failure(NotAFunctionBody(n.kind))
  }

  /** `parse_field`. */
  function LowerField(ext: Externals, n: Node): (r: Result<AnyField, Panic>)
    decreases Size(n), 0
    ensures r.Success? ==> (r.value.Static? <==> HasField(n, "static"))
    ensures r.Success? ==> r.value.field.isPublic == HasField(n, "pub")
    ensures r.Success? ==> ChildByField(n, "ident").Some? && r.value.field.ident == Ident(ext, ChildByField(n, "ident").value)
    ensures r.Success? && r.value.Static? ==> (r.value.init.Some? <==> HasField(n, "value"))
    ensures !HasField(n, "static") && HasField(n, "value") ==> r.Failure?
  {
    var isPublic := HasField(n, "pub");
    var isStatic := HasField(n, "static");
    var i :- RequiredChild(n, "ident");
    var t := ChildByField(n, "type_ident");
    var typeIdent := if t.Some? then Some(Ident(ext, t.value)) else None;
    var v := ChildByField(n, "value");
    var value :- (if v.None? then Success(None)
                  else var e :- LowerExpression(ext, v.value); Success(Some(e)));
    if !isStatic && value.Some? then Failure(NonStaticDefault(Ident(ext, i)))
    else
      var field := FruField(isPublic, Ident(ext, i), typeIdent);
      if isStatic then Success(Static(field, value)) else Success(Normal(field))
  }

  /** `parse_section`. */
  function LowerSection(ext: Externals, n: Node): (r: Result<TypeSection, Panic>)
    decreases Size(n), 0
  {
    match n.kind
    case TypeImplSection =>
      var ms :- LowerMethods(ext, ChildrenByField(n, "methods"));
      Success(ImplSection(ms))
    case TypeStaticSection =>
      var ms :- LowerMethods(ext, ChildrenByField(n, "methods"));
      Success(StaticSection(ms))
    case TypeConstraintsSection =>
      var ws :- LowerWatches(ext, ChildrenByField(n, "watches"));
      Success(ConstraintsSection(ws))
    case _ => Failure(NotASection(n.kind))
  }

  /** `parse_method`. */
  function LowerMethod(ext: Externals, n: Node): (r: Result<Method, Panic>)
    decreases Size(n), 0
  {
    var i :- RequiredChild(n, "ident");
    var args := Idents(ext, ChildrenByField(n, "args"));
    var b :- RequiredChild(n, "body");
    var body :- LowerFunctionBody(ext, b);
    Success(Method(Ident(ext, i), args, body))
  }

  /** `parse_watch`. */
  function LowerWatch(ext: Externals, n: Node): (r: Result<Watch, Panic>)
    decreases Size(n), 0
  {
    var args := Idents(ext, ChildrenByField(n, "args"));
    var b :- RequiredChild(n, "body");
    var body :- LowerStatement(ext, b);
    Success(Watch(args, body))
  }

  // The `.map(..).collect()` of the source over a list of children: the
  // elements in order, or the first panic.

  function LowerStatements(ext: Externals, ns: seq<Node>): (r: Result<seq<Stmt>, Panic>)
    decreases SizeList(ns), 2
    ensures r.Success? ==> |r.value| == |ns|
  {
    if ns == [] then Success([])
    else
      var s :- LowerStatement(ext, ns[0]);
      var rest :- LowerStatements(ext, ns[1..]);
      Success([s] + rest)
  }

  function LowerExpressions(ext: Externals, ns: seq<Node>): (r: Result<seq<Expr>, Panic>)
    decreases SizeList(ns), 2
    ensures r.Success? ==> |r.value| == |ns|
  {
    if ns == [] then Success([])
    else
      var e :- LowerExpression(ext, ns[0]);
      var rest :- LowerExpressions(ext, ns[1..]);
      Success([e] + rest)
  }

  function LowerFields(ext: Externals, ns: seq<Node>): (r: Result<seq<AnyField>, Panic>)
    decreases SizeList(ns), 2
    ensures r.Success? ==> |r.value| == |ns|
  {
    if ns == [] then Success([])
    else
      var f :- LowerField(ext, ns[0]);
      var rest :- LowerFields(ext, ns[1..]);
      Success([f] + rest)
  }

  function LowerSections(ext: Externals, ns: seq<Node>): (r: Result<seq<TypeSection>, Panic>)
    decreases SizeList(ns), 2
    ensures r.Success? ==> |r.value| == |ns|
  {
    if ns == [] then Success([])
    else
      var s :- LowerSection(ext, ns[0]);
      var rest :- LowerSections(ext, ns[1..]);
      Success([s] + rest)
  }

  function LowerMethods(ext: Externals, ns: seq<Node>): (r: Result<seq<Method>, Panic>)
    decreases SizeList(ns), 2
    ensures r.Success? ==> |r.value| == |ns|
  {
    if ns == [] then Success([])
    else
      var m :- LowerMethod(ext, ns[0]);
      var rest :- LowerMethods(ext, ns[1..]);
      Success([m] + rest)
  }

  function LowerWatches(ext: Externals, ns: seq<Node>): (r: Result<seq<Watch>, Panic>)
    decreases SizeList(ns), 2
    ensures r.Success? ==> |r.value| == |ns|
  {
    if ns == [] then Success([])
    else
      var w :- LowerWatch(ext, ns[0]);
      var rest :- LowerWatches(ext, ns[1..]);
      Success([w] + rest)
  }

  /**
   * The flat list of a `binaries_expression` (lines 295-311): the named
   * child at position `i` (counted from the first) is an operand when `i`
   * is even and an operator otherwise.
   */
  function LowerElems(ext: Externals, ns: seq<Node>, i: nat): (r: Result<seq<Elem>, Panic>)
    decreases SizeList(ns), 2
    ensures r.Success? ==> |r.value| == |ns|
    ensures r.Success? ==> forall k :: 0 <= k < |r.value| ==> (r.value[k].Operand? <==> (i + k) % 2 == 0)
    ensures r.Success? ==> forall k :: 0 <= k < |r.value| && r.value[k].BinOp? ==>
      r.value[k] == BinOp(Ident(ext, ns[k]), ext.precedence(ns[k].text))
  {
    if ns == [] then Success([])
    else
      var x :- LowerElem(ext, ns[0], i);
      var rest :- LowerElems(ext, ns[1..], i + 1);
      Success([x] + rest)
  }

  /** One element of the flat list: the named child at position `i`. */
  function LowerElem(ext: Externals, n: Node, i: nat): (r: Result<Elem, Panic>)
    decreases Size(n), 1
    ensures r.Success? ==> (r.value.Operand? <==> i % 2 == 0)
  {
    if i % 2 == 0 then
      var e :- LowerExpression(ext, n);
      Success(Operand(e))
    else Success(BinOp(Ident(ext, n), ext.precedence(n.text)))
  }

  // ---------------------------------------------------------------------
  // Grouping in a type declaration (lines 194-212)

  /** The non-static fields, in declaration order. */
  function NormalFields(fs: seq<AnyField>): seq<FruField> {
    if fs == [] then []
    else NormalFields(fs[..|fs| - 1]) + (if fs[|fs| - 1].Normal? then [fs[|fs| - 1].field] else [])
  }

  /** The static fields with their initialisers, in declaration order. */
  function StaticFields(fs: seq<AnyField>): seq<(FruField, Option<Expr>)> {
    if fs == [] then []
    else
      var last := fs[|fs| - 1];
      StaticFields(fs[..|fs| - 1]) + (if last.Static? then [(last.field, last.init)] else [])
  }

  /** The methods of all `impl` sections, section after section. */
  function ImplMethods(ss: seq<TypeSection>): seq<Method> {
    if ss == [] then []
    else ImplMethods(ss[..|ss| - 1]) + (if ss[|ss| - 1].ImplSection? then ss[|ss| - 1].methods else [])
  }

  /** The methods of all `static` sections, section after section. */
  function StaticMethods(ss: seq<TypeSection>): seq<Method> {
    if ss == [] then []
    else StaticMethods(ss[..|ss| - 1]) + (if ss[|ss| - 1].StaticSection? then ss[|ss| - 1].methods else [])
  }

  /** The watches of all `constraints` sections, section after section. */
  function Watches(ss: seq<TypeSection>): seq<Watch> {
    if ss == [] then []
    else Watches(ss[..|ss| - 1]) + (if ss[|ss| - 1].ConstraintsSection? then ss[|ss| - 1].watches else [])
  }

  // ---------------------------------------------------------------------
  // Lowering a list is lowering its parts

  lemma {:induction false} LowerFieldsAppend(ext: Externals, a: seq<Node>, b: seq<Node>)
    ensures LowerFields(ext, a + b) ==
      if LowerFields(ext, a).Failure? then LowerFields(ext, a)
      else if LowerFields(ext, b).Failure? then LowerFields(ext, b)
      else Success(LowerFields(ext, a).value + LowerFields(ext, b).value)
  {
    if a == [] {
      assert a + b == b;
      if LowerFields(ext, b).Success? { assert [] + LowerFields(ext, b).value == LowerFields(ext, b).value; }
    } else {
      assert (a + b)[0] == a[0];
      assert (a + b)[1..] == a[1..] + b;
      LowerFieldsAppend(ext, a[1..], b);
      var f := LowerField(ext, a[0]);
      if f.Success? && LowerFields(ext, a[1..]).Success? && LowerFields(ext, b).Success? {
        var x, y := LowerFields(ext, a[1..]).value, LowerFields(ext, b).value;
        assert [f.value] + (x + y) == ([f.value] + x) + y;
      }
    }
  }

  lemma {:induction false} LowerSectionsAppend(ext: Externals, a: seq<Node>, b: seq<Node>)
    ensures LowerSections(ext, a + b) ==
      if LowerSections(ext, a).Failure? then LowerSections(ext, a)
      else if LowerSections(ext, b).Failure? then LowerSections(ext, b)
      else Success(LowerSections(ext, a).value + LowerSections(ext, b).value)
  {
    if a == [] {
      assert a + b == b;
      if LowerSections(ext, b).Success? { assert [] + LowerSections(ext, b).value == LowerSections(ext, b).value; }
    } else {
      assert (a + b)[0] == a[0];
      assert (a + b)[1..] == a[1..] + b;
      LowerSectionsAppend(ext, a[1..], b);
      var f := LowerSection(ext, a[0]);
      if f.Success? && LowerSections(ext, a[1..]).Success? && LowerSections(ext, b).Success? {
        var x, y := LowerSections(ext, a[1..]).value, LowerSections(ext, b).value;
        assert [f.value] + (x + y) == ([f.value] + x) + y;
      }
    }
  }

  lemma {:induction false} LowerElemsAppend(ext: Externals, a: seq<Node>, b: seq<Node>, i: nat)
    ensures LowerElems(ext, a + b, i) ==
      if LowerElems(ext, a, i).Failure? then LowerElems(ext, a, i)
      else if LowerElems(ext, b, i + |a|).Failure? then LowerElems(ext, b, i + |a|)
      else Success(LowerElems(ext, a, i).value + LowerElems(ext, b, i + |a|).value)
  {
    if a == [] {
      assert a + b == b;
      if LowerElems(ext, b, i).Success? { assert [] + LowerElems(ext, b, i).value == LowerElems(ext, b, i).value; }
    } else {
      assert (a + b)[0] == a[0];
      assert (a + b)[1..] == a[1..] + b;
      LowerElemsAppend(ext, a[1..], b, i + 1);
      assert i + 1 + |a[1..]| == i + |a|;
      var head := LowerElem(ext, a[0], i);
      if head.Success? && LowerElems(ext, a[1..], i + 1).Success? && LowerElems(ext, b, i + |a|).Success? {
        var x, y := LowerElems(ext, a[1..], i + 1).value, LowerElems(ext, b, i + |a|).value;
        assert [head.value] + (x + y) == ([head.value] + x) + y;
      }
    }
  }

  /** The element list of one child is that child's element. */
  lemma LowerElemsSingle(ext: Externals, n: Node, i: nat)
    ensures LowerElems(ext, [n], i) ==
      if LowerElem(ext, n, i).Failure? then Failure(LowerElem(ext, n, i).error)
      else Success([LowerElem(ext, n, i).value])
  {
    assert [n][0] == n && [n][1..] == [];
    assert LowerElems(ext, [], i + 1) == Success([]);
    if LowerElem(ext, n, i).Success? {
      assert [LowerElem(ext, n, i).value] + [] == [LowerElem(ext, n, i).value];
    }
  }

  /** One iteration of the binaries loop: the list lowered so far grows by the next child. */
  lemma LowerElemsGrow(ext: Externals, kids: seq<Node>, i: nat, list: seq<Elem>, x: Elem)
    requires i < |kids| && LowerElems(ext, kids[..i], 0) == Success(list)
    requires LowerElem(ext, kids[i], i) == Success(x)
    ensures LowerElems(ext, kids[..i + 1], 0) == Success(list + [x])
  {
    LowerElemsAppend(ext, kids[..i], [kids[i]], 0);
    assert kids[..i + 1] == kids[..i] + [kids[i]];
    LowerElemsSingle(ext, kids[i], i);
  }

  /** One iteration of the binaries loop: a panic on the next child ends the lowering of the whole list. */
  lemma LowerElemsStop(ext: Externals, kids: seq<Node>, i: nat)
    requires i < |kids| && LowerElems(ext, kids[..i], 0).Success?
    requires LowerElem(ext, kids[i], i).Failure?
    ensures LowerElems(ext, kids, 0) == Failure(LowerElem(ext, kids[i], i).error)
  {
    LowerElemsAppend(ext, kids[..i], [kids[i]], 0);
    assert kids[..i + 1] == kids[..i] + [kids[i]];
    LowerElemsSingle(ext, kids[i], i);
    LowerElemsAppend(ext, kids[..i + 1], kids[i + 1..], 0);
    assert kids == kids[..i + 1] + kids[i + 1..];
  }

  /** The field list of one child is that child's field. */
  lemma LowerFieldsSingle(ext: Externals, n: Node)
    ensures LowerFields(ext, [n]) ==
      if LowerField(ext, n).Failure? then Failure(LowerField(ext, n).error)
      else Success([LowerField(ext, n).value])
  {
    assert [n][0] == n && [n][1..] == [];
    assert LowerFields(ext, []) == Success([]);
    if LowerField(ext, n).Success? {
      assert [LowerField(ext, n).value] + [] == [LowerField(ext, n).value];
    }
  }

  /** One iteration of lines 194-200: the list lowered so far grows by the next child. */
  lemma LowerFieldsGrow(ext: Externals, kids: seq<Node>, k: nat, lowered: seq<AnyField>, x: AnyField)
    requires k < |kids| && LowerFields(ext, kids[..k]) == Success(lowered)
    requires LowerField(ext, kids[k]) == Success(x)
    ensures LowerFields(ext, kids[..k + 1]) == Success(lowered + [x])
  {
    LowerFieldsAppend(ext, kids[..k], [kids[k]]);
    assert kids[..k + 1] == kids[..k] + [kids[k]];
    LowerFieldsSingle(ext, kids[k]);
  }

  /** One iteration of lines 194-200: a panic on the next child ends the lowering of the whole list. */
  lemma LowerFieldsStop(ext: Externals, kids: seq<Node>, k: nat)
    requires k < |kids| && LowerFields(ext, kids[..k]).Success?
    requires LowerField(ext, kids[k]).Failure?
    ensures LowerFields(ext, kids) == Failure(LowerField(ext, kids[k]).error)
  {
    LowerFieldsAppend(ext, kids[..k], [kids[k]]);
    assert kids[..k + 1] == kids[..k] + [kids[k]];
    LowerFieldsSingle(ext, kids[k]);
    LowerFieldsAppend(ext, kids[..k + 1], kids[k + 1..]);
    assert kids == kids[..k + 1] + kids[k + 1..];
  }

  /** The section list of one child is that child's section. */
  lemma LowerSectionsSingle(ext: Externals, n: Node)
    ensures LowerSections(ext, [n]) ==
      if LowerSection(ext, n).Failure? then Failure(LowerSection(ext, n).error)
      else Success([LowerSection(ext, n).value])
  {
    assert [n][0] == n && [n][1..] == [];
    assert LowerSections(ext, []) == Success([]);
    if LowerSection(ext, n).Success? {
      assert [LowerSection(ext, n).value] + [] == [LowerSection(ext, n).value];
    }
  }

  /** One iteration of lines 206-212: the list lowered so far grows by the next child. */
  lemma LowerSectionsGrow(ext: Externals, kids: seq<Node>, k: nat, sections: seq<TypeSection>, x: TypeSection)
    requires k < |kids| && LowerSections(ext, kids[..k]) == Success(sections)
    requires LowerSection(ext, kids[k]) == Success(x)
    ensures LowerSections(ext, kids[..k + 1]) == Success(sections + [x])
  {
    LowerSectionsAppend(ext, kids[..k], [kids[k]]);
    assert kids[..k + 1] == kids[..k] + [kids[k]];
    LowerSectionsSingle(ext, kids[k]);
  }

  /** One iteration of lines 206-212: a panic on the next child ends the lowering of the whole list. */
  lemma LowerSectionsStop(ext: Externals, kids: seq<Node>, k: nat)
    requires k < |kids| && LowerSections(ext, kids[..k]).Success?
    requires LowerSection(ext, kids[k]).Failure?
    ensures LowerSections(ext, kids) == Failure(LowerSection(ext, kids[k]).error)
  {
    LowerSectionsAppend(ext, kids[..k], [kids[k]]);
    assert kids[..k + 1] == kids[..k] + [kids[k]];
    LowerSectionsSingle(ext, kids[k]);
    LowerSectionsAppend(ext, kids[..k + 1], kids[k + 1..]);
    assert kids == kids[..k + 1] + kids[k + 1..];
  }

  // ---------------------------------------------------------------------
  // The loops of the source

  /**
   * The `binaries_expression` arm as written: lines 295-311 push the
   * lowered operands and the operators onto a list while collecting the
   * precedences in an ordered set, then lines 313-355 reduce the list.
   */
  method LowerBinaries(ext: Externals, n: Node) returns (r: Result<Expr, Panic>)
    requires n.kind == BinariesExpression
    ensures r == LowerExpression(ext, n)
  {
    var kids := NamedChildren(n);
    var list: seq<Elem> := [];
    var all: seq<int> := [];
    for i := 0 to |kids|
      invariant LowerElems(ext, kids[..i], 0) == Success(list)
      invariant all == PrecedenceSet(list)
    {
      var x: Elem;
      if i % 2 == 0 {
        var e := LowerExpression(ext, kids[i]);
        if e.Failure? {
          LowerElemsStop(ext, kids, i);
          return Failure(e.error);
        }
        x := Operand(e.value);
      } else {
        var op := kids[i];
        var precedence := ext.precedence(op.text);
        all := BTreeInsert(all, precedence);
        x := BinOp(Ident(ext, op), precedence);
      }
      LowerElemsGrow(ext, kids, i, list, x);
      assert (list + [x])[..|list|] == list;
      list := list + [x];
    }
    assert kids[..|kids|] == kids;
    PrecedenceSetCovers(list);
    BinariesArm(ext, n, list);
    var reduced := ReduceList(list, all);
    if reduced.Failure? {
      return Failure(Unreduced(reduced.error));
    }
    r := Success(reduced.value);
  }

  /** The `binaries_expression` arm once its element list is lowered. */
  lemma BinariesArm(ext: Externals, n: Node, list: seq<Elem>)
    requires n.kind == BinariesExpression && LowerElems(ext, NamedChildren(n), 0) == Success(list)
    requires Alternating(list) && Covered(list, PrecedenceSet(list))
    ensures Reduced(list, PrecedenceSet(list)).Success? ==>
      LowerExpression(ext, n) == Success(Reduced(list, PrecedenceSet(list)).value)
    ensures Reduced(list, PrecedenceSet(list)).Failure? ==>
      LowerExpression(ext, n) == Failure(Unreduced(Reduced(list, PrecedenceSet(list)).error))
  {
  }

  /**
   * Lines 194-200: each field declaration is lowered in turn and pushed
   * onto the instance or the static list.
   */
  method SplitFieldLoop(ext: Externals, kids: seq<Node>)
    returns (r: Result<(seq<FruField>, seq<(FruField, Option<Expr>)>), Panic>)
    ensures LowerFields(ext, kids).Failure? ==> r == Failure(LowerFields(ext, kids).error)
    ensures LowerFields(ext, kids).Success? ==>
      r == Success((NormalFields(LowerFields(ext, kids).value), StaticFields(LowerFields(ext, kids).value)))
  {
    var fields: seq<FruField> := [];
    var staticFields: seq<(FruField, Option<Expr>)> := [];
    ghost var lowered: seq<AnyField> := [];
    for k := 0 to |kids|
      invariant LowerFields(ext, kids[..k]) == Success(lowered)
      invariant fields == NormalFields(lowered) && staticFields == StaticFields(lowered)
    {
      var f := LowerField(ext, kids[k]);
      if f.Failure? {
        LowerFieldsStop(ext, kids, k);
        return Failure(f.error);
      }
      LowerFieldsGrow(ext, kids, k, lowered, f.value);
      FieldSplitSnoc(lowered, f.value);
      match f.value {
        case Normal(field) => fields := fields + [field];
        case Static(field, init) => staticFields := staticFields + [(field, init)];
      }
      lowered := lowered + [f.value];
    }
    assert kids[..|kids|] == kids;
    r := Success((fields, staticFields));
  }

  /**
   * Lines 206-212: each section is lowered in turn and its members extend
   * the method, static-method or watch list.
   */
  method GroupSectionLoop(ext: Externals, kids: seq<Node>)
    returns (r: Result<(seq<Method>, seq<Method>, seq<Watch>), Panic>)
    ensures LowerSections(ext, kids).Failure? ==> r == Failure(LowerSections(ext, kids).error)
    ensures LowerSections(ext, kids).Success? ==>
      var ss := LowerSections(ext, kids).value;
      r == Success((ImplMethods(ss), StaticMethods(ss), Watches(ss)))
  {
    var methods: seq<Method> := [];
    var staticMethods: seq<Method> := [];
    var watches: seq<Watch> := [];
    ghost var sections: seq<TypeSection> := [];
    for k := 0 to |kids|
      invariant LowerSections(ext, kids[..k]) == Success(sections)
      invariant methods == ImplMethods(sections) && staticMethods == StaticMethods(sections)
      invariant watches == Watches(sections)
    {
      var s := LowerSection(ext, kids[k]);
      if s.Failure? {
        LowerSectionsStop(ext, kids, k);
        return Failure(s.error);
      }
      LowerSectionsGrow(ext, kids, k, sections, s.value);
      SectionGroupSnoc(sections, s.value);
      match s.value {
        case ImplSection(ms) => methods := methods + ms;
        case StaticSection(ms) => staticMethods := staticMethods + ms;
        case ConstraintsSection(ws) => watches := watches + ws;
      }
      sections := sections + [s.value];
    }
    assert kids[..|kids|] == kids;
    r := Success((methods, staticMethods, watches));
  }

  /** The `type_statement` arm as written (lines 186-223). */
  method LowerTypeStatement(ext: Externals, n: Node) returns (r: Result<Stmt, Panic>)
    requires n.kind == TypeStatement
    ensures r == LowerStatement(ext, n)
  {
    var tt := RequiredChild(n, "type_type");
    if tt.Failure? {
      return Failure(tt.error);
    }
    var flavor := Flavor(ext, tt.value);
    if flavor.Failure? {
      return Failure(flavor.error);
    }
    var i := RequiredChild(n, "ident");
    if i.Failure? {
      return Failure(i.error);
    }
    var fields := SplitFieldLoop(ext, ChildrenByField(n, "fields"));
    if fields.Failure? {
      return Failure(fields.error);
    }
    var sections := GroupSectionLoop(ext, ChildrenByField(n, "sections"));
    if sections.Failure? {
      return Failure(sections.error);
    }
    var (normal, statics) := fields.value;
    var (methods, staticMethods, watches) := sections.value;
    r := Success(Type(flavor.value, Ident(ext, i.value), normal, statics, watches, methods, staticMethods));
  }

  // ---------------------------------------------------------------------
  // Properties of single arms

  /**
   * A `set_field_statement` (lines 89-109) looks up and lowers its target,
   * then its value, and fails with the first panic met on the way. When both
   * lower, it is accepted exactly when the target is a field access, whose
   * object and field it carries over; otherwise the error names the target.
   */
  lemma SetFieldNeedsFieldAccess(ext: Externals, n: Node)
    requires n.kind == SetFieldStatement
    ensures !HasField(n, "what") ==> LowerStatement(ext, n) == Failure(MissingChild("what"))
    ensures HasField(n, "what") ==>
      var w := LowerExpression(ext, ChildByField(n, "what").value);
      (w.Failure? ==> LowerStatement(ext, n) == Failure(w.error)) &&
      (w.Success? && !HasField(n, "value") ==> LowerStatement(ext, n) == Failure(MissingChild("value"))) &&
      (w.Success? && HasField(n, "value") ==>
        var v := LowerExpression(ext, ChildByField(n, "value").value);
        (v.Failure? ==> LowerStatement(ext, n) == Failure(v.error)) &&
        (v.Success? && w.value.FieldAccess? ==>
          LowerStatement(ext, n) == Success(SetField(w.value.what, w.value.field, v.value))) &&
        (v.Success? && !w.value.FieldAccess? ==> LowerStatement(ext, n) == Failure(NotAFieldAccess(w.value))))
  {
  }

  /** A `return_statement` without a value returns the Nah literal (lines 136-142). */
  lemma ReturnDefaultsToNah(ext: Externals, n: Node)
    requires n.kind == ReturnStatement
    ensures !HasField(n, "value") ==> LowerStatement(ext, n) == Success(Return(Literal(Nah)))
    ensures HasField(n, "value") ==>
      var v := LowerExpression(ext, ChildByField(n, "value").value);
      (LowerStatement(ext, n).Success? <==> v.Success?) &&
      (v.Success? ==> LowerStatement(ext, n) == Success(Return(v.value)))
  {
  }

  /**
   * A function body (lines 419-427) that is a block expression becomes a
   * `return` of that expression; a block statement is lowered as a
   * statement; anything else is rejected.
   */
  lemma FunctionBodyReturns(ext: Externals, n: Node)
    ensures n.kind == BlockExpression ==>
      (LowerFunctionBody(ext, n).Success? <==> LowerExpression(ext, n).Success?) &&
      (LowerExpression(ext, n).Success? ==> LowerFunctionBody(ext, n) == Success(Return(LowerExpression(ext, n).value)))
    ensures n.kind == BlockStatement ==> LowerFunctionBody(ext, n) == LowerStatement(ext, n)
    ensures !n.kind.BlockExpression? && !n.kind.BlockStatement? ==> LowerFunctionBody(ext, n) == Failure(NotAFunctionBody(n.kind))
  {
  }

  /**
   * A string literal's value is its text without the first and the last
   * character (lines 241-244); putting them back gives the text again.
   */
  lemma StringLiteralUnquoted(ext: Externals, n: Node)
    requires n.kind == StringLiteral
    ensures LowerExpression(ext, n).Success? <==> |n.text| >= 2
    ensures LowerExpression(ext, n).Success? ==>
      var v := LowerExpression(ext, n).value;
      v.Literal? && v.value.String? && |v.value.s| == |n.text| - 2 &&
      [n.text[0]] + v.value.s + [n.text[|n.text| - 1]] == n.text
  {
    if |n.text| >= 2 {
      var s := n.text[1..|n.text| - 1];
      assert [n.text[0]] + s + [n.text[|n.text| - 1]] == n.text;
    }
  }

  /**
   * A `binaries_expression` fails with the first panic of its children when
   * its flat list cannot be built; otherwise it lowers to one expression
   * exactly when the list ends in an operand, and that expression reads, in
   * order, as the operands and operators of the list and holds one `Binary`
   * node per operator (lines 285-356).
   */
  lemma BinariesLowering(ext: Externals, n: Node)
    requires n.kind == BinariesExpression
    ensures LowerElems(ext, NamedChildren(n), 0).Failure? ==>
      LowerExpression(ext, n) == Failure(LowerElems(ext, NamedChildren(n), 0).error)
    ensures LowerElems(ext, NamedChildren(n), 0).Success? ==>
      |LowerElems(ext, NamedChildren(n), 0).value| == |NamedChildren(n)| &&
      (LowerExpression(ext, n).Success? <==> |NamedChildren(n)| % 2 == 1)
    ensures LowerExpression(ext, n).Success? ==>
      var elems := LowerElems(ext, NamedChildren(n), 0);
      elems.Success? &&
      FlattenExpr(LowerExpression(ext, n).value) == Flatten(elems.value) &&
      Binaries(LowerExpression(ext, n).value) == NestedBinaries(elems.value) + |Operators(elems.value)|
  {
    var le := LowerElems(ext, NamedChildren(n), 0);
    if le.Success? {
      var elems := le.value;
      PrecedenceSetCovers(elems);
      BinariesArm(ext, n, elems);
      ReducedFails(elems, PrecedenceSet(elems));
      if |elems| % 2 == 1 {
        ReducedTree(elems, PrecedenceSet(elems));
      }
    }
  }

  // ---------------------------------------------------------------------
  // Properties of the grouping in a type declaration

  /** Pushing one more lowered field extends exactly one of the two lists. */
  lemma FieldSplitSnoc(fs: seq<AnyField>, f: AnyField)
    ensures NormalFields(fs + [f]) == NormalFields(fs) + (if f.Normal? then [f.field] else [])
    ensures StaticFields(fs + [f]) == StaticFields(fs) + (if f.Static? then [(f.field, f.init)] else [])
  {
    assert (fs + [f])[..|fs|] == fs;
  }

  /** One more lowered section extends exactly the group of its kind. */
  lemma SectionGroupSnoc(ss: seq<TypeSection>, s: TypeSection)
    ensures ImplMethods(ss + [s]) == ImplMethods(ss) + (if s.ImplSection? then s.methods else [])
    ensures StaticMethods(ss + [s]) == StaticMethods(ss) + (if s.StaticSection? then s.methods else [])
    ensures Watches(ss + [s]) == Watches(ss) + (if s.ConstraintsSection? then s.watches else [])
  {
    assert (ss + [s])[..|ss|] == ss;
  }

  /** Grouping a concatenation groups each part: source order is kept. */
  lemma {:induction false} FieldSplitAppend(a: seq<AnyField>, b: seq<AnyField>)
    ensures NormalFields(a + b) == NormalFields(a) + NormalFields(b)
    ensures StaticFields(a + b) == StaticFields(a) + StaticFields(b)
    decreases |b|
  {
    if b == [] {
      assert a + b == a;
    } else {
      var b' := b[..|b| - 1];
      assert (a + b)[..|a + b| - 1] == a + b';
      assert (a + b)[|a + b| - 1] == b[|b| - 1];
      FieldSplitAppend(a, b');
    }
  }

  /** Every field declaration lands in exactly one of the two lists. */
  lemma {:induction false} FieldSplitCount(fs: seq<AnyField>)
    ensures |NormalFields(fs)| + |StaticFields(fs)| == |fs|
  {
    if fs != [] {
      FieldSplitCount(fs[..|fs| - 1]);
    }
  }

  /** The instance list holds exactly the non-static fields, the static list exactly the static ones. */
  lemma {:induction false} FieldSplitMembers(fs: seq<AnyField>)
    ensures forall f :: f in NormalFields(fs) <==> Normal(f) in fs
    ensures forall f, init :: (f, init) in StaticFields(fs) <==> Static(f, init) in fs
  {
    if fs != [] {
      var front := fs[..|fs| - 1];
      FieldSplitMembers(front);
      assert fs == front + [fs[|fs| - 1]];
    }
  }

  /** The instance methods of a concatenation of sections: section order is kept. */
  lemma {:induction false} ImplMethodsAppend(a: seq<TypeSection>, b: seq<TypeSection>)
    ensures ImplMethods(a + b) == ImplMethods(a) + ImplMethods(b)
    decreases |b|
  {
    if b == [] {
      assert a + b == a;
    } else {
      var b' := b[..|b| - 1];
      assert (a + b)[..|a + b| - 1] == a + b';
      assert (a + b)[|a + b| - 1] == b[|b| - 1];
      ImplMethodsAppend(a, b');
    }
  }

  /** The static methods of a concatenation of sections: section order is kept. */
  lemma {:induction false} StaticMethodsAppend(a: seq<TypeSection>, b: seq<TypeSection>)
    ensures StaticMethods(a + b) == StaticMethods(a) + StaticMethods(b)
    decreases |b|
  {
    if b == [] {
      assert a + b == a;
    } else {
      var b' := b[..|b| - 1];
      assert (a + b)[..|a + b| - 1] == a + b';
      assert (a + b)[|a + b| - 1] == b[|b| - 1];
      StaticMethodsAppend(a, b');
    }
  }

  /** The watches of a concatenation of sections: section order is kept. */
  lemma {:induction false} WatchesAppend(a: seq<TypeSection>, b: seq<TypeSection>)
    ensures Watches(a + b) == Watches(a) + Watches(b)
    decreases |b|
  {
    if b == [] {
      assert a + b == a;
    } else {
      var b' := b[..|b| - 1];
      assert (a + b)[..|a + b| - 1] == a + b';
      assert (a + b)[|a + b| - 1] == b[|b| - 1];
      WatchesAppend(a, b');
    }
  }

  /** A method is an instance method exactly when some `impl` section declares it. */
  lemma {:induction false} SectionGroupMembers(ss: seq<TypeSection>)
    ensures forall m :: m in ImplMethods(ss) <==> exists k :: 0 <= k < |ss| && ss[k].ImplSection? && m in ss[k].methods
    ensures forall m :: m in StaticMethods(ss) <==> exists k :: 0 <= k < |ss| && ss[k].StaticSection? && m in ss[k].methods
    ensures forall w :: w in Watches(ss) <==> exists k :: 0 <= k < |ss| && ss[k].ConstraintsSection? && w in ss[k].watches
  {
    if ss != [] {
      var front := ss[..|ss| - 1];
      SectionGroupMembers(front);
      assert forall k :: 0 <= k < |front| ==> front[k] == ss[k];
    }
  }

  // ---------------------------------------------------------------------
  // The parts of a field, a section, a method and a watch (lines 429-500)

  /**
   * `parse_field` beyond its own contract: the type hint is the identifier
   * of the `type_ident` child, a static field's initializer is the lowering
   * of the `value` child, and the `value` child is lowered before the
   * non-static check, so its panic comes first.
   */
  lemma LowerFieldParts(ext: Externals, n: Node)
    ensures LowerField(ext, n).Success? ==>
      (LowerField(ext, n).value.field.typeIdent.Some? <==> HasField(n, "type_ident")) &&
      (HasField(n, "type_ident") ==>
        LowerField(ext, n).value.field.typeIdent.value == Ident(ext, ChildByField(n, "type_ident").value))
    ensures LowerField(ext, n).Success? && LowerField(ext, n).value.Static? && HasField(n, "value") ==>
      LowerExpression(ext, ChildByField(n, "value").value) == Success(LowerField(ext, n).value.init.value)
    ensures !HasField(n, "ident") ==> LowerField(ext, n) == Failure(MissingChild("ident"))
    ensures HasField(n, "ident") && HasField(n, "value") && LowerExpression(ext, ChildByField(n, "value").value).Failure? ==>
      LowerField(ext, n) == Failure(LowerExpression(ext, ChildByField(n, "value").value).error)
    ensures HasField(n, "ident") && !HasField(n, "static") && HasField(n, "value") &&
            LowerExpression(ext, ChildByField(n, "value").value).Success? ==>
      LowerField(ext, n) == Failure(NonStaticDefault(Ident(ext, ChildByField(n, "ident").value)))
  {
  }

  /**
   * `parse_section`: the node's kind picks the kind of section, whose
   * members are the lowering of the `methods` or `watches` children; a
   * failing member fails the section, and any other kind is rejected.
   */
  lemma LowerSectionKinds(ext: Externals, n: Node)
    ensures LowerSection(ext, n).Success? ==>
      (LowerSection(ext, n).value.ImplSection? <==> n.kind == TypeImplSection) &&
      (LowerSection(ext, n).value.StaticSection? <==> n.kind == TypeStaticSection) &&
      (LowerSection(ext, n).value.ConstraintsSection? <==> n.kind == TypeConstraintsSection)
    ensures LowerSection(ext, n).Success? && !LowerSection(ext, n).value.ConstraintsSection? ==>
      LowerMethods(ext, ChildrenByField(n, "methods")) == Success(LowerSection(ext, n).value.methods)
    ensures LowerSection(ext, n).Success? && LowerSection(ext, n).value.ConstraintsSection? ==>
      LowerWatches(ext, ChildrenByField(n, "watches")) == Success(LowerSection(ext, n).value.watches)
    ensures (n.kind == TypeImplSection || n.kind == TypeStaticSection) &&
            LowerMethods(ext, ChildrenByField(n, "methods")).Failure? ==>
      LowerSection(ext, n) == Failure(LowerMethods(ext, ChildrenByField(n, "methods")).error)
    ensures n.kind == TypeConstraintsSection && LowerWatches(ext, ChildrenByField(n, "watches")).Failure? ==>
      LowerSection(ext, n) == Failure(LowerWatches(ext, ChildrenByField(n, "watches")).error)
    ensures n.kind != TypeImplSection && n.kind != TypeStaticSection && n.kind != TypeConstraintsSection ==>
      LowerSection(ext, n) == Failure(NotASection(n.kind))
  {
  }

  /**
   * `parse_method`: the name is the `ident` child's identifier, the
   * parameters are the `args` children's identifiers in order, and the body
   * is the lowered `body` child; the first missing child or the body's
   * panic fails it.
   */
  lemma LowerMethodParts(ext: Externals, n: Node)
    ensures LowerMethod(ext, n).Success? <==>
      HasField(n, "ident") && HasField(n, "body") && LowerFunctionBody(ext, ChildByField(n, "body").value).Success?
    ensures LowerMethod(ext, n).Success? ==>
      var m, cs := LowerMethod(ext, n).value, ChildrenByField(n, "args");
      m.ident == Ident(ext, ChildByField(n, "ident").value) &&
      |m.args| == |cs| && (forall k :: 0 <= k < |cs| ==> m.args[k] == Ident(ext, cs[k])) &&
      m.body == LowerFunctionBody(ext, ChildByField(n, "body").value).value
    ensures !HasField(n, "ident") ==> LowerMethod(ext, n) == Failure(MissingChild("ident"))
    ensures HasField(n, "ident") && !HasField(n, "body") ==> LowerMethod(ext, n) == Failure(MissingChild("body"))
    ensures HasField(n, "ident") && HasField(n, "body") && LowerFunctionBody(ext, ChildByField(n, "body").value).Failure? ==>
      LowerMethod(ext, n) == Failure(LowerFunctionBody(ext, ChildByField(n, "body").value).error)
  {
  }

  /**
   * `parse_watch`: the watched names are the `args` children's identifiers
   * in order and the body is the lowered `body` statement; a missing body
   * or its panic fails it.
   */
  lemma LowerWatchParts(ext: Externals, n: Node)
    ensures LowerWatch(ext, n).Success? <==>
      HasField(n, "body") && LowerStatement(ext, ChildByField(n, "body").value).Success?
    ensures LowerWatch(ext, n).Success? ==>
      var w, cs := LowerWatch(ext, n).value, ChildrenByField(n, "args");
      |w.args| == |cs| && (forall k :: 0 <= k < |cs| ==> w.args[k] == Ident(ext, cs[k])) &&
      w.body == LowerStatement(ext, ChildByField(n, "body").value).value
    ensures !HasField(n, "body") ==> LowerWatch(ext, n) == Failure(MissingChild("body"))
    ensures HasField(n, "body") && LowerStatement(ext, ChildByField(n, "body").value).Failure? ==>
      LowerWatch(ext, n) == Failure(LowerStatement(ext, ChildByField(n, "body").value).error)
  {
  }

  // ---------------------------------------------------------------------
  // The `.map(..).collect()` over children, element by element

  /** Collecting `f` over `ns` into a `Result`: every value in order, or the first panic. */
  function CollectAll<T>(f: Node -> Result<T, Panic>, ns: seq<Node>): Result<seq<T>, Panic> {
    if ns == [] then Success([])
    else
      var x :- f(ns[0]);
      var rest :- CollectAll(f, ns[1..]);
      Success([x] + rest)
  }

  /** A collection succeeds exactly when every element does; it holds their values in order, or the first panic. */
  lemma {:induction false} CollectAllEach<T>(f: Node -> Result<T, Panic>, ns: seq<Node>)
    ensures CollectAll(f, ns).Success? <==> forall k :: 0 <= k < |ns| ==> f(ns[k]).Success?
    ensures CollectAll(f, ns).Success? ==>
      |CollectAll(f, ns).value| == |ns| && forall k :: 0 <= k < |ns| ==> CollectAll(f, ns).value[k] == f(ns[k]).value
    ensures CollectAll(f, ns).Failure? ==>
      exists k :: 0 <= k < |ns| && f(ns[k]).Failure? && CollectAll(f, ns).error == f(ns[k]).error &&
        forall j :: 0 <= j < k ==> f(ns[j]).Success?
  {
    if ns != [] {
      var tail := ns[1..];
      CollectAllEach(f, tail);
      assert forall k :: 0 <= k < |tail| ==> tail[k] == ns[k + 1];
      if f(ns[0]).Success? {
        if CollectAll(f, tail).Success? {
          var v := [f(ns[0]).value] + CollectAll(f, tail).value;
          assert CollectAll(f, ns) == Success(v);
          forall k | 0 <= k < |ns| ensures v[k] == f(ns[k]).value {
            if k > 0 { assert v[k] == CollectAll(f, tail).value[k - 1]; }
          }
        } else {
          var k :| 0 <= k < |tail| && f(tail[k]).Failure? && CollectAll(f, tail).error == f(tail[k]).error &&
            forall j :: 0 <= j < k ==> f(tail[j]).Success?;
          forall j | 0 <= j < k + 1 ensures f(ns[j]).Success? {
            if j > 0 { assert ns[j] == tail[j - 1]; }
          }
          assert f(ns[k + 1]).Failure?;
        }
      } else {
        assert f(ns[0]).Failure?;
      }
    }
  }

  lemma {:induction false} LowerStatementsCollect(ext: Externals, ns: seq<Node>, f: Node -> Result<Stmt, Panic>)
    requires forall n :: f(n) == LowerStatement(ext, n)
    ensures LowerStatements(ext, ns) == CollectAll(f, ns)
  {
    if ns != [] {
      LowerStatementsCollect(ext, ns[1..], f);
    }
  }

  lemma {:induction false} LowerExpressionsCollect(ext: Externals, ns: seq<Node>, f: Node -> Result<Expr, Panic>)
    requires forall n :: f(n) == LowerExpression(ext, n)
    ensures LowerExpressions(ext, ns) == CollectAll(f, ns)
  {
    if ns != [] {
      LowerExpressionsCollect(ext, ns[1..], f);
    }
  }

  lemma {:induction false} LowerMethodsCollect(ext: Externals, ns: seq<Node>, f: Node -> Result<Method, Panic>)
    requires forall n :: f(n) == LowerMethod(ext, n)
    ensures LowerMethods(ext, ns) == CollectAll(f, ns)
  {
    if ns != [] {
      LowerMethodsCollect(ext, ns[1..], f);
    }
  }

  lemma {:induction false} LowerWatchesCollect(ext: Externals, ns: seq<Node>, f: Node -> Result<Watch, Panic>)
    requires forall n :: f(n) == LowerWatch(ext, n)
    ensures LowerWatches(ext, ns) == CollectAll(f, ns)
  {
    if ns != [] {
      LowerWatchesCollect(ext, ns[1..], f);
    }
  }

  /** Lines 44-55: statement k of a block is the lowering of child k, or the block fails with the first child's panic. */
  lemma LowerStatementsEach(ext: Externals, ns: seq<Node>)
    ensures LowerStatements(ext, ns).Success? <==> forall k :: 0 <= k < |ns| ==> LowerStatement(ext, ns[k]).Success?
    ensures LowerStatements(ext, ns).Success? ==>
      forall k :: 0 <= k < |ns| ==> LowerStatements(ext, ns).value[k] == LowerStatement(ext, ns[k]).value
    ensures LowerStatements(ext, ns).Failure? ==>
      exists k :: 0 <= k < |ns| && LowerStatement(ext, ns[k]).Failure? &&
        LowerStatements(ext, ns).error == LowerStatement(ext, ns[k]).error &&
        forall j :: 0 <= j < k ==> LowerStatement(ext, ns[j]).Success?
  {
    var f := n => LowerStatement(ext, n);
    LowerStatementsCollect(ext, ns, f);
    CollectAllEach(f, ns);
  }

  /** Lines 261-284: argument k is the lowering of child k, or the list fails with the first child's panic. */
  lemma LowerExpressionsEach(ext: Externals, ns: seq<Node>)
    ensures LowerExpressions(ext, ns).Success? <==> forall k :: 0 <= k < |ns| ==> LowerExpression(ext, ns[k]).Success?
    ensures LowerExpressions(ext, ns).Success? ==>
      forall k :: 0 <= k < |ns| ==> LowerExpressions(ext, ns).value[k] == LowerExpression(ext, ns[k]).value
    ensures LowerExpressions(ext, ns).Failure? ==>
      exists k :: 0 <= k < |ns| && LowerExpression(ext, ns[k]).Failure? &&
        LowerExpressions(ext, ns).error == LowerExpression(ext, ns[k]).error &&
        forall j :: 0 <= j < k ==> LowerExpression(ext, ns[j]).Success?
  {
    var f := n => LowerExpression(ext, n);
    LowerExpressionsCollect(ext, ns, f);
    CollectAllEach(f, ns);
  }

  /** Lines 462-473: method k of a section is the lowering of child k, or the section fails with the first child's panic. */
  lemma LowerMethodsEach(ext: Externals, ns: seq<Node>)
    ensures LowerMethods(ext, ns).Success? <==> forall k :: 0 <= k < |ns| ==> LowerMethod(ext, ns[k]).Success?
    ensures LowerMethods(ext, ns).Success? ==>
      forall k :: 0 <= k < |ns| ==> LowerMethods(ext, ns).value[k] == LowerMethod(ext, ns[k]).value
    ensures LowerMethods(ext, ns).Failure? ==>
      exists k :: 0 <= k < |ns| && LowerMethod(ext, ns[k]).Failure? &&
        LowerMethods(ext, ns).error == LowerMethod(ext, ns[k]).error &&
        forall j :: 0 <= j < k ==> LowerMethod(ext, ns[j]).Success?
  {
    var f := n => LowerMethod(ext, n);
    LowerMethodsCollect(ext, ns, f);
    CollectAllEach(f, ns);
  }

  /** Lines 474-480: watch k of a constraints section is the lowering of child k, or the section fails with the first child's panic. */
  lemma LowerWatchesEach(ext: Externals, ns: seq<Node>)
    ensures LowerWatches(ext, ns).Success? <==> forall k :: 0 <= k < |ns| ==> LowerWatch(ext, ns[k]).Success?
    ensures LowerWatches(ext, ns).Success? ==>
      forall k :: 0 <= k < |ns| ==> LowerWatches(ext, ns).value[k] == LowerWatch(ext, ns[k]).value
    ensures LowerWatches(ext, ns).Failure? ==>
      exists k :: 0 <= k < |ns| && LowerWatch(ext, ns[k]).Failure? &&
        LowerWatches(ext, ns).error == LowerWatch(ext, ns[k]).error &&
        forall j :: 0 <= j < k ==> LowerWatch(ext, ns[j]).Success?
  {
    var f := n => LowerWatch(ext, n);
    LowerWatchesCollect(ext, ns, f);
    CollectAllEach(f, ns);
  }
}
