/**
 * The evaluator's statement and expression tree, the shapes that lowering
 * produces (`FruStatement`, `FruExpression`), together with the field
 * declaration record `FruField` and the type flavour of
 * src/interpreter/value/fru_type.rs.
 */
module Syntax {
  import opened Wrappers
  import opened Identifiers

  /** The literal values lowering can produce (the literal variants of `FruValue`). */
  datatype LiteralValue = Nah | Number(n: real) | Bool(b: bool) | String(s: string)

  datatype TypeFlavor = Struct | Class | Data

  /** A declared field: visibility, name and an (unenforced) type hint. */
  datatype FruField = FruField(isPublic: bool, ident: Identifier, typeIdent: Option<Identifier>)

  /** A method of a type: name, parameter names and body. */
  datatype Method = Method(ident: Identifier, args: seq<Identifier>, body: Stmt)

  /** A watch block of a type: the watched names and the body. */
  datatype Watch = Watch(args: seq<Identifier>, body: Stmt)

  datatype Expr =
    | Literal(value: LiteralValue)
    | Variable(ident: Identifier)
    | Block(stmts: seq<Stmt>, expr: Expr)
    | Call(what: Expr, args: seq<Expr>)
    | CurryCall(what: Expr, args: seq<Expr>)
    | Binary(operator: Identifier, left: Expr, right: Expr)
    | Function(params: seq<Identifier>, body: Stmt)
    | Instantiation(what: Expr, args: seq<Expr>)
    | FieldAccess(what: Expr, field: Identifier)
    | If(condition: Expr, thenBody: Expr, elseBody: Expr)

  datatype Stmt =
    | Block(stmts: seq<Stmt>)
    | Expression(value: Expr)
    | Let(ident: Identifier, value: Expr)
    | Set(ident: Identifier, value: Expr)
    | SetField(target: Expr, field: Identifier, value: Expr)
    | If(condition: Expr, thenBody: Stmt, elseBody: Option<Stmt>)
    | While(cond: Expr, body: Stmt)
    | Return(value: Expr)
    | Break
    | Continue
    | Operator(ident: Identifier, commutative: bool,
               leftIdent: Identifier, leftTypeIdent: Identifier,
               rightIdent: Identifier, rightTypeIdent: Identifier,
               body: Stmt)
    | Type(typeType: TypeFlavor, ident: Identifier,
           fields: seq<FruField>, staticFields: seq<(FruField, Option<Expr>)>,
           watches: seq<Watch>, methods: seq<Method>, staticMethods: seq<Method>)
}
