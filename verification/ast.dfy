/** A fragment of the parse tree the semantic checker walks: literals, identifiers,
    assignments, unary operators, `return` and expression statements, and declarations in
    one flat function body. Forms with two or more children (binary operators, nested
    blocks, `if`) are not part of this model. */
module Ast {
  import opened Wrappers
  import opened Decimal

  datatype Expr =
    | IntLit(integer: DecimalText)
    | Ident(name: string)
    | Assign(target: string, rhs: Expr)
    | Unary(op: string, operand: Expr)

  datatype Stmt = Return(value: Expr) | ExprStmt(expr: Expr)

  /** A block item is a declaration `int name [= init];` or a statement. */
  datatype BlockItem = Decl(name: string, init: Option<Expr>) | StmtItem(stmt: Stmt)

  datatype Func = Func(name: string, items: seq<BlockItem>)

  datatype Program = Program(func: Func)

  function StmtExpr(st: Stmt): Expr {
    match st
    case Return(e) => e
    case ExprStmt(e) => e
  }
}
