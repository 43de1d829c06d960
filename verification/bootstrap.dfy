/** The parse tree of the bootstrap language `int main() { return <Integer>; }` that the
    tree code generator, the IR generator and the interpreter visit. */
module Bootstrap {
  import opened Decimal

  /** `expr : Integer` */
  datatype Expr = Expr(integer: DecimalText)

  /** `stmt : 'return' expr ';'` */
  datatype Stmt = Stmt(expr: Expr)

  /** `func : 'int' 'main' '(' ')' '{' stmt '}'` */
  datatype Func = Func(stmt: Stmt)

  /** `program : func` */
  datatype Program = Program(func: Func)

  /** `parseInt` of the `Integer` token, as all three visitors compute it. */
  function IntegerValue(e: Expr): nat {
    ParseDecimal(e.integer)
  }
}
