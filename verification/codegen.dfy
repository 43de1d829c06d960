/** The tree-to-assembly generator of src/visitor/codegen.ts: it writes RV32 assembly that
    loads the returned literal into `a0` and returns. */
module TreeCodegen {
  import opened Decimal
  import opened Bootstrap

  /** `defaultResult`: the text of a node without a visit method of its own. */
  function DefaultResult(): string {
    ""
  }

  /** `visitExpr`: loads the literal's value, printed as a number, into `a0`. */
  function GenExpr(e: Expr): string {
    "    li a0, " + NatToString(IntegerValue(e)) + "\n"
  }

  /** `visitStmt`: the expression's code, then the return. */
  function GenStmt(s: Stmt): string {
    GenExpr(s.expr) + "    ret\n"
  }

  /** `visitFunc`: the `main` symbol made global and defined, then the statement's code. */
  function GenFunc(f: Func): string {
    ".globl main\nmain:\n" + GenStmt(f.stmt)
  }

  /** `visitProgram`: the code of the program's single function. */
  function GenProgram(p: Program): string {
    GenFunc(p.func)
  }
}
