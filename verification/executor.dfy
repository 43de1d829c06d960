/** The tree interpreter of src/visitor/executor.ts: a program's result is the value of the
    literal its single `return` statement returns. */
module Executor {
  import opened Decimal
  import opened Bootstrap

  /** `defaultResult`: the value of a node without a visit method of its own. */
  function DefaultResult(): nat {
    0
  }

  function EvalExpr(e: Expr): nat {
    IntegerValue(e)
  }

  function EvalStmt(s: Stmt): nat {
    EvalExpr(s.expr)
  }

  function EvalFunc(f: Func): nat {
    EvalStmt(f.stmt)
  }

  /** `visitProgram`: runs the program and yields the value `main` returns. */
  function Run(p: Program): (r: nat)
    ensures r == ParseDecimal(p.func.stmt.expr.integer)
  {
    EvalFunc(p.func)
  }

  /** The result depends on the literal's value only, not on how it is spelled:
      `return 007;` and `return 7;` run to the same result. */
  lemma LeadingZerosDoNotMatter(text: DecimalText)
    ensures Run(Program(Func(Stmt(Expr("0" + text))))) == Run(Program(Func(Stmt(Expr(text)))))
  {
    LeadingZeroIgnored(text);
  }
}
