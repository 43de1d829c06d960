/** How the three back ends of the bootstrap language relate: the interpreter's result, the
    `IMM` operand of the generated IR, the immediate the tree code generator loads into
    `a0`, and the immediate the RV32 back end loads into `t0` before moving it to `a0`
    are one and the same number. */
module Agreement {
  import opened Wrappers
  import opened Decimal
  import opened Texts
  import opened IR
  import opened Bootstrap
  import Riscv
  import Executor
  import IrGen
  import TreeCodegen

  /** The text of `li <reg>, <imm>` as an indented instruction line. */
  function LoadLine(reg: string, imm: string): string {
    "    li " + reg + ", " + imm + "\n"
  }

  /** The value an instruction line `li <reg>, <imm>` loads, when `line` is exactly such a
      line with a decimal immediate. */
  function LoadedImmediate(reg: string, line: string): Option<nat> {
    var lead := "    li " + reg + ", ";
    if |line| > |lead| + 1 && line[..|lead|] == lead && line[|line| - 1] == '\n'
       && IsDecimal(line[|lead|..|line| - 1])
    then Some(ParseDecimal(line[|lead|..|line| - 1]))
    else None
  }

  /** Reading back the immediate of a printed `li` gives the number printed. */
  lemma LoadLineReadBack(reg: string, n: nat)
    ensures LoadedImmediate(reg, LoadLine(reg, NatToString(n))) == Some(n)
  {
    var lead := "    li " + reg + ", ";
    var digits := NatToString(n);
    var line := LoadLine(reg, digits);
    assert line == lead + digits + "\n";
    assert line[..|lead|] == lead;
    assert line[|lead|..|line| - 1] == digits;
  }

  /** The IR generated for a program holds the interpreter's result as its `IMM` operand. */
  lemma IrCarriesResult(p: Program)
    ensures IrGen.Compile(p).funcs[0].instrs
         == [IrInstr("IMM", Number(Executor.Run(p))), IrInstr("RET", NoOperand)]
  {
  }

  /** The tree code generator writes the prologue, one `li a0` line holding the canonical
      decimal digits of the interpreter's result, which read back as that result, and `ret`. */
  lemma TreeCodeLoadsResult(p: Program)
    ensures var line := TreeCodegen.GenExpr(p.func.stmt.expr);
            && TreeCodegen.GenProgram(p) == Riscv.Prologue() + line + "    ret\n"
            && line == LoadLine("a0", NatToString(Executor.Run(p)))
            && IsCanonical(NatToString(Executor.Run(p)))
            && LoadedImmediate("a0", line) == Some(Executor.Run(p))
  {
    var n := Executor.Run(p);
    var line := TreeCodegen.GenExpr(p.func.stmt.expr);
    assert line == LoadLine("a0", NatToString(n));
    LoadLineReadBack("a0", n);
    Riscv.PrologueText();
    Reassociate(".globl main\nmain:\n", line, "", "    ret\n");
  }

  /** `return 007;` loads `7`: the immediate is printed from the parsed value, not copied
      from the literal's text. */
  lemma LeadingZerosNotPrinted()
    ensures TreeCodegen.GenExpr(Expr("007")) == "    li a0, 7\n"
  {
    assert IsDecimal("007");
    assert ParseDecimal("007") == 7 by {
      assert ParseDecimal("0") == 0;
      assert "007"[..2] == "00" && "00"[..1] == "0";
    }
    assert NatToString(7) == "7";
  }

  /** The RV32 text of `IMM n` is the `li t0` line of `n`. */
  lemma ImmediateLine(n: nat)
    ensures Riscv.Supported(IrInstr("IMM", Number(n)))
    ensures Riscv.InstrAsm(IrInstr("IMM", Number(n))) == LoadLine("t0", NatToString(n))
  {
    Riscv.ImmediateText(Number(n));
    assert "    li t0, " + NatToString(n) + "\n" == LoadLine("t0", NatToString(n));
  }

  /** The RV32 text of `RET` moves `t0` to `a0` and returns. */
  lemma ReturnLines()
    ensures Riscv.Supported(IrInstr("RET", NoOperand))
    ensures Riscv.InstrAsm(IrInstr("RET", NoOperand)) == "    mv a0, t0\n    ret\n"
  {
    Riscv.ReturnText(NoOperand);
  }

  /** The RV32 back end translates the generated IR completely: one `li t0` whose
      immediate reads back as the interpreter's result, then the move to `a0` and `ret`. */
  lemma RiscvLoadsResult(p: Program)
    ensures var instrs := IrGen.Compile(p).funcs[0].instrs;
            && (forall k :: 0 <= k < |instrs| ==> Riscv.Supported(instrs[k]))
            && ConcatMap(instrs, Riscv.InstrAsm)
               == LoadLine("t0", NatToString(Executor.Run(p))) + "    mv a0, t0\n    ret\n"
            && LoadedImmediate("t0", LoadLine("t0", NatToString(Executor.Run(p)))) == Some(Executor.Run(p))
  {
    var n := Executor.Run(p);
    IrCarriesResult(p);
    ImmediateLine(n);
    ReturnLines();
    ConcatMapShort(IrInstr("IMM", Number(n)), IrInstr("RET", NoOperand), Riscv.InstrAsm);
    LoadLineReadBack("t0", n);
  }

  /** The four routes through the compiler agree on the returned number. */
  lemma BackendsAgree(p: Program)
    ensures var n := Executor.Run(p);
            var instrs := IrGen.Compile(p).funcs[0].instrs;
            && instrs[0].op == Number(n)
            && LoadedImmediate("a0", TreeCodegen.GenExpr(p.func.stmt.expr)) == Some(n)
            && LoadedImmediate("t0", Riscv.InstrAsm(instrs[0])) == Some(n)
  {
    var n := Executor.Run(p);
    IrCarriesResult(p);
    TreeCodeLoadsResult(p);
    ImmediateLine(n);
    LoadLineReadBack("t0", n);
  }
}
