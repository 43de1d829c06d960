/** The tree-to-IR generator of src/visitor/irgen.ts: a `return <Integer>;` statement becomes
    `IMM <value>` followed by `RET` in the current IR function. */
module IrGen {
  import opened Wrappers
  import opened Decimal
  import opened Texts
  import opened IR
  import opened Bootstrap

  /** What emitting leaves untouched: the function list's shape, the current function's
      name and frame size, and every other function. */
  predicate SameOutside(ir: Ir, r: Ir)
    requires HasCurrent(ir) && HasCurrent(r)
  {
    && r.current == ir.current
    && |r.funcs| == |ir.funcs|
    && IndexOf(r.funcs, r.current.value) == IndexOf(ir.funcs, ir.current.value)
    && CurrentFunc(r).name == CurrentFunc(ir).name
    && CurrentFunc(r).localVarSize == CurrentFunc(ir).localVarSize
    && forall j :: 0 <= j < |ir.funcs| && j != IndexOf(ir.funcs, ir.current.value) ==>
         r.funcs[j] == ir.funcs[j]
  }

  /** Two emits in a row leave the same things untouched as one. */
  lemma SameOutsideTrans(a: Ir, b: Ir, c: Ir)
    requires HasCurrent(a) && HasCurrent(b) && HasCurrent(c)
    requires SameOutside(a, b) && SameOutside(b, c)
    ensures SameOutside(a, c)
  {
  }

  /** `visitExpr`: one `IMM` carrying the literal's value. */
  function GenExpr(ir: Ir, e: Expr): (r: Ir)
    requires HasCurrent(ir)
    ensures HasCurrent(r)
    ensures CurrentFunc(r).instrs == CurrentFunc(ir).instrs + [IrInstr("IMM", Number(IntegerValue(e)))]
  {
    EmitImmediate(ir, IntegerValue(e))
  }

  /** `visitStmt`: the expression's instructions, then one `RET`; the function no longer
      misses its return. */
  function GenStmt(ir: Ir, s: Stmt): (r: Ir)
    requires HasCurrent(ir)
    ensures HasCurrent(r)
    ensures CurrentFunc(r).instrs
         == CurrentFunc(ir).instrs + [IrInstr("IMM", Number(IntegerValue(s.expr))), IrInstr("RET", NoOperand)]
    ensures !MissReturn(r)
  {
    var mid := GenExpr(ir, s.expr);
    assert CurrentFunc(mid).instrs + [IrInstr("RET", NoOperand)]
        == CurrentFunc(ir).instrs + [IrInstr("IMM", Number(IntegerValue(s.expr))), IrInstr("RET", NoOperand)];
    EmitReturn(mid)
  }

  /** `visitFunc` and `visitProgram` emit nothing themselves. */
  function GenFunc(ir: Ir, f: Func): (r: Ir)
    requires HasCurrent(ir)
    ensures HasCurrent(r)
    ensures CurrentFunc(r).instrs
         == CurrentFunc(ir).instrs + [IrInstr("IMM", Number(IntegerValue(f.stmt.expr))), IrInstr("RET", NoOperand)]
    ensures !MissReturn(r)
  {
    GenStmt(ir, f.stmt)
  }

  function GenProgram(ir: Ir, p: Program): (r: Ir)
    requires HasCurrent(ir)
    ensures HasCurrent(r)
    ensures CurrentFunc(r).instrs
         == CurrentFunc(ir).instrs + [IrInstr("IMM", Number(IntegerValue(p.func.stmt.expr))), IrInstr("RET", NoOperand)]
    ensures !MissReturn(r)
  {
    GenFunc(ir, p.func)
  }

  /** One emit leaves everything outside the current function's instructions alone, and
      keeps the IR valid when the instruction is well typed. */
  lemma EmitFrame(ir: Ir, instr: IrInstr)
    requires HasCurrent(ir)
    ensures SameOutside(ir, Emit(ir, instr))
    ensures Valid(ir) && WellTyped(instr) ==> Valid(Emit(ir, instr))
  {
    if Valid(ir) && WellTyped(instr) {
      EmitKeepsValid(ir, instr);
    }
  }

  /** Generating a statement touches only the current function's instructions, and a
      valid IR stays valid. */
  lemma GenStmtFrame(ir: Ir, s: Stmt)
    requires HasCurrent(ir)
    ensures SameOutside(ir, GenStmt(ir, s))
    ensures Valid(ir) ==> Valid(GenStmt(ir, s))
  {
    var imm := IrInstr(KindText(IMM), Number(IntegerValue(s.expr)));
    var ret := IrInstr(KindText(RET), NoOperand);
    var mid := Emit(ir, imm);
    assert GenStmt(ir, s) == Emit(mid, ret);
    assert WellTyped(imm) && WellTyped(ret);
    EmitFrame(ir, imm);
    EmitFrame(mid, ret);
    SameOutsideTrans(ir, mid, Emit(mid, ret));
  }

  /** The IR of a whole program, generated into a fresh `main` function. */
  function Compile(p: Program): (r: Ir)
    ensures Valid(r) && r.current == Some("main") && |r.funcs| == 1
    ensures r.funcs[0] == IrFunc("main", 0, [IrInstr("IMM", Number(IntegerValue(p.func.stmt.expr))),
                                             IrInstr("RET", NoOperand)])
  {
    var start := NewFunc(Empty, "main", 0);
    assert Valid(Empty);
    GenStmtFrame(start, p.func.stmt);
    GenProgram(start, p)
  }

  /** The header of the `main` function with an empty frame. */
  lemma MainHeader(instrs: seq<IrInstr>)
    ensures FuncHeader(IrFunc("main", 0, instrs)) == "FUNC main(0):\n"
  {
    assert NatToString(0) == "0";
  }

  /** The dump line of `IMM v` and of `RET`. */
  lemma GeneratedLines(v: nat)
    ensures InstrLine(IrInstr("IMM", Number(v))) == "    IMM " + NatToString(v) + "\n"
    ensures InstrLine(IrInstr("RET", NoOperand)) == "    RET\n"
  {
    var t := NatToString(v);
    assert InstrText(IrInstr("IMM", Number(v))) == "IMM" + (" " + t);
    Reassociate("    ", "IMM", " " + t, "\n");
    assert "    " + "IMM" + (" " + t) + "\n" == "    IMM " + t + "\n";
    assert InstrText(IrInstr("RET", NoOperand)) == "RET";
  }

  /** Regrouping the text of a one-function dump. */
  lemma Flatten(h: string, a: string, n: string, c: string, r: string, e: string)
    ensures h + ((a + n + c) + r) + e == h + a + n + c + r + e
  {
  }

  /** The dump of a compiled program: one `main` block holding `IMM <value>` and `RET`. */
  lemma CompileDump(p: Program)
    ensures Dump(Compile(p))
         == "FUNC main(0):\n" + "    IMM " + NatToString(IntegerValue(p.func.stmt.expr)) + "\n"
            + "    RET\n" + "\n"
  {
    var v := IntegerValue(p.func.stmt.expr);
    var imm := IrInstr("IMM", Number(v));
    var ret := IrInstr("RET", NoOperand);
    var f := IrFunc("main", 0, [imm, ret]);
    assert Compile(p).funcs == [f];
    ConcatMapShort(f, f, FuncBlock);
    ConcatMapShort(imm, ret, InstrLine);
    assert Dump(Compile(p)) == FuncHeader(f) + (InstrLine(imm) + InstrLine(ret)) + "\n";
    MainHeader([imm, ret]);
    GeneratedLines(v);
    Flatten("FUNC main(0):\n", "    IMM ", NatToString(v), "\n", "    RET\n", "\n");
  }
}
