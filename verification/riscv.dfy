/** The RV32 back end of src/target/riscv.ts: a visitor over IR instructions that appends
    assembly text to one accumulating string. Only the `IMM`, `UNARY` and `RET` handlers
    exist; the register `r0` of the IR is `t0`, and the return value goes to `a0`. */
module Riscv {
  import opened Wrappers
  import opened Decimal
  import opened Texts
  import opened IR

  /** `emitLabel`: the label followed by a colon on its own line. */
  function LabelLine(name: string): string {
    name + ":\n"
  }

  /** `emitDirective`: the directive on its own line. */
  function DirectiveLine(directive: string): string {
    directive + "\n"
  }

  /** `emitInstr`: the instruction indented by four spaces on its own line. */
  function AsmLine(instr: string): string {
    "    " + instr + "\n"
  }

  /** What `visitAll` writes before the first instruction. */
  function Prologue(): string {
    DirectiveLine(".globl main") + LabelLine("main")
  }

  datatype CodegenError =
    | BadInstruction(cause: IrError)          // the dispatcher knows no such instruction
    | UnknownUnaryOperator(op: Operand)       // `visitUnary`'s default branch
    | MissingHandler(handler: Handler)        // a handler the back end does not define

  /** The assembly of a unary operator; the switch compares the operand with `===`,
      so only the three one-character strings match. */
  function UnaryAsm(op: Operand): Option<string> {
    if op == Text("-") then Some("neg t0, t0")
    else if op == Text("~") then Some("not t0, t0")
    else if op == Text("!") then Some("seqz t0, t0")
    else None
  }

  /** The instructions this back end can translate: immediates, returns, and the three
      unary operators. */
  predicate Supported(i: IrInstr) {
    || i.name == "IMM"
    || i.name == "RET"
    || (i.name == "UNARY" && UnaryAsm(i.op).Some?)
  }

  /** `visitInstr` on this back end: the text one instruction appends, or why it stops. */
  function VisitInstr(i: IrInstr): (r: Result<string, CodegenError>)
    ensures r.Success? <==> Supported(i)
    ensures r.Failure? && r.error.UnknownUnaryOperator? ==> i.name == "UNARY" && r.error.op == i.op
    ensures r.Failure? && r.error.MissingHandler? ==>
              i.name in {"BINARY", "LOAD_VAR", "STORE_VAR", "PUSH", "POP"}
    ensures r.Failure? && r.error.BadInstruction? ==> KindOf(i.name).None?
  {
    match Dispatch(i)
    case Failure(e) => Failure(BadInstruction(e))
    case Success(h) =>
      match h
      case VisitImmediate => Success(AsmLine("li t0, " + Interpolate(i.op)))
      case VisitUnary =>
        (match UnaryAsm(i.op)
         case Some(text) => Success(AsmLine(text))
         case None => Failure(UnknownUnaryOperator(i.op)))
      case VisitReturn => Success(AsmLine("mv a0, t0") + AsmLine("ret"))
      case _ => Failure(MissingHandler(h))
  }

  /** `IMM v` loads `v`, as interpolated text, into `t0`. */
  lemma ImmediateText(op: Operand)
    ensures VisitInstr(IrInstr("IMM", op)) == Success("    li t0, " + Interpolate(op) + "\n")
  {
    var i := IrInstr("IMM", op);
    assert Dispatch(i) == Success(VisitImmediate);
    assert VisitInstr(i) == Success(AsmLine("li t0, " + Interpolate(op)));
    assert "    " + ("li t0, " + Interpolate(op)) == "    li t0, " + Interpolate(op);
  }

  /** `RET` moves `t0` into the return register and returns. */
  lemma ReturnText(op: Operand)
    ensures VisitInstr(IrInstr("RET", op)) == Success("    mv a0, t0\n    ret\n")
  {
    var i := IrInstr("RET", op);
    assert Dispatch(i) == Success(VisitReturn);
    assert VisitInstr(i) == Success(AsmLine("mv a0, t0") + AsmLine("ret"));
    assert AsmLine("mv a0, t0") == "    mv a0, t0\n";
    assert AsmLine("ret") == "    ret\n";
    assert "    mv a0, t0\n" + "    ret\n" == "    mv a0, t0\n    ret\n";
  }

  /** The three unary operators become `neg`, `not` and `seqz` on `t0`. */
  lemma UnaryTexts()
    ensures VisitInstr(IrInstr("UNARY", Text("-"))) == Success("    neg t0, t0\n")
    ensures VisitInstr(IrInstr("UNARY", Text("~"))) == Success("    not t0, t0\n")
    ensures VisitInstr(IrInstr("UNARY", Text("!"))) == Success("    seqz t0, t0\n")
  {
    assert Dispatch(IrInstr("UNARY", Text("-"))) == Success(VisitUnary);
    assert UnaryAsm(Text("-")) == Some("neg t0, t0");
    assert AsmLine("neg t0, t0") == "    neg t0, t0\n";
    assert Dispatch(IrInstr("UNARY", Text("~"))) == Success(VisitUnary);
    assert UnaryAsm(Text("~")) == Some("not t0, t0");
    assert AsmLine("not t0, t0") == "    not t0, t0\n";
    assert Dispatch(IrInstr("UNARY", Text("!"))) == Success(VisitUnary);
    assert UnaryAsm(Text("!")) == Some("seqz t0, t0");
    assert AsmLine("seqz t0, t0") == "    seqz t0, t0\n";
  }

  /** The text an instruction contributes; empty for one the back end rejects. */
  function InstrAsm(i: IrInstr): string {
    match VisitInstr(i)
    case Success(text) => text
    case Failure(_) => ""
  }

  /** `visitAll`: the prologue, then each instruction's text in order; the first
      instruction the back end cannot translate ends the pass with its error. */
  method VisitAll(instrs: seq<IrInstr>) returns (r: Result<string, CodegenError>)
    ensures r.Success? <==> forall k :: 0 <= k < |instrs| ==> Supported(instrs[k])
    ensures r.Success? ==> r.value == Prologue() + ConcatMap(instrs, InstrAsm)
    ensures r.Failure? ==>
              exists k :: 0 <= k < |instrs| && VisitInstr(instrs[k]) == Failure(r.error)
                          && forall j :: 0 <= j < k ==> Supported(instrs[j])
  {
    r := AppendEach(Prologue(), instrs, VisitInstr, InstrAsm);
  }

  /** Emission only appends: the text `VisitAll` produces for a prefix of the
      instructions is a prefix of the text it produces for all of them, and the rest is
      the remaining instructions' text, unaltered. */
  lemma OutputExtends(instrs: seq<IrInstr>, k: nat)
    requires k <= |instrs|
    ensures Prologue() + ConcatMap(instrs[..k], InstrAsm) <= Prologue() + ConcatMap(instrs, InstrAsm)
    ensures Prologue() + ConcatMap(instrs, InstrAsm)
         == (Prologue() + ConcatMap(instrs[..k], InstrAsm)) + ConcatMap(instrs[k..], InstrAsm)
  {
    ConcatMapSplit(Prologue(), instrs, k, InstrAsm);
  }

  /** The prologue is the `main` symbol made global and then defined. */
  lemma PrologueText()
    ensures Prologue() == ".globl main\nmain:\n"
  {
  }

  /** Every instruction the IR can hold either translates or is reported with its own
      kind: no well-typed instruction reaches the dispatcher's "unknown" error. */
  lemma WellTypedNeverUnknown(i: IrInstr)
    requires WellTyped(i)
    ensures !(VisitInstr(i).Failure? && VisitInstr(i).error.BadInstruction?)
  {
    WellTypedDispatches(i);
  }
}
