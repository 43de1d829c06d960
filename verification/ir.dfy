/** The intermediate representation of src/ir.ts: instructions with one optional operand,
    per-function instruction lists kept in insertion order, the textual dump, and the
    dispatch from instruction names to visitor handlers. */
module IR {
  import opened Wrappers
  import opened Decimal
  import opened Texts

  /** The eight values of `IrInstrName`. */
  datatype Kind = IMM | UNARY | BINARY | LOAD_VAR | STORE_VAR | PUSH | POP | RET

  /** The string each `IrInstrName` value stands for. */
  function KindText(k: Kind): string {
    match k
    case IMM => "IMM"
    case UNARY => "UNARY"
    case BINARY => "BINARY"
    case LOAD_VAR => "LOAD_VAR"
    case STORE_VAR => "STORE_VAR"
    case PUSH => "PUSH"
    case POP => "POP"
    case RET => "RET"
  }

  /** Recognises an instruction name; any other text names no instruction. */
  function KindOf(name: string): (r: Option<Kind>)
    ensures r.Some? ==> KindText(r.value) == name
    ensures r.None? ==> forall k :: KindText(k) != name
  {
    if name == "IMM" then Some(IMM)
    else if name == "UNARY" then Some(UNARY)
    else if name == "BINARY" then Some(BINARY)
    else if name == "LOAD_VAR" then Some(LOAD_VAR)
    else if name == "STORE_VAR" then Some(STORE_VAR)
    else if name == "PUSH" then Some(PUSH)
    else if name == "POP" then Some(POP)
    else if name == "RET" then Some(RET)
    else None
  }

  /** The untyped operand: absent (`undefined`), a number, or a string. */
  datatype Operand = NoOperand | Number(n: nat) | Text(s: string)

  /** The text a template literal `${op}` produces for the operand. */
  function Interpolate(op: Operand): string {
    match op
    case NoOperand => "undefined"
    case Number(n) => NatToString(n)
    case Text(s) => s
  }

  /** An instruction keeps its name as the string the enum value stands for. */
  datatype IrInstr = IrInstr(name: string, op: Operand)

  /** `IrInstr.toString`: the name, then a space and the operand when there is one. */
  function InstrText(i: IrInstr): string {
    i.name + (if i.op.NoOperand? then "" else " " + Interpolate(i.op))
  }

  /** The operand each instruction name calls for: `IMM`, `LOAD_VAR` and `STORE_VAR` a
      number, `UNARY`, `BINARY`, `PUSH` and `POP` a string, `RET` none. */
  predicate Fits(k: Kind, op: Operand) {
    match k
    case IMM | LOAD_VAR | STORE_VAR => op.Number?
    case UNARY | BINARY | PUSH | POP => op.Text?
    case RET => op.NoOperand?
  }

  predicate WellTyped(i: IrInstr) {
    KindOf(i.name).Some? && Fits(KindOf(i.name).value, i.op)
  }

  /** Index of the first space of `s`, or `|s|` when there is none. */
  function SpaceIndex(s: string): (r: nat)
    ensures r <= |s|
    ensures forall j :: 0 <= j < r ==> s[j] != ' '
    ensures r < |s| ==> s[r] == ' '
  {
    if |s| == 0 || s[0] == ' ' then 0 else 1 + SpaceIndex(s[1..])
  }

  /** Reads the text after the name (absent when the line has no space) as the operand
      the instruction name calls for. */
  function ParseOperand(k: Kind, rest: Option<string>): Option<Operand> {
    match rest
    case None => if k == RET then Some(NoOperand) else None
    case Some(t) =>
      match k
      case IMM | LOAD_VAR | STORE_VAR =>
        if IsCanonical(t) then Some(Number(ParseDecimal(t))) else None
      case UNARY | BINARY | PUSH | POP => Some(Text(t))
      case RET => None
  }

  /** Reads one instruction line of the dump back into an instruction. */
  function ParseInstr(s: string): Option<IrInstr> {
    var cut := SpaceIndex(s);
    match KindOf(s[..cut])
    case None => None
    case Some(k) =>
      match ParseOperand(k, if cut == |s| then None else Some(s[cut + 1..]))
      case None => None
      case Some(op) => Some(IrInstr(s[..cut], op))
  }

  lemma KindTextHasNoSpace(k: Kind)
    ensures forall j :: 0 <= j < |KindText(k)| ==> KindText(k)[j] != ' '
  {
  }

  /** The dump of a well-typed instruction is unambiguous: it reads back as that instruction. */
  lemma InstrTextRoundTrip(i: IrInstr)
    requires WellTyped(i)
    ensures ParseInstr(InstrText(i)) == Some(i)
  {
    var s := InstrText(i);
    var k := KindOf(i.name).value;
    KindTextHasNoSpace(k);
    assert s[..|i.name|] == i.name;
    if i.op.NoOperand? {
      assert s == i.name;
      assert SpaceIndex(s) == |i.name|;
    } else {
      assert s[|i.name|] == ' ';
      assert SpaceIndex(s) == |i.name|;
      assert s[|i.name| + 1..] == Interpolate(i.op);
    }
  }

  /** An operand the reader accepts fits the name and prints back as the text it was read from. */
  lemma ParseOperandSound(k: Kind, rest: Option<string>)
    requires ParseOperand(k, rest).Some?
    ensures Fits(k, ParseOperand(k, rest).value)
    ensures rest.None? <==> ParseOperand(k, rest).value.NoOperand?
    ensures rest.Some? ==> Interpolate(ParseOperand(k, rest).value) == rest.value
  {
    if rest.Some? && ParseOperand(k, rest).value.Number? {
      CanonicalRoundTrip(rest.value);
    }
  }

  /** Conversely, every line the reader accepts is the dump of a well-typed instruction. */
  lemma ParseInstrSound(s: string)
    requires ParseInstr(s).Some?
    ensures WellTyped(ParseInstr(s).value)
    ensures InstrText(ParseInstr(s).value) == s
  {
    var cut := SpaceIndex(s);
    var k := KindOf(s[..cut]).value;
    var rest := if cut == |s| then None else Some(s[cut + 1..]);
    ParseOperandSound(k, rest);
    if cut < |s| {
      assert s == s[..cut] + " " + s[cut + 1..];
    } else {
      assert s == s[..cut];
    }
  }

  /** `IrFunc`: name, frame size and the instructions emitted so far. */
  datatype IrFunc = IrFunc(name: string, localVarSize: nat, instrs: seq<IrInstr>)

  /** `Ir`: the functions in insertion order, and the name of the function receiving
      emitted instructions (absent until the first `newFunc`). */
  datatype Ir = Ir(funcs: seq<IrFunc>, current: Option<string>)

  const Empty: Ir := Ir([], None)

  /** Position of the function called `name`, or -1. */
  function IndexOf(fs: seq<IrFunc>, name: string): (r: int)
    ensures -1 <= r < |fs|
    ensures r == -1 <==> forall j :: 0 <= j < |fs| ==> fs[j].name != name
    ensures r >= 0 ==> fs[r].name == name && forall j :: 0 <= j < r ==> fs[j].name != name
  {
    if |fs| == 0 then -1
    else if fs[0].name == name then 0
    else
      var r := IndexOf(fs[1..], name);
      if r == -1 then -1 else r + 1
  }

  /** `IndexOf` finds exactly the first function bearing the name. */
  lemma IndexOfFirst(fs: seq<IrFunc>, name: string, i: int)
    requires 0 <= i < |fs| && fs[i].name == name
    requires forall j :: 0 <= j < i ==> fs[j].name != name
    ensures IndexOf(fs, name) == i
  {
  }

  predicate UniqueNames(fs: seq<IrFunc>) {
    forall i, j :: 0 <= i < j < |fs| ==> fs[i].name != fs[j].name
  }

  /** There is a current function and it is one of the functions. */
  predicate HasCurrent(ir: Ir) {
    ir.current.Some? && IndexOf(ir.funcs, ir.current.value) >= 0
  }

  /** Function names are keys of a map, the current function is one of them, and every
      instruction carries the operand its name calls for. */
  ghost predicate Valid(ir: Ir) {
    && UniqueNames(ir.funcs)
    && (ir.current.Some? ==> HasCurrent(ir))
    && forall i, j :: 0 <= i < |ir.funcs| && 0 <= j < |ir.funcs[i].instrs| ==>
         WellTyped(ir.funcs[i].instrs[j])
  }

  function CurrentFunc(ir: Ir): IrFunc
    requires HasCurrent(ir)
  {
    ir.funcs[IndexOf(ir.funcs, ir.current.value)]
  }

  /** `newFunc`: installs an empty function and makes it current. A function of the same
      name is replaced where it stands (a `Map` keeps the first insertion position);
      otherwise the new function goes last. */
  function NewFunc(ir: Ir, name: string, localVarSize: nat): (r: Ir)
    ensures HasCurrent(r) && r.current == Some(name)
    ensures CurrentFunc(r) == IrFunc(name, localVarSize, [])
    ensures IndexOf(ir.funcs, name) >= 0 ==>
              |r.funcs| == |ir.funcs| && IndexOf(r.funcs, name) == IndexOf(ir.funcs, name)
    ensures IndexOf(ir.funcs, name) < 0 ==>
              |r.funcs| == |ir.funcs| + 1 && IndexOf(r.funcs, name) == |ir.funcs|
    ensures forall j :: 0 <= j < |ir.funcs| && ir.funcs[j].name != name ==> r.funcs[j] == ir.funcs[j]
    ensures Valid(ir) ==> Valid(r)
  {
    var f := IrFunc(name, localVarSize, []);
    var i := IndexOf(ir.funcs, name);
    var fs := if i >= 0 then ir.funcs[i := f] else ir.funcs + [f];
    IndexOfFirst(fs, name, if i >= 0 then i else |ir.funcs|);
    Ir(fs, Some(name))
  }

  /** `emit`: appends one instruction to the current function; the function list, the
      other functions and the earlier instructions stay as they were. */
  function Emit(ir: Ir, instr: IrInstr): (r: Ir)
    requires HasCurrent(ir)
    ensures HasCurrent(r) && r.current == ir.current
    ensures |r.funcs| == |ir.funcs|
    ensures IndexOf(r.funcs, r.current.value) == IndexOf(ir.funcs, ir.current.value)
    ensures CurrentFunc(r).name == CurrentFunc(ir).name
    ensures CurrentFunc(r).localVarSize == CurrentFunc(ir).localVarSize
    ensures CurrentFunc(r).instrs == CurrentFunc(ir).instrs + [instr]
    ensures forall j :: 0 <= j < |ir.funcs| && j != IndexOf(ir.funcs, ir.current.value) ==>
              r.funcs[j] == ir.funcs[j]
  {
    var i := IndexOf(ir.funcs, ir.current.value);
    var f := ir.funcs[i];
    var fs := ir.funcs[i := f.(instrs := f.instrs + [instr])];
    IndexOfFirst(fs, ir.current.value, i);
    Ir(fs, ir.current)
  }

  /** `missReturn`: false without a current function; otherwise true exactly when the
      current function is empty or does not end in `RET`. */
  function MissReturn(ir: Ir): (r: bool)
    requires ir.current.Some? ==> HasCurrent(ir)
    ensures r ==> HasCurrent(ir)
    ensures HasCurrent(ir) ==>
              (r <==> (|CurrentFunc(ir).instrs| == 0 || Last(CurrentFunc(ir).instrs).name != "RET"))
  {
    if ir.current.None? then false
    else
      var instrs := CurrentFunc(ir).instrs;
      |instrs| == 0 || instrs[|instrs| - 1].name != KindText(RET)
  }

  function Last(s: seq<IrInstr>): IrInstr
    requires |s| > 0
  {
    s[|s| - 1]
  }

  function EmitImmediate(ir: Ir, value: nat): (r: Ir)
    requires HasCurrent(ir)
    ensures HasCurrent(r) && CurrentFunc(r).instrs == CurrentFunc(ir).instrs + [IrInstr("IMM", Number(value))]
    ensures MissReturn(r)
  {
    Emit(ir, IrInstr(KindText(IMM), Number(value)))
  }

  function EmitUnary(ir: Ir, op: string): (r: Ir)
    requires HasCurrent(ir)
    ensures HasCurrent(r) && CurrentFunc(r).instrs == CurrentFunc(ir).instrs + [IrInstr("UNARY", Text(op))]
    ensures MissReturn(r)
  {
    Emit(ir, IrInstr(KindText(UNARY), Text(op)))
  }

  function EmitBinary(ir: Ir, op: string): (r: Ir)
    requires HasCurrent(ir)
    ensures HasCurrent(r) && CurrentFunc(r).instrs == CurrentFunc(ir).instrs + [IrInstr("BINARY", Text(op))]
    ensures MissReturn(r)
  {
    Emit(ir, IrInstr(KindText(BINARY), Text(op)))
  }

  function EmitLoadVar(ir: Ir, offset: nat): (r: Ir)
    requires HasCurrent(ir)
    ensures HasCurrent(r) && CurrentFunc(r).instrs == CurrentFunc(ir).instrs + [IrInstr("LOAD_VAR", Number(offset))]
    ensures MissReturn(r)
  {
    Emit(ir, IrInstr(KindText(LOAD_VAR), Number(offset)))
  }

  function EmitStoreVar(ir: Ir, offset: nat): (r: Ir)
    requires HasCurrent(ir)
    ensures HasCurrent(r) && CurrentFunc(r).instrs == CurrentFunc(ir).instrs + [IrInstr("STORE_VAR", Number(offset))]
    ensures MissReturn(r)
  {
    Emit(ir, IrInstr(KindText(STORE_VAR), Number(offset)))
  }

  function EmitPush(ir: Ir, reg: string): (r: Ir)
    requires HasCurrent(ir)
    ensures HasCurrent(r) && CurrentFunc(r).instrs == CurrentFunc(ir).instrs + [IrInstr("PUSH", Text(reg))]
    ensures MissReturn(r)
  {
    Emit(ir, IrInstr(KindText(PUSH), Text(reg)))
  }

  function EmitPop(ir: Ir, reg: string): (r: Ir)
    requires HasCurrent(ir)
    ensures HasCurrent(r) && CurrentFunc(r).instrs == CurrentFunc(ir).instrs + [IrInstr("POP", Text(reg))]
    ensures MissReturn(r)
  {
    Emit(ir, IrInstr(KindText(POP), Text(reg)))
  }

  /** `emitReturn` closes the current function: `missReturn` is false right after it. */
  function EmitReturn(ir: Ir): (r: Ir)
    requires HasCurrent(ir)
    ensures HasCurrent(r) && CurrentFunc(r).instrs == CurrentFunc(ir).instrs + [IrInstr("RET", NoOperand)]
    ensures !MissReturn(r)
  {
    Emit(ir, IrInstr(KindText(RET), NoOperand))
  }

  /** An instruction's line of the dump: indented by four spaces. */
  function InstrLine(i: IrInstr): string {
    "    " + InstrText(i) + "\n"
  }

  function FuncHeader(f: IrFunc): string {
    "FUNC " + f.name + "(" + NatToString(f.localVarSize) + "):\n"
  }

  /** A function's block of the dump: header, one line per instruction in order, blank line. */
  function FuncBlock(f: IrFunc): string {
    FuncHeader(f) + ConcatMap(f.instrs, InstrLine) + "\n"
  }

  /** The dump: one block per function, in insertion order. */
  function Dump(ir: Ir): string {
    ConcatMap(ir.funcs, FuncBlock)
  }

  /** Appending an instruction to a function adds exactly its line before the closing
      blank line of the function's block. */
  lemma FuncBlockAppend(f: IrFunc, instr: IrInstr)
    ensures FuncBlock(f.(instrs := f.instrs + [instr]))
         == FuncHeader(f) + ConcatMap(f.instrs, InstrLine) + InstrLine(instr) + "\n"
  {
    ConcatMapAppend(f.instrs, [instr], InstrLine);
    assert ConcatMap([instr], InstrLine) == InstrLine(instr) by {
      assert [instr][..0] == [];
    }
    Reassociate(FuncHeader(f), ConcatMap(f.instrs, InstrLine), InstrLine(instr), "\n");
  }

  /** Emitting a well-typed instruction keeps the IR valid. */
  lemma EmitKeepsValid(ir: Ir, instr: IrInstr)
    requires HasCurrent(ir) && Valid(ir) && WellTyped(instr)
    ensures Valid(Emit(ir, instr))
  {
    var i := IndexOf(ir.funcs, ir.current.value);
    var r := Emit(ir, instr);
    EmitInPlace(ir, instr);
    forall a, b | 0 <= a < b < |r.funcs|
      ensures r.funcs[a].name != r.funcs[b].name
    {
      assert r.funcs[a].name == ir.funcs[a].name && r.funcs[b].name == ir.funcs[b].name;
    }
    forall a, j | 0 <= a < |r.funcs| && 0 <= j < |r.funcs[a].instrs|
      ensures WellTyped(r.funcs[a].instrs[j])
    {
      if a == i && j == |ir.funcs[i].instrs| {
        assert r.funcs[a].instrs[j] == instr;
      } else {
        assert r.funcs[a].instrs[j] == ir.funcs[a].instrs[j];
      }
    }
  }

  /** Emitting replaces the current function in place by its extended copy. */
  lemma EmitInPlace(ir: Ir, instr: IrInstr)
    requires HasCurrent(ir)
    ensures Emit(ir, instr).funcs == ir.funcs[IndexOf(ir.funcs, ir.current.value) := CurrentFunc(Emit(ir, instr))]
  {
    var i := IndexOf(ir.funcs, ir.current.value);
    var f := ir.funcs[i];
    var g := f.(instrs := f.instrs + [instr]);
    var r := Emit(ir, instr);
    assert r.funcs == ir.funcs[i := g];
    assert IndexOf(r.funcs, r.current.value) == i;
    assert CurrentFunc(r) == g;
  }

  /** Emitting changes the dump only inside the current function's block. */
  lemma EmitExtendsDump(ir: Ir, instr: IrInstr)
    requires HasCurrent(ir)
    ensures var i := IndexOf(ir.funcs, ir.current.value);
            && Dump(ir) == ConcatMap(ir.funcs[..i], FuncBlock) + FuncBlock(CurrentFunc(ir))
                           + ConcatMap(ir.funcs[i + 1..], FuncBlock)
            && Dump(Emit(ir, instr))
               == ConcatMap(ir.funcs[..i], FuncBlock) + FuncBlock(CurrentFunc(Emit(ir, instr)))
                  + ConcatMap(ir.funcs[i + 1..], FuncBlock)
  {
    var i := IndexOf(ir.funcs, ir.current.value);
    var f := CurrentFunc(ir);
    var r := Emit(ir, instr);
    var g := CurrentFunc(r);
    assert f == ir.funcs[i];
    EmitInPlace(ir, instr);
    ConcatMapReplace(ir.funcs, i, g, FuncBlock);
    assert Dump(ir) == ConcatMap(ir.funcs, FuncBlock);
    assert Dump(r) == ConcatMap(ir.funcs[i := g], FuncBlock);
  }

  /** The inner `forEach` of `Ir.toString`: one indented line per instruction. */
  method AppendInstrLines(prefix: string, instrs: seq<IrInstr>) returns (str: string)
    ensures str == prefix + ConcatMap(instrs, InstrLine)
  {
    str := prefix;
    var j := 0;
    while j < |instrs|
      invariant 0 <= j <= |instrs|
      invariant str == prefix + ConcatMap(instrs[..j], InstrLine)
    {
      ConcatMapStep(instrs, j, InstrLine);
      str := str + InstrLine(instrs[j]);
      j := j + 1;
    }
    assert instrs[..j] == instrs;
  }

  /** `Ir.toString`: the outer `forEach` over the functions in insertion order. */
  method ToString(ir: Ir) returns (str: string)
    ensures str == Dump(ir)
  {
    str := "";
    var k := 0;
    while k < |ir.funcs|
      invariant 0 <= k <= |ir.funcs|
      invariant str == ConcatMap(ir.funcs[..k], FuncBlock)
    {
      var f := ir.funcs[k];
      ghost var before := str;
      str := AppendInstrLines(str + FuncHeader(f), f.instrs);
      str := str + "\n";
      Regroup(before, FuncHeader(f), ConcatMap(f.instrs, InstrLine), "\n");
      ConcatMapStep(ir.funcs, k, FuncBlock);
      k := k + 1;
    }
    assert ir.funcs[..k] == ir.funcs;
  }

  /** The visitor methods of `IrVisitor`, one per instruction name. */
  datatype Handler =
    | VisitImmediate | VisitUnary | VisitBinary | VisitLoadVar
    | VisitStoreVar | VisitPush | VisitPop | VisitReturn

  /** The instruction name each handler is registered for. */
  function HandledKind(h: Handler): Kind {
    match h
    case VisitImmediate => IMM
    case VisitUnary => UNARY
    case VisitBinary => BINARY
    case VisitLoadVar => LOAD_VAR
    case VisitStoreVar => STORE_VAR
    case VisitPush => PUSH
    case VisitPop => POP
    case VisitReturn => RET
  }

  datatype IrError = UnknownInstruction(instr: string)

  function IrErrorMessage(e: IrError): string {
    "unknown IR instruction '" + e.instr + "'"
  }

  /** `visitInstr`: selects the handler by instruction name; an unknown name is an error
      naming the instruction. */
  function Dispatch(i: IrInstr): (r: Result<Handler, IrError>)
    ensures r.Success? ==> KindText(HandledKind(r.value)) == i.name
    ensures r.Failure? ==> r.error == UnknownInstruction(InstrText(i))
    ensures r.Failure? ==> forall h :: KindText(HandledKind(h)) != i.name
  {
    match KindOf(i.name)
    case None => Failure(UnknownInstruction(InstrText(i)))
    case Some(k) =>
      Success(match k
        case IMM => VisitImmediate
        case UNARY => VisitUnary
        case BINARY => VisitBinary
        case LOAD_VAR => VisitLoadVar
        case STORE_VAR => VisitStoreVar
        case PUSH => VisitPush
        case POP => VisitPop
        case RET => VisitReturn)
  }

  /** Each instruction name has its own handler: the dispatch picks `h` exactly when the
      instruction bears the name `h` is registered for. */
  lemma DispatchOwnHandler(i: IrInstr, h: Handler)
    ensures Dispatch(i) == Success(h) <==> i.name == KindText(HandledKind(h))
  {
    if i.name == KindText(HandledKind(h)) {
      assert KindOf(i.name).Some?;
    }
  }

  /** Well-typed instructions never reach the unknown-instruction error. */
  lemma WellTypedDispatches(i: IrInstr)
    requires WellTyped(i)
    ensures Dispatch(i).Success?
  {
  }
}
