# MiniDecaf middle end in Dafny

A model of the middle end of the MiniDecaf compiler (TypeScript), with proofs:

- **Symbol table** (`src/scope.ts`):
  - A `Scope` maps names to variables and hands out stack offsets one 4-byte word at a time.
  - A `ScopeStack` opens and closes scopes. A local scope continues its parent's offsets. Closing a local scope folds its high-water mark into the function's frame size with `max`.
- **Intermediate representation** (`src/ir.ts`):
  - Instructions with one optional operand.
  - Functions held in insertion order, each with an append-only instruction list.
  - The `emit*` operations, `newFunc`, `missReturn`, the textual dump, and the name-based dispatch of `IrVisitor.visitInstr`.
- **Semantic checker** (`src/visitor/semantic.ts`):
  - One pass over a function body in a single function scope. It rejects duplicate declarations, uses of undeclared variables and literals above `0xFFFFFFFF`.
  - It records the variables and literal values it resolved. The source writes these onto parse-tree nodes; here they are returned as a side table in the order they are written.
- **RV32 back end** (`src/target/riscv.ts`): it turns IR instructions into assembly text through the shared dispatcher. Only the `IMM`, `UNARY` and `RET` handlers exist.
- **The three visitors of the bootstrap language `int main() { return <integer>; }`:**
  - the tree-to-assembly generator (`src/visitor/codegen.ts`);
  - the tree-to-IR generator (`src/visitor/irgen.ts`);
  - the tree interpreter (`src/visitor/executor.ts`).

  Module `Agreement` proves that all four routes agree on the returned number:
  - the interpreter's result;
  - the `IMM` operand of the IR;
  - the `li a0` immediate of the tree code generator;
  - the `li t0` immediate that the RV32 back end produces from the IR.

Everything is pure. State changes return a new value: `Scope`, `ScopeStack` (a sequence, innermost last) and `Ir`. Errors that the source raises deliberately become the `Failure` case of a `Result`. Where the source would instead crash on an empty scope stack or a missing current function, the model has a `requires` (listed under "## Left out"). Output strings are built by concatenation, exactly as the source's `+=` loops build them.

Files:

| file | contents |
|---|---|
| `wrappers.dfy` | `Option` and `Result` |
| `decimal.dfy` | decimal digit strings, `parseInt` on them, and number-to-text |
| `text.dfy` | `ConcatMap` (one piece per element, concatenated) and the generic emitter loop `AppendEach` |
| `scope.dfy` | modules `Scopes` and `ScopeStacks` |
| `ir.dfy` | module `IR` |
| `ast.dfy`, `semantic.dfy` | the checker's abstract syntax and module `Semantic` |
| `riscv.dfy` | module `Riscv` |
| `bootstrap.dfy`, `codegen.dfy`, `irgen.dfy`, `executor.dfy` | the bootstrap syntax and its three visitors |
| `agreement.dfy` | the cross-back-end agreement lemmas |

### Where the snapshots of the source disagree

The source files come from different stages of the project and do not fit together in four places. The model follows the evident intent in each:

1. **The checker's scope.** `src/visitor/semantic.ts:15` constructs its scope with no arguments, but the constructor at `src/scope.ts:26` needs a name and a kind. The model uses a function scope named `main` (`Semantic.MainScope`).
2. **The back end's input.** `src/target/riscv.ts:49` iterates `this.ir.instrs`, but `Ir` only exposes `funcs`. `Riscv.VisitAll` takes the instruction sequence as its input.
3. **The current function in IR generation.** `src/visitor/irgen.ts` never calls `newFunc`, so its `emit` would have no current function. `IrGen.Compile` first installs `main` with frame size 0; every `emit` requires a current function.
4. **Frame sizes.** `Scope.declareVar` never raises `localVarSize`, so a function's own declarations reach the frame size only through closed local scopes. This is reproduced, not repaired: the checker records a frame size of 0 for every accepted function (`Semantic.CheckFunc`, `Semantic.FunctionScopeFrameIsEmpty`).

### Modelling choices

- **Instruction names.** The source declares an instruction's name with the string enum `IrInstrName` (`src/ir.ts:4-21`, `src/ir.ts:26`), but the enum's values are plain strings at run time. The model keeps a string, so the dispatcher's default "unknown instruction" branch stays representable.
- **Operands.** An operand is `NoOperand` (`undefined`), `Number(n)` or `Text(s)`. The unary switch compares with `===`, so only the one-character strings `-`, `~` and `!` match.
- **Map order.** `Map.set` on an existing key keeps the key's position, so `NewFunc` replaces a same-named function in place.
- **Literals and printing.** Integer literals are decimal digit strings, and `parseInt` is `ParseDecimal`; leading zeros are ignored, as `parseInt` ignores them. A number printed into text is its canonical decimal form (`NatToString`).

## Model

| member | source | states |
|---|---|---|
| Scopes.DeclareVar | src/scope.ts:33-43 | the new variable takes the old `nextOffset`, which then grows by exactly 4; `find` returns the new variable for its name and the old answer for every other name; a repeated name is overwritten, not rejected; `localVarSize` is untouched; a well-formed scope stays well formed (distinct slots below `nextOffset`) |
| ScopeStacks.Open | src/scope.ts:90-95 | the stack grows by one and keeps its scopes; the pushed scope keeps its name, kind, symbols and frame size; a local scope starts at the enclosing scope's `nextOffset`, other kinds keep their own |
| ScopeStacks.Close | src/scope.ts:97-104 | pops one scope and touches nothing but the function scope's `localVarSize`, which never decreases, becomes `max(old, closed.nextOffset)` for a local scope and is unchanged otherwise |
| ScopeStacks.CanDeclare | src/scope.ts:106-109 | true exactly when the innermost scope has no binding for the name; outer bindings do not matter |
| ScopeStacks.DeclareVar | src/scope.ts:111-114 | only the innermost scope changes, exactly as a single-scope declaration changes it |
| ScopeStacks.Find | src/scope.ts:116-123 | nothing is found exactly when no scope binds the name; a found variable is the binding of the innermost scope that binds the name |
| ScopeStacks.DeclareAllOffsets | src/scope.ts:33-37 | distinct names declared in order into one scope are found at consecutive words: the k-th at the starting offset plus 4k |
| ScopeStacks.BlockEffect | src/scope.ts:90-104 | a block that opens a local scope, declares n names and closes leaves every scope as it was, except the function frame, which becomes `max(old, start + 4n)` |
| ScopeStacks.SiblingBlocksTakeMax | src/scope.ts:90-104 | two sibling blocks start at the same offset, so the frame size is the larger of their extents, not their sum; offsets and symbols of the function scope are unchanged |
| ScopeStacks.OpenThenClose | src/scope.ts:90-104 | opening and then closing a scope restores the stack, apart from the function frame size, which a local scope raises to at least its start offset |
| ScopeStacks.Shadowing | src/scope.ts:106-123 | a name bound only in an outer scope may be declared again inside, and lookup then resolves to the inner variable |
| ScopeStacks.OpenPreservesLayout | src/scope.ts:90-95 | opening a local scope keeps the frame layout invariant: inner scopes are local, start at or beyond their parent's offset, and place their variables there |
| ScopeStacks.DeclarePreservesLayout | src/scope.ts:111-114 | declaring into the innermost scope keeps the frame layout invariant |
| ScopeStacks.ClosePreservesLayout | src/scope.ts:97-104 | closing an inner scope keeps the frame layout invariant |
| ScopeStacks.LiveSlotsDisjoint | src/scope.ts:90-104 | under the layout invariant, variables of two different live scopes of a function never share a stack slot |
| IR.KindOf | src/ir.ts:4-21 | recognises exactly the eight instruction names: a recognised kind prints as the text, and an unrecognised text is no kind's name |
| IR.InstrTextRoundTrip | src/ir.ts:35-37 | the printed form of a well-typed instruction (name alone, or name, space, operand) reads back as the same instruction, so the format is unambiguous |
| IR.ParseInstrSound | src/ir.ts:35-37 | every line the reader accepts is the printed form of a well-typed instruction |
| IR.IndexOf | src/ir.ts:57-66 | the position of the first function with the name, or -1 exactly when no function has it |
| IR.NewFunc | src/ir.ts:92-96 | the new function is empty, has the given frame size and is current; it replaces a same-named function in place, or else is appended; other functions are unchanged; IR validity is preserved |
| IR.Emit | src/ir.ts:69-71 | appends the instruction to the end of the current function only; the current function's name, frame size and position, and every other function, are unchanged |
| IR.EmitKeepsValid | src/ir.ts:69-71 | emitting a well-typed instruction keeps the IR valid: unique function names, a current function among them, and well-typed instructions |
| IR.MissReturn | src/ir.ts:99-104 | false without a current function; otherwise true exactly when the current function is empty or its last instruction is not `RET` |
| IR.EmitImmediate | src/ir.ts:107-109 | appends exactly `IMM value` to the current function, which then misses a return |
| IR.EmitUnary | src/ir.ts:112-114 | appends exactly `UNARY op`, after which a return is missing |
| IR.EmitBinary | src/ir.ts:117-119 | appends exactly `BINARY op`, after which a return is missing |
| IR.EmitLoadVar | src/ir.ts:122-124 | appends exactly `LOAD_VAR offset`, after which a return is missing |
| IR.EmitStoreVar | src/ir.ts:127-129 | appends exactly `STORE_VAR offset`, after which a return is missing |
| IR.EmitPush | src/ir.ts:132-134 | appends exactly `PUSH reg`, after which a return is missing |
| IR.EmitPop | src/ir.ts:137-139 | appends exactly `POP reg`, after which a return is missing |
| IR.EmitReturn | src/ir.ts:142-144 | appends exactly `RET`, and `missReturn` is false right after it |
| IR.FuncBlockAppend | src/ir.ts:74-84 | appending an instruction to a function adds exactly its indented line before the block's closing blank line |
| IR.EmitExtendsDump | src/ir.ts:74-84 | an emit changes the dump only in the current function's block, which becomes the extended function's block; the text of the blocks before and after it is shared |
| IR.AppendInstrLines | src/ir.ts:78-80 | the inner loop appends one indented line per instruction, in order |
| IR.ToString | src/ir.ts:74-84 | the dump is one block per function in insertion order: header `FUNC name(size):`, the instruction lines, a blank line |
| IR.Dispatch | src/ir.ts:175-195 | a selected handler is the one registered for the instruction's name; an unknown name fails with the instruction's printed text, and then no handler is registered for that name |
| IR.DispatchOwnHandler | src/ir.ts:175-195 | each handler is chosen exactly for its own instruction name |
| IR.WellTypedDispatches | src/ir.ts:175-195 | no well-typed instruction reaches the unknown-instruction error |
| Semantic.CheckExpr | src/visitor/semantic.ts:35-62 | succeeds exactly when every name the expression uses is declared and every literal is at most `0xFFFFFFFF`; a failure is exactly `FirstError(Mentions(e), s)`, the error of the first undeclared name or too-large literal in visit order (an assignment's target before its right-hand side); on success the side table is exactly `Resolve(Mentions(e), s)`: each mentioned name's variable in the scope and each literal's value, in visit order |
| Semantic.CheckItem | src/visitor/semantic.ts:24-33 | a redeclared name fails as already declared before its initializer is looked at; otherwise a failure is exactly the first error of the initializer or statement (`ItemError`), and success is exactly an acceptable initializer; a declaration adds its name bound to an `int` at the old `nextOffset`, keeps every binding, advances `nextOffset` by 4, never changes `localVarSize`, keeps the scope well formed and records the new variable last |
| Semantic.CheckItems | src/visitor/semantic.ts:19-20 | after all items, the scope has exactly the declared names added, `nextOffset` has grown by 4 per declaration, and `localVarSize` is unchanged |
| Semantic.CheckItemsAccepts | src/visitor/semantic.ts:19-20 | checking the items in order succeeds exactly when each item is acceptable given the names declared before it (both directions) |
| Semantic.CheckItemsSound | src/visitor/semantic.ts:19-20 | an accepted body keeps every earlier binding, keeps the scope well formed, and records only variables bound in the final scope |
| Semantic.MentionsUsed | src/visitor/semantic.ts:35-62 | the names an expression uses are exactly the names it mentions, and its literals exactly the values it mentions, so acceptance and the side table are about the same names and values |
| Semantic.ResolveKeeps | src/visitor/semantic.ts:19-20 | a later scope that keeps every binding resolves earlier mentions to the same entries, so the side table can be read against the final scope |
| Semantic.CheckItemRecords | src/visitor/semantic.ts:24-33 | an accepted item's side table is its initializer's entries and then the declared variable, or its statement's entries: exactly its mentions resolved in the scope after it |
| Semantic.CheckItemsRecords | src/visitor/semantic.ts:19-20 | an accepted body's side table is the concatenation, in source order, of each item's mentions resolved in the final scope |
| Semantic.CheckItemsOffsets | src/visitor/semantic.ts:24-33 | in any accepted body, with initializers and statements in between, the k-th item, when a declaration, is bound in the final scope to an `int` at the starting `nextOffset` plus 4 for each declaration before it |
| Semantic.CheckFuncRecords | src/visitor/semantic.ts:19-33 | for an accepted function, the recorded side table is the body's mentions resolved in the final function scope, and declarations sit at 0, 4, 8, … in declaration order |
| Semantic.CheckItemsFirstFailure | src/visitor/semantic.ts:19-20 | a rejected body reports the error of its first failing item: the items before it pass, and it fails with that error (its `ItemError`) in the scope they leave |
| Semantic.CheckFuncFirstFailure | src/visitor/semantic.ts:19-20 | a rejected function reports the error of its first failing item, checked from the empty function scope |
| Semantic.CheckProgramFirstFailure | src/visitor/semantic.ts:12-20 | a rejected program reports the error of the first failing item of its function |
| Semantic.NestedReportsFirstInOrder | src/visitor/semantic.ts:35-52 | with `t` declared and `u` not, `t = (u = 99999999999)` reports the undeclared `u`, which is visited before the too-large literal |
| Semantic.UndeclaredNamed | src/visitor/semantic.ts:54-61 | `int main() { return a; }` is rejected with `NotDeclared("a")`, whose message names the identifier |
| Semantic.CheckFunc | src/visitor/semantic.ts:19-22 | a function is accepted exactly when its items are, starting from no names; the recorded frame size is 0 |
| Semantic.CheckProgram | src/visitor/semantic.ts:12-22 | a program is accepted exactly when its function's items are |
| Semantic.FreshDeclsOffsets | src/visitor/semantic.ts:24-33 | distinct fresh declarations without initializers are accepted and recorded in source order at consecutive words from the scope's next offset |
| Semantic.FreshDeclOffset | src/visitor/semantic.ts:29 | for a body of distinct fresh declarations without initializers (`int a; int b; …`), the i-th is recorded at `nextOffset + 4i`: 0, 4, 8, … in a fresh function scope; `Semantic.CheckItemsOffsets` covers every other accepted body |
| Semantic.LiteralBound | src/visitor/semantic.ts:46-52 | the bound is inclusive: `4294967295` is accepted and recorded, `4294967296` is too large |
| Semantic.SelfReferenceUndeclared | src/visitor/semantic.ts:24-29 | the initializer is checked before the name is declared, so `int a = a;` fails as undeclared, not as a duplicate |
| Semantic.AssignTargetFirst | src/visitor/semantic.ts:35-44 | an assignment resolves its target before its right-hand side: an undeclared target is the error reported |
| Semantic.FunctionScopeFrameIsEmpty | src/visitor/semantic.ts:19-22 | `int main() { int a; return a; }` records `a` at offset 0 twice and a frame size of 0 |
| Riscv.VisitInstr | src/target/riscv.ts:21-44 | an instruction translates exactly when it is `IMM`, `RET` or a `UNARY` with one of the three operators; otherwise the error says which case applies: an unknown unary operator, one of the five handlers the back end lacks, or an unknown instruction name |
| Riscv.ImmediateText | src/target/riscv.ts:21-23 | `IMM v` becomes exactly `    li t0, v` and a newline |
| Riscv.UnaryTexts | src/target/riscv.ts:25-39 | `-`, `~` and `!` become `neg`, `not` and `seqz` on `t0` |
| Riscv.ReturnText | src/target/riscv.ts:41-44 | `RET` becomes `    mv a0, t0` then `    ret`, each on its own line |
| Riscv.VisitAll | src/target/riscv.ts:46-53 | the pass succeeds exactly when every instruction is supported; the output is `.globl main`, `main:` and each instruction's text in order; a failure is the error of the first unsupported instruction |
| Texts.AppendEach | src/target/riscv.ts:49-51 | an emitter loop appends each element's text in order after the head and stops with the first failing element's error, all earlier elements having succeeded |
| Riscv.OutputExtends | src/target/riscv.ts:6-19 | emission only appends: the prologue and the text of any prefix of the instructions are a prefix of the prologue and the text of all of them, followed unaltered by the text of the rest |
| Riscv.WellTypedNeverUnknown | src/target/riscv.ts:46-53 | a well-typed instruction either translates or fails with its own kind's error, never as an unknown instruction |
| IrGen.GenExpr | src/visitor/irgen.ts:25-28 | an expression appends exactly one instruction, `IMM` of its literal's value |
| IrGen.GenStmt | src/visitor/irgen.ts:20-23 | a statement appends its expression's instruction and then exactly one `RET`, so no return is missing |
| IrGen.GenFunc | src/visitor/irgen.ts:16-18 | a function emits nothing of its own: exactly its statement's `IMM`, `RET` |
| IrGen.GenProgram | src/visitor/irgen.ts:12-14 | a program emits nothing of its own: exactly its function's `IMM`, `RET` |
| IrGen.GenStmtFrame | src/visitor/irgen.ts:20-23 | generation touches only the current function's instruction list and keeps the IR valid |
| IrGen.Compile | src/visitor/irgen.ts:12-28 | `return n;` compiles to a valid IR with the single function `main(0)`, current, holding exactly `[IMM n, RET]` |
| IrGen.CompileDump | src/visitor/irgen.ts:12-28 | the dump of the compiled program is `FUNC main(0):`, `    IMM n`, `    RET`, then a blank line |
| Executor.Run | src/visitor/executor.ts:11-26 | a program evaluates to its literal's decimal value; program, function and statement pass the value through |
| Executor.LeadingZerosDoNotMatter | src/visitor/executor.ts:23-26 | `return 07;` and `return 7;` evaluate to the same number, as `parseInt` ignores leading zeros |
| Decimal.NatToString | src/visitor/codegen.ts:28-31 | interpolating a number prints canonical decimal digits that parse back to the number |
| Decimal.CanonicalRoundTrip | src/visitor/codegen.ts:28-31 | a canonical digit string is the printed form of its own value, so printing is the inverse of parsing |
| Decimal.LeadingZeroIgnored | src/visitor/executor.ts:23-26 | a leading zero does not change a digit string's value |
| Agreement.LoadLineReadBack | src/visitor/codegen.ts:28-31 | the immediate of a printed `li` line reads back as the number printed |
| Agreement.TreeCodeLoadsResult | src/visitor/codegen.ts:12-31 | the tree code generator writes `.globl main`, `main:`, exactly `    li a0, <n>` with `<n>` the canonical decimal digits of the interpreter's result (so `return 007;` gives `li a0, 7`), then `ret`; that immediate reads back as the result |
| Agreement.LeadingZerosNotPrinted | src/visitor/codegen.ts:28-31 | `return 007;` is printed as `    li a0, 7`: the immediate is the parsed value, not the literal's text |
| Agreement.IrCarriesResult | src/visitor/irgen.ts:25-28 | the generated IR's `IMM` operand is the interpreter's result |
| Agreement.RiscvLoadsResult | src/target/riscv.ts:21-53 | the back end translates the generated IR completely into one `li t0` line whose immediate is the interpreter's result, then `mv a0, t0` and `ret` |
| Agreement.BackendsAgree | src/visitor/executor.ts:23-26 | the interpreter's result, the IR's `IMM` operand, the tree generator's `li a0` immediate and the back end's `li t0` immediate are the same number |

## Left out

- Parsing and the visitor framework: the generated parser and its double-dispatch visitors are library code. Small abstract-syntax datatypes and structural recursion take their place.
- Error classes and source positions: failures carry the error's kind and name, not the token position. `Semantic.Message` gives the message texts.
- JavaScript number precision: values are unbounded naturals. `parseInt` rounding above 2^53 is not modelled, and neither is the exponent form `${n}` takes from 10^21 up.
- Hexadecimal literals: none are modelled. The grammar of the literals is not part of this model.
- Expression and statement forms with two or more children: binary operators, nested blocks and `if`/`else` are not in the abstract syntax. The order in which the checker visits and records their children is not modelled.
- Nested block scopes in the checker: the source checks the whole function in one scope, so `{ int a; } { int a; }` fails as already declared. Blocks are not in the abstract syntax, so this is not modelled.
- Empty-stack crashes in `ScopeStack`: `ScopeStacks.Open` of a local scope on an empty stack (`src/scope.ts:92`), `ScopeStacks.Close` on an empty stack or of a local scope with no function scope below it (`src/scope.ts:99-102`), and `ScopeStacks.CanDeclare`, `ScopeStacks.DeclareVar` and `ScopeStacks.Current` on an empty stack (`src/scope.ts:76`, `108`, `113`) are `requires`, not error results. `current()` itself only returns `undefined`; the source crashes where its callers use that value (`src/scope.ts:92`, `108`, `113`), and where `close` calls `isLocal` on what `pop` returned.
- Missing current function in the IR: the `IR.Emit*` operations and `IR.CurrentFunc` require a current function. `currentFunc` has no initializer, so before the first `newFunc` the source would dereference `undefined` at `src/ir.ts:70`.
- The `BINARY`, `LOAD_VAR`, `STORE_VAR`, `PUSH` and `POP` assembly: the back end defines none of these handlers. `Riscv.VisitInstr` reports them as `MissingHandler` instead of inventing their text.
- Control flow: labels, jumps, frame set-up and an IR-level interpreter do not exist in the modelled code.
- The browser editor and the bundler configuration: they are user-interface and build glue.
- Mutation and aliasing: `open` mutates the scope object it is given, and `newFunc` hands out an object that later emits mutate. Both become returned values. The current function is held by name, which is equivalent because `newFunc` always makes the function it just installed current.
- TreeCodegen.GenExpr, TreeCodegen.GenStmt, TreeCodegen.GenFunc and TreeCodegen.GenProgram carry no `ensures` of their own. Their exact texts are stated in `Agreement.TreeCodeLoadsResult`: the whole program text, with the `li a0` line equal to the canonical digits of the interpreter's result.
- ScopeStacks.DeclareVar: its contract does not restate lookup on the whole stack. `ScopeStacks.Shadowing` covers that for a name bound only outside.
- Executor.DefaultResult and TreeCodegen.DefaultResult are modelled (0 and the empty text), but no visit reaches them, so no lemma is stated about them.
