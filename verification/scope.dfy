/** One lexical scope of the symbol table: a name-to-variable map and the frame offset the
    next declaration receives (`Scope` in src/scope.ts). */
module Scopes {
  import opened Wrappers

  /** Every variable occupies one 4-byte word of the frame. */
  const WordSize: nat := 4

  /** The language has a single value type, `int`. */
  datatype Type = Int

  /** A declared variable: its name, type and byte offset from the frame base. */
  datatype Variable = Variable(name: string, ty: Type, offset: nat)

  datatype ScopeKind = Global | Func | Local

  datatype Scope = Scope(
    name: string,
    kind: ScopeKind,
    symbols: map<string, Variable>,
    nextOffset: nat,
    localVarSize: nat)
  {
    predicate IsGlobal() {
      kind.Global?
    }

    predicate IsFunc() {
      kind.Func?
    }

    predicate IsLocal() {
      kind.Local?
    }
  }

  /** A fresh scope: no symbols, both offsets at 0. */
  function NewScope(name: string, kind: ScopeKind): Scope {
    Scope(name, kind, map[], 0, 0)
  }

  function NewGlobal(): Scope {
    NewScope("GLOBAL", Global)
  }

  function NewFunc(name: string): Scope {
    NewScope(name, Func)
  }

  function NewLocal(): Scope {
    NewScope("LOCAL", Local)
  }

  /** Each variable is filed under its own name, lies wholly below `nextOffset`, and no two
      variables of the scope share a slot. */
  ghost predicate WellFormed(s: Scope) {
    && (forall n :: n in s.symbols ==> s.symbols[n].name == n)
    && (forall n :: n in s.symbols ==> s.symbols[n].offset + WordSize <= s.nextOffset)
    && (forall a, b :: a in s.symbols && b in s.symbols && a != b ==>
          s.symbols[a].offset != s.symbols[b].offset)
  }

  /** Lookup in this scope only. */
  function Find(s: Scope, name: string): Option<Variable> {
    if name in s.symbols then Some(s.symbols[name]) else None
  }

  /** No name occurs twice. */
  predicate Distinct(names: seq<string>) {
    forall i, j :: 0 <= i < j < |names| ==> names[i] != names[j]
  }

  lemma DistinctTail(names: seq<string>)
    requires Distinct(names) && |names| > 0
    ensures Distinct(names[1..]) && names[0] !in names[1..]
  {
    var rest := names[1..];
    forall i, j | 0 <= i < j < |rest|
      ensures rest[i] != rest[j]
    {
      assert rest[i] == names[i + 1] && rest[j] == names[j + 1];
    }
    forall j | 0 <= j < |rest|
      ensures rest[j] != names[0]
    {
      assert rest[j] == names[j + 1];
    }
  }

  datatype Declared = Declared(scope: Scope, variable: Variable)

  /** Declares `name` at the current `nextOffset`, then moves `nextOffset` one word on.
      An existing binding of `name` is overwritten; `localVarSize` is left alone. */
  function DeclareVar(s: Scope, name: string, ty: Type): (r: Declared)
    ensures r.variable == Variable(name, ty, s.nextOffset)
    ensures r.scope.nextOffset == s.nextOffset + WordSize
    ensures Find(r.scope, name) == Some(r.variable)
    ensures forall n :: n != name ==> Find(r.scope, n) == Find(s, n)
    ensures r.scope.symbols.Keys == s.symbols.Keys + {name}
    ensures r.scope.name == s.name && r.scope.kind == s.kind
    ensures r.scope.localVarSize == s.localVarSize
    ensures WellFormed(s) ==> WellFormed(r.scope)
  {
    var v := Variable(name, ty, s.nextOffset);
    Declared(s.(symbols := s.symbols[name := v], nextOffset := s.nextOffset + WordSize), v)
  }
}

/** The stack of open scopes (`ScopeStack` in src/scope.ts). Index 0 is the global scope,
    index 1 the enclosing function's scope, the last element the innermost scope. */
module ScopeStacks {
  import opened Wrappers
  import Scopes

  type ScopeStack = seq<Scopes.Scope>

  function Max(a: nat, b: nat): nat {
    if a < b then b else a
  }

  function Current(st: ScopeStack): Scopes.Scope
    requires |st| > 0
  {
    st[|st| - 1]
  }

  function CurrentGlobal(st: ScopeStack): Scopes.Scope
    requires |st| > 0
  {
    st[0]
  }

  function CurrentFunc(st: ScopeStack): Scopes.Scope
    requires |st| > 1
  {
    st[1]
  }

  /** Pushes `s`. A local scope first takes over the offset of the scope it is opened in,
      so its variables continue the enclosing frame layout. */
  function Open(st: ScopeStack, s: Scopes.Scope): (r: ScopeStack)
    requires s.IsLocal() ==> |st| > 0
    ensures |r| == |st| + 1 && r[..|st|] == st
    ensures Current(r).name == s.name && Current(r).kind == s.kind
    ensures Current(r).symbols == s.symbols && Current(r).localVarSize == s.localVarSize
    ensures Current(r).nextOffset == if s.IsLocal() then Current(st).nextOffset else s.nextOffset
  {
    if s.IsLocal() then st + [s.(nextOffset := Current(st).nextOffset)] else st + [s]
  }

  /** Pops the innermost scope. Closing a local scope folds its high-water mark into the
      function scope's `localVarSize` with `max`; nothing else is touched. */
  function Close(st: ScopeStack): (r: ScopeStack)
    requires |st| > 0
    requires Current(st).IsLocal() ==> |st| > 2
    ensures |r| == |st| - 1
    ensures forall i :: 0 <= i < |r| && i != 1 ==> r[i] == st[i]
    ensures |r| > 1 ==> r[1] == st[1].(localVarSize := r[1].localVarSize)
    ensures |r| > 1 ==> r[1].localVarSize >= st[1].localVarSize
    ensures |r| > 1 && Current(st).IsLocal() ==>
              r[1].localVarSize == Max(st[1].localVarSize, Current(st).nextOffset)
    ensures |r| > 1 && !Current(st).IsLocal() ==> r[1] == st[1]
  {
    var top := Current(st);
    var rest := st[..|st| - 1];
    if top.IsLocal() then
      rest[1 := rest[1].(localVarSize := Max(rest[1].localVarSize, top.nextOffset))]
    else
      rest
  }

  /** A name may be declared unless the innermost scope already binds it. */
  function CanDeclare(st: ScopeStack, name: string): (r: bool)
    requires |st| > 0
    ensures r <==> name !in Current(st).symbols
  {
    Scopes.Find(Current(st), name).None?
  }

  datatype StackDeclared = StackDeclared(stack: ScopeStack, variable: Scopes.Variable)

  /** Declares into the innermost scope; every other scope is unchanged. */
  function DeclareVar(st: ScopeStack, name: string, ty: Scopes.Type): (r: StackDeclared)
    requires |st| > 0
    ensures |r.stack| == |st| && r.stack[..|st| - 1] == st[..|st| - 1]
    ensures r.variable == Scopes.Variable(name, ty, Current(st).nextOffset)
    ensures Current(r.stack) == Scopes.DeclareVar(Current(st), name, ty).scope
  {
    var d := Scopes.DeclareVar(Current(st), name, ty);
    StackDeclared(st[..|st| - 1] + [d.scope], d.variable)
  }

  /** `name` is bound in scope `i` and in no scope inside it. */
  ghost predicate InnermostBinding(st: ScopeStack, name: string, i: int) {
    && 0 <= i < |st|
    && name in st[i].symbols
    && forall j :: i < j < |st| ==> name !in st[j].symbols
  }

  /** Lookup from the innermost scope outwards: the first scope binding `name` wins. */
  function Find(st: ScopeStack, name: string): (r: Option<Scopes.Variable>)
    ensures r.None? <==> forall i :: 0 <= i < |st| ==> name !in st[i].symbols
    ensures r.Some? ==> exists i :: InnermostBinding(st, name, i) && r.value == st[i].symbols[name]
  {
    if |st| == 0 then None
    else if name in Current(st).symbols then
      assert InnermostBinding(st, name, |st| - 1);
      Some(Current(st).symbols[name])
    else
      var r := Find(st[..|st| - 1], name);
      FindOuter(st, name, r);
      r
  }

  /** A lookup that misses the innermost scope answers as the lookup in the scopes
      around it. */
  lemma FindOuter(st: ScopeStack, name: string, r: Option<Scopes.Variable>)
    requires |st| > 0 && name !in Current(st).symbols
    requires var outer := st[..|st| - 1];
             && (r.None? <==> forall i :: 0 <= i < |outer| ==> name !in outer[i].symbols)
             && (r.Some? ==> exists i :: InnermostBinding(outer, name, i) && r.value == outer[i].symbols[name])
    ensures r.None? <==> forall i :: 0 <= i < |st| ==> name !in st[i].symbols
    ensures r.Some? ==> exists i :: InnermostBinding(st, name, i) && r.value == st[i].symbols[name]
  {
    var outer := st[..|st| - 1];
    assert forall i :: 0 <= i < |outer| ==> outer[i] == st[i];
    if r.Some? {
      var i :| InnermostBinding(outer, name, i) && r.value == outer[i].symbols[name];
      assert InnermostBinding(st, name, i);
    }
  }

  /** Declares `names` in order into the innermost scope (a block's declarations). */
  function DeclareAll(st: ScopeStack, names: seq<string>): (r: ScopeStack)
    requires |st| > 0
    ensures |r| == |st| && r[..|st| - 1] == st[..|st| - 1]
    ensures Current(r).name == Current(st).name && Current(r).kind == Current(st).kind
    ensures Current(r).localVarSize == Current(st).localVarSize
    ensures Current(r).nextOffset == Current(st).nextOffset + Scopes.WordSize * |names|
    decreases |names|
  {
    if |names| == 0 then st else DeclareAll(DeclareVar(st, names[0], Scopes.Int).stack, names[1..])
  }

  /** Declaring other names leaves a binding of the innermost scope as it was. */
  lemma {:induction false} DeclareAllKeeps(st: ScopeStack, names: seq<string>, n: string)
    requires |st| > 0 && n !in names
    ensures Scopes.Find(Current(DeclareAll(st, names)), n) == Scopes.Find(Current(st), n)
    decreases |names|
  {
    if |names| > 0 {
      DeclareAllKeeps(DeclareVar(st, names[0], Scopes.Int).stack, names[1..], n);
    }
  }

  /** The first of several distinct names keeps the offset it was declared at. */
  lemma FirstDeclarationKept(st: ScopeStack, names: seq<string>)
    requires |st| > 0 && Scopes.Distinct(names) && |names| > 0
    ensures Scopes.Find(Current(DeclareAll(st, names)), names[0])
         == Some(Scopes.Variable(names[0], Scopes.Int, Current(st).nextOffset))
  {
    var next := DeclareVar(st, names[0], Scopes.Int).stack;
    var rest := names[1..];
    assert names[0] !in rest by {
      forall j | 0 <= j < |rest|
        ensures rest[j] != names[0]
      {
        assert rest[j] == names[j + 1];
      }
    }
    DeclareAllKeeps(next, rest, names[0]);
  }

  /** Distinct names declared in order land on consecutive words: the k-th at the
      starting offset plus 4k. */
  lemma {:induction false} DeclareAllOffsets(st: ScopeStack, names: seq<string>, k: int)
    requires |st| > 0 && Scopes.Distinct(names) && 0 <= k < |names|
    ensures Scopes.Find(Current(DeclareAll(st, names)), names[k])
         == Some(Scopes.Variable(names[k], Scopes.Int, Current(st).nextOffset + Scopes.WordSize * k))
    decreases |names|
  {
    if k == 0 {
      FirstDeclarationKept(st, names);
    } else {
      var next := DeclareVar(st, names[0], Scopes.Int).stack;
      var rest := names[1..];
      assert DeclareAll(st, names) == DeclareAll(next, rest);
      Scopes.DistinctTail(names);
      DeclareAllOffsets(next, rest, k - 1);
      assert rest[k - 1] == names[k];
      assert Current(next).nextOffset + Scopes.WordSize * (k - 1)
          == Current(st).nextOffset + Scopes.WordSize * k;
    }
  }

  /** A block `{ int x1; ...; int xk; }` inside the scope stack `st`: open a fresh local
      scope, declare, close. */
  function Block(st: ScopeStack, names: seq<string>): ScopeStack
    requires |st| > 1
  {
    Close(DeclareAll(Open(st, Scopes.NewLocal()), names))
  }

  /** A closed block leaves every scope as it was, except that the function frame grows to
      cover the block's extent, measured from the offset the block started at. */
  lemma {:induction false} BlockEffect(st: ScopeStack, names: seq<string>)
    requires |st| > 1
    ensures Block(st, names)
      == st[1 := st[1].(localVarSize := Max(st[1].localVarSize,
                                            Current(st).nextOffset + Scopes.WordSize * |names|))]
  {
    var pushed := Open(st, Scopes.NewLocal());
    var filled := DeclareAll(pushed, names);
    assert Current(filled).IsLocal();
    var r := Close(filled);
    var expected := st[1 := st[1].(localVarSize := Max(st[1].localVarSize,
                                                       Current(st).nextOffset + Scopes.WordSize * |names|))];
    assert |r| == |expected|;
    forall i | 0 <= i < |r|
      ensures r[i] == expected[i]
    {
      assert filled[i] == pushed[i] == st[i];
    }
  }

  /** Two sibling blocks start at the same offset, so the frame is the larger of their
      extents, not their sum. */
  lemma {:induction false} SiblingBlocksTakeMax(st: ScopeStack, xs: seq<string>, ys: seq<string>)
    requires |st| > 1
    ensures var base := Current(st).nextOffset;
            var after := Block(Block(st, xs), ys);
            && |after| == |st|
            && CurrentFunc(after).localVarSize
               == Max(st[1].localVarSize,
                      Max(base + Scopes.WordSize * |xs|, base + Scopes.WordSize * |ys|))
            && CurrentFunc(after).nextOffset == st[1].nextOffset
            && CurrentFunc(after).symbols == st[1].symbols
            && forall i :: 0 <= i < |st| && i != 1 ==> after[i] == st[i]
  {
    BlockEffect(st, xs);
    var mid := Block(st, xs);
    assert Current(mid).nextOffset == Current(st).nextOffset;
    BlockEffect(mid, ys);
  }

  /** Opening a scope and closing it again restores the stack, apart from the function
      scope's `localVarSize`, which a local scope raises to at least its start offset. */
  lemma OpenThenClose(st: ScopeStack, s: Scopes.Scope)
    requires |st| > 1
    ensures Close(Open(st, s))
      == if s.IsLocal()
         then st[1 := st[1].(localVarSize := Max(st[1].localVarSize, Current(st).nextOffset))]
         else st
  {
    var r := Close(Open(st, s));
    assert |r| == |st|;
    if s.IsLocal() {
      var expected := st[1 := st[1].(localVarSize := Max(st[1].localVarSize, Current(st).nextOffset))];
      forall i | 0 <= i < |r|
        ensures r[i] == expected[i]
      {
      }
    } else {
      assert r == st;
    }
  }

  /** Shadowing: a name bound only in an outer scope may be declared again in the
      innermost one, and lookups then resolve to the inner variable. */
  lemma Shadowing(st: ScopeStack, name: string)
    requires |st| > 1
    requires name in st[0].symbols && name !in Current(st).symbols
    ensures CanDeclare(st, name)
    ensures Find(st, name).Some?
    ensures var d := DeclareVar(st, name, Scopes.Int);
            Find(d.stack, name) == Some(Scopes.Variable(name, Scopes.Int, Current(st).nextOffset))
  {
  }

  /** Every scope of the stack is well formed. */
  ghost predicate AllWellFormed(st: ScopeStack) {
    forall i :: 0 <= i < |st| ==> Scopes.WellFormed(st[i])
  }

  /** Every scope inside the function scope is local. */
  ghost predicate InnerLocal(st: ScopeStack) {
    forall i :: 2 <= i < |st| ==> st[i].IsLocal()
  }

  /** Each scope inside the function scope starts at or beyond its parent's offset. */
  ghost predicate OffsetsGrow(st: ScopeStack) {
    forall i :: 2 <= i < |st| ==> st[i - 1].nextOffset <= st[i].nextOffset
  }

  /** The variables of each scope inside the function scope lie at or beyond the offset
      of the scope it was opened in. */
  ghost predicate SlotsAbove(st: ScopeStack) {
    forall i, n :: 2 <= i < |st| && n in st[i].symbols ==> st[i - 1].nextOffset <= st[i].symbols[n].offset
  }

  /** The frame layout while a function body is being checked: index 1 is the function
      scope, every scope inside it is local, each starts at or beyond the offset of the
      scope it was opened in, and each keeps its variables below its own `nextOffset`. */
  ghost predicate FrameLayout(st: ScopeStack) {
    |st| > 1 && AllWellFormed(st) && InnerLocal(st) && OffsetsGrow(st) && SlotsAbove(st)
  }

  lemma OpenPreservesLayout(st: ScopeStack)
    requires FrameLayout(st)
    ensures FrameLayout(Open(st, Scopes.NewLocal()))
  {
    var r := Open(st, Scopes.NewLocal());
    assert forall i :: 0 <= i < |st| ==> r[i] == st[i];
  }

  lemma DeclarePreservesLayout(st: ScopeStack, name: string)
    requires FrameLayout(st)
    ensures FrameLayout(DeclareVar(st, name, Scopes.Int).stack)
  {
    var top := Current(st);
    var d := Scopes.DeclareVar(top, name, Scopes.Int);
    var r := DeclareVar(st, name, Scopes.Int).stack;
    var last := |st| - 1;
    assert forall i :: 0 <= i < last ==> r[i] == st[i] by {
      forall i | 0 <= i < last ensures r[i] == st[i] {
        assert r[..last][i] == st[..last][i];
      }
    }
    assert r[last] == d.scope;
    forall n | n in d.scope.symbols && last >= 2
      ensures st[last - 1].nextOffset <= d.scope.symbols[n].offset
    {
      assert Scopes.Find(d.scope, n) == Some(d.scope.symbols[n]);
      if n != name {
        assert Scopes.Find(top, n) == Some(d.scope.symbols[n]);
      }
    }
    LayoutTop(st, r);
  }

  /** The layout survives replacing the innermost scope by one of the same kind that is
      well formed, starts no lower, and keeps its variables at or beyond the start. */
  lemma LayoutTop(st: ScopeStack, r: ScopeStack)
    requires FrameLayout(st) && |r| == |st|
    requires forall i :: 0 <= i < |st| - 1 ==> r[i] == st[i]
    requires Scopes.WellFormed(Current(r)) && Current(r).kind == Current(st).kind
    requires Current(st).nextOffset <= Current(r).nextOffset
    requires |st| > 2 ==> forall n :: n in Current(r).symbols ==>
               st[|st| - 2].nextOffset <= Current(r).symbols[n].offset
    ensures FrameLayout(r)
  {
    TopWellFormed(st, r);
    TopLocal(st, r);
    TopOffsetGrows(st, r);
    TopSlotsAbove(st, r);
  }

  lemma TopWellFormed(st: ScopeStack, r: ScopeStack)
    requires |st| > 0
    requires |r| == |st| && forall i :: 0 <= i < |st| - 1 ==> r[i] == st[i]
    requires AllWellFormed(st) && Scopes.WellFormed(Current(r))
    ensures AllWellFormed(r)
  {
    forall i | 0 <= i < |r| ensures Scopes.WellFormed(r[i]) {
      if i < |st| - 1 { assert r[i] == st[i]; }
    }
  }

  lemma TopLocal(st: ScopeStack, r: ScopeStack)
    requires |st| > 0
    requires |r| == |st| && forall i :: 0 <= i < |st| - 1 ==> r[i] == st[i]
    requires InnerLocal(st) && Current(r).kind == Current(st).kind
    ensures InnerLocal(r)
  {
    forall i | 2 <= i < |r| ensures r[i].IsLocal() {
      if i < |st| - 1 { assert r[i] == st[i]; }
    }
  }

  lemma TopOffsetGrows(st: ScopeStack, r: ScopeStack)
    requires |st| > 0
    requires |r| == |st| && forall i :: 0 <= i < |st| - 1 ==> r[i] == st[i]
    requires OffsetsGrow(st) && Current(st).nextOffset <= Current(r).nextOffset
    ensures OffsetsGrow(r)
  {
    forall i | 2 <= i < |r| ensures r[i - 1].nextOffset <= r[i].nextOffset {
      assert r[i - 1] == st[i - 1];
      if i < |st| - 1 { assert r[i] == st[i]; }
    }
  }

  lemma TopSlotsAbove(st: ScopeStack, r: ScopeStack)
    requires |st| > 0
    requires |r| == |st| && forall i :: 0 <= i < |st| - 1 ==> r[i] == st[i]
    requires SlotsAbove(st)
    requires |st| > 2 ==> forall n :: n in Current(r).symbols ==>
               st[|st| - 2].nextOffset <= Current(r).symbols[n].offset
    ensures SlotsAbove(r)
  {
    forall i, n | 2 <= i < |r| && n in r[i].symbols ensures r[i - 1].nextOffset <= r[i].symbols[n].offset {
      assert r[i - 1] == st[i - 1];
      if i < |st| - 1 {
        assert r[i] == st[i];
      } else {
        assert r[i] == Current(r) && i - 1 == |st| - 2;
      }
    }
  }

  lemma ClosePreservesLayout(st: ScopeStack)
    requires FrameLayout(st) && |st| > 2
    ensures FrameLayout(Close(st))
  {
    var r := Close(st);
    assert forall i :: 0 <= i < |r| ==> r[i].symbols == st[i].symbols && r[i].nextOffset == st[i].nextOffset;
  }

  lemma {:induction false} NextOffsetGrowsInward(st: ScopeStack, i: int, k: int)
    requires FrameLayout(st) && 1 <= i <= k < |st|
    ensures st[i].nextOffset <= st[k].nextOffset
    decreases k - i
  {
    if i < k {
      NextOffsetGrowsInward(st, i, k - 1);
    }
  }

  /** Variables of different live scopes of one function never share a stack slot:
      an outer variable's word lies wholly below any inner variable's offset. */
  lemma {:induction false} LiveSlotsDisjoint(st: ScopeStack, i: int, j: int, a: string, b: string)
    requires FrameLayout(st) && 1 <= i < j < |st|
    requires a in st[i].symbols && b in st[j].symbols
    ensures st[i].symbols[a].offset + Scopes.WordSize <= st[j].symbols[b].offset
  {
    NextOffsetGrowsInward(st, i, j - 1);
  }
}
