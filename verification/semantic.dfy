/** The semantic checker of src/visitor/semantic.ts: one forward pass that resolves every
    identifier against the function's scope, rejects duplicate declarations and literals
    above the 32-bit unsigned range, and records what it resolved. The records the source
    attaches to parse-tree nodes are returned here as a side table in the order they are
    written. */
module Semantic {
  import opened Wrappers
  import opened Decimal
  import opened Ast
  import Scopes

  /** Largest literal the language accepts: the maximal 32-bit unsigned value. */
  const MaxUint: nat := 0xFFFF_FFFF

  datatype SemanticError =
    | AlreadyDeclared(name: string)
    | NotDeclared(name: string)
    | TooLarge(value: nat)

  function Message(e: SemanticError): string {
    match e
    case AlreadyDeclared(n) => "symbol '" + n + "' is already declared"
    case NotDeclared(n) => "variable '" + n + "' is not declared"
    case TooLarge(v) => "integer '" + NatToString(v) + "' is too large"
  }

  /** One entry of the side table: the variable a declaration or identifier resolved to,
      or the value of an integer literal. */
  datatype Note = VariableNote(variable: Scopes.Variable) | IntegerNote(value: nat)

  /** The single scope the checker resolves against: that of `main`. */
  function MainScope(): Scopes.Scope {
    Scopes.NewFunc("main")
  }

  /** Names an expression reads or assigns. */
  function Used(e: Expr): set<string> {
    match e
    case IntLit(_) => {}
    case Ident(n) => {n}
    case Assign(t, rhs) => {t} + Used(rhs)
    case Unary(_, operand) => Used(operand)
  }

  /** Values of the integer literals of an expression. */
  function Literals(e: Expr): set<nat> {
    match e
    case IntLit(text) => {ParseDecimal(text)}
    case Ident(_) => {}
    case Assign(_, rhs) => Literals(rhs)
    case Unary(_, operand) => Literals(operand)
  }

  /** What the checker resolves in an expression, in the order it visits it: a name it
      looks up, or the value of an integer literal. */
  datatype Mention = Named(name: string) | Valued(value: nat)

  /** The mentions of an expression in visit order: an assignment's target comes before
      everything in its right-hand side. */
  function Mentions(e: Expr): seq<Mention> {
    match e
    case IntLit(text) => [Valued(ParseDecimal(text))]
    case Ident(n) => [Named(n)]
    case Assign(t, rhs) => [Named(t)] + Mentions(rhs)
    case Unary(_, operand) => Mentions(operand)
  }

  /** The names among the mentions. */
  function NamesOf(ms: seq<Mention>): set<string> {
    if |ms| == 0 then {} else (if ms[0].Named? then {ms[0].name} else {}) + NamesOf(ms[1..])
  }

  /** The literal values among the mentions. */
  function ValuesOf(ms: seq<Mention>): set<nat> {
    if |ms| == 0 then {} else (if ms[0].Valued? then {ms[0].value} else {}) + ValuesOf(ms[1..])
  }

  /** Names and values of concatenated mentions. */
  lemma {:induction false} OfAppend(a: seq<Mention>, b: seq<Mention>)
    ensures NamesOf(a + b) == NamesOf(a) + NamesOf(b)
    ensures ValuesOf(a + b) == ValuesOf(a) + ValuesOf(b)
    decreases |a|
  {
    if |a| == 0 {
      assert a + b == b;
    } else {
      assert (a + b)[1..] == a[1..] + b;
      OfAppend(a[1..], b);
    }
  }

  /** The names an expression uses and the literals it contains are exactly the names and
      values it mentions, so acceptance and the side table speak of the same things. */
  lemma {:induction false} MentionsUsed(e: Expr)
    ensures Used(e) == NamesOf(Mentions(e))
    ensures Literals(e) == ValuesOf(Mentions(e))
  {
    match e
    case IntLit(text) =>
      assert [Valued(ParseDecimal(text))][1..] == [];
    case Ident(n) =>
      assert [Named(n)][1..] == [];
    case Assign(t, rhs) =>
      MentionsUsed(rhs);
      assert [Named(t)][1..] == [];
      OfAppend([Named(t)], Mentions(rhs));
    case Unary(_, operand) => MentionsUsed(operand);
  }

  /** The expression is acceptable where exactly `names` are declared. */
  ghost predicate ExprOk(e: Expr, names: set<string>) {
    Used(e) <= names && forall v :: v in Literals(e) ==> v <= MaxUint
  }

  /** Each variable entry is one of the variables bound in `s`. */
  ghost predicate NotesBoundIn(notes: seq<Note>, s: Scopes.Scope) {
    forall k :: 0 <= k < |notes| && notes[k].VariableNote? ==> notes[k].variable in s.symbols.Values
  }

  /** Every named mention is bound in `s`. */
  ghost predicate MentionsBound(ms: seq<Mention>, s: Scopes.Scope) {
    forall k :: 0 <= k < |ms| && ms[k].Named? ==> ms[k].name in s.symbols
  }

  /** The error a single mention raises in `s`, if any. */
  function MentionError(m: Mention, s: Scopes.Scope): Option<SemanticError> {
    match m
    case Named(n) => if n in s.symbols then None else Some(NotDeclared(n))
    case Valued(v) => if v > MaxUint then Some(TooLarge(v)) else None
  }

  /** The error of the first mention, in order, that raises one. */
  function FirstError(ms: seq<Mention>, s: Scopes.Scope): Option<SemanticError>
    decreases |ms|
  {
    if |ms| == 0 then None
    else if MentionError(ms[0], s).Some? then MentionError(ms[0], s)
    else FirstError(ms[1..], s)
  }

  /** The first error of a mention followed by more mentions. */
  lemma FirstErrorCons(m: Mention, ms: seq<Mention>, s: Scopes.Scope)
    ensures FirstError([m] + ms, s)
            == if MentionError(m, s).Some? then MentionError(m, s) else FirstError(ms, s)
  {
    assert ([m] + ms)[1..] == ms;
  }

  /** The first error of a single mention is its own. */
  lemma FirstErrorSingle(m: Mention, s: Scopes.Scope)
    ensures FirstError([m], s) == MentionError(m, s)
  {
    assert [m][1..] == [];
  }

  /** The side-table entry for one mention: the variable the name is bound to, or the
      literal's value. */
  function ResolveOne(m: Mention, s: Scopes.Scope): Note
    requires m.Named? ==> m.name in s.symbols
  {
    match m
    case Named(n) => VariableNote(s.symbols[n])
    case Valued(v) => IntegerNote(v)
  }

  /** The side-table entries for a sequence of mentions, one each, in order. */
  function Resolve(ms: seq<Mention>, s: Scopes.Scope): seq<Note>
    requires MentionsBound(ms, s)
    decreases |ms|
  {
    if |ms| == 0 then [] else [ResolveOne(ms[0], s)] + Resolve(ms[1..], s)
  }

  /** Resolving distributes over concatenating mention sequences. */
  lemma {:induction false} ResolveAppend(a: seq<Mention>, b: seq<Mention>, s: Scopes.Scope)
    requires MentionsBound(a, s) && MentionsBound(b, s)
    ensures MentionsBound(a + b, s) && Resolve(a + b, s) == Resolve(a, s) + Resolve(b, s)
    decreases |a|
  {
    if |a| == 0 {
      assert a + b == b;
    } else {
      assert (a + b)[1..] == a[1..] + b;
      ResolveAppend(a[1..], b, s);
    }
  }

  /** Resolving a single mention. */
  lemma ResolveSingle(m: Mention, s: Scopes.Scope)
    requires m.Named? ==> m.name in s.symbols
    ensures MentionsBound([m], s) && Resolve([m], s) == [ResolveOne(m, s)]
  {
    assert [m][1..] == [];
  }

  /** Checks an expression. It succeeds exactly when every name it uses is declared and
      every literal is in range; a failure names an undeclared name it uses or an
      out-of-range literal it contains; every recorded variable is bound in the scope. */
  function CheckExpr(e: Expr, s: Scopes.Scope): (r: Result<seq<Note>, SemanticError>)
    ensures r.Success? <==> ExprOk(e, s.symbols.Keys)
    ensures r.Failure? && r.error.NotDeclared? ==>
              r.error.name in Used(e) && r.error.name !in s.symbols
    ensures r.Failure? && r.error.TooLarge? ==>
              r.error.value in Literals(e) && r.error.value > MaxUint
    ensures r.Failure? ==> !r.error.AlreadyDeclared?
    ensures r.Success? ==> MentionsBound(Mentions(e), s) && r.value == Resolve(Mentions(e), s)
    ensures r.Success? ==> NotesBoundIn(r.value, s)
    ensures r.Failure? ==> FirstError(Mentions(e), s) == Some(r.error)
    ensures r.Success? ==> FirstError(Mentions(e), s) == None
  {
    match e
    case IntLit(text) =>
      var n := ParseDecimal(text);
      assert n in Literals(e);
      ResolveSingle(Valued(n), s);
      FirstErrorSingle(Valued(n), s);
      if n > MaxUint then Failure(TooLarge(n)) else Success([IntegerNote(n)])
    case Ident(name) =>
      FirstErrorSingle(Named(name), s);
      if name in s.symbols then
        ResolveSingle(Named(name), s);
        Success([VariableNote(s.symbols[name])])
      else Failure(NotDeclared(name))
    case Assign(target, rhs) =>
      if target in s.symbols then
        var rest := CheckExpr(rhs, s);
        assert Used(e) == {target} + Used(rhs) && Literals(e) == Literals(rhs);
        FirstErrorCons(Named(target), Mentions(rhs), s);
        if rest.Failure? then Failure(rest.error)
        else
          ResolveSingle(Named(target), s);
          ResolveAppend([Named(target)], Mentions(rhs), s);
          Success([VariableNote(s.symbols[target])] + rest.value)
      else
        FirstErrorCons(Named(target), Mentions(rhs), s);
        Failure(NotDeclared(target))
    case Unary(_, operand) =>
      assert Used(e) == Used(operand) && Literals(e) == Literals(operand);
      CheckExpr(operand, s)
  }

  /** Bindings of `s` survive into `t`. */
  ghost predicate Keeps(s: Scopes.Scope, t: Scopes.Scope) {
    forall n :: n in s.symbols ==> n in t.symbols && t.symbols[n] == s.symbols[n]
  }

  /** A variable entry stays valid in a scope that keeps every binding of `s`. */
  lemma NotesBoundInLarger(notes: seq<Note>, s: Scopes.Scope, t: Scopes.Scope)
    requires NotesBoundIn(notes, s) && Keeps(s, t)
    ensures NotesBoundIn(notes, t)
  {
    forall k | 0 <= k < |notes| && notes[k].VariableNote?
      ensures notes[k].variable in t.symbols.Values
    {
      var n :| n in s.symbols && s.symbols[n] == notes[k].variable;
      assert t.symbols[n] == notes[k].variable;
    }
  }

  /** The scope after a checked item, with the side-table entries the item produced. */
  datatype Checked = Checked(scope: Scopes.Scope, notes: seq<Note>)

  /** The name an item declares, if any. */
  function DeclNames(item: BlockItem): set<string> {
    if item.Decl? then {item.name} else {}
  }

  /** Names declared by a sequence of items. */
  function DeclaredIn(items: seq<BlockItem>): set<string> {
    if |items| == 0 then {} else DeclNames(items[0]) + DeclaredIn(items[1..])
  }

  /** Number of declarations among the items. */
  function DeclCount(items: seq<BlockItem>): nat {
    if |items| == 0 then 0 else (if items[0].Decl? then 1 else 0) + DeclCount(items[1..])
  }

  /** The item is acceptable where exactly `names` are declared: a declaration needs a
      fresh name and an initializer acceptable WITHOUT the name being declared. */
  ghost predicate ItemOk(item: BlockItem, names: set<string>) {
    match item
    case Decl(n, init) => n !in names && (init.Some? ==> ExprOk(init.value, names))
    case StmtItem(st) => ExprOk(StmtExpr(st), names)
  }

  /** Every item is acceptable where `names` and the names declared by the items before
      it are declared. */
  ghost predicate ItemsOk(items: seq<BlockItem>, names: set<string>) {
    forall i :: 0 <= i < |items| ==> ItemOk(items[i], names + DeclaredIn(items[..i]))
  }

  /** The error checking an item raises in `s`, if any: a redeclared name before
      anything else, otherwise the first error of the initializer or the statement. */
  function ItemError(item: BlockItem, s: Scopes.Scope): Option<SemanticError> {
    match item
    case Decl(n, init) =>
      if n in s.symbols then Some(AlreadyDeclared(n))
      else if init.Some? then FirstError(Mentions(init.value), s)
      else None
    case StmtItem(st) => FirstError(Mentions(StmtExpr(st)), s)
  }

  /** Checks one block item. A name already declared fails before its initializer is
      looked at; a fresh declaration checks its initializer first and only then declares
      the name at the next free offset, recording the new variable last. */
  function CheckItem(item: BlockItem, s: Scopes.Scope): (r: Result<Checked, SemanticError>)
    ensures r.Success? <==> ItemOk(item, s.symbols.Keys)
    ensures item.Decl? && item.name in s.symbols ==> r == Failure(AlreadyDeclared(item.name))
    ensures r.Failure? ==> ItemError(item, s) == Some(r.error)
    ensures r.Success? ==> ItemError(item, s) == None
    ensures r.Success? ==>
              && r.value.scope.symbols.Keys == s.symbols.Keys + DeclNames(item)
              && Keeps(s, r.value.scope)
              && r.value.scope.nextOffset == s.nextOffset + (if item.Decl? then Scopes.WordSize else 0)
              && r.value.scope.localVarSize == s.localVarSize
              && (Scopes.WellFormed(s) ==> Scopes.WellFormed(r.value.scope))
              && NotesBoundIn(r.value.notes, r.value.scope)
    ensures r.Success? && item.Decl? ==>
              r.value.scope.symbols[item.name] == Scopes.Variable(item.name, Scopes.Int, s.nextOffset)
    ensures r.Success? && item.Decl? ==>
              |r.value.notes| > 0 &&
              r.value.notes[|r.value.notes| - 1]
              == VariableNote(Scopes.Variable(item.name, Scopes.Int, s.nextOffset))
  {
    match item
    case Decl(name, init) =>
      if name in s.symbols then Failure(AlreadyDeclared(name))
      else
        var checked := if init.Some? then CheckExpr(init.value, s) else Success([]);
        if checked.Failure? then Failure(checked.error)
        else
          var d := Scopes.DeclareVar(s, name, Scopes.Int);
          var notes := checked.value + [VariableNote(d.variable)];
          NotesBoundInLarger(checked.value, s, d.scope);
          Success(Checked(d.scope, notes))
    case StmtItem(st) =>
      var checked := CheckExpr(StmtExpr(st), s);
      if checked.Failure? then Failure(checked.error) else Success(Checked(s, checked.value))
  }

  /** Checks the items in order, each in the scope the previous ones left; the first
      failing item ends the check. */
  function CheckItems(items: seq<BlockItem>, s: Scopes.Scope): (r: Result<Checked, SemanticError>)
    ensures r.Success? ==>
              && r.value.scope.symbols.Keys == s.symbols.Keys + DeclaredIn(items)
              && r.value.scope.nextOffset == s.nextOffset + Scopes.WordSize * DeclCount(items)
              && r.value.scope.localVarSize == s.localVarSize
    decreases |items|
  {
    if |items| == 0 then Success(Checked(s, []))
    else
      var first := CheckItem(items[0], s);
      if first.Failure? then Failure(first.error)
      else
        var rest := CheckItems(items[1..], first.value.scope);
        if rest.Failure? then Failure(rest.error)
        else Success(Checked(rest.value.scope, first.value.notes + rest.value.notes))
  }

  /** Splitting off the first item of `ItemsOk`. */
  lemma ItemsOkCons(items: seq<BlockItem>, names: set<string>)
    requires |items| > 0
    ensures ItemsOk(items, names)
        <==> ItemOk(items[0], names) && ItemsOk(items[1..], names + DeclNames(items[0]))
  {
    var rest := items[1..];
    var names' := names + DeclNames(items[0]);
    assert items[..0] == [];
    forall i | 1 <= i < |items|
      ensures names + DeclaredIn(items[..i]) == names' + DeclaredIn(rest[..i - 1])
    {
      assert items[..i][1..] == rest[..i - 1];
    }
    if ItemsOk(items, names) {
      forall i | 0 <= i < |rest|
        ensures ItemOk(rest[i], names' + DeclaredIn(rest[..i]))
      {
        assert rest[i] == items[i + 1];
      }
    }
    if ItemOk(items[0], names) && ItemsOk(rest, names') {
      forall i | 0 <= i < |items|
        ensures ItemOk(items[i], names + DeclaredIn(items[..i]))
      {
        if i > 0 {
          assert items[i] == rest[i - 1];
        }
      }
    }
  }

  /** A function body passes exactly when every item is acceptable given the names
      declared before it: declared names are fresh, uses come after declarations, and
      literals are in range. */
  lemma {:induction false} CheckItemsAccepts(items: seq<BlockItem>, s: Scopes.Scope)
    ensures CheckItems(items, s).Success? <==> ItemsOk(items, s.symbols.Keys)
    decreases |items|
  {
    if |items| > 0 {
      ItemsOkCons(items, s.symbols.Keys);
      var first := CheckItem(items[0], s);
      if first.Success? {
        CheckItemsAccepts(items[1..], first.value.scope);
      }
    }
  }

  /** A passing body only adds bindings, keeps the scope well formed, and every variable
      it records is bound in the final scope. */
  lemma {:induction false} CheckItemsSound(items: seq<BlockItem>, s: Scopes.Scope)
    requires CheckItems(items, s).Success?
    ensures var c := CheckItems(items, s).value;
            && Keeps(s, c.scope)
            && (Scopes.WellFormed(s) ==> Scopes.WellFormed(c.scope))
            && NotesBoundIn(c.notes, c.scope)
    decreases |items|
  {
    if |items| > 0 {
      var first := CheckItem(items[0], s).value;
      CheckItemsSound(items[1..], first.scope);
      var rest := CheckItems(items[1..], first.scope).value;
      NotesBoundInLarger(first.notes, first.scope, rest.scope);
    }
  }

  /** Item `k` is the first to fail, with `err`: the items before it pass, and it fails
      with `err` in the scope they leave, which is the error `ItemError` names. */
  ghost predicate FailsAt(items: seq<BlockItem>, s: Scopes.Scope, k: int, err: SemanticError) {
    && 0 <= k < |items|
    && CheckItems(items[..k], s).Success?
    && CheckItem(items[k], CheckItems(items[..k], s).value.scope) == Failure(err)
    && ItemError(items[k], CheckItems(items[..k], s).value.scope) == Some(err)
  }

  /** Checking a prefix of `j` items after a passing first item is checking the next
      `j - 1` items from the scope the first one leaves. */
  lemma PrefixAfterFirst(items: seq<BlockItem>, s: Scopes.Scope, j: int)
    requires 1 <= j <= |items| && CheckItem(items[0], s).Success?
    ensures var t := CheckItem(items[0], s).value.scope;
            && (CheckItems(items[..j], s).Success? <==> CheckItems(items[1..][..j - 1], t).Success?)
            && (CheckItems(items[..j], s).Success? ==>
                  CheckItems(items[..j], s).value.scope == CheckItems(items[1..][..j - 1], t).value.scope)
  {
    assert items[..j][0] == items[0];
    assert items[..j][1..] == items[1..][..j - 1];
  }

  /** A rejected body reports the error of its first failing item. */
  lemma {:induction false} CheckItemsFirstFailure(items: seq<BlockItem>, s: Scopes.Scope)
    requires CheckItems(items, s).Failure?
    ensures exists k :: FailsAt(items, s, k, CheckItems(items, s).error)
    decreases |items|
  {
    var err := CheckItems(items, s).error;
    var first := CheckItem(items[0], s);
    if first.Failure? {
      assert items[..0] == [];
      assert FailsAt(items, s, 0, err);
    } else {
      var t := first.value.scope;
      CheckItemsFirstFailure(items[1..], t);
      var k :| FailsAt(items[1..], t, k, err);
      PrefixAfterFirst(items, s, k + 1);
      assert items[k + 1] == items[1..][k];
      assert FailsAt(items, s, k + 1, err);
    }
  }

  /** Binding in `s` resolves every mention the same way in a scope that keeps `s`. */
  lemma {:induction false} ResolveKeeps(ms: seq<Mention>, s: Scopes.Scope, t: Scopes.Scope)
    requires MentionsBound(ms, s) && Keeps(s, t)
    ensures MentionsBound(ms, t) && Resolve(ms, t) == Resolve(ms, s)
    decreases |ms|
  {
    if |ms| > 0 {
      ResolveKeeps(ms[1..], s, t);
    }
  }

  /** The mentions of an item in visit order: a declaration's initializer, then the
      declared name itself. */
  function ItemMentions(item: BlockItem): seq<Mention> {
    match item
    case Decl(n, init) => (if init.Some? then Mentions(init.value) else []) + [Named(n)]
    case StmtItem(st) => Mentions(StmtExpr(st))
  }

  /** The mentions of the items, in order. */
  function ItemsMentions(items: seq<BlockItem>): seq<Mention> {
    if |items| == 0 then [] else ItemMentions(items[0]) + ItemsMentions(items[1..])
  }

  /** The side table of one accepted item resolves its mentions in the scope after it. */
  lemma CheckItemRecords(item: BlockItem, s: Scopes.Scope)
    requires CheckItem(item, s).Success?
    ensures var c := CheckItem(item, s).value;
            MentionsBound(ItemMentions(item), c.scope) && c.notes == Resolve(ItemMentions(item), c.scope)
  {
    var c := CheckItem(item, s).value;
    match item
    case Decl(name, init) =>
      var ms := if init.Some? then Mentions(init.value) else [];
      var checked := if init.Some? then CheckExpr(init.value, s) else Success([]);
      assert MentionsBound(ms, s) && checked.value == Resolve(ms, s);
      ResolveKeeps(ms, s, c.scope);
      ResolveSingle(Named(name), c.scope);
      ResolveAppend(ms, [Named(name)], c.scope);
    case StmtItem(st) =>
  }

  /** One step of `CheckItemsRecords`: the first item's entries followed by the rest's. */
  lemma RecordsStep(items: seq<BlockItem>, s: Scopes.Scope, first: Checked, rest: Checked)
    requires |items| > 0
    requires CheckItem(items[0], s) == Success(first)
    requires CheckItems(items[1..], first.scope) == Success(rest)
    requires MentionsBound(ItemMentions(items[0]), first.scope)
    requires first.notes == Resolve(ItemMentions(items[0]), first.scope)
    requires MentionsBound(ItemsMentions(items[1..]), rest.scope)
    requires rest.notes == Resolve(ItemsMentions(items[1..]), rest.scope)
    requires Keeps(first.scope, rest.scope)
    ensures CheckItems(items, s) == Success(Checked(rest.scope, first.notes + rest.notes))
    ensures MentionsBound(ItemsMentions(items), rest.scope)
    ensures first.notes + rest.notes == Resolve(ItemsMentions(items), rest.scope)
  {
    ResolveKeeps(ItemMentions(items[0]), first.scope, rest.scope);
    ResolveAppend(ItemMentions(items[0]), ItemsMentions(items[1..]), rest.scope);
  }

  /** The side table of an accepted body lists, in visit order, the variable each mentioned
      name is bound to in the final scope and the value of each literal. */
  lemma {:induction false} CheckItemsRecords(items: seq<BlockItem>, s: Scopes.Scope)
    requires CheckItems(items, s).Success?
    ensures var c := CheckItems(items, s).value;
            MentionsBound(ItemsMentions(items), c.scope) && c.notes == Resolve(ItemsMentions(items), c.scope)
    decreases |items|
  {
    if |items| > 0 {
      var first := CheckItem(items[0], s).value;
      var rest := CheckItems(items[1..], first.scope).value;
      CheckItemRecords(items[0], s);
      CheckItemsRecords(items[1..], first.scope);
      CheckItemsSound(items[1..], first.scope);
      RecordsStep(items, s, first, rest);
    }
  }

  /** Declaration `k` of `items` is bound in `t` at `base` plus one word per declaration
      before it. */
  ghost predicate DeclaredAt(items: seq<BlockItem>, t: Scopes.Scope, base: nat) {
    forall k :: 0 <= k < |items| && items[k].Decl? ==>
      && items[k].name in t.symbols
      && t.symbols[items[k].name]
         == Scopes.Variable(items[k].name, Scopes.Int, base + Scopes.WordSize * DeclCount(items[..k]))
  }

  /** Counting the declarations before item `k` starting from the first item. */
  lemma DeclCountPrefix(items: seq<BlockItem>, k: int)
    requires 1 <= k <= |items|
    ensures DeclCount(items[..k]) == (if items[0].Decl? then 1 else 0) + DeclCount(items[1..][..k - 1])
  {
    assert items[..k][1..] == items[1..][..k - 1];
  }

  /** One step of `CheckItemsOffsets`. */
  lemma DeclaredAtStep(items: seq<BlockItem>, s: Scopes.Scope, first: Scopes.Scope, t: Scopes.Scope)
    requires |items| > 0
    requires items[0].Decl? ==>
               items[0].name in first.symbols
               && first.symbols[items[0].name] == Scopes.Variable(items[0].name, Scopes.Int, s.nextOffset)
    requires first.nextOffset == s.nextOffset + (if items[0].Decl? then Scopes.WordSize else 0)
    requires Keeps(first, t)
    requires DeclaredAt(items[1..], t, first.nextOffset)
    ensures DeclaredAt(items, t, s.nextOffset)
  {
    forall k | 0 <= k < |items| && items[k].Decl?
      ensures items[k].name in t.symbols
      ensures t.symbols[items[k].name]
              == Scopes.Variable(items[k].name, Scopes.Int, s.nextOffset + Scopes.WordSize * DeclCount(items[..k]))
    {
      if k == 0 {
        assert items[..0] == [];
      } else {
        assert items[k] == items[1..][k - 1];
        DeclCountPrefix(items, k);
      }
    }
  }

  /** In an accepted body, with or without initializers and statements in between, the
      k-th item, when a declaration, is bound in the final scope to an `int` variable at the
      starting scope's next offset plus one word for each declaration before it. */
  lemma {:induction false} CheckItemsOffsets(items: seq<BlockItem>, s: Scopes.Scope)
    requires CheckItems(items, s).Success?
    ensures DeclaredAt(items, CheckItems(items, s).value.scope, s.nextOffset)
    decreases |items|
  {
    if |items| > 0 {
      var first := CheckItem(items[0], s).value;
      var rest := CheckItems(items[1..], first.scope).value;
      CheckItemsOffsets(items[1..], first.scope);
      CheckItemsSound(items[1..], first.scope);
      DeclaredAtStep(items, s, first.scope, rest.scope);
    }
  }

  /** What the checker records for a function: the side table and the frame size. */
  datatype FuncInfo = FuncInfo(notes: seq<Note>, localVarSize: nat)

  /** Checks a function body. The frame size recorded is the scope's `localVarSize`, which
      declarations never raise, so it is 0 for every accepted function. */
  function CheckFunc(f: Func): (r: Result<FuncInfo, SemanticError>)
    ensures r.Success? <==> ItemsOk(f.items, {})
    ensures r.Success? ==> r.value.localVarSize == 0
  {
    CheckItemsAccepts(f.items, MainScope());
    var c := CheckItems(f.items, MainScope());
    if c.Failure? then Failure(c.error)
    else Success(FuncInfo(c.value.notes, c.value.scope.localVarSize))
  }

  /** The program is checked through its single function. */
  function CheckProgram(p: Program): (r: Result<FuncInfo, SemanticError>)
    ensures r.Success? <==> ItemsOk(p.func.items, {})
  {
    CheckFunc(p.func)
  }

  /** For an accepted function, the recorded side table resolves the body's mentions in
      the function scope the body leaves, and every declaration sits one word after the
      previous one starting at offset 0. */
  lemma CheckFuncRecords(f: Func)
    requires CheckFunc(f).Success?
    ensures var t := CheckItems(f.items, MainScope()).value.scope;
            && MentionsBound(ItemsMentions(f.items), t)
            && CheckFunc(f).value.notes == Resolve(ItemsMentions(f.items), t)
            && DeclaredAt(f.items, t, 0)
  {
    CheckItemsRecords(f.items, MainScope());
    CheckItemsOffsets(f.items, MainScope());
  }

  /** A rejected function reports the error of its first failing item, the body being
      checked from an empty function scope. */
  lemma CheckFuncFirstFailure(f: Func)
    requires CheckFunc(f).Failure?
    ensures exists k :: FailsAt(f.items, MainScope(), k, CheckFunc(f).error)
  {
    CheckItemsFirstFailure(f.items, MainScope());
  }

  /** A rejected program reports the error of the first failing item of its function. */
  lemma CheckProgramFirstFailure(p: Program)
    requires CheckProgram(p).Failure?
    ensures exists k :: FailsAt(p.func.items, MainScope(), k, CheckProgram(p).error)
  {
    CheckFuncFirstFailure(p.func);
  }

  /** With `t` declared and `u` not, `t = (u = 99999999999)` reports the undeclared `u`,
      which is visited before the too-large literal. */
  lemma NestedReportsFirstInOrder()
    ensures var s := Scopes.DeclareVar(MainScope(), "t", Scopes.Int).scope;
            CheckExpr(Assign("t", Assign("u", IntLit("99999999999"))), s) == Failure(NotDeclared("u"))
  {
    var s := Scopes.DeclareVar(MainScope(), "t", Scopes.Int).scope;
    assert "t" in s.symbols && "u" !in s.symbols;
  }

  /** `int main() { return a; }` is rejected naming the identifier `a`. */
  lemma UndeclaredNamed()
    ensures CheckProgram(Program(Func("main", [StmtItem(Return(Ident("a")))])))
            == Failure(NotDeclared("a"))
  {
    var items := [StmtItem(Return(Ident("a")))];
    assert items[1..] == [];
  }

  /** Declarations without initializers, `int x1; int x2; ...`. */
  ghost predicate BareDecls(items: seq<BlockItem>) {
    forall k :: 0 <= k < |items| ==> items[k].Decl? && items[k].init.None?
  }

  /** No two of the declarations name the same variable. */
  ghost predicate DistinctDecls(items: seq<BlockItem>) {
    forall i, j :: 0 <= i < j < |items| && items[i].Decl? && items[j].Decl? ==> items[i].name != items[j].name
  }

  /** None of the declarations names a variable of `s`. */
  ghost predicate FreshIn(items: seq<BlockItem>, s: Scopes.Scope) {
    forall k :: 0 <= k < |items| && items[k].Decl? ==> items[k].name !in s.symbols
  }

  /** A fresh declaration without initializer records exactly its new variable. */
  lemma FreshDeclStep(name: string, s: Scopes.Scope)
    requires name !in s.symbols
    ensures CheckItem(Decl(name, None), s)
         == Success(Checked(Scopes.DeclareVar(s, name, Scopes.Int).scope,
                            [VariableNote(Scopes.Variable(name, Scopes.Int, s.nextOffset))]))
  {
    var note := VariableNote(Scopes.Variable(name, Scopes.Int, s.nextOffset));
    assert [] + [note] == [note];
  }

  /** When the first item passes, the entries are the first item's followed by the rest's. */
  lemma CheckItemsCons(items: seq<BlockItem>, s: Scopes.Scope)
    requires |items| > 0 && CheckItem(items[0], s).Success?
    ensures var first := CheckItem(items[0], s).value;
            CheckItems(items, s)
            == (match CheckItems(items[1..], first.scope)
                case Failure(e) => Failure(e)
                case Success(rest) => Success(Checked(rest.scope, first.notes + rest.notes)))
  {
  }

  /** `notes` records the declared variables of `items`, in order, at consecutive words
      from `base`. */
  ghost predicate RecordedAt(notes: seq<Note>, items: seq<BlockItem>, base: nat)
    decreases |items|
  {
    && |notes| == |items|
    && (|items| > 0 ==>
          && items[0].Decl?
          && notes[0] == VariableNote(Scopes.Variable(items[0].name, Scopes.Int, base))
          && RecordedAt(notes[1..], items[1..], base + Scopes.WordSize))
  }

  /** The `i`-th recorded variable is the `i`-th declared one, at `base + 4 * i`. */
  lemma {:induction false} RecordedAtIndex(notes: seq<Note>, items: seq<BlockItem>, base: nat, i: int)
    requires RecordedAt(notes, items, base) && 0 <= i < |items|
    ensures items[i].Decl?
    ensures notes[i] == VariableNote(Scopes.Variable(items[i].name, Scopes.Int, base + Scopes.WordSize * i))
    decreases i
  {
    if i > 0 {
      RecordedAtIndex(notes[1..], items[1..], base + Scopes.WordSize, i - 1);
    }
  }

  /** Distinct declarations without initializers, none of them already in `s`. */
  ghost predicate FreshDecls(items: seq<BlockItem>, s: Scopes.Scope) {
    BareDecls(items) && DistinctDecls(items) && FreshIn(items, s)
  }

  /** Checking `items` in `s` succeeds and records their variables from `s.nextOffset` on. */
  ghost predicate RecordsFrom(items: seq<BlockItem>, s: Scopes.Scope) {
    var c := CheckItems(items, s);
    c.Success? && RecordedAt(c.value.notes, items, s.nextOffset)
  }

  /** The scope after the first declaration of `items`. */
  function AfterFirst(items: seq<BlockItem>, s: Scopes.Scope): Scopes.Scope
    requires |items| > 0 && items[0].Decl?
  {
    Scopes.DeclareVar(s, items[0].name, Scopes.Int).scope
  }

  /** After the first of distinct fresh declarations, the others are distinct and still
      fresh in the scope it extends. */
  lemma FreshTail(items: seq<BlockItem>, s: Scopes.Scope)
    requires |items| > 0 && FreshDecls(items, s)
    ensures items[0].Decl? && FreshDecls(items[1..], AfterFirst(items, s))
  {
    var s' := AfterFirst(items, s);
    assert s'.symbols.Keys == s.symbols.Keys + {items[0].name};
    forall k | 0 <= k < |items| - 1
      ensures items[1..][k].Decl? && items[1..][k].init.None? && items[1..][k].name !in s'.symbols
    {
      assert items[1..][k] == items[k + 1];
      assert items[k + 1].name != items[0].name;
    }
  }

  /** The inductive step: the rest recorded one word higher gives all recorded at `base`. */
  lemma FreshDeclsStep(items: seq<BlockItem>, s: Scopes.Scope)
    requires |items| > 0 && FreshDecls(items, s)
    requires items[0].Decl? && RecordsFrom(items[1..], AfterFirst(items, s))
    ensures RecordsFrom(items, s)
  {
    var rest := CheckItems(items[1..], AfterFirst(items, s)).value;
    var head := VariableNote(Scopes.Variable(items[0].name, Scopes.Int, s.nextOffset));
    FreshDeclStep(items[0].name, s);
    assert items[0] == Decl(items[0].name, None);
    CheckItemsCons(items, s);
    assert CheckItems(items, s) == Success(Checked(rest.scope, [head] + rest.notes));
    assert ([head] + rest.notes)[1..] == rest.notes;
  }

  /** Fresh declarations are recorded in source order at consecutive words from the
      scope's next offset: 0, 4, 8, ... in a fresh function scope. */
  lemma {:induction false} FreshDeclsOffsets(items: seq<BlockItem>, s: Scopes.Scope)
    requires FreshDecls(items, s)
    ensures RecordsFrom(items, s)
    decreases |items|
  {
    if |items| > 0 {
      FreshTail(items, s);
      FreshDeclsOffsets(items[1..], AfterFirst(items, s));
      FreshDeclsStep(items, s);
    }
  }

  /** The same, position by position: the `i`-th of distinct fresh declarations is
      recorded at `nextOffset + 4 * i`. */
  lemma FreshDeclOffset(items: seq<BlockItem>, s: Scopes.Scope, i: int)
    requires BareDecls(items) && DistinctDecls(items) && FreshIn(items, s)
    requires 0 <= i < |items|
    ensures CheckItems(items, s).Success? && |CheckItems(items, s).value.notes| == |items|
    ensures CheckItems(items, s).value.notes[i]
         == VariableNote(Scopes.Variable(items[i].name, Scopes.Int, s.nextOffset + Scopes.WordSize * i))
  {
    FreshDeclsOffsets(items, s);
    RecordedAtIndex(CheckItems(items, s).value.notes, items, s.nextOffset, i);
  }

  /** The literal bound is inclusive: `4294967295` is accepted, `4294967296` is too large. */
  lemma LiteralBound(s: Scopes.Scope)
    ensures CheckExpr(IntLit(NatToString(MaxUint)), s) == Success([IntegerNote(MaxUint)])
    ensures CheckExpr(IntLit(NatToString(MaxUint + 1)), s) == Failure(TooLarge(MaxUint + 1))
  {
  }

  /** A declaration's initializer is checked before the name exists: `int a = a;` fails
      as a use of an undeclared variable, not as a duplicate. */
  lemma SelfReferenceUndeclared(name: string, s: Scopes.Scope)
    requires name !in s.symbols
    ensures CheckItem(Decl(name, Some(Ident(name))), s) == Failure(NotDeclared(name))
  {
  }

  /** An assignment resolves its target before its right-hand side: an undeclared target
      is reported even when the right-hand side would fail too. */
  lemma AssignTargetFirst(target: string, rhs: Expr, s: Scopes.Scope)
    requires target !in s.symbols
    ensures CheckExpr(Assign(target, rhs), s) == Failure(NotDeclared(target))
  {
  }

  /** Declarations directly in the function body are never counted in the frame size:
      `int main() { int a; return a; }` records `a` at offset 0 and a frame of 0 bytes. */
  lemma FunctionScopeFrameIsEmpty()
    ensures CheckFunc(Func("main", [Decl("a", None), StmtItem(Return(Ident("a")))]))
         == Success(FuncInfo([VariableNote(Scopes.Variable("a", Scopes.Int, 0)),
                              VariableNote(Scopes.Variable("a", Scopes.Int, 0))], 0))
  {
    var a := Scopes.Variable("a", Scopes.Int, 0);
    var items := [Decl("a", None), StmtItem(Return(Ident("a")))];
    var s0 := MainScope();
    assert s0.nextOffset == 0;
    FreshDeclStep("a", s0);
    assert items[0] == Decl("a", None);
    var s1 := Scopes.DeclareVar(s0, "a", Scopes.Int).scope;
    assert s1.symbols["a"] == a;
    CheckItemsCons(items, s0);
    var later := items[1..];
    assert CheckItem(later[0], s1) == Success(Checked(s1, [VariableNote(a)]));
    CheckItemsCons(later, s1);
    assert later[1..] == [];
    assert CheckItems([], s1) == Success(Checked(s1, []));
    assert [VariableNote(a)] + [] == [VariableNote(a)];
    assert CheckItems(later, s1) == Success(Checked(s1, [VariableNote(a)]));
    assert CheckItem(items[0], s0) == Success(Checked(s1, [VariableNote(a)]));
    assert [VariableNote(a)] + [VariableNote(a)] == [VariableNote(a), VariableNote(a)];
    assert CheckItems(items, s0) == Success(Checked(s1, [VariableNote(a), VariableNote(a)]));
  }
}
