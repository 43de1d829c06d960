/** Output text built by concatenating one piece per element, as the emitters and printers
    of the compiler do with `+=` in a loop. */
module Texts {
  import opened Wrappers

  /** The pieces `f(x)` of all elements of `xs`, concatenated in order. */
  function ConcatMap<T>(xs: seq<T>, f: T -> string): string {
    if |xs| == 0 then "" else ConcatMap(xs[..|xs| - 1], f) + f(xs[|xs| - 1])
  }

  /** The pieces of one and of two elements. */
  lemma ConcatMapShort<T>(x: T, y: T, f: T -> string)
    ensures ConcatMap([x], f) == f(x)
    ensures ConcatMap([x, y], f) == f(x) + f(y)
  {
    assert [x][..0] == [];
    assert [x, y][..1] == [x];
  }

  /** Concatenating the pieces distributes over splitting the element sequence. */
  lemma {:induction false} ConcatMapAppend<T>(xs: seq<T>, ys: seq<T>, f: T -> string)
    ensures ConcatMap(xs + ys, f) == ConcatMap(xs, f) + ConcatMap(ys, f)
    decreases |ys|
  {
    if |ys| > 0 {
      var ys' := ys[..|ys| - 1];
      var all := xs + ys;
      assert all[..|all| - 1] == xs + ys';
      ConcatMapAppend(xs, ys', f);
    } else {
      assert xs + ys == xs;
    }
  }

  /** One more element of a prefix adds exactly its piece at the end. */
  lemma ConcatMapStep<T>(xs: seq<T>, k: int, f: T -> string)
    requires 0 <= k < |xs|
    ensures ConcatMap(xs[..k + 1], f) == ConcatMap(xs[..k], f) + f(xs[k])
  {
    assert xs[..k + 1][..k] == xs[..k];
  }

  /** Replacing one element replaces only its piece. */
  lemma ConcatMapUpdate<T>(xs: seq<T>, i: int, x: T, f: T -> string)
    requires 0 <= i < |xs|
    ensures ConcatMap(xs[i := x], f) == ConcatMap(xs[..i], f) + f(x) + ConcatMap(xs[i + 1..], f)
  {
    var ys := xs[i := x];
    assert ys == xs[..i] + [x] + xs[i + 1..];
    ConcatMapAppend(xs[..i] + [x], xs[i + 1..], f);
    ConcatMapAppend(xs[..i], [x], f);
    assert ConcatMap([x], f) == f(x) by {
      assert [x][..0] == [];
    }
  }

  /** The pieces split around one element. */
  lemma ConcatMapAround<T>(xs: seq<T>, i: int, f: T -> string)
    requires 0 <= i < |xs|
    ensures ConcatMap(xs, f) == ConcatMap(xs[..i], f) + f(xs[i]) + ConcatMap(xs[i + 1..], f)
  {
    assert xs[i := xs[i]] == xs;
    ConcatMapUpdate(xs, i, xs[i], f);
  }

  /** Replacing one element: the pieces before and after it are shared by both texts. */
  lemma ConcatMapReplace<T>(xs: seq<T>, i: int, x: T, f: T -> string)
    requires 0 <= i < |xs|
    ensures ConcatMap(xs, f) == ConcatMap(xs[..i], f) + f(xs[i]) + ConcatMap(xs[i + 1..], f)
    ensures ConcatMap(xs[i := x], f) == ConcatMap(xs[..i], f) + f(x) + ConcatMap(xs[i + 1..], f)
  {
    ConcatMapAround(xs, i, f);
    ConcatMapUpdate(xs, i, x, f);
  }

  /** Text appended after `head` splits at any element: the text up to that element,
      unaltered, followed by the pieces of the remaining ones. */
  lemma ConcatMapSplit<T>(head: string, xs: seq<T>, k: int, f: T -> string)
    requires 0 <= k <= |xs|
    ensures head + ConcatMap(xs, f) == (head + ConcatMap(xs[..k], f)) + ConcatMap(xs[k..], f)
  {
    ConcatMapHalves(xs, k, f);
    Associate(head, ConcatMap(xs[..k], f), ConcatMap(xs[k..], f));
  }

  /** The pieces of a sequence are those of its two halves around any index. */
  lemma ConcatMapHalves<T>(xs: seq<T>, k: int, f: T -> string)
    requires 0 <= k <= |xs|
    ensures ConcatMap(xs, f) == ConcatMap(xs[..k], f) + ConcatMap(xs[k..], f)
  {
    assert xs[..k] + xs[k..] == xs;
    ConcatMapAppend(xs[..k], xs[k..], f);
  }

  /** Concatenation of texts is associative. */
  lemma Associate(a: string, b: string, c: string)
    ensures a + (b + c) == (a + b) + c
  {
  }

  /** Regrouping the middle of a concatenation of four texts. */
  lemma Reassociate(a: string, b: string, c: string, d: string)
    ensures a + (b + c) + d == a + b + c + d
  {
  }

  /** Regrouping the tail of a concatenation of four texts. */
  lemma Regroup(a: string, b: string, c: string, d: string)
    ensures a + (b + c + d) == a + b + c + d
  {
  }

  /** An emitter loop: appends `step(x)` for each element in order to `head`, stopping at
      the first element whose step fails. `piece` is the text a successful step adds. */
  method AppendEach<T, E>(head: string, xs: seq<T>, step: T -> Result<string, E>, piece: T -> string)
    returns (r: Result<string, E>)
    requires forall x :: step(x).Success? ==> piece(x) == step(x).value
    ensures r.Success? <==> forall k :: 0 <= k < |xs| ==> step(xs[k]).Success?
    ensures r.Success? ==> r.value == head + ConcatMap(xs, piece)
    ensures r.Failure? ==>
              exists k :: 0 <= k < |xs| && step(xs[k]) == Failure(r.error)
                          && forall j :: 0 <= j < k ==> step(xs[j]).Success?
  {
    var text := head;
    var i := 0;
    while i < |xs|
      invariant 0 <= i <= |xs|
      invariant text == head + ConcatMap(xs[..i], piece)
      invariant forall j :: 0 <= j < i ==> step(xs[j]).Success?
    {
      var s := step(xs[i]);
      if s.Failure? {
        return Failure(s.error);
      }
      ConcatMapStep(xs, i, piece);
      text := text + s.value;
      i := i + 1;
    }
    assert xs[..i] == xs;
    return Success(text);
  }
}
