/** `compose(*functions)`: `functools.reduce` of a pairwise composer over the
    functions, starting from the identity. */
module Functional {

  function Identity<T>(): T -> T {
    x => x
  }

  /** `composer(f, g)`: `g` first, then `f`. */
  function Composer<T>(f: T -> T, g: T -> T): T -> T {
    x => f(g(x))
  }

  /** `functools.reduce(composer, fs, acc)`: a left fold. */
  function Reduce<T>(fs: seq<T -> T>, acc: T -> T): T -> T
    decreases |fs|
  {
    if |fs| == 0 then acc else Reduce(fs[1..], Composer(acc, fs[0]))
  }

  /** `compose(f1, ..., fn)`: applies `fn` first and `f1` last. */
  function Compose<T(!new)>(fs: seq<T -> T>): (r: T -> T)
    ensures forall x :: r(x) == ApplyAll(fs, x)
  {
    assert forall x :: Reduce(fs, Identity())(x) == ApplyAll(fs, x) by {
      forall x
        ensures Reduce(fs, Identity())(x) == ApplyAll(fs, x)
      {
        ReduceApplies(fs, Identity(), x);
      }
    }
    Reduce(fs, Identity())
  }

  /** The reference reading of composition: `f1(f2(...fn(x)))`, the last
      function applied first. */
  function ApplyAll<T>(fs: seq<T -> T>, x: T): T
    decreases |fs|
  {
    if |fs| == 0 then x else fs[0](ApplyAll(fs[1..], x))
  }

  /** The fold from any start `acc` applies the functions, then `acc`. */
  lemma {:induction false} ReduceApplies<T>(fs: seq<T -> T>, acc: T -> T, x: T)
    ensures Reduce(fs, acc)(x) == acc(ApplyAll(fs, x))
    decreases |fs|
  {
    if |fs| > 0 {
      ReduceApplies(fs[1..], Composer(acc, fs[0]), x);
    }
  }

  /** `compose(f1, ..., fn)(x) == f1(f2(...fn(x)))`. */
  lemma ComposeApplies<T(!new)>(fs: seq<T -> T>, x: T)
    ensures Compose(fs)(x) == ApplyAll(fs, x)
  {
    ReduceApplies(fs, Identity(), x);
  }

  /** `compose()` is the identity. */
  lemma ComposeEmpty<T(!new)>(x: T)
    ensures Compose<T>([])(x) == x
  {
  }

  /** `compose(f)(x) == f(x)`. */
  lemma ComposeSingle<T(!new)>(f: T -> T, x: T)
    ensures Compose([f])(x) == f(x)
  {
    ComposeApplies([f], x);
    assert [f][1..] == [];
  }

  /** `compose(f, g)(x) == f(g(x))`: the rightmost function runs first. */
  lemma ComposePair<T(!new)>(f: T -> T, g: T -> T, x: T)
    ensures Compose([f, g])(x) == f(g(x))
  {
    ComposeApplies([f, g], x);
    assert [f, g][1..] == [g];
    assert [g][1..] == [];
    assert ApplyAll([g], x) == g(x);
  }

  lemma {:induction false} ApplyAllSnoc<T>(fs: seq<T -> T>, g: T -> T, x: T)
    ensures ApplyAll(fs + [g], x) == ApplyAll(fs, g(x))
    decreases |fs|
  {
    if |fs| == 0 {
      assert [g][1..] == [];
    } else {
      assert (fs + [g])[1..] == fs[1..] + [g];
      ApplyAllSnoc(fs[1..], g, x);
    }
  }

  /** `compose(f1..fn)(x) == compose(f1..fn-1)(fn(x))`. */
  lemma ComposeSnoc<T(!new)>(fs: seq<T -> T>, g: T -> T, x: T)
    ensures Compose(fs + [g])(x) == Compose(fs)(g(x))
  {
    ComposeApplies(fs + [g], x);
    ComposeApplies(fs, g(x));
    ApplyAllSnoc(fs, g, x);
  }

  lemma {:induction false} ApplyAllAppend<T>(fs: seq<T -> T>, gs: seq<T -> T>, x: T)
    ensures ApplyAll(fs + gs, x) == ApplyAll(fs, ApplyAll(gs, x))
    decreases |fs|
  {
    if |fs| == 0 {
      assert fs + gs == gs;
    } else {
      assert (fs + gs)[1..] == fs[1..] + gs;
      ApplyAllAppend(fs[1..], gs, x);
    }
  }

  /** Composition is associative: composing two compositions composes the
      concatenated list. */
  lemma ComposeAppend<T(!new)>(fs: seq<T -> T>, gs: seq<T -> T>, x: T)
    ensures Compose(fs + gs)(x) == Compose(fs)(Compose(gs)(x))
  {
    ComposeApplies(fs + gs, x);
    ComposeApplies(gs, x);
    ComposeApplies(fs, Compose(gs)(x));
    ApplyAllAppend(fs, gs, x);
  }
}
