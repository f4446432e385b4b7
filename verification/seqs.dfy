/** Small facts about sets and sequences shared by the dispatch modules. */
module Seqs {
  import opened Wrappers

  /** The elements of a sequence, as Python's `set(list)`. */
  function Elems<T(!new)>(s: seq<T>): (r: set<T>)
    ensures forall x :: x in r <==> x in s
  {
    set x | x in s
  }

  /** No element occurs twice. */
  predicate Distinct<T(==)>(s: seq<T>) {
    forall i, j :: 0 <= i < j < |s| ==> s[i] != s[j]
  }

  lemma SingletonUnique<T>(s: set<T>)
    requires |s| == 1
    ensures forall a, b :: a in s && b in s ==> a == b
  {
    forall a, b | a in s && b in s
      ensures a == b
    {
      assert |s - {a}| == 0;
      assert b in s - {a} || b == a;
    }
  }

  /** The only element of a one-element set (Python's `matches[0]` when
      `len(matches) == 1`). */
  function Single<T>(s: set<T>): (x: T)
    requires |s| == 1
    ensures s == {x}
  {
    SingletonUnique(s);
    var x :| x in s; x
  }

  /** A set holding some element at most `k` has a least element. */
  lemma {:induction false} MinAtMost(s: set<nat>, y: nat, k: nat)
    requires y in s && y <= k
    ensures exists m :: m in s && forall z :: z in s ==> m <= z
    decreases k
  {
    if exists z :: z in s && z < k {
      var z :| z in s && z < k;
      MinAtMost(s, z, k - 1);
    } else {
      assert y == k;
      assert forall z :: z in s ==> y <= z;
    }
  }

  lemma MinExists(s: set<nat>)
    requires s != {}
    ensures exists m :: m in s && forall y :: y in s ==> m <= y
  {
    var y :| y in s;
    MinAtMost(s, y, y);
  }

  /** The least element of a non-empty set (Python's `min`). */
  function MinOf(s: set<nat>): (m: nat)
    requires s != {}
    ensures m in s
    ensures forall y :: y in s ==> m <= y
  {
    MinExists(s);
    var m :| m in s && forall y :: y in s ==> m <= y; m
  }

  /** The sequence back to front. */
  function Reverse<T>(s: seq<T>): (r: seq<T>)
    ensures |r| == |s|
    ensures forall i :: 0 <= i < |s| ==> r[i] == s[|s| - 1 - i]
  {
    if |s| == 0 then [] else Reverse(s[1..]) + [s[0]]
  }

  lemma ReverseKeepsElements<T>(s: seq<T>)
    ensures forall x :: x in Reverse(s) <==> x in s
  {
    var r := Reverse(s);
    forall x | x in s
      ensures x in r
    {
      var i :| 0 <= i < |s| && s[i] == x;
      assert r[|s| - 1 - i] == x;
    }
  }

  /** Reversal turns a concatenation around. */
  lemma ReverseAppend<T>(a: seq<T>, b: seq<T>)
    ensures Reverse(a + b) == Reverse(b) + Reverse(a)
  {
    var l := Reverse(a + b);
    var r := Reverse(b) + Reverse(a);
    assert |l| == |r|;
    forall i | 0 <= i < |l|
      ensures l[i] == r[i]
    {
      if i < |b| {
        assert r[i] == Reverse(b)[i];
      } else {
        assert r[i] == Reverse(a)[i - |b|];
      }
    }
  }

  /** Elements at different positions have different keys, where they have one. */
  predicate DistinctOn<T, K(==)>(xs: seq<T>, key: T -> Option<K>) {
    forall i, j :: 0 <= i < j < |xs| && key(xs[i]).Some? && key(xs[j]).Some? ==> key(xs[i]).value != key(xs[j]).value
  }

  lemma DistinctOnReverse<T, K>(xs: seq<T>, key: T -> Option<K>)
    ensures DistinctOn(Reverse(xs), key) <==> DistinctOn(xs, key)
  {
    var rx := Reverse(xs);
    var n := |xs|;
    if DistinctOn(xs, key) {
      forall i, j | 0 <= i < j < n && key(rx[i]).Some? && key(rx[j]).Some?
        ensures key(rx[i]).value != key(rx[j]).value
      {
        assert rx[i] == xs[n - 1 - i] && rx[j] == xs[n - 1 - j];
      }
    }
    if DistinctOn(rx, key) {
      forall i, j | 0 <= i < j < n && key(xs[i]).Some? && key(xs[j]).Some?
        ensures key(xs[i]).value != key(xs[j]).value
      {
        assert rx[n - 1 - i] == xs[i] && rx[n - 1 - j] == xs[j];
      }
    }
  }

  /** Dropping the head: its key must also differ from every later key. */
  lemma DistinctOnCons<T, K>(xs: seq<T>, key: T -> Option<K>, k: K)
    requires |xs| > 0 && key(xs[0]) == Some(k)
    ensures DistinctOn(xs, key) <==>
      DistinctOn(xs[1..], key) && forall x :: x in xs[1..] && key(x).Some? ==> key(x).value != k
  {
    var t := xs[1..];
    assert forall j :: 1 <= j < |xs| ==> xs[j] == t[j - 1];
    if DistinctOn(xs, key) {
      forall x | x in t && key(x).Some?
        ensures key(x).value != k
      {
        var j :| 0 <= j < |t| && t[j] == x;
        assert xs[j + 1] == x;
      }
      forall i, j | 0 <= i < j < |t| && key(t[i]).Some? && key(t[j]).Some?
        ensures key(t[i]).value != key(t[j]).value
      {
        assert xs[i + 1] == t[i] && xs[j + 1] == t[j];
      }
    }
    if DistinctOn(t, key) && forall x :: x in t && key(x).Some? ==> key(x).value != k {
      forall i, j | 0 <= i < j < |xs| && key(xs[i]).Some? && key(xs[j]).Some?
        ensures key(xs[i]).value != key(xs[j]).value
      {
        assert xs[j] == t[j - 1];
        if i > 0 {
          assert xs[i] == t[i - 1];
        } else {
          assert t[j - 1] in t;
        }
      }
    }
  }
}
