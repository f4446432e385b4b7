/** Nested-dictionary path utilities (`catalog`, `delve`, `delveset`). A
    Python dict is an ordered sequence of key/child pairs; anything that is
    not a dict is a leaf, and indexing a leaf by a key fails. */
module NestedDict {
  import opened Wrappers
  import opened Values

  datatype Tree = Leaf(v: Value) | Node(entries: seq<(string, Tree)>)

  type Path = seq<string>

  /** Failures of the path utilities: `IndexError` on an empty path,
      `KeyError`, `TypeError` from indexing a non-dict, and the exceptions
      `delveset` raises itself: a missing value, leftover keywords, and an
      empty path, the last sharing `EmptyPath` with the `IndexError` of
      `delve`. */
  datatype DictError =
    | EmptyPath
    | MissingKey(key: string)
    | NotADict
    | NoValue
    | Unprocessed(names: set<string>)

  predicate UniqueKeys(es: seq<(string, Tree)>) {
    forall i, j :: 0 <= i < j < |es| ==> es[i].0 != es[j].0
  }

  /** Keys are unique at every level, as in every Python dict. */
  predicate WellFormed(t: Tree)
    decreases t
  {
    t.Leaf? ||
    (UniqueKeys(t.entries) && forall i :: 0 <= i < |t.entries| ==> WellFormed(t.entries[i].1))
  }

  /** The position of `k` among the keys. */
  function IndexOf(es: seq<(string, Tree)>, k: string): (r: Option<nat>)
    ensures r.None? <==> forall i :: 0 <= i < |es| ==> es[i].0 != k
    ensures r.Some? ==> r.value < |es| && es[r.value].0 == k
    ensures r.Some? ==> forall i :: 0 <= i < r.value ==> es[i].0 != k
  {
    if |es| == 0 then None
    else if es[0].0 == k then Some(0)
    else
      match IndexOf(es[1..], k)
      case None => None
      case Some(i) => Some(i + 1)
  }

  /** The first position holding `k` is the one `IndexOf` reports. */
  lemma {:induction false} IndexOfAt(es: seq<(string, Tree)>, k: string, i: nat)
    requires i < |es| && es[i].0 == k
    requires forall m :: 0 <= m < i ==> es[m].0 != k
    ensures IndexOf(es, k) == Some(i)
    decreases i
  {
    if i > 0 {
      IndexOfAt(es[1..], k, i - 1);
    }
  }

  /** `d[k]` as an option. */
  function Lookup(es: seq<(string, Tree)>, k: string): (r: Option<Tree>)
    ensures r.None? <==> forall i :: 0 <= i < |es| ==> es[i].0 != k
    ensures r.Some? ==> (k, r.value) in es
  {
    match IndexOf(es, k)
    case None => None
    case Some(i) => Some(es[i].1)
  }

  /** `d[k] = v`: an existing key keeps its place, a new one goes last. */
  function Put(es: seq<(string, Tree)>, k: string, v: Tree): (r: seq<(string, Tree)>)
    ensures Lookup(r, k) == Some(v)
    ensures forall j :: j != k ==> Lookup(r, j) == Lookup(es, j)
    ensures UniqueKeys(es) ==> UniqueKeys(r)
    ensures forall e :: e in r ==> e in es || e == (k, v)
  {
    match IndexOf(es, k)
    case Some(i) =>
      var r := es[i := (k, v)];
      IndexOfAt(r, k, i);
      forall j | j != k
        ensures Lookup(r, j) == Lookup(es, j)
      {
        LookupAfterReplace(es, i, k, v, j);
      }
      r
    case None =>
      var r := es + [(k, v)];
      IndexOfAt(r, k, |es|);
      forall j | j != k
        ensures Lookup(r, j) == Lookup(es, j)
      {
        LookupAfterAppend(es, k, v, j);
      }
      r
  }

  lemma LookupAfterReplace(es: seq<(string, Tree)>, i: nat, k: string, v: Tree, j: string)
    requires i < |es| && es[i].0 == k && j != k
    ensures Lookup(es[i := (k, v)], j) == Lookup(es, j)
  {
    var r := es[i := (k, v)];
    match IndexOf(es, j)
    case None =>
      assert forall m :: 0 <= m < |r| ==> r[m].0 != j;
    case Some(p) =>
      assert p != i;
      assert forall m :: 0 <= m < p ==> r[m].0 != j;
      IndexOfAt(r, j, p);
  }

  lemma LookupAfterAppend(es: seq<(string, Tree)>, k: string, v: Tree, j: string)
    requires j != k
    ensures Lookup(es + [(k, v)], j) == Lookup(es, j)
  {
    var r := es + [(k, v)];
    match IndexOf(es, j)
    case None =>
      assert forall m :: 0 <= m < |r| ==> r[m].0 != j;
    case Some(p) =>
      assert forall m :: 0 <= m < p ==> r[m].0 != j;
      IndexOfAt(r, j, p);
  }

  /** The subtree at a path, if every step is a dict holding the key; the
      empty path names the tree itself. */
  function At(t: Tree, q: Path): Option<Tree>
    decreases |q|
  {
    if |q| == 0 then Some(t)
    else if t.Leaf? then None
    else
      match Lookup(t.entries, q[0])
      case None => None
      case Some(c) => At(c, q[1..])
  }

  /** `catalog(base, path)`: every leaf with its full path, dict keys in order;
      an empty dict contributes nothing. */
  function Catalog(t: Tree, path: Path): (r: seq<(Path, Value)>)
    ensures forall e :: e in r ==> |path| <= |e.0| && e.0[..|path|] == path
    ensures t.Leaf? ==> r == [(path, t.v)]
    ensures t.Node? ==> forall e :: e in r ==> |path| < |e.0|
    decreases t, if t.Node? then |t.entries| + 1 else 0
  {
    match t
    case Leaf(v) => [(path, v)]
    case Node(es) => CatalogFrom(t, path, 0)
  }

  /** The catalog of the entries of `t` from position `i` on. */
  function CatalogFrom(t: Tree, path: Path, i: nat): (r: seq<(Path, Value)>)
    requires t.Node? && i <= |t.entries|
    ensures forall e :: e in r ==> |path| < |e.0| && e.0[..|path|] == path
    decreases t, |t.entries| - i
  {
    if i == |t.entries| then []
    else
      var k := t.entries[i].0;
      var c := t.entries[i].1;
      var head := Catalog(c, path + [k]);
      assert forall e :: e in head ==> e.0[..|path|] == (e.0[..|path| + 1])[..|path|];
      head + CatalogFrom(t, path, i + 1)
  }

  /** `delve(o, *k)`: `o[k1][k2]...[kn]`; an empty path is an `IndexError`. */
  function Delve(o: Tree, ks: Path): (r: Result<Tree, DictError>)
    ensures |ks| == 0 ==> r == Failure(EmptyPath)
    ensures |ks| > 0 ==> (r.Success? <==> At(o, ks).Some?)
    ensures r.Success? ==> At(o, ks) == Some(r.value)
    decreases |ks|
  {
    if |ks| == 0 then Failure(EmptyPath)
    else if o.Leaf? then Failure(NotADict)
    else
      match Lookup(o.entries, ks[0])
      case None => Failure(MissingKey(ks[0]))
      case Some(c) => if |ks| == 1 then Success(c) else Delve(c, ks[1..])
  }

  /** Whether `delveset` can assign along `ks`: every step that already
      exists is a dict (a missing step is created empty). */
  predicate Settable(o: Tree, ks: Path)
    decreases |ks|
  {
    && o.Node?
    && (|ks| <= 1 ||
        match Lookup(o.entries, ks[0])
        case None => true
        case Some(c) => Settable(c, ks[1..]))
  }

  /** The assignment behind `delveset`: `o[k1]...[kn] = v`, creating a
      missing intermediate as `{}`. */
  function SetPath(o: Tree, ks: Path, v: Tree): (r: Result<Tree, DictError>)
    requires |ks| > 0
    ensures r.Success? <==> Settable(o, ks)
    ensures r.Failure? ==> r.error == NotADict
    ensures r.Success? ==> r.value.Node?
    decreases |ks|
  {
    if o.Leaf? then Failure(NotADict)
    else if |ks| == 1 then Success(Node(Put(o.entries, ks[0], v)))
    else
      var child := Lookup(o.entries, ks[0]).GetOr(Node([]));
      assert Lookup(o.entries, ks[0]).None? ==> Settable(child, ks[1..]);
      var sub :- SetPath(child, ks[1..], v);
      Success(Node(Put(o.entries, ks[0], sub)))
  }

  /** `delveset(o, *k, **kwargs)`: the value comes from the `value` keyword;
      a missing or `None` value, any other keyword, and an empty path are
      rejected in that order before anything is assigned. */
  function DelveSet(o: Tree, ks: Path, kwargs: map<string, Tree>): (r: Result<Tree, DictError>)
    ensures ("value" !in kwargs || kwargs["value"] == Leaf(NoneV)) <==> r == Failure(NoValue)
    ensures r.Failure? && r.error.Unprocessed? ==>
      r.error.names == kwargs.Keys - {"value"} && r.error.names != {}
    ensures r.Success? <==>
      && "value" in kwargs && kwargs["value"] != Leaf(NoneV)
      && kwargs.Keys <= {"value"}
      && |ks| > 0
      && Settable(o, ks)
    ensures r.Success? ==> SetPath(o, ks, kwargs["value"]) == r
  {
    var value := if "value" in kwargs then kwargs["value"] else Leaf(NoneV);
    var rest := kwargs.Keys - {"value"};
    if value == Leaf(NoneV) then Failure(NoValue)
    else if rest != {} then Failure(Unprocessed(rest))
    else if |ks| == 0 then Failure(EmptyPath)
    else SetPath(o, ks, value)
  }

  // ---------------------------------------------------------------- lemmas

  /** Delving with a non-empty path is reading the subtree at that path. */
  lemma {:induction false} DelveIsAt(o: Tree, ks: Path)
    requires |ks| > 0
    ensures At(o, ks).Some? ==> Delve(o, ks) == Success(At(o, ks).value)
  {
  }

  /** Reading along `a + b` is reading along `a`, then along `b`. */
  lemma {:induction false} AtAppend(t: Tree, a: Path, b: Path)
    ensures At(t, a).None? ==> At(t, a + b).None?
    ensures At(t, a).Some? ==> At(t, a + b) == At(At(t, a).value, b)
    decreases |a|
  {
    if |a| == 0 {
      assert a + b == b;
    } else {
      assert (a + b)[0] == a[0];
      assert (a + b)[1..] == a[1..] + b;
      if t.Node? {
        match Lookup(t.entries, a[0])
        case None =>
        case Some(c) => AtAppend(c, a[1..], b);
      }
    }
  }

  /** `delve(o, *a, *b)` is `delve(delve(o, *a), *b)`. */
  lemma DelveAppend(o: Tree, a: Path, b: Path)
    requires |a| > 0 && |b| > 0
    ensures Delve(o, a).Failure? ==> Delve(o, a + b).Failure?
    ensures Delve(o, a).Success? ==> Delve(o, a + b) == Delve(Delve(o, a).value, b)
  {
    AtAppend(o, a, b);
    if Delve(o, a).Success? {
      var c := Delve(o, a).value;
      assert At(o, a) == Some(c);
      if At(c, b).Some? {
        DelveIsAt(o, a + b);
        DelveIsAt(c, b);
      } else {
        DelveAgreesOnMissing(o, a, b, c);
      }
    }
  }

  /** When the second leg is missing, both sides fail the same way. */
  lemma {:induction false} DelveAgreesOnMissing(o: Tree, a: Path, b: Path, c: Tree)
    requires |a| > 0 && |b| > 0
    requires Delve(o, a) == Success(c)
    ensures Delve(o, a + b) == Delve(c, b)
    decreases |a|
  {
    assert (a + b)[0] == a[0];
    assert (a + b)[1..] == a[1..] + b;
    var child := Lookup(o.entries, a[0]).value;
    if |a| == 1 {
      assert a[1..] + b == b;
    } else {
      DelveAgreesOnMissing(child, a[1..], b, c);
    }
  }

  /** After a successful assignment the path leads to the new value, and
      every extension of the path reads inside the new value. */
  lemma {:induction false} SetPathThenAt(o: Tree, ks: Path, v: Tree, rest: Path)
    requires |ks| > 0 && SetPath(o, ks, v).Success?
    ensures At(SetPath(o, ks, v).value, ks + rest) == At(v, rest)
    decreases |ks|
  {
    var o' := SetPath(o, ks, v).value;
    assert (ks + rest)[0] == ks[0];
    assert (ks + rest)[1..] == ks[1..] + rest;
    if |ks| == 1 {
      assert ks[1..] + rest == rest;
    } else {
      var child := Lookup(o.entries, ks[0]).GetOr(Node([]));
      SetPathThenAt(child, ks[1..], v, rest);
    }
  }

  /** The round trip: `delve(o, *k)` after `delveset(o, *k, value=v)` is `v`. */
  lemma DelveAfterDelveSet(o: Tree, ks: Path, kwargs: map<string, Tree>)
    requires DelveSet(o, ks, kwargs).Success?
    ensures Delve(DelveSet(o, ks, kwargs).value, ks) == Success(kwargs["value"])
  {
    SetPathThenAt(o, ks, kwargs["value"], []);
    assert ks + [] == ks;
    DelveIsAt(DelveSet(o, ks, kwargs).value, ks);
  }

  /** Two paths part ways at some position both reach. */
  predicate Diverge(q: Path, ks: Path) {
    exists i :: 0 <= i < |q| && i < |ks| && q[i] != ks[i]
  }

  /** Nothing off the assigned path changes: sibling keys at every level
      keep their subtrees. */
  lemma {:induction false} SetPathFrame(o: Tree, ks: Path, v: Tree, q: Path)
    requires |ks| > 0 && SetPath(o, ks, v).Success?
    requires Diverge(q, ks)
    ensures At(SetPath(o, ks, v).value, q) == At(o, q)
    decreases |ks|
  {
    var o' := SetPath(o, ks, v).value;
    var i :| 0 <= i < |q| && i < |ks| && q[i] != ks[i];
    if q[0] != ks[0] {
    } else {
      assert i > 0;
      assert Diverge(q[1..], ks[1..]) by {
        assert q[1..][i - 1] != ks[1..][i - 1];
      }
      var found := Lookup(o.entries, ks[0]);
      var child := found.GetOr(Node([]));
      SetPathFrame(child, ks[1..], v, q[1..]);
      if found.None? {
        assert At(Node([]), q[1..]) == None;
      }
    }
  }

  /** Every proper prefix of the assigned path is a dict afterwards. */
  lemma {:induction false} SetPathPrefixIsDict(o: Tree, ks: Path, v: Tree, n: nat)
    requires |ks| > 0 && SetPath(o, ks, v).Success?
    requires n < |ks|
    ensures At(SetPath(o, ks, v).value, ks[..n]).Some?
    ensures At(SetPath(o, ks, v).value, ks[..n]).value.Node?
    decreases |ks|
  {
    if n > 0 {
      assert ks[..n][0] == ks[0];
      assert ks[..n][1..] == ks[1..][..n - 1];
      var child := Lookup(o.entries, ks[0]).GetOr(Node([]));
      SetPathPrefixIsDict(child, ks[1..], v, n - 1);
    }
  }

  /** Assignment keeps keys unique at every level. */
  lemma {:induction false} SetPathWellFormed(o: Tree, ks: Path, v: Tree)
    requires |ks| > 0 && SetPath(o, ks, v).Success?
    requires WellFormed(o) && WellFormed(v)
    ensures WellFormed(SetPath(o, ks, v).value)
    decreases |ks|
  {
    var o' := SetPath(o, ks, v).value;
    var child := Lookup(o.entries, ks[0]).GetOr(Node([]));
    var sub := if |ks| == 1 then v else SetPath(child, ks[1..], v).value;
    if |ks| > 1 {
      if Lookup(o.entries, ks[0]).Some? {
        var m :| 0 <= m < |o.entries| && o.entries[m] == (ks[0], child);
        assert WellFormed(o.entries[m].1);
      }
      SetPathWellFormed(child, ks[1..], v);
    }
    assert o'.entries == Put(o.entries, ks[0], sub);
    forall m | 0 <= m < |o'.entries|
      ensures WellFormed(o'.entries[m].1)
    {
      assert o'.entries[m] in o.entries || o'.entries[m] == (ks[0], sub);
      if o'.entries[m] in o.entries {
        var p :| 0 <= p < |o.entries| && o.entries[p] == o'.entries[m];
        assert WellFormed(o.entries[p].1);
      }
    }
  }

  /** Every catalog entry is a leaf reached by its path below `pre`. */
  lemma {:induction false} CatalogSound(t: Tree, pre: Path, e: (Path, Value))
    requires WellFormed(t)
    requires e in Catalog(t, pre)
    ensures At(t, e.0[|pre|..]) == Some(Leaf(e.1))
    decreases t, if t.Node? then |t.entries| + 1 else 0
  {
    if t.Leaf? {
      assert e.0[|pre|..] == [];
    } else {
      CatalogFromSound(t, pre, 0, e);
    }
  }

  lemma {:induction false} CatalogFromSound(t: Tree, pre: Path, i: nat, e: (Path, Value))
    requires t.Node? && i <= |t.entries| && WellFormed(t)
    requires e in CatalogFrom(t, pre, i)
    ensures At(t, e.0[|pre|..]) == Some(Leaf(e.1))
    decreases t, |t.entries| - i
  {
    var k := t.entries[i].0;
      var c := t.entries[i].1;
    var head := Catalog(c, pre + [k]);
    if e in head {
      assert WellFormed(c);
      CatalogSound(c, pre + [k], e);
      var q := e.0[|pre|..];
      assert |q| > 0 && q[0] == k;
      assert q[1..] == e.0[|pre + [k]|..];
      assert Lookup(t.entries, k) == Some(c) by {
        var p :| 0 <= p < |t.entries| && t.entries[p] == (k, Lookup(t.entries, k).value);
        assert p == i;
      }
    } else {
      CatalogFromSound(t, pre, i + 1, e);
    }
  }

  /** Every leaf reachable from `t` appears in its catalog, with its path. */
  lemma {:induction false} CatalogComplete(t: Tree, pre: Path, q: Path, v: Value)
    requires At(t, q) == Some(Leaf(v))
    ensures (pre + q, v) in Catalog(t, pre)
    decreases t, if t.Node? then |t.entries| + 1 else 0
  {
    if |q| == 0 {
      assert pre + q == pre;
    } else {
      var c := Lookup(t.entries, q[0]).value;
      var i :| 0 <= i < |t.entries| && t.entries[i] == (q[0], c);
      CatalogComplete(c, pre + [q[0]], q[1..], v);
      assert (pre + [q[0]]) + q[1..] == pre + q;
      CatalogFromContains(t, pre, 0, i, (pre + q, v));
    }
  }

  lemma {:induction false} CatalogFromContains(t: Tree, pre: Path, i: nat, j: nat, e: (Path, Value))
    requires t.Node? && i <= j < |t.entries|
    requires e in Catalog(t.entries[j].1, pre + [t.entries[j].0])
    ensures e in CatalogFrom(t, pre, i)
    decreases j - i
  {
    if i < j {
      CatalogFromContains(t, pre, i + 1, j, e);
    }
  }

  /** The catalog of a dict is exactly its leaves: a pair is listed iff its
      path leads to that leaf. */
  lemma CatalogIsLeaves(t: Tree, q: Path, v: Value)
    requires WellFormed(t)
    ensures (q, v) in Catalog(t, []) <==> At(t, q) == Some(Leaf(v))
  {
    assert [] + q == q;
    if (q, v) in Catalog(t, []) {
      CatalogSound(t, [], (q, v));
      assert q[0..] == q;
    }
    if At(t, q) == Some(Leaf(v)) {
      CatalogComplete(t, [], q, v);
    }
  }
}
