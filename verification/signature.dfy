/** Signature extraction (`introspect_function`, Python 3 branch): a declared
    parameter list is packed into the required names, the defaults and the
    catch-all names. */
module Signature {
  import opened Wrappers
  import opened Values
  import opened DispatchErrors

  /** One declared parameter. Python gives `*args` and `**kwargs` no default,
      so only a plain parameter can carry one. */
  datatype Param =
    | Named(name: string, default: Option<Value>)
    | VarPositional(name: string)
    | VarKeyword(name: string)

  predicate HasDefault(p: Param) {
    p.Named? && p.default.Some?
  }

  /** A plain parameter without a default, and one defaulting to `None`. */
  function Req(n: string): Param { Named(n, None) }
  function Opt(n: string): Param { Named(n, Some(NoneV)) }

  /** A callable as the dispatch engine sees it: its `__name__`, its declared
      parameters, a signature a decorator may have attached to it in advance
      (`_introspected` for Handler methods, `_sig` for dispatcher candidates),
      and an opaque tag standing for its code. */
  datatype Func = Func(name: string, params: seq<Param>, preset: Option<Packed>, tag: string)

  /** The packed signature: `args` (no default, declaration order, `self`
      removed), `kwargs` (name to default), the `**` name and, when asked
      for, the `*` name. */
  datatype Packed = Packed(args: seq<string>, kwargs: map<string, Value>,
                           doubleStar: Option<string>, star: Option<string>)

  /** Python parameter names are distinct within one declaration. */
  predicate DistinctNames(params: seq<Param>) {
    forall i, j :: 0 <= i < j < |params| ==> params[i].name != params[j].name
  }

  /** The names of the parameters declared without a default, in declaration
      order, with every `self` removed. */
  function ArgNames(params: seq<Param>): (r: seq<string>)
    ensures forall n :: n in r <==>
      n != "self" && exists p :: p in params && !HasDefault(p) && p.name == n
    ensures |r| <= |params|
  {
    if |params| == 0 then []
    else
      var p := params[0];
      (if !HasDefault(p) && p.name != "self" then [p.name] else []) + ArgNames(params[1..])
  }

  /** A declaration Python binds positionally in declaration order: plain
      parameters only (no `*`, no `**`, no `self`), and, as Python's grammar
      demands, no parameter without a default after one with a default. */
  predicate PlainDeclaration(params: seq<Param>) {
    && (forall i :: 0 <= i < |params| ==> params[i].Named? && params[i].name != "self")
    && (forall i, j :: 0 <= i < j < |params| && HasDefault(params[i]) ==> HasDefault(params[j]))
  }

  /** In a plain declaration the required names are exactly the leading
      parameters, so the `i`-th required name is the parameter Python gives
      the `i`-th positional value. */
  lemma {:induction false} ArgNamesAreLeading(params: seq<Param>)
    requires PlainDeclaration(params)
    ensures forall i :: 0 <= i < |ArgNames(params)| ==> ArgNames(params)[i] == params[i].name
    ensures forall i :: |ArgNames(params)| <= i < |params| ==> HasDefault(params[i])
  {
    if |params| > 0 {
      var rest := params[1..];
      assert forall i :: 0 <= i < |rest| ==> rest[i] == params[i + 1];
      if HasDefault(params[0]) {
        NoneRequired(params);
      } else {
        ArgNamesAreLeading(rest);
        assert ArgNames(params) == [params[0].name] + ArgNames(rest);
      }
    }
  }

  lemma NoneRequired(params: seq<Param>)
    requires forall i :: 0 <= i < |params| ==> HasDefault(params[i])
    ensures ArgNames(params) == []
  {
  }

  /** Extraction keeps declaration order: it distributes over concatenation. */
  lemma {:induction false} ArgNamesAppend(a: seq<Param>, b: seq<Param>)
    ensures ArgNames(a + b) == ArgNames(a) + ArgNames(b)
  {
    if |a| == 0 {
      assert a + b == b;
    } else {
      assert (a + b)[1..] == a[1..] + b;
      ArgNamesAppend(a[1..], b);
    }
  }

  /** `dict(keywords)`: every defaulted parameter mapped to its default (a
      later parameter of the same name would win, as in `dict`). */
  function DefaultsMap(params: seq<Param>): (r: map<string, Value>)
    ensures r.Keys == set p | p in params && HasDefault(p) :: p.name
    ensures DistinctNames(params) ==>
      forall i :: 0 <= i < |params| && HasDefault(params[i]) ==>
        r[params[i].name] == params[i].default.value
  {
    if |params| == 0 then map[]
    else
      var init := params[..|params| - 1];
      var p := params[|params| - 1];
      assert params == init + [p];
      var rest := DefaultsMap(init);
      if HasDefault(p) then rest[p.name := p.default.value] else rest
  }

  /** The names of the `**` parameters, in declaration order. */
  function DoubleStarNames(params: seq<Param>): (r: seq<string>)
    ensures forall n :: n in r <==> exists p :: p in params && p.VarKeyword? && p.name == n
    ensures |r| <= |params|
  {
    if |params| == 0 then []
    else (if params[0].VarKeyword? then [params[0].name] else []) + DoubleStarNames(params[1..])
  }

  /** `getfullargspec(func).varargs`: the name of the `*` parameter, if any. */
  function StarName(params: seq<Param>): (r: Option<string>)
    ensures r.Some? <==> exists p :: p in params && p.VarPositional?
    ensures r.Some? ==> VarPositional(r.value) in params
  {
    if |params| == 0 then None
    else if params[0].VarPositional? then Some(params[0].name)
    else StarName(params[1..])
  }

  /** `introspect_function(func, check_varargs=checkVarargs)`. */
  function Introspect(params: seq<Param>, checkVarargs: bool): (r: Result<Packed, DispatchError>)
    ensures r.Failure? <==> |DoubleStarNames(params)| > 1
    ensures r.Failure? ==> r.error == Malformed(DoubleStarNames(params))
    ensures r.Success? ==>
      && r.value.args == ArgNames(params)
      && r.value.kwargs == DefaultsMap(params)
      && (r.value.doubleStar.Some? <==> exists p :: p in params && p.VarKeyword?)
      && (r.value.doubleStar.Some? ==> VarKeyword(r.value.doubleStar.value) in params)
      && (r.value.star.Some? <==> checkVarargs && exists p :: p in params && p.VarPositional?)
      && (r.value.star.Some? ==> VarPositional(r.value.star.value) in params)
    // the Python 3 quirk: the `**` parameter has no default, so its name is a required argument
    ensures r.Success? && r.value.doubleStar.Some? && r.value.doubleStar.value != "self" ==>
      r.value.doubleStar.value in r.value.args
  {
    var stars := DoubleStarNames(params);
    if |stars| > 1 then Failure(Malformed(stars))
    else
      var doubleStar := if |stars| == 1 then Some(stars[0]) else None;
      assert doubleStar.Some? ==> stars[0] in stars;
      assert forall p :: p in params && p.VarKeyword? ==> p.name in stars;
      Success(Packed(ArgNames(params), DefaultsMap(params), doubleStar,
                     if checkVarargs then StarName(params) else None))
  }

  /** With distinct parameter names no name is both required and optional. */
  lemma ArgsAndDefaultsDisjoint(params: seq<Param>)
    requires DistinctNames(params)
    ensures forall n :: n in ArgNames(params) ==> n !in DefaultsMap(params)
  {
    forall n | n in ArgNames(params)
      ensures n !in DefaultsMap(params)
    {
      var p :| p in params && !HasDefault(p) && p.name == n;
    }
  }

  /** A parameter without a default adds no entry to the defaults. */
  lemma {:induction false} DefaultsSkipRequired(p: Param, ps: seq<Param>)
    requires !HasDefault(p)
    ensures DefaultsMap([p] + ps) == DefaultsMap(ps)
    decreases |ps|
  {
    var q := [p] + ps;
    if |ps| == 0 {
      assert q[..0] == [];
    } else {
      var m := |ps| - 1;
      assert q[..|q| - 1] == [p] + ps[..m];
      assert q[|q| - 1] == ps[m];
      DefaultsSkipRequired(p, ps[..m]);
    }
  }

  /** A leading `self` is invisible to introspection: a method packs to the
      same signature as the plain function with the remaining parameters. */
  lemma SelfIsInvisible(params: seq<Param>, checkVarargs: bool)
    ensures Introspect([Named("self", None)] + params, checkVarargs) == Introspect(params, checkVarargs)
  {
    var q := [Named("self", None)] + params;
    assert q[1..] == params;
    assert ArgNames(q) == ArgNames(params);
    assert DoubleStarNames(q) == DoubleStarNames(params);
    assert StarName(q) == StarName(params);
    DefaultsSkipRequired(Named("self", None), params);
  }
}

