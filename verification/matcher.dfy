/** The positional-aware matcher (`signature_match`) and
    `function_accepts_args`. A call is judged by how many positional values
    it carries and which keyword names it supplies, never by their types. */
module Matcher {
  import opened Wrappers
  import opened Values
  import opened Seqs
  import opened DispatchErrors
  import opened Signature

  /** The arguments presented at dispatch time. */
  datatype Call = Call(positional: seq<Value>, named: map<string, Value>)

  /** Whether a signature accepts `n` positional values and the keyword names
      `keys`: the positional values fill the first `n` required names, every
      later required name is supplied by keyword, and every keyword that is
      not a required name is an optional one. The `**` name plays no part. */
  predicate Accepts(sig: Packed, n: nat, keys: set<string>) {
    && n <= |sig.args|
    && (forall i :: n <= i < |sig.args| ==> sig.args[i] in keys)
    && (forall k :: k in keys && k !in sig.args ==> k in sig.kwargs)
  }

  /** `dict(zip(names, values))`. */
  function Zip(names: seq<string>, values: seq<Value>): (r: map<string, Value>)
    requires |names| == |values|
    ensures r.Keys == Elems(names)
    ensures Distinct(names) ==> forall i :: 0 <= i < |names| ==> r[names[i]] == values[i]
  {
    if |names| == 0 then map[]
    else
      var m := |names| - 1;
      assert Distinct(names) ==> Distinct(names[..m]);
      Zip(names[..m], values[..m])[names[m] := values[m]]
  }

  /** `signature_match(sig, *args, **kwargs)` with its leftover test
      corrected: bind the positional values into a copy of the keywords, pop
      every required name (failing on one that is neither bound positionally
      nor supplied by keyword), then reject when ANY keyword that is not an
      optional name is left over. The source tests the leftover names with
      `any(...)`, which also lets an empty-string name through; that reading
      is `SignatureMatchAsWritten`. */
  method SignatureMatch(sig: Packed, call: Call) returns (ok: bool)
    ensures ok == Accepts(sig, |call.positional|, call.named.Keys)
  {
    var n := |call.positional|;
    if n > |sig.args| {
      return false;
    }
    // a name given both positionally and by keyword is silently overwritten
    var popper := call.named + Zip(sig.args[..n], call.positional);
    var found, left := PopRequired(sig.args, n, call.named.Keys, popper);
    if !found {
      return false;
    }
    ok := left.Keys - sig.kwargs.Keys == {};
    LeftoverIsUnknownKeywords(sig, n, call.named.Keys, left.Keys);
  }

  /** The popping loop of `signature_match`: every required name is popped
      from `popper`, and a name past the first `n` that the keywords do not
      supply stops the loop with a failure. */
  method PopRequired(args: seq<string>, n: nat, named: set<string>, popper: map<string, Value>)
    returns (found: bool, left: map<string, Value>)
    requires n <= |args|
    ensures found <==> forall j :: n <= j < |args| ==> args[j] in named
    ensures found ==> left.Keys == popper.Keys - Elems(args)
  {
    left := popper;
    var i := 0;
    while i < |args|
      invariant 0 <= i <= |args|
      invariant forall j :: n <= j < i ==> args[j] in named
      invariant left.Keys == popper.Keys - Elems(args[..i])
    {
      var arg := args[i];
      if i >= n && arg !in named {
        return false, left;
      }
      PopStep(args, i, popper.Keys, left.Keys);
      left := left - {arg};
      i := i + 1;
    }
    assert args[..i] == args;
    found := true;
  }

  /** One round of the popping loop removes exactly the next required name. */
  lemma PopStep(args: seq<string>, i: nat, base: set<string>, keys: set<string>)
    requires i < |args|
    requires keys == base - Elems(args[..i])
    ensures keys - {args[i]} == base - Elems(args[..i + 1])
  {
    assert args[..i + 1] == args[..i] + [args[i]];
  }

  /** After the loop: the leftover keywords are all optional iff the call is
      accepted. */
  lemma LeftoverIsUnknownKeywords(sig: Packed, n: nat, keys: set<string>, left: set<string>)
    requires n <= |sig.args|
    requires forall j :: n <= j < |sig.args| ==> sig.args[j] in keys
    requires left == (keys + Elems(sig.args[..n])) - Elems(sig.args)
    ensures (left - sig.kwargs.Keys == {}) <==> Accepts(sig, n, keys)
  {
    if left - sig.kwargs.Keys == {} {
      forall k | k in keys && k !in sig.args
        ensures k in sig.kwargs
      {
        assert k in left;
        assert k !in left - sig.kwargs.Keys;
      }
    }
  }

  /** The leftover test exactly as the source writes it: `any(leftover)` is
      true only when some leftover name is truthy, and the empty string is
      not. */
  predicate AnyTruthy(names: set<string>) {
    exists k :: k in names && k != ""
  }

  /** `signature_match` as written, with `any` as the leftover test. */
  function SignatureMatchAsWritten(sig: Packed, call: Call): (ok: bool)
    ensures ok ==> |call.positional| <= |sig.args|
    ensures ok ==> forall i :: |call.positional| <= i < |sig.args| ==> sig.args[i] in call.named
  {
    var n := |call.positional|;
    if n > |sig.args| then false
    else
      var loopFails := exists j :: n <= j < |sig.args| && sig.args[j] !in call.named;
      var leftover := (call.named.Keys + Elems(sig.args[..n])) - Elems(sig.args) - sig.kwargs.Keys;
      !loopFails && !AnyTruthy(leftover)
  }

  /** The as-written test and the intended one differ only on a leftover
      keyword named by the empty string. */
  lemma AsWrittenAgreesWithoutEmptyKeyword(sig: Packed, call: Call)
    requires "" !in call.named || "" in sig.args || "" in sig.kwargs
    ensures SignatureMatchAsWritten(sig, call) == Accepts(sig, |call.positional|, call.named.Keys)
  {
    var n := |call.positional|;
    if n <= |sig.args| {
      var leftover := (call.named.Keys + Elems(sig.args[..n])) - Elems(sig.args) - sig.kwargs.Keys;
      assert "" !in leftover;
      if leftover != {} {
        var k :| k in leftover;
        assert k != "" && k in call.named && k !in sig.args && k !in sig.kwargs;
      } else {
        forall k | k in call.named && k !in sig.args
          ensures k in sig.kwargs
        {
          assert k !in leftover;
        }
      }
    }
  }

  /** The discrepancy: a call whose only keyword is `''` passes the as-written
      test against a signature with no parameters at all. */
  lemma EmptyKeywordSlipsThrough()
    ensures SignatureMatchAsWritten(Packed([], map[], None, None), Call([], map["" := IntV(1)]))
    ensures !Accepts(Packed([], map[], None, None), 0, {""})
  {
    var sig := Packed([], map[], None, None);
    var call := Call([], map["" := IntV(1)]);
    assert call.named.Keys == {""};
    assert (call.named.Keys + Elems(sig.args[..0])) - Elems(sig.args) - sig.kwargs.Keys == {""};
  }

  /** A name supplied both positionally and by keyword is never a reason to
      reject: a call that is accepted stays accepted when it also passes a
      positionally bound name by keyword. */
  lemma DoubleBindingNotRejected(sig: Packed, n: nat, keys: set<string>, i: nat)
    requires i < n
    requires Accepts(sig, n, keys)
    ensures Accepts(sig, n, keys + {sig.args[i]})
  {
  }

  /** The arguments the chosen implementation receives: defaults first, then
      the keywords, then the positional values bound to the first required
      names (the last two as the merged dictionary of the source). */
  function Bindings(sig: Packed, call: Call): (r: map<string, Value>)
    requires |call.positional| <= |sig.args|
    ensures r.Keys == sig.kwargs.Keys + call.named.Keys + Elems(sig.args[..|call.positional|])
    ensures Distinct(sig.args[..|call.positional|]) ==>
      forall i :: 0 <= i < |call.positional| ==> r[sig.args[i]] == call.positional[i]
    ensures forall k :: k in call.named && k !in sig.args[..|call.positional|] ==> r[k] == call.named[k]
    ensures forall k :: k in sig.kwargs && k !in call.named && k !in sig.args[..|call.positional|] ==>
      r[k] == sig.kwargs[k]
  {
    var n := |call.positional|;
    var z := Zip(sig.args[..n], call.positional);
    assert forall i :: 0 <= i < n ==> sig.args[..n][i] == sig.args[i];
    sig.kwargs + call.named + z
  }

  /** For a plain declaration the bindings are Python's own: the `i`-th
      positional value reaches the `i`-th declared parameter, a keyword
      reaches its parameter, and every other defaulted parameter keeps its
      default. */
  lemma BindingsFollowDeclaration(params: seq<Param>, sig: Packed, call: Call)
    requires PlainDeclaration(params) && DistinctNames(params)
    requires Introspect(params, false) == Success(sig)
    requires |call.positional| <= |sig.args|
    ensures forall i :: 0 <= i < |call.positional| ==>
      params[i].name in Bindings(sig, call) && Bindings(sig, call)[params[i].name] == call.positional[i]
    ensures forall k :: k in call.named && k !in sig.args[..|call.positional|] ==> Bindings(sig, call)[k] == call.named[k]
    ensures forall i :: |call.positional| <= i < |params| && params[i].name !in call.named && HasDefault(params[i]) ==>
      Bindings(sig, call)[params[i].name] == params[i].default.value
  {
    LeadingArgs(params, sig.args, |call.positional|);
    forall i | |call.positional| <= i < |params| && params[i].name !in call.named && HasDefault(params[i])
      ensures Bindings(sig, call)[params[i].name] == params[i].default.value
    {
      assert params[i] in params;
    }
  }

  /** The first `n` required names of a plain declaration are its first `n`
      parameters, all distinct, and no later parameter's name is among them. */
  lemma LeadingArgs(params: seq<Param>, args: seq<string>, n: nat)
    requires PlainDeclaration(params) && DistinctNames(params)
    requires args == ArgNames(params) && n <= |args|
    ensures forall i :: 0 <= i < n ==> args[..n][i] == params[i].name
    ensures Distinct(args[..n])
    ensures forall i :: n <= i < |params| ==> params[i].name !in args[..n]
  {
    ArgNamesAreLeading(params);
    assert forall i :: 0 <= i < n ==> args[..n][i] == params[i].name;
  }

  /** `function_accepts_args(func, *args, **kwargs)`: introspect, then match
      with the corrected leftover test. */
  function FunctionAcceptsArgs(params: seq<Param>, call: Call): (r: Result<bool, DispatchError>)
    ensures r.Failure? <==> |DoubleStarNames(params)| > 1
    ensures r.Success? ==> r.value == Accepts(Introspect(params, false).value, |call.positional|, call.named.Keys)
    // it agrees with the source's `any(...)` test except on an unknown `''` keyword
    ensures r.Success? ==>
      var sig := Introspect(params, false).value;
      ("" !in call.named || "" in sig.args || "" in sig.kwargs) ==> r.value == SignatureMatchAsWritten(sig, call)
  {
    var sig :- Introspect(params, false);
    assert ("" !in call.named || "" in sig.args || "" in sig.kwargs) ==>
      SignatureMatchAsWritten(sig, call) == Accepts(sig, |call.positional|, call.named.Keys) by {
      if "" !in call.named || "" in sig.args || "" in sig.kwargs {
        AsWrittenAgreesWithoutEmptyKeyword(sig, call);
      }
    }
    Success(Accepts(sig, |call.positional|, call.named.Keys))
  }
}
