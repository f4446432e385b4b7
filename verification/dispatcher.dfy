/** The signature dispatchers built on `signature_match`: `DispatcherBase` /
    `Dispatcher`, which demand a unique accepting method, and
    `DispatcherFunction` with the `dispatcher` decorator, which calls the
    first accepting candidate in registration order. */
module Dispatcher {
  import opened Wrappers
  import opened Values
  import opened Seqs
  import opened DispatchErrors
  import opened Signature
  import opened Matcher
  import opened Handler

  /** The implementation chosen for a call and the arguments it receives. */
  datatype Resolution = Resolution(target: string, bindings: map<string, Value>)

  /** The methods whose signature accepts the call. */
  function AcceptingNames(sigs: map<string, Packed>, call: Call): set<string> {
    set n | n in sigs && Accepts(sigs[n], |call.positional|, call.named.Keys)
  }

  /** `DispatcherBase.__init__` (with `solve`) and `Dispatcher.__call__`:
      every public method is introspected, and exactly one may accept. */
  function DispatchUnique(methods: seq<Func>, call: Call): (r: Result<Resolution, DispatchError>)
    ensures PublicSignatures(methods, false).Failure? <==> r.Failure? && r.error.Malformed?
    ensures r.Success? ==>
      var sigs := PublicSignatures(methods, false).value;
      && AcceptingNames(sigs, call) == {r.value.target}
      && r.value.bindings == Bindings(sigs[r.value.target], call)
    ensures r == Failure(Unmatched) ==> AcceptingNames(PublicSignatures(methods, false).value, call) == {}
    ensures r.Failure? && r.error.Redundant? ==>
      && r.error.names == AcceptingNames(PublicSignatures(methods, false).value, call)
      && |r.error.names| > 1
    ensures r.Failure? ==> r.error.Malformed? || r.error == Unmatched || r.error.Redundant?
  {
    var sigs :- PublicSignatures(methods, false);
    var matches := AcceptingNames(sigs, call);
    if matches == {} then Failure(Unmatched)
    else if |matches| > 1 then Failure(Redundant(matches))
    else
      var target := Single(matches);
      Success(Resolution(target, Bindings(sigs[target], call)))
  }

  /** A `DispatcherFunction`: the registered name (`""` while unset, which
      `not self._name` treats alike), the candidates and their signatures. */
  datatype Multiplex = Multiplex(name: string, candidates: seq<Func>, sigs: seq<Packed>)

  const Fresh: Multiplex := Multiplex("", [], [])

  /** Every signature belongs to a candidate (`add` appends the candidate
      before its signature). */
  predicate Valid(mp: Multiplex) {
    |mp.sigs| <= |mp.candidates|
  }

  /** `add`'s signature of a candidate: an attached `_sig` is used as is,
      otherwise the function is introspected. */
  function CandidateSig(f: Func): (r: Result<Packed, DispatchError>)
    ensures f.preset.Some? ==> r == Success(f.preset.value)
    ensures f.preset.None? ==> r == Introspect(f.params, false)
  {
    if f.preset.Some? then Success(f.preset.value) else Introspect(f.params, false)
  }

  /** Signature `i` belongs to candidate `i` for every candidate. */
  predicate Aligned(mp: Multiplex) {
    && |mp.sigs| == |mp.candidates|
    && forall i :: 0 <= i < |mp.sigs| ==> CandidateSig(mp.candidates[i]) == Success(mp.sigs[i])
  }

  /** The state after `add` and the exception it raised, if any. */
  datatype Added = Added(mp: Multiplex, error: Option<DispatchError>)

  /** `DispatcherFunction.add(func)`. */
  function Add(mp: Multiplex, f: Func): (r: Added)
    ensures Valid(mp) ==> Valid(r.mp)
    ensures Aligned(mp) && r.error.None? ==> Aligned(r.mp)
    ensures mp.name != "" && mp.name != f.name ==> r == Added(mp, Some(NameMismatch(mp.name, f.name)))
    ensures r.error.None? <==> (mp.name == "" || mp.name == f.name) && CandidateSig(f).Success?
    ensures r.error.None? ==>
      && r.mp.candidates == mp.candidates + [f]
      && r.mp.sigs == mp.sigs + [CandidateSig(f).value]
      && r.mp.name == (if mp.name == "" then f.name else mp.name)
    // a failed introspection leaves the candidate registered without a signature
    ensures (mp.name == "" || mp.name == f.name) && CandidateSig(f).Failure? ==>
      r.mp.candidates == mp.candidates + [f] && r.mp.sigs == mp.sigs
  {
    if mp.name != "" && mp.name != f.name then Added(mp, Some(NameMismatch(mp.name, f.name)))
    else
      var appended := mp.(name := if mp.name == "" then f.name else mp.name,
                          candidates := mp.candidates + [f]);
      match CandidateSig(f)
      case Failure(e) => Added(appended, Some(e))
      case Success(sig) => Added(appended.(sigs := mp.sigs + [sig]), None)
  }

  /** The index of the first signature that accepts the call. */
  function FirstAccepting(sigs: seq<Packed>, call: Call): (r: Option<nat>)
    ensures r.Some? ==> r.value < |sigs| && Accepts(sigs[r.value], |call.positional|, call.named.Keys)
    ensures r.Some? ==> forall j :: 0 <= j < r.value ==> !Accepts(sigs[j], |call.positional|, call.named.Keys)
    ensures r.None? <==> forall j :: 0 <= j < |sigs| ==> !Accepts(sigs[j], |call.positional|, call.named.Keys)
  {
    if |sigs| == 0 then None
    else if Accepts(sigs[0], |call.positional|, call.named.Keys) then Some(0)
    else
      match FirstAccepting(sigs[1..], call)
      case None => None
      case Some(i) => Some(i + 1)
  }

  /** `DispatcherFunction.dispatch(*args, **kwargs)`: the first candidate in
      registration order whose signature accepts; `TypeError` otherwise. */
  function Dispatch(mp: Multiplex, call: Call): (r: Result<Resolution, DispatchError>)
    requires Valid(mp)
    ensures r.Failure? ==> r.error == Unmatched
    ensures r.Failure? <==>
      forall j :: 0 <= j < |mp.sigs| ==> !Accepts(mp.sigs[j], |call.positional|, call.named.Keys)
    ensures r.Success? ==> exists i: nat ::
      && FirstAcceptingAt(mp, call, i)
      && r.value == Resolution(mp.candidates[i].tag, Bindings(mp.sigs[i], call))
  {
    match FirstAccepting(mp.sigs, call)
    case None => Failure(Unmatched)
    case Some(i) => Success(Resolution(mp.candidates[i].tag, Bindings(mp.sigs[i], call)))
  }

  /** Candidate `i` accepts the call and no earlier one does. */
  predicate FirstAcceptingAt(mp: Multiplex, call: Call, i: nat) {
    && i < |mp.sigs| <= |mp.candidates|
    && Accepts(mp.sigs[i], |call.positional|, call.named.Keys)
    && forall j :: 0 <= j < i ==> !Accepts(mp.sigs[j], |call.positional|, call.named.Keys)
  }

  /** What a name in the defining scope is bound to: a plain function, or a
      wrapper produced by `dispatcher` that carries its multiplexer. */
  datatype Binding = Plain(f: Func) | Wrapped(mp: Multiplex)

  type Scope = map<string, Binding>

  /** The scope after applying `dispatcher` and the exception it raised, if any. */
  datatype Decorated = Decorated(scope: Scope, error: Option<DispatchError>)

  predicate ValidScope(scope: Scope) {
    forall n :: n in scope && scope[n].Wrapped? ==> Valid(scope[n].mp)
  }

  /** `@dispatcher` applied to a definition, with the frame lookup made an
      explicit scope: an existing wrapper under the same name receives the
      new candidate; a plain function under that name is registered first. */
  function Decorate(scope: Scope, f: Func): (r: Decorated)
    ensures ValidScope(scope) ==> ValidScope(r.scope)
    ensures forall n :: n != f.name ==> (n in r.scope <==> n in scope)
    ensures forall n :: n != f.name && n in scope ==> r.scope[n] == scope[n]
    ensures r.error.None? ==> f.name in r.scope && r.scope[f.name].Wrapped?
    ensures r.error.None? && f.name in scope && scope[f.name].Wrapped? ==>
      r.scope[f.name].mp.candidates == scope[f.name].mp.candidates + [f]
    ensures r.error.None? && f.name in scope && scope[f.name].Plain? ==>
      r.scope[f.name].mp.candidates == [scope[f.name].f, f]
    ensures r.error.None? && f.name !in scope ==> r.scope[f.name].mp.candidates == [f]
  {
    if f.name in scope && scope[f.name].Wrapped? then
      // the multiplexer is shared with the earlier wrapper, so whatever `add`
      // did to it stays visible through the name even when it raised
      var added := Add(scope[f.name].mp, f);
      Decorated(scope[f.name := Wrapped(added.mp)], added.error)
    else
      var seed := if f.name in scope then Add(Fresh, scope[f.name].f) else Added(Fresh, None);
      if seed.error.Some? then Decorated(scope, seed.error)
      else
        var added := Add(seed.mp, f);
        if added.error.Some? then Decorated(scope, added.error)
        else Decorated(scope[f.name := Wrapped(added.mp)], None)
  }

  /** Successive `@dispatcher` definitions, stopping at the first that raises. */
  function DecorateAll(scope: Scope, fs: seq<Func>): (r: Decorated)
    // a name no definition carries is left exactly as it was
    ensures forall n :: (forall f :: f in fs ==> f.name != n) ==>
      (n in r.scope <==> n in scope) && (n in scope ==> r.scope[n] == scope[n])
    ensures ValidScope(scope) ==> ValidScope(r.scope)
    decreases |fs|
  {
    if |fs| == 0 then Decorated(scope, None)
    else
      var d := Decorate(scope, fs[0]);
      assert forall f :: f in fs[1..] ==> f in fs;
      if d.error.Some? then d else DecorateAll(d.scope, fs[1..])
  }

  /** Same-named definitions accumulate: decorating `fs` (all named `name`,
      all introspectable) in a scope without `name` yields one multiplexer
      whose candidates are exactly `fs`, in order, each with its signature. */
  lemma {:induction false} DecorateAllAccumulates(scope: Scope, fs: seq<Func>, name: string, done: seq<Func>)
    requires |done| > 0 ==>
      && name in scope && scope[name].Wrapped? && scope[name].mp.candidates == done
      && scope[name].mp.name == name && Aligned(scope[name].mp)
    requires |done| == 0 ==> name !in scope
    requires forall f :: f in fs ==> f.name == name && CandidateSig(f).Success?
    requires |done| + |fs| > 0
    ensures DecorateAll(scope, fs).error.None?
    ensures var s := DecorateAll(scope, fs).scope;
      name in s && s[name].Wrapped? && s[name].mp.candidates == done + fs && Aligned(s[name].mp)
    decreases |fs|
  {
    if |fs| == 0 {
      assert done + fs == done;
    } else {
      assert fs[0] in fs;
      DecorateExtends(scope, fs[0], name, done);
      var d := Decorate(scope, fs[0]);
      assert (done + [fs[0]]) + fs[1..] == done + fs;
      if |fs| > 1 {
        assert forall f :: f in fs[1..] ==> f in fs;
        DecorateAllAccumulates(d.scope, fs[1..], name, done + [fs[0]]);
      } else {
        assert fs[1..] == [];
      }
    }
  }

  /** One step of the accumulation: the wrapper under `name` gains `f`. */
  lemma DecorateExtends(scope: Scope, f: Func, name: string, done: seq<Func>)
    requires |done| > 0 ==>
      && name in scope && scope[name].Wrapped? && scope[name].mp.candidates == done
      && scope[name].mp.name == name && Aligned(scope[name].mp)
    requires |done| == 0 ==> name !in scope
    requires f.name == name && CandidateSig(f).Success?
    ensures var d := Decorate(scope, f);
      && d.error.None? && name in d.scope && d.scope[name].Wrapped?
      && d.scope[name].mp.candidates == done + [f]
      && d.scope[name].mp.name == name && Aligned(d.scope[name].mp)
  {
    if |done| == 0 {
      assert Aligned(Fresh);
    }
  }

  /** When exactly one candidate accepts, first-match dispatch picks it, as a
      unique-match dispatcher would. */
  lemma {:induction false} DispatchAgreesOnUniqueMatch(mp: Multiplex, call: Call, i: nat)
    requires Valid(mp)
    requires i < |mp.sigs| && Accepts(mp.sigs[i], |call.positional|, call.named.Keys)
    requires forall j :: 0 <= j < |mp.sigs| && j != i ==> !Accepts(mp.sigs[j], |call.positional|, call.named.Keys)
    ensures Dispatch(mp, call) == Success(Resolution(mp.candidates[i].tag, Bindings(mp.sigs[i], call)))
  {
    var r := Dispatch(mp, call);
    var k: nat :| && FirstAcceptingAt(mp, call, k)
             && r.value == Resolution(mp.candidates[k].tag, Bindings(mp.sigs[k], call));
    assert k == i;
  }
}
