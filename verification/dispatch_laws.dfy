/** Facts relating the dispatchers' entry points to the steps they are
    built from. */
module DispatchLaws {
  import opened Wrappers
  import opened Values
  import opened Signature
  import opened DispatchErrors
  import opened Matcher
  import opened Handler
  import opened Dispatcher

  /** A keyword set that exactly one method matches exactly constructs that
      method, whatever the intercepted keywords were; it receives its
      defaults overridden by the remaining keywords. */
  lemma ConstructUniqueExactMatch(cls: HandlerClass, call: Call, inf: Inferred, m: string)
    requires |call.positional| == 0
    requires InferTaxonomy(cls.methods) == Success(inf)
    requires !BlankRequest(call.named)
    requires ExactNames(inf.taxonomy, call.named.Keys - Intercepted) == {m}
    ensures Construct(cls, call) == Success(Solved(Label(call.named), MetaOf(call.named), m,
                                                   inf.sigs[m].kwargs + (call.named - Intercepted)))
  {
    var kw := call.named - Intercepted;
    assert kw.Keys == call.named.Keys - Intercepted;
    var c := Classify(inf.taxonomy, kw.Keys, cls.lax, inf.default);
    assert c == Resolved(m);
  }

  /** Outside the early `inspect` stop, instantiation runs the chosen method
      with the label and metadata read from the intercepted keywords. */
  lemma InstantiateIsChoose(cls: HandlerClass, inf: Inferred, named: map<string, Value>,
                            style: string, bindings: map<string, Value>)
    requires WellInferred(cls.methods, inf)
    requires !BlankRequest(named)
    requires Choose(inf, named - Intercepted, cls.lax) == Success((style, bindings))
    ensures Instantiate(cls, inf, named) == Success(Solved(Label(named), MetaOf(named), style, bindings))
  {
  }

  /** The intercepted keywords never steer the choice: two keyword sets that
      agree outside them construct the same method with the same arguments. */
  lemma InterceptedDoNotSteer(cls: HandlerClass, inf: Inferred, a: map<string, Value>, b: map<string, Value>)
    requires WellInferred(cls.methods, inf)
    requires a - Intercepted == b - Intercepted
    requires !BlankRequest(a) && !BlankRequest(b)
    ensures Instantiate(cls, inf, a).Success? <==> Instantiate(cls, inf, b).Success?
    ensures Instantiate(cls, inf, a).Success? ==>
      && Instantiate(cls, inf, a).value.style == Instantiate(cls, inf, b).value.style
      && Instantiate(cls, inf, a).value.bindings == Instantiate(cls, inf, b).value.bindings
  {
    assert (a - Intercepted).Keys == a.Keys - Intercepted;
    assert (b - Intercepted).Keys == b.Keys - Intercepted;
  }

  /** Without positional arguments or intercepted keywords, constructing a
      Handler is inferring the taxonomy and choosing by the keyword names. */
  lemma ConstructIsChoose(cls: HandlerClass, call: Call, inf: Inferred, style: string, bindings: map<string, Value>)
    requires |call.positional| == 0
    requires call.named.Keys !! Intercepted
    requires InferTaxonomy(cls.methods) == Success(inf)
    requires Choose(inf, call.named, cls.lax) == Success((style, bindings))
    ensures Construct(cls, call) == Success(Solved(StrV("UnNamed"), NoMeta, style, bindings))
  {
    NothingIntercepted(call.named);
    InstantiateIsChoose(cls, inf, call.named, style, bindings);
    assert Construct(cls, call) == Instantiate(cls, inf, call.named);
  }

  /** Without intercepted keywords the label and metadata take their defaults. */
  lemma NothingIntercepted(named: map<string, Value>)
    requires named.Keys !! Intercepted
    ensures named - Intercepted == named
    ensures !BlankRequest(named)
    ensures Label(named) == StrV("UnNamed") && MetaOf(named) == NoMeta
  {
    assert "inspect" !in named && "_name" !in named && "_meta" !in named;
  }

  /** A unique-match dispatcher resolves a call exactly when one public
      method accepts it, and then binds the call against that method. */
  lemma DispatchUniqueIsSingle(methods: seq<Func>, call: Call, sigs: map<string, Packed>, target: string)
    requires PublicSignatures(methods, false) == Success(sigs)
    requires AcceptingNames(sigs, call) == {target}
    ensures DispatchUnique(methods, call) == Success(Resolution(target, Bindings(sigs[target], call)))
  {
    assert target in AcceptingNames(sigs, call);
  }

  /** With the signatures known and no accepting method, the call fails as unmatched. */
  lemma DispatchUniqueIsUnmatched(methods: seq<Func>, call: Call, sigs: map<string, Packed>)
    requires PublicSignatures(methods, false) == Success(sigs)
    requires AcceptingNames(sigs, call) == {}
    ensures DispatchUnique(methods, call) == Failure(Unmatched)
  {
  }

  /** With the signatures known and several accepting methods, the call fails
      naming all of them. */
  lemma DispatchUniqueIsRedundant(methods: seq<Func>, call: Call, sigs: map<string, Packed>, names: set<string>)
    requires PublicSignatures(methods, false) == Success(sigs)
    requires AcceptingNames(sigs, call) == names && |names| > 1
    ensures DispatchUnique(methods, call) == Failure(Redundant(names))
  {
  }

  /** The scope holding just one `dispatcher` wrapper under `name`. */
  function Registered(name: string, fs: seq<Func>, sigs: seq<Packed>): Scope {
    map[name := Wrapped(Multiplex(name, fs, sigs))]
  }

  /** The first `@dispatcher` definition of a name registers it alone. */
  lemma DecorateFirst(f: Func, sig: Packed)
    requires f.name != ""
    requires CandidateSig(f) == Success(sig)
    ensures Decorate(map[], f) == Decorated(Registered(f.name, [f], [sig]), None)
  {
    assert [] + [f] == [f] && [] + [sig] == [sig];
  }

  /** A later definition of the same name is appended with its signature. */
  lemma DecorateNext(f: Func, sig: Packed, fs: seq<Func>, sigs: seq<Packed>)
    requires f.name != ""
    requires CandidateSig(f) == Success(sig)
    ensures Decorate(Registered(f.name, fs, sigs), f) == Decorated(Registered(f.name, fs + [f], sigs + [sig]), None)
  {
  }

  /** Successive same-named definitions, each introspectable, accumulate in
      one wrapper: the candidates in order, each with its own signature. */
  lemma {:induction false} DecorateAllRegisters(name: string, done: seq<Func>, dsigs: seq<Packed>,
                                                fs: seq<Func>, sigs: seq<Packed>)
    requires name != "" && |fs| == |sigs|
    requires forall i :: 0 <= i < |fs| ==> fs[i].name == name && CandidateSig(fs[i]) == Success(sigs[i])
    ensures DecorateAll(Registered(name, done, dsigs), fs) == Decorated(Registered(name, done + fs, dsigs + sigs), None)
    decreases |fs|
  {
    if |fs| == 0 {
      assert done + fs == done && dsigs + sigs == dsigs;
    } else {
      DecorateNext(fs[0], sigs[0], done, dsigs);
      assert (done + [fs[0]]) + fs[1..] == done + fs;
      assert (dsigs + [sigs[0]]) + sigs[1..] == dsigs + sigs;
      DecorateAllRegisters(name, done + [fs[0]], dsigs + [sigs[0]], fs[1..], sigs[1..]);
    }
  }

  /** First-match dispatch runs the first accepting candidate. */
  lemma DispatchRunsFirst(mp: Multiplex, call: Call, i: nat)
    requires Valid(mp)
    requires FirstAcceptingAt(mp, call, i)
    ensures Dispatch(mp, call) == Success(Resolution(mp.candidates[i].tag, Bindings(mp.sigs[i], call)))
  {
    var r := Dispatch(mp, call);
    var k: nat :| && FirstAcceptingAt(mp, call, k)
             && r.value == Resolution(mp.candidates[k].tag, Bindings(mp.sigs[k], call));
    assert !(k < i) && !(i < k);
  }
}

