/** The legacy `Handler`: multiple dispatch over a class's methods by the
    SET of keyword names supplied. The taxonomy maps every public method to
    its required names (`base`), its optional names (`opts`) and whether it
    takes `**kwargs` (the `kwargs` flag). */
module Handler {
  import opened Wrappers
  import opened Values
  import opened Seqs
  import opened DispatchErrors
  import opened Signature
  import opened Matcher

  /** One taxonomy entry `{base, opts, kwargs?}`; `spill` is the presence of
      the `kwargs` flag. */
  datatype Entry = Entry(base: set<string>, opts: set<string>, spill: bool)

  type Taxonomy = map<string, Entry>

  /** The outcome of `_classify`. */
  datatype Classification = Resolved(name: string) | NoMatch | Ambiguous(names: set<string>)

  /** The exact test of `_classify`. An entry carrying the `kwargs` flag never
      passes it: its key set is not `{'base', 'opts'}`. */
  predicate ExactMatch(e: Entry, keys: set<string>) {
    && !e.spill
    && keys - e.opts == e.base
    && keys - e.base <= e.opts
  }

  /** The exact test says: the supplied names are the required ones plus
      some of the optional ones, and no name is both. */
  lemma ExactMatchIsInterval(e: Entry, keys: set<string>)
    ensures ExactMatch(e, keys) <==>
      !e.spill && e.base !! e.opts && e.base <= keys <= e.base + e.opts
  {
    if ExactMatch(e, keys) {
      forall x | x in e.base
        ensures x !in e.opts && x in keys
      {
        assert x in keys - e.opts;
      }
    }
    if !e.spill && e.base !! e.opts && e.base <= keys <= e.base + e.opts {
      assert keys - e.opts == e.base;
    }
  }

  /** The spillover score of an entry: the supplied names it does not declare. */
  function Spillover(e: Entry, keys: set<string>): nat {
    |keys - (e.base + e.opts)|
  }

  function ExactNames(tax: Taxonomy, keys: set<string>): set<string> {
    set n | n in tax && ExactMatch(tax[n], keys)
  }

  function SpillNames(tax: Taxonomy): set<string> {
    set n | n in tax && tax[n].spill
  }

  /** A `kwargs`-flagged entry whose spillover is no larger than any other's. */
  predicate LeastSpill(tax: Taxonomy, keys: set<string>, n: string) {
    && n in tax
    && tax[n].spill
    && forall m :: m in tax && tax[m].spill ==> Spillover(tax[n], keys) <= Spillover(tax[m], keys)
  }

  function LeastSpillNames(tax: Taxonomy, keys: set<string>): set<string> {
    set n | n in tax && LeastSpill(tax, keys, n)
  }

  /** `Handler._classify(*keys)` with the class's `lax` flag and `_default`. */
  function Classify(tax: Taxonomy, keys: set<string>, lax: bool, default: Option<string>): (r: Classification)
    ensures r.Resolved? ==> r.name in tax
    ensures |ExactNames(tax, keys)| == 1 ==> r.Resolved? && ExactNames(tax, keys) == {r.name}
    ensures |ExactNames(tax, keys)| > 1 ==> r == Ambiguous(ExactNames(tax, keys))
    ensures |ExactNames(tax, keys)| == 0 && !lax ==> r == NoMatch
    ensures |ExactNames(tax, keys)| == 0 && lax ==> (r == NoMatch <==> SpillNames(tax) == {})
    ensures |ExactNames(tax, keys)| == 0 && lax && r.Resolved? ==>
      && r.name in LeastSpillNames(tax, keys)
      && (LeastSpillNames(tax, keys) == {r.name} || default == Some(r.name))
    ensures |ExactNames(tax, keys)| == 0 && lax && r.Ambiguous? ==>
      && r.names == LeastSpillNames(tax, keys)
      && |r.names| > 1
      && !(default.Some? && default.value in r.names)
  {
    var matches := ExactNames(tax, keys);
    if |matches| == 0 then
      if !lax then NoMatch
      else
        var spills := SpillNames(tax);
        if spills == {} then NoMatch
        else
          var scores := set n | n in spills :: Spillover(tax[n], keys);
          assert scores != {} by {
            var w :| w in spills;
            assert Spillover(tax[w], keys) in scores;
          }
          var least := MinOf(scores);
          var ties := set n | n in spills && Spillover(tax[n], keys) == least;
          assert ties == LeastSpillNames(tax, keys) by {
            forall n | n in spills
              ensures Spillover(tax[n], keys) in scores
            {
            }
          }
          assert ties != {} by {
            var w :| w in spills && Spillover(tax[w], keys) == least;
            assert w in ties;
          }
          if |ties| == 1 then Resolved(Single(ties))
          // a tie is broken by the default handler when it is among the tied
          else if default.Some? && default.value in ties then Resolved(default.value)
          else Ambiguous(ties)
    else if |matches| > 1 then Ambiguous(matches)
    else Resolved(Single(matches))
  }

  /** Method names starting with `_` are never dispatch targets. */
  predicate Public(name: string) {
    !(|name| > 0 && name[0] == '_')
  }

  /** The signature the engine uses for one method: the introspected one, or
      the one a decorator attached when `usePreset` is set. Introspection runs
      (and may fail) even when a preset exists. */
  function Packing(f: Func, usePreset: bool): (r: Result<Packed, DispatchError>)
    ensures r.Failure? <==> |DoubleStarNames(f.params)| > 1
    ensures r.Failure? ==> r.error == Malformed(DoubleStarNames(f.params))
  {
    var sig :- Introspect(f.params, false);
    Success(if usePreset && f.preset.Some? then f.preset.value else sig)
  }

  /** The signatures of the public methods, keyed by name, computed in member
      order: the first malformed method raises. */
  function PublicSignatures(methods: seq<Func>, usePreset: bool): (r: Result<map<string, Packed>, DispatchError>)
    ensures r.Failure? <==>
      exists f :: f in methods && Public(f.name) && |DoubleStarNames(f.params)| > 1
    ensures r.Failure? ==> r.error.Malformed?
    ensures r.Success? ==> r.value.Keys == (set f | f in methods && Public(f.name) :: f.name)
    ensures r.Success? ==> forall n :: n in r.value ==>
      exists f :: f in methods && f.name == n && Packing(f, usePreset) == Success(r.value[n])
  {
    if |methods| == 0 then Success(map[])
    else
      var m := |methods| - 1;
      var f := methods[m];
      assert methods == methods[..m] + [f];
      var init :- PublicSignatures(methods[..m], usePreset);
      if !Public(f.name) then Success(init)
      else
        var sig :- Packing(f, usePreset);
        Success(init[f.name := sig])
  }

  function EntryOf(sig: Packed): Entry {
    Entry(Elems(sig.args), sig.kwargs.Keys, sig.doubleStar.Some?)
  }

  /** The names intercepted for the Handler itself (`_internals` values). */
  const Reserved: set<string> := {"_name", "_meta"}

  /** An inferred taxonomy with the signatures it came from and the default. */
  datatype Inferred = Inferred(taxonomy: Taxonomy, sigs: map<string, Packed>, default: Option<string>)

  /** An entry that accepts only `**kwargs`. */
  predicate DefaultShaped(e: Entry) {
    e.spill && e.base == {} && e.opts == {}
  }

  function TaxonomyOf(sigs: map<string, Packed>): (tax: Taxonomy)
    ensures tax.Keys == sigs.Keys
    ensures forall n :: n in tax ==> tax[n] == EntryOf(sigs[n])
  {
    map n | n in sigs :: EntryOf(sigs[n])
  }

  function DefaultNames(tax: Taxonomy): (r: set<string>)
    ensures forall n :: n in r <==> n in tax && DefaultShaped(tax[n])
  {
    set n | n in tax && DefaultShaped(tax[n])
  }

  function CollidingNames(tax: Taxonomy): (r: set<string>)
    ensures forall n :: n in r <==> n in tax && !(Reserved !! (tax[n].base + tax[n].opts))
  {
    set n | n in tax && !(Reserved !! (tax[n].base + tax[n].opts))
  }

  /** The shape of every inferred taxonomy: one entry per public method,
      built from that method's signature, none naming a reserved keyword. */
  predicate WellInferred(methods: seq<Func>, inf: Inferred) {
    && inf.taxonomy.Keys == inf.sigs.Keys
    && inf.sigs.Keys == (set f | f in methods && Public(f.name) :: f.name)
    && (forall n :: n in inf.taxonomy ==> inf.taxonomy[n] == EntryOf(inf.sigs[n]))
    && (forall n :: n in inf.taxonomy ==> Reserved !! (inf.taxonomy[n].base + inf.taxonomy[n].opts))
  }

  /** `Handler._taxonomy_inference`. */
  function InferTaxonomy(methods: seq<Func>): (r: Result<Inferred, DispatchError>)
    ensures PublicSignatures(methods, true).Failure? ==> r.Failure? && r.error.Malformed?
    ensures PublicSignatures(methods, true).Failure? ==> r == Failure(PublicSignatures(methods, true).error)
    // the checks run in the source's order: malformed, then several defaults, then collisions
    ensures PublicSignatures(methods, true).Success? ==>
      var tax := TaxonomyOf(PublicSignatures(methods, true).value);
      && (r.Success? <==> |DefaultNames(tax)| <= 1 && CollidingNames(tax) == {})
      && (|DefaultNames(tax)| > 1 ==> r == Failure(ManyDefaults(DefaultNames(tax))))
      && (|DefaultNames(tax)| <= 1 && CollidingNames(tax) != {} ==>
            r == Failure(ReservedCollision(CollidingNames(tax))))
      && (r.Success? ==> r.value.sigs == PublicSignatures(methods, true).value && r.value.taxonomy == tax)
    ensures r.Success? ==> WellInferred(methods, r.value)
    ensures r.Success? ==> forall n :: n in r.value.sigs ==>
      exists f :: f in methods && f.name == n && Packing(f, true) == Success(r.value.sigs[n])
    ensures r.Success? && r.value.default.Some? ==>
      && r.value.default.value in r.value.taxonomy
      && forall n :: n in r.value.taxonomy && DefaultShaped(r.value.taxonomy[n]) ==> n == r.value.default.value
    ensures r.Success? && r.value.default.Some? ==> DefaultShaped(r.value.taxonomy[r.value.default.value])
    ensures r.Success? && r.value.default.None? ==>
      forall n :: n in r.value.taxonomy ==> !DefaultShaped(r.value.taxonomy[n])
    ensures r.Failure? && r.error.ManyDefaults? ==> |r.error.names| > 1
    ensures r.Failure? && r.error.ReservedCollision? ==> r.error.methods != {}
  {
    var sigs :- PublicSignatures(methods, true);
    var tax := TaxonomyOf(sigs);
    var defaults := DefaultNames(tax);
    if |defaults| > 1 then Failure(ManyDefaults(defaults))
    else
      var collisions := CollidingNames(tax);
      if collisions != {} then Failure(ReservedCollision(collisions))
      else if |defaults| == 1 then Success(Inferred(tax, sigs, Some(Single(defaults))))
      else
        assert defaults == {};
        Success(Inferred(tax, sigs, None))
  }

  /** Under Python 3 the `**` parameter is itself a required name (it has no
      default), so a `**kwargs`-only method has a non-empty `base` and never
      becomes the default: without decorator-attached signatures, an inferred
      taxonomy has no default unless the `**` parameter is called `self`. */
  lemma IntrospectedTaxonomyHasNoDefault(methods: seq<Func>)
    requires forall f :: f in methods ==> f.preset.None? && VarKeyword("self") !in f.params
    requires InferTaxonomy(methods).Success?
    ensures InferTaxonomy(methods).value.default.None?
  {
    var inf := InferTaxonomy(methods).value;
    if inf.default.Some? {
      var d := inf.default.value;
      var f :| f in methods && f.name == d && Packing(f, true) == Success(inf.sigs[d]);
      SpillImpliesRequired(f);
    }
  }

  /** An introspected `**` parameter not named `self` is a required name. */
  lemma SpillImpliesRequired(f: Func)
    requires f.preset.None? && VarKeyword("self") !in f.params
    requires Packing(f, true).Success? && Packing(f, true).value.doubleStar.Some?
    ensures Packing(f, true).value.doubleStar.value in Packing(f, true).value.args
  {
    var sig := Introspect(f.params, false).value;
    assert Packing(f, true).value == sig;
    assert VarKeyword(sig.doubleStar.value) in f.params;
  }

  /** The `{}` a Handler stores when `_meta` is absent or falsy, or the given value. */
  datatype Meta = NoMeta | MetaValue(v: Value)

  /** A constructed Handler instance: its label, its metadata, and either the
      chosen method (`style`) with the arguments it receives, or nothing when
      construction stopped early under `inspect`. */
  datatype Instance =
    | Solved(name: Value, meta: Meta, style: string, bindings: map<string, Value>)
    | Blank(name: Value, meta: Meta)

  /** A Handler subclass: its members in `getmembers` order and its `lax` flag. */
  datatype HandlerClass = HandlerClass(methods: seq<Func>, lax: bool)

  /** Keywords `Handler.__init__` pops before classifying. */
  const Intercepted: set<string> := {"classify_fail", "inspect", "_name", "_meta"}

  /** Construction stops early: `inspect` is truthy and no other keyword is left. */
  predicate BlankRequest(named: map<string, Value>) {
    "inspect" in named && Truthy(named["inspect"]) && named - Intercepted == map[]
  }

  /** The instance label: `_name` when it is truthy, otherwise `"UnNamed"`. */
  function Label(named: map<string, Value>): (v: Value)
    ensures Truthy(v)
  {
    if "_name" in named && Truthy(named["_name"]) then named["_name"] else StrV("UnNamed")
  }

  /** The metadata: `_meta` when it is truthy, otherwise the empty `{}`. */
  function MetaOf(named: map<string, Value>): Meta {
    if "_meta" in named && Truthy(named["_meta"]) then MetaValue(named["_meta"]) else NoMeta
  }

  /** Classify the remaining keywords against an inferred taxonomy and
      collect what the chosen method receives: its defaults, overridden by
      the keywords. */
  function Choose(inf: Inferred, kw: map<string, Value>, lax: bool): (r: Result<(string, map<string, Value>), DispatchError>)
    requires inf.taxonomy.Keys == inf.sigs.Keys
    requires forall n :: n in inf.taxonomy ==> inf.taxonomy[n] == EntryOf(inf.sigs[n])
    ensures r.Success? <==> Classify(inf.taxonomy, kw.Keys, lax, inf.default).Resolved?
    ensures Classify(inf.taxonomy, kw.Keys, lax, inf.default) == NoMatch ==> r == Failure(Unmatched)
    ensures Classify(inf.taxonomy, kw.Keys, lax, inf.default).Ambiguous? ==>
      r == Failure(Redundant(Classify(inf.taxonomy, kw.Keys, lax, inf.default).names))
    ensures r.Success? ==> r.value.0 in inf.sigs
    ensures r.Success? ==> Classify(inf.taxonomy, kw.Keys, lax, inf.default) == Resolved(r.value.0)
    ensures r.Success? ==> r.value.1.Keys == inf.taxonomy[r.value.0].opts + kw.Keys
    ensures r.Success? ==> forall k :: k in kw ==> r.value.1[k] == kw[k]
    ensures r.Success? ==> forall k :: k in inf.sigs[r.value.0].kwargs && k !in kw ==>
      k in r.value.1 && r.value.1[k] == inf.sigs[r.value.0].kwargs[k]
    ensures r.Failure? ==> r.error == Unmatched || r.error.Redundant?
  {
    match Classify(inf.taxonomy, kw.Keys, lax, inf.default)
    case Resolved(style) =>
      assert inf.taxonomy[style] == EntryOf(inf.sigs[style]);
      Success((style, inf.sigs[style].kwargs + kw))
    case NoMatch => Failure(Unmatched)
    case Ambiguous(names) => Failure(Redundant(names))
  }

  /** The body of `Handler.__init__` once the taxonomy is inferred: pop
      the intercepted keywords, stop early under `inspect` when nothing is
      left, otherwise classify what remains and bind. */
  function Instantiate(cls: HandlerClass, inf: Inferred, named: map<string, Value>): (r: Result<Instance, DispatchError>)
    requires WellInferred(cls.methods, inf)
    ensures r.Success? ==> Truthy(r.value.name)
    ensures r.Success? ==> r.value.name == Label(named) && r.value.meta == MetaOf(named)
    ensures r.Success? && "_name" in named && Truthy(named["_name"]) ==> r.value.name == named["_name"]
    ensures r.Success? && !("_meta" in named && Truthy(named["_meta"])) ==> r.value.meta == NoMeta
    ensures (r.Success? && r.value.Blank?) <==> BlankRequest(named)
    // the intercepted keywords are removed before classifying
    ensures !BlankRequest(named) ==>
      (r.Success? <==> Classify(inf.taxonomy, named.Keys - Intercepted, cls.lax, inf.default).Resolved?)
    ensures r.Success? && r.value.Solved? ==>
      Classify(inf.taxonomy, named.Keys - Intercepted, cls.lax, inf.default) == Resolved(r.value.style)
    ensures !BlankRequest(named) && r.Failure? ==> r.error == Choose(inf, named - Intercepted, cls.lax).error
    ensures r.Success? && r.value.Solved? ==>
      Choose(inf, named - Intercepted, cls.lax) == Success((r.value.style, r.value.bindings))
    ensures r.Success? && r.value.Solved? ==>
      && Public(r.value.style)
      && r.value.style in (set f | f in cls.methods && Public(f.name) :: f.name)
      && (forall k :: k in named && k !in Intercepted ==>
            k in r.value.bindings && r.value.bindings[k] == named[k])
      && Reserved !! r.value.bindings.Keys
  {
    var kw := named - Intercepted;
    assert kw.Keys == named.Keys - Intercepted;
    var inspect := "inspect" in named && Truthy(named["inspect"]);
    if kw == map[] && inspect then Success(Blank(Label(named), MetaOf(named)))
    else
      var chosen :- Choose(inf, kw, cls.lax);
      var style := chosen.0;
      assert Reserved !! inf.taxonomy[style].opts;
      assert style in (set f | f in cls.methods && Public(f.name) :: f.name);
      assert forall k :: k in named && k !in Intercepted ==> k in kw;
      Success(Solved(Label(named), MetaOf(named), style, chosen.1))
  }

  /** `Handler.__init__(*args, **kwargs)`, with the chosen method's code left
      opaque: the instance records which method runs and what it receives. */
  function Construct(cls: HandlerClass, call: Call): (r: Result<Instance, DispatchError>)
    ensures |call.positional| > 0 ==> r == Failure(PositionalArguments)
    ensures |call.positional| == 0 && InferTaxonomy(cls.methods).Failure? ==>
      r == Failure(InferTaxonomy(cls.methods).error)
    ensures |call.positional| == 0 && InferTaxonomy(cls.methods).Success? ==>
      ((r.Success? && r.value.Blank?) <==> BlankRequest(call.named))
    ensures |call.positional| == 0 && InferTaxonomy(cls.methods).Success? && !BlankRequest(call.named) ==>
      var inf := InferTaxonomy(cls.methods).value;
      (r.Success? <==> Classify(inf.taxonomy, call.named.Keys - Intercepted, cls.lax, inf.default).Resolved?)
    ensures r.Success? && r.value.Solved? ==>
      && InferTaxonomy(cls.methods).Success?
      && var inf := InferTaxonomy(cls.methods).value;
         Classify(inf.taxonomy, call.named.Keys - Intercepted, cls.lax, inf.default) == Resolved(r.value.style)
    ensures r.Success? ==> Truthy(r.value.name)
    ensures r.Success? && "_name" in call.named && Truthy(call.named["_name"]) ==>
      r.value.name == call.named["_name"]
    ensures r.Success? && !("_meta" in call.named && Truthy(call.named["_meta"])) ==>
      r.value.meta == NoMeta
    ensures r.Success? && r.value.Solved? ==>
      && Public(r.value.style)
      && r.value.style in (set f | f in cls.methods && Public(f.name) :: f.name)
      && (forall k :: k in call.named && k !in Intercepted ==>
            k in r.value.bindings && r.value.bindings[k] == call.named[k])
      && Reserved !! r.value.bindings.Keys
  {
    if |call.positional| > 0 then Failure(PositionalArguments)
    else
      var inf :- InferTaxonomy(cls.methods);
      Instantiate(cls, inf, call.named)
  }
}
