/** The scenarios of the repository's dispatch tests, stated over the model. */
module DispatchExamples {
  import opened Wrappers
  import opened Values
  import opened DispatchErrors
  import opened Signature
  import opened Matcher
  import opened Handler
  import opened Dispatcher
  import opened Seqs
  import opened DispatchLaws

  function Method(n: string, params: seq<Param>): Func { Func(n, [Req("self")] + params, None, n) }

  // ActionH / ActionD / Action: v1(self, a), v2(self, a, b, c=None), ...
  const V1: Func := Method("v1", [Req("a")])
  const V2: Func := Method("v2", [Req("a"), Req("b"), Opt("c")])
  const V3: Func := Method("v3", [Req("a"), Req("b"), Req("c"), Req("d")])
  const V4: Func := Method("v4", [Req("a"), Req("b"), Req("c"), Req("d"), Opt("e")])

  const P1: Packed := Packed(["a"], map[], None, None)
  const P2: Packed := Packed(["a", "b"], map["c" := NoneV], None, None)
  const P3: Packed := Packed(["a", "b", "c", "d"], map[], None, None)
  const P4: Packed := Packed(["a", "b", "c", "d"], map["e" := NoneV], None, None)

  lemma IntrospectV1()
    ensures Introspect(V1.params, false) == Success(P1)
  {
    var ps := V1.params;
    assert ps == [Req("self"), Req("a")];
    assert ps[1..][1..] == [];
    assert ArgNames(ps[1..]) == ["a"];
    assert DoubleStarNames(ps[1..]) == [];
    assert ps[..1] == [Req("self")] && ps[..1][..0] == [];
    assert DefaultsMap(ps[..1]) == map[];
    assert ArgNames(ps) == ["a"];
    assert DoubleStarNames(ps) == [];
    assert DefaultsMap(ps) == map[];
  }

  lemma IntrospectV2()
    ensures Introspect(V2.params, false) == Success(P2)
  {
    var ps := V2.params;
    assert ps == [Req("self"), Req("a"), Req("b"), Opt("c")];
    assert ps[1..][1..][1..][1..] == [];
    assert ArgNames(ps[1..][1..][1..]) == [];
    assert ArgNames(ps[1..][1..]) == ["b"];
    assert ArgNames(ps[1..]) == ["a", "b"];
    assert DoubleStarNames(ps[1..][1..][1..]) == [];
    assert DoubleStarNames(ps[1..][1..]) == [];
    assert DoubleStarNames(ps[1..]) == [];
    assert ps[..3] == [Req("self"), Req("a"), Req("b")];
    assert ps[..3][..2] == [Req("self"), Req("a")];
    assert ps[..3][..2][..1] == [Req("self")] && ps[..3][..2][..1][..0] == [];
    assert DefaultsMap(ps[..3][..2][..1]) == map[];
    assert DefaultsMap(ps[..3][..2]) == map[];
    assert DefaultsMap(ps[..3]) == map[];
    assert ArgNames(ps) == ["a", "b"];
    assert DoubleStarNames(ps) == [];
    assert DefaultsMap(ps) == map["c" := NoneV];
  }

  lemma ArgsV3()
    ensures ArgNames(V3.params) == ["a", "b", "c", "d"]
    ensures DoubleStarNames(V3.params) == []
    ensures DefaultsMap(V3.params) == map[]
  {
    var ps := V3.params;
    assert ps == [Req("self"), Req("a"), Req("b"), Req("c"), Req("d")];
    assert ps[1..][1..][1..][1..][1..] == [];
    assert ArgNames(ps[1..][1..][1..][1..]) == ["d"];
    assert ArgNames(ps[1..][1..][1..]) == ["c", "d"];
    assert ArgNames(ps[1..][1..]) == ["b", "c", "d"];
    assert DoubleStarNames(ps[1..][1..][1..][1..]) == [];
    assert DoubleStarNames(ps[1..][1..][1..]) == [];
    assert DoubleStarNames(ps[1..][1..]) == [];
    assert DoubleStarNames(ps[1..]) == [];
    DefaultsV3();
  }

  lemma DefaultsV3()
    ensures DefaultsMap(V3.params) == map[]
  {
    assert forall p | p in V3.params :: !HasDefault(p);
  }

  lemma IntrospectV3()
    ensures Introspect(V3.params, false) == Success(P3)
  {
    ArgsV3();
  }

  lemma OptionalOnly()
    ensures ArgNames([Opt("e")]) == []
  {
    assert [Opt("e")][1..] == [];
  }

  lemma ArgsV4()
    ensures ArgNames(V4.params) == ["a", "b", "c", "d"]
  {
    ArgsV3();
    OptionalOnly();
    assert V4.params == V3.params + [Opt("e")];
    ArgNamesAppend(V3.params, [Opt("e")]);
  }

  lemma StarsV4()
    ensures DoubleStarNames(V4.params) == []
  {
    assert forall p | p in V4.params :: !p.VarKeyword?;
  }

  lemma DefaultsV4()
    ensures DefaultsMap(V4.params) == map["e" := NoneV]
  {
    DefaultsV3();
    assert V4.params[..5] == V3.params;
  }

  lemma IntrospectV4()
    ensures Introspect(V4.params, false) == Success(P4)
  {
    ArgsV4();
    StarsV4();
    DefaultsV4();
  }

  const ActionHTaxonomy: Taxonomy :=
    map["v1" := Entry({"a"}, {}, false), "v2" := Entry({"a", "b"}, {"c"}, false)]

  lemma SignaturesV1(exact: bool)
    ensures PublicSignatures([V1], exact) == Success(map["v1" := P1])
  {
    IntrospectV1();
    assert Packing(V1, exact) == Success(P1);
    assert [V1][..0] == [];
  }

  lemma SignaturesV12(exact: bool)
    ensures PublicSignatures([V1, V2], exact) == Success(map["v1" := P1, "v2" := P2])
  {
    IntrospectV2();
    assert Packing(V2, exact) == Success(P2);
    assert Public("v2");
    assert [V1, V2][..1] == [V1];
    SignaturesV1(exact);
  }

  lemma SignaturesActionH()
    ensures PublicSignatures([V1, V2], true) == Success(map["v1" := P1, "v2" := P2])
  {
    SignaturesV12(true);
  }

  lemma TaxonomyActionH()
    ensures TaxonomyOf(map["v1" := P1, "v2" := P2]) == ActionHTaxonomy
  {
    assert Elems(P1.args) == {"a"};
    assert Elems(P2.args) == {"a", "b"};
    assert EntryOf(P1) == ActionHTaxonomy["v1"];
    assert EntryOf(P2) == ActionHTaxonomy["v2"];
  }

  lemma NoDefaultNoCollisionActionH()
    ensures DefaultNames(ActionHTaxonomy) == {}
    ensures CollidingNames(ActionHTaxonomy) == {}
  {
    var tax := ActionHTaxonomy;
    assert tax.Keys == {"v1", "v2"};
    assert !DefaultShaped(tax["v1"]) && !DefaultShaped(tax["v2"]);
    assert Reserved !! (tax["v1"].base + tax["v1"].opts);
    assert Reserved !! (tax["v2"].base + tax["v2"].opts);
  }

  lemma InferActionH()
    ensures InferTaxonomy([V1, V2]) == Success(InferredH)
  {
    SignaturesActionH();
    TaxonomyActionH();
    NoDefaultNoCollisionActionH();
  }

  const ActionH: HandlerClass := HandlerClass([V1, V2], true)

  /** The exact test picks v1 for `{a}` and v2 for `{a, b}` and `{a, b, c}`. */
  lemma ClassifyActionH()
    ensures Classify(ActionHTaxonomy, {"a"}, true, None) == Resolved("v1")
    ensures Classify(ActionHTaxonomy, {"a", "b"}, true, None) == Resolved("v2")
    ensures Classify(ActionHTaxonomy, {"a", "b", "c"}, true, None) == Resolved("v2")
  {
    var tax := ActionHTaxonomy;
    assert tax.Keys == {"v1", "v2"};
    assert ExactMatch(tax["v1"], {"a"});
    assert !ExactMatch(tax["v2"], {"a"}) by { assert "b" !in {"a"} - tax["v2"].opts; }
    assert ExactNames(tax, {"a"}) == {"v1"};
    assert !ExactMatch(tax["v1"], {"a", "b"}) by { assert "b" in {"a", "b"} - tax["v1"].opts; }
    assert ExactMatch(tax["v2"], {"a", "b"});
    assert ExactNames(tax, {"a", "b"}) == {"v2"};
    assert !ExactMatch(tax["v1"], {"a", "b", "c"}) by { assert "b" in {"a", "b", "c"} - tax["v1"].opts; }
    assert ExactMatch(tax["v2"], {"a", "b", "c"});
    assert ExactNames(tax, {"a", "b", "c"}) == {"v2"};
  }

  const InferredH: Inferred := Inferred(ActionHTaxonomy, map["v1" := P1, "v2" := P2], None)

  lemma ChooseV1()
    ensures Choose(InferredH, map["a" := IntV(1)], true) == Success(("v1", map["a" := IntV(1)]))
  {
    ClassifyActionH();
    assert map["a" := IntV(1)].Keys == {"a"};
    assert InferredH.sigs["v1"].kwargs == map[];
    assert map[] + map["a" := IntV(1)] == map["a" := IntV(1)];
  }

  lemma ChooseV2WithDefault()
    ensures Choose(InferredH, map["a" := IntV(1), "b" := IntV(2)], true)
      == Success(("v2", map["a" := IntV(1), "b" := IntV(2), "c" := NoneV]))
  {
    ClassifyActionH();
    assert map["a" := IntV(1), "b" := IntV(2)].Keys == {"a", "b"};
    assert P2.kwargs + map["a" := IntV(1), "b" := IntV(2)] == map["a" := IntV(1), "b" := IntV(2), "c" := NoneV];
  }

  lemma ChooseV2Overridden()
    ensures Choose(InferredH, map["a" := IntV(1), "b" := IntV(2), "c" := IntV(3)], true)
      == Success(("v2", map["a" := IntV(1), "b" := IntV(2), "c" := IntV(3)]))
  {
    ClassifyActionH();
    assert map["a" := IntV(1), "b" := IntV(2), "c" := IntV(3)].Keys == {"a", "b", "c"};
    assert InferredH.sigs["v2"].kwargs == map["c" := NoneV];
    assert map["c" := NoneV] + map["a" := IntV(1), "b" := IntV(2), "c" := IntV(3)]
      == map["a" := IntV(1), "b" := IntV(2), "c" := IntV(3)];
  }

  /** `ActionH(a=1)` runs v1 with `a=1`. */
  lemma HandlerRunsV1()
    ensures Construct(ActionH, Call([], map["a" := IntV(1)]))
      == Success(Solved(StrV("UnNamed"), NoMeta, "v1", map["a" := IntV(1)]))
  {
    var call := Call([], map["a" := IntV(1)]);
    assert "a" !in Intercepted;
    assert call.named.Keys !! Intercepted;
    assert ActionH.methods == [V1, V2];
    InferActionH();
    ChooseV1();
    ConstructIsChoose(ActionH, call, InferredH, "v1", map["a" := IntV(1)]);
  }

  /** `ActionH(a=1, b=2)` runs v2, whose `c` keeps its default `None`. */
  lemma HandlerRunsV2WithDefault()
    ensures Construct(ActionH, Call([], map["a" := IntV(1), "b" := IntV(2)]))
      == Success(Solved(StrV("UnNamed"), NoMeta, "v2", map["a" := IntV(1), "b" := IntV(2), "c" := NoneV]))
  {
    var call := Call([], map["a" := IntV(1), "b" := IntV(2)]);
    assert "a" !in Intercepted;
    assert "b" !in Intercepted;
    assert call.named.Keys !! Intercepted;
    assert ActionH.methods == [V1, V2];
    InferActionH();
    ChooseV2WithDefault();
    ConstructIsChoose(ActionH, call, InferredH, "v2", map["a" := IntV(1), "b" := IntV(2), "c" := NoneV]);
  }

  /** `ActionH(a=1, b=2, c=3)` runs v2 with the supplied `c`. */
  lemma HandlerRunsV2Overridden()
    ensures Construct(ActionH, Call([], map["a" := IntV(1), "b" := IntV(2), "c" := IntV(3)]))
      == Success(Solved(StrV("UnNamed"), NoMeta, "v2", map["a" := IntV(1), "b" := IntV(2), "c" := IntV(3)]))
  {
    var call := Call([], map["a" := IntV(1), "b" := IntV(2), "c" := IntV(3)]);
    assert "a" !in Intercepted;
    assert "b" !in Intercepted;
    assert "c" !in Intercepted;
    assert call.named.Keys !! Intercepted;
    assert ActionH.methods == [V1, V2];
    InferActionH();
    ChooseV2Overridden();
    ConstructIsChoose(ActionH, call, InferredH, "v2", map["a" := IntV(1), "b" := IntV(2), "c" := IntV(3)]);
  }

  /** `ActionH(1, 2)` raises: a Handler takes keywords only. */
  lemma HandlerRejectsPositional()
    ensures Construct(ActionH, Call([IntV(1), IntV(2)], map[])) == Failure(PositionalArguments)
  {
  }

  // m(self, x, **kw): the only public method, taking `**`
  const SigM: Packed := Packed(["x", "kw"], map[], Some("kw"), None)
  const TaxM: Taxonomy := map["m" := Entry({"x", "kw"}, {}, true)]
  const InferredM: Inferred := Inferred(TaxM, map["m" := SigM], None)

  lemma EntryM()
    ensures EntryOf(SigM) == TaxM["m"]
  {
    assert Elems(SigM.args) == {"x", "kw"} by {
      assert forall x :: x in SigM.args <==> x == "x" || x == "kw";
    }
  }

  lemma ClassifyM()
    ensures Classify(TaxM, {"a"}, true, None) == Resolved("m")
  {
    assert ExactNames(TaxM, {"a"}) == {};
    assert SpillNames(TaxM) == {"m"};
    assert LeastSpillNames(TaxM, {"a"}) == {"m"};
  }

  /** The lax path does not check that the required names are covered:
      `Cls(a=1)` chooses `m` though its required `x` is not supplied, so
      the binding it reports is one Python's call of `m` would reject. */
  lemma LaxSkipsRequired()
    ensures Choose(InferredM, map["a" := IntV(1)], true) == Success(("m", map["a" := IntV(1)]))
    ensures "x" in InferredM.taxonomy["m"].base && "x" !in map["a" := IntV(1)]
  {
    EntryM();
    ClassifyM();
    assert map["a" := IntV(1)].Keys == {"a"};
    assert map[] + map["a" := IntV(1)] == map["a" := IntV(1)];
  }
}
