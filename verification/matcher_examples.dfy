/** The scenario of the repository's `function_accepts_args` test: six plain
    functions and the three keyword-only calls they are tried against. */
module MatcherExamples {
  import opened Wrappers
  import opened Values
  import opened Signature
  import opened Matcher

  // v0(a) and v1(a) both declare G0; v1b(a, b), v2(a, b, c), v3(a, b, c=None),
  // v4(a=None, b=None, c=None)
  const G0: seq<Param> := [Req("a")]
  const G1b: seq<Param> := [Req("a"), Req("b")]
  const G2: seq<Param> := [Req("a"), Req("b"), Req("c")]
  const G3: seq<Param> := [Req("a"), Req("b"), Opt("c")]
  const G4: seq<Param> := [Opt("a"), Opt("b"), Opt("c")]

  const Q0: Packed := Packed(["a"], map[], None, None)
  const Q1b: Packed := Packed(["a", "b"], map[], None, None)
  const Q2: Packed := Packed(["a", "b", "c"], map[], None, None)
  const Q3: Packed := Packed(["a", "b"], map["c" := NoneV], None, None)
  const Q4: Packed := Packed([], map["a" := NoneV, "b" := NoneV, "c" := NoneV], None, None)

  lemma IntrospectRequiredOnly()
    ensures Introspect(G0, false) == Success(Q0)
    ensures Introspect(G1b, false) == Success(Q1b)
    ensures Introspect(G2, false) == Success(Q2)
  {
    assert G2[1..] == G1b[1..] + [Req("c")];
    assert G2[1..][1..] == [Req("c")] && [Req("c")][1..] == [];
    assert G1b[1..] == [Req("b")] && [Req("b")][1..] == [];
    assert G0[1..] == [];
    assert ArgNames(G0) == ["a"] && ArgNames(G1b) == ["a", "b"] && ArgNames(G2) == ["a", "b", "c"];
    assert DoubleStarNames(G0) == [] && DoubleStarNames(G1b) == [] && DoubleStarNames(G2) == [];
    assert DefaultsMap(G0) == map[] by { assert forall p | p in G0 :: !HasDefault(p); }
    assert DefaultsMap(G1b) == map[] by { assert forall p | p in G1b :: !HasDefault(p); }
    assert DefaultsMap(G2) == map[] by { assert forall p | p in G2 :: !HasDefault(p); }
  }

  lemma IntrospectWithDefaults()
    ensures Introspect(G3, false) == Success(Q3)
    ensures Introspect(G4, false) == Success(Q4)
  {
    assert G3[1..] == [Req("b"), Opt("c")] && G3[1..][1..] == [Opt("c")] && [Opt("c")][1..] == [];
    assert ArgNames(G3) == ["a", "b"];
    assert G4[1..] == [Opt("b"), Opt("c")] && G4[1..][1..] == [Opt("c")];
    assert ArgNames(G4) == [];
    assert DoubleStarNames(G3) == [] by { assert forall p | p in G3 :: !p.VarKeyword?; }
    assert DoubleStarNames(G4) == [] by { assert forall p | p in G4 :: !p.VarKeyword?; }
    assert G3[..2] == G1b && G1b[..1] == G0 && G0[..0] == [];
    assert DefaultsMap(G3) == map["c" := NoneV];
    assert G4[..2] == [Opt("a"), Opt("b")] && G4[..2][..1] == [Opt("a")] && [Opt("a")][..0] == [];
    assert DefaultsMap(G4) == map["a" := NoneV, "b" := NoneV, "c" := NoneV];
  }

  /** The call `{a}` is accepted by v0, v1 and v4 only. */
  lemma AcceptsOnlyA()
    ensures Accepts(Q0, 0, {"a"}) && Accepts(Q4, 0, {"a"})
    ensures !Accepts(Q1b, 0, {"a"}) && !Accepts(Q2, 0, {"a"}) && !Accepts(Q3, 0, {"a"})
  {
    assert Q1b.args[1] == "b" && Q2.args[1] == "b" && Q3.args[1] == "b";
  }

  /** The call `{a, b}` is accepted by v1b, v3 and v4 only. */
  lemma AcceptsAB()
    ensures Accepts(Q1b, 0, {"a", "b"}) && Accepts(Q3, 0, {"a", "b"}) && Accepts(Q4, 0, {"a", "b"})
    ensures !Accepts(Q0, 0, {"a", "b"}) && !Accepts(Q2, 0, {"a", "b"})
  {
    assert "b" !in Q0.args && "b" !in Q0.kwargs;
    assert Q2.args[2] == "c";
  }

  /** The call `{a, c}` is accepted by v4 only. */
  lemma AcceptsAC()
    ensures Accepts(Q4, 0, {"a", "c"})
    ensures !Accepts(Q0, 0, {"a", "c"}) && !Accepts(Q1b, 0, {"a", "c"})
    ensures !Accepts(Q2, 0, {"a", "c"}) && !Accepts(Q3, 0, {"a", "c"})
  {
    assert "c" !in Q0.args && "c" !in Q0.kwargs;
    assert Q1b.args[1] == "b" && Q2.args[1] == "b" && Q3.args[1] == "b";
  }

  /** `function_accepts_args` on the six functions: `{a}` passes v0, v1, v4;
      `{a, b}` passes v1b, v3, v4; `{a, c}` passes v4 alone. */
  lemma FunctionAcceptsScenario()
    ensures FunctionAcceptsArgs(G0, Call([], map["a" := IntV(1)])) == Success(true)
    ensures FunctionAcceptsArgs(G1b, Call([], map["a" := IntV(1)])) == Success(false)
    ensures FunctionAcceptsArgs(G2, Call([], map["a" := IntV(1)])) == Success(false)
    ensures FunctionAcceptsArgs(G3, Call([], map["a" := IntV(1)])) == Success(false)
    ensures FunctionAcceptsArgs(G4, Call([], map["a" := IntV(1)])) == Success(true)
    ensures FunctionAcceptsArgs(G0, Call([], map["a" := IntV(1), "b" := IntV(2)])) == Success(false)
    ensures FunctionAcceptsArgs(G1b, Call([], map["a" := IntV(1), "b" := IntV(2)])) == Success(true)
    ensures FunctionAcceptsArgs(G2, Call([], map["a" := IntV(1), "b" := IntV(2)])) == Success(false)
    ensures FunctionAcceptsArgs(G3, Call([], map["a" := IntV(1), "b" := IntV(2)])) == Success(true)
    ensures FunctionAcceptsArgs(G4, Call([], map["a" := IntV(1), "b" := IntV(2)])) == Success(true)
    ensures FunctionAcceptsArgs(G0, Call([], map["a" := IntV(1), "c" := IntV(3)])) == Success(false)
    ensures FunctionAcceptsArgs(G1b, Call([], map["a" := IntV(1), "c" := IntV(3)])) == Success(false)
    ensures FunctionAcceptsArgs(G2, Call([], map["a" := IntV(1), "c" := IntV(3)])) == Success(false)
    ensures FunctionAcceptsArgs(G3, Call([], map["a" := IntV(1), "c" := IntV(3)])) == Success(false)
    ensures FunctionAcceptsArgs(G4, Call([], map["a" := IntV(1), "c" := IntV(3)])) == Success(true)
  {
    assert map["a" := IntV(1)].Keys == {"a"};
    assert map["a" := IntV(1), "b" := IntV(2)].Keys == {"a", "b"};
    assert map["a" := IntV(1), "c" := IntV(3)].Keys == {"a", "c"};
    IntrospectRequiredOnly();
    IntrospectWithDefaults();
    AcceptsOnlyA();
    AcceptsAB();
    AcceptsAC();
  }
}
