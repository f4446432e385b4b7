/** The scenarios of the repository's tests for `DispatcherBase` and the
    `dispatcher` decorator, stated over the model. */
module DispatcherExamples {
  import opened Wrappers
  import opened Values
  import opened Seqs
  import opened DispatchErrors
  import opened Signature
  import opened Matcher
  import opened Handler
  import opened Dispatcher
  import opened DispatchExamples
  import opened DispatchLaws

  // ActionD: v1(self, a), v2(self, a, b, c=None), v3(self, a, b, c, d), v4(self, a, b, c, d, e=None)
  const ActionD: seq<Func> := [V1, V2, V3, V4]
  const ActionDSigs: map<string, Packed> := map["v1" := P1, "v2" := P2, "v3" := P3, "v4" := P4]

  lemma SignaturesThree()
    ensures PublicSignatures([V1, V2, V3], false) == Success(map["v1" := P1, "v2" := P2, "v3" := P3])
  {
    IntrospectV3();
    assert Public("v3");
    assert [V1, V2, V3][..2] == [V1, V2];
    SignaturesV12(false);
  }

  lemma SignaturesActionD()
    ensures PublicSignatures(ActionD, false) == Success(ActionDSigs)
  {
    IntrospectV4();
    assert Public("v4");
    assert ActionD[..3] == [V1, V2, V3];
    SignaturesThree();
  }

  lemma AcceptingKeywordA()
    ensures AcceptingNames(ActionDSigs, Call([], map["a" := IntV(1)])) == {"v1"}
  {
    assert map["a" := IntV(1)].Keys == {"a"};
    assert Accepts(P1, 0, {"a"});
    assert !Accepts(P2, 0, {"a"}) by { assert P2.args[1] == "b"; }
    assert !Accepts(P3, 0, {"a"}) by { assert P3.args[1] == "b"; }
    assert !Accepts(P4, 0, {"a"}) by { assert P4.args[1] == "b"; }
  }

  lemma AcceptingTwo()
    ensures AcceptingNames(ActionDSigs, Call([IntV(1), IntV(2)], map[])) == {"v2"}
  {
    assert !Accepts(P1, 2, {}) && Accepts(P2, 2, {});
    assert !Accepts(P3, 2, {}) by { assert P3.args[2] == "c"; }
    assert !Accepts(P4, 2, {}) by { assert P4.args[2] == "c"; }
  }

  lemma AcceptingThree()
    ensures AcceptingNames(ActionDSigs, Call([IntV(1), IntV(2), IntV(3)], map[])) == {}
  {
    assert !Accepts(P1, 3, {}) && !Accepts(P2, 3, {});
    assert !Accepts(P3, 3, {}) by { assert P3.args[3] == "d"; }
    assert !Accepts(P4, 3, {}) by { assert P4.args[3] == "d"; }
  }

  lemma AcceptingFour()
    ensures AcceptingNames(ActionDSigs, Call([IntV(1), IntV(2), IntV(3), IntV(4)], map[])) == {"v3", "v4"}
  {
    assert !Accepts(P1, 4, {}) && !Accepts(P2, 4, {}) && Accepts(P3, 4, {}) && Accepts(P4, 4, {});
  }

  lemma BindKeywordA()
    ensures Bindings(P1, Call([], map["a" := IntV(1)])) == map["a" := IntV(1)]
  {
    assert P1.args[..0] == [];
    assert map[] + map["a" := IntV(1)] + map[] == map["a" := IntV(1)];
  }

  lemma ZipTwo()
    ensures Zip(["a", "b"], [IntV(1), IntV(2)]) == map["a" := IntV(1), "b" := IntV(2)]
  {
    assert ["a", "b"][..1] == ["a"] && ["a"][..0] == [];
    assert [IntV(1), IntV(2)][..1] == [IntV(1)] && [IntV(1)][..0] == [];
  }

  lemma BindTwo()
    ensures Bindings(P2, Call([IntV(1), IntV(2)], map[])) == map["a" := IntV(1), "b" := IntV(2), "c" := NoneV]
  {
    assert P2.args[..2] == ["a", "b"];
    ZipTwo();
    assert P2.kwargs + map[] + map["a" := IntV(1), "b" := IntV(2)]
      == map["a" := IntV(1), "b" := IntV(2), "c" := NoneV];
  }

  /** `ActionD(a=1)` runs v1 with `a=1`. */
  lemma DispatcherBaseByKeyword()
    ensures DispatchUnique(ActionD, Call([], map["a" := IntV(1)]))
      == Success(Resolution("v1", map["a" := IntV(1)]))
  {
    assert ActionDSigs["v1"] == P1;
    BindKeywordA();
    SignaturesActionD();
    AcceptingKeywordA();
    DispatchUniqueIsSingle(ActionD, Call([], map["a" := IntV(1)]), ActionDSigs, "v1");
  }

  const KwAB: map<string, Value> := map["a" := IntV(1), "b" := IntV(2)]
  const KwABC: map<string, Value> := map["a" := IntV(1), "b" := IntV(2), "c" := IntV(3)]

  lemma AcceptingKeywordsAB()
    ensures AcceptingNames(ActionDSigs, Call([], KwAB)) == {"v2"}
  {
    assert KwAB.Keys == {"a", "b"};
    assert !Accepts(P1, 0, {"a", "b"}) by { assert "b" !in P1.args && "b" !in P1.kwargs; }
    assert Accepts(P2, 0, {"a", "b"});
    assert !Accepts(P3, 0, {"a", "b"}) by { assert P3.args[2] == "c"; }
    assert !Accepts(P4, 0, {"a", "b"}) by { assert P4.args[2] == "c"; }
  }

  lemma AcceptingKeywordsABC()
    ensures AcceptingNames(ActionDSigs, Call([], KwABC)) == {"v2"}
  {
    assert KwABC.Keys == {"a", "b", "c"};
    assert !Accepts(P1, 0, {"a", "b", "c"}) by { assert "b" !in P1.args && "b" !in P1.kwargs; }
    assert Accepts(P2, 0, {"a", "b", "c"});
    assert !Accepts(P3, 0, {"a", "b", "c"}) by { assert P3.args[3] == "d"; }
    assert !Accepts(P4, 0, {"a", "b", "c"}) by { assert P4.args[3] == "d"; }
  }

  lemma BindKeywordsAB()
    ensures Bindings(P2, Call([], KwAB)) == map["a" := IntV(1), "b" := IntV(2), "c" := NoneV]
  {
    assert P2.args[..0] == [];
    assert P2.kwargs + KwAB + map[] == map["a" := IntV(1), "b" := IntV(2), "c" := NoneV];
  }

  lemma BindKeywordsABC()
    ensures Bindings(P2, Call([], KwABC)) == KwABC
  {
    assert P2.args[..0] == [];
    assert P2.kwargs + KwABC + map[] == KwABC;
  }

  /** `ActionD(a=1, b=2)` runs v2, whose `c` keeps its default `None`. */
  lemma DispatcherBaseKeywordsAB()
    ensures DispatchUnique(ActionD, Call([], KwAB))
      == Success(Resolution("v2", map["a" := IntV(1), "b" := IntV(2), "c" := NoneV]))
  {
    assert ActionDSigs["v2"] == P2;
    BindKeywordsAB();
    SignaturesActionD();
    AcceptingKeywordsAB();
    DispatchUniqueIsSingle(ActionD, Call([], KwAB), ActionDSigs, "v2");
  }

  /** `ActionD(a=1, b=2, c=3)` runs v2 with the supplied `c`. */
  lemma DispatcherBaseKeywordsABC()
    ensures DispatchUnique(ActionD, Call([], KwABC)) == Success(Resolution("v2", KwABC))
  {
    assert ActionDSigs["v2"] == P2;
    BindKeywordsABC();
    SignaturesActionD();
    AcceptingKeywordsABC();
    DispatchUniqueIsSingle(ActionD, Call([], KwABC), ActionDSigs, "v2");
  }

  /** `ActionD(1, 2)` binds the positional values to v2's first names and
      leaves `c` at its default. */
  lemma DispatcherBaseByPosition()
    ensures DispatchUnique(ActionD, Call([IntV(1), IntV(2)], map[]))
      == Success(Resolution("v2", map["a" := IntV(1), "b" := IntV(2), "c" := NoneV]))
  {
    assert ActionDSigs["v2"] == P2;
    BindTwo();
    SignaturesActionD();
    AcceptingTwo();
    DispatchUniqueIsSingle(ActionD, Call([IntV(1), IntV(2)], map[]), ActionDSigs, "v2");
  }

  /** `ActionD(1, 2, 3)` has no accepting method. */
  lemma DispatcherBaseUnmatched()
    ensures DispatchUnique(ActionD, Call([IntV(1), IntV(2), IntV(3)], map[])) == Failure(Unmatched)
  {
    SignaturesActionD();
    AcceptingThree();
    DispatchUniqueIsUnmatched(ActionD, Call([IntV(1), IntV(2), IntV(3)], map[]), ActionDSigs);
  }

  /** `ActionD(1, 2, 3, 4)` is accepted by both v3 and v4. */
  lemma TwoNames()
    ensures |{"v3", "v4"}| == 2
  {
    assert "v3"[1] != "v4"[1];
  }

  lemma DispatcherBaseRedundant()
    ensures DispatchUnique(ActionD, Call([IntV(1), IntV(2), IntV(3), IntV(4)], map[]))
      == Failure(Redundant({"v3", "v4"}))
  {
    SignaturesActionD();
    AcceptingFour();
    TwoNames();
    DispatchUniqueIsRedundant(ActionD, Call([IntV(1), IntV(2), IntV(3), IntV(4)], map[]), ActionDSigs, {"v3", "v4"});
  }

  // func_dispatch: four `@dispatcher` definitions under one name, tagged by what they return
  const F1: Func := Func("func_dispatch", [Req("a")], None, "v1")
  const F2: Func := Func("func_dispatch", [Req("a"), Req("b"), Opt("c")], None, "v2")
  const F3: Func := Func("func_dispatch", [Req("a"), Req("b"), Req("c"), Req("d")], None, "v3")
  const F4: Func := Func("func_dispatch", [Req("a"), Req("b"), Req("c"), Req("d"), Opt("e")], None, "v4")

  lemma SignatureF1()
    ensures CandidateSig(F1) == Success(P1)
  {
    IntrospectV1();
    assert V1.params == [Req("self")] + F1.params;
    SelfIsInvisible(F1.params, false);
  }

  lemma SignatureF2()
    ensures CandidateSig(F2) == Success(P2)
  {
    IntrospectV2();
    assert V2.params == [Req("self")] + F2.params;
    SelfIsInvisible(F2.params, false);
  }

  lemma SignatureF3()
    ensures CandidateSig(F3) == Success(P3)
  {
    IntrospectV3();
    assert V3.params == [Req("self")] + F3.params;
    SelfIsInvisible(F3.params, false);
  }

  lemma SignatureF4()
    ensures CandidateSig(F4) == Success(P4)
  {
    IntrospectV4();
    assert V4.params == [Req("self")] + F4.params;
    SelfIsInvisible(F4.params, false);
  }

  const FuncDispatch: seq<Func> := [F1, F2, F3, F4]
  const FuncMp: Multiplex := Multiplex("func_dispatch", FuncDispatch, [P1, P2, P3, P4])

  lemma LaterSignatures(rest: seq<Func>, sigs: seq<Packed>)
    requires rest == [F2, F3, F4] && sigs == [P2, P3, P4]
    ensures forall i :: 0 <= i < |rest| ==> rest[i].name == "func_dispatch" && CandidateSig(rest[i]) == Success(sigs[i])
  {
    SignatureF2();
    SignatureF3();
    SignatureF4();
    forall i | 0 <= i < |rest|
      ensures rest[i].name == "func_dispatch" && CandidateSig(rest[i]) == Success(sigs[i])
    {
      if i == 0 {
        assert rest[i] == F2 && sigs[i] == P2;
      } else if i == 1 {
        assert rest[i] == F3 && sigs[i] == P3;
      } else {
        assert rest[i] == F4 && sigs[i] == P4;
      }
    }
  }

  /** The four `@dispatcher` definitions leave one wrapper under
      `func_dispatch` whose candidates are the definitions in order. */
  lemma DecorateFuncDispatch()
    ensures DecorateAll(map[], FuncDispatch) == Decorated(Registered("func_dispatch", FuncDispatch, FuncMp.sigs), None)
  {
    var fs := FuncDispatch;
    var rest := [F2, F3, F4];
    var sigs := [P2, P3, P4];
    assert fs[0] == F1 && fs[1..] == rest && [F1] + rest == fs;
    assert [P1] + sigs == FuncMp.sigs;
    assert rest[0] == F2 && rest[1] == F3 && rest[2] == F4;
    assert sigs[0] == P2 && sigs[1] == P3 && sigs[2] == P4;
    LaterSignatures(rest, sigs);
    SignatureF1();
    DecorateFirst(F1, P1);
    DecorateAllRegisters("func_dispatch", [F1], [P1], rest, sigs);
  }

  lemma FuncMpValid()
    ensures Valid(FuncMp)
    ensures FuncMp.sigs == [P1, P2, P3, P4]
    ensures FuncMp.candidates == [F1, F2, F3, F4]
  {
  }

  lemma ZipFour()
    ensures Zip(["a", "b", "c", "d"], [IntV(1), IntV(2), IntV(3), IntV(4)])
      == map["a" := IntV(1), "b" := IntV(2), "c" := IntV(3), "d" := IntV(4)]
  {
    var names := ["a", "b", "c", "d"];
    var vals := [IntV(1), IntV(2), IntV(3), IntV(4)];
    assert names[..3] == ["a", "b", "c"] && vals[..3] == [IntV(1), IntV(2), IntV(3)];
    assert names[..3][..2] == ["a", "b"] && vals[..3][..2] == [IntV(1), IntV(2)];
    assert names[..3][..2][..1] == ["a"] && vals[..3][..2][..1] == [IntV(1)];
    assert ["a"][..0] == [] && [IntV(1)][..0] == [];
  }

  /** `func_dispatch(a=1)` runs the first definition. */
  lemma FuncDispatchKeyword()
    ensures Dispatch(FuncMp, Call([], map["a" := IntV(1)])) == Success(Resolution("v1", map["a" := IntV(1)]))
  {
    var call := Call([], map["a" := IntV(1)]);
    assert call.named.Keys == {"a"};
    assert Accepts(P1, 0, {"a"});
    FuncMpValid();
    assert FirstAcceptingAt(FuncMp, call, 0);
    BindKeywordA();
    DispatchRunsFirst(FuncMp, call, 0);
  }

  /** `func_dispatch(a=1, b=2)` runs the second definition with `c` at its default. */
  lemma FuncDispatchKeywordsAB()
    ensures Dispatch(FuncMp, Call([], KwAB))
      == Success(Resolution("v2", map["a" := IntV(1), "b" := IntV(2), "c" := NoneV]))
  {
    var call := Call([], KwAB);
    assert KwAB.Keys == {"a", "b"};
    assert !Accepts(P1, 0, {"a", "b"}) by { assert "b" !in P1.args && "b" !in P1.kwargs; }
    assert Accepts(P2, 0, {"a", "b"});
    FuncMpValid();
    assert FirstAcceptingAt(FuncMp, call, 1);
    BindKeywordsAB();
    DispatchRunsFirst(FuncMp, call, 1);
  }

  /** `func_dispatch(a=1, b=2, c=3)` runs the second definition with the supplied `c`. */
  lemma FuncDispatchKeywordsABC()
    ensures Dispatch(FuncMp, Call([], KwABC)) == Success(Resolution("v2", KwABC))
  {
    var call := Call([], KwABC);
    assert KwABC.Keys == {"a", "b", "c"};
    assert !Accepts(P1, 0, {"a", "b", "c"}) by { assert "b" !in P1.args && "b" !in P1.kwargs; }
    assert Accepts(P2, 0, {"a", "b", "c"});
    FuncMpValid();
    assert FirstAcceptingAt(FuncMp, call, 1);
    BindKeywordsABC();
    DispatchRunsFirst(FuncMp, call, 1);
  }

  /** `func_dispatch(1, 2)` runs the second definition with `c` at its default. */
  lemma FuncDispatchTwo()
    ensures Dispatch(FuncMp, Call([IntV(1), IntV(2)], map[]))
      == Success(Resolution("v2", map["a" := IntV(1), "b" := IntV(2), "c" := NoneV]))
  {
    var call := Call([IntV(1), IntV(2)], map[]);
    assert !Accepts(P1, 2, {}) && Accepts(P2, 2, {});
    FuncMpValid();
    assert FirstAcceptingAt(FuncMp, call, 1);
    BindTwo();
    DispatchRunsFirst(FuncMp, call, 1);
  }

  /** `func_dispatch(1, 2, 3, 4)` is accepted by the third and the fourth
      definition; the first of them in registration order runs. */
  lemma FuncDispatchFour()
    ensures Dispatch(FuncMp, Call([IntV(1), IntV(2), IntV(3), IntV(4)], map[]))
      == Success(Resolution("v3", map["a" := IntV(1), "b" := IntV(2), "c" := IntV(3), "d" := IntV(4)]))
  {
    var call := Call([IntV(1), IntV(2), IntV(3), IntV(4)], map[]);
    assert !Accepts(P1, 4, {}) && !Accepts(P2, 4, {}) && Accepts(P3, 4, {});
    assert P3.args[..4] == P3.args;
    assert map[] + map[] + map["a" := IntV(1), "b" := IntV(2), "c" := IntV(3), "d" := IntV(4)]
      == map["a" := IntV(1), "b" := IntV(2), "c" := IntV(3), "d" := IntV(4)];
    FuncMpValid();
    assert FirstAcceptingAt(FuncMp, call, 2);
    ZipFour();
    DispatchRunsFirst(FuncMp, call, 2);
  }

  /** `func_dispatch(1, 2, 3, 4, e=5)` skips the third definition, which has
      no `e`, and runs the fourth. */
  lemma FuncDispatchFourWithKeyword()
    ensures Dispatch(FuncMp, Call([IntV(1), IntV(2), IntV(3), IntV(4)], map["e" := IntV(5)]))
      == Success(Resolution("v4", map["a" := IntV(1), "b" := IntV(2), "c" := IntV(3), "d" := IntV(4), "e" := IntV(5)]))
  {
    var call := Call([IntV(1), IntV(2), IntV(3), IntV(4)], map["e" := IntV(5)]);
    assert call.named.Keys == {"e"};
    assert "e" !in P3.args && "e" !in P3.kwargs;
    assert !Accepts(P1, 4, {"e"}) && !Accepts(P2, 4, {"e"}) && !Accepts(P3, 4, {"e"}) && Accepts(P4, 4, {"e"});
    assert P4.args[..4] == P4.args;
    assert map["e" := NoneV] + map["e" := IntV(5)] + map["a" := IntV(1), "b" := IntV(2), "c" := IntV(3), "d" := IntV(4)]
      == map["a" := IntV(1), "b" := IntV(2), "c" := IntV(3), "d" := IntV(4), "e" := IntV(5)];
    FuncMpValid();
    assert FirstAcceptingAt(FuncMp, call, 3);
    ZipFour();
    DispatchRunsFirst(FuncMp, call, 3);
  }

  /** `func_dispatch(1, 2, 3)` matches no definition. */
  lemma FuncDispatchThree()
    ensures Dispatch(FuncMp, Call([IntV(1), IntV(2), IntV(3)], map[])) == Failure(Unmatched)
  {
    RejectThree();
    FuncMpValid();
    NoneAccepts(Call([IntV(1), IntV(2), IntV(3)], map[]));
  }

  lemma RejectThree()
    ensures !Accepts(P1, 3, {}) && !Accepts(P2, 3, {}) && !Accepts(P3, 3, {}) && !Accepts(P4, 3, {})
  {
    assert P3.args[3] == "d";
    assert P4.args[3] == "d";
  }

  /** `func_dispatch(1, 2, 3, 4, 5)` matches no definition. */
  lemma FuncDispatchFive()
    ensures Dispatch(FuncMp, Call([IntV(1), IntV(2), IntV(3), IntV(4), IntV(5)], map[])) == Failure(Unmatched)
  {
    RejectFive();
    FuncMpValid();
    NoneAccepts(Call([IntV(1), IntV(2), IntV(3), IntV(4), IntV(5)], map[]));
  }

  /** A call that none of the four signatures accepts is unmatched. */
  lemma NoneAccepts(call: Call)
    requires FuncMp.sigs == [P1, P2, P3, P4] && Valid(FuncMp)
    requires var n, keys := |call.positional|, call.named.Keys;
      !Accepts(P1, n, keys) && !Accepts(P2, n, keys) && !Accepts(P3, n, keys) && !Accepts(P4, n, keys)
    ensures Dispatch(FuncMp, call) == Failure(Unmatched)
  {
    var n, keys := |call.positional|, call.named.Keys;
    forall j | 0 <= j < |FuncMp.sigs|
      ensures !Accepts(FuncMp.sigs[j], n, keys)
    {
      assert FuncMp.sigs[j] in [P1, P2, P3, P4];
    }
  }

  lemma RejectFive()
    ensures !Accepts(P1, 5, {}) && !Accepts(P2, 5, {}) && !Accepts(P3, 5, {}) && !Accepts(P4, 5, {})
  {
  }
}
