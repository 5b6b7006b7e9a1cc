/**
 What the plan guarantees: callers and callees of a method agree on it, and the function
 type made from it passes the WebAssembly check.
 */
module AbiCheck {
  import opened LlvmTypes
  import opened AbiBudget
  import opened Abi

  // ---------- callers and callees agree ----------

  /** The first n parameters of two lists weigh the same in the planner. */
  ghost predicate Agree(ps: seq<Param>, br: bool, qs: seq<Param>, br': bool, n: nat) {
    && n <= |ps| && n <= |qs|
    && forall i :: 0 <= i < n ==>
         && Cost(ps, br, {}, false, i) == Cost(qs, br', {}, false, i)
         && (Lowerable(ps, br, i) <==> Lowerable(qs, br', i))
         && (Lowerable(ps, br, i) ==> ps[i].leafCount == qs[i].leafCount)
  }

  ghost predicate SameCounts(ps: seq<Param>, qs: seq<Param>, list: seq<nat>) {
    forall k :: 0 <= k < |list| ==>
      list[k] < |ps| && list[k] < |qs| && ps[list[k]].leafCount == qs[list[k]].leafCount
  }

  lemma {:induction false} SameTotal(ps: seq<Param>, br: bool, qs: seq<Param>, br': bool, n: nat)
    requires Agree(ps, br, qs, br', n)
    ensures Total(ps, br, {}, false, n) == Total(qs, br', {}, false, n)
  {
    if n > 0 {
      SameTotal(ps, br, qs, br', n - 1);
    }
  }

  lemma {:induction false} SameList(ps: seq<Param>, br: bool, qs: seq<Param>, br': bool, n: nat)
    requires Agree(ps, br, qs, br', n)
    ensures CandidateList(ps, br, n) == CandidateList(qs, br', n)
    ensures SameCounts(ps, qs, CandidateList(ps, br, n))
  {
    hide Cost, Lowerable, SameCounts;
    if n == 0 {
      SameNothing(ps, qs);
    } else {
      SameList(ps, br, qs, br', n - 1);
      if Lowerable(ps, br, n - 1) {
        SameMore(ps, qs, CandidateList(ps, br, n - 1), n - 1);
      } else {
        assert CandidateList(ps, br, n - 1) + [] == CandidateList(ps, br, n - 1);
      }
    }
  }

  lemma SameNothing(ps: seq<Param>, qs: seq<Param>)
    ensures SameCounts(ps, qs, [])
  {
  }

  lemma SameMore(ps: seq<Param>, qs: seq<Param>, list: seq<nat>, i: nat)
    requires SameCounts(ps, qs, list) && i < |ps| && i < |qs| && ps[i].leafCount == qs[i].leafCount
    ensures SameCounts(ps, qs, list + [i])
  {
  }

  lemma {:induction false} SameInsert(ps: seq<Param>, qs: seq<Param>, sorted: seq<nat>, i: nat)
    requires SameCounts(ps, qs, sorted) && i < |ps| && i < |qs| && ps[i].leafCount == qs[i].leafCount
    ensures Insert(ps, sorted, i) == Insert(qs, sorted, i) && SameCounts(ps, qs, Insert(ps, sorted, i))
    decreases |sorted|
  {
    if sorted != [] && ps[sorted[|sorted| - 1]].leafCount < ps[i].leafCount {
      SameInsert(ps, qs, sorted[..|sorted| - 1], i);
    }
  }

  lemma {:induction false} SameSort(ps: seq<Param>, qs: seq<Param>, list: seq<nat>)
    requires SameCounts(ps, qs, list)
    ensures StableSort(ps, list) == StableSort(qs, list) && SameCounts(ps, qs, StableSort(ps, list))
    decreases |list|
  {
    if list != [] {
      SameSort(ps, qs, list[..|list| - 1]);
      SameInsert(ps, qs, StableSort(ps, list[..|list| - 1]), list[|list| - 1]);
    }
  }

  lemma {:induction false} SameStop(ps: seq<Param>, qs: seq<Param>, order: seq<nat>, n: nat, count: int)
    requires SameCounts(ps, qs, order) && n <= |order|
    ensures Stop(ps, order, n, count) == Stop(qs, order, n, count)
    decreases |order| - n
  {
    if n < |order| && count > MAX_PARAMS {
      SameStop(ps, qs, order, n + 1, count - (ps[order[n]].leafCount - 1));
    }
  }

  /** Lists of the same candidates and totals are lowered alike. */
  lemma SameLowered(ps: seq<Param>, br: bool, base: nat, qs: seq<Param>, br': bool, base': nat, n: nat)
    requires Agree(ps, br, qs, br', n) && n <= |ps| && n <= |qs|
    requires CandidateList(ps, br, |ps|) == CandidateList(ps, br, n) && CandidateList(qs, br', |qs|) == CandidateList(qs, br', n)
    requires base + Total(ps, br, {}, false, |ps|) == base' + Total(qs, br', {}, false, |qs|)
    ensures Lowered(ps, br, base) == Lowered(qs, br', base')
  {
    hide Total, StableSort, Stop, CandidateList, Agree;
    SameList(ps, br, qs, br', n);
    SameSort(ps, qs, CandidateList(ps, br, n));
    SameStop(ps, qs, Order(ps, br), 0, base + Total(ps, br, {}, false, |ps|));
  }

  /** A concrete method and an interface method with the same results and ordinary
      parameters pass each ordinary parameter the same way, whatever the receiver. */
  lemma MethodsAgree(receiver: Type, itf: Type, rest: seq<Type>, result: Type, i: nat)
    requires 1 <= i <= |rest|
    ensures var concrete := AbiOf([receiver] + rest, result, false, false, true, 1);
            var invoke := AbiOf([itf] + rest, result, false, true, false, 1);
            && concrete.resultType == invoke.resultType && concrete.indirectResult == invoke.indirectResult
            && |concrete.params| == |invoke.params| == |rest| + 1
            && concrete.params[i] == invoke.params[i]
  {
    hide Total, Lowered, Leaves;
    var ps := Initial([receiver] + rest, false, false);
    var qs := Initial([itf] + rest, false, true);
    ReceiverCosts(receiver, itf, rest);
    SameTotal(ps, true, qs, false, |ps|);
    SameLowered(ps, true, Base(result, 1), qs, false, Base(result, 1), |ps|);
  }

  lemma ReceiverCosts(receiver: Type, itf: Type, rest: seq<Type>)
    ensures Agree(Initial([receiver] + rest, false, false), true, Initial([itf] + rest, false, true), false, |rest| + 1)
  {
    hide Saturated, IsHuge;
    assert Saturated(Scalar) == 1 && !IsHuge(Scalar) by { ScalarCosts(); }
  }

  lemma ScalarCosts()
    ensures Saturated(Scalar) == 1 && !IsHuge(Scalar)
  {
  }

  // ---------- the declared invoke function agrees too ----------

  /** One more scalar parameter and one less synthetic parameter change no decision. */
  lemma LongerLowered(ps: seq<Param>, p: Param, base: nat)
    requires !p.indirect && p.typ.Scalar? && p.leafCount == 1
    ensures Lowered(ps + [p], false, base) == Lowered(ps, false, base + 1)
  {
    hide Lowered;
    var qs := ps + [p];
    assert Agree(qs, false, ps, false, |ps|);
    SameTotal(qs, false, ps, false, |ps|);
    SameLowered(qs, false, base, ps, false, base + 1, |ps|);
  }

  /** The caller plans an invoke with the typecode as a synthetic parameter; the invoke
      function is declared with the typecode as a last ordinary one.  They agree. */
  lemma InvokeDeclarationAgrees(itf: Type, rest: seq<Type>, result: Type, i: nat)
    requires i <= |rest|
    ensures var caller := AbiOf([itf] + rest, result, false, true, false, 1);
            var declared := AbiOf([itf] + rest + [Scalar], result, false, true, false, 0);
            && caller.indirectResult == declared.indirectResult
            && |declared.params| == |caller.params| + 1 == |rest| + 2
            && declared.params[i] == caller.params[i]
  {
    hide Total, Lowered, Saturated, IsHuge, Leaves;
    ScalarCosts();
    var ps := Initial([itf] + rest, false, true);
    var p := Param(Scalar, false, 1);
    var qs := Initial([itf] + rest + [Scalar], false, true);
    assert qs == ps + [p];
    LongerLowered(ps, p, Base(result, 0));
  }

  // ---------- the function type ----------

  datatype FnType = FnType(ret: Type, params: seq<Type>)

  /** The LLVM parameter types of the first n parameters. */
  function ParamTypes(ps: seq<Param>, n: nat): seq<Type>
    requires n <= |ps|
  {
    if n == 0 then []
    else ParamTypes(ps, n - 1) + if ps[n - 1].indirect then [Scalar] else ExpandType(ps[n - 1].typ)
  }

  /** getLLVMFunctionType: result pointer, parameters, context. */
  function FunctionType(abi: Abi): FnType {
    FnType(if abi.indirectResult then Scalar else abi.resultType,
           (if abi.indirectResult then [Scalar] else []) + ParamTypes(abi.params, |abi.params|) + [Scalar])
  }

  /** The WebAssembly parameters of a function type: its leaves, and a result pointer for a
      result of several values. */
  function WasmParams(f: FnType): nat {
    TotalLeaves(f.params) + if IsAggregate(f.ret) && Leaves(f.ret) > 1 then 1 else 0
  }

  /** The scalars the first n parameters of a plan take. */
  function PlanTotal(ps: seq<Param>, n: nat): nat
    requires n <= |ps|
  {
    if n == 0 then 0 else PlanTotal(ps, n - 1) + if ps[n - 1].indirect then 1 else Leaves(ps[n - 1].typ)
  }

  lemma {:induction false} ParamTypesLeaves(ps: seq<Param>, n: nat)
    requires n <= |ps|
    ensures TotalLeaves(ParamTypes(ps, n)) == PlanTotal(ps, n)
  {
    hide Leaves, ExpandType;
    if n > 0 {
      ParamTypesLeaves(ps, n - 1);
      if ps[n - 1].indirect {
        OneScalar();
        TotalLeavesConcat(ParamTypes(ps, n - 1), [Scalar]);
      } else {
        ExpandLeaves(ps[n - 1].typ);
        TotalLeavesConcat(ParamTypes(ps, n - 1), ExpandType(ps[n - 1].typ));
      }
    }
  }

  lemma OneScalar()
    ensures TotalLeaves([Scalar]) == 1 && TotalLeaves([]) == 0
  {
    assert [Scalar][..0] == [];
  }

  /** Splitting structs and dropping fields without size does not change what the check counts. */
  lemma WasmParamsOf(abi: Abi)
    requires abi.indirectResult ==> IsHuge(abi.resultType)
    ensures WasmParams(FunctionType(abi)) == Base(abi.resultType, 0) + PlanTotal(abi.params, |abi.params|)
  {
    hide ParamTypes, PlanTotal, TotalLeaves;
    var ps := ParamTypes(abi.params, |abi.params|);
    ParamTypesLeaves(abi.params, |abi.params|);
    OneScalar();
    var first := if abi.indirectResult then [Scalar] else [];
    TotalLeavesConcat(first, ps);
    TotalLeavesConcat(first + ps, [Scalar]);
  }

  lemma {:induction false} PlanTotalIs(ps: seq<Param>, br: bool, base: nat, extra: nat, n: nat)
    requires (br ==> |ps| > 0) && n <= |ps|
    ensures var plan := Planned(ps, br, base, extra);
            var lowered := Lowered(ps, br, base);
            PlanTotal(plan, n) == Total(ps, br, lowered, true, n)
              + if br && n > 0 && !plan[0].indirect then Leaves(ps[0].typ) - 1 else 0
  {
    hide Lowered, Leaves;
    if n > 0 {
      PlanTotalIs(ps, br, base, extra, n - 1);
      ReceiverNotLowered(ps, br, base);
    }
  }

  /** A function without a receiver passes the check exactly when its plan meets the cap. */
  lemma PlanPassesCheck(types: seq<Type>, result: Type, interfaceReceiver: bool)
    ensures var ps := Initial(types, false, interfaceReceiver);
            var base := Base(result, 0);
            var f := FunctionType(AbiOf(types, result, false, interfaceReceiver, false, 0));
            WasmParams(f) <= MAX_PARAMS <==> Fits(ps, false, base, Lowered(ps, false, base), true)
  {
    hide Lowered, Total, PlanTotal, WasmParams, FunctionType, Planned;
    var ps := Initial(types, false, interfaceReceiver);
    var base := Base(result, 0);
    WasmParamsOf(AbiOf(types, result, false, interfaceReceiver, false, 0));
    PlanTotalIs(ps, false, base, 0, |ps|);
    PlannedLength(ps, false, base, 0);
  }

  lemma PlannedLength(ps: seq<Param>, br: bool, base: nat, extra: nat)
    requires br ==> |ps| > 0
    ensures |Planned(ps, br, base, extra)| == |ps|
    ensures br ==> (Planned(ps, br, base, extra)[0].indirect
                    <==> ReceiverIndirect(ps[0], base + Total(ps, br, Lowered(ps, br, base), false, |ps|), extra))
  {
    hide Lowered, Total;
  }

  /** A concrete method passes the check exactly when its plan, which budgets for the typecode
      that only interface calls have, exceeds the cap by at most one, or by two if a receiver
      without size was budgeted as a pointer.  A receiver that does not fit beside the other
      parameters was made indirect. */
  lemma MethodPassesCheck(types: seq<Type>, result: Type)
    requires |types| > 0
    ensures var ps := Initial(types, false, false);
            var base := Base(result, 1);
            var count := base + Total(ps, true, Lowered(ps, true, base), true, |ps|);
            WasmParams(FunctionType(AbiOf(types, result, false, false, true, 1))) <= MAX_PARAMS <==>
              count <= MAX_PARAMS + 1 || (Leaves(types[0]) == 0 && count == MAX_PARAMS + 2)
  {
    hide Lowered, Total, PlanTotal, WasmParams, FunctionType, Planned, Leaves;
    var ps := Initial(types, false, false);
    var base := Base(result, 1);
    WasmParamsOf(AbiOf(types, result, false, false, true, 1));
    PlanTotalIs(ps, true, base, 1, |ps|);
    PlannedLength(ps, true, base, 1);
    InitialFresh(types, false);
    SaturationHarmless(ps, true, base, Lowered(ps, true, base));
    SaturatedBelow(ps, true, Lowered(ps, true, base), |ps|);
    assert ps[0].leafCount == Saturated(ps[0].typ);
  }

  // ---------- the check ----------

  /** A function of the module; a declaration nobody uses is skipped. */
  datatype Function = Function(typ: FnType, unusedDeclaration: bool)

  ghost predicate TypesOk(f: FnType) {
    Representable(f.ret) && forall i :: 0 <= i < |f.params| ==> Representable(f.params[i])
  }

  lemma {:induction false} TotalLeavesPrefix(ts: seq<Type>, n: nat)
    requires n <= |ts|
    ensures TotalLeaves(ts[..n]) <= TotalLeaves(ts)
  {
    assert ts == ts[..n] + ts[n..];
    TotalLeavesConcat(ts[..n], ts[n..]);
  }

  method CheckFunction(f: FnType) returns (ok: bool)
    requires TypesOk(f)
    ensures ok <==> WasmParams(f) <= MAX_PARAMS
  {
    hide Leaves, CountLimit;
    var count: nat := 0;
    if IsAggregate(f.ret) {
      CountLimitExact(f.ret, 0, 1);
      if CountLimit(f.ret, 0, 1).1 {
        count := 1;
      }
    }
    ghost var start := count;
    for i := 0 to |f.params|
      invariant count == start + TotalLeaves(f.params[..i]) <= MAX_PARAMS
    {
      CountLimitExact(f.params[i], count, MAX_PARAMS);
      assert f.params[..i + 1][..i] == f.params[..i];
      var (c, exceeded) := CountLimit(f.params[i], count, MAX_PARAMS);
      if exceeded {
        TotalLeavesPrefix(f.params, i + 1);
        return false;
      }
      count := c;
    }
    assert f.params[..|f.params|] == f.params;
    ok := true;
  }

  /** ValidateWasmFunctionParameters: accepts a module exactly when every function in use
      stays within the limit. */
  method ValidateWasmFunctionParameters(fns: seq<Function>) returns (ok: bool)
    requires forall i :: 0 <= i < |fns| ==> TypesOk(fns[i].typ)
    ensures ok <==> forall i :: 0 <= i < |fns| && !fns[i].unusedDeclaration ==> WasmParams(fns[i].typ) <= MAX_PARAMS
  {
    for i := 0 to |fns|
      invariant forall j :: 0 <= j < i && !fns[j].unusedDeclaration ==> WasmParams(fns[j].typ) <= MAX_PARAMS
    {
      if fns[i].unusedDeclaration {
        continue;
      }
      var fnOk := CheckFunction(fns[i].typ);
      if !fnOk {
        return false;
      }
    }
    ok := true;
  }
}
