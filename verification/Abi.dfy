/**
 The function ABI planner, the LLVM function type made from its plan, and the later check
 of the WebAssembly parameter limit.
 */
module Abi {
  import opened LlvmTypes
  import opened AbiBudget

  /** functionABI */
  datatype Abi = Abi(resultType: Type, indirectResult: bool, params: seq<Param>)

  predicate IsHuge(t: Type) {
    IsAggregate(t) && Leaves(t) > MAX_DIRECT
  }

  /** The LLVM type of parameter i; an interface receiver is passed as a pointer. */
  function ParamType(types: seq<Type>, interfaceReceiver: bool, i: nat): Type
    requires i < |types|
  {
    if i == 0 && interfaceReceiver then Scalar else types[i]
  }

  /** The parameters before lowering. */
  function Initial(types: seq<Type>, exported: bool, interfaceReceiver: bool): (ps: seq<Param>)
    ensures |ps| == |types|
  {
    seq(|types|, i requires 0 <= i < |types| =>
      var t := ParamType(types, interfaceReceiver, i);
      Param(t, !exported && IsHuge(t), Saturated(t)))
  }

  lemma InitialFresh(types: seq<Type>, interfaceReceiver: bool)
    ensures Fresh(Initial(types, false, interfaceReceiver))
  {
  }

  /** Context, synthetic parameters, and the result pointer if the result needs one. */
  function Base(result: Type, extra: nat): nat {
    1 + extra + if IsAggregate(result) && Leaves(result) > 1 then 1 else 0
  }

  // ---------- the order of lowering ----------

  /** The lowerable ones among the first n parameters. */
  function CandidateList(ps: seq<Param>, br: bool, n: nat): seq<nat>
    requires n <= |ps|
  {
    if n == 0 then []
    else CandidateList(ps, br, n - 1) + if Lowerable(ps, br, n - 1) then [n - 1] else []
  }

  /** Insert i after everything with at least as many leaves. */
  function Insert(ps: seq<Param>, sorted: seq<nat>, i: nat): seq<nat>
    requires i < |ps| && forall k :: 0 <= k < |sorted| ==> sorted[k] < |ps|
  {
    if sorted == [] then [i]
    else
      var last := sorted[|sorted| - 1];
      if ps[last].leafCount >= ps[i].leafCount then sorted + [i]
      else Insert(ps, sorted[..|sorted| - 1], i) + [last]
  }

  /** The stable sort by falling leaf count. */
  function StableSort(ps: seq<Param>, list: seq<nat>): (r: seq<nat>)
    requires forall k :: 0 <= k < |list| ==> list[k] < |ps|
    ensures forall k :: 0 <= k < |r| ==> r[k] < |ps|
  {
    if list == [] then []
    else
      var rest := StableSort(ps, list[..|list| - 1]);
      InsertMembers(ps, rest, list[|list| - 1]);
      Insert(ps, rest, list[|list| - 1])
  }

  lemma {:induction false} InsertMembers(ps: seq<Param>, sorted: seq<nat>, i: nat)
    requires i < |ps| && forall k :: 0 <= k < |sorted| ==> sorted[k] < |ps|
    ensures forall x :: x in Insert(ps, sorted, i) <==> x in sorted || x == i
    ensures forall k :: 0 <= k < |Insert(ps, sorted, i)| ==> Insert(ps, sorted, i)[k] < |ps|
    ensures i !in sorted && Once(sorted) ==> Once(Insert(ps, sorted, i))
    decreases |sorted|
  {
    if sorted != [] {
      var init, last := sorted[..|sorted| - 1], sorted[|sorted| - 1];
      assert sorted == init + [last];
      if ps[last].leafCount < ps[i].leafCount {
        InsertMembers(ps, init, i);
        AppendOnce(Insert(ps, init, i), last);
      } else {
        AppendOnce(sorted, i);
      }
    }
  }

  /** No index occurs twice. */
  ghost predicate Once(s: seq<nat>) {
    forall k, l :: 0 <= k < l < |s| ==> s[k] != s[l]
  }

  lemma AppendOnce(s: seq<nat>, x: nat)
    ensures Once(s) && x !in s ==> Once(s + [x])
  {
  }

  ghost predicate Falling(ps: seq<Param>, order: seq<nat>)
    requires forall k :: 0 <= k < |order| ==> order[k] < |ps|
  {
    forall k, l :: 0 <= k < l < |order| ==> ps[order[k]].leafCount >= ps[order[l]].leafCount
  }

  lemma {:induction false} InsertFalling(ps: seq<Param>, sorted: seq<nat>, i: nat)
    requires i < |ps| && (forall k :: 0 <= k < |sorted| ==> sorted[k] < |ps|) && Falling(ps, sorted)
    ensures forall k :: 0 <= k < |Insert(ps, sorted, i)| ==> Insert(ps, sorted, i)[k] < |ps|
    ensures Falling(ps, Insert(ps, sorted, i))
    decreases |sorted|
  {
    InsertMembers(ps, sorted, i);
    if sorted != [] {
      var init, last := sorted[..|sorted| - 1], sorted[|sorted| - 1];
      if ps[last].leafCount < ps[i].leafCount {
        InsertFalling(ps, init, i);
        InsertMembers(ps, init, i);
        var r := Insert(ps, init, i);
        forall k | 0 <= k < |r| ensures ps[r[k]].leafCount >= ps[last].leafCount {
          assert r[k] in r;
        }
      }
    }
  }

  lemma {:induction false} SortFalling(ps: seq<Param>, list: seq<nat>)
    requires forall k :: 0 <= k < |list| ==> list[k] < |ps|
    ensures Falling(ps, StableSort(ps, list))
    ensures forall x :: x in StableSort(ps, list) <==> x in list
    ensures Once(list) ==> Once(StableSort(ps, list))
    decreases |list|
  {
    if list != [] {
      var init, last := list[..|list| - 1], list[|list| - 1];
      SortFalling(ps, init);
      InsertFalling(ps, StableSort(ps, init), last);
      InsertMembers(ps, StableSort(ps, init), last);
      assert list == init + [last];
      assert Once(list) ==> last !in init;
    }
  }

  lemma {:induction false} ListMembers(ps: seq<Param>, br: bool, n: nat)
    requires n <= |ps|
    ensures forall k :: 0 <= k < |CandidateList(ps, br, n)| ==> CandidateList(ps, br, n)[k] < n
    ensures forall i: nat :: i in CandidateList(ps, br, n) <==> i < n && Lowerable(ps, br, i)
    ensures Once(CandidateList(ps, br, n))
  {
    hide Lowerable;
    if n > 0 {
      ListMembers(ps, br, n - 1);
    }
  }

  /** The candidates, sorted. */
  function Order(ps: seq<Param>, br: bool): (r: seq<nat>)
    ensures forall k :: 0 <= k < |r| ==> r[k] < |ps|
  {
    ListMembers(ps, br, |ps|);
    StableSort(ps, CandidateList(ps, br, |ps|))
  }

  lemma OrderIsCandidates(ps: seq<Param>, br: bool)
    ensures Candidates(ps, br, Order(ps, br))
  {
    hide StableSort, CandidateList, Lowerable;
    var list: seq<nat> := CandidateList(ps, br, |ps|);
    var r: seq<nat> := Order(ps, br);
    ListMembers(ps, br, |ps|);
    SortFalling(ps, list);
    forall k | 0 <= k < |r| ensures Lowerable(ps, br, r[k]) {
      assert r[k] in r;
    }
    forall i: nat | Lowerable(ps, br, i) ensures i in r {
      LowerableInRange(ps, br, i);
    }
  }

  lemma LowerableInRange(ps: seq<Param>, br: bool, i: nat)
    requires Lowerable(ps, br, i)
    ensures i < |ps|
  {
  }

  // ---------- the plan ----------

  /** How many candidates, from the n-th on, the greedy loop lowers in all. */
  function Stop(ps: seq<Param>, order: seq<nat>, n: nat, count: int): nat
    requires n <= |order| && forall k :: 0 <= k < |order| ==> order[k] < |ps|
    decreases |order| - n
  {
    if n == |order| || count <= MAX_PARAMS then n
    else Stop(ps, order, n + 1, count - (ps[order[n]].leafCount - 1))
  }

  /** The set of parameters the planner lowers. */
  function Lowered(ps: seq<Param>, br: bool, base: nat): set<nat> {
    var order := Order(ps, br);
    var n := Stop(ps, order, 0, base + Total(ps, br, {}, false, |ps|));
    StopBound(ps, order, 0, base + Total(ps, br, {}, false, |ps|));
    Prefix(order, n)
  }

  lemma {:induction false} StopBound(ps: seq<Param>, order: seq<nat>, n: nat, count: int)
    requires n <= |order| && forall k :: 0 <= k < |order| ==> order[k] < |ps|
    ensures n <= Stop(ps, order, n, count) <= |order|
    decreases |order| - n
  {
    if n < |order| && count > MAX_PARAMS {
      StopBound(ps, order, n + 1, count - (ps[order[n]].leafCount - 1));
    }
  }

  /** The loop stops at the first prefix that fits. */
  lemma {:induction false} StopFits(ps: seq<Param>, br: bool, base: nat, order: seq<nat>, n: nat, count: int)
    requires Candidates(ps, br, order) && n <= |order|
    requires count == base + Total(ps, br, Prefix(order, n), false, |ps|)
    requires n > 0 ==> !Fits(ps, br, base, Prefix(order, n - 1), false)
    ensures var m := Stop(ps, order, n, count);
            && n <= m <= |order|
            && (m > 0 ==> !Fits(ps, br, base, Prefix(order, m - 1), false))
            && (m < |order| ==> Fits(ps, br, base, Prefix(order, m), false))
    decreases |order| - n
  {
    hide Total;
    if n < |order| && count > MAX_PARAMS {
      NextTotal(ps, br, order, n);
      StopFits(ps, br, base, order, n + 1, count - (ps[order[n]].leafCount - 1));
    }
  }

  lemma NextTotal(ps: seq<Param>, br: bool, order: seq<nat>, n: nat)
    requires Candidates(ps, br, order) && n < |order|
    ensures Total(ps, br, Prefix(order, n + 1), false, |ps|) + (ps[order[n]].leafCount - 1)
         == Total(ps, br, Prefix(order, n), false, |ps|)
  {
    assert Prefix(order, n + 1) == Prefix(order, n) + {order[n]};
    TotalLowers(ps, br, Prefix(order, n), |ps|, order[n]);
  }

  /** The planner lowers the fewest aggregates that keep the true leaf count of the
      signature within the cap, or all of them when that is impossible. */
  lemma LoweredSmallest(types: seq<Type>, interfaceReceiver: bool, br: bool, base: nat)
    ensures var ps := Initial(types, false, interfaceReceiver);
            Smallest(ps, br, base, Lowered(ps, br, base))
  {
    hide Total, Order, Smallest, Candidates;
    var ps := Initial(types, false, interfaceReceiver);
    var order := Order(ps, br);
    InitialFresh(types, interfaceReceiver);
    OrderIsCandidates(ps, br);
    assert Prefix(order, 0) == {};
    StopFits(ps, br, base, order, 0, base + Total(ps, br, {}, false, |ps|));
    GreedySmallest(ps, br, base, order, Stop(ps, order, 0, base + Total(ps, br, {}, false, |ps|)));
  }

  /** No other set of parameters, of whatever kind, does better when passed by pointer: if one
      meets the cap, so does the planner's choice, with no more of them. */
  lemma LoweredBest(types: seq<Type>, interfaceReceiver: bool, br: bool, base: nat, s: set<nat>)
    requires Fits(Initial(types, false, interfaceReceiver), br, base, s, true)
    ensures var ps := Initial(types, false, interfaceReceiver);
            Fits(ps, br, base, Lowered(ps, br, base), true) && |Lowered(ps, br, base)| <= |s|
  {
    hide Lowered, Smallest, Total;
    InitialFresh(types, interfaceReceiver);
    LoweredSmallest(types, interfaceReceiver, br, base);
    var ps := Initial(types, false, interfaceReceiver);
    SmallestOfAny(ps, br, base, Lowered(ps, br, base), s);
  }

  // ---------- getFunctionABIWithReceiver ----------

  /** The receiver of a concrete method is counted as a pointer; when its own leaves do not
      fit beside the other parameters it is passed indirectly too. */
  function ReceiverIndirect(p: Param, count: int, extra: nat): bool {
    p.indirect || count - extra - 1 + p.leafCount > MAX_PARAMS
  }

  /** The parameters of the plan. */
  function Planned(ps: seq<Param>, br: bool, base: nat, extra: nat): seq<Param>
    requires br ==> |ps| > 0
  {
    var lowered := Lowered(ps, br, base);
    var count := base + Total(ps, br, lowered, false, |ps|);
    seq(|ps|, i requires 0 <= i < |ps| =>
      if i == 0 && br then ps[i].(indirect := ReceiverIndirect(ps[i], count, extra))
      else ps[i].(indirect := ps[i].indirect || i in lowered))
  }

  /** The ABI of a signature. */
  function AbiOf(types: seq<Type>, result: Type, exported: bool, interfaceReceiver: bool, br: bool, extra: nat): Abi
    requires br ==> |types| > 0
  {
    var ps := Initial(types, exported, interfaceReceiver);
    if exported then Abi(result, false, ps)
    else Abi(result, IsHuge(result), Planned(ps, br, Base(result, extra), extra))
  }

  /** Count one type as the source does. */
  method LeafCount(t: Type) returns (leafCount: nat)
    requires Representable(t)
    ensures leafCount == Saturated(t)
  {
    var (n, exceeded) := CountLimit(t, 0, MAX_PARAMS);
    CountLimitExact(t, 0, MAX_PARAMS);
    leafCount := if exceeded then MAX_PARAMS + 1 else n;
  }

  lemma ExceedsExact(t: Type, limit: nat)
    requires Representable(t) && limit <= MAX_DIRECT
    ensures CountExceeds(t, limit) <==> IsAggregate(t) && Leaves(t) > limit
  {
    CountLimitExact(t, 0, limit);
  }

  method InitialParams(types: seq<Type>, exported: bool, interfaceReceiver: bool) returns (params: seq<Param>)
    requires forall i :: 0 <= i < |types| ==> Representable(types[i])
    ensures params == Initial(types, exported, interfaceReceiver)
  {
    hide Leaves, CountLimit, Representable, Saturated;
    params := [];
    for i := 0 to |types|
      invariant params == Initial(types, exported, interfaceReceiver)[..i]
    {
      var llvmType := ParamType(types, interfaceReceiver, i);
      var leafCount := LeafCount(llvmType);
      ExceedsExact(llvmType, MAX_DIRECT);
      params := params + [Param(llvmType, !exported && CountExceeds(llvmType, MAX_DIRECT), leafCount)];
    }
  }

  /** Count the parameters and collect the candidates. */
  method CountParams(params: seq<Param>, budgetReceiverPtr: bool, base: nat) returns (count: nat, candidates: seq<nat>)
    ensures count == base + Total(params, budgetReceiverPtr, {}, false, |params|)
    ensures candidates == CandidateList(params, budgetReceiverPtr, |params|)
  {
    count, candidates := base, [];
    for i := 0 to |params|
      invariant count == base + Total(params, budgetReceiverPtr, {}, false, i)
      invariant candidates == CandidateList(params, budgetReceiverPtr, i)
    {
      var param := params[i];
      if param.indirect {
        count := count + 1;
        continue;
      }
      if i == 0 && budgetReceiverPtr {
        count := count + 1;
        continue;
      }
      count := count + param.leafCount;
      if IsAggregate(param.typ) && param.leafCount > 1 {
        candidates := candidates + [i];
      }
    }
  }

  /** Lower candidates in order while the count is over the cap. */
  method LowerLargest(params0: seq<Param>, ghost br: bool, candidates: seq<nat>, count0: nat, ghost base: nat)
    returns (params: seq<Param>, count: nat)
    requires Candidates(params0, br, candidates) && count0 == base + Total(params0, br, {}, false, |params0|)
    ensures var n := Stop(params0, candidates, 0, count0);
            && n <= |candidates|
            && count == base + Total(params0, br, Prefix(candidates, n), false, |params0|)
            && LoweredAre(params0, params, Prefix(candidates, n))
  {
    hide Total, Prefix, Stop, Lowerable;
    params, count := params0, count0;
    var n := 0;
    CandidatesInRange(params0, br, candidates);
    PrefixZero(candidates);
    while n < |candidates| && count > MAX_PARAMS
      invariant n <= |candidates| && Stop(params0, candidates, 0, count0) == Stop(params0, candidates, n, count)
      invariant count == base + Total(params0, br, Prefix(candidates, n), false, |params0|)
      invariant LoweredAre(params0, params, Prefix(candidates, n))
    {
      var i := candidates[n];
      LowerableInRange(params0, br, i);
      NextTotal(params0, br, candidates, n);
      PrefixNext(candidates, n);
      StopNext(params0, candidates, n, count);
      params := params[i := params[i].(indirect := true)];
      count := count - (params[i].leafCount - 1);
      n := n + 1;
    }
    StopHere(params0, candidates, n, count);
  }

  /** Exactly the parameters in the set have become indirect. */
  ghost predicate LoweredAre(before: seq<Param>, after: seq<Param>, lowered: set<nat>) {
    && |after| == |before|
    && forall i :: 0 <= i < |after| ==> after[i] == before[i].(indirect := before[i].indirect || i in lowered)
  }

  lemma CandidatesInRange(ps: seq<Param>, br: bool, order: seq<nat>)
    requires Candidates(ps, br, order)
    ensures forall k :: 0 <= k < |order| ==> order[k] < |ps|
  {
    forall k | 0 <= k < |order| ensures order[k] < |ps| {
      assert Lowerable(ps, br, order[k]);
    }
  }

  lemma PrefixZero(order: seq<nat>)
    ensures Prefix(order, 0) == {}
  {
  }

  lemma PrefixNext(order: seq<nat>, n: nat)
    requires n < |order|
    ensures Prefix(order, n + 1) == Prefix(order, n) + {order[n]}
  {
  }

  lemma StopNext(ps: seq<Param>, order: seq<nat>, n: nat, count: int)
    requires n < |order| && count > MAX_PARAMS && forall k :: 0 <= k < |order| ==> order[k] < |ps|
    ensures Stop(ps, order, n, count) == Stop(ps, order, n + 1, count - (ps[order[n]].leafCount - 1))
  {
  }

  lemma StopHere(ps: seq<Param>, order: seq<nat>, n: nat, count: int)
    requires n <= |order| && (n == |order| || count <= MAX_PARAMS) && forall k :: 0 <= k < |order| ==> order[k] < |ps|
    ensures Stop(ps, order, n, count) == n
  {
  }

  /** getFunctionABIWithReceiver without its cache. */
  method GetFunctionAbi(types: seq<Type>, result: Type, exported: bool, interfaceReceiver: bool,
                        budgetReceiverPtr: bool, extraParams: nat) returns (abi: Abi)
    requires Representable(result) && forall i :: 0 <= i < |types| ==> Representable(types[i])
    requires budgetReceiverPtr ==> |types| > 0 && !exported
    ensures abi == AbiOf(types, result, exported, interfaceReceiver, budgetReceiverPtr, extraParams)
  {
    hide Total, Leaves, Candidates, CandidateList, StableSort, Stop, Prefix, Initial, CountLimit, Representable, Planned;
    var params := InitialParams(types, exported, interfaceReceiver);
    ExceedsExact(result, MAX_DIRECT);
    if exported {
      return Abi(result, false, params);
    }
    var indirectResult := CountExceeds(result, MAX_DIRECT);
    var count := 1 + extraParams;
    ExceedsExact(result, 1);
    if indirectResult {
      count := count + 1;
    } else if CountExceeds(result, 1) {
      count := count + 1;
    }
    ghost var base := count;
    ghost var ps := params;
    var candidates;
    count, candidates := CountParams(params, budgetReceiverPtr, count);
    ListMembers(params, budgetReceiverPtr, |params|);
    candidates := StableSort(params, candidates);
    OrderIsCandidates(params, budgetReceiverPtr);
    params, count := LowerLargest(params, budgetReceiverPtr, candidates, count, base);
    ReceiverNotLowered(ps, budgetReceiverPtr, base);
    ghost var lowered, lparams := Lowered(ps, budgetReceiverPtr, base), params;
    if budgetReceiverPtr && !params[0].indirect {
      var concreteCount := count - extraParams - 1 + params[0].leafCount;
      if concreteCount > MAX_PARAMS {
        params := params[0 := params[0].(indirect := true)];
      }
    }
    abi := Abi(result, indirectResult, params);
    PlannedIs(ps, budgetReceiverPtr, base, extraParams, lparams, params);
  }

  lemma PlannedIs(ps: seq<Param>, br: bool, base: nat, extra: nat, lparams: seq<Param>, params: seq<Param>)
    requires br ==> |ps| > 0 && 0 !in Lowered(ps, br, base)
    requires LoweredAre(ps, lparams, Lowered(ps, br, base))
    requires var count := base + Total(ps, br, Lowered(ps, br, base), false, |ps|);
             params == if br then lparams[0 := ps[0].(indirect := ReceiverIndirect(ps[0], count, extra))] else lparams
    ensures params == Planned(ps, br, base, extra)
  {
    hide Total, Lowered;
  }

  lemma ReceiverNotLowered(ps: seq<Param>, br: bool, base: nat)
    ensures forall i :: i in Lowered(ps, br, base) ==> Lowerable(ps, br, i)
    ensures br ==> 0 !in Lowered(ps, br, base)
  {
    hide Total, Order, Stop;
    OrderIsCandidates(ps, br);
    var order := Order(ps, br);
    forall i | i in Lowered(ps, br, base) ensures Lowerable(ps, br, i) {
      var n := Stop(ps, order, 0, base + Total(ps, br, {}, false, |ps|));
      StopBound(ps, order, 0, base + Total(ps, br, {}, false, |ps|));
      assert i in Prefix(order, n);
      var k :| 0 <= k < n && order[k] == i;
    }
  }
}
