/**
 The parameter budget of a function: how many scalar parameters its signature takes for
 each choice of aggregates passed by pointer, and which choice is smallest.
 */
module AbiBudget {
  import opened Sets
  import opened LlvmTypes

  const MAX_DIRECT: nat := 1024
  const MAX_PARAMS: nat := 1000

  /** functionABIParam */
  datatype Param = Param(typ: Type, indirect: bool, leafCount: nat)

  /** The leaf count kept by the planner: exact up to the cap, and cap + 1 beyond. */
  function Saturated(t: Type): nat {
    if Leaves(t) <= MAX_PARAMS then Leaves(t) else MAX_PARAMS + 1
  }

  /** The parameters before any is lowered: huge aggregates are already indirect. */
  ghost predicate Fresh(ps: seq<Param>) {
    forall i :: 0 <= i < |ps| ==>
      && ps[i].leafCount == Saturated(ps[i].typ)
      && (ps[i].indirect <==> IsAggregate(ps[i].typ) && Leaves(ps[i].typ) > MAX_DIRECT)
  }

  /** May the planner pass parameter i by pointer to save budget? */
  predicate Lowerable(ps: seq<Param>, budgetReceiver: bool, i: nat) {
    i < |ps| && !ps[i].indirect && !(i == 0 && budgetReceiver)
    && IsAggregate(ps[i].typ) && ps[i].leafCount > 1
  }

  /** The scalars parameter i takes, given the set of lowered parameters. */
  function Cost(ps: seq<Param>, budgetReceiver: bool, lowered: set<nat>, exact: bool, i: nat): nat
    requires i < |ps|
  {
    if ps[i].indirect || (i == 0 && budgetReceiver) || i in lowered then 1
    else if exact then Leaves(ps[i].typ) else ps[i].leafCount
  }

  /** The scalars the first n parameters take; exact counts leaves, otherwise the
      saturated counts are added up as the planner does. */
  function Total(ps: seq<Param>, budgetReceiver: bool, lowered: set<nat>, exact: bool, n: nat): nat
    requires n <= |ps|
  {
    if n == 0 then 0
    else Total(ps, budgetReceiver, lowered, exact, n - 1) + Cost(ps, budgetReceiver, lowered, exact, n - 1)
  }

  /** Does the choice meet the cap, with base synthetic parameters? */
  predicate Fits(ps: seq<Param>, budgetReceiver: bool, base: nat, lowered: set<nat>, exact: bool) {
    base + Total(ps, budgetReceiver, lowered, exact, |ps|) <= MAX_PARAMS
  }

  // ---------- saturation does not matter ----------

  lemma {:induction false} TotalAtLeast(ps: seq<Param>, br: bool, lowered: set<nat>, exact: bool, n: nat, i: nat)
    requires i < n <= |ps|
    ensures Total(ps, br, lowered, exact, n) >= Cost(ps, br, lowered, exact, i)
  {
    if i < n - 1 {
      TotalAtLeast(ps, br, lowered, exact, n - 1, i);
    }
  }

  lemma {:induction false} TotalsAgree(ps: seq<Param>, br: bool, lowered: set<nat>, n: nat)
    requires n <= |ps|
    requires forall i :: 0 <= i < n ==> Cost(ps, br, lowered, true, i) == Cost(ps, br, lowered, false, i)
    ensures Total(ps, br, lowered, true, n) == Total(ps, br, lowered, false, n)
  {
    if n > 0 {
      TotalsAgree(ps, br, lowered, n - 1);
    }
  }

  /** A choice meets the cap by the planner's saturated counts exactly when it does by the
      true leaf counts, and then both totals are the same. */
  lemma SaturationHarmless(ps: seq<Param>, br: bool, base: nat, lowered: set<nat>)
    requires Fresh(ps)
    ensures Fits(ps, br, base, lowered, true) <==> Fits(ps, br, base, lowered, false)
    ensures Fits(ps, br, base, lowered, true) ==>
              Total(ps, br, lowered, true, |ps|) == Total(ps, br, lowered, false, |ps|)
  {
    if forall i :: 0 <= i < |ps| ==> Cost(ps, br, lowered, true, i) == Cost(ps, br, lowered, false, i) {
      TotalsAgree(ps, br, lowered, |ps|);
    } else {
      var i :| 0 <= i < |ps| && Cost(ps, br, lowered, true, i) != Cost(ps, br, lowered, false, i);
      TotalAtLeast(ps, br, lowered, true, |ps|, i);
      TotalAtLeast(ps, br, lowered, false, |ps|, i);
    }
  }

  /** The planner never counts more than there is. */
  lemma {:induction false} SaturatedBelow(ps: seq<Param>, br: bool, lowered: set<nat>, n: nat)
    requires Fresh(ps) && n <= |ps|
    ensures Total(ps, br, lowered, false, n) <= Total(ps, br, lowered, true, n)
  {
    hide Leaves;
    if n > 0 {
      SaturatedBelow(ps, br, lowered, n - 1);
    }
  }

  // ---------- lowering one more parameter ----------

  lemma {:induction false} TotalUnaffected(ps: seq<Param>, br: bool, lowered: set<nat>, exact: bool, n: nat, i: nat)
    requires n <= |ps| && n <= i
    ensures Total(ps, br, lowered + {i}, exact, n) == Total(ps, br, lowered, exact, n)
  {
    if n > 0 {
      TotalUnaffected(ps, br, lowered, exact, n - 1, i);
    }
  }

  lemma {:induction false} TotalLowers(ps: seq<Param>, br: bool, lowered: set<nat>, n: nat, i: nat)
    requires i < n <= |ps| && Lowerable(ps, br, i) && i !in lowered
    ensures Total(ps, br, lowered + {i}, false, n) + (ps[i].leafCount - 1) == Total(ps, br, lowered, false, n)
  {
    if i == n - 1 {
      TotalUnaffected(ps, br, lowered, false, n - 1, i);
    } else {
      TotalLowers(ps, br, lowered, n - 1, i);
    }
  }

  // ---------- candidates, largest first ----------

  /** The candidates in the order of lowering: all lowerable parameters, once, by falling
      leaf count. */
  ghost predicate Candidates(ps: seq<Param>, br: bool, order: seq<nat>) {
    && (forall k :: 0 <= k < |order| ==> Lowerable(ps, br, order[k]))
    && (forall i: nat :: Lowerable(ps, br, i) ==> i in order)
    && (forall k, l :: 0 <= k < l < |order| ==> order[k] != order[l])
    && (forall k, l :: 0 <= k < l < |order| ==> ps[order[k]].leafCount >= ps[order[l]].leafCount)
  }

  function Prefix(order: seq<nat>, n: nat): set<nat>
    requires n <= |order|
  {
    set k | 0 <= k < n :: order[k]
  }

  /** What the first n candidates save. */
  function Saved(ps: seq<Param>, order: seq<nat>, n: nat): int
    requires n <= |order| && forall k :: 0 <= k < |order| ==> order[k] < |ps|
  {
    if n == 0 then 0 else Saved(ps, order, n - 1) + ps[order[n - 1]].leafCount - 1
  }

  /** What the members of a set among the first n candidates save. */
  function SavedBy(ps: seq<Param>, order: seq<nat>, s: set<nat>, n: nat): int
    requires n <= |order| && forall k :: 0 <= k < |order| ==> order[k] < |ps|
  {
    if n == 0 then 0
    else SavedBy(ps, order, s, n - 1) + if order[n - 1] in s then ps[order[n - 1]].leafCount - 1 else 0
  }

  function Members(order: seq<nat>, s: set<nat>, n: nat): nat
    requires n <= |order|
  {
    if n == 0 then 0 else Members(order, s, n - 1) + if order[n - 1] in s then 1 else 0
  }

  lemma {:induction false} MembersBound(order: seq<nat>, s: set<nat>, n: nat)
    requires n <= |order|
    ensures Members(order, s, n) <= n
  {
    if n > 0 {
      MembersBound(order, s, n - 1);
    }
  }

  /** Members of a set save no more than as many candidates from the front. */
  lemma {:induction false} FrontSavesMost(ps: seq<Param>, br: bool, order: seq<nat>, s: set<nat>, n: nat)
    requires Candidates(ps, br, order) && n <= |order|
    ensures Members(order, s, n) <= n
    ensures SavedBy(ps, order, s, n) <= Saved(ps, order, Members(order, s, n))
  {
    MembersBound(order, s, n);
    if n > 0 {
      FrontSavesMost(ps, br, order, s, n - 1);
      MembersBound(order, s, n - 1);
    }
  }

  lemma {:induction false} SavedGrows(ps: seq<Param>, br: bool, order: seq<nat>, m: nat, n: nat)
    requires Candidates(ps, br, order) && m <= n <= |order|
    ensures Saved(ps, order, m) <= Saved(ps, order, n)
    decreases n - m
  {
    if m < n {
      SavedGrows(ps, br, order, m, n - 1);
      assert Lowerable(ps, br, order[n - 1]);
    }
  }

  lemma {:induction false} MembersAtMost(order: seq<nat>, s: set<nat>, n: nat)
    requires n <= |order| && forall k, l :: 0 <= k < l < |order| ==> order[k] != order[l]
    ensures Members(order, s, n) <= |s|
    decreases n
  {
    MembersAre(order, s, n);
    var p := s * Prefix(order, n);
    assert p <= s;
    SubsetSize(p, s);
  }

  lemma {:induction false} MembersAre(order: seq<nat>, s: set<nat>, n: nat)
    requires n <= |order| && forall k, l :: 0 <= k < l < |order| ==> order[k] != order[l]
    ensures Members(order, s, n) == |s * Prefix(order, n)|
  {
    hide Prefix;
    if n > 0 {
      MembersAre(order, s, n - 1);
      PrefixStep(order, n);
      MeetStep(s, Prefix(order, n - 1), order[n - 1]);
    } else {
      PrefixNone(order);
      assert s * Prefix(order, 0) == {};
    }
  }

  lemma PrefixNone(order: seq<nat>)
    ensures Prefix(order, 0) == {}
  {
  }

  lemma PrefixStep(order: seq<nat>, n: nat)
    requires 0 < n <= |order| && forall k, l :: 0 <= k < l < |order| ==> order[k] != order[l]
    ensures Prefix(order, n) == Prefix(order, n - 1) + {order[n - 1]} && order[n - 1] !in Prefix(order, n - 1)
  {
  }

  /** Lowering a set of candidates reduces the total by what its members save. */
  lemma {:induction false} TotalBySaved(ps: seq<Param>, br: bool, order: seq<nat>, s: set<nat>, n: nat)
    requires Candidates(ps, br, order) && n <= |order|
    ensures Total(ps, br, s * Prefix(order, n), false, |ps|) + SavedBy(ps, order, s, n) == Total(ps, br, {}, false, |ps|)
  {
    if n == 0 {
      assert s * Prefix(order, 0) == {};
    } else {
      TotalBySaved(ps, br, order, s, n - 1);
      var x := order[n - 1];
      assert Prefix(order, n) == Prefix(order, n - 1) + {x};
      assert x !in Prefix(order, n - 1);
      if x in s {
        TotalLowers(ps, br, s * Prefix(order, n - 1), |ps|, x);
        assert s * Prefix(order, n) == s * Prefix(order, n - 1) + {x};
      } else {
        assert s * Prefix(order, n) == s * Prefix(order, n - 1);
      }
    }
  }

  /** Lowering the first n candidates. */
  lemma TotalOfFront(ps: seq<Param>, br: bool, order: seq<nat>, n: nat)
    requires Candidates(ps, br, order) && n <= |order|
    ensures Total(ps, br, Prefix(order, n), false, |ps|) + Saved(ps, order, n) == Total(ps, br, {}, false, |ps|)
  {
    TotalBySaved(ps, br, order, Prefix(order, n), n);
    assert Prefix(order, n) * Prefix(order, n) == Prefix(order, n);
    FrontSaves(ps, order, n, n);
  }

  lemma {:induction false} FrontSaves(ps: seq<Param>, order: seq<nat>, n: nat, m: nat)
    requires m <= n <= |order| && forall k :: 0 <= k < |order| ==> order[k] < |ps|
    ensures SavedBy(ps, order, Prefix(order, n), m) == Saved(ps, order, m)
  {
    if m > 0 {
      FrontSaves(ps, order, n, m - 1);
      assert order[m - 1] in Prefix(order, n);
    }
  }

  // ---------- the greedy choice is the smallest ----------

  /** lowered is a smallest set of lowerable parameters that meets the cap; when no set
      does, it is all of them. */
  ghost predicate Smallest(ps: seq<Param>, br: bool, base: nat, lowered: set<nat>) {
    && (forall i :: i in lowered ==> Lowerable(ps, br, i))
    && if Fits(ps, br, base, lowered, true) then
         forall s: set<nat> :: Fits(ps, br, base, s, true) && (forall i :: i in s ==> Lowerable(ps, br, i))
           ==> |lowered| <= |s|
       else
         forall i: nat :: Lowerable(ps, br, i) ==> i in lowered
  }

  lemma PrefixSize(order: seq<nat>, n: nat)
    requires n <= |order| && forall k, l :: 0 <= k < l < |order| ==> order[k] != order[l]
    ensures |Prefix(order, n)| == n
  {
    AllMembers(order, n, n);
    MembersAre(order, Prefix(order, n), n);
    assert Prefix(order, n) * Prefix(order, n) == Prefix(order, n);
  }

  lemma {:induction false} AllMembers(order: seq<nat>, n: nat, m: nat)
    requires m <= n <= |order|
    ensures Members(order, Prefix(order, n), m) == m
  {
    if m > 0 {
      AllMembers(order, n, m - 1);
      assert order[m - 1] in Prefix(order, n);
    }
  }

  /** Any set of lowerable parameters with fewer members saves no more than the front. */
  lemma FewerSaveLess(ps: seq<Param>, br: bool, order: seq<nat>, s: set<nat>, n: nat)
    requires Candidates(ps, br, order) && n <= |order| && |s| <= n
    requires forall i :: i in s ==> Lowerable(ps, br, i)
    ensures Total(ps, br, s, false, |ps|) >= Total(ps, br, Prefix(order, n), false, |ps|)
  {
    TotalBySaved(ps, br, order, s, |order|);
    assert s * Prefix(order, |order|) == s;
    FrontSavesMost(ps, br, order, s, |order|);
    MembersAtMost(order, s, |order|);
    SavedGrows(ps, br, order, Members(order, s, |order|), n);
    TotalOfFront(ps, br, order, n);
  }

  /** The greedy loop stops at the first n that fits, or has lowered everything. */
  lemma GreedySmallest(ps: seq<Param>, br: bool, base: nat, order: seq<nat>, n: nat)
    requires Fresh(ps) && Candidates(ps, br, order) && n <= |order|
    requires n > 0 ==> !Fits(ps, br, base, Prefix(order, n - 1), false)
    requires n < |order| ==> Fits(ps, br, base, Prefix(order, n), false)
    ensures Smallest(ps, br, base, Prefix(order, n))
  {
    var lowered := Prefix(order, n);
    SaturationHarmless(ps, br, base, lowered);
    if Fits(ps, br, base, lowered, true) {
      forall s: set<nat> | Fits(ps, br, base, s, true) && (forall i :: i in s ==> Lowerable(ps, br, i))
        ensures |lowered| <= |s|
      {
        PrefixSize(order, n);
        SaturationHarmless(ps, br, base, s);
        if |s| < n {
          FewerSaveLess(ps, br, order, s, n - 1);
          assert false;
        }
      }
    }
  }

  // ---------- against any choice ----------

  /** The members of a set that may be lowered. */
  ghost function OnlyLowerable(ps: seq<Param>, br: bool, s: set<nat>): set<nat> {
    set i | i in s && Lowerable(ps, br, i)
  }

  /** Passing anything else by pointer saves nothing. */
  lemma {:induction false} OthersSaveNothing(ps: seq<Param>, br: bool, s: set<nat>, n: nat)
    requires Fresh(ps) && n <= |ps|
    ensures Total(ps, br, OnlyLowerable(ps, br, s), true, n) <= Total(ps, br, s, true, n)
  {
    hide Leaves;
    if n > 0 {
      OthersSaveNothing(ps, br, s, n - 1);
      ScalarLeaf(ps[n - 1].typ);
    }
  }

  lemma ScalarLeaf(t: Type)
    ensures t.Scalar? ==> Leaves(t) == 1
  {
  }

  /** Lowering more parameters takes no more scalars. */
  lemma {:induction false} MoreSaves(ps: seq<Param>, br: bool, s: set<nat>, all: set<nat>, n: nat)
    requires Fresh(ps) && n <= |ps| && s <= all && forall i :: i in all ==> Lowerable(ps, br, i)
    ensures Total(ps, br, all, true, n) <= Total(ps, br, s, true, n)
  {
    hide Leaves;
    if n > 0 {
      MoreSaves(ps, br, s, all, n - 1);
    }
  }

  lemma SubsetSize(a: set<nat>, b: set<nat>)
    requires a <= b
    ensures |a| <= |b|
  {
    assert b == a + (b - a);
  }

  /** A smallest choice of lowerable parameters is a smallest choice of any parameters: if
      passing some set of them by pointer meets the cap, it does so with no more of them. */
  lemma SmallestOfAny(ps: seq<Param>, br: bool, base: nat, lowered: set<nat>, s: set<nat>)
    requires Fresh(ps) && Smallest(ps, br, base, lowered) && Fits(ps, br, base, s, true)
    ensures Fits(ps, br, base, lowered, true) && |lowered| <= |s|
  {
    hide Total, Lowerable, Fresh;
    var useful := OnlyLowerable(ps, br, s);
    OthersSaveNothing(ps, br, s, |ps|);
    if !Fits(ps, br, base, lowered, true) {
      MoreSaves(ps, br, useful, lowered, |ps|);
      assert false;
    }
    SubsetSize(useful, s);
  }
}
