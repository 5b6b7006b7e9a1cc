/**
 The loop search of the compiler: which basic blocks lie on a cycle of the control-flow
 graph.  One LoopFinder serves all queries made while a function is compiled.
 */
module Tarjan {
  import opened Graph
  import opened TarjanSpec

  class LoopFinder {
    const succs: Graph
    const nodes: array<TarjanNode>
    var stack: seq<nat>
    var index: nat
    ghost var num: seq<nat>

    ghost function Now(): View
      reads this, nodes
    {
      View(nodes[..], stack, index, num)
    }

    ghost predicate Valid()
      reads this, nodes
    {
      Idle(succs, Now())
    }

    constructor (g: Graph)
      requires WellFormed(g)
      ensures Valid() && succs == g && fresh(nodes)
    {
      succs := g;
      nodes := new TarjanNode[|g|](_ => FreshNode);
      stack, index := [], 0;
      num := seq(|g|, _ => 0);
      new;
      InitialIdle(g);
      assert nodes[..] == seq(|g|, _ => FreshNode);
    }

    /** Is there a path of at least one edge from the block to itself? */
    method IsInLoop(block: nat) returns (cyclic: bool)
      requires Valid() && block < |succs|
      modifies this, nodes
      ensures Valid()
      ensures cyclic <==> InCycle(succs, block)
      ensures stack == []
    {
      hide Reach, InCycle, HasGray, HasLow, Ordered, Settled;
      IdleStackEmpty(succs, Now());
      if nodes[block].lowLink == 0 {
        StrongConnect(block, {});
      }
      IdleStackEmpty(succs, Now());
      IdleExact(succs, Now(), block);
      cyclic := nodes[block].cyclic;
    }

    /** Visit the block and everything reachable from it that is not yet visited; gray
        holds the blocks whose calls are running. */
    method StrongConnect(block: nat, ghost gray: set<nat>)
      requires Inv(succs, Now(), gray) && block < |succs| && !Seen(Now(), block)
      requires forall y: nat :: On(Now(), y) ==> Reach(succs, y, block)
      modifies this, nodes
      ensures Connected(succs, old(Now()), Now(), gray, block)
      decreases Unvisited(Now()), 0
    {
      hide Reach, InCycle, Edge, Ordered, StackLinks, Settled, EdgesBounded, HasGray, HasLow, Extends;
      ghost var pre := Now();
      PushScanning(succs, pre, gray, block);
      var assignedIndex := PushBlock(block);
      for k := 0 to |succs[block]|
        invariant Scanning(succs, pre, Now(), gray, block, k)
      {
        VisitedMore(succs, pre, Now(), gray, block, k);
        ScanSuccessor(block, gray, k, pre);
      }
      if nodes[block].lowLink == assignedIndex {
        FinishRoot(succs, pre, Now(), gray, block);
        CutAt(succs, pre, Now(), gray, block);
        PopComponent(block, |pre.stack|);
      } else {
        FinishInner(succs, pre, Now(), gray, block);
      }
    }

    /** Give the block the next index and put it on the stack. */
    method PushBlock(block: nat) returns (assignedIndex: nat)
      requires block < |succs| == nodes.Length == |num|
      modifies this, nodes
      ensures Now() == Push(old(Now()), block) && assignedIndex == index
    {
      assignedIndex := index + 1;
      index := assignedIndex;
      nodes[block] := nodes[block].(lowLink := assignedIndex, onStack := true);
      stack := stack + [block];
      num := num[block := assignedIndex];
    }

    /** Process one successor of the block that is being visited. */
    method ScanSuccessor(block: nat, ghost gray: set<nat>, k: nat, ghost pre: View)
      requires Scanning(succs, pre, Now(), gray, block, k) && k < |succs[block]|
      modifies this, nodes
      ensures Scanning(succs, pre, Now(), gray, block, k + 1)
      decreases Unvisited(Now()), 1
    {
      hide Reach, InCycle, Edge, Ordered, StackLinks, Settled, EdgesBounded, HasGray, HasLow, Extends;
      var successor := succs[block][k];
      ghost var s := Now();
      if successor == block {
        // A self edge is a cycle of its own.
        ScanSelf(succs, pre, s, gray, block, k);
        nodes[block] := nodes[block].(cyclic := true);
        assert Now() == SetCyclic(s, block);
        return;
      }
      if nodes[successor].lowLink == 0 {
        SuccessorEdge(succs, block, k);
        forall y: nat | On(s, y) ensures Reach(succs, y, successor) {
          ScanReaches(succs, pre, s, gray, block, k, successor, y);
        }
        StrongConnect(successor, gray + {block});
        ScanNew(succs, pre, s, Now(), gray, block, k);
      } else if !nodes[successor].onStack {
        // Visited, and in another component.
        ScanDone(succs, pre, s, gray, block, k);
        return;
      } else {
        ScanOn(succs, pre, s, gray, block, k);
      }
      ghost var s' := Now();
      if nodes[successor].lowLink < nodes[block].lowLink {
        nodes[block] := nodes[block].(lowLink := nodes[successor].lowLink);
      }
      assert Now() == Lower(s', block, successor);
    }

    /** Take the top block off the stack. */
    method PopTop() returns (top: nat)
      requires |stack| > 0 && stack[|stack| - 1] < nodes.Length
      modifies this, nodes
      ensures top == old(stack)[|old(stack)| - 1] && stack == old(stack)[..|old(stack)| - 1]
      ensures nodes[..] == old(nodes[..])[top := old(nodes[..])[top].(onStack := false)]
      ensures index == old(index) && num == old(num)
    {
      top := stack[|stack| - 1];
      stack := stack[..|stack| - 1];
      nodes[top] := nodes[top].(onStack := false);
    }

    method MarkCyclic(block: nat)
      requires block < nodes.Length
      modifies nodes
      ensures nodes[..] == old(nodes[..])[block := old(nodes[..])[block].(cyclic := true)]
    {
      nodes[block] := nodes[block].(cyclic := true);
    }

    /** Pop the stack down to and including the root; several blocks popped together are
        all on a cycle. */
    method PopComponent(root: nat, ghost n: nat)
      requires Shape(succs, Now()) && n < |stack| && stack[n] == root
      modifies this, nodes
      ensures Now() == Popped(old(Now()), n)
    {
      hide Shape, Cut;
      ghost var s := Now();
      ghost var m := |stack| - 1;
      CutNothing(s, |stack| > n + 1);
      CutStep(succs, s, m, |s.stack| > n + 1);
      RootPosition(succs, s, n, m);
      var top := PopTop();
      if top != root {
        MarkCyclic(top);
        while top != root
          invariant n <= m < |s.stack| && top == s.stack[m] && |s.stack| > n + 1
          invariant index == s.index && num == s.num
          invariant stack == s.stack[..m] && nodes[..] == Cut(s, m, true).nodes
          decreases m
        {
          RootPosition(succs, s, n, m);
          m := m - 1;
          CutStep(succs, s, m, true);
          RootPosition(succs, s, n, m);
          top := PopTop();
          MarkCyclic(top);
        }
        RootPosition(succs, s, n, m);
      }
      CutFields(s, n, |s.stack| > n + 1);
    }
  }

  lemma CutFields(s: View, n: nat, multi: bool)
    requires n <= |s.stack|
    ensures var t := Cut(s, n, multi);
            t.stack == s.stack[..n] && t.index == s.index && t.num == s.num
  {
  }

  /** The root occurs once on the stack. */
  lemma RootPosition(g: Graph, s: View, n: nat, m: nat)
    requires Shape(g, s) && n <= m < |s.stack|
    ensures s.stack[m] == s.stack[n] <==> m == n
    ensures s.stack[m] < |s.nodes|
  {
    hide WellFormed;
    assert On(s, s.stack[m]);
    if n < m {
      assert s.num[s.stack[n]] < s.num[s.stack[m]];
    }
  }
}
