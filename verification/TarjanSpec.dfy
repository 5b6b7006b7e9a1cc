/**
 The invariant of the loop search (strongConnect and isInLoop), stated on values.

 The search keeps one lowLink field per block.  It doubles as the visit index and is
 lowered to the lowLink of any successor still on the stack, so after the first update
 the index is gone.  The ghost sequence num remembers it.
 */
module TarjanSpec {
  import opened Graph

  datatype TarjanNode = TarjanNode(lowLink: nat, onStack: bool, cyclic: bool)

  const FreshNode := TarjanNode(0, false, false)

  /** The search state: per-block nodes, the component stack, the last assigned index,
      and the index each block was given (0 when not yet visited). */
  datatype View = View(nodes: seq<TarjanNode>, stack: seq<nat>, index: nat, num: seq<nat>)

  predicate On(s: View, x: nat) { x < |s.nodes| && s.nodes[x].onStack }

  predicate Seen(s: View, x: nat) { x < |s.num| && s.num[x] > 0 }

  predicate Done(s: View, x: nat) { Seen(s, x) && !On(s, x) }

  ghost predicate Shape(g: Graph, s: View) {
    && WellFormed(g)
    && |s.nodes| == |g| && |s.num| == |g|
    && (forall x: nat :: 0 <= x < |g| ==> s.nodes[x].lowLink <= s.num[x] <= s.index)
    && (forall x: nat :: 0 <= x < |g| ==> (s.nodes[x].lowLink == 0 <==> s.num[x] == 0))
    && (forall x: nat :: On(s, x) ==> Seen(s, x) && x in s.stack)
    && (forall i :: 0 <= i < |s.stack| ==> On(s, s.stack[i]))
    && (forall i, j :: 0 <= i < j < |s.stack| ==> s.num[s.stack[i]] < s.num[s.stack[j]])
  }

  /** Stacked blocks reach every block stacked after them; indices identify them. */
  ghost predicate Ordered(g: Graph, s: View)
    requires Shape(g, s)
  {
    && (forall x: nat, y: nat :: On(s, x) && On(s, y) && s.num[x] <= s.num[y] ==> Reach(g, x, y))
    && (forall x: nat, y: nat :: On(s, x) && On(s, y) && s.num[x] == s.num[y] ==> x == y)
  }

  /** y leads back to a block, no younger than y, whose call is still running. */
  ghost predicate HasGray(g: Graph, s: View, gray: set<nat>, y: nat)
    requires Shape(g, s) && On(s, y)
  {
    exists x: nat :: x in gray && On(s, x) && s.num[x] <= s.num[y] && Reach(g, y, x)
  }

  /** The lowLink of y is the index of a stacked block that y reaches. */
  ghost predicate HasLow(g: Graph, s: View, y: nat)
    requires Shape(g, s) && On(s, y)
  {
    exists w: nat :: On(s, w) && s.num[w] == s.nodes[y].lowLink && Reach(g, y, w)
  }

  ghost predicate StackLinks(g: Graph, s: View, gray: set<nat>)
    requires Shape(g, s)
  {
    && (forall x: nat :: x in gray ==> On(s, x))
    && (forall y: nat :: On(s, y) ==> HasGray(g, s, gray, y))
    && (forall y: nat :: On(s, y) ==> HasLow(g, s, y))
  }

  /** Blocks whose call has returned have no unvisited successors, and blocks that left
      the stack form a closed region in which the cyclic flag is already exact. */
  ghost predicate Settled(g: Graph, s: View, gray: set<nat>)
    requires Shape(g, s)
  {
    && (forall u: nat, w: nat :: Seen(s, u) && u !in gray && Edge(g, u, w) ==> Seen(s, w))
    && (forall u: nat, w: nat :: Done(s, u) && Edge(g, u, w) ==> Done(s, w))
    && (forall u: nat :: Done(s, u) ==> (s.nodes[u].cyclic <==> InCycle(g, u)))
    && (forall u: nat :: On(s, u) && u !in gray ==> (s.nodes[u].cyclic <==> Edge(g, u, u)))
    && (forall u: nat :: 0 <= u < |g| && !Seen(s, u) ==> !s.nodes[u].cyclic)
  }

  /** Holds whenever control is outside the stack updates; gray is the set of blocks
      whose strongConnect call is still running. */
  ghost predicate Inv(g: Graph, s: View, gray: set<nat>) {
    && Shape(g, s)
    && Ordered(g, s)
    && StackLinks(g, s, gray)
    && Settled(g, s, gray)
  }

  /** s' came from s by visiting more blocks: what was visited is untouched, and what is
      new has a later index and lies above the old stack. */
  ghost predicate Extends(s: View, s': View) {
    && (forall x: nat :: Seen(s, x) ==> s.num[x] <= s.index)
    && |s'.nodes| == |s.nodes| && |s'.num| == |s.num| && |s.num| == |s.nodes|
    && s.index <= s'.index
    && s.stack <= s'.stack
    && (forall x: nat :: Seen(s, x) ==> s'.num[x] == s.num[x] && s'.nodes[x] == s.nodes[x])
    && (forall x: nat :: Seen(s', x) && !Seen(s, x) ==> s'.num[x] > s.index)
    && (forall x: nat :: On(s', x) && Seen(s, x) ==> On(s, x))
  }

  /** Every edge that leaves a stacked block visited after index i for a stacked block is
      accounted for by the bound low. */
  ghost predicate EdgesBounded(g: Graph, s: View, i: nat, low: nat)
    requires Shape(g, s)
  {
    forall u: nat, w: nat :: On(s, u) && s.num[u] > i && Edge(g, u, w) && On(s, w) ==> low <= s.num[w]
  }

  /** v, pushed on the state pre, has had its first k successors processed. */
  ghost predicate ScanCore(g: Graph, pre: View, s: View, gray: set<nat>, v: nat, k: nat)
    requires Shape(g, s)
  {
    && v < |g| && !Seen(pre, v) && k <= |g[v]|
    && Extends(pre, s)
    && On(s, v) && s.num[v] == pre.index + 1
    && (forall x :: x in gray ==> On(pre, x) && s.num[x] <= pre.index)
    && pre.stack + [v] <= s.stack
    && (forall j :: 0 <= j < k ==> Seen(s, g[v][j]))
    && (forall j :: 0 <= j < k && On(s, g[v][j]) ==> s.nodes[v].lowLink <= s.num[g[v][j]])
    && (s.nodes[v].cyclic <==> v in g[v][..k])
  }

  ghost predicate ScanFrame(g: Graph, pre: View, s: View, gray: set<nat>, v: nat, k: nat)
    requires Shape(g, s)
  {
    && ScanCore(g, pre, s, gray, v, k)
    && EdgesBounded(g, s, s.num[v], s.nodes[v].lowLink)
  }

  /** The state while v, the youngest running call, scans its successors. */
  ghost predicate Scanning(g: Graph, pre: View, s: View, gray: set<nat>, v: nat, k: nat) {
    Inv(g, s, gray + {v}) && ScanFrame(g, pre, s, gray, v, k)
  }

  /** What a call of strongConnect(v) achieves. */
  ghost predicate Connected(g: Graph, pre: View, s: View, gray: set<nat>, v: nat) {
    && Inv(g, s, gray)
    && Extends(pre, s)
    && v < |g| && Seen(s, v) && !Seen(pre, v)
    && (On(s, v) ==> EdgesBounded(g, s, pre.index, s.nodes[v].lowLink))
    && (!On(s, v) ==> s.stack == pre.stack && s.nodes[v].lowLink > pre.index)
  }

  // ---------- introducing and using the two existential facts ----------

  lemma GrayOf(g: Graph, s: View, gray: set<nat>, y: nat) returns (x: nat)
    requires Shape(g, s) && On(s, y) && HasGray(g, s, gray, y)
    ensures x in gray && On(s, x) && s.num[x] <= s.num[y] && Reach(g, y, x)
  {
    hide Reach;
    x :| x in gray && On(s, x) && s.num[x] <= s.num[y] && Reach(g, y, x);
  }

  lemma GrayBy(g: Graph, s: View, gray: set<nat>, y: nat, x: nat)
    requires Shape(g, s) && On(s, y)
    requires x in gray && On(s, x) && s.num[x] <= s.num[y] && Reach(g, y, x)
    ensures HasGray(g, s, gray, y)
  {
  }

  lemma LowOf(g: Graph, s: View, y: nat) returns (w: nat)
    requires Shape(g, s) && On(s, y) && HasLow(g, s, y)
    ensures On(s, w) && s.num[w] == s.nodes[y].lowLink && Reach(g, y, w)
  {
    hide Reach;
    w :| On(s, w) && s.num[w] == s.nodes[y].lowLink && Reach(g, y, w);
  }

  lemma LowBy(g: Graph, s: View, y: nat, w: nat)
    requires Shape(g, s) && On(s, y)
    requires On(s, w) && s.num[w] == s.nodes[y].lowLink && Reach(g, y, w)
    ensures HasLow(g, s, y)
  {
  }

  // ---------- visiting a block ----------

  function Push(s: View, v: nat): View
    requires v < |s.nodes| && v < |s.num|
  {
    View(s.nodes[v := s.nodes[v].(lowLink := s.index + 1, onStack := true)],
         s.stack + [v], s.index + 1, s.num[v := s.index + 1])
  }

  lemma PushShape(g: Graph, s: View, v: nat)
    requires Shape(g, s) && v < |g| && !Seen(s, v)
    ensures Shape(g, Push(s, v)) && Extends(s, Push(s, v))
    ensures forall x: nat :: On(Push(s, v), x) <==> x == v || On(s, x)
  {
    hide Reach, InCycle, HasGray, HasLow;
    var t := Push(s, v);
    assert !On(s, v);
    forall i | 0 <= i < |t.stack| ensures On(t, t.stack[i]) {
      if i < |s.stack| { assert On(s, s.stack[i]); }
    }
    forall x: nat | On(t, x) ensures Seen(t, x) && x in t.stack {
      if x == v { assert t.stack[|s.stack|] == v; } else { assert On(s, x); }
    }
  }

  lemma PushOrdered(g: Graph, s: View, v: nat)
    requires Shape(g, s) && Ordered(g, s) && v < |g| && !Seen(s, v)
    requires forall y: nat :: On(s, y) ==> Reach(g, y, v)
    ensures Shape(g, Push(s, v)) && Ordered(g, Push(s, v))
  {
    hide Reach, InCycle, HasGray, HasLow;
    PushShape(g, s, v);
    ReachRefl(g, v);
  }

  lemma PushLinks(g: Graph, s: View, gray: set<nat>, v: nat)
    requires Inv(g, s, gray) && v < |g| && !Seen(s, v)
    ensures Shape(g, Push(s, v)) && StackLinks(g, Push(s, v), gray + {v})
  {
    hide Reach, InCycle, HasGray, HasLow;
    PushShape(g, s, v);
    var t := Push(s, v);
    ReachRefl(g, v);
    forall y: nat | On(t, y) ensures HasGray(g, t, gray + {v}, y) && HasLow(g, t, y) {
      if y != v {
        var x := GrayOf(g, s, gray, y);
        GrayBy(g, t, gray + {v}, y, x);
        var w := LowOf(g, s, y);
        LowBy(g, t, y, w);
      } else {
        GrayBy(g, t, gray + {v}, v, v);
        LowBy(g, t, v, v);
      }
    }
  }

  lemma PushSettled(g: Graph, s: View, gray: set<nat>, v: nat)
    requires Inv(g, s, gray) && v < |g| && !Seen(s, v)
    ensures Shape(g, Push(s, v)) && Settled(g, Push(s, v), gray + {v})
  {
    hide Reach, InCycle, HasGray, HasLow;
    PushShape(g, s, v);
    var t := Push(s, v);
    assert forall x: nat :: Done(t, x) <==> Done(s, x);
  }

  lemma PushScanning(g: Graph, s: View, gray: set<nat>, v: nat)
    requires Inv(g, s, gray) && v < |g| && !Seen(s, v)
    requires forall y: nat :: On(s, y) ==> Reach(g, y, v)
    ensures Scanning(g, s, Push(s, v), gray, v, 0)
  {
    hide Reach, InCycle, HasGray, HasLow;
    PushShape(g, s, v);
    PushOrdered(g, s, v);
    PushLinks(g, s, gray, v);
    PushSettled(g, s, gray, v);
    var t := Push(s, v);
    assert v in t.stack;
    assert EdgesBounded(g, t, t.num[v], t.nodes[v].lowLink);
  }

  // ---------- scanning a successor ----------

  function SetLow(s: View, v: nat, low: nat): View
    requires v < |s.nodes|
  {
    s.(nodes := s.nodes[v := s.nodes[v].(lowLink := low)])
  }

  function SetCyclic(s: View, v: nat): View
    requires v < |s.nodes|
  {
    s.(nodes := s.nodes[v := s.nodes[v].(cyclic := true)])
  }

  /** t differs from s only in the lowLink and the cyclic flag of the stacked block v. */
  ghost predicate Tweaked(s: View, t: View, v: nat) {
    && t.stack == s.stack && t.index == s.index && t.num == s.num && |t.nodes| == |s.nodes|
    && (forall x: nat :: x < |s.nodes| && x != v ==> t.nodes[x] == s.nodes[x])
    && On(s, v) && On(t, v) && v < |s.num| && 0 < t.nodes[v].lowLink <= s.num[v]
  }

  lemma TweakedShape(g: Graph, s: View, t: View, v: nat)
    requires Shape(g, s) && Tweaked(s, t, v)
    ensures Shape(g, t)
    ensures forall x: nat :: On(t, x) <==> On(s, x)
  {
    hide WellFormed;
    assert forall x: nat :: On(t, x) <==> On(s, x);
  }

  lemma TweakedLinks(g: Graph, s: View, t: View, gray: set<nat>, v: nat, low: nat)
    requires Shape(g, s) && StackLinks(g, s, gray) && Tweaked(s, t, v)
    requires On(s, low) && s.num[low] == t.nodes[v].lowLink && Reach(g, v, low)
    ensures Shape(g, t) && StackLinks(g, t, gray)
  {
    hide Reach, HasGray, HasLow;
    TweakedShape(g, s, t, v);
    forall y: nat | On(t, y) ensures HasGray(g, t, gray, y) && HasLow(g, t, y) {
      var x := GrayOf(g, s, gray, y);
      GrayBy(g, t, gray, y, x);
      if y == v {
        LowBy(g, t, v, low);
      } else {
        var w := LowOf(g, s, y);
        LowBy(g, t, y, w);
      }
    }
  }

  lemma TweakedInv(g: Graph, s: View, t: View, gray: set<nat>, v: nat, low: nat)
    requires Inv(g, s, gray) && v in gray && Tweaked(s, t, v)
    requires On(s, low) && s.num[low] == t.nodes[v].lowLink && Reach(g, v, low)
    ensures Inv(g, t, gray)
    ensures forall x: nat :: On(t, x) <==> On(s, x)
  {
    hide Reach, InCycle, HasGray, HasLow, Edge;
    TweakedShape(g, s, t, v);
    TweakedLinks(g, s, t, gray, v, low);
    assert forall x: nat :: Done(t, x) <==> Done(s, x);
  }

  lemma TweakedCore(g: Graph, pre: View, s: View, t: View, gray: set<nat>, v: nat, k: nat)
    requires Shape(g, s) && ScanCore(g, pre, s, gray, v, k) && k < |g[v]|
    requires Tweaked(s, t, v) && t.nodes[v].lowLink <= s.nodes[v].lowLink
    requires Seen(s, g[v][k]) && (On(s, g[v][k]) ==> t.nodes[v].lowLink <= s.num[g[v][k]])
    requires t.nodes[v].cyclic <==> s.nodes[v].cyclic || g[v][k] == v
    ensures Shape(g, t) && ScanCore(g, pre, t, gray, v, k + 1)
  {
    TweakedShape(g, s, t, v);
    assert g[v][..k + 1] == g[v][..k] + [g[v][k]];
    assert forall x: nat :: Seen(t, x) <==> Seen(s, x);
  }

  lemma TweakedEdges(g: Graph, s: View, t: View, v: nat, i: nat, low: nat)
    requires Shape(g, s) && Tweaked(s, t, v) && EdgesBounded(g, s, i, low)
    ensures Shape(g, t) && EdgesBounded(g, t, i, low)
  {
    hide Edge;
    TweakedShape(g, s, t, v);
  }

  lemma TweakedFrame(g: Graph, pre: View, s: View, t: View, gray: set<nat>, v: nat, k: nat)
    requires Shape(g, s) && ScanFrame(g, pre, s, gray, v, k) && k < |g[v]|
    requires Tweaked(s, t, v) && t.nodes[v].lowLink <= s.nodes[v].lowLink
    requires Seen(s, g[v][k]) && (On(s, g[v][k]) ==> t.nodes[v].lowLink <= s.num[g[v][k]])
    requires t.nodes[v].cyclic <==> s.nodes[v].cyclic || g[v][k] == v
    ensures Shape(g, t) && ScanFrame(g, pre, t, gray, v, k + 1)
  {
    hide Edge, ScanCore;
    TweakedCore(g, pre, s, t, gray, v, k);
    assert EdgesBounded(g, s, s.num[v], t.nodes[v].lowLink);
    TweakedEdges(g, s, t, v, s.num[v], t.nodes[v].lowLink);
  }

  /** A self edge sets the cyclic flag directly. */
  lemma ScanSelf(g: Graph, pre: View, s: View, gray: set<nat>, v: nat, k: nat)
    requires Scanning(g, pre, s, gray, v, k) && k < |g[v]| && g[v][k] == v
    ensures Scanning(g, pre, SetCyclic(s, v), gray, v, k + 1)
  {
    hide Reach, InCycle, HasGray, HasLow, Edge, Ordered, Settled, EdgesBounded;
    var t := SetCyclic(s, v);
    var low := LowOf(g, s, v);
    TweakedInv(g, s, t, gray + {v}, v, low);
    TweakedFrame(g, pre, s, t, gray, v, k);
  }

  /** A successor that already left the stack changes nothing. */
  lemma ScanDone(g: Graph, pre: View, s: View, gray: set<nat>, v: nat, k: nat)
    requires Scanning(g, pre, s, gray, v, k) && k < |g[v]| && g[v][k] != v
    requires Done(s, g[v][k])
    ensures Scanning(g, pre, s, gray, v, k + 1)
  {
    hide Reach, InCycle, HasGray, HasLow, Edge, Ordered, Settled, EdgesBounded;
    TweakedFrame(g, pre, s, s, gray, v, k);
  }

  /** The state after the lowLink update for successor w. */
  function Lower(s: View, v: nat, w: nat): View
    requires v < |s.nodes| && w < |s.nodes|
  {
    if s.nodes[w].lowLink < s.nodes[v].lowLink then SetLow(s, v, s.nodes[w].lowLink) else s
  }

  /** The lowLink update for a successor that is on the stack. */
  lemma ScanOn(g: Graph, pre: View, s: View, gray: set<nat>, v: nat, k: nat)
    requires Scanning(g, pre, s, gray, v, k) && k < |g[v]| && g[v][k] != v
    requires On(s, g[v][k])
    ensures Scanning(g, pre, Lower(s, v, g[v][k]), gray, v, k + 1)
  {
    hide Reach, InCycle, HasGray, HasLow, Ordered, Settled, EdgesBounded;
    var w := g[v][k];
    var t := Lower(s, v, w);
    if s.nodes[w].lowLink < s.nodes[v].lowLink {
      var x := LowOf(g, s, w);
      ReachStep(g, v, w, x);
      TweakedInv(g, s, t, gray + {v}, v, x);
    }
    TweakedFrame(g, pre, s, t, gray, v, k);
  }

  /** Every stacked block reaches an unvisited successor of v, so the nested call may push it. */
  lemma ScanReaches(g: Graph, pre: View, s: View, gray: set<nat>, v: nat, k: nat, w: nat, y: nat)
    requires Scanning(g, pre, s, gray, v, k)
    requires Edge(g, v, w) && On(s, y)
    ensures Reach(g, y, w)
  {
    hide Reach, InCycle, HasGray, HasLow;
    var x := GrayOf(g, s, gray + {v}, y);
    assert s.num[x] <= s.num[v];
    assert Reach(g, x, v);
    ReachTrans(g, y, x, v);
    ReachEdge(g, v, w);
    ReachTrans(g, y, v, w);
  }

  lemma SuccessorEdge(g: Graph, v: nat, k: nat)
    requires WellFormed(g) && v < |g| && k < |g[v]|
    ensures Edge(g, v, g[v][k])
  {
  }

  // ---------- returning from a nested call ----------

  lemma ReturnEdges(g: Graph, pre: View, s: View, s': View, gray: set<nat>, v: nat, k: nat, low: nat)
    requires Scanning(g, pre, s, gray, v, k) && k < |g[v]|
    requires Connected(g, s, s', gray + {v}, g[v][k])
    requires low <= s.nodes[v].lowLink && (On(s', g[v][k]) ==> low <= s'.nodes[g[v][k]].lowLink)
    ensures EdgesBounded(g, s', s.num[v], low)
  {
    hide Reach, InCycle, HasGray, HasLow, Edge, Ordered;
    forall u: nat, x: nat | On(s', u) && s'.num[u] > s.num[v] && Edge(g, u, x) && On(s', x)
      ensures low <= s'.num[x]
    {
      if !On(s', g[v][k]) {
        assert u in s.stack && On(s, u);
      }
      if Seen(s, u) {
        assert On(s, u) && u !in gray + {v};
        assert Seen(s, x) && On(s, x);
      }
    }
  }

  lemma ReturnCore(g: Graph, pre: View, s: View, s': View, gray: set<nat>, v: nat, k: nat)
    requires Scanning(g, pre, s, gray, v, k) && k < |g[v]| && g[v][k] != v && !Seen(s, g[v][k])
    requires Connected(g, s, s', gray + {v}, g[v][k])
    ensures ScanCore(g, pre, s', gray, v, k)
    ensures s'.nodes[v] == s.nodes[v] && s'.num[v] == s.num[v]
  {
    hide Reach, InCycle, HasGray, HasLow, Edge, Ordered, EdgesBounded, Settled;
    assert Seen(s, v);
    forall j | 0 <= j < k
      ensures Seen(s', g[v][j]) && (On(s', g[v][j]) ==> s.nodes[v].lowLink <= s'.num[g[v][j]])
    {
      assert Seen(s, g[v][j]);
    }
    forall x: nat | Seen(pre, x) ensures s'.num[x] == pre.num[x] && s'.nodes[x] == pre.nodes[x] {
      assert Seen(s, x);
    }
    forall x: nat | Seen(s', x) && !Seen(pre, x) ensures s'.num[x] > pre.index {
      if Seen(s, x) { assert s.num[x] > pre.index; }
    }
    forall x: nat | On(s', x) && Seen(pre, x) ensures On(pre, x) {
      assert Seen(s, x);
    }
  }

  /** A successor visited by a nested call: afterwards the shared lowLink update keeps the
      invariant, whether the successor stayed on the stack or left with its component. */
  lemma ScanNew(g: Graph, pre: View, s: View, s': View, gray: set<nat>, v: nat, k: nat)
    requires Scanning(g, pre, s, gray, v, k) && k < |g[v]| && g[v][k] != v && !Seen(s, g[v][k])
    requires Connected(g, s, s', gray + {v}, g[v][k])
    ensures Scanning(g, pre, Lower(s', v, g[v][k]), gray, v, k + 1)
  {
    hide Reach, InCycle, HasGray, HasLow, Ordered, Settled;
    var w := g[v][k];
    var t := Lower(s', v, w);
    ReturnCore(g, pre, s, s', gray, v, k);
    if s'.nodes[w].lowLink < s'.nodes[v].lowLink {
      assert On(s', w);
      var x := LowOf(g, s', w);
      ReachStep(g, v, w, x);
      TweakedInv(g, s', t, gray + {v}, v, x);
    }
    NewFrame(g, pre, s, s', gray, v, k);
  }

  lemma NewFrame(g: Graph, pre: View, s: View, s': View, gray: set<nat>, v: nat, k: nat)
    requires Scanning(g, pre, s, gray, v, k) && k < |g[v]| && g[v][k] != v && !Seen(s, g[v][k])
    requires Connected(g, s, s', gray + {v}, g[v][k])
    ensures var t := Lower(s', v, g[v][k]);
            Shape(g, t) && ScanFrame(g, pre, t, gray, v, k + 1)
  {
    hide Reach, InCycle, HasGray, HasLow, Ordered, Settled, StackLinks, EdgesBounded, Edge;
    var t := Lower(s', v, g[v][k]);
    ReturnCore(g, pre, s, s', gray, v, k);
    ReturnEdges(g, pre, s, s', gray, v, k, t.nodes[v].lowLink);
    TweakedCore(g, pre, s', t, gray, v, k);
    TweakedEdges(g, s', t, v, s.num[v], t.nodes[v].lowLink);
  }

  // ---------- finishing a block that is not a root ----------

  lemma FinishLinks(g: Graph, pre: View, s: View, gray: set<nat>, v: nat)
    requires v < |g| && Scanning(g, pre, s, gray, v, |g[v]|) && s.nodes[v].lowLink != s.num[v]
    ensures StackLinks(g, s, gray)
  {
    hide Reach, InCycle, HasGray, HasLow, Edge, Settled, EdgesBounded;
    var w := LowOf(g, s, v);
    var z := GrayOf(g, s, gray + {v}, w);
    ReachTrans(g, v, w, z);
    forall y: nat | On(s, y) ensures HasGray(g, s, gray, y) {
      var x := GrayOf(g, s, gray + {v}, y);
      if x == v {
        ReachTrans(g, y, v, z);
        GrayBy(g, s, gray, y, z);
      } else {
        GrayBy(g, s, gray, y, x);
      }
    }
  }

  lemma ScannedEdge(g: Graph, pre: View, s: View, gray: set<nat>, v: nat, w: nat)
    requires Shape(g, s) && v < |g| && ScanFrame(g, pre, s, gray, v, |g[v]|) && Edge(g, v, w)
    ensures Seen(s, w) && (On(s, w) ==> s.nodes[v].lowLink <= s.num[w])
  {
    var j :| 0 <= j < |g[v]| && g[v][j] == w;
  }

  lemma FinishSettled(g: Graph, pre: View, s: View, gray: set<nat>, v: nat)
    requires v < |g| && Scanning(g, pre, s, gray, v, |g[v]|)
    ensures Settled(g, s, gray)
  {
    hide Reach, InCycle, HasGray, HasLow, Ordered, StackLinks, EdgesBounded;
    assert g[v][..|g[v]|] == g[v];
    forall w: nat | Edge(g, v, w) ensures Seen(s, w) {
      ScannedEdge(g, pre, s, gray, v, w);
    }
    assert v !in gray;
  }

  lemma FinishEdges(g: Graph, pre: View, s: View, gray: set<nat>, v: nat)
    requires v < |g| && Scanning(g, pre, s, gray, v, |g[v]|)
    ensures EdgesBounded(g, s, pre.index, s.nodes[v].lowLink)
  {
    hide Reach, InCycle, HasGray, HasLow, Edge, StackLinks, Settled;
    forall u: nat, w: nat | On(s, u) && s.num[u] > pre.index && Edge(g, u, w) && On(s, w)
      ensures s.nodes[v].lowLink <= s.num[w]
    {
      if s.num[u] == s.num[v] {
        assert u == v;
        ScannedEdge(g, pre, s, gray, v, w);
      }
    }
  }

  /** v keeps its place on the stack and its component is completed by a caller. */
  lemma FinishInner(g: Graph, pre: View, s: View, gray: set<nat>, v: nat)
    requires v < |g| && Scanning(g, pre, s, gray, v, |g[v]|) && s.nodes[v].lowLink != pre.index + 1
    ensures Connected(g, pre, s, gray, v)
  {
    hide Reach, InCycle, HasGray, HasLow, Edge, StackLinks, Settled, Ordered, EdgesBounded;
    FinishLinks(g, pre, s, gray, v);
    FinishSettled(g, pre, s, gray, v);
    FinishEdges(g, pre, s, gray, v);
  }

  // ---------- popping a component ----------

  /** The node of a block that leaves the stack; in a component of several blocks every
      block is on a cycle. */
  function Leave(node: TarjanNode, multi: bool): TarjanNode {
    node.(onStack := false, cyclic := node.cyclic || multi)
  }

  /** The state after the stack is cut back to its first n entries. */
  function Cut(s: View, n: nat, multi: bool): View
    requires n <= |s.stack|
  {
    var comp := s.stack[n..];
    s.(nodes := seq(|s.nodes|, x requires 0 <= x < |s.nodes| =>
         if x in comp then Leave(s.nodes[x], multi) else s.nodes[x]),
       stack := s.stack[..n])
  }

  function Popped(s: View, n: nat): View
    requires n <= |s.stack|
  {
    Cut(s, n, |s.stack| > n + 1)
  }

  lemma CutNothing(s: View, multi: bool)
    ensures Cut(s, |s.stack|, multi) == s
  {
    assert s.stack[..|s.stack|] == s.stack;
    assert Cut(s, |s.stack|, multi).nodes == s.nodes;
  }

  /** Popping one more block. */
  lemma CutStep(g: Graph, s: View, n: nat, multi: bool)
    requires Shape(g, s) && n < |s.stack|
    ensures var top := s.stack[n];
            && top < |s.nodes|
            && Cut(s, n + 1, multi).nodes[top] == s.nodes[top]
            && Cut(s, n, multi).nodes == Cut(s, n + 1, multi).nodes[top := Leave(s.nodes[top], multi)]
            && Cut(s, n, multi).stack == Cut(s, n + 1, multi).stack[..n]
  {
    hide WellFormed;
    var top := s.stack[n];
    assert On(s, top);
    assert s.stack[n..] == [top] + s.stack[n + 1..];
    forall j | n + 1 <= j < |s.stack| ensures s.stack[j] != top {
      assert s.num[s.stack[n]] < s.num[s.stack[j]];
    }
    assert top !in s.stack[n + 1..];
    assert s.stack[..n] == s.stack[..n + 1][..n];
    assert Cut(s, n, multi).nodes == Cut(s, n + 1, multi).nodes[top := Leave(s.nodes[top], multi)];
  }

  /** v, about to be popped with everything above it, is a root. */
  ghost predicate AtRoot(g: Graph, pre: View, s: View, gray: set<nat>, v: nat) {
    v < |g| && Scanning(g, pre, s, gray, v, |g[v]|) && s.nodes[v].lowLink == pre.index + 1
  }

  lemma CutMember(g: Graph, s: View, n: nat, v: nat, x: nat)
    requires Shape(g, s) && n < |s.stack| && s.stack[n] == v && x < |g|
    ensures x in s.stack[n..] <==> On(s, x) && s.num[x] >= s.num[v]
    ensures x in s.stack[..n] <==> On(s, x) && s.num[x] < s.num[v]
  {
    hide WellFormed;
    if On(s, x) {
      var i :| 0 <= i < |s.stack| && s.stack[i] == x;
      if i < n {
        assert s.stack[..n][i] == x;
      } else {
        assert s.stack[n..][i - n] == x;
      }
    }
  }

  lemma PoppedOn(g: Graph, s: View, n: nat, v: nat)
    requires Shape(g, s) && n < |s.stack| && s.stack[n] == v
    ensures |Popped(s, n).nodes| == |g| && Popped(s, n).stack == s.stack[..n]
    ensures Popped(s, n).num == s.num && Popped(s, n).index == s.index
    ensures forall x: nat :: On(Popped(s, n), x) <==> On(s, x) && s.num[x] < s.num[v]
    ensures forall x: nat :: x < |g| && !(On(s, x) && s.num[x] >= s.num[v]) ==> Popped(s, n).nodes[x] == s.nodes[x]
    ensures forall x: nat :: On(s, x) && s.num[x] >= s.num[v]
              ==> Popped(s, n).nodes[x] == Leave(s.nodes[x], |s.stack| > n + 1)
  {
    forall x: nat | x < |g|
      ensures x in s.stack[n..] <==> On(s, x) && s.num[x] >= s.num[v]
    {
      CutMember(g, s, n, v, x);
    }
  }

  lemma PoppedShape(g: Graph, s: View, n: nat, v: nat)
    requires Shape(g, s) && n < |s.stack| && s.stack[n] == v
    ensures Shape(g, Popped(s, n))
  {
    hide WellFormed;
    var t := Popped(s, n);
    PoppedOn(g, s, n, v);
    forall x: nat | On(t, x) ensures Seen(t, x) && x in t.stack {
      CutMember(g, s, n, v, x);
    }
    forall i | 0 <= i < |t.stack| ensures On(t, t.stack[i]) {
      assert On(s, s.stack[i]) && s.num[s.stack[i]] < s.num[s.stack[n]];
    }
  }

  /** The facts about the cut that the remaining lemmas use. */
  lemma CutAt(g: Graph, pre: View, s: View, gray: set<nat>, v: nat)
    requires AtRoot(g, pre, s, gray, v)
    ensures |pre.stack| < |s.stack| && s.stack[|pre.stack|] == v
    ensures Shape(g, Popped(s, |pre.stack|))
  {
    hide Reach, InCycle, HasGray, HasLow, Edge, StackLinks, Settled, Ordered, EdgesBounded;
    assert (pre.stack + [v])[|pre.stack|] == v;
    PoppedShape(g, s, |pre.stack|, v);
  }

  lemma PoppedOrdered(g: Graph, pre: View, s: View, gray: set<nat>, v: nat)
    requires AtRoot(g, pre, s, gray, v)
    ensures |pre.stack| <= |s.stack| && Shape(g, Popped(s, |pre.stack|))
    ensures Ordered(g, Popped(s, |pre.stack|))
  {
    hide Popped, Reach, InCycle, HasGray, HasLow, Edge, StackLinks, Settled, EdgesBounded;
    CutAt(g, pre, s, gray, v);
    PoppedOn(g, s, |pre.stack|, v);
  }

  lemma PoppedLinks(g: Graph, pre: View, s: View, gray: set<nat>, v: nat)
    requires AtRoot(g, pre, s, gray, v)
    ensures |pre.stack| <= |s.stack| && Shape(g, Popped(s, |pre.stack|))
    ensures StackLinks(g, Popped(s, |pre.stack|), gray)
  {
    hide Popped, Reach, InCycle, HasGray, HasLow, Edge, Settled, Ordered, EdgesBounded;
    CutAt(g, pre, s, gray, v);
    var t := Popped(s, |pre.stack|);
    PoppedOn(g, s, |pre.stack|, v);
    forall y: nat | On(t, y) ensures HasGray(g, t, gray, y) && HasLow(g, t, y) {
      var x := GrayOf(g, s, gray + {v}, y);
      GrayBy(g, t, gray, y, x);
      var w := LowOf(g, s, y);
      LowBy(g, t, y, w);
    }
  }

  /** No edge leads from the popped component back to the remaining stack. */
  lemma PoppedLeavesNothing(g: Graph, pre: View, s: View, gray: set<nat>, v: nat, u: nat, w: nat)
    requires AtRoot(g, pre, s, gray, v)
    requires On(s, u) && s.num[u] >= s.num[v] && Edge(g, u, w)
    ensures Seen(s, w) && (On(s, w) ==> s.num[w] >= s.num[v])
  {
    hide Reach, InCycle, HasGray, HasLow, Edge, Ordered, StackLinks, EdgesBounded;
    FinishSettled(g, pre, s, gray, v);
    FinishEdges(g, pre, s, gray, v);
    assert u !in gray;
    assert EdgesBounded(g, s, pre.index, s.nodes[v].lowLink);
    BoundedEdge(g, s, pre.index, s.nodes[v].lowLink, u, w);
  }

  lemma BoundedEdge(g: Graph, s: View, i: nat, low: nat, u: nat, w: nat)
    requires Shape(g, s) && EdgesBounded(g, s, i, low)
    requires On(s, u) && s.num[u] > i && Edge(g, u, w)
    ensures On(s, w) ==> low <= s.num[w]
  {
    hide Edge;
  }

  lemma PoppedClosed(g: Graph, pre: View, s: View, gray: set<nat>, v: nat)
    requires AtRoot(g, pre, s, gray, v)
    ensures |pre.stack| <= |s.stack|
    ensures var t := Popped(s, |pre.stack|);
            forall u: nat, w: nat :: Done(t, u) && Edge(g, u, w) ==> Done(t, w)
  {
    hide Popped, Reach, InCycle, HasGray, HasLow, Edge, Ordered, StackLinks, EdgesBounded;
    CutAt(g, pre, s, gray, v);
    var t := Popped(s, |pre.stack|);
    PoppedOn(g, s, |pre.stack|, v);
    forall u: nat, w: nat | Done(t, u) && Edge(g, u, w) ensures Done(t, w) {
      if On(s, u) {
        PoppedLeavesNothing(g, pre, s, gray, v, u, w);
      } else {
        assert Done(s, u);
        assert Done(s, w);
      }
    }
  }

  /** Two different stacked blocks that are both at or above the root reach each other. */
  lemma ComponentCycle(g: Graph, pre: View, s: View, gray: set<nat>, v: nat, u: nat, y: nat)
    requires AtRoot(g, pre, s, gray, v) && u != y
    requires On(s, u) && s.num[u] >= s.num[v] && On(s, y) && s.num[y] >= s.num[v]
    ensures InCycle(g, u)
  {
    hide Reach, HasGray, HasLow, Edge, Settled, EdgesBounded;
    ToRoot(g, pre, s, gray, v, u);
    ToRoot(g, pre, s, gray, v, y);
    ReachTrans(g, u, v, y);
    ReachTrans(g, y, v, u);
    var w := ReachFirstEdge(g, u, y);
    ReachTrans(g, w, y, u);
  }

  lemma ToRoot(g: Graph, pre: View, s: View, gray: set<nat>, v: nat, u: nat)
    requires AtRoot(g, pre, s, gray, v)
    requires On(s, u) && s.num[u] >= s.num[v]
    ensures Reach(g, u, v) && Reach(g, v, u)
  {
    hide Reach, HasGray, HasLow, Edge, Settled, EdgesBounded;
    var x := GrayOf(g, s, gray + {v}, u);
    assert s.num[x] <= s.num[v];
    assert Reach(g, x, v);
    ReachTrans(g, u, x, v);
  }

  /** A root alone in its component is on a cycle only by a self edge. */
  lemma LoneRoot(g: Graph, pre: View, s: View, gray: set<nat>, v: nat)
    requires AtRoot(g, pre, s, gray, v) && |s.stack| == |pre.stack| + 1
    ensures s.nodes[v].cyclic <==> InCycle(g, v)
  {
    hide Reach, HasGray, HasLow, Ordered, StackLinks, EdgesBounded;
    assert g[v][..|g[v]|] == g[v];
    if Edge(g, v, v) {
      ReachRefl(g, v);
    } else if InCycle(g, v) {
      var w: nat :| Edge(g, v, w) && Reach(g, w, v);
      LoneRootEdge(g, pre, s, gray, v, w);
      var done := set x: nat | x < |g| && Done(s, x);
      assert Closed(g, done);
      ReachClosed(g, done, w, v);
      assert false;
    }
  }

  lemma LoneRootEdge(g: Graph, pre: View, s: View, gray: set<nat>, v: nat, w: nat)
    requires AtRoot(g, pre, s, gray, v) && |s.stack| == |pre.stack| + 1
    requires Edge(g, v, w) && w != v
    ensures Done(s, w)
  {
    hide Reach, HasGray, HasLow, Ordered, StackLinks, EdgesBounded, Edge, Settled;
    PoppedLeavesNothing(g, pre, s, gray, v, v, w);
    CutAt(g, pre, s, gray, v);
    CutMember(g, s, |pre.stack|, v, w);
    assert s.stack[|pre.stack|..] == [v];
  }

  lemma PoppedExact(g: Graph, pre: View, s: View, gray: set<nat>, v: nat)
    requires AtRoot(g, pre, s, gray, v)
    ensures |pre.stack| <= |s.stack| && |Popped(s, |pre.stack|).nodes| == |g|
    ensures var t := Popped(s, |pre.stack|);
            forall u: nat :: Done(t, u) ==> (t.nodes[u].cyclic <==> InCycle(g, u))
  {
    hide Popped, Reach, InCycle, HasGray, HasLow, Ordered, StackLinks, EdgesBounded, Edge;
    CutAt(g, pre, s, gray, v);
    var n := |pre.stack|;
    var t := Popped(s, n);
    PoppedOn(g, s, n, v);
    forall u: nat | Done(t, u) ensures t.nodes[u].cyclic <==> InCycle(g, u) {
      if On(s, u) {
        if |s.stack| > n + 1 {
          var top := s.stack[n + 1];
          assert On(s, top) && s.num[s.stack[n]] < s.num[s.stack[n + 1]];
          ComponentCycle(g, pre, s, gray, v, u, if u == v then top else v);
        } else {
          LoneRoot(g, pre, s, gray, v);
          CutMember(g, s, n, v, u);
          assert s.stack[n..] == [v];
        }
      } else {
        assert Done(s, u);
      }
    }
  }

  lemma PoppedSettled(g: Graph, pre: View, s: View, gray: set<nat>, v: nat)
    requires AtRoot(g, pre, s, gray, v)
    ensures |pre.stack| <= |s.stack| && Shape(g, Popped(s, |pre.stack|))
    ensures Settled(g, Popped(s, |pre.stack|), gray)
  {
    hide Popped, Reach, InCycle, HasGray, HasLow, Ordered, StackLinks, EdgesBounded, Edge;
    CutAt(g, pre, s, gray, v);
    var t := Popped(s, |pre.stack|);
    PoppedOn(g, s, |pre.stack|, v);
    FinishSettled(g, pre, s, gray, v);
    PoppedClosed(g, pre, s, gray, v);
    PoppedExact(g, pre, s, gray, v);
    assert forall x: nat :: Seen(t, x) <==> Seen(s, x);
  }

  lemma PoppedExtends(g: Graph, pre: View, s: View, gray: set<nat>, v: nat)
    requires AtRoot(g, pre, s, gray, v)
    ensures |pre.stack| <= |s.stack| && Extends(pre, Popped(s, |pre.stack|))
  {
    hide Popped, Reach, InCycle, HasGray, HasLow, Ordered, StackLinks, EdgesBounded, Edge, Settled;
    CutAt(g, pre, s, gray, v);
    PoppedOn(g, s, |pre.stack|, v);
    assert s.stack[..|pre.stack|] == pre.stack;
    forall x: nat | Seen(pre, x) ensures s.num[x] <= pre.index {
      assert s.num[x] == pre.num[x];
    }
  }

  /** v is the root of its component, which leaves the stack complete. */
  lemma FinishRoot(g: Graph, pre: View, s: View, gray: set<nat>, v: nat)
    requires AtRoot(g, pre, s, gray, v)
    ensures |pre.stack| <= |s.stack|
    ensures Connected(g, pre, Popped(s, |pre.stack|), gray, v)
  {
    hide Popped, Reach, InCycle, HasGray, HasLow, Ordered, StackLinks, EdgesBounded, Edge, Settled;
    PoppedOrdered(g, pre, s, gray, v);
    PoppedLinks(g, pre, s, gray, v);
    PoppedSettled(g, pre, s, gray, v);
    CutAt(g, pre, s, gray, v);
    PoppedOn(g, s, |pre.stack|, v);
    assert s.stack[..|pre.stack|] == pre.stack;
    PoppedExtends(g, pre, s, gray, v);
  }

  // ---------- between queries ----------

  /** Between queries no call is running. */
  ghost predicate Idle(g: Graph, s: View) {
    Inv(g, s, {})
  }

  lemma IdleStackEmpty(g: Graph, s: View)
    requires Idle(g, s)
    ensures s.stack == []
  {
    hide Reach, InCycle, HasLow, Ordered, Edge, Settled;
    if s.stack != [] {
      assert On(s, s.stack[0]);
      var x := GrayOf(g, s, {}, s.stack[0]);
      assert false;
    }
  }

  /** The answer read off an idle state is exact for every visited block. */
  lemma IdleExact(g: Graph, s: View, v: nat)
    requires Idle(g, s) && Seen(s, v)
    ensures v < |s.nodes| && (s.nodes[v].cyclic <==> InCycle(g, v))
  {
    hide Reach, InCycle, HasGray, HasLow, Ordered, Edge;
    IdleStackEmpty(g, s);
    assert Done(s, v);
  }

  lemma InitialIdle(g: Graph)
    requires WellFormed(g)
    ensures Idle(g, View(seq(|g|, _ => FreshNode), [], 0, seq(|g|, _ => 0)))
  {
    hide Reach, InCycle, HasGray, HasLow;
  }

  /** The blocks not yet visited. */
  ghost function Unvisited(s: View): set<nat> {
    set x: nat | x < |s.num| && s.num[x] == 0
  }

  lemma VisitedMore(g: Graph, pre: View, s: View, gray: set<nat>, v: nat, k: nat)
    requires Scanning(g, pre, s, gray, v, k)
    ensures Unvisited(s) < Unvisited(pre)
  {
    hide Reach, InCycle, HasGray, HasLow, Ordered, StackLinks, EdgesBounded, Edge, Settled;
    forall x: nat | x in Unvisited(s) ensures x in Unvisited(pre) {
      assert !Seen(s, x);
      assert !Seen(pre, x);
    }
    assert v in Unvisited(pre) && v !in Unvisited(s);
  }
}
