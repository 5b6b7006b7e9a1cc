/**
 What the verdict of the call analysis says about the instructions of a program: the flags
 are set exactly for what the code behind a chain of static calls may do.
 */
module CallMeaning {
  import opened Graph
  import opened CallSpec

  /** The instruction occurs in some block. */
  ghost predicate Contains(f: Func, i: Instr) {
    exists b, k :: 0 <= b < |f.blocks| && 0 <= k < |f.blocks[b]| && f.blocks[b][k] == i
  }

  /** The function may suspend by itself: it is task.Pause, nothing is known about
      its code, it calls a function value, or it has an instruction that may suspend. */
  ghost predicate SuspendsItself(f: Func) {
    || f.pause
    || f.blocks == []
    || Contains(f, DynamicCall)
    || exists own: Props :: own.suspend && Contains(f, Plain(own))
  }

  /** The function may unwind by itself: nothing is known about its code, it calls a function
      value or a builtin that may panic, or it has an instruction that may unwind. */
  ghost predicate UnwindsItself(f: Func) {
    || f.blocks == []
    || Contains(f, DynamicCall)
    || Contains(f, BuiltinCall("close"))
    || Contains(f, BuiltinCall("delete"))
    || Contains(f, BuiltinCall("panic"))
    || exists own: Props :: own.unwind && Contains(f, Plain(own))
  }

  /** Functions each of which holds a static call of the next. */
  ghost predicate CallChain(p: Program, path: seq<nat>) {
    && |path| > 0
    && (forall i :: 0 <= i < |path| ==> path[i] < |p|)
    && (forall i :: 0 <= i < |path| - 1 ==> Contains(p[path[i]], StaticCall(path[i + 1])))
  }

  ghost predicate LeadsTo(p: Program, f: nat, v: nat) {
    exists path :: CallChain(p, path) && path[0] == f && path[|path| - 1] == v
  }

  /** Some chain of static calls from f meets a function twice. */
  ghost predicate LeadsIntoRecursion(p: Program, f: nat) {
    exists path, i, j :: CallChain(p, path) && path[0] == f && 0 <= i < j < |path| && path[i] == path[j]
  }

  ghost predicate MaySuspend(p: Program, f: nat) {
    LeadsIntoRecursion(p, f) || exists v: nat :: v < |p| && LeadsTo(p, f, v) && SuspendsItself(p[v])
  }

  ghost predicate MayUnwind(p: Program, f: nat) {
    LeadsIntoRecursion(p, f) || exists v: nat :: v < |p| && LeadsTo(p, f, v) && UnwindsItself(p[v])
  }

  // ---------- own code ----------

  lemma {:induction false} InFlat(blocks: seq<seq<Instr>>, i: Instr)
    ensures i in Flat(blocks) <==> exists b, k :: 0 <= b < |blocks| && 0 <= k < |blocks[b]| && blocks[b][k] == i
    decreases |blocks|
  {
    if blocks != [] {
      var rest, last := blocks[..|blocks| - 1], blocks[|blocks| - 1];
      InFlat(rest, i);
      if i in last {
        var k :| 0 <= k < |last| && last[k] == i;
        assert blocks[|blocks| - 1][k] == i;
      }
      if i in Flat(rest) {
        var b, k :| 0 <= b < |rest| && 0 <= k < |rest[b]| && rest[b][k] == i;
        assert blocks[b][k] == i;
      }
      if b, k :| 0 <= b < |blocks| && 0 <= k < |blocks[b]| && blocks[b][k] == i {
        if b < |rest| {
          assert rest[b][k] == i;
        }
      }
    }
  }

  lemma {:induction false} OwnAllFlags(instrs: seq<Instr>)
    ensures OwnAll(instrs).suspend <==> exists i :: i in instrs && OwnOf(i).suspend
    ensures OwnAll(instrs).unwind <==> exists i :: i in instrs && OwnOf(i).unwind
    decreases |instrs|
  {
    hide OwnOf;
    if instrs != [] {
      var rest, last := instrs[..|instrs| - 1], instrs[|instrs| - 1];
      OwnAllFlags(rest);
      assert instrs == rest + [last];
    }
  }

  lemma OwnSuspends(p: Program, f: nat)
    requires f < |p|
    ensures Own(p, f).suspend <==> SuspendsItself(p[f])
  {
    hide OwnAll, Flat;
    var instrs := Flat(p[f].blocks);
    OwnAllFlags(instrs);
    forall i ensures i in instrs <==> Contains(p[f], i) {
      InFlat(p[f].blocks, i);
    }
    assert OwnOf(DynamicCall).suspend;
    forall own: Props | own.suspend && Plain(own) in instrs ensures OwnOf(Plain(own)).suspend {
    }
  }

  lemma OwnUnwinds(p: Program, f: nat)
    requires f < |p|
    ensures Own(p, f).unwind <==> UnwindsItself(p[f])
  {
    hide OwnAll, Flat;
    var instrs := Flat(p[f].blocks);
    OwnAllFlags(instrs);
    forall i ensures i in instrs <==> Contains(p[f], i) {
      InFlat(p[f].blocks, i);
    }
    assert OwnOf(DynamicCall).unwind;
    assert OwnOf(BuiltinCall("close")).unwind;
    assert OwnOf(BuiltinCall("delete")).unwind;
    assert OwnOf(BuiltinCall("panic")).unwind;
    forall own: Props | own.unwind && Plain(own) in instrs ensures OwnOf(Plain(own)).unwind {
    }
  }

  // ---------- chains of calls ----------

  lemma EdgeIsCall(p: Program, f: nat, c: nat)
    requires f < |p| && c < |p|
    ensures Edge(CallGraph(p), f, c) <==> Contains(p[f], StaticCall(c))
  {
    hide Edge, Flat, CallGraph;
    CallEdge(p, f, c);
    InFlat(p[f].blocks, StaticCall(c));
  }

  lemma ChainIsPath(p: Program, path: seq<nat>)
    ensures CallChain(p, path) <==> Path(CallGraph(p), path)
  {
    hide Edge, Contains;
    GraphSize(p);
    forall i | 0 <= i < |path| - 1 && path[i] < |p| && path[i + 1] < |p|
      ensures Edge(CallGraph(p), path[i], path[i + 1]) <==> Contains(p[path[i]], StaticCall(path[i + 1]))
    {
      EdgeIsCall(p, path[i], path[i + 1]);
    }
  }

  lemma LeadsToIsReach(p: Program, f: nat, v: nat)
    ensures LeadsTo(p, f, v) <==> Reach(CallGraph(p), f, v)
  {
    hide Contains, Edge;
    if path :| CallChain(p, path) && path[0] == f && path[|path| - 1] == v {
      ChainIsPath(p, path);
    }
    if path :| Path(CallGraph(p), path) && path[0] == f && path[|path| - 1] == v {
      ChainIsPath(p, path);
    }
  }

  lemma CyclePath(g: Graph, u: nat) returns (path: seq<nat>, i: nat, j: nat)
    requires ReachesCycle(g, u)
    ensures Path(g, path) && path[0] == u && i < j < |path| && path[i] == path[j]
  {
    var c: nat :| Reach(g, u, c) && InCycle(g, c);
    var w: nat :| Edge(g, c, w) && Reach(g, w, c);
    var to :| Path(g, to) && to[0] == u && to[|to| - 1] == c;
    var round :| Path(g, round) && round[0] == w && round[|round| - 1] == c;
    path, i, j := to + round, |to| - 1, |to| + |round| - 1;
    forall k | 0 <= k < |path| - 1 ensures Edge(g, path[k], path[k + 1]) {
      if k >= |to| {
        assert Edge(g, round[k - |to|], round[k - |to| + 1]);
      }
    }
  }

  lemma PathCycle(g: Graph, path: seq<nat>, i: nat, j: nat)
    requires Path(g, path) && i < j < |path| && path[i] == path[j]
    ensures ReachesCycle(g, path[0])
  {
    var c := path[i];
    assert Path(g, path[..i + 1]);
    assert Reach(g, path[0], c);
    var round := path[i + 1..j + 1];
    forall k | 0 <= k < |round| - 1 ensures Edge(g, round[k], round[k + 1]) {
      assert Edge(g, path[i + 1 + k], path[i + 2 + k]);
    }
    assert Path(g, round) && Reach(g, path[i + 1], c);
    assert Edge(g, c, path[i + 1]);
  }

  lemma RecursionIsCycle(p: Program, f: nat)
    ensures LeadsIntoRecursion(p, f) <==> ReachesCycle(CallGraph(p), f)
  {
    hide Contains, Edge, Reach, InCycle, ReachesCycle;
    if path, i, j :| CallChain(p, path) && path[0] == f && 0 <= i < j < |path| && path[i] == path[j] {
      ChainIsPath(p, path);
      PathCycle(CallGraph(p), path, i, j);
    }
    if ReachesCycle(CallGraph(p), f) {
      var path, i, j := CyclePath(CallGraph(p), f);
      ChainIsPath(p, path);
    }
  }

  /** The verdict sets a flag exactly when some chain of static calls leads into recursion or
      to code that may do what the flag says. */
  lemma VerdictMeaning(p: Program, f: nat)
    requires f < |p|
    ensures Verdict(p, f).suspend <==> MaySuspend(p, f)
    ensures Verdict(p, f).unwind <==> MayUnwind(p, f)
  {
    hide LeadsTo, LeadsIntoRecursion, Reach, ReachesCycle, Own, SuspendsItself, UnwindsItself;
    RecursionIsCycle(p, f);
    forall v: nat | v < |p|
      ensures LeadsTo(p, f, v) <==> Reach(CallGraph(p), f, v)
      ensures Own(p, v).suspend <==> SuspendsItself(p[v])
      ensures Own(p, v).unwind <==> UnwindsItself(p[v])
    {
      LeadsToIsReach(p, f, v);
      OwnSuspends(p, v);
      OwnUnwinds(p, v);
    }
  }

  /** One function value called anywhere behind f gives f both flags. */
  lemma DynamicCallBehind(p: Program, f: nat, v: nat)
    requires f < |p| && v < |p| && LeadsTo(p, f, v) && Contains(p[v], DynamicCall)
    ensures Verdict(p, f) == BOTH
  {
    hide LeadsTo, Contains, Verdict;
    VerdictMeaning(p, f);
  }

  lemma HarmlessItself(f: Func)
    requires f.blocks != [] && !f.pause
    requires forall i: Instr :: Contains(f, i) ==> i.StaticCall? || i == Plain(NONE)
    ensures !SuspendsItself(f) && !UnwindsItself(f)
  {
    hide Contains;
    assert Contains(f, DynamicCall) ==> false;
    assert forall name: string :: Contains(f, BuiltinCall(name)) ==> false;
    assert forall own: Props :: Contains(f, Plain(own)) ==> own == NONE;
  }

  /** A function without recursion behind it, whose reachable code only makes static calls
      and does nothing that may suspend or unwind, gets neither flag. */
  lemma HarmlessCode(p: Program, f: nat)
    requires f < |p| && !LeadsIntoRecursion(p, f)
    requires forall v: nat :: v < |p| && LeadsTo(p, f, v) ==> p[v].blocks != [] && !p[v].pause
    requires forall v: nat, i: Instr :: v < |p| && LeadsTo(p, f, v) && Contains(p[v], i) ==> i.StaticCall? || i == Plain(NONE)
    ensures Verdict(p, f) == NONE
  {
    hide LeadsTo, LeadsIntoRecursion, Contains, Verdict;
    VerdictMeaning(p, f);
    forall v: nat | v < |p| && LeadsTo(p, f, v) ensures !SuspendsItself(p[v]) && !UnwindsItself(p[v]) {
      HarmlessItself(p[v]);
    }
    assert !MaySuspend(p, f) && !MayUnwind(p, f);
  }
}
