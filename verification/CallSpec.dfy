/**
 Which functions may suspend the task or unwind with a panic: the meaning of the call
 analysis over the static call graph.
 */
module CallSpec {
  import opened Graph

  /** The two flags of callProperties. */
  datatype Props = Props(suspend: bool, unwind: bool)

  const NONE := Props(false, false)
  const BOTH := Props(true, true)

  function Join(p: Props, q: Props): Props {
    Props(p.suspend || q.suspend, p.unwind || q.unwind)
  }

  predicate Below(p: Props, q: Props) {
    (p.suspend ==> q.suspend) && (p.unwind ==> q.unwind)
  }

  /** An SSA instruction as the analysis sees it: one that is no call, with its own
      properties, or one of the three kinds of call. */
  datatype Instr =
    | Plain(own: Props)
    | BuiltinCall(name: string)
    | DynamicCall
    | StaticCall(callee: nat)

  /** A function; external ones have no blocks.  pause marks internal/task.Pause. */
  datatype Func = Func(blocks: seq<seq<Instr>>, pause: bool)

  type Program = seq<Func>

  predicate Closed(p: Program) {
    forall f, b, i :: 0 <= f < |p| && 0 <= b < |p[f].blocks| && 0 <= i < |p[f].blocks[b]| ==>
      CalleeOk(p, p[f].blocks[b][i])
  }

  predicate CalleeOk(p: Program, i: Instr) {
    i.StaticCall? ==> i.callee < |p|
  }

  predicate CalleesOk(p: Program, instrs: seq<Instr>) {
    forall i :: 0 <= i < |instrs| ==> CalleeOk(p, instrs[i])
  }

  // ---------- the call graph and what a function does itself ----------

  function CalleesOf(instrs: seq<Instr>): seq<nat> {
    if instrs == [] then []
    else
      var last := instrs[|instrs| - 1];
      CalleesOf(instrs[..|instrs| - 1]) + if last.StaticCall? then [last.callee] else []
  }

  function Flat(blocks: seq<seq<Instr>>): seq<Instr> {
    if blocks == [] then [] else Flat(blocks[..|blocks| - 1]) + blocks[|blocks| - 1]
  }

  function CallGraph(p: Program): Graph {
    seq(|p|, f requires 0 <= f < |p| => CalleesOf(Flat(p[f].blocks)))
  }

  /** What an instruction contributes apart from a static callee. */
  function OwnOf(i: Instr): Props {
    match i
    case Plain(own) => own
    case BuiltinCall(name) => Props(false, name == "close" || name == "delete" || name == "panic")
    case DynamicCall => BOTH
    case StaticCall(_) => NONE
  }

  function OwnAll(instrs: seq<Instr>): Props {
    if instrs == [] then NONE else Join(OwnAll(instrs[..|instrs| - 1]), OwnOf(instrs[|instrs| - 1]))
  }

  /** The properties of a function's own code; nothing is known about an external one. */
  function Own(p: Program, f: nat): Props
    requires f < |p|
  {
    if p[f].blocks == [] then BOTH
    else Join(Props(p[f].pause, false), OwnAll(Flat(p[f].blocks)))
  }

  // ---------- the meaning ----------

  /** Everything that code reachable by static calls does. */
  ghost function Reachable(p: Program, f: nat): Props
    requires f < |p|
  {
    Props(exists v: nat :: v < |p| && Reach(CallGraph(p), f, v) && Own(p, v).suspend,
          exists v: nat :: v < |p| && Reach(CallGraph(p), f, v) && Own(p, v).unwind)
  }

  /** The verdict of the analysis: nothing is promised about a function that leads into
      recursion; otherwise the verdict is exact. */
  ghost function Verdict(p: Program, f: nat): Props
    requires f < |p|
  {
    if ReachesCycle(CallGraph(p), f) then BOTH else Reachable(p, f)
  }

  /** The verdict never misses what reachable code does. */
  lemma VerdictCovers(p: Program, f: nat, v: nat)
    requires f < |p| && v < |p| && Reach(CallGraph(p), f, v)
    ensures Below(Own(p, v), Verdict(p, f))
  {
    hide Own, Reach, ReachesCycle;
  }

  /** A solution of the flow equations: at least a function's own code and its callees. */
  ghost predicate Solves(p: Program, x: nat -> Props) {
    && (forall f: nat :: f < |p| ==> Below(Own(p, f), x(f)))
    && (forall f: nat, c: nat :: f < |p| && Edge(CallGraph(p), f, c) ==> Below(x(c), x(f)))
  }

  lemma {:induction false} SolutionCovers(p: Program, x: nat -> Props, path: seq<nat>)
    requires Solves(p, x) && Path(CallGraph(p), path)
    ensures Below(Own(p, path[|path| - 1]), x(path[0]))
    decreases |path|
  {
    hide Own;
    if |path| > 1 {
      var rest := path[1..];
      forall i | 0 <= i < |rest| - 1 ensures Edge(CallGraph(p), rest[i], rest[i + 1]) {
        assert Edge(CallGraph(p), path[i + 1], path[i + 2]);
      }
      assert Path(CallGraph(p), rest);
      SolutionCovers(p, x, rest);
      assert Edge(CallGraph(p), path[0], path[1]);
    }
  }

  /** Reachable is the least solution. */
  lemma ReachableLeast(p: Program, x: nat -> Props, f: nat)
    requires Solves(p, x) && f < |p|
    ensures Below(Reachable(p, f), x(f))
  {
    hide Own, CallGraph;
    var g := CallGraph(p);
    forall v: nat | v < |p| && Reach(g, f, v) ensures Below(Own(p, v), x(f)) {
      var path :| Path(g, path) && path[0] == f && path[|path| - 1] == v;
      SolutionCovers(p, x, path);
    }
  }

  lemma ReachableStep(p: Program, f: nat, c: nat)
    requires f < |p| && c < |p| && Edge(CallGraph(p), f, c)
    ensures Below(Reachable(p, c), Reachable(p, f))
  {
    hide Own, Reach, Edge;
    var g := CallGraph(p);
    forall v: nat | v < |p| && Reach(g, c, v) ensures Reach(g, f, v) {
      ReachStep(g, f, c, v);
    }
  }

  /** Reachable is a solution itself. */
  lemma ReachableSolves(p: Program)
    ensures forall f: nat :: f < |p| ==> Below(Own(p, f), Reachable(p, f))
    ensures forall f: nat, c: nat :: f < |p| && c < |p| && Edge(CallGraph(p), f, c) ==> Below(Reachable(p, c), Reachable(p, f))
  {
    hide Own, Reach, Edge, Reachable;
    forall f: nat | f < |p| ensures Below(Own(p, f), Reachable(p, f)) {
      ReachRefl(CallGraph(p), f);
      OwnReachable(p, f);
    }
    forall f: nat, c: nat | f < |p| && c < |p| && Edge(CallGraph(p), f, c)
      ensures Below(Reachable(p, c), Reachable(p, f))
    {
      ReachableStep(p, f, c);
    }
  }

  lemma OwnReachable(p: Program, f: nat)
    requires f < |p| && Reach(CallGraph(p), f, f)
    ensures Below(Own(p, f), Reachable(p, f))
  {
    hide Own, Reach;
  }

  // ---------- the verdict from the verdicts of the callees ----------

  /** What one instruction contributes: its own properties, or its callee's verdict. */
  ghost function Contribution(p: Program, i: Instr): Props
    requires CalleeOk(p, i)
  {
    if i.StaticCall? then Verdict(p, i.callee) else OwnOf(i)
  }

  ghost function Contributions(p: Program, instrs: seq<Instr>): Props
    requires CalleesOk(p, instrs)
  {
    if instrs == [] then NONE
    else Join(Contributions(p, instrs[..|instrs| - 1]), Contribution(p, instrs[|instrs| - 1]))
  }

  lemma {:induction false} ContributionsSplit(p: Program, a: seq<Instr>, b: seq<Instr>)
    requires CalleesOk(p, a)
    requires CalleesOk(p, b)
    ensures Contributions(p, a + b) == Join(Contributions(p, a), Contributions(p, b))
    decreases |b|
  {
    hide Contribution;
    if b == [] {
      assert a + b == a;
    } else {
      var b0 := b[..|b| - 1];
      assert (a + b)[..|a + b| - 1] == a + b0;
      ContributionsSplit(p, a, b0);
    }
  }

  lemma {:induction false} CalleesMember(instrs: seq<Instr>, c: nat)
    ensures c in CalleesOf(instrs) <==> StaticCall(c) in instrs
    decreases |instrs|
  {
    if instrs != [] {
      CalleesMember(instrs[..|instrs| - 1], c);
      assert instrs == instrs[..|instrs| - 1] + [instrs[|instrs| - 1]];
    }
  }

  /** A flag is in the contributions exactly when own code or some callee has it. */
  lemma {:induction false} ContributionsMeaning(p: Program, instrs: seq<Instr>)
    requires CalleesOk(p, instrs)
    ensures var r := Contributions(p, instrs);
            && (r.suspend <==> OwnAll(instrs).suspend || exists c: nat :: c < |p| && StaticCall(c) in instrs && Verdict(p, c).suspend)
            && (r.unwind <==> OwnAll(instrs).unwind || exists c: nat :: c < |p| && StaticCall(c) in instrs && Verdict(p, c).unwind)
    decreases |instrs|
  {
    hide Verdict;
    if instrs != [] {
      var rest, last := instrs[..|instrs| - 1], instrs[|instrs| - 1];
      ContributionsMeaning(p, rest);
      assert instrs == rest + [last];
      assert CalleeOk(p, last);
      if last.StaticCall? {
        assert StaticCall(last.callee) in instrs;
      }
    }
  }

  /** What the analysis adds up over a whole function. */
  ghost function Total(p: Program, f: nat): Props
    requires f < |p| && CalleesOk(p, Flat(p[f].blocks))
  {
    Join(Props(p[f].pause, false), Contributions(p, Flat(p[f].blocks)))
  }

  lemma CallEdge(p: Program, f: nat, c: nat)
    requires f < |p| && c < |p|
    ensures Edge(CallGraph(p), f, c) <==> StaticCall(c) in Flat(p[f].blocks)
  {
    CalleesMember(Flat(p[f].blocks), c);
  }

  /** A flag of the total, by own code and callees. */
  lemma TotalMeaning(p: Program, f: nat)
    requires f < |p| && p[f].blocks != []
    requires CalleesOk(p, Flat(p[f].blocks))
    ensures Total(p, f).suspend <==> Own(p, f).suspend || exists c: nat :: c < |p| && Edge(CallGraph(p), f, c) && Verdict(p, c).suspend
    ensures Total(p, f).unwind <==> Own(p, f).unwind || exists c: nat :: c < |p| && Edge(CallGraph(p), f, c) && Verdict(p, c).unwind
  {
    hide Verdict, Contributions, OwnAll, Edge, Flat;
    ContributionsMeaning(p, Flat(p[f].blocks));
    forall c: nat | c < |p| ensures Edge(CallGraph(p), f, c) <==> StaticCall(c) in Flat(p[f].blocks) {
      CallEdge(p, f, c);
    }
  }

  lemma TotalOfCyclic(p: Program, f: nat)
    requires f < |p| && p[f].blocks != [] && ReachesCycle(CallGraph(p), f) && WellFormed(CallGraph(p))
    requires CalleesOk(p, Flat(p[f].blocks))
    ensures Total(p, f) == BOTH
  {
    hide Contributions, Edge, Flat, Total, Reach, InCycle, ReachesCycle, Own;
    TotalMeaning(p, f);
    var c := CycleBehind(CallGraph(p), f);
    assert c < |p| && Verdict(p, c) == BOTH;
  }

  lemma CalleeAcyclic(g: Graph, u: nat, c: nat)
    requires !ReachesCycle(g, u) && Edge(g, u, c)
    ensures !ReachesCycle(g, c)
  {
    hide Reach, InCycle;
    if ReachesCycle(g, c) {
      var x: nat :| Reach(g, c, x) && InCycle(g, x);
      ReachStep(g, u, c, x);
      assert false;
    }
  }

  /** Reachable code is the function's own code and what its callees reach. */
  lemma ReachableSplit(p: Program, f: nat, v: nat)
    requires f < |p| && v < |p| && Reach(CallGraph(p), f, v)
    ensures v == f || exists c: nat :: c < |p| && Edge(CallGraph(p), f, c) && Reach(CallGraph(p), c, v)
  {
    hide Reach, Edge;
    if v != f {
      var c := ReachFirstEdge(CallGraph(p), f, v);
      EdgeInRange(CallGraph(p), f, c);
    }
  }

  lemma EdgeInRange(g: Graph, u: nat, w: nat)
    requires Edge(g, u, w)
    ensures u < |g| && w < |g|
  {
  }

  lemma TotalOfAcyclic(p: Program, f: nat)
    requires f < |p| && p[f].blocks != [] && !ReachesCycle(CallGraph(p), f)
    requires CalleesOk(p, Flat(p[f].blocks))
    ensures Total(p, f) == Reachable(p, f)
  {
    hide Contributions, Edge, Flat, Total, Reach, InCycle, ReachesCycle, Own, CallGraph;
    var g := CallGraph(p);
    TotalMeaning(p, f);
    ReachRefl(g, f) by { GraphSize(p); }
    forall c: nat | c < |p| && Edge(g, f, c)
      ensures Verdict(p, c) == Reachable(p, c) && Below(Reachable(p, c), Reachable(p, f))
    {
      CalleeAcyclic(g, f, c);
      ReachableStep(p, f, c);
    }
    forall v: nat | v < |p| && Reach(g, f, v) ensures Below(Own(p, v), Total(p, f)) {
      ReachableSplit(p, f, v);
      if v != f {
        var c: nat :| c < |p| && Edge(g, f, c) && Reach(g, c, v);
        assert Below(Own(p, v), Verdict(p, c));
      }
    }
  }

  lemma GraphSize(p: Program)
    ensures |CallGraph(p)| == |p|
  {
  }

  /** Adding up own code and the verdicts of the callees gives the verdict. */
  lemma TotalIsVerdict(p: Program, f: nat)
    requires f < |p| && p[f].blocks != [] && Closed(p)
    ensures CalleesOk(p, Flat(p[f].blocks))
    ensures Total(p, f) == Verdict(p, f)
  {
    hide Contributions, Edge, Total, Reach, InCycle, ReachesCycle, Own, CallGraph, Reachable;
    FlatOk(p, p[f].blocks);
    CallGraphOk(p);
    GraphSize(p);
    if ReachesCycle(CallGraph(p), f) {
      TotalOfCyclic(p, f);
    } else {
      TotalOfAcyclic(p, f);
    }
  }

  lemma {:induction false} FlatOk(p: Program, blocks: seq<seq<Instr>>)
    requires forall b, i :: 0 <= b < |blocks| && 0 <= i < |blocks[b]| ==> CalleeOk(p, blocks[b][i])
    ensures CalleesOk(p, Flat(blocks))
    decreases |blocks|
  {
    hide CalleeOk;
    if blocks != [] {
      FlatOk(p, blocks[..|blocks| - 1]);
    }
  }

  lemma CallGraphOk(p: Program)
    requires Closed(p)
    ensures WellFormed(CallGraph(p))
  {
    hide CalleesOf, Flat;
    var g := CallGraph(p);
    forall u, k | 0 <= u < |g| && 0 <= k < |g[u]| ensures g[u][k] < |g| {
      FlatOk(p, p[u].blocks);
      assert g[u][k] in g[u];
      CalleesMember(Flat(p[u].blocks), g[u][k]);
    }
  }
}
