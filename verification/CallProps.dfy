/**
 The memoised analysis of which functions may suspend or unwind: a depth-first search over
 the static call graph that answers "both" when it runs into a function still being
 visited, and whose memo is shared by all queries.
 */
module CallProps {
  import opened Graph
  import opened CallMeaning
  import opened CallSpec

  datatype Entry = Visiting | Complete(props: Props)

  class CallAnalysis {
    const prog: Program
    var memo: map<nat, Entry>

    /** Completed entries hold the verdict, and visiting is the set being visited. */
    ghost predicate Inv(visiting: set<nat>)
      reads this
    {
      && CallSpec.Closed(prog)
      && (forall f :: f in memo ==> f < |prog|)
      && (forall f :: f in memo && memo[f].Complete? ==> memo[f].props == Verdict(prog, f))
      && (forall f :: f in visiting <==> f in memo && memo[f].Visiting?)
    }

    ghost predicate Valid()
      reads this
    {
      Inv({})
    }

    constructor (p: Program)
      requires CallSpec.Closed(p)
      ensures Valid() && prog == p
    {
      prog, memo := p, map[];
    }

    /** A query: the answer depends on the program alone, not on earlier queries, and says what
        the code behind fn may do. */
    method Properties(fn: nat) returns (props: Props)
      requires Valid() && fn < |prog|
      modifies this
      ensures Valid() && props == Verdict(prog, fn)
      ensures props.suspend <==> MaySuspend(prog, fn)
      ensures props.unwind <==> MayUnwind(prog, fn)
    {
      hide MaySuspend, MayUnwind, Verdict;
      VerdictMeaning(prog, fn);
      props := FunctionCallProperties(fn, {});
    }

    ghost function Unvisited(): set<nat>
      reads this
    {
      set f: nat | f < |prog| && f !in memo
    }

    /** Visit fn, called from functions that are being visited and all lead to it. */
    method FunctionCallProperties(fn: nat, ghost visiting: set<nat>) returns (props: Props)
      requires Inv(visiting) && fn < |prog|
      requires forall v :: v in visiting ==> Calls(prog, v, fn)
      modifies this
      ensures Inv(visiting) && memo.Keys >= old(memo).Keys
      ensures props == Verdict(prog, fn)
      decreases Unvisited(), 0
    {
      hide Verdict, CallSpec.Closed, Calls;
      if fn in memo && memo[fn].Complete? {
        return memo[fn].props;
      }
      if fn in memo || |prog[fn].blocks| == 0 {
        if fn in memo {
          CalledAgain(prog, fn);
        } else {
          ExternalVerdict(prog, fn);
        }
        return BOTH;
      }
      ghost var before := Unvisited();
      memo := memo[fn := Visiting];
      assert Unvisited() < before by { assert fn in before && fn !in Unvisited(); }
      TotalIsVerdict(prog, fn);
      props := Scan(fn, visiting);
      memo := memo[fn := Complete(props)];
    }

    /** Add up the contributions of the blocks of fn. */
    method Scan(fn: nat, ghost visiting: set<nat>) returns (props: Props)
      requires Inv(visiting + {fn}) && fn < |prog| && fn !in visiting
      requires forall v :: v in visiting ==> Calls(prog, v, fn)
      requires CalleesOk(prog, Flat(prog[fn].blocks))
      modifies this
      ensures Inv(visiting + {fn}) && memo.Keys >= old(memo).Keys
      ensures props == Total(prog, fn)
      decreases Unvisited(), 2
    {
      hide Verdict, CallSpec.Closed, Calls, Contributions, CalleeOk;
      props := Props(prog[fn].pause, false);
      var blocks := prog[fn].blocks;
      NoContributions(prog);
      assert Flat(blocks[..0]) == [];
      for b := 0 to |blocks|
        invariant Inv(visiting + {fn}) && memo.Keys >= old(memo).Keys
        invariant CalleesOk(prog, Flat(blocks[..b]))
        invariant props == Join(Props(prog[fn].pause, false), Contributions(prog, Flat(blocks[..b])))
      {
        BlockOk(prog, fn, b);
        FewerUnvisited(old(memo), memo);
        FlatStep(prog, blocks, b);
        props := ScanBlock(fn, b, props, visiting);
      }
      assert blocks[..|blocks|] == blocks;
    }

    lemma FewerUnvisited(m: map<nat, Entry>, m': map<nat, Entry>)
      requires m'.Keys >= m.Keys
      ensures (set f: nat | f < |prog| && f !in m') <= (set f: nat | f < |prog| && f !in m)
    {
    }

    /** Add the contributions of one block, stopping after a call once both flags are set. */
    method ScanBlock(fn: nat, b: nat, props0: Props, ghost visiting: set<nat>) returns (props: Props)
      requires Inv(visiting + {fn}) && fn < |prog| && b < |prog[fn].blocks| && fn !in visiting
      requires forall v :: v in visiting ==> Calls(prog, v, fn)
      requires CalleesOk(prog, prog[fn].blocks[b])
      modifies this
      ensures Inv(visiting + {fn}) && memo.Keys >= old(memo).Keys
      ensures props == Join(props0, Contributions(prog, prog[fn].blocks[b]))
      decreases Unvisited(), 1
    {
      hide Verdict, CallSpec.Closed, Calls, Contributions;
      var instrs := prog[fn].blocks[b];
      props := props0;
      NoContributions(prog);
      assert instrs[..0] == [];
      for i := 0 to |instrs|
        invariant Inv(visiting + {fn}) && memo.Keys >= old(memo).Keys
        invariant props == Join(props0, Contributions(prog, instrs[..i]))
      {
        var instr := instrs[i];
        ContributionsStep(prog, instrs, i);
        if instr.Plain? {
          props := Join(props, instr.own);
          continue;
        }
        if instr.BuiltinCall? {
          if instr.name == "close" || instr.name == "delete" || instr.name == "panic" {
            props := Join(props, Props(false, true));
          }
          continue;
        }
        if instr.DynamicCall? {
          props := BOTH;
        } else {
          CalleeCalled(prog, fn, b, i, visiting, instr.callee);
          FewerUnvisited(old(memo), memo);
          var callee := FunctionCallProperties(instr.callee, visiting + {fn});
          props := Join(props, callee);
        }
        if props == BOTH {
          ContributionsGrow(prog, instrs, i + 1);
          return;
        }
      }
      assert instrs[..|instrs|] == instrs;
    }
  }

  /** There is a chain of at least one static call from v to fn. */
  ghost predicate Calls(p: Program, v: nat, fn: nat) {
    exists c: nat :: Edge(CallGraph(p), v, c) && Reach(CallGraph(p), c, fn)
  }

  /** Meeting a function that is being visited closes a cycle. */
  lemma CalledAgain(p: Program, fn: nat)
    requires fn < |p| && Calls(p, fn, fn)
    ensures Verdict(p, fn) == BOTH
  {
    hide Reach, Edge;
    GraphSize(p);
    ReachRefl(CallGraph(p), fn);
    assert InCycle(CallGraph(p), fn);
  }

  lemma ExternalVerdict(p: Program, fn: nat)
    requires fn < |p| && p[fn].blocks == []
    ensures Verdict(p, fn) == BOTH
  {
    hide Reach, ReachesCycle;
    GraphSize(p);
    ReachRefl(CallGraph(p), fn);
    assert Own(p, fn) == BOTH;
  }

  lemma BlockOk(p: Program, fn: nat, b: nat)
    requires CallSpec.Closed(p) && fn < |p| && b < |p[fn].blocks|
    ensures CalleesOk(p, p[fn].blocks[b])
  {
  }

  lemma FlatStep(p: Program, blocks: seq<seq<Instr>>, b: nat)
    requires b < |blocks|
    requires CalleesOk(p, Flat(blocks[..b]))
    requires CalleesOk(p, blocks[b])
    ensures Flat(blocks[..b + 1]) == Flat(blocks[..b]) + blocks[b]
    ensures CalleesOk(p, Flat(blocks[..b + 1]))
    ensures Contributions(p, Flat(blocks[..b + 1])) == Join(Contributions(p, Flat(blocks[..b])), Contributions(p, blocks[b]))
  {
    hide Contributions, CalleeOk;
    assert blocks[..b + 1][..b] == blocks[..b];
    ContributionsSplit(p, Flat(blocks[..b]), blocks[b]);
  }

  lemma NoContributions(p: Program)
    ensures Contributions(p, []) == NONE
  {
  }

  lemma ContributionsStep(p: Program, instrs: seq<Instr>, i: nat)
    requires i < |instrs|
    requires CalleesOk(p, instrs)
    ensures Contributions(p, instrs[..i + 1]) == Join(Contributions(p, instrs[..i]), Contribution(p, instrs[i]))
  {
    assert instrs[..i + 1][..i] == instrs[..i];
  }

  /** Once both flags are set, the rest of the block adds nothing. */
  lemma ContributionsGrow(p: Program, instrs: seq<Instr>, n: nat)
    requires n <= |instrs|
    requires CalleesOk(p, instrs)
    ensures Below(Contributions(p, instrs[..n]), Contributions(p, instrs))
  {
    hide Contributions;
    assert instrs == instrs[..n] + instrs[n..];
    ContributionsSplit(p, instrs[..n], instrs[n..]);
  }

  /** A callee found in fn is called by everything that leads to fn. */
  lemma CalleeCalled(p: Program, fn: nat, b: nat, i: nat, visiting: set<nat>, c: nat)
    requires fn < |p| && b < |p[fn].blocks| && i < |p[fn].blocks[b]|
    requires p[fn].blocks[b][i] == StaticCall(c) && c < |p|
    requires forall v :: v in visiting ==> Calls(p, v, fn)
    ensures Calls(p, fn, c) && forall v :: v in visiting ==> Calls(p, v, c)
  {
    hide Reach, Edge;
    var g := CallGraph(p);
    GraphSize(p);
    EdgeIsCall(p, fn, c);
    ReachRefl(g, c);
    ReachEdge(g, fn, c);
    forall v | v in visiting ensures Calls(p, v, c) {
      var d: nat :| Edge(g, v, d) && Reach(g, d, fn);
      ReachTrans(g, d, fn, c);
    }
  }
}
