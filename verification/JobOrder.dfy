/**
 The order in which build jobs are listed before they run: every job after its
 dependencies.  The dependency graph maps a job to the jobs it depends on.
 */
module JobOrder {
  import opened Sets
  import opened Graph
  import opened Wrappers

  ghost predicate Distinct<T>(s: seq<T>) {
    forall i, j :: 0 <= i < j < |s| ==> s[i] != s[j]
  }

  /** Each job is listed once, after everything it depends on. */
  ghost predicate Ordered(g: Graph, jobs: seq<nat>) {
    && WellFormed(g)
    && Distinct(jobs)
    && (forall i :: 0 <= i < |jobs| ==> jobs[i] < |g|)
    && (forall i, d :: 0 <= i < |jobs| && Edge(g, jobs[i], d) ==> d in jobs[..i])
  }

  /** The job and everything it depends on, directly or not. */
  ghost function Below(g: Graph, u: nat): set<nat> {
    set v: nat | v < |g| && Reach(g, u, v)
  }

  lemma BelowShrinks(g: Graph, u: nat, d: nat)
    requires Edge(g, u, d) && !ReachesCycle(g, u)
    ensures Below(g, d) < Below(g, u) && !ReachesCycle(g, d)
  {
    hide Reach;
    ReachRefl(g, u);
    ReachRefl(g, d);
    assert !InCycle(g, u);
    forall v: nat | Reach(g, d, v) ensures Reach(g, u, v) {
      ReachStep(g, u, d, v);
    }
    assert u in Below(g, u) && u !in Below(g, d);
  }

  /** The listed jobs include everything below them, so nothing below a listed job is missing. */
  lemma OrderedClosed(g: Graph, jobs: seq<nat>, u: nat)
    requires Ordered(g, jobs) && u in jobs
    ensures forall v :: v in Below(g, u) ==> v in jobs
  {
    hide Reach;
    var s := set j | j in jobs;
    assert Closed(g, s) by {
      forall x: nat, w: nat | x in s && Edge(g, x, w) ensures w in s {
        var i :| 0 <= i < |jobs| && jobs[i] == x;
        assert w in jobs[..i];
      }
    }
    forall v | v in Below(g, u) ensures v in jobs {
      ReachClosed(g, s, u, v);
    }
  }

  lemma BelowUnion(g: Graph, u: nat)
    requires WellFormed(g) && u < |g|
    ensures Below(g, u) == {u} + set d: nat, v: nat | d < |g| && Edge(g, u, d) && v < |g| && Reach(g, d, v) :: v
  {
    hide Reach;
    ReachRefl(g, u);
    var r := {u} + set d: nat, v: nat | d < |g| && Edge(g, u, d) && v < |g| && Reach(g, d, v) :: v;
    forall v: nat | v in Below(g, u) ensures v in r {
      if v != u {
        var w := ReachFirstEdge(g, u, v);
      }
    }
    forall v: nat | v in r ensures v in Below(g, u) {
      if v != u {
        var d: nat :| d < |g| && Edge(g, u, d) && v < |g| && Reach(g, d, v);
        ReachStep(g, u, d, v);
      }
    }
  }

  /** The list being built by addJobs, and the set of jobs already added. */
  class JobList {
    const g: Graph
    var jobs: seq<nat>
    var added: set<nat>

    ghost predicate Valid()
      reads this
    {
      Ordered(g, jobs) && added == set j | j in jobs
    }

    constructor (g: Graph)
      requires WellFormed(g)
      ensures this.g == g && Valid() && jobs == []
    {
      this.g := g;
      jobs, added := [], {};
    }

    /** Append the job after its dependencies, skipping what is already there. */
    method AddJobs(job: nat)
      requires Valid() && job < |g| && !ReachesCycle(g, job)
      modifies this
      ensures Valid() && old(jobs) <= jobs
      ensures added == old(added) + Below(g, job)
      decreases Below(g, job)
    {
      hide Reach, InCycle, ReachesCycle;
      if job in added {
        OrderedClosed(g, jobs, job);
        return;
      }
      ghost var before := jobs;
      for k := 0 to |g[job]|
        invariant Valid() && before <= jobs && job !in added
        invariant added == old(added) + set i, v | 0 <= i < k && v in Below(g, g[job][i]) :: v
      {
        var dep := g[job][k];
        assert Edge(g, job, dep);
        BelowShrinks(g, job, dep);
        AddJobs(dep);
        NotBelowDep(g, job, dep);
      }
      DepsListed(g, jobs, added, job);
      OrderedAppend(g, jobs, job);
      jobs := jobs + [job];
      added := added + {job};
      BelowIndexed(g, job);
    }
  }

  lemma NotBelowDep(g: Graph, u: nat, d: nat)
    requires Edge(g, u, d) && !ReachesCycle(g, u)
    ensures u !in Below(g, d)
  {
    hide Reach;
    ReachRefl(g, u);
  }

  lemma BelowIndexed(g: Graph, u: nat)
    requires WellFormed(g) && u < |g|
    ensures Below(g, u) == {u} + set i, v | 0 <= i < |g[u]| && v in Below(g, g[u][i]) :: v
  {
    hide Reach;
    BelowUnion(g, u);
    var r := set i, v | 0 <= i < |g[u]| && v in Below(g, g[u][i]) :: v;
    forall v: nat | v in Below(g, u) ensures v in {u} + r {
      if v != u {
        var d: nat :| d < |g| && Edge(g, u, d) && v < |g| && Reach(g, d, v);
        var i :| 0 <= i < |g[u]| && g[u][i] == d;
        assert v in Below(g, g[u][i]);
      }
    }
    forall v: nat | v in r ensures v in Below(g, u) {
      var i :| 0 <= i < |g[u]| && v in Below(g, g[u][i]);
      ReachStep(g, u, g[u][i], v);
    }
  }

  lemma DepsListed(g: Graph, jobs: seq<nat>, added: set<nat>, job: nat)
    requires WellFormed(g) && job < |g| && added == set j | j in jobs
    requires forall i, v :: 0 <= i < |g[job]| && v in Below(g, g[job][i]) ==> v in added
    ensures forall d: nat :: Edge(g, job, d) ==> d in jobs
  {
    hide Reach;
    forall d: nat | Edge(g, job, d) ensures d in jobs {
      ReachRefl(g, d);
      var i :| 0 <= i < |g[job]| && g[job][i] == d;
      assert d in Below(g, g[job][i]);
      assert d in added;
    }
  }

  lemma OrderedAppend(g: Graph, jobs: seq<nat>, job: nat)
    requires Ordered(g, jobs) && job < |g| && job !in jobs
    requires forall d: nat :: Edge(g, job, d) ==> d in jobs
    ensures Ordered(g, jobs + [job])
  {
    hide Edge;
    var l := jobs + [job];
    forall i, d: nat | 0 <= i < |l| && Edge(g, l[i], d) ensures d in l[..i] {
      if i < |jobs| {
        assert d in jobs[..i];
        assert l[..i] == jobs[..i];
      } else {
        assert l[..i] == jobs;
      }
    }
  }

  // ---------- the recursion ends exactly on acyclic graphs ----------

  /** addJobs with a bound on its recursion depth; None when the bound is hit. */
  function AddBounded(g: Graph, job: nat, added: set<nat>, depth: nat): Option<set<nat>>
    requires WellFormed(g) && job < |g|
    decreases depth, |g| + 1, 0
  {
    if job in added then Some(added)
    else if depth == 0 then None
    else match AddDeps(g, job, 0, added, depth - 1)
      case None => None
      case Some(s) => Some(s + {job})
  }

  function AddDeps(g: Graph, job: nat, k: nat, added: set<nat>, depth: nat): Option<set<nat>>
    requires WellFormed(g) && job < |g| && k <= |g[job]|
    decreases depth, |g| + 2, |g[job]| - k
  {
    if k == |g[job]| then Some(added)
    else match AddBounded(g, g[job][k], added, depth)
      case None => None
      case Some(s) => AddDeps(g, job, k + 1, s, depth)
  }

  ghost predicate NoneReachCycle(g: Graph, s: set<nat>) {
    forall u: nat :: u in s ==> u < |g| && !ReachesCycle(g, u)
  }

  /** Whatever addJobs manages to add leads to no cycle. */
  lemma {:induction false} AddedIsAcyclic(g: Graph, job: nat, added: set<nat>, depth: nat)
    requires WellFormed(g) && job < |g| && NoneReachCycle(g, added)
    requires AddBounded(g, job, added, depth).Some?
    ensures var s := AddBounded(g, job, added, depth).value;
            NoneReachCycle(g, s) && job in s && added <= s
    decreases depth, |g| + 1, 0
  {
    hide ReachesCycle;
    if job !in added {
      AddedDepsAcyclic(g, job, 0, added, depth - 1);
      var s := AddDeps(g, job, 0, added, depth - 1).value;
      forall d: nat | Edge(g, job, d) ensures !ReachesCycle(g, d) {
        var i :| 0 <= i < |g[job]| && g[job][i] == d;
      }
      if ReachesCycle(g, job) {
        var d := CycleBehind(g, job);
        assert false;
      }
    }
  }

  lemma {:induction false} AddedDepsAcyclic(g: Graph, job: nat, k: nat, added: set<nat>, depth: nat)
    requires WellFormed(g) && job < |g| && k <= |g[job]| && NoneReachCycle(g, added)
    requires AddDeps(g, job, k, added, depth).Some?
    ensures var s := AddDeps(g, job, k, added, depth).value;
            && NoneReachCycle(g, s) && added <= s
            && forall i :: k <= i < |g[job]| ==> g[job][i] in s
    decreases depth, |g| + 2, |g[job]| - k
  {
    hide ReachesCycle;
    if k < |g[job]| {
      AddedIsAcyclic(g, g[job][k], added, depth);
      AddedDepsAcyclic(g, job, k + 1, AddBounded(g, g[job][k], added, depth).value, depth);
    }
  }

  /** A recursion depth beyond the number of jobs is enough when no cycle is reachable. */
  lemma {:induction false} AcyclicEnds(g: Graph, job: nat, added: set<nat>, depth: nat)
    requires WellFormed(g) && job < |g| && !ReachesCycle(g, job) && depth >= |Below(g, job)|
    ensures AddBounded(g, job, added, depth).Some?
    decreases depth, |g| + 1, 0
  {
    hide Reach, ReachesCycle;
    if job !in added {
      ReachRefl(g, job);
      assert job in Below(g, job);
      AcyclicDepsEnd(g, job, 0, added, depth - 1);
    }
  }

  lemma {:induction false} AcyclicDepsEnd(g: Graph, job: nat, k: nat, added: set<nat>, depth: nat)
    requires WellFormed(g) && job < |g| && k <= |g[job]| && !ReachesCycle(g, job) && depth + 1 >= |Below(g, job)|
    ensures AddDeps(g, job, k, added, depth).Some?
    decreases depth, |g| + 2, |g[job]| - k
  {
    hide Reach, ReachesCycle;
    if k < |g[job]| {
      var dep := g[job][k];
      assert Edge(g, job, dep);
      BelowShrinks(g, job, dep);
      SmallerSet(Below(g, dep), Below(g, job));
      AcyclicEnds(g, dep, added, depth);
      AcyclicDepsEnd(g, job, k + 1, AddBounded(g, dep, added, depth).value, depth);
    }
  }

  lemma {:induction false} SmallerSet<T>(a: set<T>, b: set<T>)
    requires a < b
    ensures |a| < |b|
  {
    var x :| x in b && x !in a;
    SubsetSize(a, b - {x});
  }

  /** addJobs returns, with some recursion depth, exactly when its job leads to no
      dependency cycle; on a cycle it recurses forever. */
  lemma AddJobsEndsIffAcyclic(g: Graph, job: nat)
    requires WellFormed(g) && job < |g|
    ensures (exists depth :: AddBounded(g, job, {}, depth).Some?) <==> !ReachesCycle(g, job)
  {
    hide ReachesCycle, AddBounded;
    if !ReachesCycle(g, job) {
      AcyclicEnds(g, job, {}, |Below(g, job)|);
    }
    forall depth | AddBounded(g, job, {}, depth).Some? ensures !ReachesCycle(g, job) {
      AddedIsAcyclic(g, job, {}, depth);
    }
  }
}
