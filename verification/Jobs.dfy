/**
 The parallel job runner.  Which ready job is popped, whether the select starts a job or
 receives a completion, which running job completes and whether it failed are all left
 open, so what is proved of RunJobs holds for every interleaving.
 */
module Jobs {
  import opened Graph
  import opened JobOrder

  /** What the runner logs when debugging is on. */
  datatype Event = Start(job: nat) | Finish(job: nat, ok: bool)

  datatype Outcome =
    | Success
    | JobFailed(job: nat)
    | DependencyCycle(waiting: map<nat, set<nat>>)
    | NoCapacity

  // ---------- the books of the runner ----------

  /** waiting: what each blocked job still waits for; ready: indices into jobs that may
      start; running: started jobs that have not completed; done: jobs completed without
      error. */
  datatype Books = Books(waiting: map<nat, set<nat>>, ready: seq<nat>, running: set<nat>, done: set<nat>)

  ghost function Deps(g: Graph, j: nat): set<nat> {
    set d: nat | d < |g| && Edge(g, j, d)
  }

  ghost function ReadyJobs(jobs: seq<nat>, ready: seq<nat>): set<nat> {
    set k | k in ready && k < |jobs| :: jobs[k]
  }

  /** Every listed job is in exactly one of waiting, ready, running and done. */
  ghost predicate Partition(jobs: seq<nat>, b: Books) {
    && Distinct(b.ready) && (forall k :: 0 <= k < |b.ready| ==> b.ready[k] < |jobs|)
    && b.waiting.Keys !! ReadyJobs(jobs, b.ready) !! b.running !! b.done
    && b.waiting.Keys + ReadyJobs(jobs, b.ready) + b.running + b.done == set j | j in jobs
  }

  /** Waiting jobs wait for exactly their unfinished dependencies; all others have none. */
  ghost predicate WaitsOk(g: Graph, jobs: seq<nat>, b: Books) {
    && (forall j :: j in b.waiting ==> b.waiting[j] == Deps(g, j) - b.done && b.waiting[j] != {})
    && (forall j :: j in jobs && j !in b.waiting ==> Deps(g, j) <= b.done)
  }

  ghost predicate BooksOk(g: Graph, jobs: seq<nat>, b: Books) {
    Ordered(g, jobs) && Partition(jobs, b) && WaitsOk(g, jobs, b)
  }

  // ---------- the log ----------

  /** Jobs started and not yet received, by the log. */
  function Active(log: seq<Event>): int {
    if log == [] then 0
    else Active(log[..|log| - 1]) + if log[|log| - 1].Start? then 1 else -1
  }

  /** No job is started twice or received twice. */
  ghost predicate Once(log: seq<Event>) {
    forall i, k :: 0 <= i < k < |log| ==> log[i].Start? != log[k].Start? || log[i].job != log[k].job
  }

  /** A job starts only after its dependencies completed without error. */
  ghost predicate DepsFirst(g: Graph, log: seq<Event>) {
    forall i, d: nat :: 0 <= i < |log| && log[i].Start? && Edge(g, log[i].job, d) ==> Finish(d, true) in log[..i]
  }

  ghost predicate StartFirst(log: seq<Event>) {
    forall i :: 0 <= i < |log| && log[i].Finish? ==> Start(log[i].job) in log[..i]
  }

  /** At no time are more than cap jobs active. */
  ghost predicate Bounded(cap: nat, log: seq<Event>) {
    forall n :: 0 <= n <= |log| ==> 0 <= Active(log[..n]) <= cap
  }

  ghost predicate LogOk(g: Graph, cap: nat, log: seq<Event>) {
    Once(log) && DepsFirst(g, log) && StartFirst(log) && Bounded(cap, log)
  }

  /** The jobs running according to the books are the unfinished ones of the log. */
  ghost predicate RunningMatches(running: set<nat>, log: seq<Event>) {
    && (forall j :: j in running ==> Start(j) in log && Finish(j, true) !in log && Finish(j, false) !in log)
    && (forall j :: Start(j) in log && j !in running ==> Finish(j, true) in log || Finish(j, false) in log)
    && Active(log) == |running|
  }

  /** The log agrees with the books while no job has failed. */
  ghost predicate LogMatches(b: Books, log: seq<Event>) {
    && (forall j :: Start(j) in log <==> j in b.running || j in b.done)
    && (forall j :: Finish(j, true) in log <==> j in b.done)
    && (forall j :: Finish(j, false) !in log)
    && Active(log) == |b.running|
  }

  lemma BoundedAppend(cap: nat, log: seq<Event>, e: Event)
    requires Bounded(cap, log)
    requires 0 <= Active(log) + (if e.Start? then 1 else -1) <= cap
    ensures Bounded(cap, log + [e])
    ensures Active(log + [e]) == Active(log) + if e.Start? then 1 else -1
  {
    var l := log + [e];
    assert l[..|l| - 1] == log;
    forall n | 0 <= n <= |l| ensures 0 <= Active(l[..n]) <= cap {
      if n <= |log| {
        assert l[..n] == log[..n];
      } else {
        assert l[..n] == l;
      }
    }
  }

  lemma OnceAppend(log: seq<Event>, e: Event)
    requires Once(log)
    requires forall f :: f in log ==> f.Start? != e.Start? || f.job != e.job
    ensures Once(log + [e])
  {
    var l := log + [e];
    forall i, k | 0 <= i < k < |l| ensures l[i].Start? != l[k].Start? || l[i].job != l[k].job {
      assert log[i] in log;
    }
  }

  lemma DepsFirstAppend(g: Graph, log: seq<Event>, e: Event)
    requires DepsFirst(g, log)
    requires e.Start? ==> forall d: nat :: Edge(g, e.job, d) ==> Finish(d, true) in log
    ensures DepsFirst(g, log + [e])
  {
    hide Edge;
    var l := log + [e];
    forall i, d: nat | 0 <= i < |l| && l[i].Start? && Edge(g, l[i].job, d) ensures Finish(d, true) in l[..i] {
      assert l[..i] == log[..i];
      assert log[..|log|] == log;
      if i < |log| { assert log[i].Start? && Edge(g, log[i].job, d); }
    }
  }

  lemma StartFirstAppend(log: seq<Event>, e: Event)
    requires StartFirst(log)
    requires e.Finish? ==> Start(e.job) in log
    ensures StartFirst(log + [e])
  {
    var l := log + [e];
    forall i | 0 <= i < |l| && l[i].Finish? ensures Start(l[i].job) in l[..i] {
      assert l[..i] == log[..i];
      assert log[..|log|] == log;
      if i < |log| { assert log[i].Finish?; }
    }
  }

  /** Starting a job whose dependencies are done, with a free permit. */
  lemma LogStart(g: Graph, cap: nat, b: Books, log: seq<Event>, j: nat)
    requires LogOk(g, cap, log) && LogMatches(b, log) && |b.running| < cap
    requires j !in b.running && j !in b.done && Deps(g, j) <= b.done
    ensures LogOk(g, cap, log + [Start(j)])
    ensures LogMatches(b.(running := b.running + {j}), log + [Start(j)])
  {
    hide Once, DepsFirst, StartFirst, Bounded, Edge;
    OnceAppend(log, Start(j));
    forall d: nat | Edge(g, j, d) ensures Finish(d, true) in log {
      EdgeInDeps(g, j, d);
    }
    DepsFirstAppend(g, log, Start(j));
    StartFirstAppend(log, Start(j));
    BoundedAppend(cap, log, Start(j));
  }

  lemma EdgeInDeps(g: Graph, j: nat, d: nat)
    requires Edge(g, j, d)
    ensures d in Deps(g, j)
  {
  }

  /** Receiving a completion. */
  lemma LogFinish(g: Graph, cap: nat, running: set<nat>, log: seq<Event>, j: nat, ok: bool)
    requires LogOk(g, cap, log) && RunningMatches(running, log) && j in running
    ensures LogOk(g, cap, log + [Finish(j, ok)])
    ensures RunningMatches(running - {j}, log + [Finish(j, ok)])
  {
    hide Once, DepsFirst, StartFirst, Bounded, Edge, Active;
    forall f | f in log ensures f.Start? || f.job != j {
      assert f != Finish(j, true) && f != Finish(j, false);
    }
    OnceAppend(log, Finish(j, ok));
    DepsFirstAppend(g, log, Finish(j, ok));
    StartFirstAppend(log, Finish(j, ok));
    assert running != {};
    ActiveAtMost(cap, log);
    BoundedAppend(cap, log, Finish(j, ok));
    RunningFinish(running, log, j, ok);
  }

  lemma RunningFinish(running: set<nat>, log: seq<Event>, j: nat, ok: bool)
    requires RunningMatches(running, log) && j in running
    requires Active(log + [Finish(j, ok)]) == Active(log) - 1
    ensures RunningMatches(running - {j}, log + [Finish(j, ok)])
  {
    hide Active;
    var l := log + [Finish(j, ok)];
    assert forall e :: e in l <==> e in log || e == Finish(j, ok);
  }

  lemma ActiveAtMost(cap: nat, log: seq<Event>)
    requires Bounded(cap, log)
    ensures Active(log) <= cap
  {
    assert log[..|log|] == log;
  }

  lemma LogRunning(b: Books, log: seq<Event>)
    requires LogMatches(b, log) && b.running !! b.done
    ensures RunningMatches(b.running, log)
  {
  }

  // ---------- updating the dependents of a completed job ----------

  /** The effect on waiting of visiting the dependents of c. */
  function Wait(waiting: map<nat, set<nat>>, j: nat): set<nat> {
    if j in waiting then waiting[j] else {}
  }

  /** The loop over the dependents list: waiting and the jobs pushed on ready. */
  function Visit(waiting: map<nat, set<nat>>, c: nat, list: seq<nat>): (map<nat, set<nat>>, seq<nat>) {
    if list == [] then (waiting, [])
    else
      var (w, pushed) := Visit(waiting, c, list[..|list| - 1]);
      var j := list[|list| - 1];
      var rest := Wait(w, j) - {c};
      if rest == {} then (w - {j}, pushed + [j])
      else (w[j := rest], pushed)
  }

  function Count<T(==)>(s: seq<T>, x: T): nat {
    if s == [] then 0 else Count(s[..|s| - 1], x) + if s[|s| - 1] == x then 1 else 0
  }

  /** How often a job is made ready: as often as it is listed, unless it waits for more. */
  lemma {:induction false} VisitCounts(waiting: map<nat, set<nat>>, c: nat, list: seq<nat>, j: nat)
    requires forall i :: i in waiting ==> waiting[i] != {}
    ensures var (w, pushed) := Visit(waiting, c, list);
            && (forall i :: i in w ==> w[i] != {})
            && Wait(w, j) == (if j in list then Wait(waiting, j) - {c} else Wait(waiting, j))
            && Count(pushed, j) == if Wait(waiting, j) - {c} == {} then Count(list, j) else 0
    decreases |list|
  {
    if list != [] {
      var l0 := list[..|list| - 1];
      var last := list[|list| - 1];
      VisitCounts(waiting, c, l0, j);
      if last != j {
        VisitCounts(waiting, c, l0, last);
      }
      var (w0, pushed0) := Visit(waiting, c, l0);
      var (w, pushed) := Visit(waiting, c, list);
      assert list == l0 + [last];
      if Wait(w0, last) - {c} == {} {
        assert pushed[..|pushed| - 1] == pushed0;
      }
    }
  }

  function ListOf(dependents: map<nat, seq<nat>>, d: nat): seq<nat> {
    if d in dependents then dependents[d] else []
  }

  /** Each job is in the list of each dependency as often as it names that dependency. */
  ghost predicate DependentsOk(g: Graph, jobs: seq<nat>, dependents: map<nat, seq<nat>>) {
    forall d: nat, j: nat :: Count(ListOf(dependents, d), j) == Named(g, jobs, d, j)
  }

  function Named(g: Graph, jobs: seq<nat>, d: nat, j: nat): nat {
    if j in jobs && j < |g| then Count(g[j], d) else 0
  }

  /** When c completes, a job is made ready exactly as often as it lists c, provided it
      waits for nothing else, and not at all otherwise. */
  lemma MadeReadyCount(g: Graph, jobs: seq<nat>, dependents: map<nat, seq<nat>>, b: Books, c: nat, j: nat)
    requires BooksOk(g, jobs, b) && DependentsOk(g, jobs, dependents) && c in b.running && j in jobs
    ensures Count(Visit(b.waiting, c, ListOf(dependents, c)).1, j)
         == if Deps(g, j) - b.done - {c} == {} then Count(g[j], c) else 0
  {
    hide Ordered;
    var list := ListOf(dependents, c);
    VisitCounts(b.waiting, c, list, j);
    assert Count(list, j) == Named(g, jobs, c, j);
    JobInRange(g, jobs, j);
    if j !in b.waiting {
      assert Deps(g, j) <= b.done && c !in b.done;
      CountZero(g[j], c);
      assert Count(g[j], c) > 0 ==> c in Deps(g, j);
    }
  }

  lemma JobInRange(g: Graph, jobs: seq<nat>, j: nat)
    requires Ordered(g, jobs) && j in jobs
    ensures j < |g| && forall d :: d in g[j] ==> d < |g| && d in Deps(g, j)
  {
  }

  lemma {:induction false} CountZero<T>(s: seq<T>, x: T)
    ensures Count(s, x) > 0 <==> x in s
    decreases |s|
  {
    if s != [] {
      CountZero(s[..|s| - 1], x);
      assert s == s[..|s| - 1] + [s[|s| - 1]];
    }
  }

  /** The job names d more than once and none of its other dependencies leads to d, so d may
      be the last one that it waits for. */
  ghost predicate BadDuplicate(g: Graph, j: nat, d: nat) {
    j < |g| && Count(g[j], d) >= 2 && forall e: nat :: Edge(g, j, e) && e != d ==> !Reach(g, e, d)
  }

  ghost predicate NoBadDuplicates(g: Graph, js: set<nat>) {
    forall j: nat, d: nat :: j in js ==> !BadDuplicate(g, j, d)
  }

  /** A job that names no dependency twice has no bad duplicate. */
  lemma DistinctIsFine(g: Graph, j: nat, d: nat)
    requires j < |g| && Distinct(g[j])
    ensures !BadDuplicate(g, j, d)
  {
    DistinctCounts(g[j], d);
  }

  lemma {:induction false} DistinctCounts<T>(s: seq<T>, x: T)
    requires Distinct(s)
    ensures Count(s, x) <= 1
    decreases |s|
  {
    if s != [] {
      DistinctCounts(s[..|s| - 1], x);
      CountZero(s[..|s| - 1], x);
    }
  }

  lemma {:induction false} CountsDistinct<T(!new)>(s: seq<T>)
    requires forall x :: Count(s, x) <= 1
    ensures Distinct(s)
    decreases |s|
  {
    if s != [] {
      var s0, last := s[..|s| - 1], s[|s| - 1];
      forall x ensures Count(s0, x) <= 1 {
        assert Count(s, x) <= 1;
      }
      CountsDistinct(s0);
      CountZero(s0, last);
      assert Count(s, last) <= 1;
      forall i, j | 0 <= i < j < |s| ensures s[i] != s[j] {
        assert s0[i] in s0;
      }
    }
  }

  /** Everything below a finished job is finished. */
  lemma DoneClosed(g: Graph, jobs: seq<nat>, b: Books)
    requires BooksOk(g, jobs, b)
    ensures Closed(g, b.done)
  {
    forall u: nat, w: nat | u in b.done && Edge(g, u, w) ensures w in b.done {
      assert u in jobs && u !in b.waiting;
      EdgeInDeps(g, u, w);
    }
  }

  /** Without bad duplicates a completion makes no job ready twice. */
  lemma PushedOnce(g: Graph, jobs: seq<nat>, dependents: map<nat, seq<nat>>, b: Books, c: nat, j: nat)
    requires BooksOk(g, jobs, b) && DependentsOk(g, jobs, dependents) && c in b.running
    requires NoBadDuplicates(g, set j | j in jobs)
    ensures Count(Visit(b.waiting, c, ListOf(dependents, c)).1, j) <= 1
  {
    hide Reach, Ordered, Visit;
    if j in jobs {
      MadeReadyCount(g, jobs, dependents, b, c, j);
      JobInRange(g, jobs, j);
      assert !BadDuplicate(g, j, c);
      if Count(g[j], c) >= 2 {
        var e: nat :| Edge(g, j, e) && e != c && Reach(g, e, c);
        EdgeInDeps(g, j, e);
        DoneClosed(g, jobs, b);
        if e in b.done {
          ReachClosed(g, b.done, e, c);
        }
        assert e !in b.done;
        assert e in Deps(g, j) - b.done - {c};
      }
    } else {
      VisitCounts(b.waiting, c, ListOf(dependents, c), j);
      assert Count(ListOf(dependents, c), j) == Named(g, jobs, c, j);
    }
  }
}
