/**
 runJobs: set up the books, then start and complete jobs until none is left or one fails.
 */
module JobRunner {
  import opened Graph
  import opened JobOrder
  import opened Jobs

  /** The position of each job in the list. */
  ghost predicate IndexOk(jobs: seq<nat>, index: map<nat, nat>) {
    && (forall i :: 0 <= i < |jobs| ==> jobs[i] in index && index[jobs[i]] == i)
    && (forall j :: j in index ==> j in jobs)
  }

  function Positions(index: map<nat, nat>, js: seq<nat>): (r: seq<nat>)
    requires forall i :: 0 <= i < |js| ==> js[i] in index
    ensures |r| == |js| && forall i :: 0 <= i < |js| ==> r[i] == index[js[i]]
  {
    seq(|js|, i requires 0 <= i < |js| => index[js[i]])
  }

  // ---------- starting ----------

  function StartBooks(jobs: seq<nat>, b: Books, k: nat): Books
    requires k < |b.ready| && b.ready[k] < |jobs|
  {
    b.(ready := b.ready[..k] + b.ready[k + 1..], running := b.running + {jobs[b.ready[k]]})
  }

  lemma StartReadyJobs(g: Graph, jobs: seq<nat>, b: Books, k: nat)
    requires Ordered(g, jobs) && Partition(jobs, b) && k < |b.ready|
    ensures var j := jobs[b.ready[k]];
            && j in ReadyJobs(jobs, b.ready)
            && ReadyJobs(jobs, b.ready[..k] + b.ready[k + 1..]) == ReadyJobs(jobs, b.ready) - {j}
  {
    hide Edge;
    var r := b.ready[..k] + b.ready[k + 1..];
    var j := jobs[b.ready[k]];
    forall x | x in ReadyJobs(jobs, b.ready) && x != j ensures x in ReadyJobs(jobs, r) {
      var i :| 0 <= i < |b.ready| && jobs[b.ready[i]] == x;
      assert r[if i < k then i else i - 1] == b.ready[i];
    }
    forall i | 0 <= i < |r| ensures jobs[r[i]] != j && r[i] in b.ready {
      assert r[i] == b.ready[if i < k then i else i + 1];
    }
  }

  lemma StartKeepsBooks(g: Graph, jobs: seq<nat>, b: Books, k: nat)
    requires BooksOk(g, jobs, b) && k < |b.ready|
    ensures BooksOk(g, jobs, StartBooks(jobs, b, k))
  {
    hide Ordered, Deps, ReadyJobs;
    StartReadyJobs(g, jobs, b, k);
    var b' := StartBooks(jobs, b, k);
    forall i | 0 <= i < |b'.ready| ensures b'.ready[i] < |jobs| {
      assert b'.ready[i] == b.ready[if i < k then i else i + 1];
    }
    assert Distinct(b'.ready);
  }

  // ---------- completing ----------

  /** The books after c completed without error. */
  ghost predicate CompletedBooks(index: map<nat, nat>, dependents: map<nat, seq<nat>>, b: Books, c: nat, b': Books) {
    var (w, pushed) := Visit(b.waiting, c, ListOf(dependents, c));
    && (forall i :: 0 <= i < |pushed| ==> pushed[i] in index)
    && b' == Books(w, b.ready + Positions(index, pushed), b.running - {c}, b.done + {c})
  }

  /** A job is in the dependents list of c exactly when it waits for c. */
  lemma ListedWaits(g: Graph, jobs: seq<nat>, dependents: map<nat, seq<nat>>, b: Books, c: nat, j: nat)
    requires BooksOk(g, jobs, b) && DependentsOk(g, jobs, dependents) && c in b.running
    ensures j in ListOf(dependents, c) <==> j in b.waiting && c in b.waiting[j]
  {
    var list := ListOf(dependents, c);
    CountZero(list, j);
    assert Count(list, j) == Named(g, jobs, c, j);
    if j in jobs {
      JobInRange(g, jobs, j);
      CountZero(g[j], c);
    }
  }

  lemma VisitOutcome(g: Graph, jobs: seq<nat>, dependents: map<nat, seq<nat>>, b: Books, c: nat)
    requires BooksOk(g, jobs, b) && DependentsOk(g, jobs, dependents) && c in b.running && NoBadDuplicates(g, set j | j in jobs)
    ensures var (w, pushed) := Visit(b.waiting, c, ListOf(dependents, c));
            && (forall j :: j in w <==> j in b.waiting && b.waiting[j] - {c} != {})
            && (forall j :: j in w ==> w[j] == b.waiting[j] - {c})
            && (forall j :: j in pushed <==> j in b.waiting && b.waiting[j] - {c} == {})
            && Distinct(pushed)
  {
    hide Ordered, Visit, Deps, DependentsOk, NoBadDuplicates;
    var list := ListOf(dependents, c);
    var (w, pushed) := Visit(b.waiting, c, list);
    forall j: nat
      ensures j in w <==> j in b.waiting && b.waiting[j] - {c} != {}
      ensures j in w ==> w[j] == b.waiting[j] - {c}
      ensures j in pushed <==> j in b.waiting && b.waiting[j] - {c} == {}
      ensures Count(pushed, j) <= 1
    {
      VisitCounts(b.waiting, c, list, j);
      ListedWaits(g, jobs, dependents, b, c, j);
      CountZero(pushed, j);
      CountZero(list, j);
      PushedOnce(g, jobs, dependents, b, c, j);
    }
    CountsDistinct(pushed);
  }

  lemma PushedReady(g: Graph, jobs: seq<nat>, index: map<nat, nat>, ready: seq<nat>, pushed: seq<nat>)
    requires Ordered(g, jobs) && IndexOk(jobs, index) && Distinct(pushed) && Distinct(ready)
    requires forall i :: 0 <= i < |ready| ==> ready[i] < |jobs|
    requires forall i :: 0 <= i < |pushed| ==> pushed[i] in index && pushed[i] !in ReadyJobs(jobs, ready)
    ensures var r := ready + Positions(index, pushed);
            && Distinct(r) && (forall i :: 0 <= i < |r| ==> r[i] < |jobs|)
            && ReadyJobs(jobs, r) == ReadyJobs(jobs, ready) + set j | j in pushed
  {
    hide Edge;
    var p := Positions(index, pushed);
    var r := ready + p;
    forall i | 0 <= i < |p| ensures p[i] < |jobs| && jobs[p[i]] == pushed[i] && p[i] !in ready {
      assert pushed[i] in jobs;
    }
    forall j | j in pushed ensures j in ReadyJobs(jobs, r) {
      var i :| 0 <= i < |pushed| && pushed[i] == j;
      assert r[|ready| + i] == p[i];
    }
    forall j | j in ReadyJobs(jobs, ready) ensures j in ReadyJobs(jobs, r) {
      var k :| k in ready && k < |jobs| && jobs[k] == j;
      assert k in r;
    }
  }

  lemma CompleteKeepsWaits(g: Graph, jobs: seq<nat>, b: Books, c: nat, b': Books)
    requires BooksOk(g, jobs, b) && b'.done == b.done + {c}
    requires forall j :: j in b'.waiting <==> j in b.waiting && b.waiting[j] - {c} != {}
    requires forall j :: j in b'.waiting ==> b'.waiting[j] == b.waiting[j] - {c}
    ensures WaitsOk(g, jobs, b')
  {
    hide Ordered, Partition, Deps;
    forall j | j in jobs && j !in b'.waiting ensures Deps(g, j) <= b'.done {
      if j in b.waiting {
        assert Deps(g, j) - b.done - {c} == {};
      }
    }
  }

  lemma CompleteKeepsBooks(g: Graph, jobs: seq<nat>, index: map<nat, nat>, dependents: map<nat, seq<nat>>,
                           b: Books, c: nat, b': Books)
    requires BooksOk(g, jobs, b) && DependentsOk(g, jobs, dependents) && IndexOk(jobs, index)
    requires c in b.running && NoBadDuplicates(g, set j | j in jobs) && CompletedBooks(index, dependents, b, c, b')
    ensures BooksOk(g, jobs, b')
  {
    hide Ordered, Deps, ReadyJobs, Visit, Positions, DependentsOk, IndexOk, NoBadDuplicates, WaitsOk;
    var (w, pushed) := Visit(b.waiting, c, ListOf(dependents, c));
    VisitOutcome(g, jobs, dependents, b, c);
    PushedReady(g, jobs, index, b.ready, pushed);
    CompleteKeepsWaits(g, jobs, b, c, b');
    var p := set j | j in pushed;
    assert p <= b.waiting.Keys && w.Keys == b.waiting.Keys - p;
  }

  // ---------- nothing is left behind ----------

  /** With nothing ready or running, an ordered job list is completely done. */
  lemma {:induction false} AllDone(g: Graph, jobs: seq<nat>, b: Books, n: nat)
    requires BooksOk(g, jobs, b) && b.ready == [] && b.running == {} && n <= |jobs|
    ensures forall i :: 0 <= i < n ==> jobs[i] in b.done
    decreases n
  {
    if n > 0 {
      AllDone(g, jobs, b, n - 1);
      var j := jobs[n - 1];
      assert j in jobs;
      assert ReadyJobs(jobs, b.ready) == {};
      forall d | d in Deps(g, j) ensures d in b.done {
        assert d in jobs[..n - 1];
      }
      assert Deps(g, j) - b.done == {};
    }
  }

  // ---------- setting up ----------

  /** Enter one job in the dependents list of each of its dependencies. */
  method EnterDependencies(g: Graph, job: nat, dependents0: map<nat, seq<nat>>)
    returns (dependents: map<nat, seq<nat>>, waitDeps: set<nat>)
    requires WellFormed(g) && job < |g|
    ensures waitDeps == Deps(g, job)
    ensures forall d: nat, j: nat :: Count(ListOf(dependents, d), j) ==
              Count(ListOf(dependents0, d), j) + if j == job then Count(g[job], d) else 0
  {
    dependents, waitDeps := dependents0, {};
    assert forall d :: d !in g[job][..0];
    assert forall d: nat :: Count(g[job][..0], d) == 0;
    for k := 0 to |g[job]|
      invariant waitDeps == set d | d in g[job][..k]
      invariant forall d: nat, j: nat :: Count(ListOf(dependents, d), j) ==
                  Count(ListOf(dependents0, d), j) + if j == job then Count(g[job][..k], d) else 0
    {
      var dep := g[job][k];
      ghost var before := dependents;
      dependents := dependents[dep := ListOf(dependents, dep) + [job]];
      waitDeps := waitDeps + {dep};
      assert g[job][..k + 1] == g[job][..k] + [dep];
      assert (g[job][..k] + [dep])[..k] == g[job][..k];
      forall d: nat, j: nat
        ensures Count(ListOf(dependents, d), j) ==
                Count(ListOf(before, d), j) + if j == job && d == dep then 1 else 0
      {
        if d == dep {
          var l := ListOf(dependents, d);
          assert l[..|l| - 1] == ListOf(before, d);
        }
      }
    }
    assert g[job][..|g[job]|] == g[job];
    forall d ensures d in waitDeps <==> d in Deps(g, job) {
    }
  }

  /** The books before anything ran, for the first n jobs. */
  ghost predicate Prepared(g: Graph, jobs: seq<nat>, n: nat, waiting: map<nat, set<nat>>, ready: seq<nat>) {
    && n <= |jobs|
    && (forall j :: j in waiting ==> j in jobs[..n] && waiting[j] == Deps(g, j) && waiting[j] != {})
    && (forall k :: 0 <= k < n && jobs[k] !in waiting ==> Deps(g, jobs[k]) == {} && k in ready)
    && (forall i :: 0 <= i < |ready| ==> ready[i] < n && jobs[ready[i]] !in waiting)
    && Distinct(ready)
  }

  lemma PreparedBooks(g: Graph, jobs: seq<nat>, waiting: map<nat, set<nat>>, ready: seq<nat>)
    requires Ordered(g, jobs) && Prepared(g, jobs, |jobs|, waiting, ready)
    ensures BooksOk(g, jobs, Books(waiting, ready, {}, {}))
  {
    hide Deps, Edge;
    assert jobs[..|jobs|] == jobs;
    forall j | j in jobs && j !in waiting ensures j in ReadyJobs(jobs, ready) && Deps(g, j) == {} {
      var k :| 0 <= k < |jobs| && jobs[k] == j;
    }
  }

  method Prepare(g: Graph, jobs: seq<nat>)
    returns (waiting: map<nat, set<nat>>, dependents: map<nat, seq<nat>>, index: map<nat, nat>, ready: seq<nat>)
    requires Ordered(g, jobs)
    ensures BooksOk(g, jobs, Books(waiting, ready, {}, {}))
    ensures DependentsOk(g, jobs, dependents) && IndexOk(jobs, index)
  {
    hide Deps, Count, Edge, Prepared, DependentsOk;
    waiting, dependents, index, ready := map[], map[], map[], [];
    PreparedNothing(g, jobs);
    NoDependents(g, jobs);
    for i := 0 to |jobs|
      invariant IndexOk(jobs[..i], index)
      invariant DependentsOk(g, jobs[..i], dependents)
      invariant Prepared(g, jobs, i, waiting, ready)
    {
      var job := jobs[i];
      assert jobs[..i + 1] == jobs[..i] + [job];
      assert job !in jobs[..i];
      index := index[job := i];
      ghost var before := dependents;
      if |g[job]| == 0 {
        NoDeps(g, job);
        PreparedReady(g, jobs, i, waiting, ready);
        ready := ready + [i];
      } else {
        var waitDeps;
        dependents, waitDeps := EnterDependencies(g, job, dependents);
        SomeDeps(g, job);
        PreparedWaiting(g, jobs, i, waiting, ready);
        waiting := waiting[job := waitDeps];
      }
      DependentsGrow(g, jobs, i, before, dependents);
    }
    assert jobs[..|jobs|] == jobs;
    PreparedBooks(g, jobs, waiting, ready);
  }

  lemma PreparedNothing(g: Graph, jobs: seq<nat>)
    ensures Prepared(g, jobs, 0, map[], [])
  {
  }

  lemma PreparedReady(g: Graph, jobs: seq<nat>, i: nat, waiting: map<nat, set<nat>>, ready: seq<nat>)
    requires Ordered(g, jobs) && i < |jobs| && Prepared(g, jobs, i, waiting, ready) && Deps(g, jobs[i]) == {}
    ensures Prepared(g, jobs, i + 1, waiting, ready + [i])
  {
    hide Deps, Edge;
    assert jobs[..i + 1] == jobs[..i] + [jobs[i]];
    assert jobs[i] !in jobs[..i];
    assert i in ready + [i];
  }

  lemma PreparedWaiting(g: Graph, jobs: seq<nat>, i: nat, waiting: map<nat, set<nat>>, ready: seq<nat>)
    requires Ordered(g, jobs) && i < |jobs| && Prepared(g, jobs, i, waiting, ready) && Deps(g, jobs[i]) != {}
    ensures Prepared(g, jobs, i + 1, waiting[jobs[i] := Deps(g, jobs[i])], ready)
  {
    hide Deps, Edge;
    assert jobs[..i + 1] == jobs[..i] + [jobs[i]];
  }

  lemma NoDependents(g: Graph, jobs: seq<nat>)
    ensures DependentsOk(g, jobs[..0], map[])
  {
  }

  lemma NoDeps(g: Graph, j: nat)
    requires j < |g| && g[j] == []
    ensures Deps(g, j) == {} && forall d: nat :: Count(g[j], d) == 0
  {
  }

  lemma SomeDeps(g: Graph, j: nat)
    requires WellFormed(g) && j < |g| && g[j] != []
    ensures Deps(g, j) != {}
  {
    assert g[j][0] in Deps(g, j);
  }

  lemma DependentsGrow(g: Graph, jobs: seq<nat>, i: nat, before: map<nat, seq<nat>>, after: map<nat, seq<nat>>)
    requires Ordered(g, jobs) && i < |jobs| && DependentsOk(g, jobs[..i], before)
    requires forall d: nat, j: nat :: Count(ListOf(after, d), j) ==
               Count(ListOf(before, d), j) + if j == jobs[i] then Count(g[jobs[i]], d) else 0
    ensures DependentsOk(g, jobs[..i + 1], after)
  {
    hide Count, Edge;
    assert jobs[..i + 1] == jobs[..i] + [jobs[i]];
    assert jobs[i] !in jobs[..i];
    forall d: nat, j: nat ensures Count(ListOf(after, d), j) == Named(g, jobs[..i + 1], d, j) {
      assert Count(ListOf(before, d), j) == Named(g, jobs[..i], d, j);
    }
  }

  // ---------- the loop over the dependents of a completed job ----------

  method UpdateDependents(index: map<nat, nat>, waiting0: map<nat, set<nat>>, ready0: seq<nat>, c: nat, list: seq<nat>)
    returns (waiting: map<nat, set<nat>>, ready: seq<nat>)
    requires forall i :: 0 <= i < |list| ==> list[i] in index
    ensures var (w, pushed) := Visit(waiting0, c, list);
            && (forall i :: 0 <= i < |pushed| ==> pushed[i] in index)
            && waiting == w && ready == ready0 + Positions(index, pushed)
  {
    waiting, ready := waiting0, ready0;
    ghost var pushed := [];
    for n := 0 to |list|
      invariant forall i :: 0 <= i < |pushed| ==> pushed[i] in index
      invariant Visit(waiting0, c, list[..n]) == (waiting, pushed)
      invariant ready == ready0 + Positions(index, pushed)
    {
      var j := list[n];
      assert list[..n + 1][..n] == list[..n];
      var wait := Wait(waiting, j) - {c};
      if wait == {} {
        // This job is now ready to run.
        ready := ready + [index[j]];
        waiting := waiting - {j};
        assert Positions(index, pushed + [j]) == Positions(index, pushed) + [index[j]];
        pushed := pushed + [j];
      } else {
        waiting := waiting[j := wait];
      }
    }
    assert list[..|list|] == list;
  }

  // ---------- runJobs ----------

  /** The failing completion was the first to fail, and nothing started after it. */
  ghost predicate StoppedAt(log: seq<Event>, i: nat) {
    && i < |log| && log[i].Finish? && !log[i].ok
    && (forall k :: 0 <= k < i && log[k].Finish? ==> log[k].ok)
    && (forall k :: i < k < |log| ==> log[k].Finish?)
  }

  /** The job was the first to be received with an error, and nothing started after that. */
  ghost predicate StoppedBy(log: seq<Event>, job: nat) {
    exists i: nat :: StoppedAt(log, i) && log[i].job == job
  }

  /** Every started job was received. */
  ghost predicate Drained(log: seq<Event>) {
    forall j :: Start(j) in log ==> Finish(j, true) in log || Finish(j, false) in log
  }

  /** Every received outcome is the one the job has. */
  ghost predicate Outcomes(fails: nat -> bool, log: seq<Event>) {
    forall j, ok :: Finish(j, ok) in log ==> ok == !fails(j)
  }

  lemma OutcomesGrow(fails: nat -> bool, log: seq<Event>, e: Event)
    requires Outcomes(fails, log) && (e.Finish? ==> e.ok == !fails(e.job))
    ensures Outcomes(fails, log + [e])
  {
  }

  /** Receive the remaining completions after a failure, whatever their outcome. */
  method Drain(g: Graph, fails: nat -> bool, cap: nat, running0: set<nat>, log0: seq<Event>, tokens0: nat, ghost i: nat)
    returns (log: seq<Event>, tokens: nat)
    requires LogOk(g, cap, log0) && RunningMatches(running0, log0) && tokens0 == |running0| && StoppedAt(log0, i)
    requires Outcomes(fails, log0)
    ensures LogOk(g, cap, log) && Drained(log) && tokens == 0 && log0 <= log && StoppedAt(log, i)
    ensures Outcomes(fails, log)
  {
    hide LogOk, Active, Outcomes;
    log, tokens := log0, tokens0;
    var running, numRunning := running0, |running0|;
    while numRunning != 0
      invariant numRunning == |running| == tokens
      invariant LogOk(g, cap, log) && RunningMatches(running, log) && log0 <= log && StoppedAt(log, i)
      invariant Outcomes(fails, log)
    {
      assert running != {};
      var j :| j in running;
      var ok := !fails(j);
      LogFinish(g, cap, running, log, j, ok);
      OutcomesGrow(fails, log, Finish(j, ok));
      running, log := running - {j}, log + [Finish(j, ok)];
      numRunning, tokens := numRunning - 1, tokens - 1;
    }
    assert running == {};
  }

  ghost predicate RunInv(g: Graph, jobs: seq<nat>, cap: nat, b: Books, log: seq<Event>) {
    BooksOk(g, jobs, b) && LogOk(g, cap, log) && LogMatches(b, log)
  }

  lemma RunBegins(g: Graph, jobs: seq<nat>, cap: nat, b: Books)
    requires BooksOk(g, jobs, b) && b.running == {} && b.done == {}
    ensures RunInv(g, jobs, cap, b, [])
  {
    hide LogOk, LogMatches, BooksOk;
    EmptyLog(g, cap);
  }

  lemma RunStart(g: Graph, jobs: seq<nat>, cap: nat, b: Books, log: seq<Event>, k: nat)
    requires RunInv(g, jobs, cap, b, log) && k < |b.ready| && |b.running| < cap
    ensures b.ready[k] < |jobs|
    ensures var j := jobs[b.ready[k]];
            RunInv(g, jobs, cap, StartBooks(jobs, b, k), log + [Start(j)]) && j !in b.running
  {
    hide LogOk, LogMatches, Deps, Edge;
    var j := jobs[b.ready[k]];
    StartReadyJobs(g, jobs, b, k);
    StartKeepsBooks(g, jobs, b, k);
    assert j in jobs && j !in b.waiting;
    LogStart(g, cap, b, log, j);
    MatchesBooks(b.(running := b.running + {j}), StartBooks(jobs, b, k), log + [Start(j)]);
  }

  lemma MatchesBooks(b: Books, b': Books, log: seq<Event>)
    requires LogMatches(b, log) && b'.running == b.running && b'.done == b.done
    ensures LogMatches(b', log)
  {
  }

  lemma RunComplete(g: Graph, jobs: seq<nat>, cap: nat, index: map<nat, nat>, dependents: map<nat, seq<nat>>,
                    b: Books, log: seq<Event>, c: nat, b': Books)
    requires RunInv(g, jobs, cap, b, log) && c in b.running && NoBadDuplicates(g, set j | j in jobs)
    requires DependentsOk(g, jobs, dependents) && IndexOk(jobs, index) && CompletedBooks(index, dependents, b, c, b')
    ensures RunInv(g, jobs, cap, b', log + [Finish(c, true)])
    ensures |b'.waiting| + |b'.ready| == |b.waiting| + |b.ready|
  {
    hide LogOk, Deps, DependentsOk, IndexOk, CompletedBooks, NoBadDuplicates, WaitsOk, Ordered, Active;
    CompleteKeepsBooks(g, jobs, index, dependents, b, c, b');
    LogRunning(b, log);
    LogFinish(g, cap, b.running, log, c, true);
    MatchesComplete(index, dependents, b, log, c, b');
    CompletedSizes(g, jobs, index, dependents, b, c, b');
  }

  lemma MatchesComplete(index: map<nat, nat>, dependents: map<nat, seq<nat>>, b: Books, log: seq<Event>, c: nat, b': Books)
    requires LogMatches(b, log) && c in b.running && CompletedBooks(index, dependents, b, c, b')
    requires RunningMatches(b.running - {c}, log + [Finish(c, true)])
    ensures LogMatches(b', log + [Finish(c, true)])
  {
    hide Active, Visit, Positions;
    var l := log + [Finish(c, true)];
    assert forall e :: e in l <==> e in log || e == Finish(c, true);
    assert b'.running == b.running - {c} && b'.done == b.done + {c};
  }

  /** Completing a job moves jobs from waiting to ready and loses none. */
  lemma CompletedSizes(g: Graph, jobs: seq<nat>, index: map<nat, nat>, dependents: map<nat, seq<nat>>,
                       b: Books, c: nat, b': Books)
    requires BooksOk(g, jobs, b) && DependentsOk(g, jobs, dependents) && IndexOk(jobs, index)
    requires c in b.running && NoBadDuplicates(g, set j | j in jobs) && CompletedBooks(index, dependents, b, c, b')
    ensures |b'.waiting| + |b'.ready| == |b.waiting| + |b.ready|
  {
    hide Ordered, Deps, Visit, DependentsOk, NoBadDuplicates, WaitsOk, Partition;
    var (w, pushed) := Visit(b.waiting, c, ListOf(dependents, c));
    VisitOutcome(g, jobs, dependents, b, c);
    var p := set j | j in pushed;
    assert w.Keys == b.waiting.Keys - p && p <= b.waiting.Keys;
    DistinctSize(pushed);
    SizeSplit(w.Keys, p, b.waiting.Keys);
  }

  lemma SizeSplit<T>(a: set<T>, b: set<T>, c: set<T>)
    requires a == c - b && b <= c
    ensures |a| + |b| == |c|
  {
    assert c == a + b && a !! b;
  }

  lemma {:induction false} DistinctSize<T>(s: seq<T>)
    requires Distinct(s)
    ensures |set x | x in s| == |s|
    decreases |s|
  {
    if s != [] {
      var s0, last := s[..|s| - 1], s[|s| - 1];
      DistinctSize(s0);
      assert s == s0 + [last];
      assert (set x | x in s) == (set x | x in s0) + {last};
      assert last !in s0;
    }
  }

  /** Run the root job and everything below it, at most cap at a time.  fails tells which
      jobs return an error; tokens is the number of semaphore permits still held on return. */
  method RunJobs(g: Graph, fails: nat -> bool, root: nat, cap: nat) returns (r: Outcome, log: seq<Event>, tokens: nat)
    requires WellFormed(g) && root < |g|
    requires cap > 0 ==> !ReachesCycle(g, root) && NoBadDuplicates(g, Below(g, root))
    ensures r.NoCapacity? <==> cap == 0
    ensures !r.DependencyCycle?
    ensures LogOk(g, cap, log) && Drained(log) && Outcomes(fails, log) && tokens == 0
    ensures forall j :: Start(j) in log ==> j in Below(g, root)
    ensures cap > 0 ==> (r.Success? <==> forall j :: j in Below(g, root) ==> !fails(j))
    ensures r.JobFailed? <==> exists j :: Start(j) in log && fails(j)
    ensures r.Success? ==> forall j :: j in Below(g, root) ==> Finish(j, true) in log
    ensures r.Success? ==> forall j :: Finish(j, false) !in log
    ensures r.JobFailed? ==> StoppedBy(log, r.job) && fails(r.job)
  {
    hide Reach, ReachesCycle, LogOk, Active, StoppedBy;
    log, tokens := [], 0;
    EmptyLog(g, cap);
    if cap == 0 {
      return NoCapacity, log, tokens;
    }
    var jobList := new JobList(g);
    jobList.AddJobs(root);
    var jobs := jobList.jobs;
    assert (set j | j in jobs) == Below(g, root);
    r, log, tokens := RunListed(g, fails, jobs, cap);
    ReachRefl(g, root);
  }

  lemma EmptyLog(g: Graph, cap: nat)
    ensures LogOk(g, cap, []) && RunningMatches({}, [])
    ensures forall b: Books :: b.running == {} && b.done == {} ==> LogMatches(b, [])
  {
  }

  /** The build failed: wait for the jobs that still run. */
  method FailRun(g: Graph, fails: nat -> bool, jobs: seq<nat>, cap: nat, running: set<nat>, log0: seq<Event>,
                 tokens0: nat, c: nat, ghost b: Books)
    returns (log: seq<Event>, tokens: nat)
    requires RunInv(g, jobs, cap, b, log0) && c in b.running && running == b.running - {c} && tokens0 == |running|
    requires Outcomes(fails, log0) && fails(c)
    ensures LogOk(g, cap, log) && Drained(log) && Outcomes(fails, log) && tokens == 0 && StoppedBy(log, c)
    ensures forall j :: Start(j) in log ==> j in jobs
    ensures Start(c) in log
  {
    hide LogOk, RunInv, RunningMatches, StoppedAt, Drained, Outcomes;
    RunFails(g, jobs, cap, b, log0, c);
    RunningStarted(g, jobs, cap, b, log0, c);
    var first := log0 + [Finish(c, false)];
    OutcomesGrow(fails, log0, Finish(c, false));
    assert Start(c) in first;
    log, tokens := Drain(g, fails, cap, running, first, tokens0, |log0|);
    PrefixHas(first, log, Start(c));
    DrainStartsNothing(first, log, |log0|);
    assert log[|log0|] == first[|log0|];
    assert StoppedAt(log, |log0|) && log[|log0|].job == c;
  }

  method RunListed(g: Graph, fails: nat -> bool, jobs: seq<nat>, cap: nat) returns (r: Outcome, log: seq<Event>, tokens: nat)
    requires Ordered(g, jobs) && cap > 0 && NoBadDuplicates(g, set j | j in jobs)
    ensures r.Success? || r.JobFailed?
    ensures LogOk(g, cap, log) && Drained(log) && Outcomes(fails, log) && tokens == 0
    ensures forall j :: Start(j) in log ==> j in jobs
    ensures r.Success? <==> forall j :: j in jobs ==> !fails(j)
    ensures r.JobFailed? ==> Start(r.job) in log && fails(r.job)
    ensures r.Success? ==> forall j :: j in jobs ==> Finish(j, true) in log
    ensures r.Success? ==> forall j :: Finish(j, false) !in log
    ensures r.JobFailed? ==> StoppedBy(log, r.job)
  {
    hide LogOk, Active, Ordered, DependentsOk, IndexOk, NoBadDuplicates, CompletedBooks, Visit, RunInv, StoppedBy, Drained, BooksOk, Outcomes;
    log, tokens := [], 0;
    EmptyLog(g, cap);
    var waiting, dependents, index, ready := Prepare(g, jobs);
    var running: set<nat>, numRunning := {}, 0;
    ghost var done: set<nat> := {};
    RunBegins(g, jobs, cap, Books(waiting, ready, running, done));
    NoOutcomes(fails);
    while |ready| > 0 || numRunning != 0
      invariant RunInv(g, jobs, cap, Books(waiting, ready, running, done), log) && Outcomes(fails, log)
      invariant numRunning == |running| == tokens
      decreases 2 * (|waiting| + |ready|) + |running|
    {
      ghost var b := Books(waiting, ready, running, done);
      var startFirst := *;
      if |ready| > 0 && tokens < cap && (startFirst || numRunning == 0) {
        // A permit is free: start some ready job.
        var k :| 0 <= k < |ready|;
        RunStart(g, jobs, cap, b, log, k);
        var job := jobs[ready[k]];
        OutcomesGrow(fails, log, Start(job));
        ready := ready[..k] + ready[k + 1..];
        running, log := running + {job}, log + [Start(job)];
        numRunning, tokens := numRunning + 1, tokens + 1;
        continue;
      }
      assert running != {};
      var completed :| completed in running;
      running, numRunning, tokens := running - {completed}, numRunning - 1, tokens - 1;
      if fails(completed) {
        log, tokens := FailRun(g, fails, jobs, cap, running, log, tokens, completed, b);
        return JobFailed(completed), log, tokens;
      }
      ListedIndexed(g, jobs, dependents, index, completed);
      waiting, ready := UpdateDependents(index, waiting, ready, completed, ListOf(dependents, completed));
      done := done + {completed};
      CompletedBy(index, dependents, b, completed, Books(waiting, ready, running, done));
      RunComplete(g, jobs, cap, index, dependents, b, log, completed, Books(waiting, ready, running, done));
      OutcomesGrow(fails, log, Finish(completed, true));
      log := log + [Finish(completed, true)];
    }
    NothingLeft(g, jobs, cap, Books(waiting, ready, running, done), log);
    NoneFailed(fails, jobs, log);
    r := if waiting != map[] then DependencyCycle(waiting) else Success;
  }

  lemma NoOutcomes(fails: nat -> bool)
    ensures Outcomes(fails, [])
  {
  }

  lemma NoneFailed(fails: nat -> bool, jobs: seq<nat>, log: seq<Event>)
    requires Outcomes(fails, log) && forall j :: j in jobs ==> Finish(j, true) in log
    ensures forall j :: j in jobs ==> !fails(j)
  {
  }

  /** What holds when the first failure is received. */
  lemma RunFails(g: Graph, jobs: seq<nat>, cap: nat, b: Books, log: seq<Event>, c: nat)
    requires RunInv(g, jobs, cap, b, log) && c in b.running
    ensures var l := log + [Finish(c, false)];
            && LogOk(g, cap, l) && RunningMatches(b.running - {c}, l) && StoppedAt(l, |log|)
            && forall j :: Start(j) in l ==> j in jobs
  {
    hide LogOk, Active, LogMatches, RunningMatches, StoppedAt, ReadyJobs, Distinct;
    LogRunning(b, log);
    LogFinish(g, cap, b.running, log, c, false);
    var l := log + [Finish(c, false)];
    assert l[..|l| - 1] == log;
    FirstFailure(b, l, c);
    StartedListed(jobs, b, log);
    FinishStartsNothing(log, Finish(c, false));
  }

  lemma CompletedBy(index: map<nat, nat>, dependents: map<nat, seq<nat>>, b: Books, c: nat, b': Books)
    requires var (w, pushed) := Visit(b.waiting, c, ListOf(dependents, c));
             && (forall i :: 0 <= i < |pushed| ==> pushed[i] in index)
             && b'.waiting == w && b'.ready == b.ready + Positions(index, pushed)
    requires b'.running == b.running - {c} && b'.done == b.done + {c}
    ensures CompletedBooks(index, dependents, b, c, b')
  {
  }

  lemma ListedIndexed(g: Graph, jobs: seq<nat>, dependents: map<nat, seq<nat>>, index: map<nat, nat>, c: nat)
    requires DependentsOk(g, jobs, dependents) && IndexOk(jobs, index)
    ensures forall i :: 0 <= i < |ListOf(dependents, c)| ==> ListOf(dependents, c)[i] in index
  {
    var list := ListOf(dependents, c);
    forall i | 0 <= i < |list| ensures list[i] in index {
      CountZero(list, list[i]);
      assert Count(list, list[i]) == Named(g, jobs, c, list[i]);
    }
  }

  lemma FirstFailure(b: Books, log: seq<Event>, c: nat)
    requires |log| > 0 && log[|log| - 1] == Finish(c, false) && LogMatches(b, log[..|log| - 1])
    ensures StoppedAt(log, |log| - 1)
  {
    hide Active;
    forall k | 0 <= k < |log| - 1 && log[k].Finish? ensures log[k].ok {
      assert log[k] in log[..|log| - 1];
      assert log[k] != Finish(log[k].job, false);
    }
  }

  lemma RunningStarted(g: Graph, jobs: seq<nat>, cap: nat, b: Books, log: seq<Event>, c: nat)
    requires RunInv(g, jobs, cap, b, log) && c in b.running
    ensures Start(c) in log
  {
    hide BooksOk, LogOk, Active;
  }

  lemma StartedListed(jobs: seq<nat>, b: Books, log: seq<Event>)
    requires LogMatches(b, log) && Partition(jobs, b)
    ensures forall j :: Start(j) in log ==> j in jobs
  {
    hide Active, ReadyJobs, Distinct;
  }

  lemma FinishStartsNothing(log: seq<Event>, e: Event)
    requires e.Finish?
    ensures forall j :: Start(j) in log + [e] ==> Start(j) in log
  {
  }

  lemma PrefixHas(before: seq<Event>, after: seq<Event>, e: Event)
    requires before <= after && e in before
    ensures e in after
  {
    var k :| 0 <= k < |before| && before[k] == e;
    assert after[k] == e;
  }

  lemma DrainStartsNothing(before: seq<Event>, after: seq<Event>, i: nat)
    requires before <= after && StoppedAt(after, i) && i < |before|
    ensures forall j :: Start(j) in after ==> Start(j) in before
  {
    forall j | Start(j) in after ensures Start(j) in before {
      var k :| 0 <= k < |after| && after[k] == Start(j);
      assert before[k] == after[k];
    }
  }

  lemma NothingLeft(g: Graph, jobs: seq<nat>, cap: nat, b: Books, log: seq<Event>)
    requires RunInv(g, jobs, cap, b, log) && b.ready == [] && b.running == {}
    ensures b.waiting == map[] && LogOk(g, cap, log) && Drained(log)
    ensures forall j :: Start(j) in log ==> j in jobs
    ensures forall j :: j in jobs ==> Finish(j, true) in log
    ensures forall j :: Finish(j, false) !in log
  {
    hide LogOk, Active, Deps, Ordered;
    AllDone(g, jobs, b, |jobs|);
    assert b.waiting.Keys == {};
  }
}
