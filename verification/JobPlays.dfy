/**
 Runs of the job runner as sequences of moves, for any order in which ready jobs are popped.
 A bad duplicate dependency is exactly what lets a run start a job twice.
 */
module JobPlays {
  import opened Graph
  import opened Wrappers
  import opened JobOrder
  import opened Jobs
  import opened JobRunner
  import Sets

  /** What is fixed during a run, and the books at its beginning. */
  datatype Setup = Setup(g: Graph, jobs: seq<nat>, index: map<nat, nat>, dependents: map<nat, seq<nat>>, first: Books)

  ghost predicate TablesOk(s: Setup) {
    Ordered(s.g, s.jobs) && DependentsOk(s.g, s.jobs, s.dependents) && IndexOk(s.jobs, s.index)
  }

  ghost predicate SetupOk(s: Setup) {
    TablesOk(s) && BooksOk(s.g, s.jobs, s.first) && s.first.running == {} && s.first.done == {}
  }

  /** How a job is popped from ready: the popped element and what is left, in any new order. */
  type Policy = seq<nat> -> (nat, seq<nat>)

  ghost predicate PolicyOk(pop: Policy) {
    forall ready: seq<nat> :: ready != [] ==> Pops(pop, ready)
  }

  ghost predicate Pops(pop: Policy, ready: seq<nat>) {
    multiset(ready) == multiset{pop(ready).0} + multiset(pop(ready).1)
  }

  /** Start the next ready job, or receive a completion without error. */
  datatype Move = StartNext | Complete(job: nat)

  /** The state of the runner, the jobs completed, and the log.  A job that was started twice
      runs twice. */
  datatype Stage = Stage(waiting: map<nat, set<nat>>, ready: seq<nat>, running: multiset<nat>, done: set<nat>, log: seq<Event>)

  /** The jobs that a completion makes ready. */
  function Pushed(s: Setup, t: Stage, c: nat): seq<nat> {
    Visit(t.waiting, c, ListOf(s.dependents, c)).1
  }

  function Started(s: Setup, pop: Policy, t: Stage): Stage
    requires pop(t.ready).0 < |s.jobs|
  {
    var j := s.jobs[pop(t.ready).0];
    t.(ready := pop(t.ready).1, running := t.running + multiset{j}, log := t.log + [Start(j)])
  }

  function Completed(s: Setup, t: Stage, c: nat): Stage
    requires forall i :: 0 <= i < |Pushed(s, t, c)| ==> Pushed(s, t, c)[i] in s.index
  {
    Stage(Visit(t.waiting, c, ListOf(s.dependents, c)).0, t.ready + Positions(s.index, Pushed(s, t, c)),
          t.running - multiset{c}, t.done + {c}, t.log + [Finish(c, true)])
  }

  /** One move, when it is possible: a start takes a permit. */
  function Play(s: Setup, pop: Policy, cap: nat, t: Stage, m: Move): Option<Stage> {
    match m
    case StartNext =>
      if t.ready != [] && pop(t.ready).0 < |s.jobs| && Active(t.log) < cap then Some(Started(s, pop, t)) else None
    case Complete(c) =>
      if c in t.running && forall i :: 0 <= i < |Pushed(s, t, c)| ==> Pushed(s, t, c)[i] in s.index
      then Some(Completed(s, t, c))
      else None
  }

  function Begin(s: Setup): Stage {
    Stage(s.first.waiting, s.first.ready, multiset{}, {}, [])
  }

  function PlayAll(s: Setup, pop: Policy, cap: nat, moves: seq<Move>): Option<Stage>
    decreases |moves|
  {
    if moves == [] then Some(Begin(s))
    else
      var t := PlayAll(s, pop, cap, moves[..|moves| - 1]);
      if t.None? then None else Play(s, pop, cap, t.value, moves[|moves| - 1])
  }

  ghost predicate Plays(s: Setup, pop: Policy, cap: nat, t: Stage) {
    exists moves :: PlayAll(s, pop, cap, moves) == Some(t)
  }

  lemma PlaysOn(s: Setup, pop: Policy, cap: nat, t: Stage, m: Move)
    requires Plays(s, pop, cap, t) && Play(s, pop, cap, t, m).Some?
    ensures Plays(s, pop, cap, Play(s, pop, cap, t, m).value)
  {
    hide Play;
    var moves :| PlayAll(s, pop, cap, moves) == Some(t);
    var more := moves + [m];
    assert more[..|more| - 1] == moves;
    assert PlayAll(s, pop, cap, more) == Play(s, pop, cap, t, m);
  }

  /** The popped element, and what is left, were ready. */
  lemma PopFacts(pop: Policy, ready: seq<nat>)
    requires PolicyOk(pop) && ready != []
    ensures pop(ready).0 in ready && |pop(ready).1| == |ready| - 1
    ensures multiset(ready) == multiset{pop(ready).0} + multiset(pop(ready).1)
    ensures forall x :: x in ready <==> x == pop(ready).0 || x in pop(ready).1
  {
    assert Pops(pop, ready);
    var x, rest := pop(ready).0, pop(ready).1;
    assert x in multiset(ready);
    assert |multiset(ready)| == |ready|;
    forall y ensures y in ready <==> y == x || y in rest {
      assert y in ready <==> y in multiset(ready);
      assert y in rest <==> y in multiset(rest);
    }
  }

  // ---------- without bad duplicates ----------

  ghost function BooksOf(t: Stage): Books {
    Books(t.waiting, t.ready, (set j | j in t.running), t.done)
  }

  /** No job runs twice, and the books are in order. */
  ghost predicate StageOk(s: Setup, cap: nat, t: Stage) {
    (forall j :: t.running[j] <= 1) && RunInv(s.g, s.jobs, cap, BooksOf(t), t.log)
  }

  /** Every stage of every run keeps the books in order and the log safe. */
  lemma {:induction false} PlayKeeps(s: Setup, pop: Policy, cap: nat, moves: seq<Move>)
    requires SetupOk(s) && PolicyOk(pop) && NoBadDuplicates(s.g, set j | j in s.jobs)
    requires PlayAll(s, pop, cap, moves).Some?
    ensures StageOk(s, cap, PlayAll(s, pop, cap, moves).value)
    decreases |moves|
  {
    hide BooksOk, NoBadDuplicates, Ordered, StageOk, DependentsOk, IndexOk, Play, PolicyOk;
    if moves == [] {
      BeginOk(s, cap);
    } else {
      PlayKeeps(s, pop, cap, moves[..|moves| - 1]);
      MoveKeeps(s, pop, cap, PlayAll(s, pop, cap, moves[..|moves| - 1]).value, moves[|moves| - 1]);
    }
  }

  lemma BeginOk(s: Setup, cap: nat)
    requires SetupOk(s)
    ensures StageOk(s, cap, Begin(s))
  {
    hide BooksOk, RunInv, Ordered, DependentsOk, IndexOk;
    RunBegins(s.g, s.jobs, cap, s.first);
    assert BooksOf(Begin(s)) == s.first;
  }

  lemma MoveKeeps(s: Setup, pop: Policy, cap: nat, t: Stage, m: Move)
    requires TablesOk(s) && PolicyOk(pop) && NoBadDuplicates(s.g, set j | j in s.jobs)
    requires StageOk(s, cap, t) && Play(s, pop, cap, t, m).Some?
    ensures StageOk(s, cap, Play(s, pop, cap, t, m).value)
  {
    hide BooksOk, LogOk, NoBadDuplicates, Ordered, Visit, RunInv, DependentsOk, IndexOk, Active, PolicyOk, StageOk;
    match m
    case StartNext => StartKeeps(s, pop, cap, t);
    case Complete(c) => CompleteKeeps(s, cap, t, c);
  }

  lemma StartKeeps(s: Setup, pop: Policy, cap: nat, t: Stage)
    requires TablesOk(s) && PolicyOk(pop) && StageOk(s, cap, t)
    requires t.ready != [] && pop(t.ready).0 < |s.jobs| && Active(t.log) < cap
    ensures StageOk(s, cap, Started(s, pop, t))
  {
    hide BooksOk, LogOk, Ordered, RunInv, DependentsOk, IndexOk, Active, PolicyOk;
    var b := BooksOf(t);
    PopFacts(pop, t.ready);
    var k :| 0 <= k < |t.ready| && t.ready[k] == pop(t.ready).0;
    RunningIs(s, cap, t);
    RunStart(s.g, s.jobs, cap, b, t.log, k);
    RestSame(t.ready, k, pop(t.ready).1);
    var t' := Started(s, pop, t);
    SameReady(s, cap, StartBooks(s.jobs, b, k), pop(t.ready).1, t'.log);
    assert BooksOf(t') == StartBooks(s.jobs, b, k).(ready := pop(t.ready).1);
  }

  lemma RestSame(ready: seq<nat>, k: nat, rest: seq<nat>)
    requires k < |ready| && multiset(ready) == multiset{ready[k]} + multiset(rest)
    ensures multiset(ready[..k] + ready[k + 1..]) == multiset(rest)
  {
    assert ready == ready[..k] + [ready[k]] + ready[k + 1..];
    var other := ready[..k] + ready[k + 1..];
    assert multiset(ready) == multiset(other) + multiset{ready[k]};
    Cancel(multiset(other), multiset(rest), ready[k]);
  }

  lemma Cancel(a: multiset<nat>, b: multiset<nat>, x: nat)
    requires a + multiset{x} == multiset{x} + b
    ensures a == b
  {
    assert a == (a + multiset{x}) - multiset{x};
    assert b == (multiset{x} + b) - multiset{x};
  }

  /** The order of ready does not matter. */
  lemma SameReady(s: Setup, cap: nat, b: Books, ready: seq<nat>, log: seq<Event>)
    requires RunInv(s.g, s.jobs, cap, b, log) && multiset(ready) == multiset(b.ready)
    ensures RunInv(s.g, s.jobs, cap, b.(ready := ready), log)
  {
    hide LogOk, Ordered, WaitsOk, Active, Partition, LogMatches;
    SamePartition(s.jobs, b, ready);
    MatchesBooks(b, b.(ready := ready), log);
    SameWaits(s, b, ready);
  }

  lemma SamePartition(jobs: seq<nat>, b: Books, ready: seq<nat>)
    requires Partition(jobs, b) && multiset(ready) == multiset(b.ready)
    ensures Partition(jobs, b.(ready := ready))
  {
    hide Distinct;
    SameElements(ready, b.ready);
    forall i | 0 <= i < |ready| ensures ready[i] < |jobs| {
      assert ready[i] in b.ready;
    }
    assert ReadyJobs(jobs, ready) == ReadyJobs(jobs, b.ready);
  }

  lemma SameWaits(s: Setup, b: Books, ready: seq<nat>)
    requires WaitsOk(s.g, s.jobs, b)
    ensures WaitsOk(s.g, s.jobs, b.(ready := ready))
  {
  }

  lemma SameElements(a: seq<nat>, b: seq<nat>)
    requires multiset(a) == multiset(b) && Distinct(b)
    ensures Distinct(a) && forall x :: x in a <==> x in b
  {
    forall x ensures x in a <==> x in b {
      assert x in a <==> x in multiset(a);
      assert x in b <==> x in multiset(b);
    }
    forall x: nat ensures Count(a, x) <= 1 {
      DistinctCounts(b, x);
      CountIs(a, x);
      CountIs(b, x);
    }
    CountsDistinct(a);
  }

  lemma {:induction false} CountIs(s: seq<nat>, x: nat)
    ensures Count(s, x) == multiset(s)[x]
    decreases |s|
  {
    if s != [] {
      CountIs(s[..|s| - 1], x);
      assert s == s[..|s| - 1] + [s[|s| - 1]];
    }
  }

  lemma CompleteKeeps(s: Setup, cap: nat, t: Stage, c: nat)
    requires TablesOk(s) && NoBadDuplicates(s.g, set j | j in s.jobs) && StageOk(s, cap, t)
    requires c in t.running && forall i :: 0 <= i < |Pushed(s, t, c)| ==> Pushed(s, t, c)[i] in s.index
    ensures StageOk(s, cap, Completed(s, t, c))
  {
    hide BooksOk, LogOk, NoBadDuplicates, Ordered, Visit, RunInv, DependentsOk, IndexOk, Active;
    var b, t' := BooksOf(t), Completed(s, t, c);
    assert BooksOf(t').running == b.running - {c};
    CompletedBy(s.index, s.dependents, b, c, BooksOf(t'));
    RunComplete(s.g, s.jobs, cap, s.index, s.dependents, b, t.log, c, BooksOf(t'));
  }

  lemma RunningIs(s: Setup, cap: nat, t: Stage)
    requires StageOk(s, cap, t)
    ensures Active(t.log) == |BooksOf(t).running| && Once(t.log)
  {
    hide BooksOk, Once, Active;
  }

  // ---------- with a bad duplicate ----------

  ghost predicate IsReady(jobs: seq<nat>, ready: seq<nat>, j: nat) {
    exists k :: k in ready && k < |jobs| && jobs[k] == j
  }

  /** What holds even when jobs were made ready or started more than once. */
  ghost predicate Loose(s: Setup, t: Stage) {
    && (forall j :: j in t.waiting ==> j in s.jobs && t.waiting[j] == Deps(s.g, j) - t.done && t.waiting[j] != {})
    && (forall j :: j in s.jobs && j !in t.waiting ==>
          Deps(s.g, j) <= t.done && (j in t.done || j in t.running || IsReady(s.jobs, t.ready, j)))
    && (forall k :: k in t.ready ==> k < |s.jobs|)
  }

  lemma BeginLoose(s: Setup)
    requires SetupOk(s)
    ensures Loose(s, Begin(s))
  {
    hide Ordered, Deps, DependentsOk, IndexOk;
    var b := s.first;
    forall j | j in s.jobs && j !in b.waiting ensures IsReady(s.jobs, b.ready, j) {
      assert j in ReadyJobs(s.jobs, b.ready);
    }
  }

  lemma LooseStart(s: Setup, pop: Policy, t: Stage)
    requires PolicyOk(pop) && Loose(s, t) && t.ready != [] && pop(t.ready).0 < |s.jobs|
    ensures Loose(s, Started(s, pop, t))
  {
    hide Deps, PolicyOk;
    PopFacts(pop, t.ready);
    var t' := Started(s, pop, t);
    forall j | IsReady(s.jobs, t.ready, j) ensures j in t'.running || IsReady(s.jobs, t'.ready, j) {
      var k :| k in t.ready && k < |s.jobs| && s.jobs[k] == j;
    }
  }

  lemma {:induction false} PushedListed(waiting: map<nat, set<nat>>, c: nat, list: seq<nat>)
    ensures |Visit(waiting, c, list).1| <= |list| && forall j :: j in Visit(waiting, c, list).1 ==> j in list
    decreases |list|
  {
    if list != [] {
      PushedListed(waiting, c, list[..|list| - 1]);
    }
  }

  /** Whatever is made ready has a position. */
  lemma PushedIndexed(s: Setup, t: Stage, c: nat)
    requires TablesOk(s)
    ensures forall i :: 0 <= i < |Pushed(s, t, c)| ==> Pushed(s, t, c)[i] in s.index
  {
    hide Visit, Ordered;
    PushedListed(t.waiting, c, ListOf(s.dependents, c));
    ListedIndexed(s.g, s.jobs, s.dependents, s.index, c);
    forall i | 0 <= i < |Pushed(s, t, c)| ensures Pushed(s, t, c)[i] in s.index {
      assert Pushed(s, t, c)[i] in ListOf(s.dependents, c);
    }
  }

  /** What a completion does to one job. */
  lemma CompleteOne(s: Setup, t: Stage, c: nat, j: nat)
    requires TablesOk(s) && Loose(s, t) && j in s.jobs
    ensures var w := Visit(t.waiting, c, ListOf(s.dependents, c)).0;
            && (forall i :: i in w ==> w[i] != {})
            && Wait(w, j) == Wait(t.waiting, j) - {c}
            && Count(Pushed(s, t, c), j) == (if Wait(t.waiting, j) - {c} == {} then Count(s.g[j], c) else 0)
            && (Count(s.g[j], c) > 0 <==> c in Deps(s.g, j))
  {
    hide Ordered, Visit;
    var list := ListOf(s.dependents, c);
    JobInRange(s.g, s.jobs, j);
    VisitCounts(t.waiting, c, list, j);
    CountZero(list, j);
    CountZero(s.g[j], c);
    assert Count(list, j) == Named(s.g, s.jobs, c, j);
    assert c in Deps(s.g, j) <==> c in s.g[j];
  }

  lemma PositionReady(s: Setup, ready: seq<nat>, pushed: seq<nat>, j: nat)
    requires IndexOk(s.jobs, s.index) && (forall i :: 0 <= i < |pushed| ==> pushed[i] in s.index)
    requires j in s.jobs && (IsReady(s.jobs, ready, j) || j in pushed)
    ensures IsReady(s.jobs, ready + Positions(s.index, pushed), j)
  {
    var r := ready + Positions(s.index, pushed);
    if IsReady(s.jobs, ready, j) {
      var k :| k in ready && k < |s.jobs| && s.jobs[k] == j;
      assert k in r;
    } else {
      var i :| 0 <= i < |pushed| && pushed[i] == j;
      assert r[|ready| + i] == s.index[j];
      var k :| 0 <= k < |s.jobs| && s.jobs[k] == j;
    }
  }

  lemma PositionsInside(s: Setup, ready: seq<nat>, pushed: seq<nat>)
    requires IndexOk(s.jobs, s.index) && (forall i :: 0 <= i < |pushed| ==> pushed[i] in s.index)
    requires forall k :: k in ready ==> k < |s.jobs|
    ensures forall k :: k in ready + Positions(s.index, pushed) ==> k < |s.jobs|
  {
    forall k | k in Positions(s.index, pushed) ensures k < |s.jobs| {
      var i :| 0 <= i < |pushed| && Positions(s.index, pushed)[i] == k;
      assert pushed[i] in s.jobs;
    }
  }

  lemma NothingStrange(s: Setup, t: Stage, c: nat, j: nat)
    requires TablesOk(s) && Loose(s, t) && j !in s.jobs
    ensures j !in Visit(t.waiting, c, ListOf(s.dependents, c)).0
  {
    hide Ordered, Visit, Deps;
    var list := ListOf(s.dependents, c);
    VisitCounts(t.waiting, c, list, j);
    assert Count(list, j) == Named(s.g, s.jobs, c, j);
    CountZero(list, j);
    assert j !in t.waiting;
  }

  lemma LooseComplete(s: Setup, t: Stage, c: nat)
    requires TablesOk(s) && Loose(s, t) && c in t.running
    requires forall i :: 0 <= i < |Pushed(s, t, c)| ==> Pushed(s, t, c)[i] in s.index
    ensures Loose(s, Completed(s, t, c))
  {
    hide Visit, Ordered, Deps, IsReady, IndexOk, DependentsOk, Positions, Count;
    var t' := Completed(s, t, c);
    forall j: nat | j in t'.waiting
      ensures j in s.jobs && t'.waiting[j] == Deps(s.g, j) - t'.done && t'.waiting[j] != {}
    {
      if j !in s.jobs {
        NothingStrange(s, t, c, j);
      }
      CompleteOne(s, t, c, j);
    }
    forall j: nat | j in s.jobs && j !in t'.waiting
      ensures Deps(s.g, j) <= t'.done && (j in t'.done || j in t'.running || IsReady(s.jobs, t'.ready, j))
    {
      CompleteOne(s, t, c, j);
      CountZero(Pushed(s, t, c), j);
      if j in t.waiting {
        assert Deps(s.g, j) - t.done - {c} == {};
        assert c in Deps(s.g, j);
        PositionReady(s, t.ready, Pushed(s, t, c), j);
      } else if IsReady(s.jobs, t.ready, j) {
        PositionReady(s, t.ready, Pushed(s, t, c), j);
      }
    }
    PositionsInside(s, t.ready, Pushed(s, t, c));
  }

  // ---------- permits ----------

  /** How often the first completions of these jobs can make something ready. */
  function Budget(s: Setup, done: set<nat>, n: nat): nat
    requires n <= |s.jobs|
  {
    if n == 0 then 0
    else Budget(s, done, n - 1) + if s.jobs[n - 1] in done then |ListOf(s.dependents, s.jobs[n - 1])| else 0
  }

  /** As many permits as jobs and listed dependencies. */
  ghost function Enough(s: Setup): nat {
    |s.jobs| + Budget(s, (set j | j in s.jobs), |s.jobs|)
  }

  lemma {:induction false} BudgetGrows(s: Setup, done: set<nat>, all: set<nat>, n: nat)
    requires n <= |s.jobs| && forall i :: 0 <= i < n ==> s.jobs[i] in all
    ensures Budget(s, done, n) <= Budget(s, all, n)
  {
    if n > 0 {
      BudgetGrows(s, done, all, n - 1);
    }
  }

  lemma {:induction false} BudgetAdds(s: Setup, done: set<nat>, c: nat, i: nat, n: nat)
    requires Distinct(s.jobs) && i < |s.jobs| && s.jobs[i] == c && c !in done && n <= |s.jobs|
    ensures Budget(s, done + {c}, n) == Budget(s, done, n) + if i < n then |ListOf(s.dependents, c)| else 0
  {
    if n > 0 {
      BudgetAdds(s, done, c, i, n - 1);
    }
  }

  /** Between moves of a run that completes every job at most once. */
  ghost predicate Fair(s: Setup, pop: Policy, cap: nat, t: Stage) {
    && Plays(s, pop, cap, t) && Loose(s, t)
    && Active(t.log) + |t.ready| <= |s.jobs| + Budget(s, t.done, |s.jobs|)
  }

  lemma BeginFair(s: Setup, pop: Policy, cap: nat)
    requires SetupOk(s)
    ensures Fair(s, pop, cap, Begin(s))
  {
    hide Ordered, DependentsOk, IndexOk, Loose, WaitsOk;
    BeginLoose(s);
    assert PlayAll(s, pop, cap, []) == Some(Begin(s));
    DistinctBelow(s.first.ready, |s.jobs|);
  }

  lemma DistinctBelow(list: seq<nat>, n: nat)
    requires Distinct(list) && forall k :: 0 <= k < |list| ==> list[k] < n
    ensures |list| <= n
  {
    DistinctSize(list);
    var members := set x | x in list;
    forall x | x in members ensures x in Range(n) {
    }
    Sets.SubsetSize(members, Range(n));
  }

  ghost function Range(n: nat): (r: set<nat>)
    ensures |r| == n && forall x: nat :: x in r <==> x < n
  {
    if n == 0 then {} else Range(n - 1) + {n - 1}
  }

  lemma ActiveAppend(log: seq<Event>, e: Event)
    ensures Active(log + [e]) == Active(log) + if e.Start? then 1 else -1
  {
    assert (log + [e])[..|log|] == log;
  }

  /** Start the next job. */
  lemma StartOne(s: Setup, pop: Policy, cap: nat, t: Stage)
    requires TablesOk(s) && PolicyOk(pop) && cap >= Enough(s) && Fair(s, pop, cap, t) && t.ready != []
    ensures pop(t.ready).0 < |s.jobs| && pop(t.ready).0 in t.ready && Fair(s, pop, cap, Started(s, pop, t))
    ensures |pop(t.ready).1| == |t.ready| - 1
  {
    hide Plays, DependentsOk, IndexOk, Ordered, Active, PolicyOk, IsReady;
    PopFacts(pop, t.ready);
    BudgetGrows(s, t.done, (set j | j in s.jobs), |s.jobs|);
    assert Active(t.log) < cap;
    PlaysOn(s, pop, cap, t, StartNext);
    LooseStart(s, pop, t);
    ActiveAppend(t.log, Start(s.jobs[pop(t.ready).0]));
  }

  /** Receive the first completion of a running job. */
  lemma CompleteFirst(s: Setup, pop: Policy, cap: nat, t: Stage, c: nat)
    requires TablesOk(s) && Fair(s, pop, cap, t) && c in t.running && c !in t.done && c in s.jobs
    ensures forall i :: 0 <= i < |Pushed(s, t, c)| ==> Pushed(s, t, c)[i] in s.index
    ensures Fair(s, pop, cap, Completed(s, t, c))
  {
    hide Plays, DependentsOk, IndexOk, Active, Visit, Loose, Positions, Deps;
    PushedIndexed(s, t, c);
    PlaysOn(s, pop, cap, t, Complete(c));
    LooseComplete(s, t, c);
    ActiveAppend(t.log, Finish(c, true));
    PushedListed(t.waiting, c, ListOf(s.dependents, c));
    var i :| 0 <= i < |s.jobs| && s.jobs[i] == c;
    BudgetAdds(s, t.done, c, i, |s.jobs|);
  }

  /** How often the log starts the job. */
  function Starts(log: seq<Event>, j: nat): nat {
    multiset(log)[Start(j)]
  }

  /** Start everything that is ready, in whatever order it is popped. */
  lemma {:induction false} StartAll(s: Setup, pop: Policy, cap: nat, t: Stage, k: nat) returns (t': Stage)
    requires TablesOk(s) && PolicyOk(pop) && cap >= Enough(s) && Fair(s, pop, cap, t) && k < |s.jobs|
    ensures Fair(s, pop, cap, t') && t'.ready == [] && t'.done == t.done
    ensures Starts(t'.log, s.jobs[k]) >= Starts(t.log, s.jobs[k]) + multiset(t.ready)[k]
    decreases |t.ready|
  {
    hide Fair, TablesOk, Enough, PolicyOk;
    if t.ready == [] {
      t' := t;
    } else {
      StartOne(s, pop, cap, t);
      PopFacts(pop, t.ready);
      var next := Started(s, pop, t);
      t' := StartAll(s, pop, cap, next, k);
      MoreStarts(t.log, s.jobs[pop(t.ready).0], s.jobs[k]);
    }
  }

  lemma MoreStarts(log: seq<Event>, x: nat, j: nat)
    ensures Starts(log + [Start(x)], j) == Starts(log, j) + if x == j then 1 else 0
  {
  }

  /** The first listed job of a set. */
  lemma FirstOf(jobs: seq<nat>, missing: set<nat>) returns (i: nat)
    requires missing != {} && forall x :: x in missing ==> x in jobs
    ensures i < |jobs| && jobs[i] in missing && forall k :: 0 <= k < i ==> jobs[k] !in missing
  {
    var x :| x in missing;
    i := 0;
    while i < |jobs| && jobs[i] !in missing
      invariant i <= |jobs| && forall k :: 0 <= k < i ==> jobs[k] !in missing
    {
      i := i + 1;
    }
  }

  lemma FirstCanRun(s: Setup, t: Stage, targets: set<nat>, i: nat)
    requires Ordered(s.g, s.jobs) && Closed(s.g, targets) && i < |s.jobs| && s.jobs[i] in targets
    requires forall k :: 0 <= k < i ==> s.jobs[k] !in targets - t.done
    ensures Deps(s.g, s.jobs[i]) <= t.done
  {
    forall d | d in Deps(s.g, s.jobs[i]) ensures d in t.done {
      assert d in s.jobs[..i] && d in targets;
    }
  }

  /** With nothing left to start, a job whose dependencies are done is running or done. */
  lemma RunsNow(s: Setup, t: Stage, x: nat)
    requires Loose(s, t) && t.ready == [] && x in s.jobs && x !in t.done && Deps(s.g, x) <= t.done
    ensures x in t.running
  {
    hide Deps;
    assert x !in t.waiting;
  }

  /** Start everything that gets ready and complete just a set of jobs with all below them. */
  lemma {:induction false} RunTargets(s: Setup, pop: Policy, cap: nat, t: Stage, targets: set<nat>) returns (t': Stage)
    requires TablesOk(s) && PolicyOk(pop) && cap >= Enough(s) && Fair(s, pop, cap, t)
    requires Closed(s.g, targets) && (forall x :: x in targets ==> x in s.jobs) && s.jobs != []
    ensures Fair(s, pop, cap, t') && t'.ready == [] && t'.done == t.done + targets
    decreases targets - t.done
  {
    hide Fair, DependentsOk, IndexOk, Closed, Enough, PolicyOk, Pushed;
    var t1 := StartAll(s, pop, cap, t, 0);
    var missing := targets - t.done;
    if missing == {} {
      t' := t1;
      forall x | x in targets ensures x in t.done {
        assert x !in missing;
      }
      assert t.done + targets == t.done;
    } else {
      var i := FirstOf(s.jobs, missing);
      var x := s.jobs[i];
      FirstCanRun(s, t1, targets, i);
      FairLoose(s, pop, cap, t1);
      RunsNow(s, t1, x);
      CompleteFirst(s, pop, cap, t1, x);
      t' := RunTargets(s, pop, cap, Completed(s, t1, x), targets);
      assert x in targets;
      assert t.done + {x} + targets == t.done + targets;
    }
  }

  lemma FairLoose(s: Setup, pop: Policy, cap: nat, t: Stage)
    requires Fair(s, pop, cap, t)
    ensures Loose(s, t) && Plays(s, pop, cap, t)
  {
  }

  /** An ordered job list has no cycles. */
  lemma OrderedAcyclic(g: Graph, jobs: seq<nat>, u: nat)
    requires Ordered(g, jobs) && u in jobs
    ensures !InCycle(g, u)
  {
    hide Reach;
    var i :| 0 <= i < |jobs| && jobs[i] == u;
    var s := set j | j in jobs[..i];
    forall x: nat, w: nat | x in s && Edge(g, x, w) ensures w in s {
      var k :| 0 <= k < i && jobs[k] == x;
      assert w in jobs[..k];
    }
    assert Closed(g, s);
    if w: nat :| Edge(g, u, w) && Reach(g, w, u) {
      assert w in jobs[..i];
      ReachClosed(g, s, w, u);
      assert u in jobs[..i];
    }
  }

  /** Everything that must run before j, except d. */
  ghost function Others(g: Graph, j: nat, d: nat): set<nat> {
    set v: nat | v < |g| && v != d && (Reach(g, d, v) || LeadsTo(g, j, d, v))
  }

  ghost predicate LeadsTo(g: Graph, j: nat, d: nat, v: nat) {
    exists e: nat :: Edge(g, j, e) && e != d && Reach(g, e, v)
  }

  lemma OthersClosed(g: Graph, jobs: seq<nat>, j: nat, d: nat)
    requires Ordered(g, jobs) && j in jobs && d in jobs && Edge(g, j, d) && BadDuplicate(g, j, d)
    ensures Closed(g, Others(g, j, d)) && forall x :: x in Others(g, j, d) ==> x in jobs
  {
    hide Reach, Ordered;
    OrderedAcyclic(g, jobs, d);
    forall u: nat, w: nat | u in Others(g, j, d) && Edge(g, u, w) ensures w in Others(g, j, d) {
      OtherStep(g, j, d, u, w);
    }
    forall x | x in Others(g, j, d) ensures x in jobs {
      if Reach(g, d, x) {
        OrderedClosed(g, jobs, d);
      } else {
        var e: nat :| Edge(g, j, e) && e != d && Reach(g, e, x);
        ReachStep(g, j, e, x);
        OrderedClosed(g, jobs, j);
      }
    }
  }

  lemma OtherStep(g: Graph, j: nat, d: nat, u: nat, w: nat)
    requires BadDuplicate(g, j, d) && !InCycle(g, d) && u in Others(g, j, d) && Edge(g, u, w)
    ensures w in Others(g, j, d)
  {
    hide Reach;
    ReachEdge(g, u, w);
    if Reach(g, d, u) {
      ReachTrans(g, d, u, w);
      if w == d {
        var x := ReachFirstEdge(g, d, u);
        ReachTrans(g, x, u, d);
      }
    } else {
      var e: nat :| Edge(g, j, e) && e != d && Reach(g, e, u);
      ReachTrans(g, e, u, w);
    }
  }

  /** The other dependencies of j and all dependencies of d are among them; d is not. */
  lemma OthersHold(g: Graph, j: nat, d: nat)
    requires Edge(g, j, d) && BadDuplicate(g, j, d) && !InCycle(g, d)
    ensures d !in Others(g, j, d)
    ensures Deps(g, d) <= Others(g, j, d) && Deps(g, j) <= Others(g, j, d) + {d}
  {
    hide Reach;
    ReachRefl(g, d);
    forall v | v in Deps(g, d) ensures v in Others(g, j, d) {
      ReachEdge(g, d, v);
      ReachRefl(g, v);
    }
    forall e | e in Deps(g, j) && e != d ensures e in Others(g, j, d) {
      ReachRefl(g, e);
      assert LeadsTo(g, j, d, e);
    }
  }

  lemma BadEdge(s: Setup, j: nat, d: nat)
    requires TablesOk(s) && j in s.jobs && BadDuplicate(s.g, j, d)
    ensures Edge(s.g, j, d) && d in s.jobs
  {
    hide Reach;
    CountZero(s.g[j], d);
    JobInRange(s.g, s.jobs, j);
    var i :| 0 <= i < |s.jobs| && s.jobs[i] == j;
    assert d in s.jobs[..i];
  }

  lemma PushedTwice(s: Setup, t: Stage, j: nat, d: nat)
    requires TablesOk(s) && Loose(s, t) && j in s.jobs && BadDuplicate(s.g, j, d)
    requires Deps(s.g, j) <= t.done + {d}
    ensures Count(Pushed(s, t, d), j) >= 2
  {
    hide Ordered, DependentsOk, IndexOk, Visit, Reach, Deps;
    CompleteOne(s, t, d, j);
  }

  /** Pushed jobs are on ready at their positions, as often as they were pushed. */
  lemma {:induction false} PositionsCount(s: Setup, pushed: seq<nat>, k: nat)
    requires IndexOk(s.jobs, s.index) && k < |s.jobs| && forall i :: 0 <= i < |pushed| ==> pushed[i] in s.index
    ensures multiset(Positions(s.index, pushed))[k] >= Count(pushed, s.jobs[k])
    decreases |pushed|
  {
    if pushed != [] {
      var front, last := pushed[..|pushed| - 1], pushed[|pushed| - 1];
      PositionsCount(s, front, k);
      assert Positions(s.index, pushed) == Positions(s.index, front) + [s.index[last]];
    }
  }

  /** For every bad duplicate, every order of popping and enough permits, there is a run that
      starts the job twice. */
  lemma BadStartsTwice(s: Setup, pop: Policy, cap: nat, j: nat, d: nat) returns (t: Stage)
    requires SetupOk(s) && PolicyOk(pop) && cap >= Enough(s) && j in s.jobs && BadDuplicate(s.g, j, d)
    ensures Plays(s, pop, cap, t) && Starts(t.log, j) >= 2
  {
    hide Ordered, DependentsOk, IndexOk, Visit, Loose, BooksOk, Plays, BadDuplicate, Closed, Others, Fair, Enough, PolicyOk,
      Positions;
    BeginFair(s, pop, cap);
    BadEdge(s, j, d);
    OrderedAcyclic(s.g, s.jobs, d);
    OthersClosed(s.g, s.jobs, j, d);
    OthersHold(s.g, j, d);
    var t1 := RunTargets(s, pop, cap, Begin(s), Others(s.g, j, d));
    FairLoose(s, pop, cap, t1);
    RunsNow(s, t1, d);
    CompleteFirst(s, pop, cap, t1, d);
    PushedTwice(s, t1, j, d);
    var k :| 0 <= k < |s.jobs| && s.jobs[k] == j;
    PositionsCount(s, Pushed(s, t1, d), k);
    assert Completed(s, t1, d).ready == Positions(s.index, Pushed(s, t1, d));
    t := StartAll(s, pop, cap, Completed(s, t1, d), k);
    FairLoose(s, pop, cap, t);
  }

  lemma {:induction false} OnceStarts(log: seq<Event>, j: nat)
    requires Once(log)
    ensures Starts(log, j) <= 1
    decreases |log|
  {
    if log != [] {
      var front, last := log[..|log| - 1], log[|log| - 1];
      OnceStarts(front, j);
      assert log == front + [last];
      if last == Start(j) {
        forall i | 0 <= i < |front| ensures front[i] != Start(j) {
          assert log[i] == front[i];
        }
        assert Start(j) !in front;
      }
    }
  }

  /** For every order of popping: no run with any number of permits starts or receives a job
      twice if and only if no listed job has a bad duplicate. */
  lemma StartsOnceIff(s: Setup, pop: Policy)
    requires SetupOk(s) && PolicyOk(pop)
    ensures NoBadDuplicates(s.g, set j | j in s.jobs) <==> forall cap: nat, t :: Plays(s, pop, cap, t) ==> Once(t.log)
  {
    hide SetupOk, BadDuplicate, PlayAll, RunInv, Once, PolicyOk, Enough, StageOk, Starts;
    if NoBadDuplicates(s.g, set j | j in s.jobs) {
      forall cap: nat, t | Plays(s, pop, cap, t) ensures Once(t.log) {
        var moves :| PlayAll(s, pop, cap, moves) == Some(t);
        PlayKeeps(s, pop, cap, moves);
        RunningIs(s, cap, t);
      }
    } else {
      var j: nat, d: nat :| j in s.jobs && BadDuplicate(s.g, j, d);
      var t := BadStartsTwice(s, pop, Enough(s), j, d);
      if Once(t.log) {
        OnceStarts(t.log, j);
      }
    }
  }
}
