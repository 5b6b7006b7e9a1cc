/**
 What a run of a function with defers means for the program text: the deferred calls made
 are those of the blocks that control passed through, in text order, backwards.
 */
module DeferText {
  import opened Graph
  import opened Wrappers
  import opened Defer
  import opened DeferRun

  /** The blocks entered: the first one, then the target of every jump. */
  function Walk(events: seq<Event>): (r: seq<nat>)
    ensures |r| > 0
  {
    if events == [] then [0]
    else
      var last := events[|events| - 1];
      Walk(events[..|events| - 1]) + if last.Jump? then [last.to] else []
  }

  /** The arguments evaluated by the defer statements. */
  function Arguments(events: seq<Event>): seq<int> {
    if events == [] then []
    else
      var last := events[|events| - 1];
      Arguments(events[..|events| - 1]) + if last.DeferStmt? then [last.args] else []
  }

  /** All callees deferred in the text of these blocks. */
  function Deferred(f: Function, walk: seq<nat>): seq<Callee> {
    if walk == [] then []
    else
      var b := walk[|walk| - 1];
      Deferred(f, walk[..|walk| - 1]) + if b < |f.defers| then f.defers[b] else []
  }

  function Callees(calls: seq<Call>): (r: seq<Callee>)
    ensures |r| == |calls| && forall i :: 0 <= i < |r| ==> r[i] == calls[i].callee
  {
    seq(|calls|, i requires 0 <= i < |calls| => calls[i].callee)
  }

  function ArgsOf(calls: seq<Call>): (r: seq<int>)
    ensures |r| == |calls| && forall i :: 0 <= i < |r| ==> r[i] == calls[i].args
  {
    seq(|calls|, i requires 0 <= i < |calls| => calls[i].args)
  }

  /** The state agrees with the text: in the body, all defers of the blocks left and the first
      ones of this block were executed; afterwards, the defers of the walk up to some point,
      and all of them after a regular exit. */
  ghost predicate TextInv(c: Compiled, events: seq<Event>, s: State) {
    var walk := Walk(events);
    && Path(c.f.cfg, walk)
    && ArgsOf(s.executed) == Arguments(events)
    && Callees(s.executed) <= Deferred(c.f, walk)
    && (Exit in events ==> Callees(s.executed) == Deferred(c.f, walk))
    && (s.mode.Body? ==> InText(c, walk, s) && Exit !in events)
  }

  ghost predicate InText(c: Compiled, walk: seq<nat>, s: State)
    requires s.mode.Body? && |walk| > 0
  {
    var b := s.mode.block;
    && b == walk[|walk| - 1] && b < |c.f.defers| && s.mode.site <= |c.f.defers[b]|
    && Callees(s.executed) == Deferred(c.f, walk[..|walk| - 1]) + c.f.defers[b][..s.mode.site]
  }

  lemma TextStart(c: Compiled)
    requires CompiledOk(c)
    ensures TextInv(c, [], Start())
  {
    assert Walk([]) == [0] && Deferred(c.f, []) == [];
    assert [0][..0] == [];
    assert Callees([]) == [];
  }

  /** A site of the code is the site of the text. */
  lemma SiteText(c: Compiled, b: nat)
    requires CompiledOk(c) && b < |c.code|
    ensures b < |c.f.defers| && |c.code[b]| == |c.f.defers[b]|
  {
    assert BlockOk(c.f, c.all, b, c.code[b]);
  }

  lemma WalkStep(events: seq<Event>, e: Event)
    ensures Walk(events + [e]) == Walk(events) + if e.Jump? then [e.to] else []
    ensures Arguments(events + [e]) == Arguments(events) + if e.DeferStmt? then [e.args] else []
  {
    assert (events + [e])[..|events|] == events;
  }

  lemma DeferredLast(f: Function, walk: seq<nat>, b: nat)
    requires b < |f.defers|
    ensures Deferred(f, walk + [b]) == Deferred(f, walk) + f.defers[b]
  {
    assert (walk + [b])[..|walk|] == walk;
  }

  lemma OneMore<T>(before: seq<T>, defers: seq<T>, i: nat)
    requires i < |defers|
    ensures before + defers[..i] + [defers[i]] == before + defers[..i + 1] <= before + defers
  {
  }

  lemma DeferStep(c: Compiled, events: seq<Event>, s: State, args: int)
    requires CompiledOk(c) && TextInv(c, events, s)
    requires s.mode.Body? && s.mode.block < |c.code| && s.mode.site < |c.code[s.mode.block]|
    ensures TextInv(c, events + [DeferStmt(args)], ExecDefer(c, s, args))
  {
    hide Path, CompiledOk, Walk, Arguments, Deferred;
    var e, walk := DeferStmt(args), Walk(events);
    var b, i := s.mode.block, s.mode.site;
    SiteText(c, b);
    WalkStep(events, e);
    assert Walk(events + [e]) == walk;
    var before, defers := walk[..|walk| - 1], c.f.defers[b];
    assert walk == before + [b];
    DeferredLast(c.f, before, b);
    OneMore(Deferred(c.f, before), defers, i);
    var s' := ExecDefer(c, s, args);
    assert Callees(s'.executed) == Callees(s.executed) + [defers[i]];
    assert ArgsOf(s'.executed) == ArgsOf(s.executed) + [args];
  }

  lemma PathGrows(g: Graph, walk: seq<nat>, w: nat)
    requires Path(g, walk) && Edge(g, walk[|walk| - 1], w)
    ensures Path(g, walk + [w])
  {
  }

  /** At the end of a block, everything that the text defers so far was executed. */
  lemma BlockDone(c: Compiled, events: seq<Event>, s: State)
    requires CompiledOk(c) && TextInv(c, events, s) && AtBlockEnd(c, s)
    ensures Callees(s.executed) == Deferred(c.f, Walk(events))
  {
    hide Path, CompiledOk, Walk, Arguments, Deferred;
    SiteText(c, s.mode.block);
    var walk, b := Walk(events), s.mode.block;
    assert walk == walk[..|walk| - 1] + [b];
    DeferredLast(c.f, walk[..|walk| - 1], b);
    assert c.f.defers[b][..s.mode.site] == c.f.defers[b];
  }

  lemma JumpStep(c: Compiled, events: seq<Event>, s: State, to: nat)
    requires CompiledOk(c) && TextInv(c, events, s) && AtBlockEnd(c, s) && Edge(c.f.cfg, s.mode.block, to)
    ensures TextInv(c, events + [Jump(to)], s.(mode := Body(to, 0)))
  {
    hide Edge, CodeOk, Path, Walk, Arguments, Deferred;
    var e, walk := Jump(to), Walk(events);
    BlockDone(c, events, s);
    WalkStep(events, e);
    EdgeTarget(c.f.cfg, s.mode.block, to);
    PathGrows(c.f.cfg, walk, to);
    DeferredLast(c.f, walk, to);
    assert (walk + [to])[..|walk|] == walk;
    assert c.f.defers[to][..0] == [];
    assert Deferred(c.f, walk) + [] == Deferred(c.f, walk);
  }

  lemma EdgeTarget(g: Graph, u: nat, w: nat)
    requires Edge(g, u, w)
    ensures w < |g|
  {
  }

  /** Leaving the body, regularly or by a panic, and everything after it. */
  lemma LeaveStep(c: Compiled, events: seq<Event>, s: State, e: Event, s': State)
    requires CompiledOk(c) && TextInv(c, events, s)
    requires !e.DeferStmt? && !e.Jump? && !s'.mode.Body? && s'.executed == s.executed
    requires e.Exit? ==> AtBlockEnd(c, s)
    ensures TextInv(c, events + [e], s')
  {
    hide Path, CompiledOk, Walk, Arguments, Deferred;
    WalkStep(events, e);
    assert Walk(events + [e]) == Walk(events) && Arguments(events + [e]) == Arguments(events);
    if e.Exit? {
      BlockDone(c, events, s);
    }
  }

  lemma TextStep(c: Compiled, events: seq<Event>, s: State, e: Event)
    requires CompiledOk(c) && TextInv(c, events, s) && Next(c, s, e).Some?
    ensures TextInv(c, events + [e], Next(c, s, e).value)
  {
    hide TextInv, CompiledOk, Edge;
    match e
    case DeferStmt(args) => DeferStep(c, events, s, args);
    case Jump(to) => JumpStep(c, events, s, to);
    case _ => LeaveStep(c, events, s, e, Next(c, s, e).value);
  }

  lemma {:induction false} TextKept(c: Compiled, events: seq<Event>)
    requires CompiledOk(c) && Run(c, events).Some?
    ensures TextInv(c, events, Run(c, events).value)
    decreases |events|
  {
    hide TextInv, CompiledOk, Next;
    if events == [] {
      TextStart(c);
    } else {
      var before := events[..|events| - 1];
      TextKept(c, before);
      TextStep(c, before, Run(c, before).value, events[|events| - 1]);
      assert before + [events[|events| - 1]] == events;
    }
  }

  /** When the run-defers loop has ended: control took a path through the control flow graph
      from the entry; the calls made are, backwards, those that the text defers along this
      path, up to the panic if there was one and all of them otherwise, each with the
      arguments of its own defer statement. */
  lemma CallsOfTheText(c: Compiled, events: seq<Event>)
    requires CompiledOk(c) && Run(c, events).Some? && Run(c, events).value.mode.Finished?
    ensures var calls := Reverse(Run(c, events).value.called);
            && Path(c.f.cfg, Walk(events)) && Walk(events)[0] == 0
            && ArgsOf(calls) == Arguments(events)
            && Callees(calls) <= Deferred(c.f, Walk(events))
            && (Exit in events ==> Callees(calls) == Deferred(c.f, Walk(events)))
  {
    hide CompiledOk, Run, Path;
    AllCalledOnce(c, events);
    ReverseTwice(Run(c, events).value.executed);
    TextKept(c, events);
    EntryFirst(events);
  }

  lemma {:induction false} EntryFirst(events: seq<Event>)
    ensures Walk(events)[0] == 0
    decreases |events|
  {
    if events != [] {
      EntryFirst(events[..|events| - 1]);
    }
  }

  lemma {:induction false} ReverseLast<T>(x: T, xs: seq<T>)
    ensures Reverse([x] + xs) == Reverse(xs) + [x]
    decreases |xs|
  {
    var all := [x] + xs;
    if xs == [] {
      assert Reverse(all) == [x] + Reverse(all[..0]);
    } else {
      assert all[..|all| - 1] == [x] + xs[..|xs| - 1];
      ReverseLast(x, xs[..|xs| - 1]);
    }
  }

  lemma {:induction false} ReverseTwice<T>(xs: seq<T>)
    ensures Reverse(Reverse(xs)) == xs
    decreases |xs|
  {
    if xs != [] {
      var front, last := xs[..|xs| - 1], xs[|xs| - 1];
      ReverseTwice(front);
      ReverseLast(last, Reverse(front));
    }
  }
}
