/**
 The run-time life of defer records: the emitted createDefer stores, the run-defers loop,
 and the landing pad, as a machine driven by events.  Panics may strike in the body and in
 any deferred call.
 */
module DeferRun {
  import opened Graph
  import opened Wrappers
  import opened Defer

  /** Where a record lives: the one slot of its site, or a heap object of its own. */
  datatype Addr = Slot(block: nat, site: nat) | Heap(id: nat)

  datatype Record = Record(callback: nat, next: Option<Addr>, args: int)

  datatype Call = Call(callee: Callee, args: int)

  /** How a panic reaches this frame: by longjmp to the landing pad, or by a flag that is
      set while every callee returns. */
  datatype Unwind = Setjmp | ReturnUnwind

  datatype Mode =
    | Body(block: nat, site: nat)   // about to execute this defer site, or past the last one
    | LandingPad
    | LoopHead                      // rundefers.loophead
    | Returned                      // a deferred call came back to the loop
    | Finished
    | DefaultCase                   // the unreachable default of the callback switch

  /** executed and called record the defers executed and the calls made, for specification. */
  datatype State = State(mode: Mode, mem: map<Addr, Record>, deferPtr: Option<Addr>, heapUsed: nat,
                         pending: bool, executed: seq<Call>, called: seq<Call>)

  datatype Event =
    | DeferStmt(args: int)
    | Jump(to: nat)
    | Exit
    | BodyPanic
    | Land
    | PopCall(panics: bool)
    | ClearUnwind
    | LoopEnd

  datatype Compiled = Compiled(f: Function, all: seq<Callee>, code: seq<seq<Site>>, unwind: Unwind)

  ghost predicate CompiledOk(c: Compiled) {
    FunctionOk(c.f) && CodeOk(c.f, c.all, c.code)
  }

  function Start(): State { State(Body(0, 0), map[], None, 0, false, [], []) }

  /** One step of the emitted code; None when the event cannot happen in this state. */
  function Next(c: Compiled, s: State, e: Event): Option<State> {
    match e
    case DeferStmt(args) =>
      if s.mode.Body? && s.mode.block < |c.code| && s.mode.site < |c.code[s.mode.block]| then
        Some(ExecDefer(c, s, args))
      else None
    case Jump(to) =>
      if AtBlockEnd(c, s) && Edge(c.f.cfg, s.mode.block, to) then Some(s.(mode := Body(to, 0))) else None
    case Exit =>
      if AtBlockEnd(c, s) then Some(s.(mode := LoopHead)) else None
    case BodyPanic =>
      if s.mode.Body? then Some(s.(mode := LandingPad, pending := c.unwind.ReturnUnwind?)) else None
    case Land =>
      if s.mode.LandingPad? then Some(s.(mode := LoopHead, pending := false)) else None
    case PopCall(panics) =>
      if s.mode.LoopHead? && s.deferPtr.Some? && s.deferPtr.value in s.mem then
        Some(PopAndCall(c, s, panics))
      else None
    case ClearUnwind =>
      if s.mode.Returned? then Some(s.(mode := LoopHead, pending := false)) else None
    case LoopEnd =>
      if s.mode.LoopHead? && s.deferPtr.None? then Some(s.(mode := Finished)) else None
  }

  predicate AtBlockEnd(c: Compiled, s: State) {
    s.mode.Body? && s.mode.block < |c.code| && s.mode.site == |c.code[s.mode.block]|
  }

  /** Store a record in the slot or heap object of the site and push it on the list. */
  function ExecDefer(c: Compiled, s: State, args: int): State
    requires s.mode.Body? && s.mode.block < |c.code| && s.mode.site < |c.code[s.mode.block]|
  {
    var b, i := s.mode.block, s.mode.site;
    var site := c.code[b][i];
    var addr := if site.onHeap then Heap(s.heapUsed) else Slot(b, i);
    s.(mode := Body(b, i + 1),
       mem := s.mem[addr := Record(site.callback, s.deferPtr, args)],
       deferPtr := Some(addr),
       heapUsed := if site.onHeap then s.heapUsed + 1 else s.heapUsed,
       executed := s.executed + [Call(CalleeAt(c, b, i), args)])
  }

  /** The callee the program text names at a site. */
  function CalleeAt(c: Compiled, b: nat, i: nat): Callee {
    if b < |c.f.defers| && i < |c.f.defers[b]| then c.f.defers[b][i] else Direct(0)
  }

  /** The head leaves the list before its callee runs. */
  function PopAndCall(c: Compiled, s: State, panics: bool): State
    requires s.deferPtr.Some? && s.deferPtr.value in s.mem
  {
    var record := s.mem[s.deferPtr.value];
    if record.callback < |c.all| then
      s.(mode := if panics && c.unwind.Setjmp? then LandingPad else Returned,
         deferPtr := record.next,
         pending := panics && c.unwind.ReturnUnwind?,
         called := s.called + [Call(c.all[record.callback], record.args)])
    else
      s.(mode := DefaultCase, deferPtr := record.next)
  }

  /** The state after a whole sequence of events. */
  function Run(c: Compiled, events: seq<Event>): Option<State> {
    if events == [] then Some(Start())
    else match Run(c, events[..|events| - 1])
      case None => None
      case Some(s) => Next(c, s, events[|events| - 1])
  }

  function Reverse<T>(xs: seq<T>): (r: seq<T>)
    ensures |r| == |xs|
  {
    if xs == [] then [] else [xs[|xs| - 1]] + Reverse(xs[..|xs| - 1])
  }

  // ---------- a block off every cycle runs at most once ----------

  lemma AtMostOnce(g: Graph, walk: seq<nat>, i: nat, j: nat)
    requires Path(g, walk) && i < j < |walk| && !InCycle(g, walk[i])
    ensures walk[i] != walk[j]
  {
    var rest := walk[i + 1..j + 1];
    assert Edge(g, walk[i], walk[i + 1]);
    forall k | 0 <= k < |rest| - 1 ensures Edge(g, rest[k], rest[k + 1]) {
      assert Edge(g, walk[i + 1 + k], walk[i + 2 + k]);
    }
    assert Path(g, rest) && rest[0] == walk[i + 1] && rest[|rest| - 1] == walk[j];
  }

  // ---------- the linked list ----------

  /** Following next from p passes the addresses addrs, holding these calls, and ends in nil. */
  ghost predicate Chain(all: seq<Callee>, mem: map<Addr, Record>, p: Option<Addr>, addrs: seq<Addr>, calls: seq<Call>)
    decreases |addrs|
  {
    && |addrs| == |calls|
    && if addrs == [] then p == None else
       && p == Some(addrs[0]) && addrs[0] in mem
       && mem[addrs[0]].callback < |all|
       && calls[0] == Call(all[mem[addrs[0]].callback], mem[addrs[0]].args)
       && Chain(all, mem, mem[addrs[0]].next, addrs[1..], calls[1..])
  }

  lemma {:induction false} ChainFrame(all: seq<Callee>, mem: map<Addr, Record>, p: Option<Addr>,
                                      addrs: seq<Addr>, calls: seq<Call>, a: Addr, r: Record)
    requires Chain(all, mem, p, addrs, calls) && a !in addrs
    ensures Chain(all, mem[a := r], p, addrs, calls)
    decreases |addrs|
  {
    if addrs != [] {
      ChainFrame(all, mem, mem[addrs[0]].next, addrs[1..], calls[1..], a, r);
    }
  }

  /** A linked record is not in use by the site that executes now. */
  ghost predicate LiveOk(c: Compiled, s: State, a: Addr) {
    match a
    case Heap(id) => id < s.heapUsed
    case Slot(b, i) =>
      && b < |c.f.cfg| && !InCycle(c.f.cfg, b)
      && (s.mode.Body? ==> (b == s.mode.block && i < s.mode.site) || Left(c.f.cfg, b, s.mode.block))
  }

  /** The walk went through b and has since left it along an edge. */
  ghost predicate Left(g: Graph, b: nat, now: nat) {
    exists w: nat :: Edge(g, b, w) && Reach(g, w, now)
  }

  /** The calls not yet made, newest first. */
  function Remaining(s: State): seq<Call>
    requires |s.called| <= |s.executed|
  {
    Reverse(s.executed)[|s.called|..]
  }

  ghost predicate Inv(c: Compiled, s: State, addrs: seq<Addr>) {
    && (s.mode.Body? ==> s.mode.block < |c.code| && s.mode.site <= |c.code[s.mode.block]| && s.called == [])
    && !s.mode.DefaultCase?
    && (s.mode.Finished? ==> addrs == [])
    && (s.mode.Body? || s.mode.LoopHead? ==> !s.pending)
    && s.called <= Reverse(s.executed)
    && Chain(c.all, s.mem, s.deferPtr, addrs, Remaining(s))
    && (forall k :: 0 <= k < |addrs| ==> LiveOk(c, s, addrs[k]))
  }

  lemma LeftStep(g: Graph, b: nat, u: nat, w: nat)
    requires Left(g, b, u) && Edge(g, u, w)
    ensures Left(g, b, w)
  {
    hide Reach;
    var x: nat :| Edge(g, b, x) && Reach(g, x, u);
    ReachEdge(g, u, w);
    ReachTrans(g, x, u, w);
  }

  lemma LeftByEdge(g: Graph, u: nat, w: nat)
    requires Edge(g, u, w)
    ensures Left(g, u, w)
  {
    hide Reach;
    ReachRefl(g, w);
  }

  /** The site that executes now uses an address outside the list. */
  lemma FreshAddress(c: Compiled, s: State, addrs: seq<Addr>, args: int)
    requires CompiledOk(c) && Inv(c, s, addrs) && s.mode.Body? && s.mode.site < |c.code[s.mode.block]|
    ensures ExecDefer(c, s, args).deferPtr.value !in addrs
  {
    hide Reach, Chain, Edge;
    var b, i := s.mode.block, s.mode.site;
    assert BlockOk(c.f, c.all, b, c.code[b]);
    assert SiteOk(c.f, c.all, b, i, c.code[b][i]);
    var a := ExecDefer(c, s, args).deferPtr.value;
    forall k | 0 <= k < |addrs| ensures addrs[k] != a {
      assert LiveOk(c, s, addrs[k]);
    }
  }

  lemma DeferKeeps(c: Compiled, s: State, addrs: seq<Addr>, args: int)
    requires CompiledOk(c) && Inv(c, s, addrs) && s.mode.Body? && s.mode.site < |c.code[s.mode.block]|
    ensures var s' := ExecDefer(c, s, args); Inv(c, s', [s'.deferPtr.value] + addrs)
  {
    hide Reach, Edge, InCycle;
    var b, i := s.mode.block, s.mode.site;
    assert BlockOk(c.f, c.all, b, c.code[b]);
    assert SiteOk(c.f, c.all, b, i, c.code[b][i]);
    var s' := ExecDefer(c, s, args);
    var a := s'.deferPtr.value;
    FreshAddress(c, s, addrs, args);
    ChainFrame(c.all, s.mem, s.deferPtr, addrs, Remaining(s), a, s'.mem[a]);
    assert s'.executed[..|s'.executed| - 1] == s.executed;
    assert Remaining(s')[1..] == Remaining(s);
    assert ([a] + addrs)[1..] == addrs;
    forall k | 0 <= k < |[a] + addrs| ensures LiveOk(c, s', ([a] + addrs)[k]) {
      if k > 0 {
        assert LiveOk(c, s, addrs[k - 1]);
      }
    }
  }

  lemma JumpKeeps(c: Compiled, s: State, addrs: seq<Addr>, to: nat)
    requires CompiledOk(c) && Inv(c, s, addrs) && AtBlockEnd(c, s) && Edge(c.f.cfg, s.mode.block, to)
    ensures Inv(c, s.(mode := Body(to, 0)), addrs)
  {
    hide Reach, InCycle, Chain;
    var s' := s.(mode := Body(to, 0));
    forall k | 0 <= k < |addrs| ensures LiveOk(c, s', addrs[k]) {
      assert LiveOk(c, s, addrs[k]);
      if addrs[k].Slot? {
        if addrs[k].block == s.mode.block {
          LeftByEdge(c.f.cfg, s.mode.block, to);
        } else {
          LeftStep(c.f.cfg, addrs[k].block, s.mode.block, to);
        }
      }
    }
  }

  /** Leaving the body keeps the list as it is. */
  lemma ModeKeeps(c: Compiled, s: State, s': State, addrs: seq<Addr>)
    requires Inv(c, s, addrs)
    requires s' == s.(mode := s'.mode, pending := s'.pending)
    requires s'.mode.LandingPad? || (s'.mode.LoopHead? && !s'.pending) || (s'.mode.Finished? && addrs == [])
    ensures Inv(c, s', addrs)
  {
    hide Reach, InCycle, Chain;
    forall k | 0 <= k < |addrs| ensures LiveOk(c, s', addrs[k]) {
      assert LiveOk(c, s, addrs[k]);
    }
  }

  lemma PopKeeps(c: Compiled, s: State, addrs: seq<Addr>, panics: bool)
    requires Inv(c, s, addrs) && s.mode.LoopHead? && s.deferPtr.Some?
    ensures s.deferPtr.value in s.mem && addrs != [] && Inv(c, PopAndCall(c, s, panics), addrs[1..])
  {
    hide Reach, InCycle;
    assert addrs != [];
    var s' := PopAndCall(c, s, panics);
    assert Remaining(s)[0] == Reverse(s.executed)[|s.called|];
    assert Remaining(s') == Remaining(s)[1..];
    forall k | 0 <= k < |addrs[1..]| ensures LiveOk(c, s', addrs[1..][k]) {
      assert LiveOk(c, s, addrs[k + 1]);
    }
  }

  lemma StepKeeps(c: Compiled, s: State, addrs: seq<Addr>, e: Event) returns (addrs': seq<Addr>)
    requires CompiledOk(c) && Inv(c, s, addrs) && Next(c, s, e).Some?
    ensures Inv(c, Next(c, s, e).value, addrs')
  {
    hide Chain, LiveOk, Edge, Remaining, CompiledOk;
    var s' := Next(c, s, e).value;
    addrs' := addrs;
    match e {
      case DeferStmt(args) =>
        DeferKeeps(c, s, addrs, args);
        addrs' := [s'.deferPtr.value] + addrs;
      case Jump(to) => JumpKeeps(c, s, addrs, to);
      case PopCall(panics) =>
        PopKeeps(c, s, addrs, panics);
        addrs' := addrs[1..];
      case LoopEnd =>
        ChainNil(c.all, s.mem, addrs, Remaining(s));
        ModeKeeps(c, s, s', addrs);
      case _ => ModeKeeps(c, s, s', addrs);
    }
  }

  lemma ChainNil(all: seq<Callee>, mem: map<Addr, Record>, addrs: seq<Addr>, calls: seq<Call>)
    requires Chain(all, mem, None, addrs, calls)
    ensures addrs == []
  {
  }

  /** Every state of every run satisfies the invariant. */
  lemma {:induction false} RunKeeps(c: Compiled, events: seq<Event>) returns (addrs: seq<Addr>)
    requires CompiledOk(c) && Run(c, events).Some?
    ensures Inv(c, Run(c, events).value, addrs)
    decreases |events|
  {
    if events == [] {
      addrs := [];
    } else {
      var before := events[..|events| - 1];
      var addrs0 := RunKeeps(c, before);
      addrs := StepKeeps(c, Run(c, before).value, addrs0, events[|events| - 1]);
    }
  }

  // ---------- main results ----------

  /** In every state of every run: the calls made so far are the newest defers, newest
      first; the list linked from deferPtr holds exactly the others, newest first; and the
      default case of the switch is not reached. */
  lemma ListIsLifo(c: Compiled, events: seq<Event>)
    requires CompiledOk(c) && Run(c, events).Some?
    ensures var s := Run(c, events).value;
            && !s.mode.DefaultCase?
            && s.called <= Reverse(s.executed)
            && (s.mode.Body? ==> s.called == [])
            && exists addrs :: Chain(c.all, s.mem, s.deferPtr, addrs, Reverse(s.executed)[|s.called|..])
  {
    hide Chain;
    var addrs := RunKeeps(c, events);
  }

  /** When the run-defers loop ends, every executed defer was called exactly once, last in
      first out, whichever calls panicked. */
  lemma AllCalledOnce(c: Compiled, events: seq<Event>)
    requires CompiledOk(c) && Run(c, events).Some? && Run(c, events).value.mode.Finished?
    ensures Run(c, events).value.called == Reverse(Run(c, events).value.executed)
  {
    var s := Run(c, events).value;
    var addrs := RunKeeps(c, events);
    assert |Remaining(s)| == 0;
  }

  /** The event is a panic, in the body or in a deferred call. */
  predicate IsPanic(e: Event) {
    e.BodyPanic? || (e.PopCall? && e.panics)
  }

  /** In every run a panic, and nothing else, takes control to the landing pad or leaves the
      unwind flag set, by the way that panics unwind; from there on and after every call the
      flag is cleared before the next one. */
  lemma PanicsLand(c: Compiled, events: seq<Event>, e: Event)
    requires CompiledOk(c) && Run(c, events).Some? && Next(c, Run(c, events).value, e).Some?
    ensures var s := Next(c, Run(c, events).value, e).value;
            && (s.pending <==> IsPanic(e) && c.unwind.ReturnUnwind?)
            && (s.mode.LandingPad? <==> e.BodyPanic? || (IsPanic(e) && c.unwind.Setjmp?))
            && (s.mode.Returned? <==> e.PopCall? && !s.mode.LandingPad?)
  {
    hide LiveOk, CompiledOk, Chain, Reach, Edge;
    var addrs := RunKeeps(c, events);
    if e.PopCall? {
      var s := Run(c, events).value;
      PopKeeps(c, s, addrs, e.panics);
    }
  }

  /** Work left once the body is over. */
  function Rank(s: State): nat
    requires |s.called| <= |s.executed|
  {
    3 * (|s.executed| - |s.called|) +
    (match s.mode case LandingPad => 2 case Returned => 2 case LoopHead => 1 case _ => 0)
  }

  /** After the body, a run that is not finished can always go on, and every step brings it
      closer to its end: the loop terminates. */
  lemma LoopProgress(c: Compiled, events: seq<Event>, panics: bool)
    requires CompiledOk(c) && Run(c, events).Some?
    requires !Run(c, events).value.mode.Body? && !Run(c, events).value.mode.Finished?
    ensures exists e :: Next(c, Run(c, events).value, e).Some?
    ensures var s := Run(c, events).value;
            |s.called| <= |s.executed| &&
            forall e :: Next(c, s, e).Some? ==>
              var s' := Next(c, s, e).value;
              |s'.called| <= |s'.executed| && !s'.mode.Body? && Rank(s') < Rank(s)
  {
    hide LiveOk, CompiledOk;
    var s := Run(c, events).value;
    var addrs := RunKeeps(c, events);
    var e := match s.mode
      case LandingPad => Land
      case Returned => ClearUnwind
      case _ => if s.deferPtr.Some? then PopCall(panics) else LoopEnd;
    assert Next(c, s, e).Some?;
    forall e' | Next(c, s, e').Some?
      ensures var s' := Next(c, s, e').value;
              |s'.called| <= |s'.executed| && !s'.mode.Body? && Rank(s') < Rank(s)
    {
      if e'.PopCall? {
        PopKeeps(c, s, addrs, e'.panics);
      }
    }
  }

  // ---------- why a slot needs a block off every cycle ----------

  /** The pointer n links after p. */
  function Follow(mem: map<Addr, Record>, p: Option<Addr>, n: nat): Option<Addr> {
    if n == 0 then p
    else match Follow(mem, p, n - 1)
      case None => None
      case Some(a) => if a in mem then mem[a].next else None
  }

  lemma {:induction false} ChainLink(all: seq<Callee>, mem: map<Addr, Record>, p: Option<Addr>,
                                     addrs: seq<Addr>, calls: seq<Call>, k: nat)
    requires Chain(all, mem, p, addrs, calls) && k < |addrs|
    ensures addrs[k] in mem
    ensures mem[addrs[k]].next == if k + 1 < |addrs| then Some(addrs[k + 1]) else None
    decreases k
  {
    if k > 0 {
      ChainLink(all, mem, mem[addrs[0]].next, addrs[1..], calls[1..], k - 1);
    }
  }

  /** Had a site stored over a record that is still linked, the list would loop forever
      and the run-defers loop would never see nil. */
  lemma OverwriteNeverEnds(all: seq<Callee>, mem: map<Addr, Record>, p: Option<Addr>,
                           addrs: seq<Addr>, calls: seq<Call>, k: nat, r: Record, n: nat)
    requires Chain(all, mem, p, addrs, calls) && k < |addrs| && r.next == p
    requires forall j :: 0 <= j < k ==> addrs[j] != addrs[k]
    ensures Follow(mem[addrs[k] := r], Some(addrs[k]), n).Some?
  {
    var m := FollowInLoop(all, mem, p, addrs, calls, k, r, n);
  }

  lemma {:induction false} FollowInLoop(all: seq<Callee>, mem: map<Addr, Record>, p: Option<Addr>,
                                        addrs: seq<Addr>, calls: seq<Call>, k: nat, r: Record, n: nat)
    returns (m: nat)
    requires Chain(all, mem, p, addrs, calls) && k < |addrs| && r.next == p
    requires forall j :: 0 <= j < k ==> addrs[j] != addrs[k]
    ensures m <= k && Follow(mem[addrs[k] := r], Some(addrs[k]), n) == Some(addrs[m])
    decreases n
  {
    if n == 0 {
      m := k;
    } else {
      var m0 := FollowInLoop(all, mem, p, addrs, calls, k, r, n - 1);
      ChainLink(all, mem, p, addrs, calls, m0);
      m := if m0 == k then 0 else m0 + 1;
    }
  }
}
