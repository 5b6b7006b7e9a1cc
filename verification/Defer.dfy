/**
 Defer records.  Compiling a function numbers its deferred callees and decides, per defer
 site, between one stack slot and a fresh heap record.  Running it links records from
 deferPtr and later calls them, newest first, also when the body or a callee panics.
 */
module Defer {
  import opened Graph
  import opened TarjanSpec
  import Tarjan
  import opened Wrappers

  /** What a defer statement calls; each kind has its own table of callback numbers. */
  datatype Callee =
    | Invoke(method_: string)
    | Direct(fn: nat)
    | Closure(literal: nat)
    | Builtin(builtin: nat)
    | FuncValue(value: nat)

  /** A function with defers: the callees deferred in each block, in order. */
  datatype Function = Function(cfg: Graph, defers: seq<seq<Callee>>)

  ghost predicate FunctionOk(f: Function) {
    WellFormed(f.cfg) && |f.defers| == |f.cfg| > 0
  }

  /** What createDefer bakes into the code of one site. */
  datatype Site = Site(callback: nat, onHeap: bool)

  // ---------- compiling ----------

  class CallbackTable {
    var invokeFuncs: map<string, nat>
    var funcs: map<nat, nat>
    var closureFuncs: map<nat, nat>
    var builtinFuncs: map<nat, nat>
    var exprFuncs: map<nat, nat>
    var all: seq<Callee>

    /** The number of a callee in the table of its kind. */
    function Lookup(c: Callee): Option<nat>
      reads this
    {
      match c
      case Invoke(k) => Find(invokeFuncs, k)
      case Direct(k) => Find(funcs, k)
      case Closure(k) => Find(closureFuncs, k)
      case Builtin(k) => Find(builtinFuncs, k)
      case FuncValue(k) => Find(exprFuncs, k)
    }

    ghost predicate Valid()
      reads this
    {
      && (forall c :: Lookup(c).Some? ==> Lookup(c).value < |all| && all[Lookup(c).value] == c)
      && (forall i :: 0 <= i < |all| ==> Lookup(all[i]) == Some(i))
    }

    constructor ()
      ensures Valid() && all == []
    {
      invokeFuncs, funcs, closureFuncs, builtinFuncs, exprFuncs := map[], map[], map[], map[], map[];
      all := [];
    }

    /** The callback number of c, assigning the next one on first use. */
    method Register(c: Callee) returns (callback: nat)
      requires Valid()
      modifies this
      ensures Valid() && old(all) <= all
      ensures callback < |all| && all[callback] == c
      ensures c in old(all) ==> all == old(all)
    {
      var next := |all|;
      if Lookup(c).Some? {
        return Lookup(c).value;
      }
      match c {
        case Invoke(k) => invokeFuncs := invokeFuncs[k := next];
        case Direct(k) => funcs := funcs[k := next];
        case Closure(k) => closureFuncs := closureFuncs[k := next];
        case Builtin(k) => builtinFuncs := builtinFuncs[k := next];
        case FuncValue(k) => exprFuncs := exprFuncs[k := next];
      }
      all := all + [c];
      callback := next;
      assert forall d :: d != c ==> Lookup(d) == old(Lookup(d));
    }
  }

  /** The code of site i of block b is right: its number names its callee, and it has a
      heap record exactly when the block is on a cycle. */
  ghost predicate SiteOk(f: Function, all: seq<Callee>, b: nat, i: nat, code: Site)
    requires b < |f.cfg| == |f.defers| && i < |f.defers[b]|
  {
    && code.callback < |all| && all[code.callback] == f.defers[b][i]
    && (code.onHeap <==> InCycle(f.cfg, b))
  }

  ghost predicate BlockOk(f: Function, all: seq<Callee>, b: nat, sites: seq<Site>) {
    && b < |f.cfg| == |f.defers|
    && |sites| == |f.defers[b]|
    && (forall i :: 0 <= i < |sites| ==> SiteOk(f, all, b, i, sites[i]))
  }

  ghost predicate CodeOk(f: Function, all: seq<Callee>, code: seq<seq<Site>>) {
    && |code| == |f.defers| == |f.cfg|
    && (forall b: nat :: b < |code| ==> BlockOk(f, all, b, code[b]))
  }

  /** Compile the defers of one block. */
  method CompileBlock(f: Function, b: nat, table: CallbackTable, finder: Tarjan.LoopFinder) returns (sites: seq<Site>)
    requires FunctionOk(f) && b < |f.cfg|
    requires table.Valid() && finder.Valid() && finder.succs == f.cfg
    modifies table, finder, finder.nodes
    ensures table.Valid() && finder.Valid() && old(table.all) <= table.all
    ensures BlockOk(f, table.all, b, sites)
  {
    hide InCycle, Idle;
    sites := [];
    for i := 0 to |f.defers[b]|
      invariant table.Valid() && finder.Valid() && old(table.all) <= table.all
      invariant |sites| == i
      invariant forall j :: 0 <= j < i ==> SiteOk(f, table.all, b, j, sites[j])
    {
      ghost var before := table.all;
      var callback := table.Register(f.defers[b][i]);
      var onHeap := finder.IsInLoop(b);
      sites := sites + [Site(callback, onHeap)];
    }
  }

  /** Compile all blocks in the given order; the callback switch is emitted afterwards,
      from the complete table. */
  method CompileDefers(f: Function, order: seq<nat>) returns (code: seq<seq<Site>>, all: seq<Callee>)
    requires FunctionOk(f)
    requires forall n :: 0 <= n < |order| ==> order[n] < |f.cfg|
    requires forall b: nat :: b < |f.cfg| ==> b in order
    ensures CodeOk(f, all, code)
  {
    hide InCycle, Idle, SiteOk;
    var table := new CallbackTable();
    var finder := new Tarjan.LoopFinder(f.cfg);
    code := seq(|f.cfg|, _ => []);
    for n := 0 to |order|
      invariant table.Valid() && finder.Valid() && fresh(table) && fresh(finder) && fresh(finder.nodes)
      invariant |code| == |f.cfg|
      invariant forall m :: 0 <= m < n ==> BlockOk(f, table.all, order[m], code[order[m]])
    {
      hide InCycle, Idle;
      ghost var before := table.all;
      var b := order[n];
      assert b in order;
      var sites := CompileBlock(f, b, table, finder);
      forall m | 0 <= m < n ensures BlockOk(f, table.all, order[m], code[order[m]]) {
        BlockOkGrows(f, before, table.all, order[m], code[order[m]]);
      }
      code := code[b := sites];
    }
    all := table.all;
    forall b: nat | b < |code| ensures BlockOk(f, all, b, code[b]) {
      assert b in order;
    }
  }

  lemma BlockOkGrows(f: Function, all: seq<Callee>, all': seq<Callee>, b: nat, sites: seq<Site>)
    requires BlockOk(f, all, b, sites) && all <= all'
    ensures BlockOk(f, all', b, sites)
  {
    hide InCycle, Idle;
    forall i | 0 <= i < |sites| ensures SiteOk(f, all', b, i, sites[i]) {
      assert SiteOk(f, all, b, i, sites[i]);
    }
  }
}
