/**
 A call by the plan of the function ABI: where the function type puts each parameter, how
 the caller lays out its arguments and how the callee reads them back.
 */
module AbiCall {
  import opened Wrappers
  import opened LlvmTypes
  import opened AbiBudget
  import opened Abi
  import opened AbiCheck
  import opened Flatten

  // ---------- the positions of the parameters ----------

  /** The number of LLVM parameters one parameter takes. */
  function Size(p: Param): nat {
    if p.indirect then 1 else |ExpandType(p.typ)|
  }

  /** The first LLVM parameter of parameter i: after the result pointer, if there is one, and
      all earlier parameters. */
  function Position(abi: Abi, i: nat): nat
    requires i <= |abi.params|
  {
    if i == 0 then if abi.indirectResult then 1 else 0
    else Position(abi, i - 1) + Size(abi.params[i - 1])
  }

  lemma {:induction false} PositionsOrdered(abi: Abi, i: nat, n: nat)
    requires i <= n <= |abi.params|
    ensures Position(abi, i) <= Position(abi, n)
    ensures i < n ==> Position(abi, i) + Size(abi.params[i]) <= Position(abi, n)
  {
    hide Size;
    if i < n {
      PositionsOrdered(abi, i, n - 1);
    }
  }

  lemma {:induction false} ParamTypesLength(abi: Abi, n: nat)
    requires n <= |abi.params|
    ensures |ParamTypes(abi.params, n)| == Position(abi, n) - Position(abi, 0)
  {
    if n > 0 {
      ParamTypesLength(abi, n - 1);
    }
  }

  lemma {:induction false} ParamTypeAt(abi: Abi, n: nat, i: nat, k: nat)
    requires i < n <= |abi.params| && k < Size(abi.params[i])
    ensures Position(abi, i) - Position(abi, 0) + k < |ParamTypes(abi.params, n)|
    ensures Position(abi, i) >= Position(abi, 0)
    ensures var p := abi.params[i];
            ParamTypes(abi.params, n)[Position(abi, i) - Position(abi, 0) + k] == if p.indirect then Scalar else ExpandType(p.typ)[k]
  {
    ParamTypesLength(abi, n);
    ParamTypesLength(abi, n - 1);
    PositionsOrdered(abi, 0, i);
    if i < n - 1 {
      ParamTypeAt(abi, n - 1, i, k);
    }
  }

  /** The function type has the parameters of the plan in order, one pointer for an indirect
      one and the types of its fragments for any other, between an optional result pointer
      and the context. */
  lemma TypeAtPosition(abi: Abi, i: nat, k: nat)
    requires i < |abi.params| && k < Size(abi.params[i])
    ensures var f := FunctionType(abi);
            var p := abi.params[i];
            && Position(abi, i) + k < Position(abi, |abi.params|) == |f.params| - 1
            && f.params[Position(abi, i) + k] == if p.indirect then Scalar else ExpandType(p.typ)[k]
  {
    hide ParamTypes, Size;
    ParamTypesLength(abi, |abi.params|);
    PositionsOrdered(abi, 0, |abi.params|);
    ParamTypeAt(abi, |abi.params|, i, k);
  }

  lemma FunctionTypeEnds(abi: Abi)
    ensures |FunctionType(abi).params| == Position(abi, |abi.params|) + 1
    ensures FunctionType(abi).params[Position(abi, |abi.params|)] == Scalar
    ensures abi.indirectResult ==> FunctionType(abi).params[0] == Scalar && Position(abi, 0) == 1
    ensures abi.indirectResult ==> FunctionType(abi).ret == Scalar
    ensures !abi.indirectResult ==> FunctionType(abi).ret == abi.resultType && Position(abi, 0) == 0
  {
    hide ParamTypes, Size;
    PositionsOrdered(abi, 0, |abi.params|);
    ParamTypesLength(abi, |abi.params|);
  }

  // ---------- the caller ----------

  /** The arguments are values of the parameter types. */
  ghost predicate ArgumentsFor(abi: Abi, args: seq<Value>) {
    |args| == |abi.params| && forall i :: 0 <= i < |args| ==> HasType(args[i], abi.params[i].typ)
  }

  /** What parameter i of a call is, read at its positions: a pointer to the value, or its
      fragments. */
  function ReadParam(abi: Abi, load: int -> Value, passed: seq<Value>, i: nat): Option<Value>
    requires i < |abi.params| && Position(abi, i) + Size(abi.params[i]) <= |passed|
  {
    var (p, at) := (abi.params[i], Position(abi, i));
    if p.indirect then if passed[at].Bits? then Some(load(passed[at].bits)) else None
    else CollapseParam(p.typ, passed[at..at + Size(p)])
  }

  /** The LLVM arguments have the parameter types of the function. */
  ghost predicate TypesMatch(passed: seq<Value>, types: seq<Type>) {
    |passed| == |types| && forall k :: 0 <= k < |passed| ==> HasType(passed[k], types[k])
  }

  /** The parameter types of values that are passed one after the other. */
  function ExpandTypes(types: seq<Type>, n: nat): seq<Type>
    requires n <= |types|
  {
    if n == 0 then [] else ExpandTypes(types, n - 1) + ExpandType(types[n - 1])
  }

  ghost predicate AllTyped(values: seq<Value>, types: seq<Type>) {
    |values| == |types| && forall i :: 0 <= i < |values| ==> HasType(values[i], types[i])
  }

  /** The fragments of value i lie at its place. */
  ghost predicate FragmentsAt(values: seq<Value>, types: seq<Type>, expanded: seq<Value>, i: nat)
    requires i < |values| && AllTyped(values, types)
  {
    var from, to := |ExpandTypes(types, i)|, |ExpandTypes(types, i + 1)|;
    from <= to <= |expanded| && Some(expanded[from..to]) == ExpandValue(values[i], types[i])
  }

  lemma FragmentsGrow(values: seq<Value>, types: seq<Type>, expanded: seq<Value>, more: seq<Value>, i: nat)
    requires i < |values| && AllTyped(values, types) && FragmentsAt(values, types, expanded, i)
    ensures FragmentsAt(values, types, expanded + more, i)
  {
    hide ExpandTypes, ExpandValue, HasType;
    var from, to := |ExpandTypes(types, i)|, |ExpandTypes(types, i + 1)|;
    assert (expanded + more)[from..to] == expanded[from..to];
  }

  lemma FragmentsAdded(values: seq<Value>, types: seq<Type>, expanded: seq<Value>, fragments: seq<Value>, i: nat)
    requires i < |values| && AllTyped(values, types) && TypesMatch(expanded, ExpandTypes(types, i))
    requires Some(fragments) == ExpandValue(values[i], types[i])
    ensures TypesMatch(expanded + fragments, ExpandTypes(types, i + 1))
    ensures FragmentsAt(values, types, expanded + fragments, i)
  {
    hide ExpandValue, ExpandType, HasType;
    CollapseExpand(values[i], types[i]);
    forall k | 0 <= k < |fragments| ensures HasType(fragments[k], ExpandType(types[i])[k]) {
      ExpandTyped(values[i], types[i], k);
    }
    assert |ExpandTypes(types, i + 1)| == |expanded + fragments|;
    assert (expanded + fragments)[|expanded|..|expanded + fragments|] == fragments;
  }

  /** expandFormalParams */
  method ExpandFormalParams(values: seq<Value>, types: seq<Type>) returns (expanded: seq<Value>)
    requires AllTyped(values, types)
    ensures TypesMatch(expanded, ExpandTypes(types, |types|))
    ensures forall i :: 0 <= i < |values| ==> FragmentsAt(values, types, expanded, i)
  {
    hide ExpandTypes, ExpandValue, HasType, FragmentsAt;
    expanded := [];
    assert TypesMatch([], ExpandTypes(types, 0)) by { NoTypes(types); }
    for n := 0 to |values|
      invariant TypesMatch(expanded, ExpandTypes(types, n))
      invariant forall i :: 0 <= i < n ==> FragmentsAt(values, types, expanded, i)
    {
      CollapseExpand(values[n], types[n]);
      var fragments := ExpandValue(values[n], types[n]).value;
      FragmentsAdded(values, types, expanded, fragments, n);
      forall i | 0 <= i < n ensures FragmentsAt(values, types, expanded + fragments, i) {
        FragmentsGrow(values, types, expanded, fragments, i);
      }
      expanded := expanded + fragments;
    }
  }

  lemma NoTypes(types: seq<Type>)
    ensures ExpandTypes(types, 0) == []
  {
  }

  /** The type of an argument: a pointer for an indirect parameter. */
  function ArgType(p: Param): Type {
    if p.indirect then Scalar else p.typ
  }

  /** The types of all LLVM values of a call before they are split. */
  function ArgTypes(abi: Abi): seq<Type> {
    (if abi.indirectResult then [Scalar] else [])
    + seq(|abi.params|, i requires 0 <= i < |abi.params| => ArgType(abi.params[i]))
    + [Scalar]
  }

  function First(abi: Abi): nat {
    if abi.indirectResult then 1 else 0
  }

  lemma {:induction false} ArgTypesExpand(abi: Abi, n: nat)
    requires n <= |abi.params|
    ensures First(abi) + n < |ArgTypes(abi)|
    ensures ExpandTypes(ArgTypes(abi), First(abi) + n) == (if abi.indirectResult then [Scalar] else []) + ParamTypes(abi.params, n)
    ensures |ExpandTypes(ArgTypes(abi), First(abi) + n)| == Position(abi, n)
  {
    hide ExpandType, ParamTypes, ExpandTypes, Position, ArgTypes;
    assert |ArgTypes(abi)| == First(abi) + |abi.params| + 1 by { ArgTypesLength(abi); }
    ParamTypesLength(abi, n);
    if n == 0 {
      ArgTypesStart(abi);
    } else {
      ArgTypesExpand(abi, n - 1);
      ArgTypesStep(abi, n);
    }
  }

  lemma ArgTypesLength(abi: Abi)
    ensures |ArgTypes(abi)| == First(abi) + |abi.params| + 1
  {
  }

  lemma ArgTypesStart(abi: Abi)
    ensures First(abi) <= |ArgTypes(abi)|
    ensures ExpandTypes(ArgTypes(abi), First(abi)) == if abi.indirectResult then [Scalar] else []
    ensures ParamTypes(abi.params, 0) == [] && Position(abi, 0) == First(abi)
  {
    var types := ArgTypes(abi);
    assert ExpandTypes(types, 0) == [];
    assert ExpandType(Scalar) == [Scalar];
    assert abi.indirectResult ==> types[0] == Scalar && ExpandTypes(types, 1) == ExpandTypes(types, 0) + [Scalar];
  }

  lemma ArgTypesStep(abi: Abi, n: nat)
    requires 0 < n <= |abi.params| && First(abi) + n <= |ArgTypes(abi)|
    ensures var fragments := if abi.params[n - 1].indirect then [Scalar] else ExpandType(abi.params[n - 1].typ);
            && ExpandTypes(ArgTypes(abi), First(abi) + n) == ExpandTypes(ArgTypes(abi), First(abi) + n - 1) + fragments
            && ParamTypes(abi.params, n) == ParamTypes(abi.params, n - 1) + fragments
            && Position(abi, n) == Position(abi, n - 1) + |fragments|
  {
    var types := ArgTypes(abi);
    assert types[First(abi) + n - 1] == ArgType(abi.params[n - 1]);
    assert ExpandType(Scalar) == [Scalar];
  }

  /** Splitting the arguments gives values of the parameter types of the function type. */
  lemma ArgTypesMatch(abi: Abi)
    ensures ExpandTypes(ArgTypes(abi), |ArgTypes(abi)|) == FunctionType(abi).params
  {
    hide ParamTypes, ExpandTypes;
    ArgTypesExpand(abi, |abi.params|);
    LastExpanded(ArgTypes(abi));
  }

  lemma LastExpanded(types: seq<Type>)
    requires |types| > 0 && types[|types| - 1] == Scalar
    ensures ExpandTypes(types, |types|) == ExpandTypes(types, |types| - 1) + [Scalar]
  {
  }

  /** getCallArguments: an indirect argument is passed by its address. */
  method GetCallArguments(abi: Abi, args: seq<Value>, addressOf: nat -> int) returns (params: seq<Value>)
    requires |args| == |abi.params|
    ensures |params| == |args|
    ensures forall i :: 0 <= i < |args| ==> params[i] == if abi.params[i].indirect then Bits(addressOf(i)) else args[i]
  {
    params := [];
    for i := 0 to |args|
      invariant |params| == i
      invariant forall k :: 0 <= k < i ==> params[k] == if abi.params[k].indirect then Bits(addressOf(k)) else args[k]
    {
      params := params + [if abi.params[i].indirect then Bits(addressOf(i)) else args[i]];
    }
  }

  /** What a callee must find: the arguments at their positions, the result pointer first and
      the context last, all of the types of the function. */
  ghost predicate Delivers(abi: Abi, load: int -> Value, args: seq<Value>, result: int, context: int, passed: seq<Value>)
    requires |args| == |abi.params|
  {
    && TypesMatch(passed, FunctionType(abi).params)
    && |passed| == Position(abi, |abi.params|) + 1
    && (forall i :: 0 <= i < |args| ==> ReadAt(abi, load, args, passed, i))
    && (abi.indirectResult ==> passed[0] == Bits(result))
    && passed[|passed| - 1] == Bits(context)
  }

  ghost predicate ReadAt(abi: Abi, load: int -> Value, args: seq<Value>, passed: seq<Value>, i: nat)
    requires i < |abi.params| == |args|
  {
    && Position(abi, i) + Size(abi.params[i]) <= |passed|
    && ReadParam(abi, load, passed, i) == Some(args[i])
  }

  /** The LLVM values of a call before they are split. */
  ghost predicate CallValues(abi: Abi, args: seq<Value>, addressOf: nat -> int, result: int, context: int, values: seq<Value>) {
    && |args| == |abi.params| && |values| == First(abi) + |args| + 1
    && (forall i :: 0 <= i < |args| ==>
          values[First(abi) + i] == if abi.params[i].indirect then Bits(addressOf(i)) else args[i])
    && (abi.indirectResult ==> values[0] == Bits(result))
    && values[|values| - 1] == Bits(context)
  }

  lemma CallValuesTyped(abi: Abi, args: seq<Value>, addressOf: nat -> int, result: int, context: int, values: seq<Value>)
    requires ArgumentsFor(abi, args) && CallValues(abi, args, addressOf, result, context, values)
    ensures AllTyped(values, ArgTypes(abi))
  {
    var types := ArgTypes(abi);
    forall k | 0 <= k < |values| ensures HasType(values[k], types[k]) {
      if First(abi) <= k < |values| - 1 {
        var i := k - First(abi);
        assert values[First(abi) + i] == values[k] && types[k] == ArgType(abi.params[i]);
        assert HasType(args[i], abi.params[i].typ);
      }
    }
  }

  lemma ScalarFragment(x: int)
    ensures ExpandValue(Bits(x), Scalar) == Some([Bits(x)])
  {
  }

  /** An argument whose fragments are at its place is read back. */
  lemma FragmentsRead(abi: Abi, load: int -> Value, args: seq<Value>, addressOf: nat -> int, values: seq<Value>, passed: seq<Value>, i: nat)
    requires ArgumentsFor(abi, args) && i < |args| && AllTyped(values, ArgTypes(abi))
    requires values[First(abi) + i] == if abi.params[i].indirect then Bits(addressOf(i)) else args[i]
    requires abi.params[i].indirect ==> load(addressOf(i)) == args[i]
    requires FragmentsAt(values, ArgTypes(abi), passed, First(abi) + i)
    ensures ReadAt(abi, load, args, passed, i)
  {
    hide ExpandValue, ExpandTypes, CollapseParam, HasType, ExpandType;
    var types := ArgTypes(abi);
    var p, at := abi.params[i], Position(abi, i);
    ArgTypesExpand(abi, i);
    ArgTypesExpand(abi, i + 1);
    assert types[First(abi) + i] == ArgType(p);
    if p.indirect {
      ScalarFragment(addressOf(i));
      assert passed[at..at + 1] == [Bits(addressOf(i))];
      assert passed[at] == passed[at..at + 1][0];
    } else {
      CollapseExpand(args[i], p.typ);
    }
  }

  lemma LastFragment(abi: Abi, values: seq<Value>, passed: seq<Value>, x: int)
    requires |values| == |ArgTypes(abi)| && AllTyped(values, ArgTypes(abi)) && values[|values| - 1] == Bits(x)
    requires FragmentsAt(values, ArgTypes(abi), passed, |values| - 1)
    requires |passed| == |ExpandTypes(ArgTypes(abi), |ArgTypes(abi)|)|
    ensures |passed| == Position(abi, |abi.params|) + 1 && passed[|passed| - 1] == Bits(x)
  {
    hide ExpandValue, ExpandTypes, HasType;
    ArgTypesExpand(abi, |abi.params|);
    LastExpanded(ArgTypes(abi));
    ScalarFragment(x);
    assert passed[|passed| - 1..] == passed[|passed| - 1..|passed|] == [Bits(x)];
  }

  lemma FirstFragment(abi: Abi, values: seq<Value>, passed: seq<Value>, x: int)
    requires abi.indirectResult && AllTyped(values, ArgTypes(abi)) && values[0] == Bits(x)
    requires FragmentsAt(values, ArgTypes(abi), passed, 0)
    ensures |passed| > 0 && passed[0] == Bits(x)
  {
    hide ExpandValue, HasType, ExpandTypes;
    ArgTypesExpand(abi, 0);
    NoTypes(ArgTypes(abi));
    ScalarFragment(x);
    assert passed[0] == passed[0..1][0];
  }

  lemma ValuesDelivered(abi: Abi, load: int -> Value, args: seq<Value>, addressOf: nat -> int, result: int, context: int,
                        values: seq<Value>, passed: seq<Value>)
    requires ArgumentsFor(abi, args) && CallValues(abi, args, addressOf, result, context, values)
    requires forall i :: 0 <= i < |args| && abi.params[i].indirect ==> load(addressOf(i)) == args[i]
    requires AllTyped(values, ArgTypes(abi)) && TypesMatch(passed, ExpandTypes(ArgTypes(abi), |ArgTypes(abi)|))
    requires forall i :: 0 <= i < |values| ==> FragmentsAt(values, ArgTypes(abi), passed, i)
    ensures Delivers(abi, load, args, result, context, passed)
  {
    hide FragmentsAt, ExpandTypes, HasType, ReadAt, FunctionType, Position, AllTyped, ArgTypes;
    ArgTypesMatch(abi);
    assert |values| == |ArgTypes(abi)| by { TypedLength(values, ArgTypes(abi)); }
    LastFragment(abi, values, passed, context);
    if abi.indirectResult {
      FirstFragment(abi, values, passed, result);
    }
    forall i | 0 <= i < |args| ensures ReadAt(abi, load, args, passed, i) {
      FragmentsRead(abi, load, args, addressOf, values, passed, i);
    }
  }

  lemma TypedLength(values: seq<Value>, types: seq<Type>)
    requires AllTyped(values, types)
    ensures |values| == |types|
  {
  }

  /** A call: result storage first, context last, everything split. */
  method PassArguments(abi: Abi, args: seq<Value>, addressOf: nat -> int, result: int, context: int, ghost load: int -> Value)
    returns (passed: seq<Value>)
    requires ArgumentsFor(abi, args)
    requires forall i :: 0 <= i < |args| && abi.params[i].indirect ==> load(addressOf(i)) == args[i]
    ensures Delivers(abi, load, args, result, context, passed)
  {
    hide FragmentsAt, ExpandTypes, HasType, Delivers, FunctionType, AllTyped, ArgTypes;
    var values := GetCallArguments(abi, args, addressOf);
    if abi.indirectResult {
      values := [Bits(result)] + values;
    }
    values := values + [Bits(context)];
    CallValuesTyped(abi, args, addressOf, result, context, values);
    passed := ExpandFormalParams(values, ArgTypes(abi));
    ValuesDelivered(abi, load, args, addressOf, result, context, values, passed);
  }

  // ---------- the callee ----------

  /** What a function reads on entry. */
  datatype Entry = Entry(result: Option<Value>, params: seq<Value>, context: Value)

  /** createFunctionStart: walk the LLVM parameters; None stands for a panic of the compiler. */
  method LoadParameters(abi: Abi, load: int -> Value, passed: seq<Value>) returns (r: Option<Entry>)
    requires TypesMatch(passed, FunctionType(abi).params)
    ensures |passed| == Position(abi, |abi.params|) + 1
    ensures forall i :: 0 <= i < |abi.params| ==> Position(abi, i) + Size(abi.params[i]) < |passed|
    ensures r.Some? <==> forall i :: 0 <= i < |abi.params| ==> ReadParam(abi, load, passed, i).Some?
    ensures r.Some? ==> |r.value.params| == |abi.params|
    ensures r.Some? ==> forall i :: 0 <= i < |abi.params| ==> ReadParam(abi, load, passed, i) == Some(r.value.params[i])
    ensures r.Some? ==> r.value.context == passed[|passed| - 1]
    ensures r.Some? ==> r.value.result == if abi.indirectResult then Some(passed[0]) else None
  {
    hide FunctionType, ExpandType, HasType, CollapseParam, Position, ReadParam, TypesMatch;
    FunctionTypeEnds(abi);
    assert |passed| == |FunctionType(abi).params| by { MatchLength(passed, FunctionType(abi).params); }
    forall i | 0 <= i < |abi.params| ensures Position(abi, i) + Size(abi.params[i]) < |passed| {
      PositionsOrdered(abi, i, |abi.params|);
    }
    var index := 0;
    var result := None;
    if abi.indirectResult {
      result := Some(passed[0]);
      index := 1;
    }
    var locals := [];
    for i := 0 to |abi.params|
      invariant index == Position(abi, i) && |locals| == i
      invariant forall k :: 0 <= k < i ==> ReadParam(abi, load, passed, k) == Some(locals[k])
    {
      var p := abi.params[i];
      assert Position(abi, i) + Size(p) < |passed|;
      NextPosition(abi, load, passed, i);
      if p.indirect {
        PointerAt(abi, passed, i);
        locals := locals + [load(passed[index].bits)];
        index := index + 1;
        continue;
      }
      var infos := ExpandType(p.typ);
      var fields := passed[index..index + |infos|];
      index := index + |infos|;
      var value := CollapseParam(p.typ, fields);
      if value.None? {
        return None;
      }
      locals := locals + [value.value];
    }
    r := Some(Entry(result, locals, passed[|passed| - 1]));
  }

  lemma MatchLength(passed: seq<Value>, types: seq<Type>)
    requires TypesMatch(passed, types)
    ensures |passed| == |types|
  {
  }

  lemma NextPosition(abi: Abi, load: int -> Value, passed: seq<Value>, i: nat)
    requires i < |abi.params| && Position(abi, i) + Size(abi.params[i]) < |passed|
    ensures var (p, at) := (abi.params[i], Position(abi, i));
            && Position(abi, i + 1) == at + Size(p)
            && (p.indirect && passed[at].Bits? ==> ReadParam(abi, load, passed, i) == Some(load(passed[at].bits)))
            && (!p.indirect ==> ReadParam(abi, load, passed, i) == CollapseParam(p.typ, passed[at..at + |ExpandType(p.typ)|]))
  {
    hide CollapseParam, ExpandType;
  }

  lemma PointerAt(abi: Abi, passed: seq<Value>, i: nat)
    requires i < |abi.params| && abi.params[i].indirect && TypesMatch(passed, FunctionType(abi).params)
    ensures Position(abi, i) < |passed| && passed[Position(abi, i)].Bits?
  {
    hide FunctionType, Position;
    TypeAtPosition(abi, i, 0);
  }

  /** The callee reads what the caller passed: every argument, whether split, whole or by
      address, the place for the result, and the context. */
  method Call(abi: Abi, args: seq<Value>, addressOf: nat -> int, result: int, context: int, load: int -> Value)
    returns (r: Option<Entry>)
    requires ArgumentsFor(abi, args)
    requires forall i :: 0 <= i < |args| && abi.params[i].indirect ==> load(addressOf(i)) == args[i]
    ensures r == Some(Entry(if abi.indirectResult then Some(Bits(result)) else None, args, Bits(context)))
  {
    hide FunctionType, HasType, Position, ReadParam;
    var passed := PassArguments(abi, args, addressOf, result, context, load);
    r := LoadParameters(abi, load, passed);
    forall i | 0 <= i < |args| ensures ReadParam(abi, load, passed, i) == Some(args[i]) {
      assert ReadAt(abi, load, args, passed, i);
    }
    assert r.value.params == args;
  }
}
