/**
 Splitting the value of a small struct into separate arguments and joining them again in
 the callee.
 */
module Flatten {
  import opened Wrappers
  import opened LlvmTypes

  datatype Value = Bits(bits: int) | Elems(elems: seq<Value>) | Fields(fields: seq<Value>)

  function Parts(v: Value): nat {
    match v
    case Bits(_) => 0
    case Elems(es) => |es|
    case Fields(fs) => |fs|
  }

  /** v is a value of type t. */
  predicate HasType(v: Value, t: Type)
    decreases v, Parts(v) + 1
  {
    match t
    case Scalar => v.Bits?
    case Array(n, e) => v.Elems? && |v.elems| == n && ElemsHaveType(v, e, 0)
    case Struct(ts) => v.Fields? && |v.fields| == |ts| && FieldsHaveType(v, t, 0)
  }

  predicate ElemsHaveType(v: Value, e: Type, k: nat)
    requires v.Elems? && k <= |v.elems|
    decreases v, Parts(v) - k
  {
    k == |v.elems| || (HasType(v.elems[k], e) && ElemsHaveType(v, e, k + 1))
  }

  predicate FieldsHaveType(v: Value, t: Type, k: nat)
    requires v.Fields? && t.Struct? && |v.fields| == |t.fields| && k <= |t.fields|
    decreases v, Parts(v) - k
  {
    k == |t.fields| || (HasType(v.fields[k], t.fields[k]) && FieldsHaveType(v, t, k + 1))
  }

  /** The null constant of a type. */
  function Null(t: Type): Value
    decreases t, Width(t) + 1
  {
    match t
    case Scalar => Bits(0)
    case Array(n, e) => Elems(seq(n, i requires 0 <= i < n => Null(e)))
    case Struct(_) => Fields(NullFields(t, 0))
  }

  function NullFields(t: Type, k: nat): (r: seq<Value>)
    requires t.Struct? && k <= |t.fields|
    ensures |r| == |t.fields| - k
    decreases t, Width(t) - k
  {
    if k == |t.fields| then [] else [Null(t.fields[k])] + NullFields(t, k + 1)
  }

  // ---------- splitting ----------

  /** flattenAggregate */
  function FlattenValue(v: Value, t: Type): seq<Value>
    requires HasType(v, t)
    decreases t, Width(t) + 1
  {
    if t.Struct? then FlattenValueFields(v, t, 0) else [v]
  }

  function FlattenValueFields(v: Value, t: Type, k: nat): seq<Value>
    requires v.Fields? && t.Struct? && |v.fields| == |t.fields| && k <= |t.fields| && FieldsHaveType(v, t, k)
    decreases t, Width(t) - k
  {
    if k == |t.fields| then []
    else (if ZeroSize(t.fields[k]) then [] else FlattenValue(v.fields[k], t.fields[k])) + FlattenValueFields(v, t, k + 1)
  }

  /** expandFormalParam; None stands for its internal panic. */
  function ExpandValue(v: Value, t: Type): Option<seq<Value>>
    requires HasType(v, t)
  {
    if t.Struct? then
      var infos := FlattenType(t);
      if |infos| <= MAX_FIELDS then
        var fields := FlattenValue(v, t);
        if |fields| != |infos| then None else Some(fields)
      else Some([v])
    else Some([v])
  }

  /** flattenAggregateTypeOffsets, for a target that lays out field i of a struct at layout(struct, i). */
  function FlattenOffsets(t: Type, layout: (Type, nat) -> nat): seq<nat>
    decreases t, Width(t) + 1
  {
    if t.Struct? then OffsetsFrom(t, 0, layout) else [0]
  }

  function OffsetsFrom(t: Type, k: nat, layout: (Type, nat) -> nat): seq<nat>
    requires t.Struct? && k <= |t.fields|
    decreases t, Width(t) - k
  {
    if k == |t.fields| then []
    else
      (if ZeroSize(t.fields[k]) then [] else Shift(FlattenOffsets(t.fields[k], layout), layout(t, k)))
      + OffsetsFrom(t, k + 1, layout)
  }

  /** expandFormalParamOffsets */
  function ExpandOffsets(t: Type, layout: (Type, nat) -> nat): seq<nat> {
    if t.Struct? && |FlattenOffsets(t, layout)| <= MAX_FIELDS then FlattenOffsets(t, layout) else [0]
  }

  function Shift(xs: seq<nat>, delta: nat): (r: seq<nat>)
    ensures |r| == |xs|
  {
    seq(|xs|, i requires 0 <= i < |xs| => xs[i] + delta)
  }

  // ---------- joining ----------

  /** collapseFormalParamInternal: the value and the fragments left over; None when it runs
      out of fragments. */
  function Collapse(t: Type, fragments: seq<Value>): Option<(Value, seq<Value>)>
    decreases t, Width(t) + 1
  {
    if t.Struct? && |FlattenType(t)| <= MAX_FIELDS then
      match CollapseFields(t, 0, fragments)
      case None => None
      case Some((fields, rest)) => Some((Fields(fields), rest))
    else if fragments == [] then None
    else Some((fragments[0], fragments[1..]))
  }

  /** The fields from k on; a field without size keeps the null value. */
  function CollapseFields(t: Type, k: nat, fragments: seq<Value>): Option<(seq<Value>, seq<Value>)>
    requires t.Struct? && k <= |t.fields|
    decreases t, Width(t) - k
  {
    if k == |t.fields| then Some(([], fragments))
    else if ZeroSize(t.fields[k]) then Prepend(Null(t.fields[k]), CollapseFields(t, k + 1, fragments))
    else match Collapse(t.fields[k], fragments)
      case None => None
      case Some((field, rest)) => Prepend(field, CollapseFields(t, k + 1, rest))
  }

  function Prepend(x: Value, r: Option<(seq<Value>, seq<Value>)>): Option<(seq<Value>, seq<Value>)> {
    match r
    case None => None
    case Some((xs, rest)) => Some(([x] + xs, rest))
  }

  /** collapseFormalParam; None stands for either internal panic. */
  function CollapseParam(t: Type, fragments: seq<Value>): Option<Value> {
    match Collapse(t, fragments)
    case None => None
    case Some((v, rest)) => if rest != [] then None else Some(v)
  }

  // ---------- equal lengths ----------

  lemma {:induction false} FlattenLengths(v: Value, t: Type)
    requires HasType(v, t)
    ensures |FlattenValue(v, t)| == |FlattenType(t)|
    decreases t, Width(t) + 1
  {
    if t.Struct? {
      FlattenFieldLengths(v, t, 0);
    }
  }

  lemma {:induction false} FlattenFieldLengths(v: Value, t: Type, k: nat)
    requires v.Fields? && t.Struct? && |v.fields| == |t.fields| && k <= |t.fields| && FieldsHaveType(v, t, k)
    ensures |FlattenValueFields(v, t, k)| == |FlattenFields(t, k)|
    decreases t, Width(t) - k
  {
    if k < |t.fields| {
      FlattenLengths(v.fields[k], t.fields[k]);
      FlattenFieldLengths(v, t, k + 1);
    }
  }

  lemma {:induction false} OffsetLengths(t: Type, layout: (Type, nat) -> nat)
    ensures |FlattenOffsets(t, layout)| == |FlattenType(t)|
    decreases t, Width(t) + 1
  {
    if t.Struct? {
      OffsetFieldLengths(t, 0, layout);
    }
  }

  lemma {:induction false} OffsetFieldLengths(t: Type, k: nat, layout: (Type, nat) -> nat)
    requires t.Struct? && k <= |t.fields|
    ensures |OffsetsFrom(t, k, layout)| == |FlattenFields(t, k)|
    decreases t, Width(t) - k
  {
    if k < |t.fields| {
      OffsetLengths(t.fields[k], layout);
      OffsetFieldLengths(t, k + 1, layout);
    }
  }

  // ---------- values without size are unique ----------

  lemma {:induction false} ZeroSizeUnique(v: Value, t: Type)
    requires HasType(v, t) && ZeroSize(t)
    ensures v == Null(t)
    decreases t, Width(t) + 1
  {
    match t
    case Scalar =>
    case Array(n, e) =>
      if n > 0 {
        NoProduct(n, Leaves(e));
        forall i | 0 <= i < n ensures v.elems[i] == Null(e) {
          ElemHasType(v, e, 0, i);
          ZeroSizeUnique(v.elems[i], e);
        }
      }
      assert v.elems == Null(t).elems;
    case Struct(_) => ZeroFieldsUnique(v, t, 0);
  }

  lemma NoProduct(n: nat, e: nat)
    requires n > 0 && n * e == 0
    ensures e == 0
  {
  }

  lemma {:induction false} ElemHasType(v: Value, e: Type, k: nat, i: nat)
    requires v.Elems? && k <= i < |v.elems| && ElemsHaveType(v, e, k)
    ensures HasType(v.elems[i], e)
    decreases |v.elems| - k
  {
    if k < i {
      ElemHasType(v, e, k + 1, i);
    }
  }

  lemma {:induction false} ZeroFieldsUnique(v: Value, t: Type, k: nat)
    requires v.Fields? && t.Struct? && |v.fields| == |t.fields| && k <= |t.fields|
    requires FieldsHaveType(v, t, k) && LeavesFrom(t, k) == 0
    ensures v.fields[k..] == NullFields(t, k)
    decreases t, Width(t) - k
  {
    if k < |t.fields| {
      ZeroSizeUnique(v.fields[k], t.fields[k]);
      ZeroFieldsUnique(v, t, k + 1);
      assert v.fields[k..] == [v.fields[k]] + v.fields[k + 1..];
    }
  }

  // ---------- the round trip ----------

  /** A value is split when its struct type flattens to few fields, and whole otherwise. */
  predicate Split(t: Type) {
    t.Struct? ==> |FlattenType(t)| <= MAX_FIELDS
  }

  lemma {:induction false} CollapseFlattened(v: Value, t: Type, rest: seq<Value>)
    requires HasType(v, t) && Split(t)
    ensures Collapse(t, FlattenValue(v, t) + rest) == Some((v, rest))
    decreases t, Width(t) + 1
  {
    if t.Struct? {
      CollapseFlattenedFields(v, t, 0, rest);
      assert v.fields[0..] == v.fields;
    } else {
      assert ([v] + rest)[1..] == rest;
    }
  }

  lemma {:induction false} CollapseFlattenedFields(v: Value, t: Type, k: nat, rest: seq<Value>)
    requires v.Fields? && t.Struct? && |v.fields| == |t.fields| && k <= |t.fields|
    requires FieldsHaveType(v, t, k) && |FlattenFields(t, k)| <= MAX_FIELDS
    ensures CollapseFields(t, k, FlattenValueFields(v, t, k) + rest) == Some((v.fields[k..], rest))
    decreases t, Width(t) - k
  {
    if k == |t.fields| {
      assert [] + rest == rest && v.fields[k..] == [];
    } else {
      var f, x := t.fields[k], v.fields[k];
      var later := FlattenValueFields(v, t, k + 1);
      CollapseFlattenedFields(v, t, k + 1, rest);
      assert v.fields[k..] == [x] + v.fields[k + 1..];
      if ZeroSize(f) {
        ZeroSizeUnique(x, f);
        assert [] + later == later;
      } else {
        CollapseFlattened(x, f, later + rest);
        assert FlattenValue(x, f) + later + rest == FlattenValue(x, f) + (later + rest);
      }
    }
  }

  /** Splitting never panics, yields one fragment per parameter type, and joining the
      fragments returns the value with none left over. */
  lemma CollapseExpand(v: Value, t: Type)
    requires HasType(v, t)
    ensures ExpandValue(v, t).Some?
    ensures |ExpandValue(v, t).value| == |ExpandType(t)|
    ensures CollapseParam(t, ExpandValue(v, t).value) == Some(v)
  {
    hide FlattenValue, FlattenType, HasType;
    FlattenLengths(v, t);
    if Split(t) {
      CollapseWhole(v, t);
    }
  }

  lemma CollapseWhole(v: Value, t: Type)
    requires HasType(v, t) && Split(t)
    ensures CollapseParam(t, FlattenValue(v, t)) == Some(v)
    ensures !t.Struct? ==> FlattenValue(v, t) == [v]
  {
    CollapseFlattened(v, t, []);
    assert FlattenValue(v, t) + [] == FlattenValue(v, t);
  }

  // ---------- the fragments are typed and lie at the offsets ----------

  lemma {:induction false} FlattenTyped(v: Value, t: Type, k: nat)
    requires HasType(v, t) && k < |FlattenValue(v, t)|
    ensures k < |FlattenType(t)| && HasType(FlattenValue(v, t)[k], FlattenType(t)[k])
    decreases t, Width(t) + 1
  {
    if t.Struct? {
      FlattenFieldsTyped(v, t, 0, k);
    }
  }

  lemma {:induction false} FlattenFieldsTyped(v: Value, t: Type, j: nat, k: nat)
    requires v.Fields? && t.Struct? && |v.fields| == |t.fields| && j <= |t.fields| && FieldsHaveType(v, t, j)
    requires k < |FlattenValueFields(v, t, j)|
    ensures k < |FlattenFields(t, j)| && HasType(FlattenValueFields(v, t, j)[k], FlattenFields(t, j)[k])
    decreases t, Width(t) - j
  {
    hide HasType, Leaves;
    if j < |t.fields| {
      FieldTyped(v, t, j);
      FlattenLengths(v.fields[j], t.fields[j]);
      var first := if ZeroSize(t.fields[j]) then [] else FlattenValue(v.fields[j], t.fields[j]);
      if k < |first| {
        FlattenTyped(v.fields[j], t.fields[j], k);
      } else {
        FlattenFieldsTyped(v, t, j + 1, k - |first|);
      }
    }
  }

  lemma FieldTyped(v: Value, t: Type, j: nat)
    requires v.Fields? && t.Struct? && |v.fields| == |t.fields| && j < |t.fields| && FieldsHaveType(v, t, j)
    ensures HasType(v.fields[j], t.fields[j]) && FieldsHaveType(v, t, j + 1)
  {
  }

  /** Every fragment has the parameter type at its place. */
  lemma ExpandTyped(v: Value, t: Type, k: nat)
    requires HasType(v, t) && ExpandValue(v, t).Some? && k < |ExpandValue(v, t).value|
    ensures k < |ExpandType(t)| && HasType(ExpandValue(v, t).value[k], ExpandType(t)[k])
  {
    hide FlattenValue, FlattenType, HasType;
    FlattenLengths(v, t);
    if t.Struct? && |FlattenType(t)| <= MAX_FIELDS {
      FlattenTyped(v, t, k);
    }
  }

  /** An object lies at an address: each field of a struct with size at the target's offset,
      and a load of anything else gives its value. */
  ghost predicate Stored(load: (nat, Type) -> Value, layout: (Type, nat) -> nat, addr: nat, v: Value, t: Type)
    requires HasType(v, t)
    decreases t, Width(t) + 1
  {
    if t.Struct? then StoredFields(load, layout, addr, v, t, 0) else load(addr, t) == v
  }

  ghost predicate StoredFields(load: (nat, Type) -> Value, layout: (Type, nat) -> nat, addr: nat, v: Value, t: Type, k: nat)
    requires v.Fields? && t.Struct? && |v.fields| == |t.fields| && k <= |t.fields| && FieldsHaveType(v, t, k)
    decreases t, Width(t) - k
  {
    || k == |t.fields|
    || ((ZeroSize(t.fields[k]) || Stored(load, layout, addr + layout(t, k), v.fields[k], t.fields[k]))
        && StoredFields(load, layout, addr, v, t, k + 1))
  }

  /** Loading at offset i of an object gives fragment i of its value. */
  lemma {:induction false} OffsetsLoad(load: (nat, Type) -> Value, layout: (Type, nat) -> nat, addr: nat, v: Value, t: Type, i: nat)
    requires HasType(v, t) && Stored(load, layout, addr, v, t) && i < |FlattenValue(v, t)|
    ensures |FlattenOffsets(t, layout)| == |FlattenType(t)| == |FlattenValue(v, t)|
    ensures load(addr + FlattenOffsets(t, layout)[i], FlattenType(t)[i]) == FlattenValue(v, t)[i]
    decreases t, Width(t) + 1
  {
    FlattenLengths(v, t);
    OffsetLengths(t, layout);
    if t.Struct? {
      OffsetsLoadFields(load, layout, addr, v, t, 0, i);
    }
  }

  lemma {:induction false} OffsetsLoadFields(load: (nat, Type) -> Value, layout: (Type, nat) -> nat, addr: nat, v: Value, t: Type, k: nat, i: nat)
    requires v.Fields? && t.Struct? && |v.fields| == |t.fields| && k <= |t.fields| && FieldsHaveType(v, t, k)
    requires StoredFields(load, layout, addr, v, t, k) && i < |FlattenValueFields(v, t, k)|
    ensures |OffsetsFrom(t, k, layout)| == |FlattenFields(t, k)| == |FlattenValueFields(v, t, k)|
    ensures load(addr + OffsetsFrom(t, k, layout)[i], FlattenFields(t, k)[i]) == FlattenValueFields(v, t, k)[i]
    decreases t, Width(t) - k
  {
    hide HasType, Leaves, Stored;
    FlattenFieldLengths(v, t, k);
    OffsetFieldLengths(t, k, layout);
    if k < |t.fields| {
      FieldTyped(v, t, k);
      FlattenLengths(v.fields[k], t.fields[k]);
      OffsetLengths(t.fields[k], layout);
      var first := if ZeroSize(t.fields[k]) then [] else FlattenValue(v.fields[k], t.fields[k]);
      if i < |first| {
        OffsetsLoad(load, layout, addr + layout(t, k), v.fields[k], t.fields[k], i);
      } else {
        OffsetsLoadFields(load, layout, addr, v, t, k + 1, i - |first|);
      }
    }
  }

  /** The debug information of a parameter is right: loading at the offset given for a
      fragment gives the fragment; a value passed whole is at offset 0. */
  lemma ExpandOffsetsLoad(load: (nat, Type) -> Value, layout: (Type, nat) -> nat, addr: nat, v: Value, t: Type, i: nat)
    requires HasType(v, t) && Stored(load, layout, addr, v, t)
    requires ExpandValue(v, t).Some? && i < |ExpandValue(v, t).value|
    ensures |ExpandOffsets(t, layout)| == |ExpandType(t)| == |ExpandValue(v, t).value|
    ensures Split(t) ==> load(addr + ExpandOffsets(t, layout)[i], ExpandType(t)[i]) == ExpandValue(v, t).value[i]
    ensures !Split(t) ==> ExpandOffsets(t, layout) == [0] && ExpandValue(v, t).value == [v]
  {
    hide HasType, Stored, FlattenFields, FlattenValueFields, OffsetsFrom;
    FlattenLengths(v, t);
    OffsetLengths(t, layout);
    if Split(t) {
      OffsetsLoad(load, layout, addr, v, t, i);
    }
  }
}
