/**
 LLVM types as the calling convention sees them, the bounded leaf counter, and the
 splitting of small structs into separate parameters.
 */
module LlvmTypes {

  /** Scalars include pointers; void only occurs as a result and counts like a scalar. */
  datatype Type = Scalar | Array(len: nat, elem: Type) | Struct(fields: seq<Type>)

  predicate IsAggregate(t: Type) { !t.Scalar? }

  function Width(t: Type): nat {
    if t.Struct? then |t.fields| else 0
  }

  /** The number of scalar values in a type. */
  function Leaves(t: Type): nat
    decreases t, Width(t) + 1
  {
    match t
    case Scalar => 1
    case Array(n, e) => n * Leaves(e)
    case Struct(_) => LeavesFrom(t, 0)
  }

  function LeavesFrom(t: Type, k: nat): nat
    requires t.Struct? && k <= |t.fields|
    decreases t, Width(t) - k
  {
    if k == |t.fields| then 0 else Leaves(t.fields[k]) + LeavesFrom(t, k + 1)
  }

  // ---------- the bounded counter, in 64-bit arithmetic ----------

  const TWO64: nat := 0x1_0000_0000_0000_0000

  function Add64(x: nat, y: nat): nat { (x + y) % TWO64 }

  function Sub64(x: nat, y: nat): nat { (x + TWO64 - y % TWO64) % TWO64 }

  function Mul64(x: nat, y: nat): nat { (x * y) % TWO64 }

  /** aggregateValueCountLimit: the new count, and whether the limit was exceeded. */
  function CountLimit(t: Type, count: nat, limit: nat): (nat, bool)
    decreases t, Width(t) + 1
  {
    match t
    case Array(n, e) => CountArray(n % TWO64, CountLimit(e, 0, limit), count, limit)
    case Struct(_) => CountFields(t, 0, count, limit)
    case Scalar => (Add64(count, 1), Add64(count, 1) > limit)
  }

  /** The count for an array, given the count of one element. */
  function CountArray(length: nat, element: (nat, bool), count: nat, limit: nat): (nat, bool) {
    if length == 0 then (count, false)
    else
      var (elementCount, exceeded) := element;
      if exceeded then (count, true)
      else if elementCount != 0 && length > Sub64(limit, count) / elementCount then (count, true)
      else (Add64(count, Mul64(length, elementCount)), false)
  }

  function CountFields(t: Type, k: nat, count: nat, limit: nat): (nat, bool)
    requires t.Struct? && k <= |t.fields|
    decreases t, Width(t) - k
  {
    if k == |t.fields| then (count, false)
    else
      var (c, exceeded) := CountLimit(t.fields[k], count, limit);
      if exceeded then (c, true) else CountFields(t, k + 1, c, limit)
  }

  /** Array lengths fit in 64 bits. */
  predicate Representable(t: Type)
    decreases t, Width(t) + 1
  {
    match t
    case Scalar => true
    case Array(n, e) => n < TWO64 && Representable(e)
    case Struct(_) => RepresentableFrom(t, 0)
  }

  predicate RepresentableFrom(t: Type, k: nat)
    requires t.Struct? && k <= |t.fields|
    decreases t, Width(t) - k
  {
    k == |t.fields| || (Representable(t.fields[k]) && RepresentableFrom(t, k + 1))
  }

  lemma TimesExceeds(n: nat, e: nat, room: nat)
    requires e > 0
    ensures n > room / e <==> n * e > room
  {
    var q, r := room / e, room % e;
    assert room == q * e + r && 0 <= r < e;
    if n > q {
      assert n * e >= (q + 1) * e == q * e + e;
    } else {
      assert n * e <= q * e;
    }
  }

  lemma OneOfMany(n: nat, e: nat)
    requires n > 0
    ensures n * e >= e
  {
    assert n * e == (n - 1) * e + e;
  }

  /** The overflow-free test for an array, and its 64-bit sum. */
  lemma ArrayStep(n: nat, e: nat, count: nat, limit: nat)
    requires 0 < n < TWO64 && count <= limit < TWO64 - 1
    ensures e != 0 && n > Sub64(limit, count) / e <==> count + n * e > limit
    ensures count + n * e <= limit ==> Add64(count, Mul64(n, e)) == count + n * e
  {
    hide Sub64, Mul64, Add64;
    Sub64Exact(limit, count);
    if e == 0 {
      TimesZero(n);
    } else {
      TimesExceeds(n, e, limit - count);
    }
    Sum64Exact(n, e, count, limit);
  }

  lemma Sub64Exact(x: nat, y: nat)
    requires y <= x < TWO64
    ensures Sub64(x, y) == x - y
  {
  }

  lemma TimesZero(n: nat)
    ensures n * 0 == 0
  {
  }

  lemma Sum64Exact(n: nat, e: nat, count: nat, limit: nat)
    requires limit < TWO64
    ensures count + n * e <= limit ==> Add64(count, Mul64(n, e)) == count + n * e
  {
    NoWrap(n * e, count, limit);
  }

  lemma NoWrap(x: nat, count: nat, limit: nat)
    requires limit < TWO64
    ensures count + x <= limit ==> (count + x % TWO64) % TWO64 == count + x
  {
  }

  lemma CountArrayExact(n: nat, e: nat, element: (nat, bool), count: nat, limit: nat)
    requires n < TWO64 && count <= limit < TWO64 - 1
    requires element.1 <==> e > limit
    requires !element.1 ==> element.0 == e
    ensures CountArray(n, element, count, limit).1 <==> count + n * e > limit
    ensures !CountArray(n, element, count, limit).1 ==> CountArray(n, element, count, limit).0 == count + n * e
  {
    hide Sub64, Mul64, Add64;
    if n > 0 {
      if e > limit {
        OneOfMany(n, e);
      } else {
        ArrayStep(n, e, count, limit);
      }
    }
  }

  /** The counter is exact and does not wrap: starting within the limit, it reports
      exceeding exactly when the count plus the leaves of the type are over the limit, and
      otherwise returns that sum. */
  lemma {:induction false} CountLimitExact(t: Type, count: nat, limit: nat)
    requires Representable(t) && count <= limit < TWO64 - 1
    ensures CountLimit(t, count, limit).1 <==> count + Leaves(t) > limit
    ensures !CountLimit(t, count, limit).1 ==> CountLimit(t, count, limit).0 == count + Leaves(t)
    decreases t, Width(t) + 1
  {
    hide CountArray;
    match t
    case Scalar =>
    case Array(n, e) =>
      CountLimitExact(e, 0, limit);
      CountArrayExact(n, Leaves(e), CountLimit(e, 0, limit), count, limit);
    case Struct(_) => CountFieldsExact(t, 0, count, limit);
  }

  lemma {:induction false} CountFieldsExact(t: Type, k: nat, count: nat, limit: nat)
    requires t.Struct? && k <= |t.fields| && RepresentableFrom(t, k) && count <= limit < TWO64 - 1
    ensures CountFields(t, k, count, limit).1 <==> count + LeavesFrom(t, k) > limit
    ensures !CountFields(t, k, count, limit).1 ==> CountFields(t, k, count, limit).0 == count + LeavesFrom(t, k)
    decreases t, Width(t) - k
  {
    if k < |t.fields| {
      CountLimitExact(t.fields[k], count, limit);
      if !CountLimit(t.fields[k], count, limit).1 {
        CountFieldsExact(t, k + 1, count + Leaves(t.fields[k]), limit);
      }
    }
  }

  /** aggregateValueCountExceeds */
  function CountExceeds(t: Type, limit: nat): bool {
    IsAggregate(t) && CountLimit(t, 0, limit).1
  }

  // ---------- splitting structs ----------

  const MAX_FIELDS: nat := 3

  /** Types without leaves occupy no memory. */
  predicate ZeroSize(t: Type) { Leaves(t) == 0 }

  /** The types a struct is flattened into; other types stay whole. */
  function FlattenType(t: Type): seq<Type>
    decreases t, Width(t) + 1
  {
    if t.Struct? then FlattenFields(t, 0) else [t]
  }

  function FlattenFields(t: Type, k: nat): seq<Type>
    requires t.Struct? && k <= |t.fields|
    decreases t, Width(t) - k
  {
    if k == |t.fields| then []
    else (if ZeroSize(t.fields[k]) then [] else FlattenType(t.fields[k])) + FlattenFields(t, k + 1)
  }

  /** The parameter types of a directly passed value: a struct of at most three flattened
      fields is split, anything else is passed whole. */
  function ExpandType(t: Type): seq<Type> {
    if t.Struct? && |FlattenType(t)| <= MAX_FIELDS then FlattenType(t) else [t]
  }

  function TotalLeaves(ts: seq<Type>): nat {
    if ts == [] then 0 else TotalLeaves(ts[..|ts| - 1]) + Leaves(ts[|ts| - 1])
  }

  lemma {:induction false} TotalLeavesConcat(a: seq<Type>, b: seq<Type>)
    ensures TotalLeaves(a + b) == TotalLeaves(a) + TotalLeaves(b)
    decreases |b|
  {
    if b == [] {
      assert a + b == a;
    } else {
      assert (a + b)[..|a + b| - 1] == a + b[..|b| - 1];
      TotalLeavesConcat(a, b[..|b| - 1]);
    }
  }

  /** Flattening and dropping fields without size keeps the number of leaves. */
  lemma {:induction false} FlattenLeaves(t: Type)
    ensures TotalLeaves(FlattenType(t)) == Leaves(t)
    decreases t, Width(t) + 1
  {
    if t.Struct? {
      FlattenFieldsLeaves(t, 0);
    } else {
      assert [t][..0] == [];
    }
  }

  lemma {:induction false} FlattenFieldsLeaves(t: Type, k: nat)
    requires t.Struct? && k <= |t.fields|
    ensures TotalLeaves(FlattenFields(t, k)) == LeavesFrom(t, k)
    decreases t, Width(t) - k
  {
    if k < |t.fields| {
      var first := if ZeroSize(t.fields[k]) then [] else FlattenType(t.fields[k]);
      FlattenLeaves(t.fields[k]);
      FlattenFieldsLeaves(t, k + 1);
      TotalLeavesConcat(first, FlattenFields(t, k + 1));
    }
  }

  lemma ExpandLeaves(t: Type)
    ensures TotalLeaves(ExpandType(t)) == Leaves(t)
  {
    FlattenLeaves(t);
    assert [t][..0] == [];
  }
}
