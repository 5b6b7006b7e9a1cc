/**
 For which operand types slicing is right: exactly those that keep negative numbers above
 everything the check accepts.
 */
module SliceTypes {
  import opened Wrappers
  import opened Powers
  import opened SliceBounds
  import opened SliceOps

  datatype OperandType = OperandType(width: nat, signed: bool)

  /** The types of the bounds that are given; a maximum is given only with an upper bound. */
  datatype BoundTypes = BoundTypes(low: Option<OperandType>, high: Option<OperandType>, max: Option<OperandType>)

  ghost predicate TypesOk(y: BoundTypes) {
    && (y.low.Some? ==> y.low.value.width > 0)
    && (y.high.Some? ==> y.high.value.width > 0)
    && (y.max.Some? ==> y.max.value.width > 0 && y.high.Some?)
  }

  function Typed(y: OperandType, bits: nat): Operand {
    Operand(Word(y.width, bits), y.signed)
  }

  function Given(y: Option<OperandType>, bits: nat): Option<Operand> {
    if y.Some? then Some(Typed(y.value, bits)) else None
  }

  function BoundsWith(y: BoundTypes, l: nat, h: nat, m: nat): Bounds {
    Bounds(Given(y.low, l), Given(y.high, h), Given(y.max, m))
  }

  ghost predicate BitsOk(y: Option<OperandType>, bits: nat) {
    y.Some? ==> bits < Pow2(y.value.width)
  }

  function WidthOf(y: Option<OperandType>): nat {
    if y.Some? then y.value.width else 0
  }

  /** The width of the comparisons for these types. */
  function TypesWidth(t: Target, y: BoundTypes): nat {
    Max(Max(Max(t.pointer, WidthOf(y.low)), WidthOf(y.high)), WidthOf(y.max))
  }

  ghost predicate SafeType(limit: nat, y: Option<OperandType>, w: nat) {
    y.Some? ==> SignSafe(limit, Typed(y.value, 0), w)
  }

  function TopOf(y: OperandType, limit: nat): nat
    requires y.width > 0
  {
    Min(limit, Reach(Typed(y, 0)))
  }

  /** The largest maximum that can be accepted. */
  ghost function MaxTop(y: BoundTypes, cap: nat): nat
    requires TypesOk(y)
  {
    if y.max.Some? then TopOf(y.max.value, cap) else cap
  }

  /** The largest upper bound that can be accepted. */
  ghost function HighTop(y: BoundTypes, length: nat, cap: nat): nat
    requires TypesOk(y)
  {
    if y.high.Some? then TopOf(y.high.value, MaxTop(y, cap)) else length
  }

  /** Negative numbers of each type are above the largest number that it is compared with. */
  ghost predicate TypesSafe(t: Target, y: BoundTypes, length: nat, cap: nat)
    requires TypesOk(y)
  {
    var w := TypesWidth(t, y);
    SafeType(cap, y.max, w) && SafeType(MaxTop(y, cap), y.high, w) && SafeType(HighTop(y, length, cap), y.low, w)
  }

  // ---------- extended bits ----------

  lemma ExtendTwice(v: Word, signed: bool, pointer: nat, w: nat)
    requires Valid(v) && v.width <= w && pointer <= w
    ensures ExtendInteger(ExtendInteger(v, signed, pointer), signed, w) == ExtendInteger(v, signed, w)
  {
    if v.width < pointer {
      Pow2Half(pointer);
      Pow2Half(v.width);
      Pow2Grows(v.width, pointer - 1);
      Pow2Grows(pointer, w);
    }
  }

  /** The bits that a bound is compared with. */
  ghost function Compared(o: Option<Operand>, t: Target, default: nat, w: nat): nat {
    var b := Bound(o, t.pointer, default);
    ExtendInteger(b.word, b.signed, w).bits
  }

  lemma ComparedGiven(y: OperandType, bits: nat, t: Target, default: nat, w: nat)
    requires 0 < y.width <= w && t.pointer <= w && bits < Pow2(y.width)
    ensures Compared(Some(Typed(y, bits)), t, default, w) == ExtendInteger(Word(y.width, bits), y.signed, w).bits
  {
    hide Pow2;
    ExtendTwice(Word(y.width, bits), y.signed, t.pointer, w);
  }

  /** A number of a safe type that is accepted is not negative, nor above the top of its type. */
  lemma SafeGiven(y: OperandType, bits: nat, t: Target, default: nat, w: nat, limit: nat)
    requires 0 < y.width <= w && t.pointer <= w && bits < Pow2(y.width) && SignSafe(limit, Typed(y, 0), w)
    requires Compared(Some(Typed(y, bits)), t, default, w) <= limit
    ensures Meaning(Word(y.width, bits), y.signed) >= 0
    ensures Compared(Some(Typed(y, bits)), t, default, w) <= TopOf(y, limit)
  {
    hide Pow2, Meaning, ExtendInteger;
    ComparedGiven(y, bits, t, default, w);
    CompareMeaning(Typed(y, bits), w, limit);
  }

  lemma ComparedDefault(t: Target, default: nat, w: nat)
    ensures Compared(None, t, default, w) == default
  {
  }

  lemma WidthIs(t: Target, s: SliceValue, y: BoundTypes, l: nat, h: nat, m: nat)
    ensures SliceWidth(t, s, BoundsWith(y, l, h, m)) == TypesWidth(t, y)
  {
  }

  /** The order of bits that the check asks for. */
  ghost predicate InOrder(t: Target, s: SliceValue, b: Bounds, w: nat) {
    Compared(b.low, t, 0, w) <= Compared(b.high, t, s.length, w) <= Compared(b.max, t, s.cap, w) <= s.cap
  }

  lemma OrderIs(t: Target, s: SliceValue, b: Bounds)
    ensures var o := Checked(t, s, b);
            BitsInOrder(Word(t.pointer, s.cap), o.0, o.1, o.2) <==> InOrder(t, s, b, SliceWidth(t, s, b))
  {
    hide ExtendInteger, Bound;
  }

  ghost predicate TypedOk(t: Target, elemSize: nat, s: SliceValue, y: BoundTypes, l: nat, h: nat, m: nat) {
    && TargetOk(t) && SliceOk(t, elemSize, s) && TypesOk(y)
    && BitsOk(y.low, l) && BitsOk(y.high, h) && BitsOk(y.max, m)
  }

  // ---------- safe types ----------

  lemma SafeNumbers(t: Target, elemSize: nat, s: SliceValue, y: BoundTypes, l: nat, h: nat, m: nat)
    requires TypedOk(t, elemSize, s, y, l, h, m) && TypesSafe(t, y, s.length, s.cap)
    requires InOrder(t, s, BoundsWith(y, l, h, m), TypesWidth(t, y))
    ensures var b := BoundsWith(y, l, h, m);
            NumberOf(b.low, 0) >= 0 && NumberOf(b.high, s.length) >= 0 && NumberOf(b.max, s.cap) >= 0
  {
    hide Pow2, Meaning, Compared, TopOf, SignSafe, SliceOk;
    var w := TypesWidth(t, y);
    ComparedDefault(t, s.length, w);
    ComparedDefault(t, s.cap, w);
    if y.max.Some? {
      SafeGiven(y.max.value, m, t, s.cap, w, s.cap);
    }
    if y.high.Some? {
      SafeGiven(y.high.value, h, t, s.length, w, MaxTop(y, s.cap));
    }
    if y.low.Some? {
      SafeGiven(y.low.value, l, t, 0, w, HighTop(y, s.length, s.cap));
    }
  }

  lemma SliceExact(t: Target, elemSize: nat, s: SliceValue, y: BoundTypes, l: nat, h: nat, m: nat)
    requires TypedOk(t, elemSize, s, y, l, h, m) && TypesSafe(t, y, s.length, s.cap)
    ensures SliceRight(t, elemSize, s, BoundsWith(y, l, h, m))
  {
    hide Pow2, Meaning, InOrder, TypesSafe, SliceRight, BitsInOrder, Checked, NumberOf;
    var b := BoundsWith(y, l, h, m);
    WidthIs(t, s, y, l, h, m);
    OrderIs(t, s, b);
    CheckedOk(t, elemSize, s, b);
    if InOrder(t, s, b, TypesWidth(t, y)) {
      SafeNumbers(t, elemSize, s, y, l, h, m);
    }
    SliceRightIf(t, elemSize, s, b);
  }

  // ---------- other types ----------

  /** Letting a negative number through is wrong. */
  lemma WrongSlice(t: Target, elemSize: nat, s: SliceValue, b: Bounds)
    requires TargetOk(t) && SliceOk(t, elemSize, s) && BoundsOk(b)
    requires InOrder(t, s, b, SliceWidth(t, s, b))
    requires NumberOf(b.low, 0) < 0 || NumberOf(b.high, s.length) < 0 || NumberOf(b.max, s.cap) < 0
    ensures !SliceRight(t, elemSize, s, b)
  {
    hide Pow2, Meaning, InOrder, OutOfBounds, SkipsOk, NumberOf, Cut, Narrow, Bound, SliceOk;
    var o := Checked(t, s, b);
    CheckedOk(t, elemSize, s, b);
    OrderIs(t, s, b);
    ElisionHarmless(Word(t.pointer, s.cap), o.0, o.1, o.2, Elided(b.high.None? && b.max.None?, false, false));
    PlainCheck(Word(t.pointer, s.cap), o.0, o.1, o.2);
  }

  /** A number within the reach of its type is compared as itself. */
  lemma ComparedSmall(y: Option<OperandType>, bits: nat, t: Target, default: nat, w: nat)
    requires y.Some? ==> 0 < y.value.width <= w && bits <= Reach(Typed(y.value, 0))
    requires t.pointer <= w
    ensures BitsOk(y, bits) && Compared(Given(y, bits), t, default, w) == if y.Some? then bits else default
  {
    hide Pow2;
    if y.Some? {
      SmallBits(y.value.width, bits, y.value.signed, w);
      ComparedGiven(y.value, bits, t, default, w);
    }
  }

  /** The most negative number of a type is compared as the least bits of a negative one. */
  lemma ComparedNegative(y: OperandType, t: Target, default: nat, w: nat)
    requires 0 < y.width <= w && t.pointer <= w && y.signed
    ensures Pow2(y.width - 1) < Pow2(y.width) && Meaning(Word(y.width, Pow2(y.width - 1)), true) < 0
    ensures Compared(Some(Typed(y, Pow2(y.width - 1))), t, default, w) == Pow2(w) - Pow2(y.width - 1)
  {
    hide Meaning;
    Pow2Half(y.width);
    MostNegative(y.width, w);
    ComparedGiven(y, Pow2(y.width - 1), t, default, w);
  }

  /** For unsafe types there are bounds in the order of the check, one of them negative. */
  lemma UnsafeNumbers(t: Target, elemSize: nat, s: SliceValue, y: BoundTypes) returns (l: nat, h: nat, m: nat)
    requires TargetOk(t) && SliceOk(t, elemSize, s) && TypesOk(y) && !TypesSafe(t, y, s.length, s.cap)
    ensures BitsOk(y.low, l) && BitsOk(y.high, h) && BitsOk(y.max, m)
    ensures var b := BoundsWith(y, l, h, m);
            && InOrder(t, s, b, TypesWidth(t, y))
            && (NumberOf(b.low, 0) < 0 || NumberOf(b.high, s.length) < 0 || NumberOf(b.max, s.cap) < 0)
  {
    hide Pow2, Meaning, Compared, Reach;
    var w := TypesWidth(t, y);
    if !SafeType(s.cap, y.max, w) {
      l, h, m := 0, 0, Pow2(y.max.value.width - 1);
      ComparedNegative(y.max.value, t, s.cap, w);
      ComparedSmall(y.low, l, t, 0, w);
      ComparedSmall(y.high, h, t, s.length, w);
    } else if !SafeType(MaxTop(y, s.cap), y.high, w) {
      l, h, m := 0, Pow2(y.high.value.width - 1), MaxTop(y, s.cap);
      ComparedNegative(y.high.value, t, s.length, w);
      ComparedSmall(y.low, l, t, 0, w);
      ComparedSmall(y.max, m, t, s.cap, w);
    } else {
      l, h, m := Pow2(y.low.value.width - 1), HighTop(y, s.length, s.cap), MaxTop(y, s.cap);
      ComparedNegative(y.low.value, t, 0, w);
      ComparedSmall(y.high, h, t, s.length, w);
      ComparedSmall(y.max, m, t, s.cap, w);
    }
  }

  /** On every target, for every slice and all operand types: slicing is right for all bounds of
      these types if and only if the types are safe. */
  lemma SliceRightIff(t: Target, elemSize: nat, s: SliceValue, y: BoundTypes)
    requires TargetOk(t) && SliceOk(t, elemSize, s) && TypesOk(y)
    ensures TypesSafe(t, y, s.length, s.cap) <==>
              forall l: nat, h: nat, m: nat :: BitsOk(y.low, l) && BitsOk(y.high, h) && BitsOk(y.max, m) ==>
                SliceRight(t, elemSize, s, BoundsWith(y, l, h, m))
  {
    hide Pow2, Meaning, SliceRight, TypesSafe, SliceOk, BitsOk, InOrder, NumberOf;
    if TypesSafe(t, y, s.length, s.cap) {
      forall l: nat, h: nat, m: nat | BitsOk(y.low, l) && BitsOk(y.high, h) && BitsOk(y.max, m)
        ensures SliceRight(t, elemSize, s, BoundsWith(y, l, h, m))
      {
        SliceExact(t, elemSize, s, y, l, h, m);
      }
    } else {
      var l, h, m := UnsafeNumbers(t, elemSize, s, y);
      WidthIs(t, s, y, l, h, m);
      GivenOk(y, l, h, m);
      WrongSlice(t, elemSize, s, BoundsWith(y, l, h, m));
    }
  }

  lemma GivenOk(y: BoundTypes, l: nat, h: nat, m: nat)
    requires TypesOk(y) && BitsOk(y.low, l) && BitsOk(y.high, h) && BitsOk(y.max, m)
    ensures BoundsOk(BoundsWith(y, l, h, m))
  {
  }

  /** Where int is no wider than uintptr all types are safe. */
  lemma AllSafe(t: Target, elemSize: nat, s: SliceValue, y: BoundTypes)
    requires TargetOk(t) && t.integer <= t.pointer && SliceOk(t, elemSize, s) && TypesOk(y)
    ensures TypesSafe(t, y, s.length, s.cap)
  {
    var w := TypesWidth(t, y);
    Pow2Grows(t.integer - 1, w - 1);
    OneSafe(s.cap, y.max, w);
    OneSafe(MaxTop(y, s.cap), y.high, w);
    OneSafe(HighTop(y, s.length, s.cap), y.low, w);
  }

  lemma OneSafe(limit: nat, y: Option<OperandType>, w: nat)
    requires w > 0 && limit < Pow2(w - 1) && (y.Some? ==> 0 < y.value.width <= w)
    ensures SafeType(limit, y, w)
  {
    if y.Some? {
      Pow2Half(w);
      Pow2Grows(y.value.width - 1, w - 1);
    }
  }

  // ---------- strings ----------

  /** A string seen as a slice that is full. */
  function AsSlice(s: StringValue): SliceValue {
    SliceValue(s.ptr, s.length, s.length)
  }

  /** The upper bound as the maximum of the check for strings. */
  function StringMax(t: Target, s: StringValue, high: Option<Operand>): Operand {
    Operand(Bound(high, t.pointer, s.length).word, false)
  }

  lemma StringOrder(t: Target, s: StringValue, low: Option<Operand>, high: Option<Operand>)
    ensures var l, h := Bound(low, t.pointer, 0), Bound(high, t.pointer, s.length);
            var w := CheckWidth(Word(t.pointer, s.length), l.word, h.word, h.word);
            BitsInOrder(Word(t.pointer, s.length), l, h, StringMax(t, s, high)) <==>
              Compared(low, t, 0, w) <= Compared(high, t, s.length, w) <= h.word.bits <= s.length
  {
    UnsignedExtend(Bound(high, t.pointer, s.length).word,
                   CheckWidth(Word(t.pointer, s.length), Bound(low, t.pointer, 0).word,
                              Bound(high, t.pointer, s.length).word, Bound(high, t.pointer, s.length).word));
  }

  lemma SliceStringExact(t: Target, s: StringValue, y: BoundTypes, l: nat, h: nat)
    requires TypedOk(t, 1, AsSlice(s), y, l, h, 0) && y.max.None? && TypesSafe(t, y, s.length, s.length)
    ensures StringRight(t, s, Given(y.low, l), Given(y.high, h))
  {
    hide Pow2, Meaning, StringRight, BitsInOrder, Compared, NumberOf, SliceOk, Bound, TypesSafe;
    var low, high := Given(y.low, l), Given(y.high, h);
    var b := BoundsWith(y, l, h, 0);
    var w := TypesWidth(t, y);
    StringWidth(t, s, y, l, h);
    StringOrder(t, s, low, high);
    ComparedDefault(t, s.length, w);
    GivenOk(y, l, h, 0);
    CheckedOk(t, 1, AsSlice(s), b);
    if BitsInOrder(Word(t.pointer, s.length), Bound(low, t.pointer, 0), Bound(high, t.pointer, s.length), StringMax(t, s, high)) {
      SafeNumbers(t, 1, AsSlice(s), y, l, h, 0);
      UnsignedExtend(Bound(high, t.pointer, s.length).word, w);
    }
    StringRightIf(t, s, low, high);
  }

  lemma StringWidth(t: Target, s: StringValue, y: BoundTypes, l: nat, h: nat)
    requires y.max.None?
    ensures CheckWidth(Word(t.pointer, s.length), Bound(Given(y.low, l), t.pointer, 0).word,
                       Bound(Given(y.high, h), t.pointer, s.length).word, Bound(Given(y.high, h), t.pointer, s.length).word)
         == TypesWidth(t, y)
  {
  }

  /** Letting a negative number through is wrong for strings too. */
  lemma WrongString(t: Target, s: StringValue, y: BoundTypes, l: nat, h: nat)
    requires TypedOk(t, 1, AsSlice(s), y, l, h, 0) && y.max.None?
    requires InOrder(t, AsSlice(s), BoundsWith(y, l, h, 0), TypesWidth(t, y))
    requires NumberOf(Given(y.low, l), 0) < 0 || NumberOf(Given(y.high, h), s.length) < 0
    ensures !StringRight(t, s, Given(y.low, l), Given(y.high, h))
  {
    hide Pow2, Meaning, BitsInOrder, Compared, NumberOf, Bound, OutOfBounds, Cut, Narrow;
    var low, high := Given(y.low, l), Given(y.high, h);
    var w := TypesWidth(t, y);
    StringWidth(t, s, y, l, h);
    StringOrder(t, s, low, high);
    ComparedDefault(t, s.length, w);
    HighBits(t, s, y, h);
    StringPasses(t, s, low, high);
  }

  lemma StringPasses(t: Target, s: StringValue, low: Option<Operand>, high: Option<Operand>)
    requires BitsInOrder(Word(t.pointer, s.length), Bound(low, t.pointer, 0), Bound(high, t.pointer, s.length),
                         StringMax(t, s, high))
    ensures SliceString(t, s, low, high).Some?
  {
    hide ExtendInteger, Bound, OutOfBounds, Cut, Narrow;
    PlainCheck(Word(t.pointer, s.length), Bound(low, t.pointer, 0), Bound(high, t.pointer, s.length), StringMax(t, s, high));
  }

  /** An upper bound that is compared below the length has the bits that it is compared with. */
  lemma HighBits(t: Target, s: StringValue, y: BoundTypes, h: nat)
    requires TypesOk(y) && TargetOk(t) && s.length < Pow2(t.pointer) && BitsOk(y.high, h) && y.max.None?
    requires Compared(Given(y.high, h), t, s.length, TypesWidth(t, y)) <= s.length
    ensures Bound(Given(y.high, h), t.pointer, s.length).word.bits == Compared(Given(y.high, h), t, s.length, TypesWidth(t, y))
  {
    var w := TypesWidth(t, y);
    var b := Bound(Given(y.high, h), t.pointer, s.length);
    BoundMeans(Given(y.high, h), t.pointer, s.length);
    if b.word.width < w && b.signed {
      Pow2Half(b.word.width);
      Pow2Half(w);
      Pow2Grows(b.word.width, w - 1);
      Pow2Grows(t.pointer, b.word.width);
    }
  }

  /** On every target, for every string and all operand types: slicing is right for all bounds of
      these types if and only if the types are safe. */
  lemma StringRightIff(t: Target, s: StringValue, y: BoundTypes)
    requires TargetOk(t) && SliceOk(t, 1, AsSlice(s)) && TypesOk(y) && y.max.None?
    ensures TypesSafe(t, y, s.length, s.length) <==>
              forall l: nat, h: nat :: BitsOk(y.low, l) && BitsOk(y.high, h) ==>
                StringRight(t, s, Given(y.low, l), Given(y.high, h))
  {
    hide Pow2, Meaning, StringRight, TypesSafe, SliceOk, BitsOk, InOrder, NumberOf;
    NoMaximum(y);
    if TypesSafe(t, y, s.length, s.length) {
      forall l: nat, h: nat | BitsOk(y.low, l) && BitsOk(y.high, h)
        ensures StringRight(t, s, Given(y.low, l), Given(y.high, h))
      {
        SliceStringExact(t, s, y, l, h);
      }
    } else {
      var l, h, m := UnsafeNumbers(t, 1, AsSlice(s), y);
      SameBounds(y, l, h, m);
      NotNegative(s.length);
      WrongString(t, s, y, l, h);
    }
  }

  lemma NoMaximum(y: BoundTypes)
    requires y.max.None?
    ensures BitsOk(y.max, 0)
  {
  }

  lemma SameBounds(y: BoundTypes, l: nat, h: nat, m: nat)
    requires y.max.None?
    ensures BoundsWith(y, l, h, m) == BoundsWith(y, l, h, 0)
  {
  }

  lemma NotNegative(length: nat)
    ensures NumberOf(None, length) >= 0
  {
  }
}
