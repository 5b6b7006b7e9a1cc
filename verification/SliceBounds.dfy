/**
 The checks emitted for slicing and for make: unsigned comparisons of fixed-width integers
 stand in for Go's rule 0 <= low <= high <= max <= cap (section "Slice expressions" of the
 Go specification).
 */
module SliceBounds {
  import opened Powers

  // ---------- fixed-width integers ----------

  /** An integer value of the intermediate representation: bits without a sign. */
  datatype Word = Word(width: nat, bits: nat)

  ghost predicate Valid(v: Word) {
    v.width > 0 && v.bits < Pow2(v.width)
  }

  /** A word together with the Go type that says how to read it. */
  datatype Operand = Operand(word: Word, signed: bool)

  /** The number that a word stands for. */
  function Meaning(v: Word, signed: bool): int {
    if signed && v.width > 0 && v.bits >= Pow2(v.width - 1) then v.bits - Pow2(v.width) else v.bits
  }

  function Zext(v: Word, width: nat): (r: Word)
    requires v.width <= width
  {
    Word(width, v.bits)
  }

  function Sext(v: Word, width: nat): Word
    requires v.width <= width
  {
    Pow2Grows(v.width, width);
    if v.width > 0 && v.bits >= Pow2(v.width - 1) then Word(width, v.bits + Pow2(width) - Pow2(v.width))
    else Word(width, v.bits)
  }

  function Trunc(v: Word, width: nat): Word {
    Word(width, v.bits % Pow2(width))
  }

  /** Extend to at least a width, by the sign of the type. */
  function ExtendInteger(v: Word, signed: bool, width: nat): (r: Word)
    ensures r.width == if v.width < width then width else v.width
  {
    if v.width < width then (if signed then Sext(v, width) else Zext(v, width)) else v
  }

  /** Extending keeps a word valid and keeps its meaning. */
  lemma ExtendKeeps(v: Word, signed: bool, width: nat)
    requires Valid(v)
    ensures Valid(ExtendInteger(v, signed, width))
    ensures Meaning(ExtendInteger(v, signed, width), signed) == Meaning(v, signed)
  {
    if v.width < width {
      Pow2Grows(v.width, width - 1);
      Pow2Half(width);
      Pow2Half(v.width);
    }
  }

  /** A word that means a non-negative number has it as its bits; one that means a negative
      number has its top bit set. */
  lemma BitsOfMeaning(v: Word, signed: bool)
    requires Valid(v)
    ensures Meaning(v, signed) >= 0 ==> v.bits == Meaning(v, signed)
    ensures Meaning(v, signed) < 0 ==> v.bits >= Pow2(v.width - 1)
  {
  }

  // ---------- the emitted check ----------

  function Max(a: nat, b: nat): nat {
    if a > b then a else b
  }

  /** The width at which the comparisons are made. */
  function CheckWidth(capacity: Word, low: Word, high: Word, max: Word): nat {
    Max(Max(Max(capacity.width, low.width), high.width), max.width)
  }

  predicate Ugt(a: Word, b: Word)
    requires a.width == b.width
  {
    a.bits > b.bits
  }

  /** Which comparisons are left out because both sides are the same value, or known to be
      ordered: a choice made on value identity, which implies equality. */
  datatype Elided = Elided(highLeMax: bool, highIsMax: bool, maxIsCapacity: bool)

  /** The condition on which the emitted code panics. */
  predicate OutOfBounds(capacity: Word, low: Operand, high: Operand, max: Operand, skip: Elided) {
    var w := CheckWidth(capacity, low.word, high.word, max.word);
    var c := Zext(capacity, w);
    var l := ExtendInteger(low.word, low.signed, w);
    var h := ExtendInteger(high.word, high.signed, w);
    var m := ExtendInteger(max.word, max.signed, w);
    || Ugt(l, h)
    || (!skip.highLeMax && !skip.highIsMax && Ugt(h, m))
    || (!skip.maxIsCapacity && Ugt(m, c))
  }

  /** Comparisons are left out only where their sides are the same extended value, or where
      high is the length and max the capacity of one slice. */
  ghost predicate SkipsOk(capacity: Word, high: Operand, max: Operand, w: nat, skip: Elided) {
    && (skip.highLeMax ==> !high.signed && !max.signed && high.word.bits <= max.word.bits)
    && (skip.highIsMax ==> ExtendInteger(high.word, high.signed, w) == ExtendInteger(max.word, max.signed, w))
    && (skip.maxIsCapacity ==> capacity.width <= w && ExtendInteger(max.word, max.signed, w) == Zext(capacity, w))
  }

  ghost predicate Operands(capacity: Word, low: Operand, high: Operand, max: Operand) {
    Valid(capacity) && Valid(low.word) && Valid(high.word) && Valid(max.word)
  }

  /** The bits of the largest number that an operand type holds. */
  function Reach(o: Operand): nat
    requires o.word.width > 0
  {
    if o.signed then Pow2(o.word.width - 1) - 1 else Pow2(o.word.width) - 1
  }

  function Min(a: nat, b: nat): nat {
    if a < b then a else b
  }

  /** Once extended, negative numbers of this type have bits above the limit. */
  ghost predicate SignSafe(limit: nat, o: Operand, w: nat) {
    o.signed ==> 0 < o.word.width && limit < Pow2(w) - Pow2(o.word.width - 1)
  }

  /** The types keep negative operands apart from everything up to the capacity.  It does not
      depend on the values of the operands, and holds of unsigned types without condition. */
  ghost predicate SignsSafe(capacity: nat, low: Operand, high: Operand, max: Operand, w: nat) {
    && high.word.width > 0
    && SignSafe(capacity, high, w) && SignSafe(capacity, max, w)
    && SignSafe(Min(capacity, Reach(high)), low, w)
  }

  /** A capacity below the sign bit is enough. */
  lemma BelowSignBit(capacity: nat, low: Operand, high: Operand, max: Operand, w: nat)
    requires 0 < low.word.width <= w && 0 < high.word.width <= w && 0 < max.word.width <= w
    requires capacity < Pow2(w - 1)
    ensures SignsSafe(capacity, low, high, max, w)
  {
    Pow2Half(w);
    Pow2Grows(low.word.width - 1, w - 1);
    Pow2Grows(high.word.width - 1, w - 1);
    Pow2Grows(max.word.width - 1, w - 1);
  }

  /** Comparing extended words with a safe limit is comparing meanings. */
  lemma CompareMeaning(o: Operand, w: nat, limit: nat)
    requires Valid(o.word) && o.word.width <= w && SignSafe(limit, o, w)
    ensures var x := ExtendInteger(o.word, o.signed, w);
            && (x.bits <= limit <==> 0 <= Meaning(o.word, o.signed) <= limit)
            && (Meaning(o.word, o.signed) >= 0 ==> x.bits == Meaning(o.word, o.signed) <= Reach(o))
  {
    Pow2Half(o.word.width);
    Pow2Grows(o.word.width, w);
    ExtendKeeps(o.word, o.signed, w);
    BitsOfMeaning(ExtendInteger(o.word, o.signed, w), o.signed);
  }

  /** The check passes if and only if Go's rule holds, for all widths and signs of the
      operands that keep negative ones apart, with any of the redundant comparisons left out. */
  lemma CheckExact(capacity: Word, low: Operand, high: Operand, max: Operand, skip: Elided)
    requires Operands(capacity, low, high, max)
    requires SignsSafe(capacity.bits, low, high, max, CheckWidth(capacity, low.word, high.word, max.word))
    requires SkipsOk(capacity, high, max, CheckWidth(capacity, low.word, high.word, max.word), skip)
    ensures !OutOfBounds(capacity, low, high, max, skip) <==>
              0 <= Meaning(low.word, low.signed) <= Meaning(high.word, high.signed)
                <= Meaning(max.word, max.signed) <= capacity.bits
  {
    hide Meaning, Pow2, OutOfBounds, SkipsOk, ExtendInteger, Reach, SignSafe;
    var w := CheckWidth(capacity, low.word, high.word, max.word);
    CompareMeaning(low, w, Min(capacity.bits, Reach(high)));
    CompareMeaning(high, w, capacity.bits);
    CompareMeaning(max, w, capacity.bits);
    ElisionHarmless(capacity, low, high, max, skip);
    PlainCheck(capacity, low, high, max);
  }

  /** The extended bits of the operands are in the order that the check asks for. */
  ghost predicate BitsInOrder(capacity: Word, low: Operand, high: Operand, max: Operand) {
    var w := CheckWidth(capacity, low.word, high.word, max.word);
    ExtendInteger(low.word, low.signed, w).bits <= ExtendInteger(high.word, high.signed, w).bits
      <= ExtendInteger(max.word, max.signed, w).bits <= capacity.bits
  }

  ghost predicate NoneNegative(low: Operand, high: Operand, max: Operand) {
    Meaning(low.word, low.signed) >= 0 && Meaning(high.word, high.signed) >= 0 && Meaning(max.word, max.signed) >= 0
  }

  /** The check is right for operands that it does not let through as negative numbers. */
  lemma ExactIf(capacity: Word, low: Operand, high: Operand, max: Operand, skip: Elided)
    requires Operands(capacity, low, high, max)
    requires SkipsOk(capacity, high, max, CheckWidth(capacity, low.word, high.word, max.word), skip)
    requires BitsInOrder(capacity, low, high, max) ==> NoneNegative(low, high, max)
    ensures !OutOfBounds(capacity, low, high, max, skip) <==>
              0 <= Meaning(low.word, low.signed) <= Meaning(high.word, high.signed)
                <= Meaning(max.word, max.signed) <= capacity.bits
  {
    hide Meaning, Pow2, OutOfBounds, SkipsOk, ExtendInteger;
    var w := CheckWidth(capacity, low.word, high.word, max.word);
    BitsIfPositive(low, w);
    BitsIfPositive(high, w);
    BitsIfPositive(max, w);
    ElisionHarmless(capacity, low, high, max, skip);
    PlainCheck(capacity, low, high, max);
  }

  lemma BitsIfPositive(o: Operand, w: nat)
    requires Valid(o.word)
    ensures Meaning(o.word, o.signed) >= 0 ==> ExtendInteger(o.word, o.signed, w).bits == Meaning(o.word, o.signed)
  {
    hide Pow2;
    ExtendKeeps(o.word, o.signed, w);
    BitsOfMeaning(ExtendInteger(o.word, o.signed, w), o.signed);
  }

  /** The check with all comparisons made. */
  lemma PlainCheck(capacity: Word, low: Operand, high: Operand, max: Operand)
    ensures var w := CheckWidth(capacity, low.word, high.word, max.word);
            !OutOfBounds(capacity, low, high, max, Elided(false, false, false)) <==>
              ExtendInteger(low.word, low.signed, w).bits <= ExtendInteger(high.word, high.signed, w).bits
                <= ExtendInteger(max.word, max.signed, w).bits <= capacity.bits
  {
    hide ExtendInteger;
  }

  lemma UnsignedExtend(v: Word, w: nat)
    ensures ExtendInteger(v, false, w).bits == v.bits && Meaning(v, false) == v.bits
  {
  }

  /** For strings the upper bound is passed as the maximum too, but read as an unsigned
      number: the check still passes if and only if 0 <= low <= high <= len. */
  lemma StringCheckExact(length: Word, low: Operand, high: Operand, skip: Elided)
    requires Operands(length, low, high, Operand(high.word, false))
    requires SignsSafe(length.bits, low, high, Operand(high.word, false), CheckWidth(length, low.word, high.word, high.word))
    requires SkipsOk(length, high, Operand(high.word, false), CheckWidth(length, low.word, high.word, high.word), skip)
    ensures !OutOfBounds(length, low, high, Operand(high.word, false), skip) <==>
              0 <= Meaning(low.word, low.signed) <= Meaning(high.word, high.signed) <= length.bits
  {
    hide OutOfBounds, Pow2, SkipsOk, Operands, SignsSafe;
    CheckExact(length, low, high, Operand(high.word, false), skip);
    assert Valid(high.word) by {
      ValidHigh(length, low, high);
    }
    BitsOfMeaning(high.word, high.signed);
    BitsOfMeaning(high.word, false);
  }

  lemma ValidHigh(length: Word, low: Operand, high: Operand)
    requires Operands(length, low, high, Operand(high.word, false))
    ensures Valid(high.word)
  {
  }

  /** Leaving out comparisons of a value with itself changes nothing. */
  lemma ElisionHarmless(capacity: Word, low: Operand, high: Operand, max: Operand, skip: Elided)
    requires SkipsOk(capacity, high, max, CheckWidth(capacity, low.word, high.word, max.word), skip)
    ensures OutOfBounds(capacity, low, high, max, skip)
        <==> OutOfBounds(capacity, low, high, max, Elided(false, false, false))
  {
    if skip.highLeMax {
      var w := CheckWidth(capacity, low.word, high.word, max.word);
      UnsignedExtend(high.word, w);
      UnsignedExtend(max.word, w);
    }
  }

  /** The bound on the capacity is needed: for every larger one there is a negative operand
      of the same width that the check lets through. */
  lemma CapacityBoundNeeded(capacity: Word)
    requires Valid(capacity) && capacity.bits >= Pow2(capacity.width - 1)
    ensures var o := Operand(Word(capacity.width, Pow2(capacity.width - 1)), true);
            Valid(o.word) && Meaning(o.word, o.signed) < 0
            && !OutOfBounds(capacity, o, o, o, Elided(false, false, false))
  {
    Pow2Half(capacity.width);
  }
}
