/**
 Making and slicing slices, arrays and strings: what the emitted code computes after its
 bounds check, on a target with given pointer and integer widths.
 */
module SliceOps {
  import opened Wrappers
  import opened Powers
  import opened SliceBounds

  /** The widths of uintptr and int. On 16-bit targets int is the wider one. */
  datatype Target = Target(pointer: nat, integer: nat)

  ghost predicate TargetOk(t: Target) {
    t.pointer > 0 && t.integer > 1
  }

  // ---------- arithmetic ----------

  lemma DivideExact(n: nat, d: nat, limit: nat)
    requires d > 0
    ensures n <= limit / d <==> d * n <= limit
  {
    var q := limit / d;
    assert limit == d * q + limit % d;
    if n <= q {
      MulGrows(d, n, q);
    } else {
      MulGrows(d, q + 1, n);
      assert d * (q + 1) == d * q + d;
    }
  }

  lemma MulGrows(d: nat, a: nat, b: nat)
    requires a <= b
    ensures d * a <= d * b
  {
    assert d * b == d * a + d * (b - a);
  }

  lemma SmallMod(x: nat, m: nat)
    requires 0 < m
    ensures x < m ==> x % m == x
  {
  }

  lemma MaxInteger(k: nat)
    requires k > 0
    ensures (Pow2(k) - 1) / 2 == Pow2(k - 1) - 1
  {
  }

  // ---------- size limits ----------

  /** The largest length of a slice with elements of this size. */
  function MaxSliceSize(t: Target, elemSize: nat): nat {
    var maxPointerValue: nat := Pow2(t.pointer) - 1;
    var maxIntegerValue: nat := (Pow2(t.integer) - 1) / 2;
    var size := if elemSize == 0 then 1 else elemSize;
    Min(maxPointerValue / size, maxIntegerValue)
  }

  const HEAP_ADDRESS_BITS: nat := 48

  /** The largest length of a slice that can be allocated. */
  function MaxSliceAllocationSize(t: Target, elemSize: nat): nat {
    var maxSize := MaxSliceSize(t, elemSize);
    if t.pointer <= HEAP_ADDRESS_BITS || elemSize == 0 then maxSize
    else Min(maxSize, Pow2(HEAP_ADDRESS_BITS) / elemSize)
  }

  /** A length is within the limit if and only if it fits in an int and both it and its byte
      size fit in a uintptr. */
  lemma MaxSliceSizeExact(t: Target, elemSize: nat, n: nat)
    requires TargetOk(t)
    ensures n <= MaxSliceSize(t, elemSize) <==>
              n < Pow2(t.integer - 1) && n < Pow2(t.pointer) && elemSize * n < Pow2(t.pointer)
  {
    hide Pow2;
    MaxInteger(t.integer);
    DivideExact(n, if elemSize == 0 then 1 else elemSize, Pow2(t.pointer) - 1);
    if elemSize == 0 {
      assert elemSize * n == 0;
    } else {
      MulGrows(n, 1, elemSize);
    }
  }

  /** Allocations are limited to 48 bits of address space too, where pointers are wider. */
  lemma MaxAllocationExact(t: Target, elemSize: nat, n: nat)
    ensures n <= MaxSliceAllocationSize(t, elemSize) <==>
              n <= MaxSliceSize(t, elemSize) && (t.pointer > HEAP_ADDRESS_BITS ==> elemSize * n <= Pow2(HEAP_ADDRESS_BITS))
  {
    hide Pow2, MaxSliceSize;
    if elemSize > 0 {
      DivideExact(n, elemSize, Pow2(HEAP_ADDRESS_BITS));
    } else {
      assert elemSize * n == 0;
    }
  }

  // ---------- conversions ----------

  /** Conversion of an integer to uintptr. */
  function ToUintptr(o: Operand, pointer: nat): Word {
    if o.word.width > pointer then Trunc(o.word, pointer)
    else if o.signed then Sext(o.word, pointer) else Zext(o.word, pointer)
  }

  /** A word whose extension is below 2^pointer loses nothing by conversion to uintptr. */
  lemma ConvertLossless(o: Operand, pointer: nat, w: nat)
    requires Valid(o.word) && o.word.width <= w && pointer <= w
    requires ExtendInteger(o.word, o.signed, w).bits < Pow2(pointer)
    ensures ToUintptr(o, pointer).bits == ExtendInteger(o.word, o.signed, w).bits
  {
    SmallMod(o.word.bits, Pow2(pointer));
    if o.word.width < w {
      Pow2Grows(o.word.width, w - 1);
      Pow2Half(w);
      Pow2Half(o.word.width);
      if pointer < w {
        Pow2Grows(pointer, w - 1);
      }
    }
  }

  // ---------- make ----------

  /** The outcome of make: a compile-time error, a panic, or the size to allocate with the
      stored length and capacity. */
  datatype Made = TooBig | Panics | Made(size: nat, length: nat, cap: nat)

  function MakeSlice(t: Target, elemSize: nat, length: Operand, cap: Operand): Made {
    if MaxSliceSize(t, elemSize) == 0 then TooBig
    else
      var limit := Word(t.pointer, MaxSliceAllocationSize(t, elemSize));
      if OutOfBounds(limit, length, cap, cap, Elided(false, true, false)) then Panics
      else
        Made(elemSize * ToUintptr(cap, t.pointer).bits % Pow2(t.pointer),
             ToUintptr(length, t.pointer).bits,
             ToUintptr(cap, t.pointer).bits)
  }

  lemma LimitFits(t: Target, elemSize: nat)
    requires TargetOk(t)
    ensures var n := MaxSliceAllocationSize(t, elemSize);
            n < Pow2(t.integer - 1) && n < Pow2(t.pointer) && elemSize * n < Pow2(t.pointer)
  {
    hide MaxSliceSize, MaxSliceAllocationSize;
    var n := MaxSliceAllocationSize(t, elemSize);
    MaxAllocationExact(t, elemSize, n);
    MaxSliceSizeExact(t, elemSize, n);
  }

  /** On every target, what make stores is ordered and within the limit, and the size it
      allocates is the exact product. */
  lemma MakeSafe(t: Target, elemSize: nat, length: Operand, cap: Operand)
    requires TargetOk(t) && Valid(length.word) && Valid(cap.word)
    ensures var r := MakeSlice(t, elemSize, length, cap);
            r.Made? ==> r.size == elemSize * r.cap < Pow2(t.pointer)
                        && r.length <= r.cap <= MaxSliceAllocationSize(t, elemSize)
  {
    hide Meaning, MaxSliceAllocationSize, MaxSliceSize, ToUintptr, Pow2, OutOfBounds, ExtendInteger;
    var limit := MaxSliceAllocationSize(t, elemSize);
    var w := CheckWidth(Word(t.pointer, limit), length.word, cap.word, cap.word);
    LimitFits(t, elemSize);
    PlainCheck(Word(t.pointer, limit), length, cap, cap);
    SameSkips(Word(t.pointer, limit), length, cap);
    if MakeSlice(t, elemSize, length, cap).Made? {
      ConvertLossless(length, t.pointer, w);
      ConvertLossless(cap, t.pointer, w);
      var c := ToUintptr(cap, t.pointer).bits;
      MulGrows(elemSize, c, limit);
      SmallMod(elemSize * c, Pow2(t.pointer));
    }
  }

  /** Int is no wider than uintptr, or the operand types keep negative numbers apart. */
  ghost predicate Comparable(t: Target, limit: nat, low: Operand, high: Operand, max: Operand, w: nat) {
    t.integer <= t.pointer || SignsSafe(limit, low, high, max, w)
  }

  lemma ComparableSafe(t: Target, limit: nat, low: Operand, high: Operand, max: Operand, w: nat)
    requires TargetOk(t) && Comparable(t, limit, low, high, max, w) && limit < Pow2(t.integer - 1) && t.pointer <= w
    requires 0 < low.word.width <= w && 0 < high.word.width <= w && 0 < max.word.width <= w
    ensures SignsSafe(limit, low, high, max, w)
  {
    hide SignsSafe;
    if t.integer <= t.pointer {
      Pow2Grows(t.integer - 1, w - 1);
      BelowSignBit(limit, low, high, max, w);
    }
  }

  function MakeWidth(t: Target, length: Operand, cap: Operand): nat {
    CheckWidth(Word(t.pointer, 0), length.word, cap.word, cap.word)
  }

  /** What make promises: refused at compile time exactly for elements larger than the address
      space; a panic exactly when the length or capacity is negative, too large or out of
      order; and otherwise both numbers stored unchanged. */
  ghost predicate MakeRight(t: Target, elemSize: nat, length: Operand, cap: Operand) {
    var r := MakeSlice(t, elemSize, length, cap);
    var l, c := Meaning(length.word, length.signed), Meaning(cap.word, cap.signed);
    && (r.TooBig? <==> elemSize >= Pow2(t.pointer))
    && (r.Made? <==> elemSize < Pow2(t.pointer) && 0 <= l <= c <= MaxSliceAllocationSize(t, elemSize))
    && (r.Made? ==> r.size == elemSize * c && r.length == l && r.cap == c)
  }

  /** Make keeps its promise where operand types are comparable. */
  lemma MakeSliceExact(t: Target, elemSize: nat, length: Operand, cap: Operand)
    requires TargetOk(t) && Valid(length.word) && Valid(cap.word)
    requires Comparable(t, MaxSliceAllocationSize(t, elemSize), length, cap, cap, MakeWidth(t, length, cap))
    ensures MakeRight(t, elemSize, length, cap)
  {
    hide OutOfBounds, Meaning, MaxSliceAllocationSize, MaxSliceSize, ToUintptr, Pow2, SignsSafe;
    var limit := Word(t.pointer, MaxSliceAllocationSize(t, elemSize));
    var w := CheckWidth(limit, length.word, cap.word, cap.word);
    MaxSliceSizeExact(t, elemSize, 1);
    OneFits(t);
    LimitFits(t, elemSize);
    ComparableSafe(t, limit.bits, length, cap, cap, w);
    CheckExact(limit, length, cap, cap, Elided(false, true, false));
    MakeSafe(t, elemSize, length, cap);
    if MakeSlice(t, elemSize, length, cap).Made? {
      MeaningConverts(length, t.pointer, w);
      MeaningConverts(cap, t.pointer, w);
    }
  }

  /** The types of two operands: widths and signs. */
  datatype Types = Types(lengthWidth: nat, lengthSigned: bool, capWidth: nat, capSigned: bool)

  function LengthOf(y: Types, bits: nat): Operand {
    Operand(Word(y.lengthWidth, bits), y.lengthSigned)
  }

  function CapOf(y: Types, bits: nat): Operand {
    Operand(Word(y.capWidth, bits), y.capSigned)
  }

  /** The types for which make is right: elements are refused anyway, or negative numbers are
      kept apart. */
  ghost predicate TypesSafe(t: Target, elemSize: nat, y: Types) {
    || elemSize >= Pow2(t.pointer)
    || SignsSafe(MaxSliceAllocationSize(t, elemSize), LengthOf(y, 0), CapOf(y, 0), CapOf(y, 0),
                 MakeWidth(t, LengthOf(y, 0), CapOf(y, 0)))
  }

  /** On every target, for every element size and all operand types: make keeps its promise for
      all lengths and capacities of these types if and only if the types are safe. */
  lemma MakeRightIff(t: Target, elemSize: nat, y: Types)
    requires TargetOk(t) && y.lengthWidth > 0 && y.capWidth > 0
    ensures TypesSafe(t, elemSize, y) <==>
              forall l: nat, c: nat :: l < Pow2(y.lengthWidth) && c < Pow2(y.capWidth) ==>
                MakeRight(t, elemSize, LengthOf(y, l), CapOf(y, c))
  {
    hide MakeRight, MaxSliceAllocationSize, Pow2, SignsSafe;
    if TypesSafe(t, elemSize, y) {
      forall l: nat, c: nat | l < Pow2(y.lengthWidth) && c < Pow2(y.capWidth)
        ensures MakeRight(t, elemSize, LengthOf(y, l), CapOf(y, c))
      {
        SafeTypesRight(t, elemSize, y, l, c);
      }
    } else {
      var l, c := UnsafeTypesWrong(t, elemSize, y);
    }
  }

  lemma SafeTypesRight(t: Target, elemSize: nat, y: Types, l: nat, c: nat)
    requires TargetOk(t) && y.lengthWidth > 0 && y.capWidth > 0 && TypesSafe(t, elemSize, y)
    requires l < Pow2(y.lengthWidth) && c < Pow2(y.capWidth)
    ensures MakeRight(t, elemSize, LengthOf(y, l), CapOf(y, c))
  {
    hide MaxSliceAllocationSize, Pow2, OutOfBounds, ToUintptr, Meaning;
    if elemSize >= Pow2(t.pointer) {
      hide MaxSliceSize;
      MaxSliceSizeExact(t, elemSize, 1);
      OneFits(t);
    } else {
      MakeSliceExact(t, elemSize, LengthOf(y, l), CapOf(y, c));
    }
  }

  /** The most negative number of a type, and the bits of its extension. */
  lemma MostNegative(width: nat, w: nat)
    requires 0 < width <= w
    ensures var v := Word(width, Pow2(width - 1));
            Valid(v) && Meaning(v, true) < 0 && ExtendInteger(v, true, w).bits == Pow2(w) - Pow2(width - 1)
  {
    Pow2Half(width);
    Pow2Grows(width, w);
  }

  /** For unsafe types there are a length and a capacity for which make is wrong. */
  lemma UnsafeTypesWrong(t: Target, elemSize: nat, y: Types) returns (l: nat, c: nat)
    requires TargetOk(t) && y.lengthWidth > 0 && y.capWidth > 0 && !TypesSafe(t, elemSize, y)
    ensures l < Pow2(y.lengthWidth) && c < Pow2(y.capWidth)
    ensures !MakeRight(t, elemSize, LengthOf(y, l), CapOf(y, c))
  {
    hide MaxSliceAllocationSize, Pow2, ExtendInteger, Meaning, MakeRight, OutOfBounds;
    var limit := MaxSliceAllocationSize(t, elemSize);
    var w := MakeWidth(t, LengthOf(y, 0), CapOf(y, 0));
    if !SignSafe(limit, CapOf(y, 0), w) {
      MostNegative(y.capWidth, w);
      l, c := 0, Pow2(y.capWidth - 1);
      SmallBits(y.lengthWidth, 0, y.lengthSigned, w);
      WrongIfMade(t, elemSize, LengthOf(y, l), CapOf(y, c));
    } else {
      MostNegative(y.lengthWidth, w);
      l, c := Pow2(y.lengthWidth - 1), Min(limit, Reach(CapOf(y, 0)));
      SmallBits(y.capWidth, c, y.capSigned, w);
      WrongIfMade(t, elemSize, LengthOf(y, l), CapOf(y, c));
    }
  }

  /** A number that a type holds is extended to itself. */
  lemma SmallBits(width: nat, bits: nat, signed: bool, w: nat)
    requires 0 < width <= w && bits <= Reach(Operand(Word(width, 0), signed))
    ensures Valid(Word(width, bits)) && ExtendInteger(Word(width, bits), signed, w).bits == bits
  {
    Pow2Half(width);
  }

  /** Accepting a negative operand is wrong. */
  lemma WrongIfMade(t: Target, elemSize: nat, length: Operand, cap: Operand)
    requires TargetOk(t) && elemSize < Pow2(t.pointer)
    requires Meaning(length.word, length.signed) < 0 || Meaning(cap.word, cap.signed) < 0
    requires var w := MakeWidth(t, length, cap);
             ExtendInteger(length.word, length.signed, w).bits <= ExtendInteger(cap.word, cap.signed, w).bits
               <= MaxSliceAllocationSize(t, elemSize)
    ensures !MakeRight(t, elemSize, length, cap)
  {
    hide MaxSliceAllocationSize, MaxSliceSize, Pow2, ExtendInteger, Meaning, OutOfBounds, ToUintptr;
    MaxSliceSizeExact(t, elemSize, 1);
    OneFits(t);
    var limit := Word(t.pointer, MaxSliceAllocationSize(t, elemSize));
    PlainCheck(limit, length, cap, cap);
    SameSkips(limit, length, cap);
  }

  lemma SameSkips(limit: Word, length: Operand, cap: Operand)
    ensures OutOfBounds(limit, length, cap, cap, Elided(false, true, false))
        <==> OutOfBounds(limit, length, cap, cap, Elided(false, false, false))
  {
    ElisionHarmless(limit, length, cap, cap, Elided(false, true, false));
  }

  lemma OneFits(t: Target)
    requires TargetOk(t)
    ensures 1 < Pow2(t.integer - 1) && 1 < Pow2(t.pointer)
  {
    Pow2Grows(1, t.integer - 1);
    Pow2Grows(1, t.pointer);
  }

  /** A number in range survives the conversion. */
  lemma MeaningConverts(o: Operand, pointer: nat, w: nat)
    requires Valid(o.word) && o.word.width <= w && pointer <= w
    requires 0 <= Meaning(o.word, o.signed) < Pow2(pointer)
    ensures ToUintptr(o, pointer).bits == Meaning(o.word, o.signed)
  {
    hide ToUintptr, Pow2;
    ExtendKeeps(o.word, o.signed, w);
    BitsOfMeaning(ExtendInteger(o.word, o.signed, w), o.signed);
    ConvertLossless(o, pointer, w);
  }

  /** Where int is wider than uintptr the promise fails: with 16-bit pointers, making bytes
      with an int16 length of -1 does not panic. */
  lemma NegativeLengthAccepted()
    ensures var minusOne := Operand(Word(16, 65535), true);
            && Valid(minusOne.word) && Meaning(minusOne.word, true) == -1
            && MakeSlice(Target(16, 32), 1, minusOne, minusOne) == Made(65535, 65535, 65535)
  {
    assert Pow2(8) == 256 by {
      assert Pow2(4) == 16;
    }
    assert Pow2(16) == 65536 by {
      assert Pow2(12) == 4096;
    }
    assert Pow2(15) == 32768;
    MaxSliceSizeExact(Target(16, 32), 1, 65535);
    MaxSliceSizeExact(Target(16, 32), 1, 65536);
    Pow2Grows(16, 31);
    assert MaxSliceSize(Target(16, 32), 1) == 65535;
  }

  // ---------- slices ----------

  /** The run-time representation of a slice. */
  datatype SliceValue = SliceValue(ptr: nat, length: nat, cap: nat)

  /** A slice within the address space, with a capacity that fits in an int. */
  ghost predicate SliceOk(t: Target, elemSize: nat, s: SliceValue) {
    && t.integer > 0 && s.length <= s.cap < Pow2(t.integer - 1)
    && s.cap < Pow2(t.pointer) && s.ptr + elemSize * s.cap < Pow2(t.pointer)
  }

  /** The elements of one slice are among those of another. */
  ghost predicate Inside(elemSize: nat, r: SliceValue, s: SliceValue) {
    s.ptr <= r.ptr && r.ptr + elemSize * r.cap <= s.ptr + elemSize * s.cap
  }

  /** The bounds of a slice expression, where given. */
  datatype Bounds = Bounds(low: Option<Operand>, high: Option<Operand>, max: Option<Operand>)

  ghost predicate BoundsOk(b: Bounds) {
    && (b.low.Some? ==> Valid(b.low.value.word))
    && (b.high.Some? ==> Valid(b.high.value.word))
    && (b.max.Some? ==> Valid(b.max.value.word))
  }

  /** A bound as it is used: extended to a uintptr, or a default of that type. */
  function Bound(o: Option<Operand>, pointer: nat, default: nat): (r: Operand)
    ensures r.word.width >= pointer
  {
    match o
    case Some(v) => Operand(ExtendInteger(v.word, v.signed, pointer), v.signed)
    case None => Operand(Word(pointer, default), false)
  }

  function NumberOf(o: Option<Operand>, default: nat): int {
    match o
    case Some(v) => Meaning(v.word, v.signed)
    case None => default
  }

  lemma BoundMeans(o: Option<Operand>, pointer: nat, default: nat)
    requires pointer > 0 && default < Pow2(pointer) && (o.Some? ==> Valid(o.value.word))
    ensures Valid(Bound(o, pointer, default).word)
    ensures Meaning(Bound(o, pointer, default).word, Bound(o, pointer, default).signed) == NumberOf(o, default)
  {
    if o.Some? {
      ExtendKeeps(o.value.word, o.value.signed, pointer);
    }
  }

  /** Truncation of what is wider than a uintptr. */
  function Narrow(v: Word, pointer: nat): Word {
    if v.width > pointer then Trunc(v, pointer) else v
  }

  lemma NarrowConverts(o: Operand, pointer: nat)
    requires Valid(o.word) && o.word.width >= pointer
    ensures Narrow(o.word, pointer) == ToUintptr(o, pointer)
  {
  }

  /** The arithmetic of slicing, at the width of a pointer. */
  function Cut(elemSize: nat, ptr: nat, low: nat, high: nat, max: nat, modulus: nat): SliceValue
    requires modulus > 0
  {
    SliceValue((ptr + elemSize * low) % modulus, (high - low) % modulus, (max - low) % modulus)
  }

  lemma CutExact(elemSize: nat, ptr: nat, low: nat, high: nat, max: nat, modulus: nat)
    requires low <= high <= max < modulus && ptr + elemSize * low < modulus
    ensures Cut(elemSize, ptr, low, high, max, modulus) == SliceValue(ptr + elemSize * low, high - low, max - low)
  {
    SmallMod(ptr + elemSize * low, modulus);
    SmallMod(high - low, modulus);
    SmallMod(max - low, modulus);
  }

  /** The three operands of the check for a slice expression. */
  function Checked(t: Target, s: SliceValue, b: Bounds): (Operand, Operand, Operand) {
    (Bound(b.low, t.pointer, 0), Bound(b.high, t.pointer, s.length), Bound(b.max, t.pointer, s.cap))
  }

  function SliceWidth(t: Target, s: SliceValue, b: Bounds): nat {
    var o := Checked(t, s, b);
    CheckWidth(Word(t.pointer, s.cap), o.0.word, o.1.word, o.2.word)
  }

  /** The result of slicing a slice or, with length and capacity equal, an array. */
  function Slice(t: Target, elemSize: nat, s: SliceValue, b: Bounds): Option<SliceValue> {
    var o := Checked(t, s, b);
    var skip := Elided(b.high.None? && b.max.None?, false, false);
    if OutOfBounds(Word(t.pointer, s.cap), o.0, o.1, o.2, skip) then None
    else
      Some(Cut(elemSize, s.ptr, Narrow(o.0.word, t.pointer).bits, Narrow(o.1.word, t.pointer).bits,
               Narrow(o.2.word, t.pointer).bits, Pow2(t.pointer)))
  }

  /** The rule for the three numbers of a slice expression. */
  ghost predicate InRange(s: SliceValue, b: Bounds) {
    0 <= NumberOf(b.low, 0) <= NumberOf(b.high, s.length) <= NumberOf(b.max, s.cap) <= s.cap
  }

  lemma CheckedOk(t: Target, elemSize: nat, s: SliceValue, b: Bounds)
    requires TargetOk(t) && SliceOk(t, elemSize, s) && BoundsOk(b)
    ensures var o := Checked(t, s, b);
            && Operands(Word(t.pointer, s.cap), o.0, o.1, o.2)
            && Meaning(o.0.word, o.0.signed) == NumberOf(b.low, 0)
            && Meaning(o.1.word, o.1.signed) == NumberOf(b.high, s.length)
            && Meaning(o.2.word, o.2.signed) == NumberOf(b.max, s.cap)
            && SkipsOk(Word(t.pointer, s.cap), o.1, o.2, SliceWidth(t, s, b),
                       Elided(b.high.None? && b.max.None?, false, false))
  {
    hide Meaning, Pow2, NumberOf;
    BoundMeans(b.low, t.pointer, 0);
    BoundMeans(b.high, t.pointer, s.length);
    BoundMeans(b.max, t.pointer, s.cap);
  }

  /** What passing the check says about the extended bits. */
  lemma PassedBits(capacity: Word, low: Operand, high: Operand, max: Operand, skip: Elided)
    requires SkipsOk(capacity, high, max, CheckWidth(capacity, low.word, high.word, max.word), skip)
    requires !OutOfBounds(capacity, low, high, max, skip)
    ensures var w := CheckWidth(capacity, low.word, high.word, max.word);
            ExtendInteger(low.word, low.signed, w).bits <= ExtendInteger(high.word, high.signed, w).bits
              <= ExtendInteger(max.word, max.signed, w).bits <= capacity.bits
  {
    ElisionHarmless(capacity, low, high, max, skip);
  }

  /** The offsets that slicing computes with, when it does not panic. */
  lemma SlicedBits(t: Target, elemSize: nat, s: SliceValue, b: Bounds)
    requires TargetOk(t) && SliceOk(t, elemSize, s) && BoundsOk(b) && Slice(t, elemSize, s, b).Some?
    ensures var o := Checked(t, s, b);
            var l, h := ToUintptr(o.0, t.pointer).bits, ToUintptr(o.1, t.pointer).bits;
            var m := ToUintptr(o.2, t.pointer).bits;
            && l <= h <= m <= s.cap
            && Slice(t, elemSize, s, b).value == Cut(elemSize, s.ptr, l, h, m, Pow2(t.pointer))
  {
    hide OutOfBounds, Pow2, ExtendInteger, Narrow, ToUintptr, Cut, SkipsOk, Bound;
    var o, w := Checked(t, s, b), SliceWidth(t, s, b);
    CheckedOk(t, elemSize, s, b);
    PassedBits(Word(t.pointer, s.cap), o.0, o.1, o.2, Elided(b.high.None? && b.max.None?, false, false));
    ConvertLossless(o.0, t.pointer, w);
    ConvertLossless(o.1, t.pointer, w);
    ConvertLossless(o.2, t.pointer, w);
    NarrowConverts(o.0, t.pointer);
    NarrowConverts(o.1, t.pointer);
    NarrowConverts(o.2, t.pointer);
  }

  lemma PartInside(t: Target, elemSize: nat, s: SliceValue, low: nat, high: nat, max: nat)
    requires SliceOk(t, elemSize, s) && low <= high <= max <= s.cap
    ensures var r := Cut(elemSize, s.ptr, low, high, max, Pow2(t.pointer));
            && r == SliceValue(s.ptr + elemSize * low, high - low, max - low)
            && SliceOk(t, elemSize, r) && Inside(elemSize, r, s)
  {
    hide Pow2, Cut;
    PartOf(elemSize, low, max, s.cap);
    CutExact(elemSize, s.ptr, low, high, max, Pow2(t.pointer));
  }

  lemma PartOf(elemSize: nat, low: nat, max: nat, cap: nat)
    requires low <= max <= cap
    ensures elemSize * low + elemSize * (max - low) == elemSize * max <= elemSize * cap
  {
    MulGrows(elemSize, max, cap);
  }

  /** On every target, a slice that results from slicing is within the old one. */
  lemma SliceSafe(t: Target, elemSize: nat, s: SliceValue, b: Bounds)
    requires TargetOk(t) && SliceOk(t, elemSize, s) && BoundsOk(b)
    ensures var r := Slice(t, elemSize, s, b);
            r.Some? ==> SliceOk(t, elemSize, r.value) && Inside(elemSize, r.value, s)
  {
    hide Slice, SliceOk, Inside, Cut, ToUintptr;
    if Slice(t, elemSize, s, b).Some? {
      SlicedBits(t, elemSize, s, b);
      var o := Checked(t, s, b);
      PartInside(t, elemSize, s, ToUintptr(o.0, t.pointer).bits, ToUintptr(o.1, t.pointer).bits,
                 ToUintptr(o.2, t.pointer).bits);
    }
  }

  /** What slicing promises: a panic exactly when Go's rule is broken; otherwise the new length,
      capacity and pointer are the exact differences and sum. */
  ghost predicate SliceRight(t: Target, elemSize: nat, s: SliceValue, b: Bounds) {
    var r := Slice(t, elemSize, s, b);
    var low, high, max := NumberOf(b.low, 0), NumberOf(b.high, s.length), NumberOf(b.max, s.cap);
    && (r.Some? <==> InRange(s, b))
    && (r.Some? ==> r.value.ptr == s.ptr + elemSize * low && r.value.length == high - low && r.value.cap == max - low)
  }

  /** Slicing is right for operands that the check does not let through as negative numbers. */
  lemma SliceRightIf(t: Target, elemSize: nat, s: SliceValue, b: Bounds)
    requires TargetOk(t) && SliceOk(t, elemSize, s) && BoundsOk(b)
    requires var o := Checked(t, s, b); BitsInOrder(Word(t.pointer, s.cap), o.0, o.1, o.2) ==> NoneNegative(o.0, o.1, o.2)
    ensures SliceRight(t, elemSize, s, b)
  {
    hide OutOfBounds, Meaning, Pow2, NumberOf, Narrow, SkipsOk, Bound, Cut, ToUintptr, Inside, BitsInOrder, NoneNegative;
    var o, w := Checked(t, s, b), SliceWidth(t, s, b);
    CheckedOk(t, elemSize, s, b);
    ExactIf(Word(t.pointer, s.cap), o.0, o.1, o.2, Elided(b.high.None? && b.max.None?, false, false));
    if Slice(t, elemSize, s, b).Some? {
      SlicedBits(t, elemSize, s, b);
      MeaningConverts(o.0, t.pointer, w);
      MeaningConverts(o.1, t.pointer, w);
      MeaningConverts(o.2, t.pointer, w);
      PartInside(t, elemSize, s, ToUintptr(o.0, t.pointer).bits, ToUintptr(o.1, t.pointer).bits,
                 ToUintptr(o.2, t.pointer).bits);
    }
  }

  /** The result of slicing again and again. */
  function SliceAll(t: Target, elemSize: nat, s: SliceValue, steps: seq<Bounds>): Option<SliceValue>
    decreases |steps|
  {
    if steps == [] then Some(s)
    else
      var r := Slice(t, elemSize, s, steps[0]);
      if r.None? then None else SliceAll(t, elemSize, r.value, steps[1..])
  }

  /** However often a slice is sliced again, the result stays within the memory of the first. */
  lemma {:induction false} SliceAllInside(t: Target, elemSize: nat, s: SliceValue, steps: seq<Bounds>)
    requires TargetOk(t) && SliceOk(t, elemSize, s) && forall b :: b in steps ==> BoundsOk(b)
    ensures SliceAll(t, elemSize, s, steps).Some? ==>
              var r := SliceAll(t, elemSize, s, steps).value;
              SliceOk(t, elemSize, r) && Inside(elemSize, r, s)
    decreases |steps|
  {
    hide Slice, SliceOk;
    if steps != [] {
      assert steps[0] in steps;
      SliceSafe(t, elemSize, s, steps[0]);
      if Slice(t, elemSize, s, steps[0]).Some? {
        SliceAllInside(t, elemSize, Slice(t, elemSize, s, steps[0]).value, steps[1..]);
      }
    }
  }

  /** Every slice obtained from a made one lies within the block that make allocated. */
  lemma MadeStaysInside(t: Target, elemSize: nat, length: Operand, cap: Operand, ptr: nat, steps: seq<Bounds>)
    requires TargetOk(t) && Valid(length.word) && Valid(cap.word) && forall b :: b in steps ==> BoundsOk(b)
    requires var m := MakeSlice(t, elemSize, length, cap); m.Made? && ptr + m.size < Pow2(t.pointer)
    ensures var m := MakeSlice(t, elemSize, length, cap);
            var r := SliceAll(t, elemSize, SliceValue(ptr, m.length, m.cap), steps);
            r.Some? ==> ptr <= r.value.ptr && r.value.ptr + elemSize * r.value.cap <= ptr + m.size
  {
    hide MakeSlice, Slice, SliceAll, MaxSliceAllocationSize, Pow2;
    LimitFits(t, elemSize);
    MakeSafe(t, elemSize, length, cap);
    var m := MakeSlice(t, elemSize, length, cap);
    SliceAllInside(t, elemSize, SliceValue(ptr, m.length, m.cap), steps);
  }

  // ---------- strings ----------

  datatype StringValue = StringValue(ptr: nat, length: nat)

  /** The result of slicing a string: its upper bound also serves as the maximum, which is
      read as a uintptr. */
  function SliceString(t: Target, s: StringValue, lowBound: Option<Operand>, highBound: Option<Operand>)
    : Option<StringValue>
  {
    var low, high := Bound(lowBound, t.pointer, 0), Bound(highBound, t.pointer, s.length);
    if OutOfBounds(Word(t.pointer, s.length), low, high, Operand(high.word, false), Elided(false, false, false)) then None
    else
      var r := Cut(1, s.ptr, Narrow(low.word, t.pointer).bits, Narrow(high.word, t.pointer).bits,
                   Narrow(high.word, t.pointer).bits, Pow2(t.pointer));
      Some(StringValue(r.ptr, r.length))
  }

  /** What slicing a string promises: a panic exactly when 0 <= low <= high <= len is broken;
      otherwise the result is the part of the string from low to high. */
  ghost predicate StringRight(t: Target, s: StringValue, lowBound: Option<Operand>, highBound: Option<Operand>) {
    var r := SliceString(t, s, lowBound, highBound);
    var low, high := NumberOf(lowBound, 0), NumberOf(highBound, s.length);
    && (r.Some? <==> 0 <= low <= high <= s.length)
    && (r.Some? ==> r.value.ptr == s.ptr + low && r.value.length == high - low)
  }

  lemma StringRightIf(t: Target, s: StringValue, lowBound: Option<Operand>, highBound: Option<Operand>)
    requires TargetOk(t) && SliceOk(t, 1, SliceValue(s.ptr, s.length, s.length))
    requires BoundsOk(Bounds(lowBound, highBound, None))
    requires var low, high := Bound(lowBound, t.pointer, 0), Bound(highBound, t.pointer, s.length);
             BitsInOrder(Word(t.pointer, s.length), low, high, Operand(high.word, false)) ==>
               NoneNegative(low, high, Operand(high.word, false))
    ensures StringRight(t, s, lowBound, highBound)
  {
    hide OutOfBounds, Meaning, Pow2, Narrow, Bound, NumberOf, Cut, ToUintptr, BitsInOrder, NoneNegative;
    var low, high := Bound(lowBound, t.pointer, 0), Bound(highBound, t.pointer, s.length);
    var length := Word(t.pointer, s.length);
    var w := CheckWidth(length, low.word, high.word, high.word);
    BoundMeans(lowBound, t.pointer, 0);
    BoundMeans(highBound, t.pointer, s.length);
    ExactIf(length, low, high, Operand(high.word, false), Elided(false, false, false));
    BitsOfMeaning(high.word, high.signed);
    BitsOfMeaning(high.word, false);
    UnsignedExtend(high.word, w);
    if SliceString(t, s, lowBound, highBound).Some? {
      MeaningConverts(low, t.pointer, w);
      MeaningConverts(high, t.pointer, w);
      NarrowConverts(low, t.pointer);
      NarrowConverts(high, t.pointer);
      CutExact(1, s.ptr, ToUintptr(low, t.pointer).bits, ToUintptr(high, t.pointer).bits,
               ToUintptr(high, t.pointer).bits, Pow2(t.pointer));
    }
  }
}
