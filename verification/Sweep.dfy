/**
 The sweep over a memory section: which line entry, or gap, each byte of the section is
 charged to.  Addresses are taken not to wrap around.
 */
module Sweep {
  import opened Powers

  /** addressLine */
  datatype Line = Line(address: nat, length: nat, align: nat, file: string, isVariable: bool)

  datatype MemoryType = CodeSection | DataSection | RODataSection | BSSSection | StackSection

  datatype Section = Section(kind: MemoryType, address: nat, size: nat, align: nat)

  /** Whom a chunk is charged to. */
  datatype Owner = ByLine(i: nat) | Padding | Unknown

  /** The bytes lo <= x < hi are charged to the owner; for a gap, align is the alignment of
      what follows it. */
  datatype Charge = Charge(lo: nat, hi: nat, owner: Owner, align: nat)

  predicate Inside(s: Section, l: Line) {
    s.address <= l.address && l.address + l.length <= s.address + s.size
  }

  predicate Covers(s: Section, l: Line, x: nat) {
    Inside(s, l) && l.address <= x < l.address + l.length
  }

  predicate InLine(l: Line, x: nat) {
    l.address <= x < l.address + l.length
  }

  predicate InSection(s: Section, x: nat) {
    s.address <= x < s.address + s.size
  }

  /** A line counts for a section exactly if all its bytes are in it. */
  lemma CoversMeaning(s: Section, l: Line, x: nat)
    ensures Covers(s, l, x) <==> InLine(l, x) && forall y: nat :: InLine(l, y) ==> InSection(s, y)
  {
    if InLine(l, x) {
      assert InLine(l, l.address) && InLine(l, l.address + l.length - 1);
    }
  }

  /** Line i is the first line of the list within the section that covers x. */
  ghost predicate FirstCover(s: Section, lines: seq<Line>, x: nat, i: nat) {
    && i < |lines| && Covers(s, lines[i], x)
    && (forall j :: 0 <= j < i ==> !Covers(s, lines[j], x))
  }

  ghost predicate Uncovered(s: Section, lines: seq<Line>, x: nat) {
    forall j :: 0 <= j < |lines| ==> !Covers(s, lines[j], x)
  }

  ghost predicate SortedByAddress(lines: seq<Line>) {
    forall i, j :: 0 <= i < j < |lines| ==> lines[i].address <= lines[j].address
  }

  /** Each byte of the charge belongs to its owner. */
  ghost predicate OwnerRight(s: Section, lines: seq<Line>, c: Charge) {
    match c.owner
    case ByLine(i) => forall x: nat :: c.lo <= x < c.hi ==> FirstCover(s, lines, x, i)
    case _ => forall x: nat :: c.lo <= x < c.hi ==> Uncovered(s, lines, x)
  }

  /** A gap is padding exactly when the alignment of the line, or section end, that follows
      explains it. */
  ghost predicate GapRight(s: Section, lines: seq<Line>, c: Charge) {
    !c.owner.ByLine? ==>
      && (c.owner.Padding? <==> AlignmentGap(c.lo, c.hi, c.align))
      && (|| (c.hi == s.address + s.size && c.align == s.align)
          || exists i :: 0 <= i < |lines| && Inside(s, lines[i]) && lines[i].address == c.hi && lines[i].align == c.align)
  }

  /** The charges follow each other without gap or overlap from lo to hi. */
  ghost predicate Tiles(charges: seq<Charge>, lo: nat, hi: nat)
    decreases |charges|
  {
    if charges == [] then lo == hi
    else
      var last := charges[|charges| - 1];
      last.hi == hi && last.lo <= hi && Tiles(charges[..|charges| - 1], lo, last.lo)
  }

  /** Every byte of the section is charged once, to the first line covering it if there is
      one and to a gap otherwise. */
  ghost predicate Attributed(s: Section, lines: seq<Line>, charges: seq<Charge>) {
    && Tiles(charges, s.address, s.address + s.size)
    && (forall k :: 0 <= k < |charges| ==> OwnerRight(s, lines, charges[k]))
    && (forall k :: 0 <= k < |charges| ==> GapRight(s, lines, charges[k]))
  }

  function Charged(charges: seq<Charge>): int {
    if charges == [] then 0
    else
      var last := charges[|charges| - 1];
      Charged(charges[..|charges| - 1]) + (last.hi - last.lo)
  }

  lemma {:induction false} TilesSum(charges: seq<Charge>, lo: nat, hi: nat)
    requires Tiles(charges, lo, hi)
    ensures Charged(charges) == hi - lo
    decreases |charges|
  {
    if charges != [] {
      TilesSum(charges[..|charges| - 1], lo, charges[|charges| - 1].lo);
    }
  }

  lemma {:induction false} TilesContain(charges: seq<Charge>, lo: nat, hi: nat, x: nat) returns (k: nat)
    requires Tiles(charges, lo, hi) && lo <= x < hi
    ensures k < |charges| && charges[k].lo <= x < charges[k].hi
    decreases |charges|
  {
    var last := charges[|charges| - 1];
    if x >= last.lo {
      k := |charges| - 1;
    } else {
      k := TilesContain(charges[..|charges| - 1], lo, last.lo, x);
    }
  }

  lemma {:induction false} TilesBelow(charges: seq<Charge>, lo: nat, hi: nat, k: nat)
    requires Tiles(charges, lo, hi) && k < |charges|
    ensures lo <= charges[k].lo <= charges[k].hi <= hi
    decreases |charges|
  {
    var init := charges[..|charges| - 1];
    if k < |charges| - 1 {
      TilesBelow(init, lo, charges[|charges| - 1].lo, k);
    } else if init != [] {
      TilesBelow(init, lo, charges[k].lo, |init| - 1);
    }
  }

  /** No byte is charged twice. */
  lemma {:induction false} TilesDisjoint(charges: seq<Charge>, lo: nat, hi: nat, j: nat, k: nat)
    requires Tiles(charges, lo, hi) && j < k < |charges|
    ensures charges[j].hi <= charges[k].lo
    decreases |charges|
  {
    var init := charges[..|charges| - 1];
    if k == |charges| - 1 {
      TilesBelow(init, lo, charges[k].lo, j);
    } else {
      TilesDisjoint(init, lo, charges[|charges| - 1].lo, j, k);
    }
  }

  /** The charges decide the owner of every byte of the section. */
  lemma ByteOwner(s: Section, lines: seq<Line>, charges: seq<Charge>, x: nat) returns (k: nat)
    requires Attributed(s, lines, charges) && s.address <= x < s.address + s.size
    ensures k < |charges| && charges[k].lo <= x < charges[k].hi
    ensures forall j :: 0 <= j < |charges| && charges[j].lo <= x < charges[j].hi ==> j == k
    ensures forall i :: FirstCover(s, lines, x, i) <==> charges[k].owner == ByLine(i)
  {
    k := TilesContain(charges, s.address, s.address + s.size, x);
    forall j | 0 <= j < |charges| && charges[j].lo <= x < charges[j].hi ensures j == k {
      if j < k {
        TilesDisjoint(charges, s.address, s.address + s.size, j, k);
      } else if k < j {
        TilesDisjoint(charges, s.address, s.address + s.size, k, j);
      }
    }
    assert OwnerRight(s, lines, charges[k]);
    assert !charges[k].owner.ByLine? ==> Uncovered(s, lines, x);
    forall i: nat | FirstCover(s, lines, x, i) ensures charges[k].owner == ByLine(i) {
      if charges[k].owner.ByLine? {
        assert FirstCover(s, lines, x, charges[k].owner.i);
        OneFirst(s, lines, x, i, charges[k].owner.i);
      }
    }
  }

  lemma OneFirst(s: Section, lines: seq<Line>, x: nat, i: nat, j: nat)
    requires FirstCover(s, lines, x, i) && FirstCover(s, lines, x, j)
    ensures i == j
  {
  }

  // ---------- alignment ----------

  /** x &^ y on the bits of natural numbers. */
  function AndNot(x: nat, y: nat): nat {
    if x == 0 then 0
    else 2 * AndNot(x / 2, y / 2) + if x % 2 == 1 && y % 2 == 0 then 1 else 0
  }

  /** Clearing the low k bits. */
  lemma {:induction false} AndNotLow(x: nat, k: nat)
    ensures AndNot(x, Pow2(k) - 1) == x - x % Pow2(k)
    decreases x, k
  {
    if x == 0 {
    } else if k == 0 {
      AndNotLow(x / 2, 0);
      assert (Pow2(0) - 1) / 2 == 0;
    } else {
      var p := Pow2(k - 1);
      AndNotLow(x / 2, k - 1);
      assert (Pow2(k) - 1) / 2 == p - 1 && (Pow2(k) - 1) % 2 == 1;
      HalfMod(x, p);
    }
  }

  lemma HalfMod(x: nat, p: nat)
    requires p > 0
    ensures x % (2 * p) == 2 * ((x / 2) % p) + x % 2
  {
    var h := x / 2;
    var q, r := h / p, h % p;
    assert h == q * p + r;
    assert x == (2 * p) * q + (2 * r + x % 2) by {
      assert 2 * (q * p) == (2 * p) * q;
    }
    ModUnique(x, 2 * p, q, 2 * r + x % 2);
  }

  lemma ModUnique(x: nat, m: nat, q: nat, r: nat)
    requires m > 0 && x == m * q + r && r < m
    ensures x % m == r
  {
    var d := x / m - q;
    assert x == m * (x / m) + x % m;
    assert m * d == r - x % m by {
      assert m * (x / m) - m * q == m * d;
    }
    TimesSign(m, d);
  }

  lemma TimesSign(m: int, d: int)
    requires m > 0
    ensures d >= 1 ==> m * d >= m
    ensures d <= -1 ==> m * d <= -m
  {
  }

  /** The next address with the given alignment, as the source computes it. */
  function AlignUp(addr: nat, align: nat): nat
    requires align > 0
  {
    AndNot(addr + align - 1, align - 1)
  }

  /** Is the gap from addr up to next explained by alignment? */
  predicate AlignmentGap(addr: nat, next: nat, align: nat) {
    align > 1 && AlignUp(addr, align) >= next
  }

  /** For a power of two, a gap counts as padding exactly when no aligned address lies in it. */
  lemma AlignmentGapMeaning(addr: nat, next: nat, k: nat)
    requires k > 0 && addr < next
    ensures AlignmentGap(addr, next, Pow2(k)) <==> forall m: nat :: addr <= m < next ==> m % Pow2(k) != 0
  {
    var a := Pow2(k);
    assert a > 1;
    AndNotLow(addr + a - 1, k);
    var up := AlignUp(addr, a);
    UpIsNext(addr, a, up);
    if up < next {
      assert up % a == 0;
    }
    forall m: nat | addr <= m < next && up >= next ensures m % a != 0 {
      NoMultipleBelow(addr, a, up, m);
    }
  }

  lemma UpIsNext(addr: nat, a: nat, up: nat)
    requires a > 0 && up == (addr + a - 1) - (addr + a - 1) % a
    ensures addr <= up < addr + a && up % a == 0
  {
    var x := addr + a - 1;
    assert x == a * (x / a) + x % a;
    assert up == a * (x / a) + 0;
    ModUnique(up, a, x / a, 0);
  }

  lemma NoMultipleBelow(addr: nat, a: nat, up: nat, m: nat)
    requires a > 0 && up % a == 0 && addr <= m < up < addr + a
    ensures m % a != 0
  {
    var q := up / a;
    assert up == a * q;
    assert q >= 1;
    assert m == a * (q - 1) + (a - (up - m)) by {
      assert a * (q - 1) == a * q - a;
    }
    ModUnique(m, a, q - 1, a - (up - m));
  }

  // ---------- the steps of the sweep ----------

  /** The state of the sweep before line n: everything below addr is charged. */
  ghost predicate SweepInv(s: Section, lines: seq<Line>, n: nat, addr: nat, charges: seq<Charge>) {
    && n <= |lines|
    && Tiles(charges, s.address, addr)
    && (forall k :: 0 <= k < |charges| ==> OwnerRight(s, lines, charges[k]))
    && (forall k :: 0 <= k < |charges| ==> GapRight(s, lines, charges[k]))
    && s.address <= addr <= s.address + s.size
    && (forall j :: 0 <= j < n && Inside(s, lines[j]) ==> lines[j].address + lines[j].length <= addr)
  }

  /** The charge for a gap. */
  function GapCharge(addr: nat, next: nat, align: nat): Charge {
    Charge(addr, next, if AlignmentGap(addr, next, align) then Padding else Unknown, align)
  }

  lemma {:induction false} TilesAppend(charges: seq<Charge>, lo: nat, mid: nat, c: Charge)
    requires Tiles(charges, lo, mid) && c.lo == mid <= c.hi
    ensures Tiles(charges + [c], lo, c.hi)
  {
    assert (charges + [c])[..|charges|] == charges;
  }

  lemma GapStep(s: Section, lines: seq<Line>, n: nat, addr: nat, charges: seq<Charge>)
    requires SortedByAddress(lines) && SweepInv(s, lines, n, addr, charges)
    requires n < |lines| && Inside(s, lines[n]) && addr < lines[n].address
    ensures SweepInv(s, lines, n, lines[n].address, charges + [GapCharge(addr, lines[n].address, lines[n].align)])
  {
    hide AlignmentGap;
    var c := GapCharge(addr, lines[n].address, lines[n].align);
    TilesAppend(charges, s.address, addr, c);
    forall x: nat, j | c.lo <= x < c.hi && 0 <= j < |lines| ensures !Covers(s, lines[j], x) {
      if j >= n {
        assert lines[n].address <= lines[j].address;
      }
    }
    assert OwnerRight(s, lines, c) && GapRight(s, lines, c);
  }

  lemma LineStep(s: Section, lines: seq<Line>, n: nat, addr: nat, charges: seq<Charge>)
    requires SweepInv(s, lines, n, addr, charges) && n < |lines| && Inside(s, lines[n])
    requires lines[n].address <= addr <= lines[n].address + lines[n].length
    ensures var end := lines[n].address + lines[n].length;
            SweepInv(s, lines, n + 1, end, charges + [Charge(addr, end, ByLine(n), 0)])
  {
    var c := Charge(addr, lines[n].address + lines[n].length, ByLine(n), 0);
    TilesAppend(charges, s.address, addr, c);
    forall x: nat | c.lo <= x < c.hi ensures FirstCover(s, lines, x, n) {
    }
    assert OwnerRight(s, lines, c) && GapRight(s, lines, c);
  }

  lemma EndStep(s: Section, lines: seq<Line>, addr: nat, charges: seq<Charge>)
    requires SweepInv(s, lines, |lines|, addr, charges)
    ensures var end := s.address + s.size;
            Attributed(s, lines, if addr < end then charges + [GapCharge(addr, end, s.align)] else charges)
  {
    hide AlignmentGap;
    var end := s.address + s.size;
    if addr < end {
      var c := GapCharge(addr, end, s.align);
      TilesAppend(charges, s.address, addr, c);
      assert OwnerRight(s, lines, c) && GapRight(s, lines, c);
    }
  }
}
