/**
 Which bytes the size of a file counts: exactly those whose first covering line is in it.
 */
module SizeOwners {
  import opened Sweep
  import opened Sizes

  /** One number of the report: a field of a file of a package. */
  datatype Key = Key(name: string, file: string, field: Field)

  function Amount(ps: Packages, k: Key): nat {
    if k.name in ps && k.file in ps[k.name].files then Get(ps[k.name].files[k.file], k.field) else 0
  }

  /** What each number counts: code is what is not a variable in a code section; constants are
      all of a read-only section and the variables of a code section; data and zeroed memory
      are all of their sections. */
  predicate Counts(field: Field, kind: MemoryType, isVariable: bool) {
    match field
    case Code => kind.CodeSection? && !isVariable
    case ROData => kind.RODataSection? || (kind.CodeSection? && isVariable)
    case Data => kind.DataSection?
    case BSS => kind.BSSSection? || kind.StackSection?
  }

  lemma CountsField(field: Field, kind: MemoryType, isVariable: bool)
    ensures Counts(field, kind, isVariable) <==> FieldOf(kind, isVariable) == field
  {
  }

  /** The number counts a byte of this line. */
  predicate CountsLine(s: Section, l: Line, find: Finder, k: Key) {
    find(l.file) == (k.name, k.file) && Counts(k.field, s.kind, l.isVariable)
  }

  /** The entries for gaps and for the stack, which belong to no source file. */
  predicate Pseudo(k: Key) {
    k.file == "" && (k.name == "(padding)" || k.name == "(unknown)" || k.name == "C stack")
  }

  ghost predicate Owns(s: Section, lines: seq<Line>, find: Finder, k: Key, x: nat) {
    exists i: nat :: FirstCover(s, lines, x, i) && CountsLine(s, lines[i], find, k)
  }

  /** How many bytes from lo up to hi are owned by the key. */
  ghost function Owned(s: Section, lines: seq<Line>, find: Finder, k: Key, lo: nat, hi: nat): nat
    decreases hi
  {
    if hi <= lo then 0
    else Owned(s, lines, find, k, lo, hi - 1) + if Owns(s, lines, find, k, hi - 1) then 1 else 0
  }

  lemma {:induction false} OwnedRange(s: Section, lines: seq<Line>, find: Finder, k: Key, lo: nat, mid: nat, hi: nat, all: bool)
    requires lo <= mid <= hi && forall x: nat :: mid <= x < hi ==> (Owns(s, lines, find, k, x) <==> all)
    ensures Owned(s, lines, find, k, lo, hi) == Owned(s, lines, find, k, lo, mid) + if all then hi - mid else 0
    decreases hi
  {
    hide Owns;
    if mid < hi {
      OwnedRange(s, lines, find, k, lo, mid, hi - 1, all);
    }
  }

  lemma AddAmount(ps: Packages, name: string, f: Field, file: string, size: nat, k: Key)
    ensures Amount(AddTo(ps, name, f, file, size), k) == Amount(ps, k) + if k == Key(name, file, f) then size else 0
  {
    var p := PackageOf(ps, name);
    PlusGet(if file in p.files then p.files[file] else NOTHING, f, size, k.field);
  }

  /** One charge of a sweep raises the number of a key by the bytes of the charge that it owns. */
  lemma ChargeAmount(ps: Packages, s: Section, lines: seq<Line>, find: Finder, c: Charge, k: Key, lo: nat)
    requires lo <= c.lo <= c.hi && OwnerRight(s, lines, c) && !Pseudo(k)
    requires c.owner.ByLine? ==> c.owner.i < |lines|
    ensures Amount(ChargeOne(ps, s, lines, find, c), k) + Owned(s, lines, find, k, lo, c.lo)
         == Amount(ps, k) + Owned(s, lines, find, k, lo, c.hi)
  {
    hide Amount, AddTo, FieldOf, Counts, FirstCover, Covers, Uncovered, Owned, Owns;
    var size := c.hi - c.lo;
    var all := c.owner.ByLine? && CountsLine(s, lines[c.owner.i], find, k);
    forall x: nat | c.lo <= x < c.hi ensures Owns(s, lines, find, k, x) <==> all {
      if c.owner.ByLine? {
        OwnsByFirst(s, lines, find, k, x, c.owner.i);
      } else {
        OwnsNothing(s, lines, find, k, x);
      }
    }
    OwnedRange(s, lines, find, k, lo, c.lo, c.hi, all);
    match c.owner
    case ByLine(i) =>
      var (name, file) := find(lines[i].file);
      CountsField(k.field, s.kind, lines[i].isVariable);
      AddAmount(ps, name, FieldOf(s.kind, lines[i].isVariable), file, size, k);
    case Padding => AddAmount(ps, "(padding)", FieldOf(s.kind, true), "", size, k);
    case Unknown => AddAmount(ps, "(unknown)", FieldOf(s.kind, false), "", size, k);
  }

  lemma OwnsByFirst(s: Section, lines: seq<Line>, find: Finder, k: Key, x: nat, i: nat)
    requires FirstCover(s, lines, x, i)
    ensures Owns(s, lines, find, k, x) <==> CountsLine(s, lines[i], find, k)
  {
    hide CountsLine, Covers;
    forall j: nat | FirstCover(s, lines, x, j) ensures j == i {
      OneFirst(s, lines, x, i, j);
    }
  }

  lemma OwnsNothing(s: Section, lines: seq<Line>, find: Finder, k: Key, x: nat)
    requires Uncovered(s, lines, x)
    ensures !Owns(s, lines, find, k, x)
  {
    hide CountsLine;
  }

  lemma {:induction false} ChargesAmount(ps: Packages, s: Section, lines: seq<Line>, find: Finder, charges: seq<Charge>,
                                         k: Key, lo: nat, hi: nat)
    requires Tiles(charges, lo, hi) && !Pseudo(k)
    requires forall n :: 0 <= n < |charges| ==>
               OwnerRight(s, lines, charges[n]) && (charges[n].owner.ByLine? ==> charges[n].owner.i < |lines|)
    ensures Amount(ChargeAll(ps, s, lines, find, charges), k) == Amount(ps, k) + Owned(s, lines, find, k, lo, hi)
    decreases |charges|
  {
    hide Amount, ChargeOne, OwnerRight, Pseudo, Owns;
    if charges == [] {
      assert Owned(s, lines, find, k, lo, hi) == 0;
    } else {
      var init, last := charges[..|charges| - 1], charges[|charges| - 1];
      ChargesAmount(ps, s, lines, find, init, k, lo, last.lo);
      if init != [] {
        TilesBelow(init, lo, last.lo, 0);
      }
      ChargeAmount(ChargeAll(ps, s, lines, find, init), s, lines, find, last, k, lo);
    }
  }

  /** Reading a section raises the number of every file by exactly the bytes of the section
      whose first covering line is in that file and counts in that field. */
  lemma SectionAmount(ps: Packages, s: Section, lines: seq<Line>, find: Finder, charges: seq<Charge>, k: Key)
    requires Attributed(s, lines, charges) && !Pseudo(k)
    requires forall n :: 0 <= n < |charges| && charges[n].owner.ByLine? ==> charges[n].owner.i < |lines|
    ensures Amount(ChargeAll(ps, s, lines, find, charges), k)
         == Amount(ps, k) + Owned(s, lines, find, k, s.address, s.address + s.size)
  {
    hide Amount, ChargeAll, OwnerRight, GapRight, Pseudo, Owned, Tiles;
    ChargesAmount(ps, s, lines, find, charges, k, s.address, s.address + s.size);
  }

  /** The bytes of all sections that are owned by the key; the stack is no part of a file. */
  ghost function OwnedInAll(sections: seq<Section>, lines: seq<Line>, find: Finder, k: Key): nat {
    if sections == [] then 0
    else
      var s := sections[|sections| - 1];
      OwnedInAll(sections[..|sections| - 1], lines, find, k)
      + if s.kind.StackSection? then 0 else Owned(s, lines, find, k, s.address, s.address + s.size)
  }
}
