/**
 loadProgramSize from the sorted line entries on: read every section into the packages and
 sum them up.
 */
module ProgramSize {
  import opened Sweep
  import opened Sizes
  import opened SizeOwners

  /** In the order of the sweep: by address, larger chunks first. */
  predicate Before(a: Line, b: Line) {
    a.address < b.address || (a.address == b.address && a.length >= b.length)
  }

  ghost predicate SortedLines(lines: seq<Line>) {
    forall i, j :: 0 <= i < j < |lines| ==> Before(lines[i], lines[j])
  }

  function InsertLine(lines: seq<Line>, l: Line): (r: seq<Line>)
    requires SortedLines(lines)
    ensures SortedLines(r) && forall x :: x in r <==> x in lines || x == l
  {
    if lines == [] then [l]
    else
      var init, last := lines[..|lines| - 1], lines[|lines| - 1];
      assert lines == init + [last];
      if Before(last, l) then
        lines + [l]
      else
        var r := InsertLine(init, l);
        assert forall i :: 0 <= i < |r| ==> r[i] in r;
        r + [last]
  }

  lemma {:induction false} InsertPermutes(lines: seq<Line>, l: Line)
    requires SortedLines(lines)
    ensures multiset(InsertLine(lines, l)) == multiset(lines) + multiset{l}
    decreases |lines|
  {
    if lines != [] {
      var init, last := lines[..|lines| - 1], lines[|lines| - 1];
      assert lines == init + [last];
      if !Before(last, l) {
        InsertPermutes(init, l);
      }
    }
  }

  function SortLines(lines: seq<Line>): (r: seq<Line>)
    ensures SortedLines(r)
  {
    if lines == [] then []
    else InsertLine(SortLines(lines[..|lines| - 1]), lines[|lines| - 1])
  }

  lemma {:induction false} SortPermutes(lines: seq<Line>)
    ensures multiset(SortLines(lines)) == multiset(lines)
    decreases |lines|
  {
    if lines != [] {
      var init, last := lines[..|lines| - 1], lines[|lines| - 1];
      assert lines == init + [last];
      SortPermutes(init);
      InsertPermutes(SortLines(init), last);
    }
  }

  ghost predicate Owners(lines: seq<Line>, charges: seq<Charge>) {
    forall k :: 0 <= k < |charges| && charges[k].owner.ByLine? ==> charges[k].owner.i < |lines|
  }

  class Program {
    var packages: Packages
    var sums: Amounts

    constructor ()
      ensures packages == map[] && sums == NOTHING
    {
      packages, sums := map[], NOTHING;
    }

    /** getPackage followed by addSize. */
    method AddSize(name: string, f: Field, filename: string, size: nat)
      modifies this`packages
      ensures packages == AddTo(old(packages), name, f, filename, size)
    {
      if name !in packages {
        packages := packages[name := Package(NOTHING, map[])];
      }
      if size == 0 {
        return;
      }
      var p := packages[name];
      var total := Plus(p.total, f, size);
      var sub := NOTHING;
      if filename in p.files {
        sub := p.files[filename];
      }
      packages := packages[name := Package(total, p.files[filename := Plus(sub, f, size)])];
    }

    /** Charge a gap to padding or to unknown. */
    method AddGap(s: Section, addr: nat, next: nat, align: nat, ghost lines: seq<Line>, ghost find: Finder)
      requires addr < next
      modifies this`packages
      ensures packages == ChargeOne(old(packages), s, lines, find, GapCharge(addr, next, align))
    {
      if align > 1 && AlignUp(addr, align) >= next {
        AddSize("(padding)", FieldOf(s.kind, true), "", next - addr);
      } else {
        AddSize("(unknown)", FieldOf(s.kind, false), "", next - addr);
      }
    }

    /** readSection: one sweep over the sorted lines. */
    method ReadSection(s: Section, lines: seq<Line>, find: Finder) returns (ghost charges: seq<Charge>)
      requires SortedLines(lines)
      modifies this`packages
      ensures Attributed(s, lines, charges) && Owners(lines, charges)
      ensures packages == ChargeAll(old(packages), s, lines, find, charges)
    {
      hide SweepInv, Attributed, ChargeAll, AlignUp;
      var addr: nat := s.address;
      var sectionEnd := s.address + s.size;
      charges := [];
      SweepBegins(s, lines);
      assert packages == ChargeAll(old(packages), s, lines, find, []) by { ChargeNothing(packages, s, lines, find); }
      for n := 0 to |lines|
        invariant SweepInv(s, lines, n, addr, charges) && Owners(lines, charges)
        invariant packages == ChargeAll(old(packages), s, lines, find, charges)
      {
        addr, charges := SweepLine(s, lines, find, n, addr, charges, old(packages));
      }
      EndStep(s, lines, addr, charges);
      if addr < sectionEnd {
        ChargeNext(old(packages), s, lines, find, charges, GapCharge(addr, sectionEnd, s.align));
        AddGap(s, addr, sectionEnd, s.align, lines, find);
        charges := charges + [GapCharge(addr, sectionEnd, s.align)];
      }
    }

    /** One line entry of the sweep. */
    method SweepLine(s: Section, lines: seq<Line>, find: Finder, n: nat, addr0: nat,
                     ghost charges0: seq<Charge>, ghost start: Packages)
      returns (addr: nat, ghost charges: seq<Charge>)
      requires SortedLines(lines) && n < |lines| && SweepInv(s, lines, n, addr0, charges0) && Owners(lines, charges0)
      requires packages == ChargeAll(start, s, lines, find, charges0)
      modifies this`packages
      ensures SweepInv(s, lines, n + 1, addr, charges) && Owners(lines, charges)
      ensures packages == ChargeAll(start, s, lines, find, charges)
    {
      hide SweepInv, ChargeAll, ChargeOne, AlignUp;
      addr, charges := addr0, charges0;
      var line := lines[n];
      if line.address < s.address || line.address + line.length > s.address + s.size {
        SkipStep(s, lines, n, addr, charges);
        return;
      }
      if addr < line.address {
        // A gap before this line.
        GapStep(s, lines, n, addr, charges);
        ChargeNext(start, s, lines, find, charges, GapCharge(addr, line.address, line.align));
        AddGap(s, addr, line.address, line.align, lines, find);
        charges := charges + [GapCharge(addr, line.address, line.align)];
        addr := line.address;
      }
      if addr > line.address + line.length {
        // Already covered by previous lines.
        SkipStep(s, lines, n, addr, charges);
        return;
      }
      var length := line.length;
      if addr > line.address {
        length := line.length - (addr - line.address);
      }
      var (packagePath, filename) := find(line.file);
      LineStep(s, lines, n, addr, charges);
      ChargeLine(packages, s, lines, find, n, addr);
      ChargeNext(start, s, lines, find, charges, Charge(addr, line.address + line.length, ByLine(n), 0));
      AddSize(packagePath, FieldOf(s.kind, line.isVariable), filename, length);
      charges := charges + [Charge(addr, line.address + line.length, ByLine(n), 0)];
      addr := line.address + line.length;
    }

    /** Read all sections; each kind counts in its own fields, the stack as a package of its own. */
    method ReadSections(sections: seq<Section>, lines: seq<Line>, find: Finder)
      requires SortedLines(lines) && Consistent(packages)
      modifies this`packages
      ensures Consistent(packages) && AddedByKind(old(packages), packages, sections)
      ensures GrandTotal(packages) == old(GrandTotal(packages)) + SectionBytes(sections)
      ensures forall k :: !Pseudo(k) ==> Amount(packages, k) == old(Amount(packages, k)) + OwnedInAll(sections, lines, find, k)
    {
      hide Consistent, GrandTotal, Attributed, Owners, ChargeAll, AddTo, Amount, Owned, Pseudo, AddedByKind, GrownBy;
      NoneAdded(packages, sections);
      for n := 0 to |sections|
        invariant Consistent(packages) && AddedByKind(old(packages), packages, sections[..n])
        invariant GrandTotal(packages) == old(GrandTotal(packages)) + SectionBytes(sections[..n])
        invariant forall k :: !Pseudo(k) ==>
                    Amount(packages, k) == old(Amount(packages, k)) + OwnedInAll(sections[..n], lines, find, k)
      {
        assert sections[..n + 1][..n] == sections[..n];
        ghost var before := packages;
        if sections[n].kind.StackSection? {
          AddToTotals(packages, "C stack", BSS, "", sections[n].size);
          StackGrows(packages, sections[n].size);
          StackAmount(packages, sections[n].size);
          AddSize("C stack", BSS, "", sections[n].size);
        } else {
          ghost var charges := ReadSection(sections[n], lines, find);
          OwnersTotal(before, sections[n], lines, find, charges);
          OwnersAmount(before, sections[n], lines, find, charges);
        }
        AddedMore(old(packages), before, packages, sections, n);
      }
      assert sections[..|sections|] == sections;
    }

    /** Add up the packages. */
    method Summarize()
      modifies this`sums
      ensures forall f :: Get(sums, f) == old(Get(sums, f)) + Total(packages, f)
    {
      hide Sum;
      var rest := packages;
      while rest != map[]
        invariant forall f :: Get(sums, f) + Total(rest, f) == old(Get(sums, f)) + Total(packages, f)
        decreases |rest|
      {
        assert rest.Keys != {};
        var name :| name in rest;
        ghost var sums0 := sums;
        var t := rest[name].total;
        sums := Amounts(sums.code + t.code, sums.rodata + t.rodata, sums.data + t.data, sums.bss + t.bss);
        forall f ensures Total(rest, f) == Get(t, f) + Total(rest - {name}, f) {
          SumRemove(PackageColumn(rest, f), name);
          assert PackageColumn(rest, f) - {name} == PackageColumn(rest - {name}, f);
        }
        forall f ensures Get(sums, f) == Get(sums0, f) + Get(t, f) {
        }
        rest := rest - {name};
      }
      forall f ensures Total(map[], f) == 0 {
        assert PackageColumn(map[], f) == map[];
        SumEmpty();
      }
    }
  }

  lemma SumEmpty()
    ensures Sum(map[]) == 0
  {
  }

  lemma SweepBegins(s: Section, lines: seq<Line>)
    ensures SweepInv(s, lines, 0, s.address, [])
  {
  }

  /** A line outside the section, or already passed, changes nothing. */
  lemma SkipStep(s: Section, lines: seq<Line>, n: nat, addr: nat, charges: seq<Charge>)
    requires SweepInv(s, lines, n, addr, charges) && n < |lines|
    requires !Inside(s, lines[n]) || lines[n].address + lines[n].length <= addr
    ensures SweepInv(s, lines, n + 1, addr, charges)
  {
    hide OwnerRight, GapRight, Tiles;
  }

  lemma ChargeNothing(ps: Packages, s: Section, lines: seq<Line>, find: Finder)
    ensures ChargeAll(ps, s, lines, find, []) == ps
  {
  }

  lemma ChargeNext(ps: Packages, s: Section, lines: seq<Line>, find: Finder, charges: seq<Charge>, c: Charge)
    ensures ChargeAll(ps, s, lines, find, charges + [c]) == ChargeOne(ChargeAll(ps, s, lines, find, charges), s, lines, find, c)
  {
    hide ChargeOne;
    assert (charges + [c])[..|charges|] == charges;
  }

  lemma ChargeLine(ps: Packages, s: Section, lines: seq<Line>, find: Finder, n: nat, addr: nat)
    requires n < |lines| && lines[n].address <= addr <= lines[n].address + lines[n].length
    ensures var end := lines[n].address + lines[n].length;
            var (name, file) := find(lines[n].file);
            ChargeOne(ps, s, lines, find, Charge(addr, end, ByLine(n), 0))
              == AddTo(ps, name, FieldOf(s.kind, lines[n].isVariable), file, end - addr)
  {
  }

  /** The size of all sections of one kind. */
  function KindBytes(sections: seq<Section>, kind: MemoryType): nat {
    if sections == [] then 0
    else
      var s := sections[|sections| - 1];
      KindBytes(sections[..|sections| - 1], kind) + if s.kind == kind then s.size else 0
  }

  /** Every kind of section was added to the totals of its own fields. */
  ghost predicate AddedByKind(start: Packages, ps: Packages, sections: seq<Section>) {
    && Total(ps, Data) == Total(start, Data) + KindBytes(sections, DataSection)
    && Total(ps, BSS) == Total(start, BSS) + KindBytes(sections, BSSSection) + KindBytes(sections, StackSection)
    && Total(ps, Code) + Total(ps, ROData)
       == Total(start, Code) + Total(start, ROData) + KindBytes(sections, CodeSection) + KindBytes(sections, RODataSection)
    && Total(ps, ROData) >= Total(start, ROData) + KindBytes(sections, RODataSection)
  }

  lemma AddedMore(start: Packages, ps: Packages, qs: Packages, sections: seq<Section>, n: nat)
    requires n < |sections| && AddedByKind(start, ps, sections[..n]) && GrownBy(ps, qs, sections[n].kind, sections[n].size)
    ensures AddedByKind(start, qs, sections[..n + 1])
  {
    hide Total;
    assert sections[..n + 1][..n] == sections[..n];
  }

  function SectionBytes(sections: seq<Section>): nat {
    if sections == [] then 0 else SectionBytes(sections[..|sections| - 1]) + sections[|sections| - 1].size
  }

  lemma OwnersTotal(ps: Packages, s: Section, lines: seq<Line>, find: Finder, charges: seq<Charge>)
    requires Consistent(ps) && Attributed(s, lines, charges) && Owners(lines, charges)
    ensures Consistent(ChargeAll(ps, s, lines, find, charges))
    ensures GrandTotal(ChargeAll(ps, s, lines, find, charges)) == GrandTotal(ps) + s.size
    ensures GrownBy(ps, ChargeAll(ps, s, lines, find, charges), s.kind, s.size)
  {
    hide Attributed, ChargeAll, GrandTotal, Consistent, GrownBy;
    SectionTotal(ps, s, lines, find, charges);
  }

  lemma StackGrows(ps: Packages, size: nat)
    requires Consistent(ps)
    ensures GrownBy(ps, AddTo(ps, "C stack", BSS, "", size), StackSection, size)
  {
    hide AddTo, Total, Consistent;
    AddToTotals(ps, "C stack", BSS, "", size);
  }

  lemma NoneAdded(ps: Packages, sections: seq<Section>)
    ensures AddedByKind(ps, ps, sections[..0])
  {
  }

  lemma StackAmount(ps: Packages, size: nat)
    ensures forall k :: !Pseudo(k) ==> Amount(AddTo(ps, "C stack", BSS, "", size), k) == Amount(ps, k)
  {
    hide AddTo, Amount;
    forall k | !Pseudo(k) ensures Amount(AddTo(ps, "C stack", BSS, "", size), k) == Amount(ps, k) {
      AddAmount(ps, "C stack", BSS, "", size, k);
    }
  }

  lemma OwnersAmount(ps: Packages, s: Section, lines: seq<Line>, find: Finder, charges: seq<Charge>)
    requires Attributed(s, lines, charges) && Owners(lines, charges)
    ensures forall k :: !Pseudo(k) ==>
              Amount(ChargeAll(ps, s, lines, find, charges), k)
                == Amount(ps, k) + Owned(s, lines, find, k, s.address, s.address + s.size)
  {
    hide Attributed, ChargeAll, Amount, Owned, Pseudo;
    forall k | !Pseudo(k)
      ensures Amount(ChargeAll(ps, s, lines, find, charges), k)
           == Amount(ps, k) + Owned(s, lines, find, k, s.address, s.address + s.size)
    {
      SectionAmount(ps, s, lines, find, charges, k);
    }
  }

  /** The line entries in any order that sorting may leave them in: entries of the same address
      and length may come in either order. */
  ghost predicate Sorts(addresses: seq<Line>, lines: seq<Line>) {
    SortedLines(lines) && multiset(lines) == multiset(addresses)
  }

  /** Whatever the order of sorting, a byte belongs to a line that starts first among all that
      cover it, and is the longest of those that start there. */
  lemma OwnerStartsFirst(s: Section, addresses: seq<Line>, lines: seq<Line>, x: nat, i: nat, l: Line)
    requires Sorts(addresses, lines) && FirstCover(s, lines, x, i) && l in addresses && Covers(s, l, x)
    ensures lines[i] in addresses
    ensures lines[i].address < l.address || (lines[i].address == l.address && lines[i].length >= l.length)
  {
    assert l in multiset(addresses) && lines[i] in multiset(lines);
    var j :| 0 <= j < |lines| && lines[j] == l;
    assert i <= j;
    if i < j {
      assert Before(lines[i], lines[j]);
    }
  }

  /** There is such an order. */
  lemma SortLinesSorts(addresses: seq<Line>)
    ensures Sorts(addresses, SortLines(addresses))
  {
    SortPermutes(addresses);
  }

  /** The whole report, for any outcome of sorting: every byte of every section is in the program
      totals once, each kind in its own fields, every package is the sum of its files, and the size of every file is the
      number of bytes whose first covering line is in it. */
  method LoadProgramSize(sections: seq<Section>, ghost addresses: seq<Line>, lines: seq<Line>, find: Finder)
    returns (p: Program)
    requires Sorts(addresses, lines)
    ensures fresh(p) && Consistent(p.packages)
    ensures p.sums.code + p.sums.rodata + p.sums.data + p.sums.bss == SectionBytes(sections)
    ensures p.sums.data == KindBytes(sections, DataSection)
    ensures p.sums.bss == KindBytes(sections, BSSSection) + KindBytes(sections, StackSection)
    ensures p.sums.code + p.sums.rodata == KindBytes(sections, CodeSection) + KindBytes(sections, RODataSection)
    ensures p.sums.rodata >= KindBytes(sections, RODataSection)
    ensures forall f :: Get(p.sums, f) == Total(p.packages, f)
    ensures forall k :: !Pseudo(k) ==> Amount(p.packages, k) == OwnedInAll(sections, lines, find, k)
  {
    hide Total, Consistent, SortedLines, Amount, OwnedInAll, Pseudo;
    p := new Program();
    NoPackages();
    p.ReadSections(sections, lines, find);
    p.Summarize();
    assert Get(p.sums, Code) == Total(p.packages, Code);
    assert Get(p.sums, ROData) == Total(p.packages, ROData);
    assert Get(p.sums, Data) == Total(p.packages, Data);
    assert Get(p.sums, BSS) == Total(p.packages, BSS);
  }

  lemma NoPackages()
    ensures Consistent(map[]) && GrandTotal(map[]) == 0 && forall k :: Amount(map[], k) == 0
    ensures forall f :: Total(map[], f) == 0
  {
    forall f ensures Total(map[], f) == 0 {
      assert PackageColumn(map[], f) == map[];
    }
  }
}
