/**
 Program sizes: how many bytes of code and data each package and file takes.
 */
module Sizes {
  import opened Sweep

  datatype Field = Code | ROData | Data | BSS

  datatype Amounts = Amounts(code: nat, rodata: nat, data: nat, bss: nat)

  const NOTHING := Amounts(0, 0, 0, 0)

  function Get(a: Amounts, f: Field): nat {
    match f case Code => a.code case ROData => a.rodata case Data => a.data case BSS => a.bss
  }

  function Plus(a: Amounts, f: Field, n: nat): Amounts {
    match f
    case Code => a.(code := a.code + n)
    case ROData => a.(rodata := a.rodata + n)
    case Data => a.(data := a.data + n)
    case BSS => a.(bss := a.bss + n)
  }

  /** packageSize: the totals of a package and of its files. */
  datatype Package = Package(total: Amounts, files: map<string, Amounts>)

  type Packages = map<string, Package>

  // ---------- sums over maps ----------

  ghost function Sum(m: map<string, nat>): nat {
    if m == map[] then 0
    else
      var k :| k in m;
      m[k] + Sum(m - {k})
  }

  lemma {:induction false} SumRemove(m: map<string, nat>, k: string)
    requires k in m
    ensures Sum(m) == m[k] + Sum(m - {k})
    decreases |m|
  {
    var k' :| k' in m && Sum(m) == m[k'] + Sum(m - {k'});
    if k' != k {
      SumRemove(m - {k'}, k);
      SumRemove(m - {k}, k');
      assert m - {k'} - {k} == m - {k} - {k'};
    }
  }

  lemma SumUpdate(m: map<string, nat>, k: string, v: nat)
    ensures Sum(m[k := v]) == Sum(m) + v - if k in m then m[k] else 0
  {
    SumRemove(m[k := v], k);
    assert m[k := v] - {k} == m - {k};
    if k in m {
      SumRemove(m, k);
    } else {
      assert m - {k} == m;
    }
  }

  ghost function Column(files: map<string, Amounts>, f: Field): map<string, nat> {
    map k | k in files :: Get(files[k], f)
  }

  ghost function PackageColumn(ps: Packages, f: Field): map<string, nat> {
    map k | k in ps :: Get(ps[k].total, f)
  }

  /** The bytes of a field over all packages. */
  ghost function Total(ps: Packages, f: Field): nat {
    Sum(PackageColumn(ps, f))
  }

  ghost function GrandTotal(ps: Packages): nat {
    Total(ps, Code) + Total(ps, ROData) + Total(ps, Data) + Total(ps, BSS)
  }

  /** A package is the sum of its files. */
  ghost predicate SumOfFiles(p: Package) {
    forall f :: Get(p.total, f) == Sum(Column(p.files, f))
  }

  ghost predicate Consistent(ps: Packages) {
    forall name :: name in ps ==> SumOfFiles(ps[name])
  }

  // ---------- charging ----------

  /** The package found or made by getPackage. */
  function PackageOf(ps: Packages, name: string): Package {
    if name in ps then ps[name] else Package(NOTHING, map[])
  }

  function AddToPackage(p: Package, f: Field, file: string, size: nat): Package {
    if size == 0 then p
    else
      var sub := if file in p.files then p.files[file] else NOTHING;
      Package(Plus(p.total, f, size), p.files[file := Plus(sub, f, size)])
  }

  function AddTo(ps: Packages, name: string, f: Field, file: string, size: nat): Packages {
    ps[name := AddToPackage(PackageOf(ps, name), f, file, size)]
  }

  lemma PlusGet(a: Amounts, f: Field, n: nat, g: Field)
    ensures Get(Plus(a, f, n), g) == Get(a, g) + if g == f then n else 0
    ensures Get(NOTHING, g) == 0
  {
  }

  lemma AddKeepsSum(p: Package, f: Field, file: string, size: nat)
    requires SumOfFiles(p)
    ensures SumOfFiles(AddToPackage(p, f, file, size))
  {
    hide Sum, Get, Plus;
    var q := AddToPackage(p, f, file, size);
    if size > 0 {
      forall g ensures Get(q.total, g) == Sum(Column(q.files, g)) {
        PlusGet(p.total, f, size, g);
        PlusGet(if file in p.files then p.files[file] else NOTHING, f, size, g);
        assert Column(q.files, g) == Column(p.files, g)[file := Get(q.files[file], g)];
        SumUpdate(Column(p.files, g), file, Get(q.files[file], g));
      }
    }
  }

  lemma EmptySum()
    ensures SumOfFiles(Package(NOTHING, map[]))
  {
    forall f ensures Sum(Column(map[], f)) == 0 {
      assert Column(map[], f) == map[];
    }
  }

  /** Charging adds exactly the size to exactly the field, and keeps packages consistent. */
  lemma AddToTotals(ps: Packages, name: string, f: Field, file: string, size: nat)
    requires Consistent(ps)
    ensures Consistent(AddTo(ps, name, f, file, size))
    ensures forall g :: Total(AddTo(ps, name, f, file, size), g) == Total(ps, g) + if g == f then size else 0
    ensures GrandTotal(AddTo(ps, name, f, file, size)) == GrandTotal(ps) + size
  {
    hide Sum, Get, Plus, SumOfFiles;
    EmptySum();
    AddKeepsSum(PackageOf(ps, name), f, file, size);
    var qs := AddTo(ps, name, f, file, size);
    forall g ensures Total(qs, g) == Total(ps, g) + if g == f then size else 0 {
      PlusGet(PackageOf(ps, name).total, f, size, g);
      assert PackageColumn(qs, g) == PackageColumn(ps, g)[name := Get(qs[name].total, g)];
      SumUpdate(PackageColumn(ps, g), name, Get(qs[name].total, g));
    }
  }

  /** The field of a package that a chunk of a section counts in. */
  function FieldOf(kind: MemoryType, isVariable: bool): Field {
    match kind
    case CodeSection => if isVariable then ROData else Code
    case RODataSection => ROData
    case DataSection => Data
    case BSSSection => BSS
    case StackSection => BSS
  }

  /** findPackagePath: the package and file name of a source path. */
  type Finder = string -> (string, string)

  /** Apply one charge of a sweep. */
  function ChargeOne(ps: Packages, s: Section, lines: seq<Line>, find: Finder, c: Charge): Packages {
    var size := if c.lo <= c.hi then c.hi - c.lo else 0;
    match c.owner
    case ByLine(i) =>
      if i < |lines| then
        var (name, file) := find(lines[i].file);
        AddTo(ps, name, FieldOf(s.kind, lines[i].isVariable), file, size)
      else ps
    case Padding => AddTo(ps, "(padding)", FieldOf(s.kind, true), "", size)
    case Unknown => AddTo(ps, "(unknown)", FieldOf(s.kind, false), "", size)
  }

  function ChargeAll(ps: Packages, s: Section, lines: seq<Line>, find: Finder, charges: seq<Charge>): Packages {
    if charges == [] then ps
    else ChargeOne(ChargeAll(ps, s, lines, find, charges[..|charges| - 1]), s, lines, find, charges[|charges| - 1])
  }

  /** The totals have grown by n bytes of a section of the given kind: data and zeroed memory
      have fields of their own, code and constants share two. */
  ghost predicate GrownBy(ps: Packages, qs: Packages, kind: MemoryType, n: int) {
    && Total(qs, Data) == Total(ps, Data) + (if kind.DataSection? then n else 0)
    && Total(qs, BSS) == Total(ps, BSS) + (if kind.BSSSection? || kind.StackSection? then n else 0)
    && Total(qs, Code) + Total(qs, ROData)
       == Total(ps, Code) + Total(ps, ROData) + (if kind.CodeSection? || kind.RODataSection? then n else 0)
    && Total(qs, Code) >= Total(ps, Code) && Total(qs, ROData) >= Total(ps, ROData)
    && (kind.RODataSection? ==> Total(qs, Code) == Total(ps, Code))
  }

  lemma AddGrows(ps: Packages, qs: Packages, name: string, kind: MemoryType, isVariable: bool, file: string, size: nat, n: int)
    requires Consistent(qs) && GrownBy(ps, qs, kind, n)
    ensures GrownBy(ps, AddTo(qs, name, FieldOf(kind, isVariable), file, size), kind, n + size)
  {
    hide AddTo, Total, Consistent;
    AddToTotals(qs, name, FieldOf(kind, isVariable), file, size);
  }

  lemma ChargeOneTotals(ps: Packages, qs: Packages, s: Section, lines: seq<Line>, find: Finder, c: Charge, n: int)
    requires Consistent(qs) && GrownBy(ps, qs, s.kind, n)
    requires c.lo <= c.hi && (c.owner.ByLine? ==> c.owner.i < |lines|)
    ensures Consistent(ChargeOne(qs, s, lines, find, c))
    ensures GrandTotal(ChargeOne(qs, s, lines, find, c)) == GrandTotal(qs) + c.hi - c.lo
    ensures GrownBy(ps, ChargeOne(qs, s, lines, find, c), s.kind, n + c.hi - c.lo)
  {
    hide GrandTotal, Consistent, AddTo, FieldOf, GrownBy;
    var size := c.hi - c.lo;
    match c.owner
    case ByLine(i) =>
      var (name, file) := find(lines[i].file);
      AddToTotals(qs, name, FieldOf(s.kind, lines[i].isVariable), file, size);
      AddGrows(ps, qs, name, s.kind, lines[i].isVariable, file, size, n);
    case Padding =>
      AddToTotals(qs, "(padding)", FieldOf(s.kind, true), "", size);
      AddGrows(ps, qs, "(padding)", s.kind, true, "", size, n);
    case Unknown =>
      AddToTotals(qs, "(unknown)", FieldOf(s.kind, false), "", size);
      AddGrows(ps, qs, "(unknown)", s.kind, false, "", size, n);
  }

  lemma {:induction false} ChargeAllTotals(ps: Packages, s: Section, lines: seq<Line>, find: Finder, charges: seq<Charge>)
    requires Consistent(ps)
    requires forall k :: 0 <= k < |charges| ==>
               charges[k].lo <= charges[k].hi && (charges[k].owner.ByLine? ==> charges[k].owner.i < |lines|)
    ensures Consistent(ChargeAll(ps, s, lines, find, charges))
    ensures GrandTotal(ChargeAll(ps, s, lines, find, charges)) == GrandTotal(ps) + Charged(charges)
    ensures GrownBy(ps, ChargeAll(ps, s, lines, find, charges), s.kind, Charged(charges))
    decreases |charges|
  {
    hide GrandTotal, Consistent, ChargeOne, Total;
    if charges != [] {
      var init, c := charges[..|charges| - 1], charges[|charges| - 1];
      ChargeAllTotals(ps, s, lines, find, init);
      ChargeOneTotals(ps, ChargeAll(ps, s, lines, find, init), s, lines, find, c, Charged(init));
    }
  }

  /** The amounts charged for a section sum up to its size. */
  lemma SectionTotal(ps: Packages, s: Section, lines: seq<Line>, find: Finder, charges: seq<Charge>)
    requires Consistent(ps) && Attributed(s, lines, charges)
    requires forall k :: 0 <= k < |charges| ==> (charges[k].owner.ByLine? ==> charges[k].owner.i < |lines|)
    ensures Consistent(ChargeAll(ps, s, lines, find, charges))
    ensures GrandTotal(ChargeAll(ps, s, lines, find, charges)) == GrandTotal(ps) + s.size
    ensures GrownBy(ps, ChargeAll(ps, s, lines, find, charges), s.kind, s.size)
  {
    hide ChargeAll, GrandTotal, OwnerRight, GapRight, GrownBy;
    forall k | 0 <= k < |charges| ensures charges[k].lo <= charges[k].hi {
      TilesBelow(charges, s.address, s.address + s.size, k);
    }
    ChargeAllTotals(ps, s, lines, find, charges);
    TilesSum(charges, s.address, s.address + s.size);
  }
}
