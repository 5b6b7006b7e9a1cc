/**
 Extracting a flat ROM image from the loadable segments of a program.  Addresses are
 64-bit and their differences wrap around.
 */
module Rom {
  import opened Bytes

  const MAX_PAD: nat := 4095
  const TWO63: nat := 0x8000_0000_0000_0000
  const TWO64: nat := 0x1_0000_0000_0000_0000

  /** A loadable segment with contents. */
  datatype Segment = Segment(paddr: nat, data: seq<byte>)

  function End(s: Segment): nat { s.paddr + |s.data| }

  function Wrap(x: int): nat { x % TWO64 }

  /** All segments lie in the address space, and an image of them can be a byte slice, whose
      length is a signed 64-bit number. */
  ghost predicate InRange(segs: seq<Segment>) {
    && (forall i :: 0 <= i < |segs| ==> segs[i].paddr < TWO64 && End(segs[i]) <= TWO64)
    && (forall i, j :: 0 <= i < |segs| && 0 <= j < |segs| ==> End(segs[i]) - segs[j].paddr < TWO63)
  }

  ghost predicate SortedByAddress(segs: seq<Segment>) {
    forall i, j :: 0 <= i < j < |segs| ==> segs[i].paddr <= segs[j].paddr
  }

  /** Each segment starts at most MAX_PAD bytes after the end of the one before it. */
  ghost predicate Contiguous(segs: seq<Segment>, n: nat)
    requires n <= |segs|
  {
    forall i :: 1 <= i < n ==> End(segs[i - 1]) <= segs[i].paddr <= End(segs[i - 1]) + MAX_PAD
  }

  /** The memory from the first segment to the end of the n-th, gaps zero. */
  ghost function Image(segs: seq<Segment>, n: nat): (r: seq<byte>)
    requires 1 <= n <= |segs| && Contiguous(segs, n)
    ensures |r| == End(segs[n - 1]) - segs[0].paddr
    decreases n
  {
    if n == 1 then segs[0].data
    else Image(segs, n - 1) + Zeros(segs[n - 1].paddr - End(segs[n - 2])) + segs[n - 1].data
  }

  datatype Extracted =
    | ROM(addr: nat, data: seq<byte>)
    | NoSegments
    | NonContiguous
    | StartBeyondImage   // slicing the image panics

  // ---------- segments in the image ----------

  lemma {:induction false} EndsRise(segs: seq<Segment>, n: nat, i: nat, j: nat)
    requires i < j < n <= |segs| && Contiguous(segs, n)
    ensures End(segs[i]) <= segs[j].paddr
    decreases j - i
  {
    if i < j - 1 {
      EndsRise(segs, n, i, j - 1);
    }
  }

  /** Every segment byte is at its physical address. */
  lemma {:induction false} ImageHolds(segs: seq<Segment>, n: nat, i: nat, k: nat)
    requires 1 <= n <= |segs| && Contiguous(segs, n) && i < n && k < |segs[i].data|
    ensures 0 <= segs[i].paddr + k - segs[0].paddr < |Image(segs, n)|
    ensures Image(segs, n)[segs[i].paddr + k - segs[0].paddr] == segs[i].data[k]
    decreases n
  {
    if n > 1 {
      if i < n - 1 {
        ImageHolds(segs, n - 1, i, k);
      } else {
        EndsRise(segs, n, 0, n - 1);
      }
    }
  }

  /** What lies in no segment is zero. */
  lemma {:induction false} ImageZero(segs: seq<Segment>, n: nat, a: nat)
    requires 1 <= n <= |segs| && Contiguous(segs, n) && a < |Image(segs, n)|
    requires forall i :: 0 <= i < n ==> !(segs[i].paddr <= segs[0].paddr + a < End(segs[i]))
    ensures Image(segs, n)[a] == 0
    decreases n
  {
    if n > 1 {
      var before := |Image(segs, n - 1)|;
      if a < before {
        ImageZero(segs, n - 1, a);
      }
    }
  }

  /** Segments of an extracted image do not overlap. */
  lemma SegmentsDisjoint(segs: seq<Segment>, i: nat, j: nat)
    requires Contiguous(segs, |segs|) && i < j < |segs|
    ensures End(segs[i]) <= segs[j].paddr
  {
    EndsRise(segs, |segs|, i, j);
  }

  // ---------- the loop ----------

  /** The distance from an end to an address, as computed modulo 2^64. */
  lemma WrapDistance(end: nat, p: nat)
    requires end <= TWO64 && p < TWO64
    ensures Wrap(end) == (if end < TWO64 then end else 0)
    ensures Wrap(p - Wrap(end)) == if p >= end then p - end else p - end + TWO64
  {
  }

  /** Append one segment, zero-filling the gap before it; fails when the gap, or by
      wrap-around the overlap, is too large. */
  method AppendSegment(first: nat, rom0: seq<byte>, prog: Segment) returns (ok: bool, rom: seq<byte>)
    requires first <= prog.paddr < TWO64 && first + |rom0| <= TWO64 && |rom0| < TWO63
    ensures ok <==> first + |rom0| <= prog.paddr <= first + |rom0| + MAX_PAD
    ensures ok ==> rom == rom0 + Zeros(prog.paddr - (first + |rom0|)) + prog.data
  {
    hide Wrap;
    rom := rom0;
    var romEnd := Wrap(first + |rom|);
    WrapDistance(first + |rom|, prog.paddr);
    if prog.paddr > romEnd && prog.paddr < Wrap(romEnd + 16) {
      // A bit of padding inserted by the linker.
      SmallGap(first + |rom|, prog.paddr);
      rom := rom + Zeros(prog.paddr - romEnd);
      WrapDistance(first + |rom|, prog.paddr);
    }
    if prog.paddr != Wrap(first + |rom|) {
      var diff := Wrap(prog.paddr - Wrap(first + |rom|));
      if diff > MAX_PAD {
        return false, rom;
      }
      rom := rom + Zeros(diff);
    }
    rom := rom + prog.data;
    ok := true;
  }

  /** The test for a bit of padding never wraps to a wrong answer. */
  lemma SmallGap(end: nat, p: nat)
    requires end <= TWO64 && p < TWO64 && end < p + TWO63 && Wrap(end) < p < Wrap(Wrap(end) + 16)
    ensures Wrap(end) == end && p < end + 16
  {
  }

  lemma NextInRange(progs: seq<Segment>, n: nat, rom: seq<byte>)
    requires InRange(progs) && SortedByAddress(progs) && n < |progs|
    requires n == 0 ==> rom == []
    requires n > 0 ==> progs[0].paddr + |rom| == End(progs[n - 1])
    ensures progs[0].paddr <= progs[n].paddr < TWO64 && progs[0].paddr + |rom| <= TWO64 && |rom| < TWO63
  {
  }

  /** Lay out sorted segments: succeeds exactly when they are contiguous, and then yields
      their memory image. */
  method Assemble(progs: seq<Segment>) returns (ok: bool, rom: seq<byte>)
    requires |progs| > 0 && InRange(progs) && SortedByAddress(progs)
    ensures ok <==> Contiguous(progs, |progs|)
    ensures ok ==> rom == Image(progs, |progs|)
  {
    hide InRange, SortedByAddress;
    rom := [];
    for n := 0 to |progs|
      invariant Contiguous(progs, n)
      invariant n == 0 ==> rom == []
      invariant n > 0 ==> rom == Image(progs, n)
    {
      var next;
      NextInRange(progs, n, rom);
      ok, next := AppendSegment(progs[0].paddr, rom, progs[n]);
      if !ok {
        return false, rom;
      }
      if n == 0 {
        assert [] + Zeros(0) + progs[0].data == progs[0].data;
      }
      rom := next;
    }
    ok := true;
  }

  predicate Lower(a: Segment, b: Segment) { a.paddr <= b.paddr }

  function InsertSegment(segs: seq<Segment>, s: Segment): (r: seq<Segment>)
    requires SortedByAddress(segs)
    ensures SortedByAddress(r) && (forall x :: x in r <==> x in segs || x == s)
  {
    if segs == [] then [s]
    else
      var init, last := segs[..|segs| - 1], segs[|segs| - 1];
      assert segs == init + [last];
      if Lower(last, s) then segs + [s]
      else
        var r := InsertSegment(init, s);
        assert forall i :: 0 <= i < |r| ==> r[i] in r;
        r + [last]
  }

  function Sort(segs: seq<Segment>): (r: seq<Segment>)
    ensures SortedByAddress(r) && (forall x :: x in r <==> x in segs) && (r == [] <==> segs == [])
  {
    if segs == [] then []
    else
      assert segs == segs[..|segs| - 1] + [segs[|segs| - 1]];
      var r := InsertSegment(Sort(segs[..|segs| - 1]), segs[|segs| - 1]);
      assert segs[|segs| - 1] in r;
      r
  }

  lemma {:induction false} InsertPermutes(segs: seq<Segment>, s: Segment)
    requires SortedByAddress(segs)
    ensures multiset(InsertSegment(segs, s)) == multiset(segs) + multiset{s}
    decreases |segs|
  {
    if segs != [] {
      var init, last := segs[..|segs| - 1], segs[|segs| - 1];
      assert segs == init + [last];
      if !Lower(last, s) {
        InsertPermutes(init, s);
      }
    }
  }

  lemma {:induction false} SortPermutes(segs: seq<Segment>)
    ensures multiset(Sort(segs)) == multiset(segs)
    decreases |segs|
  {
    if segs != [] {
      var init, last := segs[..|segs| - 1], segs[|segs| - 1];
      assert segs == init + [last];
      SortPermutes(init);
      InsertPermutes(Sort(init), last);
    }
  }

  /** What extractROM returns for sorted segments and the lowest section address. */
  ghost predicate Extracts(progs: seq<Segment>, start: nat, r: Extracted) {
    if progs == [] then r == NoSegments
    else if !Contiguous(progs, |progs|) then r == NonContiguous
    else
      var rom := Image(progs, |progs|);
      var base := progs[0].paddr;
      if base >= start then r == ROM(base, rom)
      else if start - base <= |rom| then r == ROM(start, rom[start - base..])
      else r == StartBeyondImage
  }

  /** extractROM; sections holds the addresses of the allocated sections. */
  method ExtractROM(segments: seq<Segment>, sections: seq<nat>) returns (r: Extracted)
    requires InRange(segments)
    ensures Extracts(Sort(segments), LowestAddress(sections), r)
  {
    var startAddr := TWO64 - 1;
    for i := 0 to |sections|
      invariant startAddr == LowestAddress(sections[..i])
    {
      assert sections[..i + 1][..i] == sections[..i];
      if sections[i] < startAddr {
        startAddr := sections[i];
      }
    }
    assert sections[..|sections|] == sections;
    var progs := Sort(segments);
    if |progs| == 0 {
      return NoSegments;
    }
    SortInRange(segments);
    var ok, rom := Assemble(progs);
    if !ok {
      return NonContiguous;
    }
    if progs[0].paddr < startAddr {
      if startAddr - progs[0].paddr > |rom| {
        return StartBeyondImage;
      }
      // Data before the first section is discarded.
      return ROM(startAddr, rom[startAddr - progs[0].paddr..]);
    }
    r := ROM(progs[0].paddr, rom);
  }

  lemma SortInRange(segs: seq<Segment>)
    requires InRange(segs)
    ensures InRange(Sort(segs))
  {
    var progs := Sort(segs);
    forall i | 0 <= i < |progs| ensures exists k :: 0 <= k < |segs| && segs[k] == progs[i] {
      assert progs[i] in progs;
    }
  }

  /** The lowest section address, or the highest address there is. */
  function LowestAddress(sections: seq<nat>): (r: nat)
    ensures r < TWO64 && (r in sections || r == TWO64 - 1)
    ensures forall i :: 0 <= i < |sections| ==> r <= sections[i]
  {
    if sections == [] then TWO64 - 1
    else
      var rest := LowestAddress(sections[..|sections| - 1]);
      if sections[|sections| - 1] < rest then sections[|sections| - 1] else rest
  }

  /** The extracted image is the memory of the program from its start address on: segment
      bytes at their physical addresses, zero elsewhere. */
  lemma ExtractedMemory(progs: seq<Segment>, start: nat, r: Extracted, a: nat)
    requires Extracts(progs, start, r) && r.ROM? && r.addr <= a < r.addr + |r.data|
    ensures forall i, k :: 0 <= i < |progs| && 0 <= k < |progs[i].data| && progs[i].paddr + k == a
              ==> r.data[a - r.addr] == progs[i].data[k]
    ensures (forall i :: 0 <= i < |progs| ==> !(progs[i].paddr <= a < End(progs[i]))) ==> r.data[a - r.addr] == 0
  {
    var rom := Image(progs, |progs|);
    var base := progs[0].paddr;
    assert r.data[a - r.addr] == rom[a - base];
    forall i: nat, k: nat | i < |progs| && k < |progs[i].data| && progs[i].paddr + k == a
      ensures r.data[a - r.addr] == progs[i].data[k]
    {
      ImageHolds(progs, |progs|, i, k);
    }
    if forall i :: 0 <= i < |progs| ==> !(progs[i].paddr <= a < End(progs[i])) {
      ImageZero(progs, |progs|, a - base);
    }
  }
}
