/**
 From loadable segments to a UF2 file: what a device that reads the file finds in memory.
 */
module Firmware {
  import opened Wrappers
  import opened Bytes
  import opened Rom
  import opened Uf2

  /** A device that writes the blocks of a file starting at base finds b at address a. */
  ghost predicate ReadsAs(blocks: seq<BlockValue>, base: nat, a: nat, b: byte) {
    && base <= a
    && var i, j := (a - base) / PAYLOAD, (a - base) % PAYLOAD;
       i < |blocks| && |blocks[i].data| == DATA_SIZE && blocks[i].targetAddr + j == a && blocks[i].data[j] == b
  }

  /** The blocks of the UF2 file made from an extracted image. */
  function FileOf(r: Extracted, family: Family): seq<byte>
    requires r.ROM?
  {
    var pieces := Split(r.data, PAYLOAD);
    EncodeFile(pieces, r.addr, family, |pieces|)
  }

  /** The byte that the program has at an address: of the segment there, or zero. */
  ghost predicate MemoryIs(progs: seq<Segment>, a: nat, b: byte) {
    && (forall i, k :: 0 <= i < |progs| && 0 <= k < |progs[i].data| && progs[i].paddr + k == a ==> b == progs[i].data[k])
    && ((forall i :: 0 <= i < |progs| ==> !(progs[i].paddr <= a < End(progs[i]))) ==> b == 0)
  }

  /** The file covers every segment byte at or above the start of the image. */
  lemma SegmentCovered(progs: seq<Segment>, start: nat, r: Extracted, s: nat, k: nat)
    requires Extracts(progs, start, r) && r.ROM?
    requires s < |progs| && k < |progs[s].data| && r.addr <= progs[s].paddr + k
    ensures (progs[s].paddr + k - r.addr) / PAYLOAD < |Split(r.data, PAYLOAD)|
  {
    hide Split, Image, Contiguous;
    ByteInImage(progs, start, r, s, k);
    BlockCount(r.data, PAYLOAD);
  }

  /** Every address that the file covers, up to the end of its last block, reads as the memory
      of the program: segment bytes at their physical addresses and zeros everywhere else. */
  lemma FlashedMemory(progs: seq<Segment>, start: nat, r: Extracted, family: Family, a: nat) returns (b: byte)
    requires Extracts(progs, start, r) && r.ROM? && r.addr + |r.data| <= TWO32
    requires family.FamilyID? ==> family.id < TWO32
    requires r.addr <= a && (a - r.addr) / PAYLOAD < |Split(r.data, PAYLOAD)|
    ensures DecodeFile(FileOf(r, family)).Some?
    ensures ReadsAs(DecodeFile(FileOf(r, family)).value, r.addr, a, b) && MemoryIs(progs, a, b)
  {
    hide Split, EncodeFile, DecodeFile, Image, Contiguous, Extracts;
    var off := a - r.addr;
    var i, j := off / PAYLOAD, off % PAYLOAD;
    BlockCount(r.data, PAYLOAD);
    NothingToSplit(PAYLOAD);
    FileHoldsInput(r.data, r.addr, family, i, j);
    if off < |r.data| {
      b := r.data[off];
      ExtractedMemory(progs, start, r, a);
    } else {
      b := 0;
      BeyondImage(progs, start, r, a);
    }
  }

  /** No segment reaches beyond the image. */
  lemma BeyondImage(progs: seq<Segment>, start: nat, r: Extracted, a: nat)
    requires Extracts(progs, start, r) && r.ROM? && r.addr + |r.data| <= a
    ensures MemoryIs(progs, a, 0)
  {
    hide Image, Contiguous, Extracts;
    forall i | 0 <= i < |progs| ensures !(progs[i].paddr <= a < End(progs[i])) {
      if progs[i].paddr <= a < End(progs[i]) {
        ByteInImage(progs, start, r, i, a - progs[i].paddr);
      }
    }
  }

  lemma NothingToSplit(limit: nat)
    requires limit > 0
    ensures Split([], limit) == []
  {
  }

  lemma ByteInImage(progs: seq<Segment>, start: nat, r: Extracted, s: nat, k: nat)
    requires Extracts(progs, start, r) && r.ROM?
    requires s < |progs| && k < |progs[s].data| && r.addr <= progs[s].paddr + k
    ensures progs[s].paddr + k < r.addr + |r.data|
  {
    ImageHolds(progs, |progs|, s, k);
  }
}
