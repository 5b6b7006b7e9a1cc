/**
 The builder of ESP images: segments whose data is patched in place, and an output buffer
 that is appended to.
 */
module Esp {
  import opened Wrappers
  import opened Bytes
  import opened EspImage
  import opened EspLayout

  class EspSegment {
    const addr: nat
    const data: array<byte>

    constructor (addr: nat, data: array<byte>)
      ensures this.addr == addr && this.data == data
    {
      this.addr := addr;
      this.data := data;
    }

    ghost function View(): Segment
      reads data
    {
      Segment(addr, data[..])
    }

    predicate Holds(sym: nat) {
      addr <= sym && sym + 4 <= addr + data.Length
    }
  }

  ghost function Buffers(segs: seq<EspSegment>): set<object> {
    set s | s in segs :: s.data
  }

  ghost function Views(segs: seq<EspSegment>): (r: seq<Segment>)
    reads Buffers(segs)
    ensures |r| == |segs| && forall i :: 0 <= i < |segs| ==> r[i] == segs[i].View()
  {
    if segs == [] then [] else Views(segs[..|segs| - 1]) + [segs[|segs| - 1].View()]
  }

  /** No two segments share their data. */
  ghost predicate Separate(segs: seq<EspSegment>) {
    forall i, j :: 0 <= i < j < |segs| ==> segs[i].data != segs[j].data
  }

  // ---------- splitting ----------

  lemma ViewsPush(segs: seq<EspSegment>, s: EspSegment)
    ensures Views(segs + [s]) == Views(segs) + [s.View()]
  {
    assert (segs + [s])[..|segs|] == segs;
  }

  lemma SelectPush(segs: seq<Segment>, k: nat, p: nat -> bool)
    requires k < |segs|
    ensures Select(segs[..k + 1], p) == Select(segs[..k], p) + (if p(segs[k].addr) then [segs[k]] else [])
  {
    assert segs[..k + 1][..k] == segs[..k];
  }

  lemma SeparatePush(segs: seq<EspSegment>, k: nat, some: seq<EspSegment>)
    requires k < |segs| && Separate(segs) && Separate(some)
    requires forall s :: s in some ==> s in segs[..k]
    ensures Separate(some + [segs[k]])
  {
    forall i | 0 <= i < |some|
      ensures some[i].data != segs[k].data
    {
      assert some[i] in segs[..k];
    }
  }

  /** The segments with an address in flash, and the others. */
  method SplitSegments(chip: Chip, segs: seq<EspSegment>) returns (ram: seq<EspSegment>, flash: seq<EspSegment>)
    requires Separate(segs)
    ensures Views(ram) == RamOf(chip, Views(segs)) && Views(flash) == FlashOf(chip, Views(segs))
    ensures forall s :: s in ram ==> s in segs
    ensures Separate(ram)
    ensures forall s :: s in ram ==> !IsFlash(chip, s.addr)
    ensures forall s :: s in flash ==> s in segs && IsFlash(chip, s.addr)
  {
    hide Separate, Select, Views, IsFlash;
    ram, flash := [], [];
    ghost var views := Views(segs);
    SplitEmpty(chip, views);
    for k := 0 to |segs|
      invariant Views(segs) == views
      invariant Views(ram) == RamOf(chip, views[..k]) && Views(flash) == FlashOf(chip, views[..k])
      invariant forall s :: s in ram ==> s in segs[..k]
      invariant Separate(ram)
      invariant forall s :: s in ram ==> !IsFlash(chip, s.addr)
      invariant forall s :: s in flash ==> s in segs && IsFlash(chip, s.addr)
    {
      SelectPush(views, k, (a: nat) => !IsFlash(chip, a));
      SelectPush(views, k, (a: nat) => IsFlash(chip, a));
      if IsFlash(chip, segs[k].addr) {
        ViewsPush(flash, segs[k]);
        flash := flash + [segs[k]];
      } else {
        ViewsPush(ram, segs[k]);
        SeparatePush(segs, k, ram);
        ram := ram + [segs[k]];
      }
    }
    assert views[..|segs|] == views;
  }

  lemma SplitEmpty(chip: Chip, views: seq<Segment>)
    ensures RamOf(chip, views[..0]) == [] && FlashOf(chip, views[..0]) == [] && Views([]) == [] && Separate([])
  {
  }

  // ---------- sizes and patches ----------

  method PredictSize(lead: nat, segs: seq<EspSegment>) returns (ramImageSize: nat)
    ensures ramImageSize == PredictedSize(lead, Views(segs))
  {
    ramImageSize := HEADER_SIZE + lead;
    for n := 0 to |segs|
      invariant ramImageSize == HEADER_SIZE + lead + BodySize(Views(segs), n)
    {
      ramImageSize := ramImageSize + 8 + segs[n].data.Length;
    }
    ramImageSize := ramImageSize + (16 - ramImageSize % 16);
    ramImageSize := ramImageSize + 32;
  }

  method LookupSymbol(syms: Symbols, name: string) returns (sym: Option<nat>)
    ensures sym == Lookup(syms, name)
  {
    var i := 0;
    while i < |syms|
      invariant i <= |syms| && Lookup(syms[i..], name) == Lookup(syms, name)
    {
      if syms[i].0 == name {
        return Some(syms[i].1);
      }
      i := i + 1;
    }
    return None;
  }

  /** Store a 32-bit number, least significant byte first. */
  method StoreUint32(a: array<byte>, off: nat, value: nat)
    requires off + 4 <= a.Length
    modifies a
    ensures a[..] == PatchData(old(a[..]), off, value)
  {
    var b := PutUint32(value);
    a[off], a[off + 1], a[off + 2], a[off + 3] := b[0], b[1], b[2], b[3];
    assert a[..] == old(a[..off]) + b + old(a[off + 4..]);
  }

  /** Set the word at an address in the first segment that holds it. */
  method PatchWord(segs: seq<EspSegment>, sym: nat, value: nat) returns (patched: bool)
    requires Separate(segs)
    modifies Buffers(segs)
    ensures patched <==> Patch(old(Views(segs)), sym, value).Some?
    ensures Views(segs) == if patched then Patch(old(Views(segs)), sym, value).value else old(Views(segs))
  {
    hide PatchData, PutUint32;
    ghost var views := Views(segs);
    for i := 0 to |segs|
      invariant forall j :: 0 <= j < i ==> !HoldsWord(views[j], sym)
      invariant Views(segs) == views
    {
      if segs[i].Holds(sym) {
        assert FirstHolding(views, sym, 0) == i;
        StoreUint32(segs[i].data, sym - segs[i].addr, value);
        assert forall j :: 0 <= j < |segs| && j != i ==> segs[j].View() == views[j];
        assert Views(segs) == Patch(views, sym, value).value;
        return true;
      }
    }
    return false;
  }

  // ---------- checksum and RAM image ----------

  method ComputeChecksum(segs: seq<EspSegment>) returns (checksum: byte)
    ensures checksum == Checksum(Views(segs), |segs|)
  {
    hide XorByte;
    checksum := 0xef;
    for n := 0 to |segs|
      invariant checksum == Checksum(Views(segs), n)
    {
      ghost var start := checksum;
      ghost var data := segs[n].data[..];
      for i := 0 to segs[n].data.Length
        invariant checksum == XorAll(start, data[..i])
      {
        assert data[..i + 1][..i] == data[..i];
        checksum := XorByte(checksum, segs[n].data[i]);
      }
      assert data[..|data|] == Views(segs)[n].data;
    }
  }

  lemma BodyStep(start: seq<byte>, views: seq<Segment>, n: nat)
    requires n < |views|
    ensures start + Body(views, n + 1) == start + Body(views, n) + SegmentBytes(views[n])
  {
  }

  /** Write everything that the bootloader reads. */
  method WriteRamImage(lead: nat, chip: Chip, segs: seq<EspSegment>, entry: nat, sha: Hash) returns (outf: seq<byte>)
    ensures outf == RamImage(lead, chip, Views(segs), entry, sha)
  {
    hide Header, Checksum, Body, SegmentBytes, Views;
    ghost var views := Views(segs);
    var checksum := ComputeChecksum(segs);
    assert Views(segs) == views;
    outf := Zeros(lead) + Header(chip, |segs|, entry);
    outf := WriteBody(outf, segs);
    assert Views(segs) == views && outf == Front(lead, chip, views, entry);
    outf := outf + Zeros(15 - |outf| % 16);
    outf := outf + [checksum];
    assert outf == WithFooter(Front(lead, chip, views, entry), checksum);
    outf := outf + sha(outf);
  }

  method WriteBody(start: seq<byte>, segs: seq<EspSegment>) returns (outf: seq<byte>)
    ensures outf == start + Body(Views(segs), |segs|)
  {
    hide SegmentBytes, Views;
    outf := start;
    ghost var views := Views(segs);
    for n := 0 to |segs|
      invariant Views(segs) == views && outf == start + Body(views, n)
    {
      BodyStep(start, views, n);
      outf := WriteSegment(outf, segs[n]);
    }
  }

  method WriteSegment(outf: seq<byte>, s: EspSegment) returns (r: seq<byte>)
    ensures r == outf + SegmentBytes(s.View())
  {
    r := outf + PutUint32(s.addr) + PutUint32(s.data.Length);
    r := r + s.data[..];
  }

  // ---------- flash segments ----------

  /** Write the data of segments; size is how much that was. */
  method WriteSegments(outf: seq<byte>, segs: seq<EspSegment>) returns (r: seq<byte>, size: nat)
    ensures r == outf + DataOf(Views(segs)) && size == |DataOf(Views(segs))|
  {
    r, size := outf, 0;
    ghost var views := Views(segs);
    for n := 0 to |segs|
      invariant r == outf + DataOf(views[..n]) && size == |DataOf(views[..n])|
    {
      assert views[..n + 1][..n] == views[..n];
      r := r + segs[n].data[..];
      size := size + segs[n].data.Length;
    }
    assert views[..|segs|] == views;
  }

  /** Zero-fill up to an offset, unless already past it. */
  method PadTo(outf: seq<byte>, offset: nat) returns (r: Option<seq<byte>>)
    ensures r == if |outf| > offset then None else Some(outf + Zeros(offset - |outf|))
  {
    if |outf| > offset {
      return None;
    }
    return Some(outf + Zeros(offset - |outf|));
  }

  /** Divide flash segments into DROM and IROM. */
  method SplitRoms(flash: seq<EspSegment>) returns (dromSegs: seq<EspSegment>, iromSegs: seq<EspSegment>)
    ensures Views(dromSegs) == DromOf(Esp32, Views(flash)) && Views(iromSegs) == IromOf(Esp32, Views(flash))
  {
    hide Select, Views, IsDrom;
    dromSegs, iromSegs := [], [];
    ghost var views := Views(flash);
    RomsEmpty(views);
    for k := 0 to |flash|
      invariant Views(flash) == views
      invariant Views(dromSegs) == DromOf(Esp32, views[..k]) && Views(iromSegs) == IromOf(Esp32, views[..k])
    {
      SelectPush(views, k, (a: nat) => IsDrom(Esp32, a));
      SelectPush(views, k, (a: nat) => !IsDrom(Esp32, a));
      if IsDrom(Esp32, flash[k].addr) {
        ViewsPush(dromSegs, flash[k]);
        dromSegs := dromSegs + [flash[k]];
      } else {
        ViewsPush(iromSegs, flash[k]);
        iromSegs := iromSegs + [flash[k]];
      }
    }
    assert views[..|flash|] == views;
  }

  lemma RomsEmpty(views: seq<Segment>)
    ensures DromOf(Esp32, views[..0]) == [] && IromOf(Esp32, views[..0]) == [] && Views([]) == []
  {
  }

  /** Zero-fill up to an offset and write segments there. */
  method AppendAt(outf: seq<byte>, offset: nat, segs: seq<EspSegment>) returns (r: Option<seq<byte>>, size: nat)
    ensures r == WriteAt(outf, offset, DataOf(Views(segs)))
    ensures r.Some? ==> size == |DataOf(Views(segs))|
  {
    var padded := PadTo(outf, offset);
    if padded.None? {
      return None, 0;
    }
    var image;
    image, size := WriteSegments(padded.value, segs);
    r := Some(image);
  }

  method AppendEsp32(outf: seq<byte>, makeImage: bool, drom: nat, flash: seq<EspSegment>)
    returns (r: Result<seq<byte>, Error>)
    ensures r == Esp32Append(outf, makeImage, drom, DromOf(Esp32, Views(flash)), IromOf(Esp32, Views(flash)))
  {
    hide DromOf, IromOf, DataOf, DromPages, Views, WriteAt, Esp32Irom, ImageOffset;
    ghost var views := Views(flash);
    var dromSegs, iromSegs := SplitRoms(flash);
    ghost var dromViews, iromViews := DromOf(Esp32, views), IromOf(Esp32, views);
    assert Views(flash) == views;
    NoData(dromViews);
    var image := Some(outf);
    var dromSize := 0;
    if |dromSegs| > 0 {
      image, dromSize := AppendAt(outf, ImageOffset(makeImage, drom), dromSegs);
      assert Views(dromSegs) == dromViews && Views(iromSegs) == iromViews && Views(flash) == views;
      if image.None? {
        return Err(OverlapsDrom);
      }
    }
    if |iromSegs| > 0 {
      var size;
      image, size := AppendAt(image.value, ImageOffset(makeImage, Esp32Irom(drom, dromSize)), iromSegs);
      assert Views(iromSegs) == iromViews && Views(flash) == views;
      if image.None? {
        return Err(OverlapsIrom);
      }
    }
    return Ok(image.value);
  }

  lemma NoData(segs: seq<Segment>)
    ensures segs == [] ==> DataOf(segs) == []
  {
  }

  /** The one IROM and the one DROM segment. */
  method FindRomSegments(flash: seq<EspSegment>) returns (r: Result<(nat, nat), Error>)
    ensures r == FindRoms(Views(flash), 0, None, None)
  {
    hide Views;
    ghost var views := Views(flash);
    var irom: Option<nat>, drom: Option<nat> := None, None;
    for k := 0 to |flash|
      invariant Views(flash) == views
      invariant (irom.Some? ==> irom.value < k) && (drom.Some? ==> drom.value < k)
      invariant FindRoms(views, k, irom, drom) == FindRoms(views, 0, None, None)
    {
      if IsIrom(Esp32S3, flash[k].addr) {
        if irom.Some? {
          return Err(MultipleIrom);
        }
        irom := Some(k);
      } else if IsDrom(Esp32S3, flash[k].addr) {
        if drom.Some? {
          return Err(MultipleDrom);
        }
        drom := Some(k);
      }
    }
    if irom.None? {
      return Err(MissingIrom);
    }
    if drom.None? {
      return Err(MissingDrom);
    }
    return Ok((irom.value, drom.value));
  }

  method AppendS3(outf: seq<byte>, iromOffset: nat, irom: seq<byte>, dromOffset: nat, drom: seq<byte>)
    returns (r: Result<seq<byte>, Error>)
    ensures r == S3Append(outf, iromOffset, irom, dromOffset, drom)
  {
    var padded := PadTo(outf, iromOffset);
    if padded.None? {
      return Err(OverlapsIrom);
    }
    var image := padded.value + irom;
    padded := PadTo(image, dromOffset);
    if padded.None? {
      return Err(OverlapsDrom);
    }
    return Ok(padded.value + drom);
  }

  // ---------- images ----------

  lemma BuffersApart(chip: Chip, segs: seq<EspSegment>, ram: seq<EspSegment>, flash: seq<EspSegment>)
    requires Separate(segs)
    requires forall s :: s in ram ==> s in segs && !IsFlash(chip, s.addr)
    requires forall s :: s in flash ==> s in segs && IsFlash(chip, s.addr)
    ensures Buffers(ram) !! Buffers(flash) && Buffers(ram) <= Buffers(segs)
  {
    forall s, t | s in ram && t in flash
      ensures s.data != t.data
    {
      var i :| 0 <= i < |segs| && segs[i] == s;
      var j :| 0 <= j < |segs| && segs[j] == t;
      assert i != j;
    }
  }

  method BuildEsp32(makeImage: bool, ram: seq<EspSegment>, flash: seq<EspSegment>, syms: Symbols, entry: nat, sha: Hash)
    returns (r: Result<seq<byte>, Error>)
    requires Separate(ram) && Buffers(ram) !! Buffers(flash)
    modifies Buffers(ram)
    ensures r == Esp32Image(makeImage, old(Views(ram)), old(Views(flash)), syms, entry, sha)
  {
    hide Views, Separate, Patch, PredictedSize, RamImage, Esp32Append, DromOf, IromOf, Lookup;
    var ramImageSize := PredictSize(0, ram);
    var drom := PageStart((FLASH_BASE + ramImageSize + PAGE - 1) % TWO32);
    var sym := LookupSymbol(syms, "_drom_flash_addr");
    if sym.None? || sym.value == 0 {
      return Err(SymbolNotFound);
    }
    assert Views(ram) == old(Views(ram));
    var patched := PatchWord(ram, sym.value, drom);
    if !patched {
      return Err(SymbolNotInRam);
    }
    assert Views(flash) == old(Views(flash));
    var outf := WriteRamImage(Lead(makeImage), Esp32, ram, entry, sha);
    assert Views(flash) == old(Views(flash));
    r := AppendEsp32(outf, makeImage, drom, flash);
  }

  method PatchNamed(segs: seq<EspSegment>, syms: Symbols, name: string, value: nat) returns (e: Option<Error>)
    requires Separate(segs)
    modifies Buffers(segs)
    ensures var r := PatchSymbol(old(Views(segs)), syms, name, value);
            if r.Ok? then e == None && Views(segs) == r.value else e == Some(r.error)
  {
    hide Views, Separate, Patch, Lookup;
    var sym := LookupSymbol(syms, name);
    if sym.None? {
      return Some(SymbolNotFound);
    }
    assert Views(segs) == old(Views(segs));
    var patched := PatchWord(segs, sym.value, value);
    return if patched then None else Some(SymbolNotInRam);
  }

  method BuildS3(makeImage: bool, ram: seq<EspSegment>, flash: seq<EspSegment>, syms: Symbols, entry: nat, sha: Hash)
    returns (r: Result<seq<byte>, Error>)
    requires Separate(ram) && Buffers(ram) !! Buffers(flash)
    modifies Buffers(ram)
    ensures r == S3Image(makeImage, old(Views(ram)), old(Views(flash)), syms, entry, sha)
  {
    hide Views, Separate, PatchSymbol, PredictedSize, RamImage, S3Append, FindRoms, OffsetForVma, PageStart;
    var roms := FindRomSegments(flash);
    if roms.Err? {
      return Err(roms.error);
    }
    assert Views(ram) == old(Views(ram)) && Views(flash) == old(Views(flash));
    var irom, drom := flash[roms.value.0], flash[roms.value.1];
    var ramImageSize := PredictSize(Lead(makeImage), ram);
    var iromOffset := OffsetForVma(ramImageSize, irom.addr);
    var iromEnd := iromOffset + irom.data.Length;
    var dromOffset := OffsetForVma(iromEnd, drom.addr);
    if !makeImage && iromOffset != ramImageSize {
      return Err(PaddingBeforeIrom);
    }
    if !makeImage && dromOffset - iromEnd >= 16 {
      return Err(PaddingBeforeDrom);
    }
    assert Views(ram) == old(Views(ram));
    var e := PatchNamed(ram, syms, "_irom_flash_addr", PageStart(iromOffset % TWO32));
    if e.Some? {
      return Err(e.value);
    }
    e := PatchNamed(ram, syms, "_drom_flash_addr", PageStart(dromOffset % TWO32));
    if e.Some? {
      return Err(e.value);
    }
    assert Views(flash) == old(Views(flash));
    var outf := WriteRamImage(Lead(makeImage), Esp32S3, ram, entry, sha);
    assert Views(flash) == old(Views(flash));
    r := AppendS3(outf, iromOffset, irom.data[..], dromOffset, drom.data[..]);
  }

  /** The firmware image of a list of segments. */
  method MakeFirmwareImage(chip: Chip, makeImage: bool, segs: seq<EspSegment>, syms: Symbols, entry: nat, sha: Hash)
    returns (r: Result<seq<byte>, Error>)
    requires Separate(segs)
    modifies Buffers(segs)
    ensures r == FirmwareImage(chip, makeImage, old(Views(segs)), syms, entry, sha)
  {
    hide Views, Separate, RamOf, FlashOf, RamImage, Esp32Image, S3Image, IsFlash;
    var ram, flash := SplitSegments(chip, segs);
    BuffersApart(chip, segs, ram, flash);
    assert Views(segs) == old(Views(segs));
    if |flash| == 0 {
      var outf := WriteRamImage(Lead(makeImage), chip, ram, entry, sha);
      r := Ok(outf);
    } else if chip.Esp32? {
      r := BuildEsp32(makeImage, ram, flash, syms, entry, sha);
    } else {
      r := BuildS3(makeImage, ram, flash, syms, entry, sha);
    }
    if r.Ok? && makeImage {
      var grow := IMAGE_SIZE - |r.value|;
      if grow > 0 {
        r := Ok(r.value + Zeros(grow));
      }
    }
  }
}
