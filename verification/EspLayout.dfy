/**
 Where the flash-mapped segments of an ESP image go, and how their places are made known to
 the startup code by patching words of the RAM segments.
 */
module EspLayout {
  import opened Wrappers
  import opened Bytes
  import opened EspImage

  const PAGE: nat := 0x10000
  const FLASH_BASE: nat := 0x1000
  const IMAGE_SIZE: nat := 4096 * 1024

  datatype Error =
    | MultipleIrom | MultipleDrom | MissingIrom | MissingDrom
    | PaddingBeforeIrom | PaddingBeforeDrom
    | SymbolNotFound | SymbolNotInRam
    | OverlapsDrom | OverlapsIrom

  type Symbols = seq<(string, nat)>

  // ---------- pages ----------

  /** The start of the 64 KiB page that holds an address. */
  function PageStart(x: nat): (r: nat)
    ensures r <= x < r + PAGE && r % PAGE == 0
  {
    PageRemainder(x / PAGE);
    x - x % PAGE
  }

  lemma PageRemainder(q: nat)
    ensures (PAGE * q) % PAGE == 0
  {
  }

  lemma SamePageOffset(page: nat, r: nat)
    requires page % PAGE == 0 && r < PAGE
    ensures (page + r) % PAGE == r
  {
  }

  /** The first offset at or after a minimum with the same low 16 bits as the address. */
  function OffsetForVma(min: nat, addr: nat): (r: nat)
    ensures min <= r < min + PAGE && r % PAGE == addr % PAGE
  {
    SamePageOffset(PageStart(min), addr % PAGE);
    SamePageOffset(PageStart(min) + PAGE, addr % PAGE);
    var offset := PageStart(min) + addr % PAGE;
    if offset < min then offset + PAGE else offset
  }

  /** No smaller offset would do. */
  lemma OffsetLeast(min: nat, addr: nat, o: nat)
    requires min <= o && o % PAGE == addr % PAGE
    ensures OffsetForVma(min, addr) <= o
  {
  }

  /** An offset with the low bits of an address lies in its page where the address lies in its own. */
  lemma PageOfOffset(offset: nat, addr: nat)
    requires offset % PAGE == addr % PAGE
    ensures PageStart(offset) + (addr - PageStart(addr)) == offset
  {
  }

  // ---------- patching ----------

  /** Whether a segment holds the whole word at an address. */
  predicate HoldsWord(s: Segment, sym: nat) {
    s.addr <= sym && sym + 4 <= s.addr + |s.data|
  }

  /** All four bytes of the word at an address lie in the segment. */
  ghost predicate WordInside(s: Segment, sym: nat) {
    forall a: nat :: sym <= a < sym + 4 ==> InSegment(s, a)
  }

  predicate InSegment(s: Segment, a: nat) {
    s.addr <= a < s.addr + |s.data|
  }

  lemma HoldsWordMeaning(s: Segment, sym: nat)
    ensures HoldsWord(s, sym) <==> WordInside(s, sym)
  {
    if WordInside(s, sym) {
      assert InSegment(s, sym) && InSegment(s, sym + 3);
    }
  }

  /** Some segment holds the whole word. */
  ghost predicate WordLoaded(segs: seq<Segment>, sym: nat) {
    exists i :: 0 <= i < |segs| && WordInside(segs[i], sym)
  }

  lemma WordLoadedMeaning(segs: seq<Segment>, sym: nat)
    ensures WordLoaded(segs, sym) <==> exists i :: 0 <= i < |segs| && HoldsWord(segs[i], sym)
  {
    hide HoldsWord, WordInside;
    forall i | 0 <= i < |segs| ensures HoldsWord(segs[i], sym) <==> WordInside(segs[i], sym) {
      HoldsWordMeaning(segs[i], sym);
    }
  }

  function FirstHolding(segs: seq<Segment>, sym: nat, k: nat): (i: nat)
    requires k <= |segs|
    ensures k <= i <= |segs|
    ensures i < |segs| ==> HoldsWord(segs[i], sym)
    ensures forall j :: k <= j < i ==> !HoldsWord(segs[j], sym)
    decreases |segs| - k
  {
    if k == |segs| || HoldsWord(segs[k], sym) then k else FirstHolding(segs, sym, k + 1)
  }

  function PatchData(data: seq<byte>, off: nat, value: nat): (r: seq<byte>)
    requires off + 4 <= |data|
    ensures |r| == |data|
  {
    data[..off] + PutUint32(value) + data[off + 4..]
  }

  /** The segments after the word at an address was set in the first segment that holds it. */
  function Patch(segs: seq<Segment>, sym: nat, value: nat): Option<seq<Segment>> {
    var i := FirstHolding(segs, sym, 0);
    if i == |segs| then None
    else Some(segs[i := segs[i].(data := PatchData(segs[i].data, sym - segs[i].addr, value))])
  }

  /** The word that a program finds at an address once the segments are loaded. */
  function ReadWord(segs: seq<Segment>, sym: nat): Option<nat> {
    var i := FirstHolding(segs, sym, 0);
    if i == |segs| then None else Some(GetUint32(segs[i].data[sym - segs[i].addr..]))
  }

  /** Same number of segments, at the same addresses, of the same lengths. */
  ghost predicate SameShape(a: seq<Segment>, b: seq<Segment>) {
    |a| == |b| && forall i :: 0 <= i < |a| ==> a[i].addr == b[i].addr && |a[i].data| == |b[i].data|
  }

  /** A shape decides which segment holds a word. */
  lemma SameHolder(a: seq<Segment>, b: seq<Segment>, sym: nat)
    requires SameShape(a, b)
    ensures FirstHolding(a, sym, 0) == FirstHolding(b, sym, 0)
  {
    var i, j := FirstHolding(a, sym, 0), FirstHolding(b, sym, 0);
    if i < |a| {
      assert HoldsWord(b[i], sym);
    }
    if j < |a| {
      assert HoldsWord(a[j], sym);
    }
  }

  lemma {:induction false} SameBodySize(a: seq<Segment>, b: seq<Segment>, n: nat)
    requires SameShape(a, b) && n <= |a|
    ensures BodySize(a, n) == BodySize(b, n)
  {
    if n > 0 {
      SameBodySize(a, b, n - 1);
    }
  }

  /** Patching works if and only if some segment holds the word; it then changes no address,
      no length, no size, and no byte outside the word. */
  lemma PatchKeeps(segs: seq<Segment>, sym: nat, value: nat)
    ensures Patch(segs, sym, value).Some? <==> exists i :: 0 <= i < |segs| && HoldsWord(segs[i], sym)
    ensures Patch(segs, sym, value).Some? ==>
              var now := Patch(segs, sym, value).value;
              && SameShape(segs, now)
              && (forall lead: nat :: PredictedSize(lead, now) == PredictedSize(lead, segs))
              && forall i, k :: 0 <= i < |segs| && 0 <= k < |segs[i].data|
                             && (segs[i].addr + k < sym || sym + 4 <= segs[i].addr + k)
                             ==> now[i].data[k] == segs[i].data[k]
  {
    if Patch(segs, sym, value).Some? {
      SameBodySize(segs, Patch(segs, sym, value).value, |segs|);
    }
  }

  /** The patched word reads back. */
  lemma PatchReads(segs: seq<Segment>, sym: nat, value: nat)
    requires Patch(segs, sym, value).Some?
    ensures ReadWord(Patch(segs, sym, value).value, sym) == Some(value % TWO32)
  {
    hide GetUint32, PutUint32;
    var now := Patch(segs, sym, value).value;
    PatchKeeps(segs, sym, value);
    SameHolder(segs, now, sym);
    var i := FirstHolding(segs, sym, 0);
    var off := sym - segs[i].addr;
    GetPut(value, segs[i].data[off + 4..]);
    assert now[i].data[off..] == PutUint32(value) + segs[i].data[off + 4..];
  }

  /** Every word that does not overlap the patched one reads as before. */
  lemma PatchSpares(segs: seq<Segment>, sym: nat, value: nat, other: nat)
    requires Patch(segs, sym, value).Some?
    requires other + 4 <= sym || sym + 4 <= other
    ensures ReadWord(Patch(segs, sym, value).value, other) == ReadWord(segs, other)
  {
    hide PutUint32, GetUint32;
    var now := Patch(segs, sym, value).value;
    PatchKeeps(segs, sym, value);
    SameHolder(segs, now, other);
    var i := FirstHolding(segs, other, 0);
    if i < |segs| {
      var off := other - segs[i].addr;
      assert forall j :: off <= j < off + 4 ==> now[i].data[j] == segs[i].data[j];
      SameWord(now[i].data, segs[i].data, off);
    }
  }

  lemma SameWord(a: seq<byte>, b: seq<byte>, off: nat)
    requires |a| == |b| && off + 4 <= |a| && forall j :: off <= j < off + 4 ==> a[j] == b[j]
    ensures GetUint32(a[off..]) == GetUint32(b[off..])
  {
    assert forall j :: 0 <= j < 4 ==> a[off..][j] == b[off..][j];
  }

  /** The first symbol of a name. */
  function Lookup(syms: Symbols, name: string): Option<nat> {
    if syms == [] then None
    else if syms[0].0 == name then Some(syms[0].1)
    else Lookup(syms[1..], name)
  }

  /** Symbol i is the first of its name. */
  ghost predicate FirstNamed(syms: Symbols, name: string, i: nat) {
    i < |syms| && syms[i].0 == name && forall j :: 0 <= j < i ==> syms[j].0 != name
  }

  /** The lookup finds the value of the first symbol of the name, and nothing exactly if there
      is none. */
  lemma {:induction false} LookupFirst(syms: Symbols, name: string, i: nat)
    ensures FirstNamed(syms, name, i) ==> Lookup(syms, name) == Some(syms[i].1)
    ensures Lookup(syms, name).None? <==> forall j :: 0 <= j < |syms| ==> syms[j].0 != name
    decreases |syms|
  {
    if syms != [] && syms[0].0 != name {
      var rest := syms[1..];
      LookupFirst(rest, name, if i > 0 then i - 1 else 0);
      if FirstNamed(syms, name, i) {
        assert forall j :: 0 <= j < i - 1 ==> rest[j].0 == syms[j + 1].0;
        assert FirstNamed(rest, name, i - 1);
      }
      assert forall j :: 0 < j < |syms| ==> syms[j] == rest[j - 1];
    }
  }

  // ---------- splitting ----------

  predicate IsDrom(chip: Chip, addr: nat) {
    if chip.Esp32? then 0x3F400000 <= addr < 0x3F800000 else 0x3C000000 <= addr < 0x3E000000
  }

  predicate IsIrom(chip: Chip, addr: nat) {
    if chip.Esp32? then 0x400D0000 <= addr < 0x40400000 else 0x42000000 <= addr < 0x44000000
  }

  predicate IsFlash(chip: Chip, addr: nat) {
    IsDrom(chip, addr) || IsIrom(chip, addr)
  }

  /** The segments whose address is, or is not, in flash, in order. */
  function Select(segs: seq<Segment>, p: nat -> bool): seq<Segment> {
    if segs == [] then []
    else
      var front, last := Select(segs[..|segs| - 1], p), segs[|segs| - 1];
      if p(last.addr) then front + [last] else front
  }

  function RamOf(chip: Chip, segs: seq<Segment>): seq<Segment> {
    Select(segs, (a: nat) => !IsFlash(chip, a))
  }

  function FlashOf(chip: Chip, segs: seq<Segment>): seq<Segment> {
    Select(segs, (a: nat) => IsFlash(chip, a))
  }

  function DromOf(chip: Chip, flash: seq<Segment>): seq<Segment> {
    Select(flash, (a: nat) => IsDrom(chip, a))
  }

  function IromOf(chip: Chip, flash: seq<Segment>): seq<Segment> {
    Select(flash, (a: nat) => !IsDrom(chip, a))
  }

  // ---------- writing ----------

  function DataOf(segs: seq<Segment>): seq<byte> {
    if segs == [] then [] else DataOf(segs[..|segs| - 1]) + segs[|segs| - 1].data
  }

  /** Zero-fill up to an offset and write there; fails when already past it. */
  function WriteAt(outf: seq<byte>, offset: nat, data: seq<byte>): Option<seq<byte>> {
    if |outf| > offset then None else Some(outf + Zeros(offset - |outf|) + data)
  }

  /** Images for an emulator are grown to 4 MiB. */
  function Grown(makeImage: bool, outf: seq<byte>): seq<byte> {
    if makeImage && |outf| < IMAGE_SIZE then outf + Zeros(IMAGE_SIZE - |outf|) else outf
  }

  function Lead(makeImage: bool): nat {
    if makeImage then 4096 else 0
  }

  /** The flash address of the first byte of the image. */
  function Base(makeImage: bool): nat {
    if makeImage then 0 else FLASH_BASE
  }

  /** That the flash holds these bytes from an address on, once the image is flashed. */
  ghost predicate FlashHolds(image: seq<byte>, base: nat, addr: nat, data: seq<byte>) {
    base <= addr && addr - base + |data| <= |image| && image[addr - base..addr - base + |data|] == data
  }

  lemma WriteAtHolds(outf: seq<byte>, base: nat, addr: nat, data: seq<byte>)
    requires base + |outf| <= addr
    ensures WriteAt(outf, addr - base, data).Some?
    ensures var now := WriteAt(outf, addr - base, data).value;
            outf <= now && |now| == addr - base + |data| && FlashHolds(now, base, addr, data)
  {
  }

  lemma HoldsGrows(image: seq<byte>, more: seq<byte>, base: nat, addr: nat, data: seq<byte>)
    requires image <= more && FlashHolds(image, base, addr, data)
    ensures FlashHolds(more, base, addr, data)
  {
    var from, to := addr - base, addr - base + |data|;
    assert more[..|image|] == image;
    assert more[from..to] == image[from..to];
  }

  // ---------- ESP32 ----------

  /** The flash address chosen for the DROM segments, as a 32-bit number. */
  function Esp32Drom(ram: seq<Segment>): nat {
    PageStart((FLASH_BASE + PredictedSize(0, ram) + PAGE - 1) % TWO32)
  }

  /** The number of pages reserved for DROM data. */
  function DromPages(dromSize: nat): nat {
    var pages := (dromSize + PAGE - 1) / PAGE;
    if pages == 0 then 1 else pages
  }

  function Esp32Irom(drom: nat, dromSize: nat): nat {
    (drom + DromPages(dromSize) * PAGE) % TWO32
  }

  /** The image offset of a flash address, in 32-bit arithmetic. */
  function ImageOffset(makeImage: bool, addr: nat): nat {
    if makeImage then addr else (addr - FLASH_BASE) % TWO32
  }

  /** The image with DROM and then IROM segments appended. */
  function Esp32Append(outf: seq<byte>, makeImage: bool, drom: nat, dromSegs: seq<Segment>, iromSegs: seq<Segment>)
    : Result<seq<byte>, Error>
  {
    var data := DataOf(dromSegs);
    var first := if dromSegs == [] then Some(outf) else WriteAt(outf, ImageOffset(makeImage, drom), data);
    if first.None? then Err(OverlapsDrom)
    else if iromSegs == [] then Ok(first.value)
    else
      var second := WriteAt(first.value, ImageOffset(makeImage, Esp32Irom(drom, |data|)), DataOf(iromSegs));
      if second.None? then Err(OverlapsIrom) else Ok(second.value)
  }

  function Esp32Image(makeImage: bool, ram: seq<Segment>, flash: seq<Segment>, syms: Symbols, entry: nat, sha: Hash)
    : Result<seq<byte>, Error>
  {
    var drom := Esp32Drom(ram);
    var sym := Lookup(syms, "_drom_flash_addr");
    if sym.None? || sym.value == 0 then Err(SymbolNotFound)
    else
      var patched := Patch(ram, sym.value, drom);
      if patched.None? then Err(SymbolNotInRam)
      else
        Esp32Append(RamImage(Lead(makeImage), Esp32, patched.value, entry, sha), makeImage, drom,
                    DromOf(Esp32, flash), IromOf(Esp32, flash))
  }

  // ---------- ESP32-S3 ----------

  /** Find the one IROM and the one DROM segment, from segment k on. */
  function FindRoms(flash: seq<Segment>, k: nat, irom: Option<nat>, drom: Option<nat>)
    : (r: Result<(nat, nat), Error>)
    requires k <= |flash|
    requires (irom.Some? ==> irom.value < k) && (drom.Some? ==> drom.value < k)
    ensures r.Ok? ==> r.value.0 < |flash| && r.value.1 < |flash|
    decreases |flash| - k
  {
    if k == |flash| then
      if irom.None? then Err(MissingIrom)
      else if drom.None? then Err(MissingDrom)
      else Ok((irom.value, drom.value))
    else if IsIrom(Esp32S3, flash[k].addr) then
      if irom.Some? then Err(MultipleIrom) else FindRoms(flash, k + 1, Some(k), drom)
    else if IsDrom(Esp32S3, flash[k].addr) then
      if drom.Some? then Err(MultipleDrom) else FindRoms(flash, k + 1, irom, Some(k))
    else FindRoms(flash, k + 1, irom, drom)
  }

  /** The offsets of IROM and DROM in the image, or why they are refused. */
  function S3Offsets(makeImage: bool, ram: seq<Segment>, irom: Segment, drom: Segment): Result<(nat, nat), Error> {
    var size := PredictedSize(Lead(makeImage), ram);
    var iromOffset := OffsetForVma(size, irom.addr);
    var iromEnd := iromOffset + |irom.data|;
    var dromOffset := OffsetForVma(iromEnd, drom.addr);
    if !makeImage && iromOffset != size then Err(PaddingBeforeIrom)
    else if !makeImage && dromOffset - iromEnd >= 16 then Err(PaddingBeforeDrom)
    else Ok((iromOffset, dromOffset))
  }

  /** Set a word named by a symbol. */
  function PatchSymbol(segs: seq<Segment>, syms: Symbols, name: string, value: nat): Result<seq<Segment>, Error> {
    var sym := Lookup(syms, name);
    if sym.None? then Err(SymbolNotFound)
    else
      var patched := Patch(segs, sym.value, value);
      if patched.None? then Err(SymbolNotInRam) else Ok(patched.value)
  }

  /** The RAM segments with both flash pages patched in. */
  function S3Patched(ram: seq<Segment>, syms: Symbols, iromOffset: nat, dromOffset: nat): Result<seq<Segment>, Error> {
    var first := PatchSymbol(ram, syms, "_irom_flash_addr", PageStart(iromOffset % TWO32));
    if first.Err? then first
    else PatchSymbol(first.value, syms, "_drom_flash_addr", PageStart(dromOffset % TWO32))
  }

  function S3Append(outf: seq<byte>, iromOffset: nat, irom: seq<byte>, dromOffset: nat, drom: seq<byte>)
    : Result<seq<byte>, Error>
  {
    var first := WriteAt(outf, iromOffset, irom);
    if first.None? then Err(OverlapsIrom)
    else
      var second := WriteAt(first.value, dromOffset, drom);
      if second.None? then Err(OverlapsDrom) else Ok(second.value)
  }

  function S3Image(makeImage: bool, ram: seq<Segment>, flash: seq<Segment>, syms: Symbols, entry: nat, sha: Hash)
    : Result<seq<byte>, Error>
  {
    var roms := FindRoms(flash, 0, None, None);
    if roms.Err? then Err(roms.error)
    else
      var irom, drom := flash[roms.value.0], flash[roms.value.1];
      var offsets := S3Offsets(makeImage, ram, irom, drom);
      if offsets.Err? then Err(offsets.error)
      else
        var patched := S3Patched(ram, syms, offsets.value.0, offsets.value.1);
        if patched.Err? then Err(patched.error)
        else
          S3Append(RamImage(Lead(makeImage), Esp32S3, patched.value, entry, sha),
                   offsets.value.0, irom.data, offsets.value.1, drom.data)
  }

  /** The whole image, or the error, for a list of segments. */
  function FirmwareImage(chip: Chip, makeImage: bool, segs: seq<Segment>, syms: Symbols, entry: nat, sha: Hash)
    : Result<seq<byte>, Error>
  {
    var ram, flash := RamOf(chip, segs), FlashOf(chip, segs);
    var image :=
      if flash == [] then Ok(RamImage(Lead(makeImage), chip, ram, entry, sha))
      else if chip.Esp32? then Esp32Image(makeImage, ram, flash, syms, entry, sha)
      else S3Image(makeImage, ram, flash, syms, entry, sha);
    if image.Err? then image else Ok(Grown(makeImage, image.value))
  }
}
