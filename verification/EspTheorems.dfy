/**
 What an ESP image means: the bootloader finds the patched segments, the startup code finds
 the patched words, and the pages they name hold the flash segments.
 */
module EspTheorems {
  import opened Wrappers
  import opened Bytes
  import opened EspImage
  import opened EspLayout

  // ---------- ESP32 ----------

  /** The addresses chosen for the ESP32 fit in 32 bits. */
  ghost predicate Esp32Fits(ram: seq<Segment>, dromSize: nat) {
    && FLASH_BASE + PredictedSize(0, ram) + PAGE - 1 < TWO32
    && Esp32Drom(ram) + DromPages(dromSize) * PAGE < TWO32
  }

  lemma Rounding(x: nat)
    ensures x <= PageStart(x + PAGE - 1) < x + PAGE
  {
  }

  lemma PagesCover(size: nat)
    ensures size <= DromPages(size) * PAGE
    ensures size > 0 ==> DromPages(size) * PAGE < size + PAGE
  {
  }

  lemma PagesAligned(page: nat, n: nat)
    requires page % PAGE == 0
    ensures (page + n * PAGE) % PAGE == 0
  {
  }

  /** DROM starts at the first page boundary at or after the end of the RAM image, IROM at the
      first one at or after the end of DROM, but always at least one page on. */
  lemma Esp32Addresses(ram: seq<Segment>, dromSize: nat)
    requires Esp32Fits(ram, dromSize)
    ensures var drom := Esp32Drom(ram); var irom := Esp32Irom(drom, dromSize);
            && drom % PAGE == 0 && irom % PAGE == 0
            && FLASH_BASE + PredictedSize(0, ram) <= drom < FLASH_BASE + PredictedSize(0, ram) + PAGE
            && drom + dromSize <= irom && drom < irom
            && (dromSize > 0 ==> irom < drom + dromSize + PAGE)
            && (dromSize == 0 ==> irom == drom + PAGE)
  {
    hide PageStart, DromPages, PredictedSize;
    Rounding(FLASH_BASE + PredictedSize(0, ram));
    PagesCover(dromSize);
    PagesAligned(Esp32Drom(ram), DromPages(dromSize));
    OnePage(dromSize);
  }

  lemma OnePage(size: nat)
    ensures DromPages(size) >= 1 && (size == 0 ==> DromPages(size) == 1)
  {
  }

  /** The RAM image, as written, ends where it was predicted to, before DROM. */
  lemma Esp32RamEnds(makeImage: bool, ram: seq<Segment>, patched: seq<Segment>, entry: nat, sha: Hash)
    requires HashOk(sha) && SameShape(ram, patched)
    ensures Base(makeImage) + |RamImage(Lead(makeImage), Esp32, patched, entry, sha)| == FLASH_BASE + PredictedSize(0, ram)
  {
    PredictionExact(Lead(makeImage), Esp32, patched, entry, sha);
    PredictionShift(if makeImage then 256 else 0, patched);
    SameBodySize(ram, patched, |ram|);
  }

  lemma OffsetExact(makeImage: bool, addr: nat)
    requires FLASH_BASE <= addr < TWO32
    ensures ImageOffset(makeImage, addr) == addr - Base(makeImage)
  {
  }

  /** Appending never fails and puts DROM and IROM data at the chosen flash addresses. */
  lemma Esp32Appends(outf: seq<byte>, makeImage: bool, ram: seq<Segment>, dromSegs: seq<Segment>, iromSegs: seq<Segment>)
    requires Esp32Fits(ram, |DataOf(dromSegs)|)
    requires Base(makeImage) + |outf| == FLASH_BASE + PredictedSize(0, ram)
    ensures var drom := Esp32Drom(ram);
            var r := Esp32Append(outf, makeImage, drom, dromSegs, iromSegs);
            && r.Ok? && outf <= r.value
            && (dromSegs != [] ==> FlashHolds(r.value, Base(makeImage), drom, DataOf(dromSegs)))
            && (iromSegs != [] ==>
                  FlashHolds(r.value, Base(makeImage), Esp32Irom(drom, |DataOf(dromSegs)|), DataOf(iromSegs)))
  {
    hide WriteAt, PredictedSize, DataOf, Esp32Drom, Esp32Irom, ImageOffset, FlashHolds, DromPages;
    var drom, base, data := Esp32Drom(ram), Base(makeImage), DataOf(dromSegs);
    var irom := Esp32Irom(drom, |data|);
    Esp32Addresses(ram, |data|);
    IromBelow(ram, |data|);
    OffsetExact(makeImage, drom);
    OffsetExact(makeImage, irom);
    WriteAtHolds(outf, base, drom, data);
    var first := if dromSegs == [] then outf else WriteAt(outf, drom - base, data).value;
    WriteAtHolds(first, base, irom, DataOf(iromSegs));
    if dromSegs != [] && iromSegs != [] {
      HoldsGrows(first, WriteAt(first, irom - base, DataOf(iromSegs)).value, base, drom, data);
    }
  }

  lemma IromBelow(ram: seq<Segment>, dromSize: nat)
    requires Esp32Fits(ram, dromSize)
    ensures Esp32Irom(Esp32Drom(ram), dromSize) < TWO32 && Esp32Drom(ram) < TWO32
  {
  }

  /** What makes an image right for a chip: its ROM bootloader, and no other, loads the given
      segments, jumps to the entry address and reads the flash at the right mode and speed,
      and the hash of the image follows it. */
  ghost predicate Boots(makeImage: bool, chip: Chip, image: seq<byte>, ram: seq<Segment>, loaded: seq<Segment>, entry: nat,
                        sha: Hash)
  {
    var lead := Lead(makeImage);
    && SameShape(ram, loaded)
    && lead <= |image|
    && (forall other: Chip :: other != chip ==> Load(other, image[lead..]).None?)
    && Load(chip, image[lead..]).Some?
    && var boot := Load(chip, image[lead..]).value;
    && boot.segs == loaded && boot.entry == entry % TWO32
    && boot.spi == DIO_80M && boot.minRev == 0
    && var hashed := lead + boot.hashed;
    && hashed + 32 <= |image|
    && image[hashed..hashed + 32] == sha(image[..hashed])
  }

  lemma ImageBoots(makeImage: bool, chip: Chip, ram: seq<Segment>, patched: seq<Segment>, entry: nat, sha: Hash,
                   image: seq<byte>)
    requires HashOk(sha) && Encodable(patched) && SameShape(ram, patched)
    requires RamImage(Lead(makeImage), chip, patched, entry, sha) <= image
    ensures Boots(makeImage, chip, image, ram, patched, entry, sha)
  {
    hide RamImage, Load, Encodable, HashOk, PredictedSize, SameShape;
    var start := RamImage(Lead(makeImage), chip, patched, entry, sha);
    LoadWritten(Lead(makeImage), chip, patched, entry, sha, image[|start|..]);
    assert image == start + image[|start|..];
  }

  /** Where the hash of a booting image is. */
  ghost function HashedEnd(makeImage: bool, chip: Chip, image: seq<byte>): nat
    requires Lead(makeImage) <= |image| && Load(chip, image[Lead(makeImage)..]).Some?
  {
    Lead(makeImage) + Load(chip, image[Lead(makeImage)..]).value.hashed
  }

  /** The stored hash is that of exactly what the bootloader reads if and only if the image is
      not one for an emulator, unless the hash function happens to collide: there the 4096
      zeros before the image are hashed too. */
  lemma HashCoversLoadedIff(makeImage: bool, chip: Chip, image: seq<byte>, ram: seq<Segment>, loaded: seq<Segment>,
                            entry: nat, sha: Hash)
    requires Boots(makeImage, chip, image, ram, loaded, entry, sha)
    requires var hashed := HashedEnd(makeImage, chip, image);
             image[..hashed] != image[Lead(makeImage)..hashed] ==> sha(image[..hashed]) != sha(image[Lead(makeImage)..hashed])
    ensures var hashed := HashedEnd(makeImage, chip, image);
            image[hashed..hashed + 32] == sha(image[Lead(makeImage)..hashed]) <==> !makeImage
  {
    hide Load;
    var lead, hashed := Lead(makeImage), HashedEnd(makeImage, chip, image);
    if makeImage {
      assert |image[..hashed]| != |image[lead..hashed]|;
    } else {
      assert image[lead..] == image;
      assert image[lead..hashed] == image[..hashed];
    }
  }

  lemma EncodableShape(a: seq<Segment>, b: seq<Segment>)
    requires Encodable(a) && SameShape(a, b)
    ensures Encodable(b)
  {
  }

  /** The image for an emulator is at least 4 MiB; growing it keeps what it starts with. */
  lemma GrownKeeps(makeImage: bool, outf: seq<byte>)
    ensures outf <= Grown(makeImage, outf)
    ensures makeImage ==> |Grown(makeImage, outf)| >= IMAGE_SIZE
    ensures !makeImage || |outf| >= IMAGE_SIZE ==> Grown(makeImage, outf) == outf
  {
  }

  /** ESP32 images: they fail only for a missing symbol, never for an overlap. Otherwise the
      bootloader loads the segments with `_drom_flash_addr` set to the page where the DROM
      data lies in flash, and the IROM data follows at a page boundary after it. */
  lemma Esp32Correct(makeImage: bool, ram: seq<Segment>, flash: seq<Segment>, syms: Symbols, entry: nat, sha: Hash)
    requires HashOk(sha) && Encodable(ram)
    requires Esp32Fits(ram, |DataOf(DromOf(Esp32, flash))|)
    ensures var r := Esp32Image(makeImage, ram, flash, syms, entry, sha);
            var sym := Lookup(syms, "_drom_flash_addr");
            var drom, data := Esp32Drom(ram), DataOf(DromOf(Esp32, flash));
            && (r.Ok? <==> sym.Some? && sym.value != 0 && WordLoaded(ram, sym.value))
            && (r.Ok? ==>
                  var image := Grown(makeImage, r.value);
                  && Patch(ram, sym.value, drom).Some?
                  && Boots(makeImage, Esp32, image, ram, Patch(ram, sym.value, drom).value, entry, sha)
                  && ReadWord(Patch(ram, sym.value, drom).value, sym.value) == Some(drom)
                  && (data != [] ==> FlashHolds(image, Base(makeImage), drom, data))
                  && (IromOf(Esp32, flash) != [] ==>
                        FlashHolds(image, Base(makeImage), Esp32Irom(drom, |data|), DataOf(IromOf(Esp32, flash)))))
  {
    hide RamImage, DromOf, IromOf, DataOf, Esp32Append, Boots, Encodable, HashOk, FlashHolds, ReadWord, Patch, Lookup,
      PredictedSize, SameShape, Esp32Drom, Esp32Irom, Grown;
    var sym := Lookup(syms, "_drom_flash_addr");
    var drom := Esp32Drom(ram);
    if sym.Some? && sym.value != 0 {
      WordLoadedMeaning(ram, sym.value);
      PatchKeeps(ram, sym.value, drom);
      if Patch(ram, sym.value, drom).Some? {
        Esp32Right(makeImage, ram, flash, sym.value, entry, sha);
      }
    }
  }

  /** The same, once the symbol is known to lie in a RAM segment. */
  lemma Esp32Right(makeImage: bool, ram: seq<Segment>, flash: seq<Segment>, sym: nat, entry: nat, sha: Hash)
    requires HashOk(sha) && Encodable(ram) && Patch(ram, sym, Esp32Drom(ram)).Some?
    requires Esp32Fits(ram, |DataOf(DromOf(Esp32, flash))|)
    ensures var drom, data := Esp32Drom(ram), DataOf(DromOf(Esp32, flash));
            var patched := Patch(ram, sym, drom).value;
            var r := Esp32Append(RamImage(Lead(makeImage), Esp32, patched, entry, sha), makeImage, drom,
                                 DromOf(Esp32, flash), IromOf(Esp32, flash));
            && r.Ok?
            && var image := Grown(makeImage, r.value);
            && Boots(makeImage, Esp32, image, ram, patched, entry, sha)
            && ReadWord(patched, sym) == Some(drom)
            && (data != [] ==> FlashHolds(image, Base(makeImage), drom, data))
            && (IromOf(Esp32, flash) != [] ==>
                  FlashHolds(image, Base(makeImage), Esp32Irom(drom, |data|), DataOf(IromOf(Esp32, flash))))
  {
    hide RamImage, DromOf, IromOf, DataOf, Esp32Append, Boots, Encodable, HashOk, FlashHolds, ReadWord, Patch,
      PredictedSize, SameShape, Esp32Drom, Esp32Irom, Grown;
    var drom, base := Esp32Drom(ram), Base(makeImage);
    var dromSegs, iromSegs := DromOf(Esp32, flash), IromOf(Esp32, flash);
    var patched := Patch(ram, sym, drom).value;
    var outf := RamImage(Lead(makeImage), Esp32, patched, entry, sha);
    PatchKeeps(ram, sym, drom);
    PatchReads(ram, sym, drom);
    IromBelow(ram, |DataOf(dromSegs)|);
    EncodableShape(ram, patched);
    Esp32RamEnds(makeImage, ram, patched, entry, sha);
    Esp32Appends(outf, makeImage, ram, dromSegs, iromSegs);
    DataNonempty(dromSegs);
    var written := Esp32Append(outf, makeImage, drom, dromSegs, iromSegs).value;
    var image := Grown(makeImage, written);
    GrownKeeps(makeImage, written);
    ImageBoots(makeImage, Esp32, ram, patched, entry, sha, image);
    if DataOf(dromSegs) != [] {
      HoldsGrows(written, image, base, drom, DataOf(dromSegs));
    }
    if iromSegs != [] {
      HoldsGrows(written, image, base, Esp32Irom(drom, |DataOf(dromSegs)|), DataOf(iromSegs));
    }
  }

  lemma DataNonempty(segs: seq<Segment>)
    ensures DataOf(segs) != [] ==> segs != []
  {
  }

  /** Where the data of segment i starts in the concatenation. */
  function Before(segs: seq<Segment>, i: nat): nat
    requires i <= |segs|
  {
    |DataOf(segs[..i])|
  }

  /** Each segment's data is in the concatenation, after all earlier ones. */
  lemma {:induction false} DataAt(segs: seq<Segment>, i: nat)
    requires i < |segs|
    ensures Before(segs, i) + |segs[i].data| <= |DataOf(segs)|
    ensures DataOf(segs)[Before(segs, i)..Before(segs, i) + |segs[i].data|] == segs[i].data
    decreases |segs|
  {
    var front, last := segs[..|segs| - 1], segs[|segs| - 1];
    if i < |segs| - 1 {
      DataAt(front, i);
      assert front[..i] == segs[..i];
      var from, to := Before(segs, i), Before(segs, i) + |segs[i].data|;
      assert DataOf(segs)[from..to] == DataOf(front)[from..to];
    }
  }

  // ---------- ESP32-S3 ----------

  ghost predicate SoleIrom(flash: seq<Segment>, i: nat) {
    && i < |flash| && IsIrom(Esp32S3, flash[i].addr)
    && forall j :: 0 <= j < |flash| && IsIrom(Esp32S3, flash[j].addr) ==> j == i
  }

  ghost predicate SoleDrom(flash: seq<Segment>, i: nat) {
    && i < |flash| && IsDrom(Esp32S3, flash[i].addr)
    && forall j :: 0 <= j < |flash| && IsDrom(Esp32S3, flash[j].addr) ==> j == i
  }

  /** What is known of the segments found among the first k. */
  ghost predicate Found(flash: seq<Segment>, k: nat, irom: Option<nat>, drom: Option<nat>) {
    && k <= |flash|
    && (irom.Some? ==> irom.value < k && IsIrom(Esp32S3, flash[irom.value].addr))
    && (drom.Some? ==> drom.value < k && IsDrom(Esp32S3, flash[drom.value].addr))
    && (forall j: nat :: j < k && IsIrom(Esp32S3, flash[j].addr) ==> irom == Some(j))
    && (forall j: nat :: j < k && IsDrom(Esp32S3, flash[j].addr) ==> drom == Some(j))
  }

  lemma {:induction false} FindExact(flash: seq<Segment>, k: nat, irom: Option<nat>, drom: Option<nat>, i: nat, d: nat)
    requires Found(flash, k, irom, drom)
    ensures FindRoms(flash, k, irom, drom) == Ok((i, d)) <==> SoleIrom(flash, i) && SoleDrom(flash, d)
    decreases |flash| - k
  {
    if k < |flash| {
      if IsIrom(Esp32S3, flash[k].addr) {
        if irom.None? {
          FindExact(flash, k + 1, Some(k), drom, i, d);
        }
      } else if IsDrom(Esp32S3, flash[k].addr) {
        if drom.None? {
          FindExact(flash, k + 1, irom, Some(k), i, d);
        }
      } else {
        FindExact(flash, k + 1, irom, drom, i, d);
      }
    }
  }

  /** The search succeeds exactly when there is one IROM and one DROM segment, and finds them. */
  lemma RomsExact(flash: seq<Segment>, i: nat, d: nat)
    ensures FindRoms(flash, 0, None, None) == Ok((i, d)) <==> SoleIrom(flash, i) && SoleDrom(flash, d)
  {
    FindExact(flash, 0, None, None, i, d);
  }

  /** Padding of this length brings an offset to the low bits of an address. */
  predicate Aligns(end: nat, gap: nat, addr: nat) {
    (end + gap) % PAGE == addr % PAGE
  }

  ghost predicate ShortPadding(end: nat, addr: nat) {
    exists gap: nat :: gap < 16 && Aligns(end, gap, addr)
  }

  /** A plain image is refused exactly when its RAM part does not end where the IROM address
      wants it to, or when no padding below 16 bytes brings DROM to its place. */
  lemma PaddingExact(makeImage: bool, ram: seq<Segment>, irom: Segment, drom: Segment)
    ensures var size := PredictedSize(Lead(makeImage), ram);
            S3Offsets(makeImage, ram, irom, drom).Ok? <==>
              makeImage || (Aligns(size, 0, irom.addr) && ShortPadding(size + |irom.data|, drom.addr))
  {
    hide PredictedSize, OffsetForVma;
    var size := PredictedSize(Lead(makeImage), ram);
    var end := size + |irom.data|;
    if Aligns(size, 0, irom.addr) {
      OffsetLeast(size, irom.addr, size);
      assert Aligns(end, OffsetForVma(end, drom.addr) - end, drom.addr);
      forall gap: nat | Aligns(end, gap, drom.addr)
        ensures OffsetForVma(end, drom.addr) - end <= gap
      {
        OffsetLeast(end, drom.addr, end + gap);
      }
    }
  }

  /** The segment's data lies from the given flash page on, as far into it as the segment's
      address lies into its own page. */
  ghost predicate InPage(image: seq<byte>, page: nat, s: Segment) {
    page % PAGE == 0 && FlashHolds(image, 0, page + (s.addr - PageStart(s.addr)), s.data)
  }

  lemma PlacedInPage(image: seq<byte>, offset: nat, s: Segment)
    requires FlashHolds(image, 0, offset, s.data) && offset % PAGE == s.addr % PAGE && offset < TWO32
    ensures InPage(image, PageStart(offset % TWO32), s)
  {
    hide PageStart;
    PageOfOffset(offset, s.addr);
  }

  /** Appending never fails and places both segments. */
  lemma S3Appends(outf: seq<byte>, makeImage: bool, ram: seq<Segment>, irom: Segment, drom: Segment)
    requires |outf| == PredictedSize(Lead(makeImage), ram) && S3Offsets(makeImage, ram, irom, drom).Ok?
    ensures var o := S3Offsets(makeImage, ram, irom, drom).value;
            var r := S3Append(outf, o.0, irom.data, o.1, drom.data);
            && r.Ok? && outf <= r.value
            && FlashHolds(r.value, 0, o.0, irom.data) && FlashHolds(r.value, 0, o.1, drom.data)
            && o.0 % PAGE == irom.addr % PAGE && o.1 % PAGE == drom.addr % PAGE && o.0 <= o.1
  {
    hide WriteAt, PredictedSize, FlashHolds, OffsetForVma;
    var o := S3Offsets(makeImage, ram, irom, drom).value;
    WriteAtHolds(outf, 0, o.0, irom.data);
    var first := WriteAt(outf, o.0, irom.data).value;
    WriteAtHolds(first, 0, o.1, drom.data);
    HoldsGrows(first, WriteAt(first, o.1, drom.data).value, 0, o.0, irom.data);
  }

  /** The two symbols are found and lie in RAM segments. */
  ghost predicate S3SymbolsOk(ram: seq<Segment>, syms: Symbols) {
    var a, b := Lookup(syms, "_irom_flash_addr"), Lookup(syms, "_drom_flash_addr");
    && a.Some? && b.Some?
    && WordLoaded(ram, a.value) && WordLoaded(ram, b.value)
  }

  lemma HolderIff(a: seq<Segment>, b: seq<Segment>, sym: nat)
    requires SameShape(a, b)
    ensures (exists i :: 0 <= i < |a| && HoldsWord(a[i], sym)) <==> (exists i :: 0 <= i < |b| && HoldsWord(b[i], sym))
  {
    if i :| 0 <= i < |a| && HoldsWord(a[i], sym) {
      assert HoldsWord(b[i], sym);
    }
    if i :| 0 <= i < |b| && HoldsWord(b[i], sym) {
      assert HoldsWord(a[i], sym);
    }
  }

  /** Patching fails only for a missing symbol; the DROM page always reads back, the IROM page
      when the two words do not overlap. */
  lemma S3PatchCorrect(ram: seq<Segment>, syms: Symbols, iromOffset: nat, dromOffset: nat)
    ensures var r := S3Patched(ram, syms, iromOffset, dromOffset);
            var a, b := Lookup(syms, "_irom_flash_addr"), Lookup(syms, "_drom_flash_addr");
            && (r.Ok? <==> S3SymbolsOk(ram, syms))
            && (r.Ok? ==>
                  && SameShape(ram, r.value)
                  && ReadWord(r.value, b.value) == Some(PageStart(dromOffset % TWO32))
                  && (a.value + 4 <= b.value || b.value + 4 <= a.value ==>
                        ReadWord(r.value, a.value) == Some(PageStart(iromOffset % TWO32))))
  {
    hide Patch, ReadWord, PageStart, SameShape, Lookup, PredictedSize;
    var a, b := Lookup(syms, "_irom_flash_addr"), Lookup(syms, "_drom_flash_addr");
    var x, y := PageStart(iromOffset % TWO32), PageStart(dromOffset % TWO32);
    if a.Some? && b.Some? {
      WordLoadedMeaning(ram, a.value);
      WordLoadedMeaning(ram, b.value);
    }
    if a.Some? {
      PatchKeeps(ram, a.value, x);
      if Patch(ram, a.value, x).Some? && b.Some? {
        var first := Patch(ram, a.value, x).value;
        PatchReads(ram, a.value, x);
        PatchKeeps(first, b.value, y);
        HolderIff(ram, first, b.value);
        if Patch(first, b.value, y).Some? {
          PatchReads(first, b.value, y);
          ShapeTrans(ram, first, Patch(first, b.value, y).value);
          if a.value + 4 <= b.value || b.value + 4 <= a.value {
            PatchSpares(first, b.value, y, a.value);
          }
        }
      }
    }
  }

  lemma ShapeTrans(a: seq<Segment>, b: seq<Segment>, c: seq<Segment>)
    requires SameShape(a, b) && SameShape(b, c)
    ensures SameShape(a, c)
  {
  }

  /** The offsets fit in 32 bits. */
  ghost predicate S3Fits(makeImage: bool, ram: seq<Segment>, irom: Segment, drom: Segment) {
    S3Offsets(makeImage, ram, irom, drom).Ok? ==> S3Offsets(makeImage, ram, irom, drom).value.1 < TWO32
  }

  /** ESP32-S3 images, given the two flash segments: they fail only for refused padding or a
      missing symbol, never for an overlap. Otherwise the bootloader loads the segments with
      both words set to the flash pages in which the segments lie. */
  lemma S3Correct(makeImage: bool, ram: seq<Segment>, flash: seq<Segment>, i: nat, d: nat, syms: Symbols, entry: nat, sha: Hash)
    requires HashOk(sha) && Encodable(ram) && SoleIrom(flash, i) && SoleDrom(flash, d)
    requires S3Fits(makeImage, ram, flash[i], flash[d])
    ensures var r := S3Image(makeImage, ram, flash, syms, entry, sha);
            var offsets := S3Offsets(makeImage, ram, flash[i], flash[d]);
            var a, b := Lookup(syms, "_irom_flash_addr"), Lookup(syms, "_drom_flash_addr");
            && (r.Ok? <==> offsets.Ok? && S3SymbolsOk(ram, syms))
            && (r.Ok? ==>
                  var image := Grown(makeImage, r.value);
                  var patched := S3Patched(ram, syms, offsets.value.0, offsets.value.1);
                  && patched.Ok? && Boots(makeImage, Esp32S3, image, ram, patched.value, entry, sha)
                  && var word := ReadWord(patched.value, b.value);
                  && word.Some? && InPage(image, word.value, flash[d])
                  && (a.value + 4 <= b.value || b.value + 4 <= a.value ==>
                        var word := ReadWord(patched.value, a.value);
                        word.Some? && InPage(image, word.value, flash[i])))
  {
    hide S3Patched, S3Append, RamImage, Boots, InPage, ReadWord, SameShape, PredictedSize, Lookup, Encodable, HashOk,
      Grown, SoleIrom, SoleDrom, FindRoms, PageStart, FlashHolds, S3Offsets, S3SymbolsOk;
    RomsExact(flash, i, d);
    var offsets := S3Offsets(makeImage, ram, flash[i], flash[d]);
    if offsets.Ok? {
      S3PatchCorrect(ram, syms, offsets.value.0, offsets.value.1);
      var patched := S3Patched(ram, syms, offsets.value.0, offsets.value.1);
      if patched.Ok? {
        S3Right(makeImage, ram, patched.value, flash[i], flash[d], entry, sha);
      }
    }
  }

  /** The image of patched segments boots and holds both flash segments in their pages. */
  lemma S3Right(makeImage: bool, ram: seq<Segment>, patched: seq<Segment>, irom: Segment, drom: Segment, entry: nat, sha: Hash)
    requires HashOk(sha) && Encodable(ram) && SameShape(ram, patched)
    requires S3Offsets(makeImage, ram, irom, drom).Ok? && S3Fits(makeImage, ram, irom, drom)
    ensures var o := S3Offsets(makeImage, ram, irom, drom).value;
            var r := S3Append(RamImage(Lead(makeImage), Esp32S3, patched, entry, sha), o.0, irom.data, o.1, drom.data);
            && r.Ok? && Boots(makeImage, Esp32S3, Grown(makeImage, r.value), ram, patched, entry, sha)
            && InPage(Grown(makeImage, r.value), PageStart(o.0 % TWO32), irom)
            && InPage(Grown(makeImage, r.value), PageStart(o.1 % TWO32), drom)
  {
    hide RamImage, S3Append, Boots, InPage, SameShape, PredictedSize, Encodable, HashOk, Grown, PageStart, FlashHolds,
      S3Offsets;
    var o := S3Offsets(makeImage, ram, irom, drom).value;
    var outf := RamImage(Lead(makeImage), Esp32S3, patched, entry, sha);
    S3RamEnds(makeImage, ram, patched, entry, sha);
    S3Appends(outf, makeImage, ram, irom, drom);
    var written := S3Append(outf, o.0, irom.data, o.1, drom.data).value;
    var image := Grown(makeImage, written);
    GrownKeeps(makeImage, written);
    EncodableShape(ram, patched);
    ImageBoots(makeImage, Esp32S3, ram, patched, entry, sha, image);
    HoldsGrows(written, image, 0, o.0, irom.data);
    HoldsGrows(written, image, 0, o.1, drom.data);
    PlacedInPage(image, o.0, irom);
    PlacedInPage(image, o.1, drom);
  }

  lemma S3RamEnds(makeImage: bool, ram: seq<Segment>, patched: seq<Segment>, entry: nat, sha: Hash)
    requires HashOk(sha) && SameShape(ram, patched)
    ensures |RamImage(Lead(makeImage), Esp32S3, patched, entry, sha)| == PredictedSize(Lead(makeImage), ram)
  {
    PredictionExact(Lead(makeImage), Esp32S3, patched, entry, sha);
    SameBodySize(ram, patched, |ram|);
  }
}
