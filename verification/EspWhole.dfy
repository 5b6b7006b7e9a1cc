/**
 The whole ESP image against the linker scripts: which segments go where, and that none of
 them is lost.
 */
module EspWhole {
  import opened Wrappers
  import opened Bytes
  import opened EspImage
  import opened EspLayout
  import opened EspStartup
  import opened EspTheorems

  // ---------- the memory regions of the linker scripts ----------

  datatype Region = Region(origin: nat, length: nat)

  predicate In(r: Region, addr: nat) {
    r.origin <= addr < r.origin + r.length
  }

  const KIB: nat := 1024
  const MIB: nat := 1048576

  function DromRegion(chip: Chip): Region {
    match chip
    case Esp32 => Region(0x3F400000, 4 * MIB)
    case Esp32S3 => Region(0x3C000000, 32 * MIB)
  }

  function IromRegion(chip: Chip): Region {
    match chip
    case Esp32 => Region(0x400D0000, 4 * MIB)
    case Esp32S3 => Region(0x42000000, 32 * MIB)
  }

  /** DRAM and IRAM. */
  function RamRegions(chip: Chip): seq<Region> {
    match chip
    case Esp32 => [Region(0x3FFB0000, 192 * KIB), Region(0x3FFF0000, 64 * KIB), Region(0x40080000, 128 * KIB)]
    case Esp32S3 => [Region(0x3FC88000, 416 * KIB), Region(0x40378000, 416 * KIB)]
  }

  /** The builder's address ranges are the linker's regions, but for the end of the ESP32's
      IROM region, and no RAM address is taken for flash. */
  lemma LinkedRegions(chip: Chip, addr: nat)
    ensures IsDrom(chip, addr) <==> In(DromRegion(chip), addr)
    ensures IsIrom(chip, addr) <==> In(IromRegion(chip), addr) && (chip.Esp32? ==> addr < 0x40400000)
    ensures IsFlash(chip, addr) <==> In(DromRegion(chip), addr) || (In(IromRegion(chip), addr) && (chip.Esp32? ==> addr < 0x40400000))
    ensures forall k :: 0 <= k < |RamRegions(chip)| && In(RamRegions(chip)[k], addr) ==> !IsFlash(chip, addr)
  {
  }

  /** A code section that the ESP32's linker script puts here is taken for RAM. */
  lemma IromTakenForRam()
    ensures In(IromRegion(Esp32), 0x40400000) && !IsFlash(Esp32, 0x40400000)
  {
  }

  /** The startup code maps the flash at the start of the regions. */
  lemma WindowsStart()
    ensures DROM_VADDR == DromRegion(Esp32).origin && IROM_VADDR == IromRegion(Esp32).origin
    ensures S3_DROM_VADDR == DromRegion(Esp32S3).origin && S3_IROM_VADDR == IromRegion(Esp32S3).origin
  {
  }

  // ---------- no segment is lost ----------

  lemma {:induction false} SelectSplits(segs: seq<Segment>, p: nat -> bool, q: nat -> bool)
    requires forall a: nat :: p(a) != q(a)
    ensures multiset(segs) == multiset(Select(segs, p)) + multiset(Select(segs, q))
    decreases |segs|
  {
    if segs != [] {
      var front, last := segs[..|segs| - 1], segs[|segs| - 1];
      SelectSplits(front, p, q);
      assert segs == front + [last];
    }
  }

  lemma {:induction false} Selected(segs: seq<Segment>, p: nat -> bool, s: Segment)
    ensures s in Select(segs, p) <==> s in segs && p(s.addr)
    decreases |segs|
  {
    if segs != [] {
      var front, last := segs[..|segs| - 1], segs[|segs| - 1];
      Selected(front, p, s);
      assert segs == front + [last];
    }
  }

  /** Every segment is loaded by the bootloader or goes to one of the two flash regions, as
      often as it occurs. */
  lemma SplitKeeps(chip: Chip, segs: seq<Segment>)
    ensures var flash := FlashOf(chip, segs);
            multiset(segs) == multiset(RamOf(chip, segs)) + multiset(DromOf(chip, flash)) + multiset(IromOf(chip, flash))
  {
    SelectSplits(segs, (a: nat) => !IsFlash(chip, a), (a: nat) => IsFlash(chip, a));
    SelectSplits(FlashOf(chip, segs), (a: nat) => IsDrom(chip, a), (a: nat) => !IsDrom(chip, a));
  }

  /** Each list holds the segments of its own region. */
  lemma SplitByRegion(chip: Chip, segs: seq<Segment>, s: Segment)
    ensures s in RamOf(chip, segs) <==> s in segs && !IsDrom(chip, s.addr) && !IsIrom(chip, s.addr)
    ensures s in FlashOf(chip, segs) <==> s in segs && (IsDrom(chip, s.addr) || IsIrom(chip, s.addr))
    ensures s in DromOf(chip, FlashOf(chip, segs)) <==> s in segs && IsDrom(chip, s.addr)
    ensures s in IromOf(chip, FlashOf(chip, segs)) <==> s in segs && IsIrom(chip, s.addr)
  {
    Selected(segs, (a: nat) => !IsFlash(chip, a), s);
    Selected(segs, (a: nat) => IsFlash(chip, a), s);
    Selected(FlashOf(chip, segs), (a: nat) => IsDrom(chip, a), s);
    Selected(FlashOf(chip, segs), (a: nat) => !IsDrom(chip, a), s);
    Apart(chip, s.addr);
  }

  lemma Apart(chip: Chip, addr: nat)
    ensures !(IsDrom(chip, addr) && IsIrom(chip, addr))
  {
  }

  /** The flash holds the data somewhere. */
  ghost predicate InFlash(image: seq<byte>, base: nat, data: seq<byte>) {
    exists a: nat :: FlashHolds(image, base, a, data)
  }

  /** The bootloader of the chip loads a segment of this address and length. */
  ghost predicate IsLoaded(makeImage: bool, chip: Chip, image: seq<byte>, s: Segment) {
    && Lead(makeImage) <= |image|
    && Load(chip, image[Lead(makeImage)..]).Some?
    && var segs := Load(chip, image[Lead(makeImage)..]).value.segs;
    && exists k :: 0 <= k < |segs| && segs[k].addr == s.addr && |segs[k].data| == |s.data|
  }

  lemma BootsLoads(makeImage: bool, chip: Chip, image: seq<byte>, ram: seq<Segment>, loaded: seq<Segment>, entry: nat,
                   sha: Hash, s: Segment)
    requires Boots(makeImage, chip, image, ram, loaded, entry, sha) && s in ram
    ensures IsLoaded(makeImage, chip, image, s)
  {
    hide Load;
    var k :| 0 <= k < |ram| && ram[k] == s;
    assert loaded[k].addr == s.addr && |loaded[k].data| == |s.data|;
  }

  lemma SliceOfSlice(image: seq<byte>, lo: nat, hi: nat, from: nat, to: nat)
    requires lo <= hi <= |image| && from <= to <= hi - lo
    ensures image[lo..hi][from..to] == image[lo + from..lo + to]
  {
    var a, b := image[lo..hi][from..to], image[lo + from..lo + to];
    assert |a| == |b| && forall k :: 0 <= k < |a| ==> a[k] == image[lo + from + k] == b[k];
  }

  lemma PartInFlash(image: seq<byte>, base: nat, addr: nat, segs: seq<Segment>, s: Segment)
    requires FlashHolds(image, base, addr, DataOf(segs)) && s in segs
    ensures InFlash(image, base, s.data)
  {
    hide DataOf;
    var i :| 0 <= i < |segs| && segs[i] == s;
    DataAt(segs, i);
    var from, to := Before(segs, i), Before(segs, i) + |s.data|;
    var data := DataOf(segs);
    SliceOfSlice(image, addr - base, addr - base + |data|, from, to);
    assert FlashHolds(image, base, addr + from, s.data);
  }

  /** In an ESP32 image every segment is loaded by the bootloader or lies in flash. */
  lemma Esp32KeepsAll(makeImage: bool, segs: seq<Segment>, syms: Symbols, entry: nat, sha: Hash, s: Segment)
    requires HashOk(sha) && Encodable(RamOf(Esp32, segs)) && s in segs
    requires Esp32Fits(RamOf(Esp32, segs), |DataOf(DromOf(Esp32, FlashOf(Esp32, segs)))|)
    requires FirmwareImage(Esp32, makeImage, segs, syms, entry, sha).Ok?
    ensures var image := FirmwareImage(Esp32, makeImage, segs, syms, entry, sha).value;
            if IsDrom(Esp32, s.addr) || IsIrom(Esp32, s.addr) then s.data != [] ==> InFlash(image, Base(makeImage), s.data)
            else IsLoaded(makeImage, Esp32, image, s)
  {
    hide RamOf, FlashOf, DromOf, IromOf, DataOf, Encodable, HashOk, PredictedSize, Esp32Fits, Boots, FlashHolds, Grown, RamImage,
      Esp32Image, IsLoaded, InFlash, IsDrom, IsIrom, Esp32Drom, Esp32Irom, Lookup, Patch, ReadWord;
    var ram, flash := RamOf(Esp32, segs), FlashOf(Esp32, segs);
    SplitByRegion(Esp32, segs, s);
    if flash == [] {
      RamOnly(makeImage, Esp32, ram, entry, sha, s);
    } else {
      Esp32Correct(makeImage, ram, flash, syms, entry, sha);
      var image := Grown(makeImage, Esp32Image(makeImage, ram, flash, syms, entry, sha).value);
      var patched := Patch(ram, Lookup(syms, "_drom_flash_addr").value, Esp32Drom(ram)).value;
      if IsDrom(Esp32, s.addr) {
        if s.data != [] {
          PartNonempty(DromOf(Esp32, flash), s);
          PartInFlash(image, Base(makeImage), Esp32Drom(ram), DromOf(Esp32, flash), s);
        }
      } else if IsIrom(Esp32, s.addr) {
        PartInFlash(image, Base(makeImage), Esp32Irom(Esp32Drom(ram), |DataOf(DromOf(Esp32, flash))|), IromOf(Esp32, flash), s);
      } else {
        BootsLoads(makeImage, Esp32, image, ram, patched, entry, sha, s);
      }
    }
  }

  lemma PartNonempty(segs: seq<Segment>, s: Segment)
    requires s in segs && s.data != []
    ensures DataOf(segs) != []
  {
    hide DataOf;
    var i :| 0 <= i < |segs| && segs[i] == s;
    DataAt(segs, i);
  }

  /** Without flash segments the image is the RAM part alone. */
  lemma RamOnly(makeImage: bool, chip: Chip, ram: seq<Segment>, entry: nat, sha: Hash, s: Segment)
    requires HashOk(sha) && Encodable(ram)
    ensures s in ram ==> IsLoaded(makeImage, chip, Grown(makeImage, RamImage(Lead(makeImage), chip, ram, entry, sha)), s)
  {
    hide RamImage, Boots, IsLoaded, Grown, Encodable, HashOk;
    var outf := RamImage(Lead(makeImage), chip, ram, entry, sha);
    GrownKeeps(makeImage, outf);
    ImageBoots(makeImage, chip, ram, ram, entry, sha, Grown(makeImage, outf));
    if s in ram {
      BootsLoads(makeImage, chip, Grown(makeImage, outf), ram, ram, entry, sha, s);
    }
  }

  /** In an ESP32-S3 image every segment is loaded by the bootloader or lies in flash. */
  lemma S3KeepsAll(makeImage: bool, segs: seq<Segment>, syms: Symbols, entry: nat, sha: Hash, s: Segment)
    requires HashOk(sha) && Encodable(RamOf(Esp32S3, segs)) && s in segs
    requires forall irom, drom :: irom in segs && drom in segs ==> S3Fits(makeImage, RamOf(Esp32S3, segs), irom, drom)
    requires FirmwareImage(Esp32S3, makeImage, segs, syms, entry, sha).Ok?
    ensures var image := FirmwareImage(Esp32S3, makeImage, segs, syms, entry, sha).value;
            if IsDrom(Esp32S3, s.addr) || IsIrom(Esp32S3, s.addr) then InFlash(image, 0, s.data)
            else IsLoaded(makeImage, Esp32S3, image, s)
  {
    hide RamOf, FlashOf, Encodable, HashOk, PredictedSize, S3Fits, Boots, Grown, RamImage, S3Image, IsLoaded, InFlash,
      IsDrom, IsIrom;
    var ram, flash := RamOf(Esp32S3, segs), FlashOf(Esp32S3, segs);
    SplitByRegion(Esp32S3, segs, s);
    if flash == [] {
      RamOnly(makeImage, Esp32S3, ram, entry, sha, s);
    } else {
      forall x | x in flash ensures x in segs {
        SplitByRegion(Esp32S3, segs, x);
      }
      S3Placed(makeImage, ram, flash, segs, syms, entry, sha, s);
    }
  }

  lemma S3Placed(makeImage: bool, ram: seq<Segment>, flash: seq<Segment>, segs: seq<Segment>, syms: Symbols, entry: nat, sha: Hash,
                 s: Segment)
    requires HashOk(sha) && Encodable(ram) && S3Image(makeImage, ram, flash, syms, entry, sha).Ok?
    requires forall x :: x in flash ==> x in segs
    requires forall irom, drom :: irom in segs && drom in segs ==> S3Fits(makeImage, ram, irom, drom)
    ensures var image := Grown(makeImage, S3Image(makeImage, ram, flash, syms, entry, sha).value);
            && (s in ram ==> IsLoaded(makeImage, Esp32S3, image, s))
            && (s in flash && (IsDrom(Esp32S3, s.addr) || IsIrom(Esp32S3, s.addr)) ==> InFlash(image, 0, s.data))
  {
    hide Encodable, HashOk, PredictedSize, S3Fits, Boots, Grown, RamImage, IsLoaded, InFlash, IsDrom, IsIrom, S3Patched,
      S3Offsets, FindRoms, S3Append, InPage;
    var found := FindRoms(flash, 0, None, None);
    var i, d := found.value.0, found.value.1;
    RomsExact(flash, i, d);
    S3Boots(makeImage, ram, flash, i, d, syms, entry, sha);
    var image := Grown(makeImage, S3Image(makeImage, ram, flash, syms, entry, sha).value);
    var offsets := S3Offsets(makeImage, ram, flash[i], flash[d]).value;
    var patched := S3Patched(ram, syms, offsets.0, offsets.1).value;
    if s in ram {
      BootsLoads(makeImage, Esp32S3, image, ram, patched, entry, sha, s);
    }
    if s in flash {
      var k: nat :| k < |flash| && flash[k] == s;
      assert IsDrom(Esp32S3, flash[k].addr) ==> k == d;
      assert IsIrom(Esp32S3, flash[k].addr) ==> k == i;
    }
  }

  /** Both flash segments are in the image, whether or not the two patched words overlap. */
  lemma S3Boots(makeImage: bool, ram: seq<Segment>, flash: seq<Segment>, i: nat, d: nat, syms: Symbols, entry: nat, sha: Hash)
    requires HashOk(sha) && Encodable(ram) && SoleIrom(flash, i) && SoleDrom(flash, d)
    requires FindRoms(flash, 0, None, None) == Ok((i, d))
    requires S3Fits(makeImage, ram, flash[i], flash[d]) && S3Image(makeImage, ram, flash, syms, entry, sha).Ok?
    ensures S3Offsets(makeImage, ram, flash[i], flash[d]).Ok?
    ensures var image := Grown(makeImage, S3Image(makeImage, ram, flash, syms, entry, sha).value);
            var offsets := S3Offsets(makeImage, ram, flash[i], flash[d]).value;
            && S3Patched(ram, syms, offsets.0, offsets.1).Ok?
            && Boots(makeImage, Esp32S3, image, ram, S3Patched(ram, syms, offsets.0, offsets.1).value, entry, sha)
            && InFlash(image, 0, flash[i].data) && InFlash(image, 0, flash[d].data)
  {
    hide Encodable, HashOk, PredictedSize, S3Fits, Boots, Grown, RamImage, S3Patched, S3Offsets, FindRoms, S3Append,
      IsDrom, IsIrom, PageStart, SameShape, S3SymbolsOk, ReadWord, Lookup;
    var offsets := S3Offsets(makeImage, ram, flash[i], flash[d]).value;
    S3PatchCorrect(ram, syms, offsets.0, offsets.1);
    S3Right(makeImage, ram, S3Patched(ram, syms, offsets.0, offsets.1).value, flash[i], flash[d], entry, sha);
  }
}
