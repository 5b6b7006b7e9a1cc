/**
 Flash segments as the startup code shows them: it maps windows of the address space to flash
 pages before the program runs.
 */
module EspStartup {
  import opened Wrappers
  import opened Bytes
  import opened EspImage
  import opened EspLayout
  import opened EspTheorems

  // ---------- windows ----------

  /** From its start on, a window shows a number of consecutive flash pages. */
  datatype Window = Window(start: nat, page: nat, pages: nat)

  /** Every byte of the segment is read at its own address. */
  ghost predicate ReadsOwn(image: seq<byte>, base: nat, w: Window, s: Segment) {
    && w.start <= s.addr && s.addr + |s.data| <= w.start + w.pages * PAGE
    && FlashHolds(image, base, w.page + (s.addr - w.start), s.data)
  }

  ghost predicate AllRead(image: seq<byte>, base: nat, w: Window, segs: seq<Segment>) {
    forall i :: 0 <= i < |segs| ==> ReadsOwn(image, base, w, segs[i])
  }

  /** The pages that the startup code maps for so many bytes. */
  function MmuPages(size: nat): nat {
    if size == 0 then 0 else (size - 1) / PAGE + 1
  }

  lemma MmuPagesCover(size: nat)
    ensures size <= MmuPages(size) * PAGE < size + PAGE
  {
  }

  const DROM_VADDR: nat := 0x3F400000
  const IROM_VADDR: nat := 0x400D0000

  /** The ESP32 maps DROM from a fixed address to the page in the patched word. */
  function DromWindow(word: nat, rodataSize: nat): Window {
    Window(DROM_VADDR, word, MmuPages(rodataSize))
  }

  /** It maps IROM from a fixed address to the page that follows the DROM pages. */
  function IromWindow(word: nat, rodataSize: nat, textSize: nat): Window {
    Window(IROM_VADDR, (word + MmuPages(rodataSize) * PAGE) % TWO32, MmuPages(textSize))
  }

  const S3_DROM_VADDR: nat := 0x3C000000
  const S3_IROM_VADDR: nat := 0x42000000

  /** The entry of the page table where DROM starts. */
  function DromIndex(drom: Segment): nat
    requires S3_DROM_VADDR <= drom.addr
  {
    (drom.addr - S3_DROM_VADDR) / PAGE
  }

  function PagesTo(start: nat, end: nat): nat
    requires start <= end
  {
    (end - start + PAGE - 1) / PAGE
  }

  /** The ESP32-S3 fills the entries of IROM from the first one on; IROM has the entries before
      those of DROM. */
  function S3IromWindow(word: nat, irom: Segment, drom: Segment): Window
    requires S3_IROM_VADDR <= irom.addr && S3_DROM_VADDR <= drom.addr
  {
    var pages := PagesTo(S3_IROM_VADDR, irom.addr + |irom.data|);
    Window(S3_IROM_VADDR, PageStart(word), if pages < DromIndex(drom) then pages else DromIndex(drom))
  }

  /** It fills the entries of DROM from the one where DROM starts. */
  function S3DromWindow(word: nat, drom: Segment): Window
    requires S3_DROM_VADDR <= drom.addr
  {
    Window(S3_DROM_VADDR + DromIndex(drom) * PAGE, PageStart(word),
           PagesTo(S3_DROM_VADDR, drom.addr + |drom.data|) - DromIndex(drom))
  }

  // ---------- consecutive segments ----------

  /** Every segment follows the earlier ones directly, the first one from the start on. */
  ghost predicate ConsecutiveFrom(start: nat, segs: seq<Segment>) {
    forall i :: 0 <= i < |segs| ==> segs[i].addr == start + Before(segs, i)
  }

  /** Consecutive segments are read at their own addresses through a window to their data. */
  lemma ConsecutiveRead(image: seq<byte>, base: nat, w: Window, segs: seq<Segment>)
    requires ConsecutiveFrom(w.start, segs) && w.pages == MmuPages(|DataOf(segs)|)
    requires segs != [] ==> FlashHolds(image, base, w.page, DataOf(segs))
    ensures AllRead(image, base, w, segs)
  {
    hide DataOf, MmuPages, FlashHolds;
    MmuPagesCover(|DataOf(segs)|);
    forall i | 0 <= i < |segs| ensures ReadsOwn(image, base, w, segs[i]) {
      DataAt(segs, i);
      PartHolds(image, base, w.page, DataOf(segs), Before(segs, i), segs[i].data);
    }
  }

  lemma PartHolds(image: seq<byte>, base: nat, page: nat, data: seq<byte>, from: nat, part: seq<byte>)
    requires FlashHolds(image, base, page, data) && from + |part| <= |data| && data[from..from + |part|] == part
    ensures FlashHolds(image, base, page + from, part)
  {
    var o := page - base;
    forall k | 0 <= k < |part| ensures image[o + from + k] == part[k] {
      assert image[o..o + |data|][from + k] == data[from + k];
      assert data[from..from + |part|][k] == data[from + k];
    }
  }

  // ---------- marked data ----------

  ghost predicate NoneEmpty(segs: seq<Segment>) {
    forall k :: 0 <= k < |segs| ==> segs[k].data != []
  }

  function Marks(size: nat, mark: bool): (r: seq<byte>)
    ensures |r| == size && forall m :: 0 <= m < size ==> r[m] == if mark && m == 0 then 1 else 0
  {
    if mark && size > 0 then [1] + Zeros(size - 1) else Zeros(size)
  }

  /** The same segments with no byte set but the first one of segment i. */
  function Marked(segs: seq<Segment>, i: nat): (r: seq<Segment>)
    ensures SameShape(segs, r)
    ensures forall k, m :: 0 <= k < |segs| && 0 <= m < |segs[k].data| ==>
              r[k].data[m] == if k == i && m == 0 then 1 else 0
  {
    seq(|segs|, k requires 0 <= k < |segs| => Segment(segs[k].addr, Marks(|segs[k].data|, k == i)))
  }

  lemma {:induction false} OnlyMark(segs: seq<Segment>, i: nat, x: nat)
    requires forall k, m :: 0 <= k < |segs| && 0 <= m < |segs[k].data| && segs[k].data[m] != 0 ==> k == i && m == 0
    requires x < |DataOf(segs)| && DataOf(segs)[x] != 0
    ensures i < |segs| && x == Before(segs, i)
    decreases |segs|
  {
    var n := |segs| - 1;
    var front := segs[..n];
    if x < |DataOf(front)| {
      OnlyMark(front, i, x);
      assert front[..i] == segs[..i];
    } else {
      assert segs[n].data[x - |DataOf(front)|] != 0;
    }
  }

  lemma {:induction false} BeforeShape(a: seq<Segment>, b: seq<Segment>, i: nat)
    requires SameShape(a, b) && i <= |a|
    ensures Before(a, i) == Before(b, i)
  {
    if i > 0 {
      BeforeShape(a, b, i - 1);
      assert a[..i][..i - 1] == a[..i - 1] && b[..i][..i - 1] == b[..i - 1];
    }
  }

  lemma SizeShape(a: seq<Segment>, b: seq<Segment>)
    requires SameShape(a, b)
    ensures |DataOf(a)| == |DataOf(b)|
  {
    BeforeShape(a, b, |a|);
    assert a[..|a|] == a && b[..|b|] == b;
  }

  lemma ShapeFrom(start: nat, a: seq<Segment>, b: seq<Segment>)
    requires SameShape(a, b) && ConsecutiveFrom(start, a)
    ensures ConsecutiveFrom(start, b)
  {
    hide Before;
    forall i | 0 <= i < |b| ensures b[i].addr == start + Before(b, i) {
      BeforeShape(a, b, i);
    }
  }

  /** What follows the written bytes is the data, after zeros. */
  lemma WrittenByte(outf: seq<byte>, offset: nat, data: seq<byte>, y: nat)
    requires |outf| <= offset && |outf| <= y < offset + |data|
    requires WriteAt(outf, offset, data).value[y] != 0
    ensures offset <= y && data[y - offset] != 0
  {
  }

  // ---------- ESP32 ----------

  /** The image of DROM and IROM segments behind a RAM part. */
  function Built(makeImage: bool, outf: seq<byte>, page: nat, drom: seq<Segment>, irom: seq<Segment>): seq<byte>
    requires Esp32Append(outf, makeImage, page, drom, irom).Ok?
  {
    Grown(makeImage, Esp32Append(outf, makeImage, page, drom, irom).value)
  }

  /** The RAM part is as long as was predicted, and the flash addresses fit in 32 bits. */
  ghost predicate BuildOk(makeImage: bool, ram: seq<Segment>, outf: seq<byte>, drom: seq<Segment>) {
    Esp32Fits(ram, |DataOf(drom)|) && Base(makeImage) + |outf| == FLASH_BASE + PredictedSize(0, ram)
  }

  /** Behind the RAM part, only the data of the segments is not zero. */
  lemma BuiltByte(makeImage: bool, ram: seq<Segment>, outf: seq<byte>, drom: seq<Segment>, irom: seq<Segment>, y: nat)
    requires BuildOk(makeImage, ram, outf, drom)
    ensures Esp32Append(outf, makeImage, Esp32Drom(ram), drom, irom).Ok?
    ensures var page, base := Esp32Drom(ram), Base(makeImage);
            var d, i := page - base, Esp32Irom(page, |DataOf(drom)|) - base;
            var image := Built(makeImage, outf, page, drom, irom);
            |outf| <= y < |image| && image[y] != 0 ==>
              || (0 <= d <= y < d + |DataOf(drom)| && DataOf(drom)[y - d] != 0)
              || (0 <= i <= y < i + |DataOf(irom)| && DataOf(irom)[y - i] != 0)
  {
    hide DataOf, Esp32Drom, Esp32Irom, PredictedSize, DromPages, WriteAt, ImageOffset, FlashHolds;
    var page, base, data := Esp32Drom(ram), Base(makeImage), DataOf(drom);
    var at := Esp32Irom(page, |data|);
    Esp32Appends(outf, makeImage, ram, drom, irom);
    Esp32Addresses(ram, |data|);
    IromBelow(ram, |data|);
    OffsetExact(makeImage, page);
    OffsetExact(makeImage, at);
    WriteAtHolds(outf, base, page, data);
    var first := if drom == [] then outf else WriteAt(outf, page - base, data).value;
    WriteAtHolds(first, base, at, DataOf(irom));
    var image := Built(makeImage, outf, page, drom, irom);
    if |outf| <= y < |image| && image[y] != 0 {
      if |first| <= y {
        WrittenByte(first, at - base, DataOf(irom), y);
      } else {
        var second := WriteAt(first, at - base, DataOf(irom)).value;
        assert first[y] == second[y];
        WrittenByte(outf, page - base, data, y);
      }
    }
  }

  /** Whatever the data of the segments, the startup code shows every byte of DROM at its own
      address if and only if the segments are consecutive from 0x3F400000 on. */
  lemma DromInPlaceIff(makeImage: bool, ram: seq<Segment>, outf: seq<byte>, drom: seq<Segment>, irom: seq<Segment>)
    requires BuildOk(makeImage, ram, outf, drom) && NoneEmpty(drom)
    ensures ConsecutiveFrom(DROM_VADDR, drom) <==>
              forall d: seq<Segment>, i: seq<Segment> :: SameShape(drom, d) && SameShape(irom, i) ==>
                DromShown(makeImage, ram, outf, d, i)
  {
    hide DromShown, BuildOk, SameShape, Before;
    if ConsecutiveFrom(DROM_VADDR, drom) {
      forall d: seq<Segment>, i: seq<Segment> | SameShape(drom, d) && SameShape(irom, i)
        ensures DromShown(makeImage, ram, outf, d, i)
      {
        ShapeFrom(DROM_VADDR, drom, d);
        BuildShape(makeImage, ram, outf, drom, d);
        DromReads(makeImage, ram, outf, d, i);
      }
    } else {
      var k: nat :| k < |drom| && drom[k].addr != DROM_VADDR + Before(drom, k);
      DromMark(makeImage, ram, outf, drom, irom, k);
    }
  }

  /** In the built image, DROM is read at its own addresses. */
  ghost predicate DromShown(makeImage: bool, ram: seq<Segment>, outf: seq<byte>, drom: seq<Segment>, irom: seq<Segment>) {
    var page := Esp32Drom(ram);
    && Esp32Append(outf, makeImage, page, drom, irom).Ok?
    && AllRead(Built(makeImage, outf, page, drom, irom), Base(makeImage), DromWindow(page, |DataOf(drom)|), drom)
  }

  lemma BuildShape(makeImage: bool, ram: seq<Segment>, outf: seq<byte>, a: seq<Segment>, b: seq<Segment>)
    requires BuildOk(makeImage, ram, outf, a) && SameShape(a, b)
    ensures BuildOk(makeImage, ram, outf, b)
  {
    SizeShape(a, b);
  }

  lemma DromReads(makeImage: bool, ram: seq<Segment>, outf: seq<byte>, drom: seq<Segment>, irom: seq<Segment>)
    requires BuildOk(makeImage, ram, outf, drom) && ConsecutiveFrom(DROM_VADDR, drom)
    ensures DromShown(makeImage, ram, outf, drom, irom)
  {
    hide DataOf, Esp32Drom, Esp32Irom, PredictedSize, Esp32Append, FlashHolds, AllRead, ConsecutiveFrom, Grown;
    var page, base := Esp32Drom(ram), Base(makeImage);
    Esp32Appends(outf, makeImage, ram, drom, irom);
    var written := Esp32Append(outf, makeImage, page, drom, irom).value;
    GrownKeeps(makeImage, written);
    if drom != [] {
      HoldsGrows(written, Grown(makeImage, written), base, page, DataOf(drom));
    }
    ConsecutiveRead(Grown(makeImage, written), base, DromWindow(page, |DataOf(drom)|), drom);
  }

  /** A marked byte is read at its own address only if it is the one at its place. */
  lemma FirstByte(image: seq<byte>, base: nat, w: Window, s: Segment)
    requires ReadsOwn(image, base, w, s) && s.data != []
    ensures var y := w.page + (s.addr - w.start) - base; 0 <= y < |image| && image[y] == s.data[0]
  {
    var y := w.page + (s.addr - w.start) - base;
    assert image[y..y + |s.data|][0] == image[y];
  }

  lemma DromMark(makeImage: bool, ram: seq<Segment>, outf: seq<byte>, drom: seq<Segment>, irom: seq<Segment>, k: nat)
    requires BuildOk(makeImage, ram, outf, drom) && NoneEmpty(drom) && k < |drom|
    requires drom[k].addr != DROM_VADDR + Before(drom, k)
    ensures !DromShown(makeImage, ram, outf, Marked(drom, k), Marked(irom, |irom|))
  {
    hide DataOf, Esp32Drom, Esp32Irom, PredictedSize, Esp32Append, FlashHolds, Marked, Grown, ReadsOwn, DromPages;
    var d, i := Marked(drom, k), Marked(irom, |irom|);
    var page, base := Esp32Drom(ram), Base(makeImage);
    SizeShape(drom, d);
    if DromShown(makeImage, ram, outf, d, i) {
      var image := Built(makeImage, outf, page, d, i);
      var w := DromWindow(page, |DataOf(d)|);
      assert ReadsOwn(image, base, w, d[k]);
      FirstByte(image, base, w, d[k]);
      StartInside(image, base, w, d[k]);
      var y := page + (d[k].addr - DROM_VADDR) - base;
      Esp32Addresses(ram, |DataOf(d)|);
      BuiltByte(makeImage, ram, outf, d, i, y);
      MarkAt(drom, k, irom, page - base, Esp32Irom(page, |DataOf(d)|) - base, y);
    }
  }

  lemma StartInside(image: seq<byte>, base: nat, w: Window, s: Segment)
    requires ReadsOwn(image, base, w, s)
    ensures w.start <= s.addr && s.addr + |s.data| <= w.start + w.pages * PAGE
  {
  }

  /** A byte set behind the RAM part, when one DROM byte is marked, is that byte. */
  lemma MarkAt(segs: seq<Segment>, k: nat, other: seq<Segment>, d: int, i: int, y: nat)
    requires k < |segs|
    requires var a, b := DataOf(Marked(segs, k)), DataOf(Marked(other, |other|));
             || (0 <= d <= y < d + |a| && a[y - d] != 0)
             || (0 <= i <= y < i + |b| && b[y - i] != 0)
    ensures y == d + Before(segs, k)
  {
    hide DataOf;
    var a, b := Marked(segs, k), Marked(other, |other|);
    BeforeShape(segs, a, k);
    if 0 <= d <= y < d + |DataOf(a)| && DataOf(a)[y - d] != 0 {
      OnlyMark(a, k, y - d);
    } else {
      OnlyMark(b, |other|, y - i);
    }
  }

  /** In the built image, IROM is read at its own addresses. */
  ghost predicate IromShown(makeImage: bool, ram: seq<Segment>, outf: seq<byte>, drom: seq<Segment>, irom: seq<Segment>) {
    var page := Esp32Drom(ram);
    && Esp32Append(outf, makeImage, page, drom, irom).Ok?
    && AllRead(Built(makeImage, outf, page, drom, irom), Base(makeImage),
               IromWindow(page, |DataOf(drom)|, |DataOf(irom)|), irom)
  }

  /** Builder and startup code compute the same IROM page exactly if there is DROM data; without
      any, the builder leaves one page free. */
  lemma IromPages(ram: seq<Segment>, rodataSize: nat, textSize: nat)
    requires Esp32Fits(ram, rodataSize)
    ensures var page := Esp32Drom(ram);
            Esp32Irom(page, rodataSize) == IromWindow(page, rodataSize, textSize).page + if rodataSize == 0 then PAGE else 0
  {
    hide Esp32Drom, PredictedSize;
    SamePages(rodataSize);
  }

  lemma SamePages(size: nat)
    ensures DromPages(size) == MmuPages(size) + if size == 0 then 1 else 0
  {
  }

  lemma IromReads(makeImage: bool, ram: seq<Segment>, outf: seq<byte>, drom: seq<Segment>, irom: seq<Segment>)
    requires BuildOk(makeImage, ram, outf, drom) && ConsecutiveFrom(IROM_VADDR, irom)
    requires irom != [] ==> DataOf(drom) != []
    ensures IromShown(makeImage, ram, outf, drom, irom)
  {
    hide DataOf, Esp32Drom, Esp32Irom, PredictedSize, Esp32Append, FlashHolds, AllRead, ConsecutiveFrom, Grown, MmuPages;
    var page, base := Esp32Drom(ram), Base(makeImage);
    Esp32Appends(outf, makeImage, ram, drom, irom);
    IromPages(ram, |DataOf(drom)|, |DataOf(irom)|);
    var written := Esp32Append(outf, makeImage, page, drom, irom).value;
    GrownKeeps(makeImage, written);
    if irom != [] {
      HoldsGrows(written, Grown(makeImage, written), base, Esp32Irom(page, |DataOf(drom)|), DataOf(irom));
    }
    ConsecutiveRead(Grown(makeImage, written), base, IromWindow(page, |DataOf(drom)|, |DataOf(irom)|), irom);
  }

  /** Whatever the data of the segments, the startup code shows every byte of IROM at its own
      address if and only if the segments are consecutive from 0x400D0000 on and there is DROM
      data too. */
  lemma IromInPlaceIff(makeImage: bool, ram: seq<Segment>, outf: seq<byte>, drom: seq<Segment>, irom: seq<Segment>)
    requires BuildOk(makeImage, ram, outf, drom) && NoneEmpty(irom) && irom != []
    ensures ConsecutiveFrom(IROM_VADDR, irom) && DataOf(drom) != [] <==>
              forall d: seq<Segment>, i: seq<Segment> :: SameShape(drom, d) && SameShape(irom, i) ==>
                IromShown(makeImage, ram, outf, d, i)
  {
    hide IromShown, BuildOk, SameShape, Before, DataOf;
    if ConsecutiveFrom(IROM_VADDR, irom) && DataOf(drom) != [] {
      forall d: seq<Segment>, i: seq<Segment> | SameShape(drom, d) && SameShape(irom, i)
        ensures IromShown(makeImage, ram, outf, d, i)
      {
        ShapeFrom(IROM_VADDR, irom, i);
        BuildShape(makeImage, ram, outf, drom, d);
        SizeShape(drom, d);
        IromReads(makeImage, ram, outf, d, i);
      }
    } else {
      var k: nat := |irom| - 1;
      if DataOf(drom) != [] {
        k :| k < |irom| && irom[k].addr != IROM_VADDR + Before(irom, k);
      }
      IromMark(makeImage, ram, outf, drom, irom, k);
    }
  }

  lemma IromMark(makeImage: bool, ram: seq<Segment>, outf: seq<byte>, drom: seq<Segment>, irom: seq<Segment>, k: nat)
    requires BuildOk(makeImage, ram, outf, drom) && NoneEmpty(irom) && k < |irom|
    requires if DataOf(drom) == [] then k == |irom| - 1 else irom[k].addr != IROM_VADDR + Before(irom, k)
    ensures !IromShown(makeImage, ram, outf, Marked(drom, |drom|), Marked(irom, k))
  {
    hide DataOf, Esp32Drom, Esp32Irom, PredictedSize, Esp32Append, FlashHolds, Marked, Grown, ReadsOwn, DromPages, MmuPages,
      IromWindow, Before;
    var d, i := Marked(drom, |drom|), Marked(irom, k);
    var page, base := Esp32Drom(ram), Base(makeImage);
    SizeShape(drom, d);
    if IromShown(makeImage, ram, outf, d, i) {
      var image := Built(makeImage, outf, page, d, i);
      var w := IromWindow(page, |DataOf(d)|, |DataOf(i)|);
      assert ReadsOwn(image, base, w, i[k]);
      FirstByte(image, base, w, i[k]);
      StartInside(image, base, w, i[k]);
      var y := w.page + (i[k].addr - w.start) - base;
      IromPages(ram, |DataOf(d)|, |DataOf(i)|);
      Esp32Addresses(ram, |DataOf(d)|);
      IromStart(page, |DataOf(d)|, |DataOf(i)|);
      BuiltByte(makeImage, ram, outf, d, i, y);
      MarkAt(irom, k, drom, Esp32Irom(page, |DataOf(d)|) - base, page - base, y);
      LastEnds(irom, k);
      SizeShape(irom, i);
      MmuPagesCover(|DataOf(i)|);
    }
  }

  lemma IromStart(page: nat, rodataSize: nat, textSize: nat)
    ensures IromWindow(page, rodataSize, textSize).start == IROM_VADDR
    ensures IromWindow(page, rodataSize, textSize).pages == MmuPages(textSize)
  {
  }

  lemma LastEnds(segs: seq<Segment>, k: nat)
    requires k < |segs|
    ensures k == |segs| - 1 ==> Before(segs, k) + |segs[k].data| == |DataOf(segs)|
  {
  }

  /** The startup code shows a DROM segment at 0x3F410000, which the builder accepts, nowhere
      near its address. */
  lemma DromTooHigh(image: seq<byte>, base: nat, word: nat)
    ensures var s := Segment(0x3F410000, [1, 0, 0, 0]);
            IsDrom(Esp32, s.addr) && !ReadsOwn(image, base, DromWindow(word, |s.data|), s)
  {
  }

  /** Without DROM data, the startup code shows a flash page of zeros in place of IROM. */
  lemma IromWithoutDrom(makeImage: bool, ram: seq<Segment>, outf: seq<byte>)
    requires BuildOk(makeImage, ram, outf, [])
    ensures !IromShown(makeImage, ram, outf, [], [Segment(IROM_VADDR, [1, 0, 0, 0])])
  {
    hide DataOf, Esp32Drom, Esp32Irom, PredictedSize, Esp32Append, IromShown, BuildOk;
    var irom := [Segment(IROM_VADDR, [1, 0, 0, 0])];
    NoData();
    IromMark(makeImage, ram, outf, [], irom, 0);
    assert Marked([], 0) == [];
    var marked := Marked(irom, 0);
    assert marked[0].data == irom[0].data;
    assert marked == irom;
  }

  lemma NoData()
    ensures DataOf([]) == []
  {
  }

  /** The ESP32 image runs in place: through the word that the startup code reads, DROM segments
      consecutive from 0x3F400000 on are read at their own addresses, and so are IROM segments
      consecutive from 0x400D0000 on if there is DROM data. */
  lemma Esp32RunsInPlace(makeImage: bool, ram: seq<Segment>, flash: seq<Segment>, syms: Symbols, entry: nat, sha: Hash)
    requires HashOk(sha) && Encodable(ram) && Esp32Fits(ram, |DataOf(DromOf(Esp32, flash))|)
    requires Esp32Image(makeImage, ram, flash, syms, entry, sha).Ok?
    ensures var image := Grown(makeImage, Esp32Image(makeImage, ram, flash, syms, entry, sha).value);
            var drom, irom := DromOf(Esp32, flash), IromOf(Esp32, flash);
            var sym := Lookup(syms, "_drom_flash_addr");
            && sym.Some? && Patch(ram, sym.value, Esp32Drom(ram)).Some?
            && var word := ReadWord(Patch(ram, sym.value, Esp32Drom(ram)).value, sym.value);
            && word.Some?
            && (ConsecutiveFrom(DROM_VADDR, drom) ==>
                  AllRead(image, Base(makeImage), DromWindow(word.value, |DataOf(drom)|), drom))
            && (ConsecutiveFrom(IROM_VADDR, irom) && DataOf(drom) != [] ==>
                  AllRead(image, Base(makeImage), IromWindow(word.value, |DataOf(drom)|, |DataOf(irom)|), irom))
  {
    hide Grown, Boots, Encodable, HashOk, FlashHolds, DataOf, Lookup, Patch, ReadWord, DromOf, IromOf, Esp32Append,
      Esp32Drom, Esp32Irom, ConsecutiveFrom, AllRead, PredictedSize, RamImage, DromWindow, IromWindow, SameShape;
    Esp32Correct(makeImage, ram, flash, syms, entry, sha);
    var drom, irom := DromOf(Esp32, flash), IromOf(Esp32, flash);
    var sym := Lookup(syms, "_drom_flash_addr").value;
    var patched := Patch(ram, sym, Esp32Drom(ram)).value;
    var outf := RamImage(Lead(makeImage), Esp32, patched, entry, sha);
    PatchKeeps(ram, sym, Esp32Drom(ram));
    Esp32RamEnds(makeImage, ram, patched, entry, sha);
    assert BuildOk(makeImage, ram, outf, drom);
    if ConsecutiveFrom(DROM_VADDR, drom) {
      DromReads(makeImage, ram, outf, drom, irom);
    }
    if ConsecutiveFrom(IROM_VADDR, irom) && DataOf(drom) != [] {
      IromReads(makeImage, ram, outf, drom, irom);
    }
  }

  // ---------- ESP32-S3 ----------

  lemma WholePages(start: nat, x: nat)
    requires start % PAGE == 0 && start <= x
    ensures start + (x - start) / PAGE * PAGE == PageStart(x)
  {
  }

  lemma PagesToCover(start: nat, end: nat, n: nat)
    requires start <= end
    ensures end <= start + n * PAGE <==> PagesTo(start, end) <= n
  {
  }

  /** A DROM segment in the named page is read at its own address. */
  lemma S3DromReads(image: seq<byte>, word: nat, drom: Segment)
    requires InPage(image, word, drom) && S3_DROM_VADDR <= drom.addr
    ensures ReadsOwn(image, 0, S3DromWindow(word, drom), drom)
  {
    hide FlashHolds;
    WholePages(S3_DROM_VADDR, drom.addr);
    var end := drom.addr + |drom.data|;
    PagesToCover(S3_DROM_VADDR, end, PagesTo(S3_DROM_VADDR, end));
    assert PageStart(word) == word;
  }

  /** IROM starts in the first page of its window, and its entries of the page table are before
      those of DROM. */
  predicate S3IromFits(irom: Segment, drom: Segment)
    requires S3_IROM_VADDR <= irom.addr && S3_DROM_VADDR <= drom.addr
  {
    && PageStart(irom.addr) == S3_IROM_VADDR
    && PagesTo(S3_IROM_VADDR, irom.addr + |irom.data|) <= DromIndex(drom)
  }

  /** Then an IROM segment in the named page is read at its own address. */
  lemma S3IromReads(image: seq<byte>, word: nat, irom: Segment, drom: Segment)
    requires InPage(image, word, irom) && S3_IROM_VADDR <= irom.addr && S3_DROM_VADDR <= drom.addr
    requires S3IromFits(irom, drom)
    ensures ReadsOwn(image, 0, S3IromWindow(word, irom, drom), irom)
  {
    hide FlashHolds;
    var end := irom.addr + |irom.data|;
    PagesToCover(S3_IROM_VADDR, end, S3IromWindow(word, irom, drom).pages);
    assert PageStart(word) == word;
  }

  /** The image of the two flash segments behind a RAM part. */
  function S3Built(makeImage: bool, ram: seq<Segment>, outf: seq<byte>, irom: Segment, drom: Segment): seq<byte>
    requires S3Offsets(makeImage, ram, irom, drom).Ok?
    requires var o := S3Offsets(makeImage, ram, irom, drom).value; S3Append(outf, o.0, irom.data, o.1, drom.data).Ok?
  {
    var o := S3Offsets(makeImage, ram, irom, drom).value;
    Grown(makeImage, S3Append(outf, o.0, irom.data, o.1, drom.data).value)
  }

  /** In the built image, IROM is read at its own addresses through the page of its offset. */
  ghost predicate S3IromShown(makeImage: bool, ram: seq<Segment>, outf: seq<byte>, irom: Segment, drom: Segment)
    requires S3_IROM_VADDR <= irom.addr && S3_DROM_VADDR <= drom.addr
  {
    && S3Offsets(makeImage, ram, irom, drom).Ok?
    && var o := S3Offsets(makeImage, ram, irom, drom).value;
    && S3Append(outf, o.0, irom.data, o.1, drom.data).Ok?
    && ReadsOwn(S3Built(makeImage, ram, outf, irom, drom), 0, S3IromWindow(o.0 % TWO32, irom, drom), irom)
  }

  ghost predicate SameSegment(a: Segment, b: Segment) {
    a.addr == b.addr && |a.data| == |b.data|
  }

  ghost predicate S3BuildOk(makeImage: bool, ram: seq<Segment>, outf: seq<byte>, irom: Segment, drom: Segment) {
    && |outf| == PredictedSize(Lead(makeImage), ram)
    && S3Offsets(makeImage, ram, irom, drom).Ok? && S3Fits(makeImage, ram, irom, drom)
    && S3_IROM_VADDR <= irom.addr && S3_DROM_VADDR <= drom.addr
  }

  /** Whatever the data, the startup code shows every byte of IROM at its own address if and only
      if IROM starts in the first page of its window and its entries are before those of DROM. */
  lemma S3IromInPlaceIff(makeImage: bool, ram: seq<Segment>, outf: seq<byte>, irom: Segment, drom: Segment)
    requires S3BuildOk(makeImage, ram, outf, irom, drom) && irom.data != []
    ensures S3IromFits(irom, drom) <==>
              forall i: Segment, d: Segment :: SameSegment(irom, i) && SameSegment(drom, d) ==>
                S3IromShown(makeImage, ram, outf, i, d)
  {
    hide S3IromShown, S3Offsets, PredictedSize;
    if S3IromFits(irom, drom) {
      forall i: Segment, d: Segment | SameSegment(irom, i) && SameSegment(drom, d)
        ensures S3IromShown(makeImage, ram, outf, i, d)
      {
        S3Same(makeImage, ram, irom, drom, i, d);
        S3Shows(makeImage, ram, outf, i, d);
      }
    } else {
      var i := Segment(irom.addr, Marks(|irom.data|, true));
      var d := Segment(drom.addr, Marks(|drom.data|, false));
      S3Same(makeImage, ram, irom, drom, i, d);
      S3Mark(makeImage, ram, outf, i, d);
      assert SameSegment(irom, i) && SameSegment(drom, d);
    }
  }

  lemma S3Same(makeImage: bool, ram: seq<Segment>, irom: Segment, drom: Segment, i: Segment, d: Segment)
    requires SameSegment(irom, i) && SameSegment(drom, d)
    ensures S3Offsets(makeImage, ram, i, d) == S3Offsets(makeImage, ram, irom, drom)
  {
  }

  lemma S3Shows(makeImage: bool, ram: seq<Segment>, outf: seq<byte>, irom: Segment, drom: Segment)
    requires S3BuildOk(makeImage, ram, outf, irom, drom) && S3IromFits(irom, drom)
    ensures S3IromShown(makeImage, ram, outf, irom, drom)
  {
    hide S3Offsets, PredictedSize, S3Append, FlashHolds, PageStart, ReadsOwn, S3IromFits, Grown, InPage;
    var o := S3Offsets(makeImage, ram, irom, drom).value;
    S3Appends(outf, makeImage, ram, irom, drom);
    var written := S3Append(outf, o.0, irom.data, o.1, drom.data).value;
    GrownKeeps(makeImage, written);
    HoldsGrows(written, Grown(makeImage, written), 0, o.0, irom.data);
    PlacedInPage(Grown(makeImage, written), o.0, irom);
    S3IromReads(Grown(makeImage, written), PageStart(o.0 % TWO32), irom, drom);
    PageTwice(o.0 % TWO32);
  }

  lemma PageTwice(x: nat)
    ensures PageStart(PageStart(x)) == PageStart(x)
  {
  }

  /** With only the first byte of IROM set, that byte is read at its own address only if IROM
      fits its window. */
  lemma S3Mark(makeImage: bool, ram: seq<Segment>, outf: seq<byte>, irom: Segment, drom: Segment)
    requires S3BuildOk(makeImage, ram, outf, irom, drom) && !S3IromFits(irom, drom)
    requires irom.data != [] && irom.data == Marks(|irom.data|, true) && drom.data == Marks(|drom.data|, false)
    ensures !S3IromShown(makeImage, ram, outf, irom, drom)
  {
    hide S3Append, FlashHolds, ReadsOwn, Grown, Marks, S3Offsets, PredictedSize;
    var o := S3Offsets(makeImage, ram, irom, drom).value;
    S3Appends(outf, makeImage, ram, irom, drom);
    S3OffsetsRise(makeImage, ram, irom, drom);
    if S3IromShown(makeImage, ram, outf, irom, drom) {
      var image := S3Built(makeImage, ram, outf, irom, drom);
      var w := S3IromWindow(o.0 % TWO32, irom, drom);
      FirstByte(image, 0, w, irom);
      StartInside(image, 0, w, irom);
      PagesToCover(S3_IROM_VADDR, irom.addr + |irom.data|, w.pages);
      PageOfOffset(o.0, irom.addr);
      S3Byte(outf, makeImage, o.0, irom.data, o.1, drom.data, w.page + (irom.addr - w.start));
    }
  }

  lemma S3OffsetsRise(makeImage: bool, ram: seq<Segment>, irom: Segment, drom: Segment)
    requires S3Offsets(makeImage, ram, irom, drom).Ok?
    ensures var o := S3Offsets(makeImage, ram, irom, drom).value;
            PredictedSize(Lead(makeImage), ram) <= o.0 && o.0 + |irom.data| <= o.1
  {
  }

  lemma S3Byte(outf: seq<byte>, makeImage: bool, iromOffset: nat, irom: seq<byte>, dromOffset: nat, drom: seq<byte>, y: nat)
    requires |outf| <= iromOffset && iromOffset + |irom| <= dromOffset
    requires irom == Marks(|irom|, true) && drom == Marks(|drom|, false)
    ensures S3Append(outf, iromOffset, irom, dromOffset, drom).Ok?
    ensures var image := Grown(makeImage, S3Append(outf, iromOffset, irom, dromOffset, drom).value);
            |outf| <= y < |image| && image[y] != 0 ==> y == iromOffset
  {
    hide Marks, WriteAt;
    WriteAtHolds(outf, 0, iromOffset, irom);
    var first := WriteAt(outf, iromOffset, irom).value;
    WriteAtHolds(first, 0, dromOffset, drom);
    var second := WriteAt(first, dromOffset, drom).value;
    var image := Grown(makeImage, second);
    if |outf| <= y < |image| && image[y] != 0 {
      assert y < |second| && second[y] != 0;
      if |first| <= y {
        WrittenByte(first, dromOffset, drom, y);
      } else {
        assert first[y] == second[y];
        WrittenByte(outf, iromOffset, irom, y);
      }
    }
  }

  /** The builder accepts an IROM segment at 0x42010000, but the startup code does not show it
      there. */
  lemma S3IromTooHigh(makeImage: bool, ram: seq<Segment>, outf: seq<byte>, drom: Segment)
    requires var irom := Segment(0x42010000, [1, 0, 0, 0]);
             S3BuildOk(makeImage, ram, outf, irom, drom) && drom.data == Marks(|drom.data|, false)
    ensures var irom := Segment(0x42010000, [1, 0, 0, 0]);
            IsIrom(Esp32S3, irom.addr) && !S3IromShown(makeImage, ram, outf, irom, drom)
  {
    hide S3IromShown, S3BuildOk;
    var irom := Segment(0x42010000, [1, 0, 0, 0]);
    assert irom.data == Marks(4, true);
    NotFirstPage(irom, drom);
    S3Mark(makeImage, ram, outf, irom, drom);
  }

  lemma NotFirstPage(irom: Segment, drom: Segment)
    requires irom.addr == 0x42010000
    ensures S3_DROM_VADDR <= drom.addr ==> !S3IromFits(irom, drom)
  {
  }

  /** The ESP32-S3 image runs in place: through the words that the startup code reads, DROM is
      always read at its own addresses, and IROM if it fits its window. */
  lemma S3RunsInPlace(makeImage: bool, ram: seq<Segment>, flash: seq<Segment>, i: nat, d: nat, syms: Symbols, entry: nat,
                      sha: Hash)
    requires HashOk(sha) && Encodable(ram) && SoleIrom(flash, i) && SoleDrom(flash, d)
    requires S3Fits(makeImage, ram, flash[i], flash[d])
    requires S3Image(makeImage, ram, flash, syms, entry, sha).Ok?
    ensures var image := Grown(makeImage, S3Image(makeImage, ram, flash, syms, entry, sha).value);
            var offsets := S3Offsets(makeImage, ram, flash[i], flash[d]);
            var a, b := Lookup(syms, "_irom_flash_addr"), Lookup(syms, "_drom_flash_addr");
            && offsets.Ok? && a.Some? && b.Some?
            && S3_IROM_VADDR <= flash[i].addr && S3_DROM_VADDR <= flash[d].addr
            && var patched := S3Patched(ram, syms, offsets.value.0, offsets.value.1);
            && patched.Ok?
            && var iromWord, dromWord := ReadWord(patched.value, a.value), ReadWord(patched.value, b.value);
            && dromWord.Some? && ReadsOwn(image, 0, S3DromWindow(dromWord.value, flash[d]), flash[d])
            && (S3IromFits(flash[i], flash[d]) && (a.value + 4 <= b.value || b.value + 4 <= a.value) ==>
                  iromWord.Some? && ReadsOwn(image, 0, S3IromWindow(iromWord.value, flash[i], flash[d]), flash[i]))
  {
    hide S3Image, S3Patched, Boots, InPage, ReadsOwn, ReadWord, Lookup, Encodable, HashOk, Grown, S3Offsets, S3IromFits,
      S3DromWindow, S3IromWindow, PredictedSize;
    S3Correct(makeImage, ram, flash, i, d, syms, entry, sha);
    var image := Grown(makeImage, S3Image(makeImage, ram, flash, syms, entry, sha).value);
    var offsets := S3Offsets(makeImage, ram, flash[i], flash[d]).value;
    var patched := S3Patched(ram, syms, offsets.0, offsets.1).value;
    var a, b := Lookup(syms, "_irom_flash_addr").value, Lookup(syms, "_drom_flash_addr").value;
    S3DromReads(image, ReadWord(patched, b).value, flash[d]);
    if S3IromFits(flash[i], flash[d]) && (a + 4 <= b || b + 4 <= a) {
      S3IromReads(image, ReadWord(patched, a).value, flash[i], flash[d]);
    }
  }
}
