/**
 The part of an ESP firmware image that the ROM bootloader reads: header, segments, checksum
 and hash, as they are written and as the bootloader reads them back.
 */
module EspImage {
  import opened Wrappers
  import opened Bytes
  import opened Powers

  /** A segment: an address and the data to put there. */
  datatype Segment = Segment(addr: nat, data: seq<byte>)

  datatype Chip = Esp32 | Esp32S3

  type Hash = seq<byte> -> seq<byte>

  ghost predicate HashOk(sha: Hash) {
    forall s :: |sha(s)| == 32
  }

  // ---------- checksum ----------

  /** Bitwise exclusive or. */
  function Xor(a: nat, b: nat): nat
    decreases a + b
  {
    if a == 0 && b == 0 then 0 else 2 * Xor(a / 2, b / 2) + (a + b) % 2
  }

  lemma {:induction false} XorBound(a: nat, b: nat, k: nat)
    requires a < Pow2(k) && b < Pow2(k)
    ensures Xor(a, b) < Pow2(k)
    decreases k
  {
    if k > 0 {
      XorBound(a / 2, b / 2, k - 1);
    }
  }

  lemma {:induction false} XorInjective(a: nat, b: nat, c: nat)
    requires Xor(a, b) == Xor(a, c)
    ensures b == c
    decreases a + b + c
  {
    if a + b + c > 0 {
      XorInjective(a / 2, b / 2, c / 2);
    }
  }

  lemma {:induction false} XorCommutes(a: nat, b: nat)
    ensures Xor(a, b) == Xor(b, a)
    decreases a + b
  {
    if a + b > 0 {
      XorCommutes(a / 2, b / 2);
    }
  }

  function XorByte(a: byte, b: byte): byte {
    assert Pow2(8) == 256 by {
      assert Pow2(4) == 16;
    }
    XorBound(a, b, 8);
    Xor(a, b)
  }

  function XorAll(sum: byte, data: seq<byte>): byte {
    if data == [] then sum else XorByte(XorAll(sum, data[..|data| - 1]), data[|data| - 1])
  }

  /** The checksum over the data of the first n segments. */
  function Checksum(segs: seq<Segment>, n: nat): byte
    requires n <= |segs|
  {
    if n == 0 then 0xef else XorAll(Checksum(segs, n - 1), segs[n - 1].data)
  }

  /** The data of the first n segments. */
  function Payload(segs: seq<Segment>, n: nat): seq<byte>
    requires n <= |segs|
  {
    if n == 0 then [] else Payload(segs, n - 1) + segs[n - 1].data
  }

  lemma {:induction false} XorConcat(sum: byte, a: seq<byte>, b: seq<byte>)
    ensures XorAll(sum, a + b) == XorAll(XorAll(sum, a), b)
    decreases |b|
  {
    hide XorByte;
    if b == [] {
      assert a + b == a;
    } else {
      assert (a + b)[..|a + b| - 1] == a + b[..|b| - 1];
      XorConcat(sum, a, b[..|b| - 1]);
    }
  }

  /** The checksum is 0xEF exclusive-ored with all data bytes. */
  lemma {:induction false} ChecksumIsXor(segs: seq<Segment>, n: nat)
    requires n <= |segs|
    ensures Checksum(segs, n) == XorAll(0xEF, Payload(segs, n))
  {
    hide XorByte;
    if n > 0 {
      ChecksumIsXor(segs, n - 1);
      XorConcat(0xEF, Payload(segs, n - 1), segs[n - 1].data);
    }
  }

  lemma XorByteDiffers(a: byte, b: byte, x: byte)
    requires a != b
    ensures XorByte(a, x) != XorByte(b, x) && XorByte(x, a) != XorByte(x, b)
  {
    XorCommutes(a, x);
    XorCommutes(b, x);
    if Xor(x, a) == Xor(x, b) {
      XorInjective(x, a, b);
    }
  }

  lemma {:induction false} SumDiffers(s: byte, t: byte, data: seq<byte>)
    requires s != t
    ensures XorAll(s, data) != XorAll(t, data)
  {
    if data != [] {
      var front := data[..|data| - 1];
      SumDiffers(s, t, front);
      XorByteDiffers(XorAll(s, front), XorAll(t, front), data[|data| - 1]);
    }
  }

  lemma {:induction false} ByteDiffers(s: byte, data: seq<byte>, j: nat, b: byte)
    requires j < |data| && data[j] != b
    ensures XorAll(s, data[j := b]) != XorAll(s, data)
  {
    hide XorByte;
    var last := |data| - 1;
    var other := data[j := b];
    if j == last {
      assert other[..last] == data[..last];
      XorByteDiffers(data[j], b, XorAll(s, data[..last]));
    } else {
      ByteDiffers(s, data[..last], j, b);
      assert other[..last] == data[..last][j := b];
      XorByteDiffers(XorAll(s, other[..last]), XorAll(s, data[..last]), data[last]);
    }
  }

  /** Changing any one byte of any segment changes the checksum. */
  lemma {:induction false} ChecksumDetects(segs: seq<Segment>, n: nat, i: nat, j: nat, b: byte)
    requires i < n <= |segs| && j < |segs[i].data| && segs[i].data[j] != b
    ensures Checksum(segs[i := segs[i].(data := segs[i].data[j := b])], n) != Checksum(segs, n)
  {
    hide XorAll;
    var other := segs[i := segs[i].(data := segs[i].data[j := b])];
    if i == n - 1 {
      SamePrefix(segs, other, i);
      ByteDiffers(Checksum(segs, i), segs[i].data, j, b);
    } else {
      ChecksumDetects(segs, n - 1, i, j, b);
      SumDiffers(Checksum(segs, n - 1), Checksum(other, n - 1), segs[n - 1].data);
    }
  }

  lemma {:induction false} SamePrefix(segs: seq<Segment>, other: seq<Segment>, n: nat)
    requires n <= |segs| && n <= |other| && segs[..n] == other[..n]
    ensures Checksum(segs, n) == Checksum(other, n)
  {
    hide XorAll;
    if n > 0 {
      assert segs[..n][n - 1] == other[..n][n - 1];
      assert segs[..n - 1] == segs[..n][..n - 1] == other[..n - 1];
      SamePrefix(segs, other, n - 1);
    }
  }

  // ---------- writing ----------

  const HEADER_SIZE: nat := 24

  function Header(chip: Chip, count: nat, entry: nat): (r: seq<byte>)
    ensures |r| == HEADER_SIZE && r[0] == 0xE9 && r[1] == count % 256
  {
    [0xE9, count % 256, 2, 0x1f] + PutUint32(entry) + [0xEE, 0, 0, 0]
    + (if chip.Esp32? then [0, 0] else [9, 0]) + [0] + Zeros(8) + [1]
  }

  function SegmentBytes(s: Segment): seq<byte> {
    PutUint32(s.addr) + PutUint32(|s.data|) + s.data
  }

  /** The first n segments as they are written. */
  function Body(segs: seq<Segment>, n: nat): seq<byte>
    requires n <= |segs|
  {
    if n == 0 then [] else Body(segs, n - 1) + SegmentBytes(segs[n - 1])
  }

  function BodySize(segs: seq<Segment>, n: nat): nat
    requires n <= |segs|
  {
    if n == 0 then 0 else BodySize(segs, n - 1) + 8 + |segs[n - 1].data|
  }

  lemma {:induction false} BodyLength(segs: seq<Segment>, n: nat)
    requires n <= |segs|
    ensures |Body(segs, n)| == BodySize(segs, n)
  {
    if n > 0 {
      BodyLength(segs, n - 1);
    }
  }

  /** Everything up to the footer, after the given leading bytes. */
  function Front(lead: nat, chip: Chip, segs: seq<Segment>, entry: nat): seq<byte> {
    Zeros(lead) + Header(chip, |segs|, entry) + Body(segs, |segs|)
  }

  /** Pad to one byte less than a multiple of 16 and add the checksum. */
  function WithFooter(front: seq<byte>, checksum: byte): seq<byte> {
    front + Zeros(15 - |front| % 16) + [checksum]
  }

  /** The RAM image: leading zeros, header, segments, footer, and a hash over all of it. */
  function RamImage(lead: nat, chip: Chip, segs: seq<Segment>, entry: nat, sha: Hash): seq<byte> {
    var hashed := WithFooter(Front(lead, chip, segs, entry), Checksum(segs, |segs|));
    hashed + sha(hashed)
  }

  /** The size computed before anything is written. */
  function PredictedSize(lead: nat, segs: seq<Segment>): nat {
    var x := HEADER_SIZE + lead + BodySize(segs, |segs|);
    x + (16 - x % 16) + 32
  }

  /** The size computed in advance is the size written. */
  lemma PredictionExact(lead: nat, chip: Chip, segs: seq<Segment>, entry: nat, sha: Hash)
    requires HashOk(sha)
    ensures |RamImage(lead, chip, segs, entry, sha)| == PredictedSize(lead, segs)
  {
    BodyLength(segs, |segs|);
  }

  /** Leading bytes in a multiple of 16 only shift the image. */
  lemma PredictionShift(k: nat, segs: seq<Segment>)
    ensures PredictedSize(16 * k, segs) == 16 * k + PredictedSize(0, segs)
  {
    ShiftMod(HEADER_SIZE + BodySize(segs, |segs|), k);
  }

  lemma ShiftMod(x: nat, k: nat)
    ensures (x + 16 * k) % 16 == x % 16
  {
  }

  // ---------- reading ----------

  /** How the bootloader reads n segments from the front of the bytes. */
  function ReadSegments(bytes: seq<byte>, n: nat): (r: Option<(seq<Segment>, seq<byte>)>)
    ensures r.Some? ==> |r.value.1| <= |bytes|
    decreases n
  {
    if n == 0 then Some(([], bytes))
    else if |bytes| < 8 then None
    else
      var length := GetUint32(bytes[4..]);
      if |bytes| < 8 + length then None
      else
        match ReadSegments(bytes[8 + length..], n - 1)
        case None => None
        case Some(later) => Some(([Segment(GetUint32(bytes), bytes[8..8 + length])] + later.0, later.1))
  }

  /** What the bootloader takes from an image: the segments, the address to jump to, how to
      read the flash, the chip revision needed, and the number of bytes that the hash after
      them must cover. */
  datatype Loaded = Loaded(segs: seq<Segment>, entry: nat, spi: SpiSettings, minRev: byte, hashed: nat)

  datatype SpiSettings = SpiSettings(mode: byte, speedSize: byte, wpPin: byte, pinDrive: seq<byte>)

  /** Dual I/O at 80 MHz with 2 MB, no write-protect pin, default drive strength. */
  const DIO_80M: SpiSettings := SpiSettings(2, 0x1f, 0xEE, [0, 0, 0])

  /** The chip ID that the bootloader of a chip expects. */
  function ChipId(chip: Chip): nat {
    match chip
    case Esp32 => 0x0000
    case Esp32S3 => 0x0009
  }

  /** How the bootloader of a chip reads an image: the magic number, its own chip ID, the flag
      for a hash and the checksum must be right. */
  function Load(chip: Chip, image: seq<byte>): Option<Loaded> {
    if |image| < HEADER_SIZE || image[0] != 0xE9 || GetUint16(image[12..]) != ChipId(chip) || image[23] != 1 then None
    else
      match ReadSegments(image[HEADER_SIZE..], image[1])
      case None => None
      case Some(read) =>
        var front := |image| - |read.1|;
        var hashed := front + 16 - front % 16;
        if |image| < hashed + 32 || image[hashed - 1] != XorAll(0xEF, Payload(read.0, |read.0|)) then None
        else Some(Loaded(read.0, GetUint32(image[4..]), SpiSettings(image[2], image[3], image[8], image[9..12]), image[14], hashed))
  }

  /** Addresses, lengths and the number of segments fit their fields. */
  ghost predicate Encodable(segs: seq<Segment>) {
    |segs| < 256 && forall i :: 0 <= i < |segs| ==> segs[i].addr < TWO32 && |segs[i].data| < TWO32
  }

  function BodyFrom(segs: seq<Segment>, k: nat): seq<byte>
    requires k <= |segs|
    decreases |segs| - k
  {
    if k == |segs| then [] else SegmentBytes(segs[k]) + BodyFrom(segs, k + 1)
  }

  lemma Associative(a: seq<byte>, b: seq<byte>, c: seq<byte>)
    ensures (a + b) + c == a + (b + c)
  {
  }

  lemma {:induction false} BodySplits(segs: seq<Segment>, k: nat)
    requires k <= |segs|
    ensures Body(segs, k) + BodyFrom(segs, k) == Body(segs, |segs|)
    decreases |segs| - k
  {
    hide SegmentBytes;
    if k < |segs| {
      BodySplits(segs, k + 1);
      Associative(Body(segs, k), SegmentBytes(segs[k]), BodyFrom(segs, k + 1));
    } else {
      assert Body(segs, k) + [] == Body(segs, k);
    }
  }

  lemma BodyAll(segs: seq<Segment>)
    ensures Body(segs, |segs|) == BodyFrom(segs, 0)
  {
    hide SegmentBytes, BodyFrom;
    BodySplits(segs, 0);
    assert [] + BodyFrom(segs, 0) == BodyFrom(segs, 0);
  }

  lemma ReadOne(s: Segment, rest: seq<byte>)
    requires s.addr < TWO32 && |s.data| < TWO32
    ensures var bytes := SegmentBytes(s) + rest;
            && |bytes| >= 8 + |s.data| && GetUint32(bytes) == s.addr && GetUint32(bytes[4..]) == |s.data|
            && bytes[8..8 + |s.data|] == s.data && bytes[8 + |s.data|..] == rest
  {
    hide PutUint32, GetUint32;
    var bytes := SegmentBytes(s) + rest;
    var tail := PutUint32(|s.data|) + (s.data + rest);
    assert bytes == PutUint32(s.addr) + tail;
    GetPut(s.addr, tail);
    assert bytes[4..] == tail;
    GetPut(|s.data|, s.data + rest);
  }

  lemma {:induction false} ReadWritten(segs: seq<Segment>, k: nat, rest: seq<byte>)
    requires k <= |segs| && Encodable(segs)
    ensures ReadSegments(BodyFrom(segs, k) + rest, |segs| - k) == Some((segs[k..], rest))
    decreases |segs| - k
  {
    hide SegmentBytes, GetUint32;
    if k == |segs| {
      assert [] + rest == rest;
    } else {
      var later := BodyFrom(segs, k + 1) + rest;
      Associative(SegmentBytes(segs[k]), BodyFrom(segs, k + 1), rest);
      ReadOne(segs[k], later);
      ReadWritten(segs, k + 1, rest);
      assert segs[k..] == [segs[k]] + segs[k + 1..];
    }
  }

  /** Where the parts of a concatenation lie. */
  lemma Parts(z: seq<byte>, h: seq<byte>, b: seq<byte>, pad: seq<byte>, c: byte, s: seq<byte>, tail: seq<byte>)
    ensures var whole := z + h + b + pad + [c] + s + tail;
            var front := |z + h + b|;
            var hashed := |z + h + b + pad + [c]|;
            && whole[|z|..][..|h|] == h
            && whole[|z|..][|h|..] == b + whole[front..]
            && whole[hashed - 1] == c
            && whole[..hashed] == z + h + b + pad + [c]
            && whole[hashed..hashed + |s|] == s
  {
  }

  /** Where the parts of a written image lie, seen from the place the bootloader starts. */
  lemma ImageParts(lead: nat, chip: Chip, segs: seq<Segment>, entry: nat, sha: Hash, tail: seq<byte>)
    requires HashOk(sha)
    ensures var whole := RamImage(lead, chip, segs, entry, sha) + tail;
            var front := lead + HEADER_SIZE + |Body(segs, |segs|)|;
            var hashed := front + 16 - front % 16;
            && |whole| >= hashed + 32
            && whole[lead..][..HEADER_SIZE] == Header(chip, |segs|, entry)
            && whole[lead..][HEADER_SIZE..] == Body(segs, |segs|) + whole[front..]
            && whole[hashed - 1] == Checksum(segs, |segs|)
            && whole[hashed..hashed + 32] == sha(whole[..hashed])
  {
    hide Body, Checksum, Header;
    var z, h, b := Zeros(lead), Header(chip, |segs|, entry), Body(segs, |segs|);
    var pad, c := Zeros(15 - |z + h + b| % 16), Checksum(segs, |segs|);
    Parts(z, h, b, pad, c, sha(z + h + b + pad + [c]), tail);
    assert RamImage(lead, chip, segs, entry, sha) == z + h + b + pad + [c] + sha(z + h + b + pad + [c]);
  }

  /** The fields of the header, at the offsets of the bootloader's header format. */
  lemma HeaderFields(image: seq<byte>, chip: Chip, count: nat, entry: nat)
    requires |image| >= HEADER_SIZE && image[..HEADER_SIZE] == Header(chip, count, entry)
    ensures image[0] == 0xE9 && image[1] == count % 256
    ensures SpiSettings(image[2], image[3], image[8], image[9..12]) == DIO_80M
    ensures forall k :: 14 <= k < 23 ==> image[k] == 0
    ensures GetUint32(image[4..]) == entry % TWO32
    ensures GetUint16(image[12..]) == ChipId(chip) && image[23] == 1
  {
    hide PutUint32, GetUint32;
    var h := Header(chip, count, entry);
    var tail := h[8..] + image[HEADER_SIZE..];
    assert forall k :: 0 <= k < HEADER_SIZE ==> image[k] == image[..HEADER_SIZE][k] == h[k];
    assert h[4..8] == PutUint32(entry);
    assert image[9..12] == h[9..12] == [0, 0, 0];
    assert image == h + image[HEADER_SIZE..];
    assert image[4..] == PutUint32(entry) + tail;
    GetPut(entry, tail);
  }

  /** The bootloader's reading of an image whose parts are known. */
  lemma LoadParts(chip: Chip, image: seq<byte>, segs: seq<Segment>, entry: nat, rest: seq<byte>)
    requires Encodable(segs) && |image| >= HEADER_SIZE && image[..HEADER_SIZE] == Header(chip, |segs|, entry)
    requires image[HEADER_SIZE..] == Body(segs, |segs|) + rest
    requires var front := HEADER_SIZE + |Body(segs, |segs|)|;
             var hashed := front + 16 - front % 16;
             |image| >= hashed + 32 && image[hashed - 1] == Checksum(segs, |segs|)
    ensures var front := HEADER_SIZE + |Body(segs, |segs|)|;
            Load(chip, image) == Some(Loaded(segs, entry % TWO32, DIO_80M, 0, front + 16 - front % 16))
  {
    hide Body, Checksum, ReadSegments, BodyFrom, Header, GetUint32, XorAll, Payload;
    ChecksumIsXor(segs, |segs|);
    HeaderFields(image, chip, |segs|, entry);
    BodyAll(segs);
    ReadWritten(segs, 0, rest);
    assert segs[0..] == segs;
    assert |image| - |rest| == HEADER_SIZE + |Body(segs, |segs|)|;
  }

  /** From a multiple of 16 on, the bootloader of the chip accepts a written image with the
      checksum it computes itself and reads exactly the segments and the entry address
      written, whatever follows the image; the 32 bytes behind the checksum are the hash of
      everything before them.  The bootloader of another chip rejects the image. */
  lemma LoadWritten(lead: nat, chip: Chip, segs: seq<Segment>, entry: nat, sha: Hash, tail: seq<byte>)
    requires HashOk(sha) && Encodable(segs) && lead % 16 == 0
    ensures var whole := RamImage(lead, chip, segs, entry, sha) + tail;
            var hashed := PredictedSize(lead, segs) - 32;
            && lead < hashed && hashed + 32 <= |whole|
            && Load(chip, whole[lead..]) == Some(Loaded(segs, entry % TWO32, DIO_80M, 0, hashed - lead))
            && (forall other: Chip :: other != chip ==> Load(other, whole[lead..]).None?)
            && whole[hashed..hashed + 32] == sha(whole[..hashed])
  {
    hide Body, Checksum, Header, RamImage, BodySize, Load;
    var whole := RamImage(lead, chip, segs, entry, sha) + tail;
    var front := HEADER_SIZE + |Body(segs, |segs|)|;
    ImageParts(lead, chip, segs, entry, sha, tail);
    BodyLength(segs, |segs|);
    ShiftMod(front, lead / 16);
    var image := whole[lead..];
    LoadParts(chip, image, segs, entry, whole[lead + front..]);
    forall other: Chip | other != chip ensures Load(other, image).None? {
      OtherChip(chip, other, image, |segs|, entry);
    }
  }

  lemma OtherChip(chip: Chip, other: Chip, image: seq<byte>, count: nat, entry: nat)
    requires other != chip && |image| >= HEADER_SIZE && image[..HEADER_SIZE] == Header(chip, count, entry)
    ensures Load(other, image).None?
  {
    hide Header, GetUint32, ReadSegments;
    HeaderFields(image, chip, count, entry);
  }
}
