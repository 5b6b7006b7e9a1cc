/**
 UF2 files: a flat image cut into 512-byte blocks that each carry 256 bytes and the address
 they belong to.
 */
module Uf2 {
  import opened Wrappers
  import opened Bytes

  const MAGIC_START0: nat := 0x0A324655
  const MAGIC_START1: nat := 0x9E5D5157
  const MAGIC_END: nat := 0x0AB16F30
  const FLAG_FAMILY: nat := 0x00002000
  const PAYLOAD: nat := 256
  const DATA_SIZE: nat := 476
  const BLOCK_SIZE: nat := 512

  // ---------- splitting ----------

  /** The pieces of an input: all of the given size, but the last may be shorter. */
  function Split(input: seq<byte>, limit: nat): seq<seq<byte>>
    requires limit > 0
    decreases |input|
  {
    if |input| >= limit then [input[..limit]] + Split(input[limit..], limit)
    else if |input| > 0 then [input]
    else []
  }

  method SplitBytes(input: seq<byte>, limit: nat) returns (output: seq<seq<byte>>)
    requires limit > 0
    ensures output == Split(input, limit)
  {
    output := [];
    var rest := input;
    while |rest| >= limit
      invariant output + Split(rest, limit) == Split(input, limit)
      decreases |rest|
    {
      var block := rest[..limit];
      assert output + ([block] + Split(rest[limit..], limit)) == output + [block] + Split(rest[limit..], limit);
      rest := rest[limit..];
      output := output + [block];
    }
    if |rest| > 0 {
      output := output + [rest];
    }
    assert output + [] == output;
  }

  function Concat(blocks: seq<seq<byte>>): seq<byte> {
    if blocks == [] then [] else blocks[0] + Concat(blocks[1..])
  }

  /** Nothing is lost or reordered, and only the last piece may be short. */
  lemma {:induction false} SplitConcat(input: seq<byte>, limit: nat)
    requires limit > 0
    ensures Concat(Split(input, limit)) == input
    ensures forall i :: 0 <= i < |Split(input, limit)| ==> 0 < |Split(input, limit)[i]| <= limit
    ensures forall i :: 0 <= i < |Split(input, limit)| - 1 ==> |Split(input, limit)[i]| == limit
    decreases |input|
  {
    var s := Split(input, limit);
    if |input| >= limit {
      SplitConcat(input[limit..], limit);
      assert s[1..] == Split(input[limit..], limit);
      assert input == input[..limit] + input[limit..];
    } else if |input| > 0 {
      assert s[1..] == [];
      assert input + [] == input;
    }
  }

  // ---------- one block ----------

  /** The contents of one block. */
  datatype BlockValue = BlockValue(flags: nat, targetAddr: nat, payloadSize: nat, blockNo: nat,
                                   numBlocks: nat, familyID: nat, data: seq<byte>)

  /** 32-bit numbers one after the other. */
  function Words(xs: seq<nat>): seq<byte> {
    if xs == [] then [] else Words(xs[..|xs| - 1]) + PutUint32(xs[|xs| - 1])
  }

  /** The header words of a block. */
  function Header(b: BlockValue): seq<nat> {
    [MAGIC_START0, MAGIC_START1, b.flags, b.targetAddr, b.payloadSize, b.blockNo, b.numBlocks, b.familyID]
  }

  /** The bytes of a block. */
  function Encode(b: BlockValue): seq<byte> {
    Words(Header(b)) + b.data + PutUint32(MAGIC_END)
  }

  function Word(bytes: seq<byte>, i: nat): nat
    requires 4 * i + 4 <= |bytes|
  {
    GetUint32(bytes[4 * i..])
  }

  /** How a bootloader reads a block. */
  function Decode(bytes: seq<byte>): Option<BlockValue>
    requires |bytes| == BLOCK_SIZE
  {
    if Word(bytes, 0) != 0x0A324655 || Word(bytes, 1) != 0x9E5D5157 || Word(bytes, 127) != 0x0AB16F30 then None
    else Some(BlockValue(Word(bytes, 2), Word(bytes, 3), Word(bytes, 4), Word(bytes, 5), Word(bytes, 6),
                         Word(bytes, 7), bytes[32..508]))
  }

  ghost predicate Fits32(b: BlockValue) {
    && b.flags < TWO32 && b.targetAddr < TWO32 && b.payloadSize < TWO32 && b.blockNo < TWO32
    && b.numBlocks < TWO32 && b.familyID < TWO32 && |b.data| == DATA_SIZE
  }

  lemma WordAt(before: seq<byte>, x: nat, after: seq<byte>, i: nat)
    requires |before| == 4 * i && x < TWO32
    ensures Word(before + PutUint32(x) + after, i) == x
  {
    assert (before + PutUint32(x) + after)[4 * i..] == PutUint32(x) + after;
    GetPut(x, after);
  }

  lemma WordPrefix(a: seq<byte>, rest: seq<byte>, i: nat)
    requires 4 * i + 4 <= |a|
    ensures Word(a + rest, i) == Word(a, i)
  {
  }

  lemma {:induction false} WordsLength(xs: seq<nat>)
    ensures |Words(xs)| == 4 * |xs|
    decreases |xs|
  {
    if xs != [] {
      WordsLength(xs[..|xs| - 1]);
    }
  }

  lemma {:induction false} WordOf(xs: seq<nat>, i: nat)
    requires i < |xs| && xs[i] < TWO32
    ensures |Words(xs)| == 4 * |xs| && Word(Words(xs), i) == xs[i]
    decreases |xs|
  {
    WordsLength(xs);
    WordsLength(xs[..|xs| - 1]);
    if i == |xs| - 1 {
      WordAt(Words(xs[..i]), xs[i], [], i);
      assert Words(xs[..i]) + PutUint32(xs[i]) + [] == Words(xs);
    } else {
      WordOf(xs[..|xs| - 1], i);
      WordPrefix(Words(xs[..|xs| - 1]), PutUint32(xs[|xs| - 1]), i);
    }
  }

  lemma EncodeLength(b: BlockValue)
    requires |b.data| == DATA_SIZE
    ensures |Encode(b)| == BLOCK_SIZE
  {
    WordsLength(Header(b));
  }

  /** Reading a written block gives the block back. */
  lemma DecodeEncode(b: BlockValue)
    requires Fits32(b)
    ensures |Encode(b)| == BLOCK_SIZE && Decode(Encode(b)) == Some(b)
  {
    hide Words, Word;
    var h := Header(b);
    var bytes := Encode(b);
    EncodeLength(b);
    WordsLength(h);
    HeaderWord(b, 0);
    HeaderWord(b, 1);
    HeaderWord(b, 2);
    HeaderWord(b, 3);
    HeaderWord(b, 4);
    HeaderWord(b, 5);
    HeaderWord(b, 6);
    HeaderWord(b, 7);
    WordAt(Words(h) + b.data, MAGIC_END, [], 127);
    assert Words(h) + b.data + PutUint32(MAGIC_END) + [] == bytes;
    assert bytes[32..508] == b.data;
  }

  lemma HeaderWord(b: BlockValue, i: nat)
    requires Fits32(b) && i < 8
    ensures |Encode(b)| == BLOCK_SIZE && Word(Encode(b), i) == Header(b)[i]
  {
    hide Words;
    EncodeLength(b);
    assert Header(b)[i] < TWO32;
    WordOf(Header(b), i);
    WordPrefix(Words(Header(b)), b.data + PutUint32(MAGIC_END), i);
    assert Words(Header(b)) + (b.data + PutUint32(MAGIC_END)) == Encode(b);
  }

  // ---------- the block object ----------

  /** A piece at the start of the data area, zeros after it. */
  function Pad(piece: seq<byte>): (r: seq<byte>)
    ensures |r| == DATA_SIZE
  {
    if |piece| <= DATA_SIZE then piece + Zeros(DATA_SIZE - |piece|) else piece[..DATA_SIZE]
  }

  class Uf2Block {
    var flags: nat
    var targetAddr: nat
    var payloadSize: nat
    var blockNo: nat
    var numBlocks: nat
    var familyID: nat
    var data: seq<byte>

    function Value(): BlockValue
      reads this
    {
      BlockValue(flags, targetAddr, payloadSize, blockNo, numBlocks, familyID, data)
    }

    constructor (targetAddr: nat, flags: nat, familyID: nat)
      ensures Value() == BlockValue(flags, targetAddr, PAYLOAD, 0, 0, familyID, Zeros(DATA_SIZE))
    {
      this.flags, this.targetAddr, this.familyID := flags, targetAddr, familyID;
      payloadSize, blockNo, numBlocks, data := PAYLOAD, 0, 0, Zeros(DATA_SIZE);
    }

    /** Write the fields out in order. */
    method Bytes() returns (buf: seq<byte>)
      ensures buf == Encode(Value())
    {
      var words := Header(Value());
      buf := [];
      for i := 0 to |words|
        invariant buf == Words(words[..i])
      {
        assert words[..i + 1][..i] == words[..i];
        buf := buf + PutUint32(words[i]);
      }
      assert words[..|words|] == words;
      buf := buf + data;
      buf := buf + PutUint32(MAGIC_END);
    }

    method IncrementAddress()
      modifies this`targetAddr
      ensures targetAddr == (old(targetAddr) + payloadSize) % TWO32
    {
      targetAddr := (targetAddr + payloadSize) % TWO32;
    }

    method SetData(d: seq<byte>)
      modifies this`data
      ensures data == Pad(d)
    {
      data := if |d| <= DATA_SIZE then d + Zeros(DATA_SIZE - |d|) else d[..DATA_SIZE];
    }

    method SetBlockNo(bn: nat)
      modifies this`blockNo
      ensures blockNo == bn % TWO32
    {
      blockNo := bn % TWO32;
    }

    method SetNumBlocks(total: nat)
      modifies this`numBlocks
      ensures numBlocks == total % TWO32
    {
      numBlocks := total % TWO32;
    }
  }

  // ---------- the file ----------

  /** The family given on the command line. */
  datatype Family = NoFamily | FamilyID(id: nat) | Malformed

  /** Block i of the file. */
  function BlockAt(pieces: seq<seq<byte>>, addr: nat, family: Family, i: nat): BlockValue
    requires i < |pieces|
  {
    BlockValue(if family.FamilyID? then FLAG_FAMILY else 0, (addr + PAYLOAD * i) % TWO32, PAYLOAD,
               i % TWO32, |pieces| % TWO32, if family.FamilyID? then family.id else 0, Pad(pieces[i]))
  }

  function EncodeFile(pieces: seq<seq<byte>>, addr: nat, family: Family, n: nat): seq<byte>
    requires n <= |pieces|
  {
    if n == 0 then [] else EncodeFile(pieces, addr, family, n - 1) + Encode(BlockAt(pieces, addr, family, n - 1))
  }

  /** convertBinToUF2; None when the family ID does not parse. */
  method ConvertBinToUF2(input: seq<byte>, targetAddr: nat, family: Family) returns (r: Option<(seq<byte>, nat)>)
    requires targetAddr < TWO32 && (family.FamilyID? ==> family.id < TWO32)
    ensures r.None? <==> family.Malformed?
    ensures r.Some? ==> var pieces := Split(input, PAYLOAD);
                        r.value == (EncodeFile(pieces, targetAddr, family, |pieces|), |pieces|)
  {
    hide Split, Encode;
    var blocks := SplitBytes(input, PAYLOAD);
    var output: seq<byte> := [];
    if family.Malformed? {
      return None;
    }
    var bl := new Uf2Block(targetAddr, if family.FamilyID? then FLAG_FAMILY else 0, if family.FamilyID? then family.id else 0);
    bl.SetNumBlocks(|blocks|);
    for i := 0 to |blocks|
      invariant fresh(bl)
      invariant bl.targetAddr == (targetAddr + PAYLOAD * i) % TWO32 && bl.payloadSize == PAYLOAD
      invariant bl.numBlocks == |blocks| % TWO32
      invariant bl.flags == if family.FamilyID? then FLAG_FAMILY else 0
      invariant bl.familyID == if family.FamilyID? then family.id else 0
      invariant output == EncodeFile(blocks, targetAddr, family, i)
    {
      bl.SetBlockNo(i);
      bl.SetData(blocks[i]);
      assert bl.Value() == BlockAt(blocks, targetAddr, family, i);
      var bytes := bl.Bytes();
      output := output + bytes;
      bl.IncrementAddress();
      AddressStep(targetAddr + PAYLOAD * i);
    }
    r := Some((output, |blocks|));
  }

  lemma AddressStep(x: nat)
    ensures (x % TWO32 + PAYLOAD) % TWO32 == (x + PAYLOAD) % TWO32
  {
  }

  /** Read a file block by block. */
  function DecodeFile(bytes: seq<byte>): Option<seq<BlockValue>>
    decreases |bytes|
  {
    if bytes == [] then Some([])
    else if |bytes| < BLOCK_SIZE then None
    else
      var n := |bytes| - BLOCK_SIZE;
      match (DecodeFile(bytes[..n]), Decode(bytes[n..]))
      case (Some(bs), Some(b)) => Some(bs + [b])
      case _ => None
  }

  /** The first n blocks of the file. */
  function BlocksOf(pieces: seq<seq<byte>>, addr: nat, family: Family, n: nat): (r: seq<BlockValue>)
    requires n <= |pieces|
    ensures |r| == n && forall i :: 0 <= i < n ==> r[i] == BlockAt(pieces, addr, family, i)
  {
    if n == 0 then [] else BlocksOf(pieces, addr, family, n - 1) + [BlockAt(pieces, addr, family, n - 1)]
  }

  lemma {:induction false} DecodeEncodeFile(pieces: seq<seq<byte>>, addr: nat, family: Family, n: nat)
    requires n <= |pieces| && (family.FamilyID? ==> family.id < TWO32)
    ensures DecodeFile(EncodeFile(pieces, addr, family, n)) == Some(BlocksOf(pieces, addr, family, n))
  {
    hide Encode, Decode, Pad;
    if n > 0 {
      DecodeEncodeFile(pieces, addr, family, n - 1);
      var b := BlockAt(pieces, addr, family, n - 1);
      assert Fits32(b);
      DecodeEncode(b);
      DecodeLast(EncodeFile(pieces, addr, family, n - 1), Encode(b));
    }
  }

  lemma DecodeLast(bytes: seq<byte>, block: seq<byte>)
    requires |block| == BLOCK_SIZE && DecodeFile(bytes).Some? && Decode(block).Some?
    ensures DecodeFile(bytes + block) == Some(DecodeFile(bytes).value + [Decode(block).value])
  {
    hide Decode;
    var all := bytes + block;
    var n := |all| - BLOCK_SIZE;
    assert all[..n] == bytes && all[n..] == block;
  }

  /** Piece i of a split holds the input from byte limit * i on. */
  lemma {:induction false} SplitAt(input: seq<byte>, limit: nat, i: nat, k: nat)
    requires limit > 0 && i < |Split(input, limit)| && k < limit
    ensures |Split(input, limit)[i]| <= limit
    ensures limit * i + k < |input| <==> k < |Split(input, limit)[i]|
    ensures k < |Split(input, limit)[i]| ==> Split(input, limit)[i][k] == input[limit * i + k]
    decreases |input|
  {
    if |input| >= limit {
      if i > 0 {
        SplitAt(input[limit..], limit, i - 1, k);
        assert limit * i == limit * (i - 1) + limit;
      }
    }
  }

  /** Reading the file back gives the numbered blocks of the given family, with the input at
      consecutive addresses, followed only by the zeros that fill the last block. */
  lemma FileHoldsInput(input: seq<byte>, addr: nat, family: Family, i: nat, k: nat)
    requires addr < TWO32 && (family.FamilyID? ==> family.id < TWO32)
    requires i < |Split(input, PAYLOAD)| && k < PAYLOAD
    ensures var pieces := Split(input, PAYLOAD);
            var blocks := DecodeFile(EncodeFile(pieces, addr, family, |pieces|));
            && blocks.Some? && |blocks.value| == |pieces|
            && blocks.value[i].blockNo == i % TWO32 && blocks.value[i].numBlocks == |pieces| % TWO32
            && (family.FamilyID? ==> blocks.value[i].flags == 0x2000 && blocks.value[i].familyID == family.id)
            && (!family.FamilyID? ==> blocks.value[i].flags == 0 && blocks.value[i].familyID == 0)
            && blocks.value[i].targetAddr == (addr + PAYLOAD * i) % TWO32
            && blocks.value[i].payloadSize == 256 && |blocks.value[i].data| == DATA_SIZE
            && blocks.value[i].data[k] == if PAYLOAD * i + k < |input| then input[PAYLOAD * i + k] else 0
  {
    hide Split, EncodeFile, DecodeFile;
    var pieces := Split(input, PAYLOAD);
    DecodeEncodeFile(pieces, addr, family, |pieces|);
    SplitAt(input, PAYLOAD, i, k);
  }

  /** The number of blocks is the number of payloads the input needs. */
  lemma {:induction false} BlockCount(input: seq<byte>, limit: nat)
    requires limit > 0
    ensures limit * (|Split(input, limit)| - 1) < |input| <= limit * |Split(input, limit)| || input == []
    decreases |input|
  {
    if |input| >= limit {
      BlockCount(input[limit..], limit);
      var n := |Split(input[limit..], limit)|;
      assert limit * (n + 1) == limit * n + limit;
    }
  }
}
