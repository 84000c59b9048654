/**
 * Zstandard blocks (section 3.1.1.2 of RFC 8878): a 3-byte little-endian
 * Block_Header holding Last_Block, Block_Type and Block_Size, followed by
 * the block's content.
 */
module Blocks {
  import opened Wrappers
  import opened Bytes

  /** The four Block_Type values, in the order of their codes 0 to 3. */
  datatype BlockType = Raw | Rle | Compressed | Reserved

  /** `BlockType(bits)`: the type with code `bits`. */
  function BlockTypeOf(bits: nat): (t: BlockType)
    requires bits < 4
    ensures t == Reserved <==> bits == 3
  {
    if bits == 0 then Raw else if bits == 1 then Rle else if bits == 2 then Compressed else Reserved
  }

  /** The code of a block type, `BlockType.value`. */
  function TypeCode(t: BlockType): (code: nat)
    ensures code < 4
  {
    match t
    case Raw => 0
    case Rle => 1
    case Compressed => 2
    case Reserved => 3
  }

  lemma BlockTypeCodes(bits: nat, t: BlockType)
    requires bits < 4
    ensures TypeCode(BlockTypeOf(bits)) == bits
    ensures BlockTypeOf(TypeCode(t)) == t
  {
  }

  /** The largest Block_Size plus one: 21 bits are left above Last_Block and Block_Type. */
  const MaxDataSize: nat := 0x20_0000

  /**
   * A parsed block. For an RLE block `dataSize` is the repeat count and
   * `data` the one byte to repeat; otherwise `dataSize` is the length of
   * the content and `data` the content, both cut short where the input ends.
   */
  datatype Block = Block(isLast: bool, blockType: BlockType, dataSize: nat, data: seq<byte>) {

    /** Encoded length: three header bytes and one content byte for RLE, `dataSize` otherwise. */
    function Size(): (n: nat)
      ensures n >= 3
      ensures n == 3 + (if blockType == Rle then 1 else dataSize)
    {
      if blockType == Rle then 4 else 3 + dataSize
    }

    /** The header field values a parser can produce. */
    predicate WellFormed() {
      blockType != Reserved && dataSize < MaxDataSize
      && |data| == (if blockType == Rle then 1 else dataSize)
    }
  }

  /** The Block_Header at `offset`, as an integer (fewer than three bytes where the input ends). */
  function HeaderValue(data: seq<byte>, offset: nat): (h: nat)
    ensures h < 0x100_0000
  {
    LittleEndianBound(Slice(data, offset, 3));
    LittleEndian(Slice(data, offset, 3))
  }

  /** A header value is the sum of its three bit fields at their place values. */
  lemma HeaderBits(header: nat)
    ensures header == header % 2 + 2 * (header / 2 % 4) + 8 * (header / 8)
  {
    var q := header / 2;
    assert header == header % 2 + 2 * q;
    assert q == q % 4 + 4 * (q / 4);
    assert q / 4 == header / 8;
  }

  /** Packing three in-range fields into a header value and splitting it again gives them back. */
  lemma HeaderFields(last: nat, code: nat, dataSize: nat)
    requires last < 2 && code < 4
    ensures var header := last + 2 * code + 8 * dataSize;
      header % 2 == last && header / 2 % 4 == code && header / 8 == dataSize
  {
    var header := last + 2 * code + 8 * dataSize;
    var q := code + 4 * dataSize;
    assert header == last + 2 * q;
    assert header / 2 == q;
    assert q / 4 == dataSize && q % 4 == code;
    assert header / 8 == dataSize;
  }

  /**
   * `Block.from_bytes`: decodes the header at `offset` bit field by bit field
   * (`header & 1`, `(header & 0b110) >> 1`, `header >> 3`), rejects the
   * Reserved type, and takes the content that follows the header.
   */
  function ParseBlock(data: seq<byte>, offset: nat): (r: Result<Block>)
    ensures r.Err? ==> r.error == ReservedBlockType
  {
    var header := HeaderValue(data, offset);
    var isLast := header % 2 == 1;
    var blockType := BlockTypeOf(ShiftRight(header, 1) % 4);
    if blockType == Reserved then
      Err(ReservedBlockType)
    else
      var dataSize := ShiftRight(header, 3);
      var content := if blockType == Rle then Slice(data, offset + 3, 1) else Slice(data, offset + 3, dataSize);
      Ok(Block(isLast, blockType, dataSize, content))
  }

  /**
   * The header's bit fields: Reserved is rejected, and otherwise the
   * header is `Last_Block + 2 * Block_Type + 8 * Block_Size` with the
   * size below 2^21.
   */
  lemma ParseBlockFields(data: seq<byte>, offset: nat)
    ensures var r := ParseBlock(data, offset);
      && (r.Err? <==> HeaderValue(data, offset) / 2 % 4 == 3)
      && (r.Ok? ==> r.value.blockType != Reserved && r.value.dataSize < MaxDataSize)
      && (r.Ok? ==> HeaderValue(data, offset)
                      == (if r.value.isLast then 1 else 0) + 2 * TypeCode(r.value.blockType) + 8 * r.value.dataSize)
  {
    var header := HeaderValue(data, offset);
    ShiftRightIsDiv(header, 1);
    ShiftRightIsDiv(header, 3);
    assert Pow2(1) == 2 && Pow2(3) == 8;
    HeaderBits(header);
    BlockTypeCodes(header / 2 % 4, Raw);
  }

  /**
   * The content of a parsed block is the bytes after its header, as many
   * as its size counts and cut short where the input ends; exactly that
   * many when the input holds them all.
   */
  lemma ParseBlockContent(data: seq<byte>, offset: nat)
    requires ParseBlock(data, offset).Ok?
    ensures var b := ParseBlock(data, offset).value;
      && b.data == Slice(data, offset + 3, b.Size() - 3)
      && (offset + b.Size() <= |data| ==> b.WellFormed() && b.data == data[offset + 3..offset + b.Size()])
      && |b.data| <= b.Size() - 3
  {
    var b := ParseBlock(data, offset).value;
    ParseBlockFields(data, offset);
    if offset + b.Size() <= |data| {
      assert Slice(data, offset + 3, b.Size() - 3) == data[offset + 3..offset + b.Size()];
    }
  }

  /** A block laid out as bytes: its 3-byte header, then its content. */
  function EncodeBlock(b: Block): (bytes: seq<byte>)
    requires b.WellFormed()
    ensures |bytes| == b.Size()
  {
    var header := (if b.isLast then 1 else 0) + 2 * TypeCode(b.blockType) + 8 * b.dataSize;
    ToLittleEndian(header, 3) + b.data
  }

  /** Where an encoded block sits in the input: its header value, then its content. */
  lemma EncodedBlockAt(prefix: seq<byte>, b: Block, rest: seq<byte>)
    requires b.WellFormed()
    ensures var data := prefix + EncodeBlock(b) + rest;
      && HeaderValue(data, |prefix|) == (if b.isLast then 1 else 0) + 2 * TypeCode(b.blockType) + 8 * b.dataSize
      && Slice(data, |prefix| + 3, |b.data|) == b.data
  {
    var header := (if b.isLast then 1 else 0) + 2 * TypeCode(b.blockType) + 8 * b.dataSize;
    var data := prefix + EncodeBlock(b) + rest;
    LittleEndianOfToLittleEndian(header, 3);
    assert Slice(data, |prefix|, 3) == ToLittleEndian(header, 3);
    assert Slice(data, |prefix| + 3, |b.data|) == b.data;
  }

  /** Parsing an encoded block gives the block back, wherever it starts and whatever follows it. */
  lemma {:induction false} ParseEncodeBlock(prefix: seq<byte>, b: Block, rest: seq<byte>)
    requires b.WellFormed()
    ensures ParseBlock(prefix + EncodeBlock(b) + rest, |prefix|) == Ok(b)
  {
    var header := (if b.isLast then 1 else 0) + 2 * TypeCode(b.blockType) + 8 * b.dataSize;
    var data := prefix + EncodeBlock(b) + rest;
    EncodedBlockAt(prefix, b, rest);
    ParseBlockFields(data, |prefix|);
    HeaderBits(header);
    HeaderFields(if b.isLast then 1 else 0, TypeCode(b.blockType), b.dataSize);
    BlockTypeCodes(0, b.blockType);
  }

  /** Re-encoding a block parsed from complete input gives back the bytes it was parsed from. */
  lemma {:induction false} EncodeParseBlock(data: seq<byte>, offset: nat)
    requires ParseBlock(data, offset).Ok?
    requires offset + ParseBlock(data, offset).value.Size() <= |data|
    ensures ParseBlock(data, offset).value.WellFormed()
    ensures EncodeBlock(ParseBlock(data, offset).value) == data[offset..offset + ParseBlock(data, offset).value.Size()]
  {
    var b := ParseBlock(data, offset).value;
    ParseBlockFields(data, offset);
    ParseBlockContent(data, offset);
    var headerBytes := Slice(data, offset, 3);
    assert headerBytes == data[offset..offset + 3];
    ToLittleEndianOfLittleEndian(headerBytes);
    var whole := data[offset..offset + b.Size()];
    assert whole[..3] == headerBytes && whole[3..] == b.data;
    assert whole == whole[..3] + whole[3..];
  }
}
