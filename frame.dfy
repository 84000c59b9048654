/**
 * A Zstandard frame (section 3.1.1 of RFC 8878): the magic number, the
 * frame header, one or more blocks up to the one with Last_Block set,
 * and an optional 4-byte Content_Checksum.
 */
module Frames {
  import opened Wrappers
  import opened Bytes
  import opened FrameHeaders
  import opened Blocks

  /** The magic number 0xFD2FB528, little-endian. */
  const Magic: seq<byte> := [0x28, 0xB5, 0x2F, 0xFD]

  /** The four bytes at `offset` are the magic number, compared byte by byte. */
  predicate MagicAt(data: seq<byte>, offset: nat) {
    offset + 4 <= |data|
    && data[offset] == 0x28 && data[offset + 1] == 0xB5 && data[offset + 2] == 0x2F && data[offset + 3] == 0xFD
  }

  /** The byte-by-byte test is zstandard-py's comparison of the 4-byte slice with the magic number. */
  lemma MagicAtIsSliceTest(data: seq<byte>, offset: nat)
    ensures MagicAt(data, offset) <==> Slice(data, offset, 4) == Magic
  {
    var s := Slice(data, offset, 4);
    if s == Magic {
      assert s[0] == data[offset] && s[1] == data[offset + 1] && s[2] == data[offset + 2] && s[3] == data[offset + 3];
    }
    if MagicAt(data, offset) {
      assert s == data[offset..offset + 4];
    }
  }

  /**
   * A parsed frame. `checksum` is present when the descriptor's
   * Content_Checksum_Flag is set, and holds the (at most four) bytes after
   * the last block.
   */
  datatype Frame = Frame(header: FrameHeader, blocks: seq<Block>, checksum: Option<seq<byte>>) {

    /**
     * Encoded length: magic number, header, blocks, and 4 for a checksum
     * that is present and not empty (an empty byte string is false in the
     * Python test).
     */
    function Size(): (n: nat)
      ensures n >= 4 + header.Size() + 3 * |blocks|
      ensures n <= 4 + header.Size() + BlocksSize(blocks) + 4
    {
      4 + header.Size() + BlocksSize(blocks) + (if checksum.Some? && checksum.value != [] then 4 else 0)
    }
  }

  /** The sum of the blocks' sizes. */
  function BlocksSize(bs: seq<Block>): (n: nat)
    ensures n >= 3 * |bs|
  {
    if bs == [] then 0 else bs[0].Size() + BlocksSize(bs[1..])
  }

  lemma {:induction false} BlocksSizeAppend(bs: seq<Block>, b: Block)
    ensures BlocksSize(bs + [b]) == BlocksSize(bs) + b.Size()
  {
    if bs != [] {
      assert (bs + [b])[1..] == bs[1..] + [b];
      BlocksSizeAppend(bs[1..], b);
    }
  }

  /** What the frame parser indexes directly: the header bytes, once the magic number matched. */
  predicate FrameIndexable(data: seq<byte>, offset: nat) {
    MagicAt(data, offset) ==> HeaderIndexable(data, offset + 4)
  }

  /** Puts `bs` in front of the blocks of a successful result; passes an error through. */
  function Then(bs: seq<Block>, r: Result<seq<Block>>): (s: Result<seq<Block>>)
    ensures s.Ok? <==> r.Ok?
    ensures s.Ok? ==> s.value == bs + r.value
    ensures s.Err? ==> s == r
  {
    if r.Ok? then Ok(bs + r.value) else r
  }

  /**
   * The blocks from `pos` up to and including the first one with
   * Last_Block set, each starting where the previous one ends. Fails when
   * a block has the Reserved type, and when the input ends before a last
   * block.
   */
  function BlocksFrom(data: seq<byte>, pos: nat): (r: Result<seq<Block>>)
    decreases |data| - pos
  {
    if pos >= |data| then
      Err(Truncated)
    else
      match ParseBlock(data, pos)
      case Err(e) => Err(e)
      case Ok(b) =>
        if b.isLast then Ok([b]) else Then([b], BlocksFrom(data, pos + b.Size()))
  }

  /**
   * The frame at `offset`: the magic number, then the header, then the
   * frame assembled from the block chain after the header. FrameAtErrors,
   * FrameAtHeader and AssembleLayout state its layout.
   */
  function FrameAt(data: seq<byte>, offset: nat): (r: Result<Frame>)
    requires FrameIndexable(data, offset)
  {
    if !MagicAt(data, offset) then Err(BadMagic) else AfterHeader(data, offset, HeaderAt(data, offset + 4))
  }

  /** The rest of the frame once the header at `offset + 4` has been parsed, or the header's error. */
  function AfterHeader(data: seq<byte>, offset: nat, header: Result<FrameHeader>): (r: Result<Frame>) {
    match header
    case Err(e) => Err(e)
    case Ok(h) => Assemble(data, offset, h, BlocksFrom(data, offset + 4 + h.Size()))
  }

  /**
   * The checksum is present exactly when the descriptor announces it and
   * holds the bytes right after the last block; the size counts the magic
   * number, the header, the blocks and a checksum that is all there.
   */
  predicate ChecksumAndSize(data: seq<byte>, offset: nat, f: Frame) {
    var end := offset + 4 + f.header.Size() + BlocksSize(f.blocks);
    && (f.checksum.Some? <==> f.header.descriptor.contentChecksumFlag == 1)
    && (f.checksum.Some? ==> f.checksum.value == Slice(data, end, 4))
    && (f.checksum.None? ==> offset + f.Size() == end)
    && (f.checksum.Some? && end + 4 <= |data| ==> offset + f.Size() == end + 4)
  }

  /** The frame at `offset` from its header and the block chain after it, the checksum right after the chain. */
  function Assemble(data: seq<byte>, offset: nat, h: FrameHeader, chain: Result<seq<Block>>): (r: Result<Frame>)
    ensures r.Err? <==> chain.Err?
    ensures r.Err? ==> r.error == chain.error
    ensures r.Ok? ==> r.value.header == h && r.value.blocks == chain.value && ChecksumAndSize(data, offset, r.value)
  {
    match chain
    case Err(e) => Err(e)
    case Ok(bs) =>
      var end := offset + 4 + h.Size() + BlocksSize(bs);
      Ok(Frame(h, bs, if h.descriptor.contentChecksumFlag == 1 then Some(Slice(data, end, 4)) else None))
  }

  /** Once the magic number and the header are read, the frame is assembled from the blocks after the header. */
  lemma FrameAtAssembles(data: seq<byte>, offset: nat, h: FrameHeader)
    requires FrameIndexable(data, offset) && MagicAt(data, offset)
    requires HeaderAt(data, offset + 4) == Ok(h)
    ensures FrameAt(data, offset) == Assemble(data, offset, h, BlocksFrom(data, offset + 4 + h.Size()))
  {
  }

  /** With a complete chain, the frame holds the header, the chain and the checksum bytes right after it. */
  lemma AssembleOk(data: seq<byte>, offset: nat, h: FrameHeader, bs: seq<Block>, checksum: Option<seq<byte>>)
    requires checksum == if h.descriptor.contentChecksumFlag == 1
                         then Some(Slice(data, offset + 4 + h.Size() + BlocksSize(bs), 4)) else None
    ensures Assemble(data, offset, h, Ok(bs)) == Ok(Frame(h, bs, checksum))
  {
  }

  /** The block chain fails only for a Reserved block type or for running out of input. */
  lemma {:induction false} BlocksFromErrors(data: seq<byte>, pos: nat)
    ensures BlocksFrom(data, pos).Err? ==> BlocksFrom(data, pos).error in {ReservedBlockType, Truncated}
    decreases |data| - pos
  {
    if pos < |data| && ParseBlock(data, pos).Ok? {
      var b := ParseBlock(data, pos).value;
      BlocksFromErrors(data, pos + b.Size());
    }
  }

  /** The first block `b` of the chain, and the chain after it from `next`. */
  lemma FirstBlock(data: seq<byte>, pos: nat, b: Block, next: nat)
    requires pos < |data| && ParseBlock(data, pos) == Ok(b) && next == pos + b.Size()
    ensures BlocksFrom(data, pos) == Then([b], if b.isLast then Ok([]) else BlocksFrom(data, next))
  {
    assert [b] + [] == [b];
  }

  lemma ThenThen(xs: seq<Block>, ys: seq<Block>, r: Result<seq<Block>>)
    ensures Then(xs, Then(ys, r)) == Then(xs + ys, r)
  {
    if r.Ok? {
      assert xs + (ys + r.value) == xs + ys + r.value;
    }
  }

  /**
   * One more block `b` of the chain: what the parser's loop does in one
   * step, from `start` with `blocks` parsed so far and the next block at
   * `pos`; `blocks'` and `pos'` are the blocks and the position after it.
   */
  lemma ThenStep(data: seq<byte>, start: nat, blocks: seq<Block>, pos: nat, b: Block, blocks': seq<Block>, pos': nat)
    requires pos < |data| && ParseBlock(data, pos) == Ok(b)
    requires BlocksFrom(data, start) == Then(blocks, BlocksFrom(data, pos))
    requires blocks' == blocks + [b] && pos' == pos + b.Size()
    ensures BlocksFrom(data, start) == Then(blocks', if b.isLast then Ok([]) else BlocksFrom(data, pos'))
  {
    FirstBlock(data, pos, b, pos');
    ThenThen(blocks, [b], if b.isLast then Ok([]) else BlocksFrom(data, pos'));
  }

  /** The blocks end with the first one that has Last_Block set. */
  predicate EndsWithLast(bs: seq<Block>) {
    |bs| > 0 && bs[|bs| - 1].isLast && forall i :: 0 <= i < |bs| - 1 ==> !bs[i].isLast
  }

  /** A block without Last_Block set, in front of a list that ends at its first last block, keeps that shape. */
  lemma EndsWithLastCons(b: Block, rest: seq<Block>)
    requires !b.isLast && EndsWithLast(rest)
    ensures EndsWithLast([b] + rest)
  {
    var bs := [b] + rest;
    assert forall i :: 1 <= i < |bs| ==> bs[i] == rest[i - 1];
  }

  /** Each block is the one parsed where the previous one ends, starting at `pos`, and starts inside the input. */
  predicate Contiguous(data: seq<byte>, pos: nat, bs: seq<Block>)
    decreases |bs|
  {
    bs == [] || (pos < |data| && ParseBlock(data, pos) == Ok(bs[0]) && Contiguous(data, pos + bs[0].Size(), bs[1..]))
  }

  /** A successful chain ends at its first last block, and its blocks lie one after the other. */
  lemma {:induction false} BlocksFromShape(data: seq<byte>, pos: nat)
    ensures BlocksFrom(data, pos).Ok? ==>
              EndsWithLast(BlocksFrom(data, pos).value) && Contiguous(data, pos, BlocksFrom(data, pos).value)
    decreases |data| - pos
  {
    if BlocksFrom(data, pos).Err? {
      return;
    }
    var bs := BlocksFrom(data, pos).value;
    var b := ParseBlock(data, pos).value;
    if !b.isLast {
      var next := pos + b.Size();
      BlocksFromShape(data, next);
      var rest := BlocksFrom(data, next).value;
      assert bs == [b] + rest;
      EndsWithLastCons(b, rest);
      assert bs[0] == b && bs[1..] == rest;
    } else {
      assert bs == [b];
    }
  }

  /**
   * A frame fails with BadMagic exactly when the magic number is missing,
   * and otherwise only for a reserved descriptor bit, a Reserved block type
   * or input that ends before the last block.
   */
  lemma FrameAtErrors(data: seq<byte>, offset: nat)
    requires FrameIndexable(data, offset)
    ensures FrameAt(data, offset) == Err(BadMagic) <==> !MagicAt(data, offset)
    ensures FrameAt(data, offset).Err? ==>
              FrameAt(data, offset).error in {BadMagic, ReservedDescriptorBit, ReservedBlockType, Truncated}
  {
    if MagicAt(data, offset) && HeaderAt(data, offset + 4).Ok? {
      BlocksFromErrors(data, offset + 4 + HeaderAt(data, offset + 4).value.Size());
    }
  }

  /** A frame holds the header after the magic number and what the blocks after that header assemble to. */
  lemma FrameAtHeader(data: seq<byte>, offset: nat)
    requires FrameIndexable(data, offset)
    ensures FrameAt(data, offset).Ok? ==>
              && MagicAt(data, offset) && HeaderAt(data, offset + 4).Ok?
              && var h := HeaderAt(data, offset + 4).value;
                 && FrameAt(data, offset).value.header == h
                 && FrameAt(data, offset) == Assemble(data, offset, h, BlocksFrom(data, offset + 4 + h.Size()))
  {
    if FrameAt(data, offset).Ok? {
      assert MagicAt(data, offset) && HeaderAt(data, offset + 4).Ok?;
      FrameAtAssembles(data, offset, HeaderAt(data, offset + 4).value);
    }
  }

  /**
   * The layout of a frame after its header `h`: the blocks from the end of
   * the header one after the other up to the first with Last_Block set,
   * then the checksum exactly when the descriptor announces it; the size
   * counts every byte the parser consumed (when the checksum bytes are all
   * there).
   */
  lemma AssembleLayout(data: seq<byte>, offset: nat, h: FrameHeader)
    ensures var first := offset + 4 + h.Size();
      var r := Assemble(data, offset, h, BlocksFrom(data, first));
      r.Ok? ==>
        && r.value.header == h && BlocksFrom(data, first) == Ok(r.value.blocks)
        && EndsWithLast(r.value.blocks) && Contiguous(data, first, r.value.blocks)
        && ChecksumAndSize(data, offset, r.value)
  {
    BlocksFromShape(data, offset + 4 + h.Size());
  }

  /** In a contiguous chain, block `i` starts after the sizes of the blocks before it, inside the input. */
  lemma {:induction false} ContiguousAt(data: seq<byte>, pos: nat, bs: seq<Block>, i: nat, start: nat)
    requires Contiguous(data, pos, bs) && i < |bs|
    requires start == pos + BlocksSize(bs[..i])
    ensures start < |data| && ParseBlock(data, start) == Ok(bs[i])
    decreases i
  {
    if i > 0 {
      BlocksSizePrefix(bs, i);
      ContiguousAt(data, pos + bs[0].Size(), bs[1..], i - 1, start);
    }
  }

  /** The blocks before block i are the first block and the blocks before block i - 1 of the rest. */
  lemma BlocksSizePrefix(bs: seq<Block>, i: nat)
    requires 0 < i < |bs|
    ensures BlocksSize(bs[..i]) == bs[0].Size() + BlocksSize(bs[1..][..i - 1])
    ensures bs[i] == bs[1..][i - 1]
  {
    assert bs[..i][1..] == bs[1..][..i - 1];
  }

  /**
   * The block loop exactly as zstandard-py writes it, without a test for
   * the end of the input, run for at most `fuel` blocks: None when it has
   * not stopped by then.
   */
  function BlockLoopAsWritten(data: seq<byte>, pos: nat, fuel: nat): Option<Result<seq<Block>>>
    decreases fuel
  {
    if fuel == 0 then
      None
    else
      match ParseBlock(data, pos)
      case Err(e) => Some(Err(e))
      case Ok(b) =>
        if b.isLast then Some(Ok([b]))
        else
          match BlockLoopAsWritten(data, pos + b.Size(), fuel - 1)
          case None => None
          case Some(r) => Some(Then([b], r))
  }

  /** Past the end of the input the empty header reads as a Raw block of size 0 that is not the last one. */
  lemma BlockPastEnd(data: seq<byte>, pos: nat)
    requires pos >= |data|
    ensures ParseBlock(data, pos) == Ok(Block(false, Raw, 0, []))
  {
    assert Slice(data, pos, 3) == [];
  }

  /**
   * Once the cursor is at or past the end of the input, the loop as written
   * does not stop within any number of steps: it goes on appending empty
   * blocks until memory runs out.
   */
  lemma {:induction false} AsWrittenLoopSpinsPastEnd(data: seq<byte>, pos: nat, fuel: nat)
    requires pos >= |data|
    ensures BlockLoopAsWritten(data, pos, fuel) == None
    decreases fuel
  {
    if fuel > 0 {
      BlockPastEnd(data, pos);
      AsWrittenLoopSpinsPastEnd(data, pos + 3, fuel - 1);
    }
  }

  /**
   * Where the chain does not fail with Truncated, the loop as written stops
   * with the same result within one step more than there are bytes left:
   * each block takes at least 3 of them.
   */
  lemma {:induction false} AsWrittenLoopReachesChain(data: seq<byte>, pos: nat, fuel: nat)
    requires pos + fuel > |data|
    requires BlocksFrom(data, pos) != Err(Truncated)
    ensures BlockLoopAsWritten(data, pos, fuel) == Some(BlocksFrom(data, pos))
    decreases fuel
  {
    if ParseBlock(data, pos).Ok? {
      var b := ParseBlock(data, pos).value;
      if !b.isLast {
        AsWrittenLoopReachesChain(data, pos + b.Size(), fuel - 1);
      }
    }
  }

  /**
   * Wherever the loop as written stops, it stops with the chain's result,
   * which is then not Truncated; where the chain is Truncated, the loop as
   * written has not stopped within any number of steps.
   */
  lemma {:induction false} AsWrittenLoopAgreesWithChain(data: seq<byte>, pos: nat, fuel: nat)
    ensures BlockLoopAsWritten(data, pos, fuel).Some? ==>
              BlockLoopAsWritten(data, pos, fuel).value == BlocksFrom(data, pos) && BlocksFrom(data, pos) != Err(Truncated)
    ensures BlocksFrom(data, pos) == Err(Truncated) ==> BlockLoopAsWritten(data, pos, fuel) == None
    decreases fuel
  {
    if pos >= |data| {
      AsWrittenLoopSpinsPastEnd(data, pos, fuel);
    } else if fuel > 0 && ParseBlock(data, pos).Ok? {
      var b := ParseBlock(data, pos).value;
      if !b.isLast {
        AsWrittenLoopAgreesWithChain(data, pos + b.Size(), fuel - 1);
      }
    }
  }

  /**
   * The chain with its end-of-input test agrees with the loop as written
   * wherever that loop stops, and fails with Truncated exactly where the
   * loop as written does not stop: every other result of the chain is the
   * one the loop as written reaches once it may run for more steps than
   * there are bytes left.
   */
  lemma BlocksFromCorrectsLoop(data: seq<byte>, pos: nat, fuel: nat)
    ensures BlockLoopAsWritten(data, pos, fuel).Some? ==>
              BlockLoopAsWritten(data, pos, fuel).value == BlocksFrom(data, pos) && BlocksFrom(data, pos) != Err(Truncated)
    ensures BlocksFrom(data, pos) == Err(Truncated) ==> BlockLoopAsWritten(data, pos, fuel) == None
    ensures BlocksFrom(data, pos) != Err(Truncated) && pos + fuel > |data| ==>
              BlockLoopAsWritten(data, pos, fuel) == Some(BlocksFrom(data, pos))
  {
    AsWrittenLoopAgreesWithChain(data, pos, fuel);
    if BlocksFrom(data, pos) != Err(Truncated) && pos + fuel > |data| {
      AsWrittenLoopReachesChain(data, pos, fuel);
    }
  }

  /**
   * A frame that ends right after its header (magic number, a descriptor
   * with only Single_Segment_Flag set, a 1-byte Frame_Content_Size of 0):
   * the loop as written does not stop, and the model reports Truncated.
   */
  lemma HeaderOnlyFrame(fuel: nat)
    ensures var data := Magic + [0x20, 0x00];
      FrameIndexable(data, 0) && FrameAt(data, 0) == Err(Truncated)
      && BlockLoopAsWritten(data, 6, fuel) == None
  {
    var data := Magic + [0x20, 0x00];
    assert MagicAt(data, 0);
    var h := HeaderAt(data, 4).value;
    assert h.Size() == 2;
    FrameAtAssembles(data, 0, h);
    assert BlocksFrom(data, 6) == Err(Truncated);
    AsWrittenLoopSpinsPastEnd(data, 6, fuel);
  }

  /**
   * The block loop of `Frame.__init__`: parses the block at `pos`, then
   * keeps parsing at the end of the previous block while that one does not
   * have Last_Block set. Besides the blocks it returns where the last one
   * ends. Where zstandard-py would go on reading past the end of the input,
   * this fails with Truncated.
   */
  method ParseBlocks(data: seq<byte>, pos: nat) returns (r: Result<seq<Block>>, end: nat)
    ensures r == BlocksFrom(data, pos)
    ensures r.Ok? ==> end == pos + BlocksSize(r.value)
  {
    if pos >= |data| {
      return Err(Truncated), pos;
    }
    var parsed := ParseBlock(data, pos);
    if parsed.Err? {
      return Err(parsed.error), pos;
    }
    var block := parsed.value;
    var blocks := [block];
    var cursor := pos + block.Size();
    FirstBlock(data, pos, block, cursor);

    while !block.isLast
      invariant blocks != [] && block == blocks[|blocks| - 1]
      invariant cursor == pos + BlocksSize(blocks)
      invariant BlocksFrom(data, pos) == Then(blocks, if block.isLast then Ok([]) else BlocksFrom(data, cursor))
      decreases |data| - cursor
    {
      if cursor >= |data| {
        return Err(Truncated), cursor;
      }
      parsed := ParseBlock(data, cursor);
      if parsed.Err? {
        return Err(parsed.error), cursor;
      }
      block := parsed.value;
      BlocksSizeAppend(blocks, block);
      ghost var before, at := blocks, cursor;
      blocks := blocks + [block];
      cursor := cursor + block.Size();
      ThenStep(data, pos, before, at, block, blocks, cursor);
    }
    assert blocks + [] == blocks;
    return Ok(blocks), cursor;
  }

  /**
   * `Frame.__init__`: checks the magic number, parses the header after it,
   * then the blocks, and finally takes the checksum bytes if the descriptor
   * announces them.
   */
  method ParseFrame(data: seq<byte>, offset: nat) returns (r: Result<Frame>)
    requires FrameIndexable(data, offset)
    ensures r == Err(BadMagic) <==> !MagicAt(data, offset)
    ensures MagicAt(data, offset) && HeaderAt(data, offset + 4).Err? ==> r == Err(HeaderAt(data, offset + 4).error)
    ensures MagicAt(data, offset) && HeaderAt(data, offset + 4).Ok? ==>
              var h := HeaderAt(data, offset + 4).value;
              r == Assemble(data, offset, h, BlocksFrom(data, offset + 4 + h.Size()))
    ensures r == FrameAt(data, offset)
  {
    if !MagicAt(data, offset) {
      return Err(BadMagic);
    }
    var header, first := ParseFrameHeader(data, offset + 4);
    if header.Err? {
      return Err(header.error);
    }
    var blocks, cursor := ParseBlocks(data, first);
    if blocks.Err? {
      BlocksFromErrors(data, first);
      return Err(blocks.error);
    }

    var checksum := None;
    if header.value.descriptor.contentChecksumFlag == 1 {
      checksum := Some(Slice(data, cursor, 4));
    }
    r := Ok(Frame(header.value, blocks.value, checksum));
    AssembleOk(data, offset, header.value, blocks.value, checksum);
    FrameAtAssembles(data, offset, header.value);
  }
}
