# zstandard-py framing layer in Dafny

This project models the framing layer of zstandard-py, a Zstandard
(RFC 8878) decoder written in Python, and proves properties of it. The
framing layer turns bytes into frames and blocks:

- the frame header (section 3.1.1.1 of RFC 8878): the Frame_Header_Descriptor
  bit fields, the Window_Descriptor, Dictionary_ID and Frame_Content_Size;
- the block header (section 3.1.1.2): Last_Block, Block_Type and Block_Size,
  followed by the block's content;
- the frame (section 3.1.1): magic number, header, a chain of blocks up to the
  one with Last_Block set, and an optional 4-byte Content_Checksum.

The repository has no block-content decompression engine (literals, Huffman,
FSE, sequences). Its `decompress` parses the frames and returns an empty byte
string, so the framing code is all there is to model.

Files:

- `bytes.dfy`:
  - `Wrappers`: `Option`, `Result` and the `Error` values. Each Python
    `assert` becomes an `Err` result.
  - `Bytes`: `byte`, powers of two, Python slicing (`Slice`, cut short at the
    end of input), `>>`, and little-endian integers with their encoding.
- `frame_header.dfy` (`FrameHeaders`):
  - the descriptor as a datatype, with decoding and encoding;
  - the two field sizes, the window size and the Frame_Content_Size;
  - the header as a positional function `HeaderAt`;
  - zstandard-py's cursor-walking constructor as the method `ParseFrameHeader`,
    proved equal to `HeaderAt`.
- `block.dfy` (`Blocks`): block types, `ParseBlock` (`Block.from_bytes`),
  `Block.Size`, and an encoder used to state the round trips.
- `frame.dfy` (`Frames`):
  - the block chain as a function `BlocksFrom`, and the frame as `FrameAt`;
  - zstandard-py's `while not block.is_last` loop as the method `ParseBlocks`;
  - `Frame.__init__` as the method `ParseFrame`;
  - `Frame.size`;
  - the layout lemmas, and the as-written loop used in the finding below.

The Python objects (`FrameHeaderDescriptor`, `FrameHeader`, `Block`, `Frame`)
are only assigned while being built and never change afterwards, so they are
datatypes. The two constructors that move a cursor step by step
(`FrameHeader.__init__`, and the block loop of `Frame.__init__`) are methods
with local cursors. Each method is proved equal to the positional function that
specifies it.

## Model

| member | source | states |
|---|---|---|
| Bytes.Slice | zstandard/common/block.py:46-48 | a slice is `n` bytes long when the input holds them, is cut short at the end of input, and is empty from the end on |
| Bytes.LittleEndianOfToLittleEndian | zstandard/common/frame_header.py:57 | reading back the k-byte little-endian encoding of n gives n |
| Bytes.ToLittleEndianOfLittleEndian | zstandard/common/block.py:22 | a little-endian value fits in its byte count, and encoding it again gives the same bytes |
| Bytes.LittleEndian | zstandard/common/block.py:22 | Python's `int.from_bytes(..., 'little')`: the first byte is the least significant, and the empty string reads as 0; its properties are the two round-trip lemmas |
| Bytes.ShiftRight | zstandard/common/block.py:42 | Python's `>>` on a non-negative int, as halving `n` times; `ShiftRightIsDiv` relates it to division |
| Bytes.ShiftRightIsDiv | zstandard/common/block.py:42 | `x >> n` is `x` divided by `2^n` |
| FrameHeaders.DecodeDescriptor | zstandard/common/frame_header.py:6-11 | packing the six decoded fields back at bits 0-1, 2, 3, 4, 5 and 6-7 gives the original byte |
| FrameHeaders.DescriptorRoundTrip | zstandard/common/frame_header.py:6-11 | decoding the packed byte of any six in-range fields gives those fields back |
| FrameHeaders.Descriptor.DidFieldSize | zstandard/common/frame_header.py:14 | the Dictionary_ID field is 0, 1, 2, 4 bytes for flag 0..3; it is 0 exactly when the flag is 0 |
| FrameHeaders.Descriptor.FcsFieldSize | zstandard/common/frame_header.py:17-23 | the field is 1 byte when only Single_Segment asks for it and 0 when neither flag does; flags 1, 2, 3 give 2, 4, 8 |
| FrameHeaders.HeaderAt | zstandard/common/frame_header.py:37-41 | the header is rejected, with ReservedDescriptorBit, exactly when bit 3 of the descriptor is set |
| FrameHeaders.HeaderAtFields | zstandard/common/frame_header.py:34-72 | in an accepted header the descriptor encodes the first byte; Dictionary_ID is absent exactly when its flag is 0; Frame_Content_Size is absent exactly when both its flags are 0; a single-segment window equals Frame_Content_Size, any other is decoded from the byte after the descriptor and is at least 1024; Frame_Content_Size is decoded from the last bytes of the header, and Dictionary_ID is the little-endian value of the bytes just before them |
| FrameHeaders.ParseFrameHeader | zstandard/common/frame_header.py:34-72 | the cursor-walking constructor builds `HeaderAt`, and its cursor advances by exactly `size()` |
| FrameHeaders.WindowSize | zstandard/common/frame_header.py:74-81 | the window is at least 1024, and lies in `[2^(10+Exponent), 2^(11+Exponent))` |
| FrameHeaders.WindowSizeMonotone | zstandard/common/frame_header.py:74-81 | a larger Window_Descriptor gives a strictly larger window |
| FrameHeaders.FrameContentSize | zstandard/common/frame_header.py:83-87 | the value is the field's little-endian value plus 256 for 2-byte fields and plus 0 otherwise, and a complete field gives a value below that offset plus 256^size |
| FrameHeaders.FrameContentSizeRoundTrip | zstandard/common/frame_header.py:83-87 | encoding any size within a field's range and decoding it gives the size back |
| FrameHeaders.FrameContentSizeFieldRoundTrip | zstandard/common/frame_header.py:83-87 | every 1-, 2-, 4- or 8-byte field decodes into its range, and re-encodes to the same bytes |
| FrameHeaders.FrameHeader.Size | zstandard/common/frame_header.py:89-94 | a header is 2 to 14 bytes long, and at most 13 for a single-segment frame |
| Blocks.BlockTypeOf | zstandard/common/block.py:4-8 | code 3, and only code 3, is Reserved |
| Blocks.TypeCode | zstandard/common/block.py:4-8 | the `BlockType` value of each block type, a 2-bit code below 4 |
| Blocks.BlockTypeCodes | zstandard/common/block.py:4-8 | codes and block types correspond one to one |
| Blocks.HeaderValue | zstandard/common/block.py:19-22 | the 3-byte little-endian block header is below 2^24 |
| Blocks.ParseBlock | zstandard/common/block.py:31-32 | the only way a block is rejected is a Reserved type |
| Blocks.ParseBlockFields | zstandard/common/block.py:22-42 | rejected exactly when bits 1-2 are 3; `header == is_last + 2*type + 8*data_size`, with `data_size < 2^21` |
| Blocks.ParseBlockContent | zstandard/common/block.py:44-58 | the content is the `size() - 3` bytes after the header (1 for RLE, else `data_size`), cut short at the end of input; with enough input it is exactly those bytes, and the block is well formed |
| Blocks.EncodeBlock | zstandard/common/block.py:52-58 | a well-formed block is encoded in exactly `size()` bytes |
| Blocks.ParseEncodeBlock | zstandard/common/block.py:15-50 | parsing an encoded well-formed block at its own offset gives the block back, whatever precedes and follows it |
| Blocks.EncodeParseBlock | zstandard/common/block.py:15-58 | a block parsed from complete input is well formed, and re-encodes to exactly the `size()` bytes it was read from |
| Frames.MagicAt | zstandard/common/frame.py:9 | the four bytes at the offset are `28 B5 2F FD`, compared one by one |
| Frames.MagicAtIsSliceTest | zstandard/common/frame.py:9 | the byte-wise magic test is the comparison of the 4-byte slice with `28 B5 2F FD` |
| Frames.Frame.Size | zstandard/common/frame.py:30-35 | a frame's size is at least magic + header + 3 per block, and at most 4 more than magic + header + blocks |
| Frames.BlocksSize | zstandard/common/frame.py:34 | the blocks take at least 3 bytes each |
| Frames.BlocksFrom | zstandard/common/frame.py:15-22 | the block chain of `Frame.__init__`, each block parsed where the previous one ends up to the first with Last_Block set, with an end-of-input test the Python code lacks; its properties are `BlocksFromErrors`, `BlocksFromShape` and `BlocksFromCorrectsLoop` |
| Frames.BlocksFromErrors | zstandard/common/frame.py:15-22 | the block chain fails only with ReservedBlockType or Truncated |
| Frames.BlocksFromShape | zstandard/common/frame.py:15-22 | a chain that parses is non-empty, ends with a block with `is_last` and has no earlier one; each block is the one parsed where the previous one ends |
| Frames.ContiguousAt | zstandard/common/frame.py:17-22 | block i starts at the sum of the sizes of the blocks before it, inside the input |
| Frames.ParseBlocks | zstandard/common/frame.py:15-22 | the loop yields `BlocksFrom`, and its cursor ends at the start plus the sum of the block sizes |
| Frames.Assemble | zstandard/common/frame.py:24-27 | the checksum is present exactly when Content_Checksum_Flag is set and is then the 4-byte slice right after the last block; the size counts the magic number, the header, the blocks and a complete checksum |
| Frames.FrameAt | zstandard/common/frame.py:7-27 | `Frame.__init__` as a function of the input and the offset: magic number, header, block chain, checksum; its properties are `FrameAtErrors`, `FrameAtHeader` and `AssembleLayout` |
| Frames.FrameAtErrors | zstandard/common/frame.py:7-27 | BadMagic exactly when the magic number is missing; otherwise a frame fails only for a reserved descriptor bit, a Reserved block or truncated input |
| Frames.FrameAtHeader | zstandard/common/frame.py:9-15 | a frame has the magic number, the header parsed at offset + 4, and blocks starting at offset + 4 + `header.size()` |
| Frames.AssembleLayout | zstandard/common/frame.py:15-27 | after the header the blocks run contiguously to the first `is_last` block, the checksum follows exactly when announced, and the size counts every byte consumed |
| Frames.ParseFrame | zstandard/common/frame.py:7-27 | `Frame.__init__` returns `FrameAt`: BadMagic exactly when the magic number is missing, the header's error, or the assembled frame |
| Frames.BlockLoopAsWritten | zstandard/common/frame.py:19-22 | the block loop exactly as written, with no end-of-input test, run for a bounded number of steps; no result when it has not stopped by then |
| Frames.AsWrittenLoopSpinsPastEnd | zstandard/common/frame.py:19-22 | once the cursor is at or past the end of input, the loop as written does not stop within any number of steps |
| Frames.BlockPastEnd | zstandard/common/block.py:19-48 | past the end of input a block header reads as a non-last Raw block of size 0, 3 bytes long |
| Frames.AsWrittenLoopAgreesWithChain | zstandard/common/frame.py:19-22 | wherever the loop as written stops, its result is the chain's, which is then not Truncated; where the chain is Truncated, that loop has not stopped |
| Frames.AsWrittenLoopReachesChain | zstandard/common/frame.py:19-22 | where the chain is not Truncated, the loop as written stops with the chain's result once it may run for more steps than there are bytes left |
| Frames.BlocksFromCorrectsLoop | zstandard/common/frame.py:19-22 | the chain agrees with the loop as written wherever that loop stops; it is Truncated only where that loop does not stop, and any other result is the one that loop reaches given more steps than there are bytes left |
| Frames.HeaderOnlyFrame | zstandard/common/frame.py:15-22 | the 6-byte frame `28 B5 2F FD 20 00` is Truncated in the model; the loop as written does not stop on it |

## Left out

- `print` methods, `zstandard/util.py` (console formatting) and `zstandard/cli.py` (argument parsing and file I/O) only produce output.
- `zstandard/decompress/decompressor.py` is not part of this model. It walks concatenated frames by `Frame.size()`, prints them and returns an empty byte string.
- Content_Checksum verification (XXH64) is not done by zstandard-py, which only extracts the 4 bytes.
- Python's `IndexError` on `data[offset]` is a precondition rather than behaviour. `HeaderIndexable` covers the descriptor and Window_Descriptor bytes, and `FrameIndexable` covers them once the magic number matched.
- Where the block loop as written would not terminate normally (see Findings), the model fails with `Truncated`. The as-written loop is kept beside it, bounded by a step count.
- Frames.Assemble: the size equals the bytes consumed only when all four checksum bytes are present. With a checksum slice cut to 1-3 bytes by the end of input, zstandard-py still counts 4 (its test is on a non-empty slice); an empty slice counts 0. The model does the same.
- Blocks.ParseBlock is a function, not a method with a cursor, because `Block.from_bytes` is straight-line code with a single `offset += 3`.
- The block-content decompression engine (literals, Huffman, FSE, sequences, repeat offsets) does not exist in zstandard-py.

## Findings

| source | as written | input that shows it | evidently intended | confidence | as-written member | corrected member |
|---|---|---|---|---|---|---|
| zstandard/common/frame.py:19-22 | the block loop never tests for the end of input; past it the empty header slice reads as a non-last Raw block of 3 bytes, so the loop does not terminate normally: it grows the block list until memory runs out | `28 B5 2F FD 20 00` (a valid header, then no block) | reject input that ends before a block with Last_Block set | high (proved; not executed) | Frames.AsWrittenLoopSpinsPastEnd | Frames.BlocksFromCorrectsLoop |
