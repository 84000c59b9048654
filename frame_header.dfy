/**
 * The Zstandard frame header (section 3.1.1.1 of RFC 8878): a one-byte
 * Frame_Header_Descriptor followed by the optional Window_Descriptor,
 * Dictionary_ID and Frame_Content_Size fields.
 */
module FrameHeaders {
  import opened Wrappers
  import opened Bytes

  type Bit = b: nat | b < 2
  type TwoBits = b: nat | b < 4

  /** The six bit fields of the Frame_Header_Descriptor byte. */
  datatype Descriptor = Descriptor(
    dictionaryIdFlag: TwoBits,      // bits 0-1
    contentChecksumFlag: Bit,       // bit 2
    reservedBit: Bit,               // bit 3
    unusedBit: Bit,                 // bit 4
    singleSegmentFlag: Bit,         // bit 5
    frameContentSizeFlag: TwoBits)  // bits 6-7
  {
    /** Size in bytes of the Dictionary_ID field. */
    function DidFieldSize(): (n: nat)
      ensures n == 0 <==> dictionaryIdFlag == 0
      ensures n == if dictionaryIdFlag == 3 then 4 else dictionaryIdFlag
    {
      if dictionaryIdFlag == 0 then 0 else if dictionaryIdFlag == 1 then 1 else if dictionaryIdFlag == 2 then 2 else 4
    }

    /**
     * Size in bytes of the Frame_Content_Size field: one byte when only
     * Single_Segment_Flag asks for it, none when neither flag does,
     * otherwise `1 << Frame_Content_Size_Flag`.
     */
    function FcsFieldSize(): (n: nat)
      ensures n in {0, 1, 2, 4, 8}
      ensures n == 0 <==> frameContentSizeFlag == 0 && singleSegmentFlag == 0
      ensures n == 1 <==> frameContentSizeFlag == 0 && singleSegmentFlag == 1
      ensures frameContentSizeFlag == 1 ==> n == 2
      ensures frameContentSizeFlag == 2 ==> n == 4
      ensures frameContentSizeFlag == 3 ==> n == 8
    {
      assert Pow2(1) == 2 && Pow2(2) == 4 && Pow2(3) == 8;
      if frameContentSizeFlag == 0 then
        (if singleSegmentFlag == 1 then 1 else 0)
      else
        Pow2(frameContentSizeFlag)
    }
  }

  /**
   * Splits a descriptor byte into its fields, each the value of its mask
   * shifted down: `value & 0b11`, `(value & 0b100) >> 2`, ...,
   * `(value & 0b11000000) >> 6`.
   */
  function DecodeDescriptor(value: byte): (d: Descriptor)
    ensures EncodeDescriptor(d) == value
  {
    DescriptorBits(value);
    Descriptor(
      value % 4,
      value / 4 % 2,
      value / 8 % 2,
      value / 16 % 2,
      value / 32 % 2,
      value / 64)
  }

  /** The byte is the sum of its bit slices, each at its place value. */
  lemma DescriptorBits(value: byte)
    ensures value == value % 4 + 4 * (value / 4 % 2) + 8 * (value / 8 % 2)
                     + 16 * (value / 16 % 2) + 32 * (value / 32 % 2) + 64 * (value / 64)
  {
    HalveTwice(value, 4);
    HalveTwice(value, 8);
    HalveTwice(value, 16);
    HalveTwice(value, 32);
  }

  /** Dividing by `k` and then by 2 is dividing by `2 * k`, and splits off one bit. */
  lemma HalveTwice(x: nat, k: nat)
    requires k in {4, 8, 16, 32}
    ensures x / k / 2 == x / (2 * k)
    ensures x / k == x / k % 2 + 2 * (x / (2 * k))
  {
  }

  /** Packs the fields back into one byte: `did | cc << 2 | r << 3 | u << 4 | ss << 5 | fcs << 6`. */
  function EncodeDescriptor(d: Descriptor): byte {
    d.dictionaryIdFlag
      + 4 * d.contentChecksumFlag
      + 8 * d.reservedBit
      + 16 * d.unusedBit
      + 32 * d.singleSegmentFlag
      + 64 * d.frameContentSizeFlag
  }

  lemma DescriptorRoundTrip(d: Descriptor)
    ensures DecodeDescriptor(EncodeDescriptor(d)) == d
  {
    var v := EncodeDescriptor(d);
    var q4 := d.contentChecksumFlag + 2 * d.reservedBit + 4 * d.unusedBit + 8 * d.singleSegmentFlag + 16 * d.frameContentSizeFlag;
    var q8 := d.reservedBit + 2 * d.unusedBit + 4 * d.singleSegmentFlag + 8 * d.frameContentSizeFlag;
    var q16 := d.unusedBit + 2 * d.singleSegmentFlag + 4 * d.frameContentSizeFlag;
    var q32 := d.singleSegmentFlag + 2 * d.frameContentSizeFlag;
    DivisionUnique(v, 4, q4, d.dictionaryIdFlag);
    DivisionUnique(v, 8, q8, d.dictionaryIdFlag + 4 * d.contentChecksumFlag);
    DivisionUnique(v, 16, q16, v - 16 * q16);
    DivisionUnique(v, 32, q32, v - 32 * q32);
    DivisionUnique(v, 64, d.frameContentSizeFlag, v - 64 * d.frameContentSizeFlag);
    DivisionUnique(q4, 2, q8, d.contentChecksumFlag);
    DivisionUnique(q8, 2, q16, d.reservedBit);
    DivisionUnique(q16, 2, q32, d.unusedBit);
    DivisionUnique(q32, 2, d.frameContentSizeFlag, d.singleSegmentFlag);
  }

  /**
   * Window_Size from a Window_Descriptor byte: exponent in the top five
   * bits, mantissa in the low three, `2^(10 + Exponent)` plus that base
   * divided by 8 times Mantissa.
   */
  function WindowSize(windowDescriptor: byte): (w: nat)
    ensures 1024 <= w
    ensures Pow2(10 + windowDescriptor / 8) <= w < Pow2(11 + windowDescriptor / 8)
  {
    var mantissa := windowDescriptor % 8;
    var exponent := windowDescriptor / 8;
    var windowBase := Pow2(10 + exponent);
    WindowSizeBounds(exponent, mantissa);
    windowBase + (windowBase / 8) * mantissa
  }

  lemma WindowSizeBounds(exponent: nat, mantissa: nat)
    requires mantissa < 8
    ensures 1024 <= Pow2(10 + exponent)
    ensures Pow2(10 + exponent) / 8 * mantissa < Pow2(10 + exponent)
    ensures Pow2(11 + exponent) == 2 * Pow2(10 + exponent)
  {
    Pow2Add(10, exponent);
    assert Pow2(10) == 1024;
    var base := Pow2(10 + exponent);
    assert base % 8 == 0 by {
      assert base == 1024 * Pow2(exponent);
    }
    assert base / 8 * mantissa <= base / 8 * 7;
  }

  /** A larger Window_Descriptor always gives a strictly larger window. */
  lemma WindowSizeMonotone(a: byte, b: byte)
    requires a < b
    ensures WindowSize(a) < WindowSize(b)
  {
    var ea, eb := a / 8, b / 8;
    if ea == eb {
      var base := Pow2(10 + ea);
      WindowSizeBounds(ea, a % 8);
      assert base / 8 >= 128;
      assert base / 8 * (a % 8) < base / 8 * (b % 8);
    } else {
      Pow2Monotone(11 + ea, 10 + eb);
    }
  }

  /** The smallest Frame_Content_Size a field of this size carries: 2-byte fields are biased by 256. */
  function FcsRangeLow(fcsFieldSize: nat): nat {
    if fcsFieldSize == 2 then 256 else 0
  }

  /**
   * Frame_Content_Size from its field: the little-endian value for 1-, 4-
   * and 8-byte fields and 256 plus it for 2-byte fields.
   */
  function FrameContentSize(fcsFieldSize: nat, field: seq<byte>): (n: nat)
    requires fcsFieldSize in {1, 2, 4, 8}
    ensures n == FcsRangeLow(fcsFieldSize) + LittleEndian(field)
    ensures |field| == fcsFieldSize ==> n < FcsRangeLow(fcsFieldSize) + Pow256(fcsFieldSize)
  {
    LittleEndianBound(field);
    if fcsFieldSize == 2 then 256 + LittleEndian(field) else LittleEndian(field)
  }

  /** The field that encodes `n` in `fcsFieldSize` bytes, undoing the +256 bias of 2-byte fields. */
  function EncodeFrameContentSize(fcsFieldSize: nat, n: nat): (field: seq<byte>)
    requires fcsFieldSize in {1, 2, 4, 8}
    requires FcsRangeLow(fcsFieldSize) <= n < FcsRangeLow(fcsFieldSize) + Pow256(fcsFieldSize)
    ensures |field| == fcsFieldSize
  {
    ToLittleEndian(n - FcsRangeLow(fcsFieldSize), fcsFieldSize)
  }

  lemma FrameContentSizeRoundTrip(fcsFieldSize: nat, n: nat)
    requires fcsFieldSize in {1, 2, 4, 8}
    requires FcsRangeLow(fcsFieldSize) <= n < FcsRangeLow(fcsFieldSize) + Pow256(fcsFieldSize)
    ensures FrameContentSize(fcsFieldSize, EncodeFrameContentSize(fcsFieldSize, n)) == n
  {
    LittleEndianOfToLittleEndian(n - FcsRangeLow(fcsFieldSize), fcsFieldSize);
  }

  lemma FrameContentSizeFieldRoundTrip(field: seq<byte>)
    requires |field| in {1, 2, 4, 8}
    ensures var n := FrameContentSize(|field|, field);
      FcsRangeLow(|field|) <= n < FcsRangeLow(|field|) + Pow256(|field|)
      && EncodeFrameContentSize(|field|, n) == field
  {
    ToLittleEndianOfLittleEndian(field);
  }

  datatype FrameHeader = FrameHeader(
    descriptor: Descriptor,
    windowSize: nat,
    dictionaryId: Option<nat>,
    frameContentSize: Option<nat>)
  {
    /** Encoded length: the descriptor byte and the three optional fields. */
    function Size(): (n: nat)
      ensures 2 <= n <= 14
      ensures descriptor.singleSegmentFlag == 1 ==> n <= 13
    {
      1 + (if descriptor.singleSegmentFlag == 0 then 1 else 0)
        + descriptor.DidFieldSize()
        + descriptor.FcsFieldSize()
    }
  }

  /**
   * What the header parser indexes directly: the descriptor byte and,
   * when the descriptor is accepted and Single_Segment_Flag is clear,
   * the Window_Descriptor byte after it.
   */
  predicate HeaderIndexable(data: seq<byte>, pos: nat) {
    pos < |data|
    && var d := DecodeDescriptor(data[pos]);
       d.reservedBit == 0 && d.singleSegmentFlag == 0 ==> pos + 1 < |data|
  }

  /**
   * The frame header at `pos`, read field by field at the position each
   * field has after the ones before it.
   */
  function HeaderAt(data: seq<byte>, pos: nat): (r: Result<FrameHeader>)
    requires HeaderIndexable(data, pos)
    ensures r.Err? <==> data[pos] / 8 % 2 == 1
    ensures r.Err? ==> r.error == ReservedDescriptorBit
  {
    var d := DecodeDescriptor(data[pos]);
    if d.reservedBit != 0 then
      Err(ReservedDescriptorBit)
    else
      var windowBytes := if d.singleSegmentFlag == 0 then 1 else 0;
      var didPos := pos + 1 + windowBytes;
      var fcsPos := didPos + d.DidFieldSize();
      var dictionaryId :=
        if d.DidFieldSize() > 0 then Some(LittleEndian(Slice(data, didPos, d.DidFieldSize()))) else None;
      var frameContentSize :=
        if d.FcsFieldSize() > 0 then Some(FrameContentSize(d.FcsFieldSize(), Slice(data, fcsPos, d.FcsFieldSize())))
        else None;
      var windowSize := if d.singleSegmentFlag == 0 then WindowSize(data[pos + 1]) else frameContentSize.value;
      Ok(FrameHeader(d, windowSize, dictionaryId, frameContentSize))
  }

  /**
   * What a parsed header holds: the descriptor of the first byte, each
   * optional field present exactly when its size is not zero, the window
   * size either decoded from the Window_Descriptor byte or, for a
   * single-segment frame, equal to the Frame_Content_Size, and the values
   * of the two optional fields: Frame_Content_Size read from the last bytes
   * of the header, Dictionary_ID from the bytes just before them.
   */
  lemma HeaderAtFields(data: seq<byte>, pos: nat)
    requires HeaderIndexable(data, pos)
    requires HeaderAt(data, pos).Ok?
    ensures var h := HeaderAt(data, pos).value;
      && EncodeDescriptor(h.descriptor) == data[pos]
      && (h.dictionaryId.None? <==> h.descriptor.dictionaryIdFlag == 0)
      && (h.frameContentSize.None? <==> h.descriptor.frameContentSizeFlag == 0 && h.descriptor.singleSegmentFlag == 0)
      && (h.descriptor.singleSegmentFlag == 1 ==> h.frameContentSize == Some(h.windowSize))
      && (h.descriptor.singleSegmentFlag == 0 ==> h.windowSize == WindowSize(data[pos + 1]) && h.windowSize >= 1024)
      && var fcs, did := h.descriptor.FcsFieldSize(), h.descriptor.DidFieldSize();
         var fcsPos := pos + h.Size() - fcs;
         && (h.frameContentSize.Some? ==> h.frameContentSize.value == FrameContentSize(fcs, Slice(data, fcsPos, fcs)))
         && (h.dictionaryId.Some? ==> h.dictionaryId.value == LittleEndian(Slice(data, fcsPos - did, did)))
  {
  }

  /**
   * The header parser as zstandard-py writes it: a cursor that starts on the
   * descriptor and moves past each field present. Besides the header it
   * returns where the cursor stopped.
   */
  method ParseFrameHeader(data: seq<byte>, offset: nat) returns (r: Result<FrameHeader>, next: nat)
    requires HeaderIndexable(data, offset)
    ensures r == HeaderAt(data, offset)
    ensures r.Ok? ==> next == offset + r.value.Size()
  {
    var descriptor := DecodeDescriptor(data[offset]);
    if descriptor.reservedBit != 0 {
      return Err(ReservedDescriptorBit), offset;
    }
    var cursor := offset + 1;
    ghost var didPos := offset + 1 + (if descriptor.singleSegmentFlag == 0 then 1 else 0);
    ghost var fcsPos := didPos + descriptor.DidFieldSize();

    var windowSize: nat := 0;
    if descriptor.singleSegmentFlag == 0 {
      var windowDescriptor := data[cursor];
      cursor := cursor + 1;
      windowSize := WindowSize(windowDescriptor);
    }
    assert cursor == didPos;

    var dictionaryId: Option<nat> := None;
    if descriptor.DidFieldSize() > 0 {
      var didField := Slice(data, cursor, descriptor.DidFieldSize());
      cursor := cursor + descriptor.DidFieldSize();
      dictionaryId := Some(LittleEndian(didField));
    }
    assert cursor == fcsPos;
    assert dictionaryId == if descriptor.DidFieldSize() > 0
      then Some(LittleEndian(Slice(data, didPos, descriptor.DidFieldSize()))) else None;

    var frameContentSize: Option<nat> := None;
    if descriptor.FcsFieldSize() > 0 {
      var fcsField := Slice(data, cursor, descriptor.FcsFieldSize());
      cursor := cursor + descriptor.FcsFieldSize();
      frameContentSize := Some(FrameContentSize(descriptor.FcsFieldSize(), fcsField));
    }
    assert frameContentSize == if descriptor.FcsFieldSize() > 0
      then Some(FrameContentSize(descriptor.FcsFieldSize(), Slice(data, fcsPos, descriptor.FcsFieldSize()))) else None;

    if descriptor.singleSegmentFlag == 1 {
      windowSize := frameContentSize.value;
    }
    r := Ok(FrameHeader(descriptor, windowSize, dictionaryId, frameContentSize));
    next := cursor;
  }
}
