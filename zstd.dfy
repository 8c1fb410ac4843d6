/** The Zstandard frame header (RFC 8878 section 3.1.1, skippable frames section
    3.1.2): enough of the format to tell compressed blobs from plain ones and to
    read the declared content size, which is all both storage layers look at
    before handing a blob to the decompressor. */
module Zstd {
  import opened Wrappers
  import opened Ints

  /** Magic_Number 0xFD2FB528, little-endian. */
  const MAGIC: seq<byte> := [0x28, 0xB5, 0x2F, 0xFD]

  datatype HeaderError = TooShort | UnknownMagic | ReservedBitSet

  datatype FrameHeader =
    | Frame(singleSegment: bool, windowDescriptor: Option<byte>, checksum: bool,
            dictionaryId: nat, contentSize: Option<nat>, headerSize: nat)
    | Skippable(variant: nat, frameSize: u32)

  /** Frame_Header_Descriptor fields (RFC 8878 section 3.1.1.1.1). */
  function FcsFlag(fhd: byte): nat { fhd / 64 }
  predicate SingleSegmentFlag(fhd: byte) { (fhd / 32) % 2 == 1 }
  predicate ReservedFlag(fhd: byte) { (fhd / 8) % 2 == 1 }
  predicate ChecksumFlag(fhd: byte) { (fhd / 4) % 2 == 1 }
  function DidFlag(fhd: byte): nat { fhd % 4 }

  /** Frame_Content_Size field length: flag 0 means one byte in single-segment
      mode and no field otherwise. */
  function FcsFieldSize(fhd: byte): (n: nat)
    ensures n in {0, 1, 2, 4, 8}
  {
    match FcsFlag(fhd)
    case 0 => if SingleSegmentFlag(fhd) then 1 else 0
    case 1 => 2
    case 2 => 4
    case _ => 8
  }

  /** Dictionary_ID field length. */
  function DidFieldSize(fhd: byte): (n: nat)
    ensures n in {0, 1, 2, 4}
  {
    match DidFlag(fhd)
    case 0 => 0
    case 1 => 1
    case 2 => 2
    case _ => 4
  }

  /** A skippable frame starts with a magic in 0x184D2A50..0x184D2A5F. */
  predicate SkippableMagic(data: seq<byte>)
    requires |data| >= 4
  {
    0x50 <= data[0] < 0x60 && data[1..4] == [0x2A, 0x4D, 0x18]
  }

  /** Decoding of the frame header at the start of data. */
  function ParseHeader(data: seq<byte>): (r: Result<FrameHeader, HeaderError>)
    ensures |data| < 5 ==> r.Err? || r.value.Skippable?
    ensures (|data| < 4 || (data[..4] != MAGIC && !SkippableMagic(data))) ==> r.Err?
    ensures |data| >= 5 && data[..4] == MAGIC && ReservedFlag(data[4]) ==> r == Err(ReservedBitSet)
    ensures r.Ok? && r.value.Frame? ==> r.value.headerSize <= |data| && data[..4] == MAGIC
  {
    if |data| < 4 then Err(TooShort)
    else if data[..4] == MAGIC then
      if |data| < 5 then Err(TooShort)
      else
        var fhd := data[4];
        var ss := SingleSegmentFlag(fhd);
        if ReservedFlag(fhd) then Err(ReservedBitSet)
        else
          var wdLen := if ss then 0 else 1;
          var didEnd := 5 + wdLen + DidFieldSize(fhd);
          var size := didEnd + FcsFieldSize(fhd);
          if |data| < size then Err(TooShort)
          else
            var fcsBytes := data[didEnd..size];
            var fcs :=
              if |fcsBytes| == 0 then None
              else if |fcsBytes| == 2 then Some(LE(fcsBytes) + 256)
              else Some(LE(fcsBytes));
            Ok(Frame(ss, if ss then None else Some(data[5]), ChecksumFlag(fhd),
                     LE(data[5 + wdLen..didEnd]), fcs, size))
    else if SkippableMagic(data) then
      if |data| < 8 then Err(TooShort) else Ok(Skippable(data[0] - 0x50, LE32(data[4..8])))
    else Err(UnknownMagic)
  }

  /** What `ZSTD_getFrameContentSize` reports: an error for anything that is not a
      frame header, "unknown" when the header carries no size, else the size (zero
      for a skippable frame). */
  datatype FrameSize = NotAFrame | UnknownSize | ContentSize(n: nat)

  /** The largest window log libzstd accepts on 64-bit targets (ZSTD_WINDOWLOG_MAX). */
  const WINDOWLOG_MAX: nat := 31

  /** A Window_Descriptor (RFC 8878 section 3.1.1.1.2) whose exponent plus 10, the
      window log, is above what libzstd accepts. */
  predicate WindowTooLarge(h: FrameHeader) {
    h.Frame? && h.windowDescriptor.Some? && 10 + h.windowDescriptor.value / 8 > WINDOWLOG_MAX
  }

  /** libzstd reads the header as ParseHeader does and, on top of that, refuses a
      window it could not allocate. */
  function FrameContentSize(data: seq<byte>): (r: FrameSize)
    ensures r == NotAFrame <==> ParseHeader(data).Err? || WindowTooLarge(ParseHeader(data).value)
    ensures r == UnknownSize <==> ParseHeader(data).Ok? && ParseHeader(data).value.Frame?
                                  && !WindowTooLarge(ParseHeader(data).value)
                                  && ParseHeader(data).value.contentSize.None?
  {
    match ParseHeader(data)
    case Err(_) => NotAFrame
    case Ok(h) =>
      if WindowTooLarge(h) then NotAFrame
      else if h.Skippable? then ContentSize(0)
      else if h.contentSize.None? then UnknownSize
      else ContentSize(h.contentSize.value)
  }

  /** The Frame_Content_Size field code a compressor that always records the
      content size picks: the smallest field that holds n. */
  function FcsCode(n: nat): nat {
    if n < 256 then 0 else if n < 65536 + 256 then 1 else if n < 0xFFFF_FFFF then 2 else 3
  }

  function FcsBytes(n: nat): (bs: seq<byte>)
    requires n < TWO_64
  {
    Pow256Values();
    match FcsCode(n)
    case 0 => ToLE(n, 1)
    case 1 => ToLE(n - 256, 2)
    case 2 => ToLE(n, 4)
    case _ => ToLE(n, 8)
  }

  /** The descriptor byte a content-size-recording compressor writes (no dictionary). */
  function EncodeDescriptor(n: nat, singleSegment: bool, checksum: bool): byte {
    FcsCode(n) * 64 + (if singleSegment then 32 else 0) + (if checksum then 4 else 0)
  }

  /** A frame header recording content size n. A window below 256 bytes does not
      exist, so a content size below 256 always goes with single-segment mode. */
  function EncodeHeader(n: nat, singleSegment: bool, window: byte, checksum: bool): (bs: seq<byte>)
    requires n < TWO_64
    requires n < 256 ==> singleSegment
    ensures |bs| >= 5 && bs[..4] == MAGIC
  {
    MAGIC + [EncodeDescriptor(n, singleSegment, checksum)] + (if singleSegment then [] else [window]) + FcsBytes(n)
  }

  lemma DescriptorFields(n: nat, ss: bool, ck: bool)
    requires n < TWO_64
    ensures var fhd := EncodeDescriptor(n, ss, ck);
      FcsFlag(fhd) == FcsCode(n) && SingleSegmentFlag(fhd) == ss && !ReservedFlag(fhd)
      && ChecksumFlag(fhd) == ck && DidFlag(fhd) == 0
  {
  }

  lemma FcsBytesValue(n: nat, ss: bool)
    requires n < TWO_64
    requires n < 256 ==> ss
    ensures |FcsBytes(n)| == FcsFieldSize(EncodeDescriptor(n, ss, false))
    ensures |FcsBytes(n)| == 2 ==> LE(FcsBytes(n)) + 256 == n
    ensures |FcsBytes(n)| != 2 ==> LE(FcsBytes(n)) == n
  {
    Pow256Values();
    DescriptorFields(n, ss, false);
    match FcsCode(n)
    case 0 => LEOfToLE(n, 1);
    case 1 => LEOfToLE(n - 256, 2);
    case 2 => LEOfToLE(n, 4);
    case _ => LEOfToLE(n, 8);
  }

  /** Decoding an encoded header, whatever follows it, gives back the header. */
  lemma ParseEncodedHeader(n: nat, ss: bool, window: byte, ck: bool, rest: seq<byte>)
    requires n < TWO_64
    requires n < 256 ==> ss
    ensures var h := EncodeHeader(n, ss, window, ck);
      ParseHeader(h + rest) == Ok(Frame(ss, if ss then None else Some(window), ck, 0, Some(n), |h|))
  {
    var h := EncodeHeader(n, ss, window, ck);
    var data := h + rest;
    var fhd := EncodeDescriptor(n, ss, ck);
    DescriptorFields(n, ss, ck);
    DescriptorFields(n, ss, false);
    FcsBytesValue(n, ss);
    assert FcsFieldSize(fhd) == FcsFieldSize(EncodeDescriptor(n, ss, false));
    var wdLen := if ss then 0 else 1;
    assert data[..4] == MAGIC && data[4] == fhd;
    assert data[5 + wdLen..|h|] == FcsBytes(n);
    assert !ss ==> data[5] == window;
  }

  /** And so a content-size-recording compressor's output announces its size,
      given a window libzstd accepts (its own compressor writes no other). */
  lemma EncodedHeaderAnnouncesSize(n: nat, ss: bool, window: byte, ck: bool, rest: seq<byte>)
    requires n < TWO_64
    requires n < 256 ==> ss
    requires !ss ==> 10 + window / 8 <= WINDOWLOG_MAX
    ensures FrameContentSize(EncodeHeader(n, ss, window, ck) + rest) == ContentSize(n)
  {
    ParseEncodedHeader(n, ss, window, ck, rest);
  }
}
