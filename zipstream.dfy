/** The streaming ZIP reader of zipstream/zipstream.go: it walks the local file
    headers of an archive front to back (PKWARE APPNOTE.TXT section 4.3.7),
    never consulting the central directory, and stops at the first central
    directory header (section 4.3.12) or end of central directory record
    (section 4.3.16). The input stream is a byte sequence consumed from the
    front; DEFLATE decoding is a parameter. */
module ZipStream {
  import opened Wrappers
  import opened Ints
  import opened Seqs

  type Bytes = seq<byte>

  const HEADER_IDENTIFIER_LEN: nat := 4
  const FILE_HEADER_LEN: nat := 26
  const FILE_HEADER_SIGNATURE: u32 := 0x04034b50
  const DIRECTORY_HEADER_SIGNATURE: u32 := 0x02014b50
  const DIRECTORY_END_SIGNATURE: u32 := 0x06054b50
  const DATA_DESCRIPTOR_SIGNATURE: u32 := 0x08074b50
  /** Header ID of the Zip64 extended information extra field (section 4.5.3). */
  const ZIP64_EXTRA_ID: u16 := 0x0001
  /** Compression methods (section 4.4.5). */
  const STORE: u16 := 0
  const DEFLATE: u16 := 8

  datatype ZipError =
    | EOF                 // io.EOF: no byte was available, or the archive ended
    | UnexpectedEOF       // io.ErrUnexpectedEOF: a read ended part-way
    | ErrFormat           // zip.ErrFormat
    | Encrypted
    | DescriptorWithoutDeflate
    | UnknownMethod(compression: u16)
    | DataError(msg: string)
    | Wrapped(context: Context, cause: ZipError) // fmt.Errorf("...: %w", cause): no longer == io.EOF

  /** Where `Next` wraps an error with context. */
  datatype Context =
    | PreviousData        // "read previous file data fail"
    | PreviousDescriptor  // "read previous entry's data descriptor fail"
    | HeaderIdentifier    // "unable to read header identifier"
    | LocalHeaderRead     // "unable to read zip file header"

  /** A DEFLATE decoder run on the bytes it may read: how many it consumed
      and what it produced, or its error. */
  type Inflater = Bytes -> Result<(nat, Bytes), string>

  // ---------------------------------------------------------------------------
  // readBuf: a byte slice consumed from the front

  class ReadBuf {
    var buf: Bytes

    constructor(b: Bytes)
      ensures buf == b
    {
      buf := b;
    }

    method Uint8() returns (v: byte)
      requires |buf| >= 1
      modifies this
      ensures v == old(buf)[0] && buf == old(buf)[1..]
    {
      v := buf[0];
      buf := buf[1..];
    }

    method Uint16() returns (v: u16)
      requires |buf| >= 2
      modifies this
      ensures v == LE16(old(buf)[..2]) && buf == old(buf)[2..]
    {
      v := LE16(buf[..2]);
      buf := buf[2..];
    }

    method Uint32() returns (v: u32)
      requires |buf| >= 4
      modifies this
      ensures v == LE32(old(buf)[..4]) && buf == old(buf)[4..]
    {
      v := LE32(buf[..4]);
      buf := buf[4..];
    }

    method Uint64() returns (v: u64)
      requires |buf| >= 8
      modifies this
      ensures v == LE64(old(buf)[..8]) && buf == old(buf)[8..]
    {
      v := LE64(buf[..8]);
      buf := buf[8..];
    }

    /** `sub(n)`: the first n bytes, dropped from the buffer. */
    method Sub(n: nat) returns (b2: Bytes)
      requires n <= |buf|
      modifies this
      ensures b2 == old(buf)[..n] && buf == old(buf)[n..] && b2 + buf == old(buf)
    {
      b2 := buf[..n];
      buf := buf[n..];
    }
  }

  /** The little-endian decoders invert the little-endian encoders. */
  lemma DecodersInvertEncoders(a: u16, b: u32, c: u64)
    ensures LE16(ToLE(a, 2)) == a && LE32(ToLE(b, 4)) == b && LE64(ToLE(c, 8)) == c
  {
    Pow256Values();
    LEOfToLE(a, 2);
    LEOfToLE(b, 4);
    LEOfToLE(c, 8);
  }

  // ---------------------------------------------------------------------------
  // The local file header

  /** The 26 bytes after the signature (section 4.3.7). */
  datatype LocalHeader = LocalHeader(
    readerVersion: u16, flags: u16, compression: u16, modifiedTime: u16, modifiedDate: u16,
    crc32: u32, compressedSize: u32, uncompressedSize: u32, nameLen: u16, extraLen: u16)

  function DecodeLocalHeader(b: Bytes): LocalHeader
    requires |b| == FILE_HEADER_LEN
  {
    LocalHeader(LE16(b[0..2]), LE16(b[2..4]), LE16(b[4..6]), LE16(b[6..8]), LE16(b[8..10]),
                LE32(b[10..14]), LE32(b[14..18]), LE32(b[18..22]), LE16(b[22..24]), LE16(b[24..26]))
  }

  function EncodeLocalHeader(h: LocalHeader): (b: Bytes)
    ensures |b| == FILE_HEADER_LEN
  {
    Pow256Values();
    ToLE(h.readerVersion, 2) + ToLE(h.flags, 2) + ToLE(h.compression, 2) + ToLE(h.modifiedTime, 2)
    + ToLE(h.modifiedDate, 2) + ToLE(h.crc32, 4) + ToLE(h.compressedSize, 4)
    + ToLE(h.uncompressedSize, 4) + ToLE(h.nameLen, 2) + ToLE(h.extraLen, 2)
  }

  /** The header fields decode in their documented order and width. */
  lemma DecodeEncodeLocalHeader(h: LocalHeader)
    ensures DecodeLocalHeader(EncodeLocalHeader(h)) == h
  {
    var b := EncodeLocalHeader(h);
    Pow256Values();
    assert b[0..2] == ToLE(h.readerVersion, 2);
    assert b[2..4] == ToLE(h.flags, 2);
    assert b[4..6] == ToLE(h.compression, 2);
    assert b[6..8] == ToLE(h.modifiedTime, 2);
    assert b[8..10] == ToLE(h.modifiedDate, 2);
    assert b[10..14] == ToLE(h.crc32, 4);
    assert b[14..18] == ToLE(h.compressedSize, 4);
    assert b[18..22] == ToLE(h.uncompressedSize, 4);
    assert b[22..24] == ToLE(h.nameLen, 2);
    assert b[24..26] == ToLE(h.extraLen, 2);
    DecodersInvertEncoders(h.readerVersion, h.crc32, 0);
    DecodersInvertEncoders(h.flags, h.compressedSize, 0);
    DecodersInvertEncoders(h.compression, h.uncompressedSize, 0);
    DecodersInvertEncoders(h.modifiedTime, 0, 0);
    DecodersInvertEncoders(h.modifiedDate, 0, 0);
    DecodersInvertEncoders(h.nameLen, 0, 0);
    DecodersInvertEncoders(h.extraLen, 0, 0);
  }

  /** The header decoding of `readEntry`, field by field off a readBuf. */
  method ReadLocalHeader(b: Bytes) returns (h: LocalHeader)
    requires |b| == FILE_HEADER_LEN
    ensures h == DecodeLocalHeader(b)
  {
    var lr := new ReadBuf(b);
    var readerVersion := lr.Uint16();
    var flags := lr.Uint16();
    var compression := lr.Uint16();
    var modifiedTime := lr.Uint16();
    var modifiedDate := lr.Uint16();
    assert lr.buf == b[10..];
    var crc32 := lr.Uint32();
    var compressedSize := lr.Uint32();
    var uncompressedSize := lr.Uint32();
    var nameLen := lr.Uint16();
    var extraLen := lr.Uint16();
    assert b[0..2] == b[..2] && b[2..][..2] == b[2..4] && b[4..][..2] == b[4..6];
    assert b[6..][..2] == b[6..8] && b[8..][..2] == b[8..10];
    assert b[10..][..4] == b[10..14] && b[14..][..4] == b[14..18] && b[18..][..4] == b[18..22];
    assert b[22..][..2] == b[22..24] && b[24..][..2] == b[24..26];
    h := LocalHeader(readerVersion, flags, compression, modifiedTime, modifiedDate,
                     crc32, compressedSize, uncompressedSize, nameLen, extraLen);
  }

  // ---------------------------------------------------------------------------
  // The extra field and Zip64 sizes

  /** The sizes being resolved: whether each 32-bit size was 0xFFFFFFFF and
      still awaits its Zip64 value, and the 64-bit values so far. */
  datatype Sizes = Sizes(needUSize: bool, needCSize: bool, usize: u64, csize: u64)

  /** One Zip64 extended information field (section 4.5.3): the uncompressed
      size comes first, then the compressed size, each only when needed. */
  function Zip64Field(f: Bytes, s: Sizes): (r: Result<Sizes, ZipError>)
    ensures r.Err? <==> (s.needUSize && |f| < 8) || (s.needCSize && |f| < (if s.needUSize then 16 else 8))
    ensures r.Err? ==> r.error == ErrFormat
    ensures r.Ok? ==> !r.value.needUSize && !r.value.needCSize
    ensures r.Ok? && s.needUSize ==> r.value.usize == LE64(f[..8])
    ensures r.Ok? && !s.needUSize ==> r.value.usize == s.usize
    ensures r.Ok? && s.needCSize ==> r.value.csize == LE64(if s.needUSize then f[8..16] else f[..8])
    ensures r.Ok? && !s.needCSize ==> r.value.csize == s.csize
  {
    if s.needUSize && |f| < 8 then Err(ErrFormat)
    else
      var s1 := if s.needUSize then s.(needUSize := false, usize := LE64(f[..8])) else s;
      var f1 := if s.needUSize then f[8..] else f;
      assert s.needUSize && |f1| >= 8 ==> f1[..8] == f[8..16];
      if s1.needCSize && |f1| < 8 then Err(ErrFormat)
      else Ok(if s1.needCSize then s1.(needCSize := false, csize := LE64(f1[..8])) else s1)
  }

  /** The extra-area loop: fields of (tag, size, data); a field whose declared
      size exceeds what is left ends the scan. */
  function ScanExtra(ler: Bytes, s: Sizes): Result<Sizes, ZipError>
    decreases |ler|
  {
    if |ler| < 4 then Ok(s)
    else
      var tag := LE16(ler[0..2]);
      var size := LE16(ler[2..4]);
      var rest := ler[4..];
      if |rest| < size then Ok(s)
      else if tag == ZIP64_EXTRA_ID then
        match Zip64Field(rest[..size], s)
        case Err(e) => Err(e)
        case Ok(s') => ScanExtra(rest[size..], s')
      else ScanExtra(rest[size..], s)
  }

  /** `readEntry`'s extra-area loop. */
  method ScanExtraLoop(extra: Bytes, s0: Sizes) returns (r: Result<Sizes, ZipError>)
    ensures r == ScanExtra(extra, s0)
  {
    var ler := new ReadBuf(extra);
    var s := s0;
    while |ler.buf| >= 4
      invariant ScanExtra(ler.buf, s) == ScanExtra(extra, s0)
      decreases |ler.buf|
    {
      ghost var before := ler.buf;
      var fieldTag := ler.Uint16();
      var fieldSize := ler.Uint16();
      assert before[0..2] == before[..2] && before[2..][..2] == before[2..4] && ler.buf == before[4..];
      if |ler.buf| < fieldSize {
        return Ok(s);
      }
      var fieldBuf := ler.Sub(fieldSize);
      if fieldTag == ZIP64_EXTRA_ID {
        var z := Zip64Step(fieldBuf, s);
        if z.Err? {
          return Err(z.error);
        }
        s := z.value;
      }
    }
    return Ok(s);
  }

  /** The body of the Zip64 case, off its own readBuf. */
  method Zip64Step(field: Bytes, s: Sizes) returns (r: Result<Sizes, ZipError>)
    ensures r == Zip64Field(field, s)
  {
    var fieldBuf := new ReadBuf(field);
    var t := s;
    if t.needUSize {
      t := t.(needUSize := false);
      if |fieldBuf.buf| < 8 {
        return Err(ErrFormat);
      }
      var u := fieldBuf.Uint64();
      t := t.(usize := u);
    }
    if t.needCSize {
      t := t.(needCSize := false);
      if |fieldBuf.buf| < 8 {
        return Err(ErrFormat);
      }
      assert s.needUSize ==> fieldBuf.buf[..8] == field[8..16];
      var c := fieldBuf.Uint64();
      t := t.(csize := c);
    }
    return Ok(t);
  }

  /** Zip64 values are consulted only for sizes that were 0xFFFFFFFF: a size
      not needed keeps its value, and a resolved size stays resolved. */
  lemma {:induction false} ScanExtraKeepsKnown(ler: Bytes, s: Sizes)
    requires ScanExtra(ler, s).Ok?
    ensures var r := ScanExtra(ler, s).value;
      && (r.needUSize ==> s.needUSize) && (r.needCSize ==> s.needCSize)
      && (!s.needUSize ==> r.usize == s.usize && !r.needUSize)
      && (!s.needCSize ==> r.csize == s.csize && !r.needCSize)
    decreases |ler|
  {
    if |ler| >= 4 {
      var size := LE16(ler[2..4]);
      var rest := ler[4..];
      if |rest| >= size {
        if LE16(ler[0..2]) == ZIP64_EXTRA_ID {
          ScanExtraKeepsKnown(rest[size..], Zip64Field(rest[..size], s).value);
        } else {
          ScanExtraKeepsKnown(rest[size..], s);
        }
      }
    }
  }

  /** An extra field as written: tag, declared size, data. */
  datatype ExtraField = ExtraField(tag: u16, data: Bytes)

  predicate FieldsFit(fs: seq<ExtraField>) {
    forall i :: 0 <= i < |fs| ==> |fs[i].data| < TWO_16
  }

  function EncodeField(f: ExtraField): (b: Bytes)
    requires |f.data| < TWO_16
    ensures |b| == 4 + |f.data|
  {
    Pow256Values();
    ToLE(f.tag, 2) + ToLE(|f.data|, 2) + f.data
  }

  function EncodeExtra(fs: seq<ExtraField>): Bytes
    requires FieldsFit(fs)
  {
    if fs == [] then [] else EncodeField(fs[0]) + EncodeExtra(fs[1..])
  }

  /** The scan reads a written field's tag, size and data back, and goes on
      with what follows it. */
  lemma EncodedFieldSplit(f: ExtraField, more: Bytes)
    requires |f.data| < TWO_16
    ensures var ler := EncodeField(f) + more;
      && |ler| >= 4 && LE16(ler[0..2]) == f.tag && LE16(ler[2..4]) == |f.data|
      && ler[4..][..|f.data|] == f.data && ler[4..][|f.data|..] == more
  {
    Pow256Values();
    var ler := EncodeField(f) + more;
    assert ler[0..2] == ToLE(f.tag, 2) && ler[2..4] == ToLE(|f.data|, 2);
    assert ler[4..] == f.data + more;
    DecodersInvertEncoders(f.tag, 0, 0);
    DecodersInvertEncoders(|f.data|, 0, 0);
  }

  /** The reference reading of a list of fields: each Zip64 field in turn. */
  function ScanFields(fs: seq<ExtraField>, s: Sizes): Result<Sizes, ZipError> {
    if fs == [] then Ok(s)
    else if fs[0].tag == ZIP64_EXTRA_ID then
      match Zip64Field(fs[0].data, s)
      case Err(e) => Err(e)
      case Ok(s') => ScanFields(fs[1..], s')
    else ScanFields(fs[1..], s)
  }

  /** A tail that the scan ignores: too short for a field header, or a field
      header declaring more bytes than follow. */
  predicate Truncated(tail: Bytes) {
    |tail| < 4 || |tail| - 4 < LE16(tail[2..4])
  }

  /** The scan of written fields followed by a truncated tail reads exactly
      those fields, in order. */
  lemma {:induction false} ScanExtraOfEncoded(fs: seq<ExtraField>, tail: Bytes, s: Sizes)
    requires FieldsFit(fs) && Truncated(tail)
    ensures ScanExtra(EncodeExtra(fs) + tail, s) == ScanFields(fs, s)
    decreases |fs|
  {
    if fs == [] {
      assert EncodeExtra(fs) + tail == tail;
    } else {
      var f := fs[0];
      var more := EncodeExtra(fs[1..]) + tail;
      assert EncodeExtra(fs) + tail == EncodeField(f) + more by {
        ConcatAssoc(EncodeField(f), EncodeExtra(fs[1..]), tail);
      }
      EncodedFieldSplit(f, more);
      if f.tag == ZIP64_EXTRA_ID {
        if Zip64Field(f.data, s).Ok? {
          ScanExtraOfEncoded(fs[1..], tail, Zip64Field(f.data, s).value);
        }
      } else {
        ScanExtraOfEncoded(fs[1..], tail, s);
      }
    }
  }

  // ---------------------------------------------------------------------------
  // Entries

  /** zip.FileHeader, as far as the local header fills it in. */
  datatype FileHeader = FileHeader(
    name: Bytes, readerVersion: u16, flags: u16, compression: u16, modifiedTime: u16, modifiedDate: u16,
    crc32: u32, compressedSize: u32, uncompressedSize: u32,
    compressedSize64: u64, uncompressedSize64: u64, extra: Bytes, nonUTF8: bool)

  /** How the entry's data is read: a stored entry through a limit on the
      stream, a deflated one through the inflater, limited or not. */
  datatype Body = Stored(size: nat) | Deflated(limit: Option<nat>)

  datatype Entry = Entry(header: FileHeader, body: Body)

  /** `io.LimitReader(r, int64(n))`: the 64-bit size as a signed count, no
      bytes at all when that is not positive. */
  function Limit(n: u64): (l: nat)
    ensures n < TWO_63 ==> l == n
    ensures n >= TWO_63 ==> l == 0
  {
    var i := AsI64(n);
    if i <= 0 then 0 else i
  }

  /** General purpose bit flag bit 3 (section 4.4.4): sizes and CRC follow the data. */
  predicate HasDataDescriptor(e: Entry) {
    Bit(e.header.flags, 3)
  }

  /** `IsDir`: the name ends with a slash. */
  predicate IsDir(e: Entry) {
    |e.header.name| > 0 && e.header.name[|e.header.name| - 1] == '/' as byte
  }

  /** The entry described by a local header, its name and its extra area. */
  function EntryOf(h: LocalHeader, name: Bytes, extra: Bytes): Result<Entry, ZipError> {
    if Bit(h.flags, 0) then Err(Encrypted)
    else if Bit(h.flags, 3) && h.compression != DEFLATE then Err(DescriptorWithoutDeflate)
    else
      var s0 := Sizes(h.uncompressedSize == MAX_U32, h.compressedSize == MAX_U32,
                      h.uncompressedSize, h.compressedSize);
      match ScanExtra(extra, s0)
      case Err(e) => Err(e)
      case Ok(s) =>
        if s.needCSize then Err(ErrFormat)
        else
          var header := FileHeader(name, h.readerVersion, h.flags, h.compression, h.modifiedTime, h.modifiedDate,
                                   h.crc32, h.compressedSize, h.uncompressedSize, s.csize, s.usize, extra,
                                   !Bit(h.flags, 11));
          if h.compression == STORE then Ok(Entry(header, Stored(Limit(s.usize))))
          else if h.compression == DEFLATE then
            Ok(Entry(header, Deflated(if s.csize > 0 then Some(Limit(s.csize)) else None)))
          else Err(UnknownMethod(h.compression))
  }

  /** The flag checks come first: bit 0 (encryption) is refused, and bit 3
      (data descriptor) only goes with Deflate. */
  lemma FlagChecks(h: LocalHeader, name: Bytes, extra: Bytes)
    ensures Bit(h.flags, 0) ==> EntryOf(h, name, extra) == Err(Encrypted)
    ensures !Bit(h.flags, 0) && Bit(h.flags, 3) && h.compression != DEFLATE ==>
              EntryOf(h, name, extra) == Err(DescriptorWithoutDeflate)
    ensures EntryOf(h, name, extra).Ok? ==> !Bit(h.flags, 0) && (HasDataDescriptor(EntryOf(h, name, extra).value) ==> h.compression == DEFLATE)
  {
  }

  /** An accepted entry carries the header's fields, its name and extra area,
      `NonUTF8` exactly when bit 11 is clear, 32-bit sizes other than
      0xFFFFFFFF as its 64-bit sizes, and a body chosen by its method. */
  lemma EntryFields(h: LocalHeader, name: Bytes, extra: Bytes)
    requires EntryOf(h, name, extra).Ok?
    ensures var e := EntryOf(h, name, extra).value;
      && e.header.name == name && e.header.extra == extra
      && e.header.flags == h.flags && e.header.compression == h.compression && e.header.crc32 == h.crc32
      && e.header.readerVersion == h.readerVersion && e.header.modifiedTime == h.modifiedTime
      && e.header.modifiedDate == h.modifiedDate
      && e.header.compressedSize == h.compressedSize && e.header.uncompressedSize == h.uncompressedSize
      && (e.header.nonUTF8 <==> !Bit(h.flags, 11))
      && (h.compressedSize != MAX_U32 ==> e.header.compressedSize64 == h.compressedSize)
      && (h.uncompressedSize != MAX_U32 ==> e.header.uncompressedSize64 == h.uncompressedSize)
      && (h.compression == STORE || h.compression == DEFLATE)
      && (h.compression == STORE ==> e.body == Stored(Limit(e.header.uncompressedSize64)))
      && (h.compression == DEFLATE ==> e.body == Deflated(if e.header.compressedSize64 > 0 then Some(Limit(e.header.compressedSize64)) else None))
  {
    var s0 := Sizes(h.uncompressedSize == MAX_U32, h.compressedSize == MAX_U32,
                    h.uncompressedSize, h.compressedSize);
    ScanExtraKeepsKnown(extra, s0);
  }

  /** A compressed size left at 0xFFFFFFFF after the extras is a format error;
      an unresolved uncompressed size is not. */
  lemma UnresolvedSizes(h: LocalHeader, name: Bytes, extra: Bytes)
    requires !Bit(h.flags, 0) && !Bit(h.flags, 3)
    requires forall i :: 0 <= i < |extra| ==> extra[i] == 0
    ensures h.compressedSize == MAX_U32 ==> EntryOf(h, name, extra) == Err(ErrFormat)
    ensures h.compressedSize != MAX_U32 && h.compression == STORE ==>
              EntryOf(h, name, extra).Ok? && EntryOf(h, name, extra).value.header.uncompressedSize64 == h.uncompressedSize
  {
    var s0 := Sizes(h.uncompressedSize == MAX_U32, h.compressedSize == MAX_U32,
                    h.uncompressedSize, h.compressedSize);
    ZeroExtraScansNothing(extra, s0);
  }

  lemma {:induction false} LEOfZeros(bs: Bytes)
    requires forall i :: 0 <= i < |bs| ==> bs[i] == 0
    ensures LE(bs) == 0
  {
    if bs != [] {
      LEOfZeros(bs[1..]);
    }
  }

  /** An all-zero extra area holds no Zip64 field (its tags are 0). */
  lemma {:induction false} ZeroExtraScansNothing(extra: Bytes, s: Sizes)
    requires forall i :: 0 <= i < |extra| ==> extra[i] == 0
    ensures ScanExtra(extra, s) == Ok(s)
    decreases |extra|
  {
    if |extra| >= 4 {
      var size := LE16(extra[2..4]);
      LEOfZeros(extra[0..2]);
      var rest := extra[4..];
      if |rest| >= size {
        ZeroExtraScansNothing(rest[size..], s);
      }
    }
  }

  // ---------------------------------------------------------------------------
  // The stream

  /** `io.ReadFull(r, buf[:n])`: the next n bytes, or EOF when none was left and
      ErrUnexpectedEOF when only some were; a short read consumes what was there. */
  function ReadFull(rest: Bytes, n: nat): (Bytes, Result<Bytes, ZipError>) {
    if n <= |rest| then (rest[n..], Ok(rest[..n]))
    else ([], Err(if |rest| == 0 then EOF else UnexpectedEOF))
  }

  /** `readDataDescriptor`: 16 bytes with the optional signature, 12 without
      it (section 4.3.9). */
  function DataDescriptor(rest: Bytes): (Bytes, Option<ZipError>) {
    var (r1, sig) := ReadFull(rest, 4);
    if sig.Err? then (r1, Some(sig.error))
    else
      var more := if LE32(sig.value) == DATA_DESCRIPTOR_SIGNATURE then 12 else 8;
      var (r2, tail) := ReadFull(r1, more);
      (r2, if tail.Err? then Some(tail.error) else None)
  }

  lemma DataDescriptorLength(rest: Bytes)
    requires |rest| >= 16
    ensures LE32(rest[..4]) == DATA_DESCRIPTOR_SIGNATURE ==> DataDescriptor(rest) == (rest[16..], None)
    ensures LE32(rest[..4]) != DATA_DESCRIPTOR_SIGNATURE ==> DataDescriptor(rest) == (rest[12..], None)
  {
    assert rest[4..][12..] == rest[16..];
    assert rest[4..][8..] == rest[12..];
  }

  /** `readEntry`, after the signature: the fixed header, then name and extra
      area in one read, then the checks of `EntryOf`. */
  function ReadEntrySpec(rest: Bytes): (Bytes, Result<Entry, ZipError>) {
    var (r1, fixed) := ReadFull(rest, FILE_HEADER_LEN);
    if fixed.Err? then (r1, Err(fixed.error))
    else
      ReadNameAndExtra(r1, DecodeLocalHeader(fixed.value))
  }

  /** The name and extra area, read together, then the entry they describe. */
  function ReadNameAndExtra(rest: Bytes, h: LocalHeader): (Bytes, Result<Entry, ZipError>) {
    var (r2, ne) := ReadFull(rest, h.nameLen + h.extraLen);
    if ne.Err? then (r2, Err(ne.error))
    else (r2, EntryOf(h, ne.value[..h.nameLen], ne.value[h.nameLen..]))
  }

  /** The reader: the unread stream, whether an end signature was seen, the
      current entry, and whether its data is still unread. */
  datatype ReaderState = ReaderState(rest: Bytes, localFileEnd: bool, cur: Option<Entry>, pending: bool)

  /** Reading an entry's data to its end: a stored entry yields up to its limit
      of stream bytes; a deflated one is inflated from its limit of bytes, or
      from the rest of the stream. The count is how many stream bytes went. */
  function Drain(inflate: Inflater, b: Body, rest: Bytes): (r: Result<(Bytes, nat), string>)
    ensures r.Ok? ==> r.value.1 <= |rest|
  {
    match b
    case Stored(n) =>
      var k := if n < |rest| then n else |rest|;
      Ok((rest[..k], k))
    case Deflated(lim) =>
      var input := if lim.Some? && lim.value < |rest| then rest[..lim.value] else rest;
      match inflate(input)
      case Err(e) => Err(e)
      case Ok((used, out)) => Ok((out, if used < |input| then used else |input|))
  }

  /** The first half of `Next`: drain what is left of the current entry, then
      read its data descriptor if it has one. */
  function Finish(inflate: Inflater, st: ReaderState): (ReaderState, Option<ZipError>) {
    if st.cur.None? then (st, None)
    else
      var drained :=
        if !st.pending then Ok(st)
        else match Drain(inflate, st.cur.value.body, st.rest)
          case Err(e) => Err(Wrapped(PreviousData, DataError(e)))
          case Ok((_, used)) => Ok(st.(rest := st.rest[used..], pending := false));
      if drained.Err? then (st, Some(drained.error))
      else
        var st1 := drained.value;
        if HasDataDescriptor(st1.cur.value) then
          var (r, err) := DataDescriptor(st1.rest);
          (st1.(rest := r), if err.Some? then Some(Wrapped(PreviousDescriptor, err.value)) else None)
        else (st1, None)
  }

  /** Reading the current entry's data to its end: nothing when it was read
      already, otherwise what Drain yields, the stream advancing past the
      bytes it used; a failure leaves the state as it was. */
  function Contents(inflate: Inflater, st: ReaderState): (ReaderState, Result<Bytes, ZipError>)
    requires st.cur.Some?
  {
    if !st.pending then (st, Ok([]))
    else match Drain(inflate, st.cur.value.body, st.rest)
      case Err(e) => (st, Err(DataError(e)))
      case Ok((data, used)) => (st.(rest := st.rest[used..], pending := false), Ok(data))
  }

  function NextSpec(inflate: Inflater, st: ReaderState): (ReaderState, Result<Entry, ZipError>) {
    if st.localFileEnd then (st, Err(EOF))
    else
      var (st1, finishErr) := Finish(inflate, st);
      if finishErr.Some? then (st1, Err(finishErr.value))
      else
        var (r2, id) := ReadFull(st1.rest, HEADER_IDENTIFIER_LEN);
        var st2 := st1.(rest := r2);
        if id.Err? then (st2, Err(Wrapped(HeaderIdentifier, id.error)))
        else
          var headerID := LE32(id.value);
          if headerID != FILE_HEADER_SIGNATURE then
            if headerID == DIRECTORY_HEADER_SIGNATURE || headerID == DIRECTORY_END_SIGNATURE then
              (st2.(localFileEnd := true), Err(EOF))
            else (st2, Err(ErrFormat))
          else
            var (r3, entry) := ReadEntrySpec(r2);
            if entry.Err? then (st2.(rest := r3), Err(Wrapped(LocalHeaderRead, entry.error)))
            else (st2.(rest := r3, cur := Some(entry.value), pending := true), Ok(entry.value))
  }

  class Reader {
    const inflate: Inflater
    var rest: Bytes
    var localFileEnd: bool
    var cur: Option<Entry>
    var pending: bool

    function State(): ReaderState
      reads this
    {
      ReaderState(rest, localFileEnd, cur, pending)
    }

    /** `NewReader` */
    constructor(input: Bytes, inflate: Inflater)
      ensures this.inflate == inflate && State() == ReaderState(input, false, None, false)
    {
      this.inflate := inflate;
      rest := input;
      localFileEnd := false;
      cur := None;
      pending := false;
    }

    method ReadFullN(n: nat) returns (r: Result<Bytes, ZipError>)
      modifies this
      ensures (rest, r) == ReadFull(old(rest), n)
      ensures localFileEnd == old(localFileEnd) && cur == old(cur) && pending == old(pending)
    {
      if n <= |rest| {
        r := Ok(rest[..n]);
        rest := rest[n..];
      } else {
        r := Err(if |rest| == 0 then EOF else UnexpectedEOF);
        rest := [];
      }
    }

    /** `readEntry` */
    method ReadEntry() returns (res: Result<Entry, ZipError>)
      modifies this
      ensures (rest, res) == ReadEntrySpec(old(rest))
      ensures localFileEnd == old(localFileEnd) && cur == old(cur) && pending == old(pending)
    {
      var buf := ReadFullN(FILE_HEADER_LEN);
      if buf.Err? {
        return Err(buf.error);
      }
      var h := ReadLocalHeader(buf.value);
      res := ReadEntryRest(h);
    }

    method ReadEntryRest(h: LocalHeader) returns (res: Result<Entry, ZipError>)
      modifies this
      ensures (rest, res) == ReadNameAndExtra(old(rest), h)
      ensures localFileEnd == old(localFileEnd) && cur == old(cur) && pending == old(pending)
    {
      var nameAndExtra := ReadFullN(h.nameLen + h.extraLen);
      if nameAndExtra.Err? {
        return Err(nameAndExtra.error);
      }
      var name := nameAndExtra.value[..h.nameLen];
      var extra := nameAndExtra.value[h.nameLen..];
      res := ResolveEntry(h, name, extra);
    }

    /** The checks and size resolution of `readEntry`, after its reads. */
    static method ResolveEntry(h: LocalHeader, name: Bytes, extra: Bytes) returns (res: Result<Entry, ZipError>)
      ensures res == EntryOf(h, name, extra)
    {
      var nonUTF8 := !Bit(h.flags, 11);
      if Bit(h.flags, 0) {
        return Err(Encrypted);
      }
      if Bit(h.flags, 3) && h.compression != DEFLATE {
        return Err(DescriptorWithoutDeflate);
      }
      var needCSize := h.compressedSize == MAX_U32;
      var needUSize := h.uncompressedSize == MAX_U32;
      var sizes := ScanExtraLoop(extra, Sizes(needUSize, needCSize, h.uncompressedSize, h.compressedSize));
      if sizes.Err? {
        return Err(sizes.error);
      }
      if sizes.value.needCSize {
        return Err(ErrFormat);
      }
      var header := FileHeader(name, h.readerVersion, h.flags, h.compression, h.modifiedTime, h.modifiedDate,
                               h.crc32, h.compressedSize, h.uncompressedSize,
                               sizes.value.csize, sizes.value.usize, extra, nonUTF8);
      if h.compression == STORE {
        return Ok(Entry(header, Stored(Limit(header.uncompressedSize64))));
      } else if h.compression == DEFLATE {
        var limit := if header.compressedSize64 > 0 then Some(Limit(header.compressedSize64)) else None;
        return Ok(Entry(header, Deflated(limit)));
      } else {
        return Err(UnknownMethod(h.compression));
      }
    }

    /** Reading the current entry's data to its end (`Entry.Read` until EOF). */
    method ReadContents() returns (r: Result<Bytes, ZipError>)
      requires cur.Some?
      modifies this
      ensures (State(), r) == Contents(inflate, old(State()))
    {
      if !pending {
        return Ok([]);
      }
      var d := Drain(inflate, cur.value.body, rest);
      if d.Err? {
        return Err(DataError(d.error));
      }
      rest := rest[d.value.1..];
      pending := false;
      return Ok(d.value.0);
    }

    /** `Next` */
    method Next() returns (res: Result<Entry, ZipError>)
      modifies this
      ensures (State(), res) == NextSpec(inflate, old(State()))
    {
      if localFileEnd {
        return Err(EOF);
      }
      if cur.Some? {
        if pending {
          var d := Drain(inflate, cur.value.body, rest);
          if d.Err? {
            return Err(Wrapped(PreviousData, DataError(d.error)));
          }
          rest := rest[d.value.1..];
          pending := false;
        }
        if HasDataDescriptor(cur.value) {
          var err := ReadDataDescriptor();
          if err.Some? {
            return Err(Wrapped(PreviousDescriptor, err.value));
          }
        }
      }
      var headerIDBuf := ReadFullN(HEADER_IDENTIFIER_LEN);
      if headerIDBuf.Err? {
        return Err(Wrapped(HeaderIdentifier, headerIDBuf.error));
      }
      var headerID := LE32(headerIDBuf.value);
      if headerID != FILE_HEADER_SIGNATURE {
        if headerID == DIRECTORY_HEADER_SIGNATURE || headerID == DIRECTORY_END_SIGNATURE {
          localFileEnd := true;
          return Err(EOF);
        }
        return Err(ErrFormat);
      }
      var entry := ReadEntry();
      if entry.Err? {
        return Err(Wrapped(LocalHeaderRead, entry.error));
      }
      cur := Some(entry.value);
      pending := true;
      return Ok(entry.value);
    }

    /** `readDataDescriptor` on the stream. */
    method ReadDataDescriptor() returns (err: Option<ZipError>)
      modifies this
      ensures (rest, err) == DataDescriptor(old(rest))
      ensures localFileEnd == old(localFileEnd) && cur == old(cur) && pending == old(pending)
    {
      var sig := ReadFullN(4);
      if sig.Err? {
        return Some(sig.error);
      }
      var more := if LE32(sig.value) == DATA_DESCRIPTOR_SIGNATURE then 12 else 8;
      var tail := ReadFullN(more);
      if tail.Err? {
        return Some(tail.error);
      }
      return None;
    }
  }

  // ---------------------------------------------------------------------------
  // Properties of Next

  /** Once an end signature was seen, every call returns EOF and reads nothing. */
  lemma EndIsSticky(inflate: Inflater, st: ReaderState)
    requires st.localFileEnd
    ensures NextSpec(inflate, st) == (st, Err(EOF))
  {
  }

  /** A central directory header or end of central directory record where a
      local header would start ends the walk; any other signature is a
      format error. */
  lemma SignatureHandling(inflate: Inflater, rest: Bytes, sig: u32)
    requires |rest| >= 4 && LE32(rest[..4]) == sig
    ensures var (st, r) := NextSpec(inflate, ReaderState(rest, false, None, false));
      && ((sig == DIRECTORY_HEADER_SIGNATURE || sig == DIRECTORY_END_SIGNATURE) ==>
            r == Err(EOF) && st.localFileEnd && st.rest == rest[4..])
      && (sig != FILE_HEADER_SIGNATURE && sig != DIRECTORY_HEADER_SIGNATURE && sig != DIRECTORY_END_SIGNATURE ==>
            r == Err(ErrFormat) && !st.localFileEnd)
  {
  }

  predicate EndSignature(id: u32) {
    id == DIRECTORY_HEADER_SIGNATURE || id == DIRECTORY_END_SIGNATURE
  }

  /** Only the end signatures and an earlier end give the bare EOF: a stream
      that runs out where a header would start gives it wrapped. */
  lemma BareEOFOnlyAtEnd(inflate: Inflater, st: ReaderState)
    ensures var (_, r) := NextSpec(inflate, st);
      var (st1, err) := Finish(inflate, st);
      r == Err(EOF) <==> (st.localFileEnd || (err.None? && |st1.rest| >= 4 && EndSignature(LE32(st1.rest[..4]))))
  {
  }

  /** An empty stream, or one cut off right after an entry, gives the header
      identifier's EOF wrapped, not the end of the archive. */
  lemma NextAtEndOfInput(inflate: Inflater, st: ReaderState)
    requires !st.localFileEnd && st.rest == []
    requires st.cur.None? || (!st.pending && !HasDataDescriptor(st.cur.value))
    ensures NextSpec(inflate, st) == (st, Err(Wrapped(HeaderIdentifier, EOF)))
  {
  }

  /** The bytes of a stored entry without extras or a data descriptor. */
  function StoredEntryBytes(name: Bytes, data: Bytes, version: u16, flags: u16, crc: u32): (b: Bytes)
    requires |name| < TWO_16 && |data| < MAX_U32
  {
    Pow256Values();
    ToLE(FILE_HEADER_SIGNATURE, 4)
    + EncodeLocalHeader(LocalHeader(version, flags, STORE, 0, 0, crc, |data|, |data|, |name|, 0))
    + name + data
  }

  /** A stored entry read from the front of a stream: `Next` returns it with
      its name and sizes, its data reads back exactly, and the stream is left
      at the next header. */
  lemma StoredEntryRoundTrip(inflate: Inflater, name: Bytes, data: Bytes, version: u16, flags: u16, crc: u32, after: Bytes)
    requires |name| < TWO_16 && |data| < MAX_U32
    requires !Bit(flags, 0) && !Bit(flags, 3)
    ensures var (st, r) := NextSpec(inflate, ReaderState(StoredEntryBytes(name, data, version, flags, crc) + after, false, None, false));
      && r.Ok? && r.value.header.name == name && r.value.header.flags == flags
      && r.value.header.uncompressedSize64 == |data|
      && r.value.header.compressedSize64 == |data| && r.value.header.compression == STORE
      && (r.value.header.nonUTF8 <==> !Bit(flags, 11))
      && st.cur == Some(r.value) && st.pending
      && Drain(inflate, r.value.body, st.rest) == Ok((data, |data|))
      && st.rest[|data|..] == after
  {
    var h := StoredHeader(name, data, version, flags, crc);
    StoredEntryNext(inflate, name, data, version, flags, crc, after);
    EntryFields(h, name, []);
    var e := EntryOf(h, name, []).value;
    assert e.body == Stored(|data|);
    var st := ReaderState(data + after, false, Some(e), true);
    assert NextSpec(inflate, ReaderState(StoredEntryBytes(name, data, version, flags, crc) + after, false, None, false))
      == (st, Ok(e));
    assert Drain(inflate, e.body, st.rest) == Ok((data, |data|)) by {
      assert (data + after)[..|data|] == data;
    }
    assert (data + after)[|data|..] == after;
  }

  function StoredHeader(name: Bytes, data: Bytes, version: u16, flags: u16, crc: u32): LocalHeader
    requires |name| < TWO_16 && |data| < MAX_U32
  {
    LocalHeader(version, flags, STORE, 0, 0, crc, |data|, |data|, |name|, 0)
  }

  lemma StoredEntryNext(inflate: Inflater, name: Bytes, data: Bytes, version: u16, flags: u16, crc: u32, after: Bytes)
    requires |name| < TWO_16 && |data| < MAX_U32
    requires !Bit(flags, 0) && !Bit(flags, 3)
    ensures var e := EntryOf(StoredHeader(name, data, version, flags, crc), name, []);
      && e.Ok?
      && NextSpec(inflate, ReaderState(StoredEntryBytes(name, data, version, flags, crc) + after, false, None, false))
           == (ReaderState(data + after, false, Some(e.value), true), Ok(e.value))
  {
    var h := StoredHeader(name, data, version, flags, crc);
    var all := StoredEntryBytes(name, data, version, flags, crc) + after;
    StoredBytesSplit(name, data, version, flags, crc, after);
    ReadStoredEntry(h, name, data + after);
    NextAtLocalHeader(inflate, all);
    ZeroExtraScansNothing([], Sizes(false, false, |data|, |data|));
  }

  /** `Next` on a fresh reader positioned at a local file header signature. */
  lemma NextAtLocalHeader(inflate: Inflater, rest: Bytes)
    requires |rest| >= 4 && LE32(rest[..4]) == FILE_HEADER_SIGNATURE
    ensures var (r3, entry) := ReadEntrySpec(rest[4..]);
      NextSpec(inflate, ReaderState(rest, false, None, false))
        == if entry.Err? then (ReaderState(r3, false, None, false), Err(Wrapped(LocalHeaderRead, entry.error)))
           else (ReaderState(r3, false, Some(entry.value), true), Ok(entry.value))
  {
  }

  /** The entry bytes are the signature, the encoded header, then the name. */
  lemma StoredBytesSplit(name: Bytes, data: Bytes, version: u16, flags: u16, crc: u32, after: Bytes)
    requires |name| < TWO_16 && |data| < MAX_U32
    ensures var all := StoredEntryBytes(name, data, version, flags, crc) + after;
      && |all| >= 4 && LE32(all[..4]) == FILE_HEADER_SIGNATURE
      && all[4..] == EncodeLocalHeader(LocalHeader(version, flags, STORE, 0, 0, crc, |data|, |data|, |name|, 0)) + name + (data + after)
  {
    Pow256Values();
    var h := LocalHeader(version, flags, STORE, 0, 0, crc, |data|, |data|, |name|, 0);
    var sigBytes := ToLE(FILE_HEADER_SIGNATURE, 4);
    var all := StoredEntryBytes(name, data, version, flags, crc) + after;
    var r1 := EncodeLocalHeader(h) + name + (data + after);
    assert all == sigBytes + r1;
    assert all[..4] == sigBytes && all[4..] == r1;
    DecodersInvertEncoders(0, FILE_HEADER_SIGNATURE, 0);
  }

  /** `readEntry` on an encoded header with no extra area. */
  lemma ReadStoredEntry(h: LocalHeader, name: Bytes, more: Bytes)
    requires h.nameLen == |name| && h.extraLen == 0
    ensures ReadEntrySpec(EncodeLocalHeader(h) + name + more) == (more, EntryOf(h, name, []))
  {
    var r1 := EncodeLocalHeader(h) + name + more;
    var r2 := name + more;
    assert r1 == EncodeLocalHeader(h) + r2;
    assert r1[..26] == EncodeLocalHeader(h) && r1[26..] == r2;
    DecodeEncodeLocalHeader(h);
    assert r2[..|name|] == name && r2[|name|..] == more;
    assert r2[..|name|][..|name|] == name && r2[..|name|][|name|..] == [];
  }

  /** A directory entry is one whose name ends in '/'. */
  lemma IsDirOfName(e: Entry, p: Bytes, c: byte)
    requires e.header.name == p + [c]
    ensures IsDir(e) <==> c == '/' as byte
  {
  }

  /** An entry with an empty name is not a directory. */
  lemma EmptyNameIsNotDir(e: Entry)
    requires e.header.name == []
    ensures !IsDir(e)
  {
  }

  /** A successful `Next` leaves its entry current with unread data, and has
      consumed at least the signature and the fixed header. */
  lemma NextOkAdvances(inflate: Inflater, st: ReaderState)
    ensures var (st1, r) := NextSpec(inflate, st);
      r.Ok? ==> st1.cur == Some(r.value) && st1.pending && !st1.localFileEnd
                && |st1.rest| + HEADER_IDENTIFIER_LEN + FILE_HEADER_LEN <= |st.rest|
  {
  }

  /** Reading the contents never lengthens the stream. */
  lemma ContentsShrinks(inflate: Inflater, st: ReaderState)
    requires st.cur.Some?
    ensures var (st1, _) := Contents(inflate, st);
      |st1.rest| <= |st.rest| && st1.cur == st.cur && !st1.localFileEnd == !st.localFileEnd
  {
  }

  /** With the current entry fully read and no data descriptor to skip, `Next`
      returns what it returns on a fresh reader over the same bytes, and on
      success reaches the same state. */
  lemma NextWhenIdle(inflate: Inflater, st: ReaderState)
    requires !st.localFileEnd && st.cur.Some? && !st.pending && !HasDataDescriptor(st.cur.value)
    ensures var (st1, r) := NextSpec(inflate, st);
      var (fresh1, fr) := NextSpec(inflate, ReaderState(st.rest, false, None, false));
      r == fr && (r.Ok? ==> st1 == fresh1)
  {
  }
}
