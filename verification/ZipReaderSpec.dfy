/** What the streaming reader extracts from an archive, as a function of the archive's bytes alone. */
module ZipReaderSpec {
  import opened Wrappers
  import opened Bytes
  import opened ZipFormat
  import Crc32

  datatype Error =
    | TruncatedData
    | UnexpectedSignature(signature: Bytes)
    | UnsupportedFlags
    | UnsupportedCompression(compression: U16)
    | MissingZip64Extra
    | TruncatedZip64Extra
    | CRC32Integrity
    | UnknownSize  // Python's TypeError on a size that is None

  datatype Outcome = Finished | Failed(error: Error)

  /** A file handed to the consumer, with the content delivered before the next file or the failure. */
  datatype File = File(name: Bytes, size: Option<U64>, content: Bytes)

  datatype Extraction = Extraction(files: seq<File>, outcome: Outcome)

  datatype Header = Header(name: Bytes, size: Option<U64>, crc: U32, descriptor: bool, zip64: bool)

  /** Bytes of a local header after its signature, for the reader's `<H2sHHHIIIHH`. */
  const LOCAL_SIZE: nat := 26

  datatype Parsed<T> = Got(value: T, rest: Bytes) | Bad(error: Error)

  predicate Bit(b: Byte, weight: nat)
    requires weight > 0
  {
    b / weight % 2 == 1
  }

  /** Bits 4, 5, 6 and 13 of the general purpose flags. */
  predicate Unsupported(flags: Bytes)
    requires |flags| == 2
  {
    Bit(flags[0], 16) || Bit(flags[0], 32) || Bit(flags[0], 64) || Bit(flags[1], 32)
  }

  /** The decisions taken on a local header once its name and extra field have been read. */
  function Interpret(flags: Bytes, compression: U16, crc: U32, compressed: U32, uncompressed: U32,
                     name: Bytes, extras: map<Bytes, Bytes>): Result<Header, Error>
    requires |flags| == 2
  {
    if compression !in {0, 8, 9} then Err(UnsupportedCompression(compression))
    else
      var descriptor := Bit(flags[0], 8);
      var zip64 := compressed == MAX32 && uncompressed == MAX32;
      if !descriptor && zip64 && ZIP64_EXTRA !in extras then Err(MissingZip64Extra)
      else if !descriptor && zip64 && |extras[ZIP64_EXTRA]| < 16 then Err(TruncatedZip64Extra)
      else if descriptor && compression != 0 then Ok(Header(name, None, crc, descriptor, zip64))
      else if descriptor && zip64 then Err(UnknownSize)
      else if zip64 then
        Ok(Header(name, Some(QwordAt(extras[ZIP64_EXTRA], 0)), crc, descriptor, zip64))
      else Ok(Header(name, Some(uncompressed), crc, descriptor, zip64))
  }

  function ParseHeader(data: Bytes): (r: Parsed<Header>)
    ensures r.Got? ==> |r.rest| < |data|
  {
    if |data| < LOCAL_SIZE then Bad(TruncatedData)
    else
      var flags := data[2..4];
      if Unsupported(flags) then Bad(UnsupportedFlags)
      else
        var nameEnd := LOCAL_SIZE + WordAt(data, 22);
        var extraEnd := nameEnd + WordAt(data, 24);
        if |data| < extraEnd then Bad(TruncatedData)
        else
          var extras := ParseExtra(data[nameEnd..extraEnd]);
          match Interpret(flags, WordAt(data, 4), DwordAt(data, 10), DwordAt(data, 14), DwordAt(data, 18),
                          data[LOCAL_SIZE..nameEnd], extras)
          case Ok(header) => Got(header, data[extraEnd..])
          case Err(e) => Bad(e)
  }

  /** The fixed part of a header reads the same on its own as at the front of the stream. */
  lemma {:induction false} SameFields(b: Bytes, rest: Bytes)
    requires LOCAL_SIZE <= |b|
    ensures var all := b + rest;
            && b[2..4] == all[2..4]
            && WordAt(b, 4) == WordAt(all, 4)
            && DwordAt(b, 10) == DwordAt(all, 10)
            && DwordAt(b, 14) == DwordAt(all, 14)
            && DwordAt(b, 18) == DwordAt(all, 18)
            && WordAt(b, 22) == WordAt(all, 22)
            && WordAt(b, 24) == WordAt(all, 24)
  {
    SliceLeft(b, rest, 2, 4);
    SliceLeft(b, rest, 4, 6);
    SliceLeft(b, rest, 10, 14);
    SliceLeft(b, rest, 14, 18);
    SliceLeft(b, rest, 18, 22);
    SliceLeft(b, rest, 22, 24);
    SliceLeft(b, rest, 24, 26);
  }

  /** The variable parts of a header, cut out of the stream. */
  lemma {:induction false} HeaderParts(b: Bytes, name: Bytes, extra: Bytes, rest: Bytes)
    ensures var all := b + (name + (extra + rest));
            var nameEnd, extraEnd := |b| + |name|, |b| + |name| + |extra|;
            all[|b|..nameEnd] == name && all[nameEnd..extraEnd] == extra && all[extraEnd..] == rest
  {
  }

  /** A header in its parts, with enough bytes for each. */
  lemma {:induction false} HeaderRead(b: Bytes, name: Bytes, extra: Bytes, rest: Bytes)
    requires |b| == LOCAL_SIZE && !Unsupported(b[2..4]) && WordAt(b, 22) == |name| && WordAt(b, 24) == |extra|
    ensures ParseHeader(b + (name + (extra + rest)))
         == match Interpret(
                b[2..4], WordAt(b, 4), DwordAt(b, 10), DwordAt(b, 14), DwordAt(b, 18), name, ParseExtra(extra))
            case Ok(header) => Got(header, rest)
            case Err(e) => Bad(e)
  {
    hide Interpret, ParseExtra, WordAt, DwordAt, Unsupported;
    SameFields(b, name + (extra + rest));
    HeaderParts(b, name, extra, rest);
  }

  /** The checksum stored after the content of an entry with a data descriptor. */
  function ParseDescriptor(data: Bytes, zip64: bool): (r: Parsed<U32>)
    ensures r.Got? ==> |r.rest| <= |data|
  {
    if |data| < 4 then Bad(TruncatedData)
    else
      var start := if data[..4] == DESCRIPTOR_SIGNATURE then 4 else 0;
      var end := start + if zip64 then 20 else 12;
      if |data| < end then Bad(TruncatedData)
      else
        Got(DwordAt(data, start), data[end..])
  }

  function ExpectedCrc(header: Header, data: Bytes): (r: Parsed<U32>)
    ensures r.Got? ==> |r.rest| <= |data|
  {
    if header.descriptor then ParseDescriptor(data, header.zip64) else Got(header.crc, data)
  }

  datatype Entry =
    | Rejected(error: Error)               // no file reached the consumer
    | Broken(file: File, error: Error)     // the file was handed out and then failed
    | Whole(file: File, rest: Bytes)

  function CheckContent(header: Header, content: Bytes, data: Bytes): (r: Entry)
    ensures r.Whole? ==> |r.rest| <= |data|
  {
    var file := File(header.name, header.size, content);
    match ExpectedCrc(header, data)
    case Bad(e) => Broken(file, e)
    case Got(crc, rest) => if Crc32.Crc(content) == crc then Whole(file, rest) else Broken(file, CRC32Integrity)
  }

  /** Content and checksum of an entry. `surplus` says whether an empty chunk is still to come when
      the bytes have run out, which only matters to an entry whose size is unknown. */
  function ReadContent(header: Header, data: Bytes, surplus: bool): (r: Entry)
    ensures r.Whole? ==> |r.rest| <= |data|
  {
    match header.size
    case None =>
      Broken(File(header.name, None, []), if data == [] && !surplus then TruncatedData else UnknownSize)
    case Some(n) =>
      if |data| < n then Broken(File(header.name, header.size, data), TruncatedData)
      else CheckContent(header, data[..n], data[n..])
  }

  /** One entry, from just after its signature. */
  function ReadEntry(data: Bytes, surplus: bool): (r: Entry)
    ensures r.Whole? ==> |r.rest| < |data|
  {
    match ParseHeader(data)
    case Bad(e) => Rejected(e)
    case Got(header, rest) => ReadContent(header, rest, surplus)
  }

  /** The whole run of the reader over an archive. */
  function Extract(data: Bytes, surplus: bool): Extraction
    decreases |data|
  {
    if |data| < 4 then Extraction([], Failed(TruncatedData))
    else if data[..4] == LOCAL_SIGNATURE then
      match ReadEntry(data[4..], surplus)
      case Rejected(e) => Extraction([], Failed(e))
      case Broken(file, e) => Extraction([file], Failed(e))
      case Whole(file, rest) =>
        var later := Extract(rest, surplus);
        Extraction([file] + later.files, later.outcome)
    else if data[..4] == CENTRAL_SIGNATURE then Extraction([], Finished)
    else Extraction([], Failed(UnexpectedSignature(data[..4])))
  }

  /** Whether a chunked stream ends in an empty chunk. */
  predicate EndsEmpty(chunks: seq<Bytes>)
  {
    chunks != [] && chunks[|chunks| - 1] == []
  }
}
