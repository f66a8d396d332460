/** The streaming reader: a shared chunk and offset with push-back, drained by a consumer that takes
    every piece of every file, as the archive extraction does. */
module ZipReader {
  import opened Wrappers
  import opened Bytes
  import opened ZipFormat
  import opened ZipReaderSpec
  import Crc32

  lemma {:induction false} FirstChunk(it: seq<Bytes>)
    requires it != []
    ensures Concat(it) == it[0][0..] + Concat(it[1..])
    ensures EndsEmpty(it) == if |it| == 1 then it[0] == [] else EndsEmpty(it[1..])
  {
  }

  function Min(a: nat, b: nat): nat
  {
    if a < b then a else b
  }

  class ByteReader {
    const chunkSize: nat
    ghost const surplus: bool  // whether the source ends in an empty chunk
    var chunk: Bytes
    var offset: nat
    var it: seq<Bytes>

    ghost var rest: Bytes  // the unread bytes: what is left of the chunk, then the chunks to come
    ghost var last: Bytes  // the most recent piece, which may still be pushed back

    ghost predicate InBounds()
      reads this
    {
      && 1 <= chunkSize
      && offset <= |chunk|
      && rest == chunk[offset..] + Concat(it)
      && |last| <= offset && last == chunk[offset - |last|..offset]
      && (it != [] ==> surplus == EndsEmpty(it))
      && (it == [] && chunk != [] ==> !surplus)
    }

    /** Between operations no trailing empty chunk has been taken off the source. */
    ghost predicate Settled()
      reads this
    {
      InBounds() && (it == [] ==> !surplus)
    }

    constructor (chunks: seq<Bytes>, chunkSize: nat)
      requires 1 <= chunkSize
      ensures Settled() && rest == Concat(chunks)
      ensures surplus == EndsEmpty(chunks) && this.chunkSize == chunkSize
    {
      this.chunkSize := chunkSize;
      surplus := EndsEmpty(chunks);
      chunk, offset, it := [], 0, chunks;
      rest, last := Concat(chunks), [];
    }

    /** Fetches a chunk if the current one is used up; fails when the source is exhausted. */
    method Refill() returns (more: bool)
      requires InBounds()
      modifies this
      ensures InBounds() && rest == old(rest)
      ensures more <==> old(offset < |chunk| || it != [])
      ensures !more ==> rest == []
      ensures if old(offset < |chunk|) then it == old(it) && offset < |chunk|
              else |it| + (if more then 1 else 0) == |old(it)|
    {
      if offset == |chunk| {
        if it == [] {
          return false;
        }
        FirstChunk(it);
        assert chunk[offset..] == [];
        chunk, it, offset := it[0], it[1..], 0;
        last := [];
      }
      return true;
    }

    /** The step both generators share: at most `most` bytes of the current chunk. */
    method Take(most: nat) returns (more: bool, piece: Bytes)
      requires InBounds() && most > 0
      modifies this
      ensures InBounds()
      ensures more <==> old(offset < |chunk| || it != [])
      ensures !more ==> old(rest) == []
      ensures more ==> piece + rest == old(rest) && last == piece && |piece| <= most
      ensures piece != [] ==> Settled()
      ensures |rest| + |it| + (if more then 1 else 0) <= old(|rest| + |it|)
    {
      piece := [];
      more := Refill();
      if more {
        var toYield := Min(Min(|chunk| - offset, chunkSize), most);
        piece := chunk[offset..offset + toYield];
        Regroup(chunk, offset, offset + toYield, Concat(it));
        offset := offset + toYield;
        rest, last := chunk[offset..] + Concat(it), piece;
      }
    }

    /** One resumption of `_yield_all`: the next piece, or nothing when the source is exhausted. */
    method NextPiece() returns (more: bool, piece: Bytes)
      requires InBounds()
      modifies this
      ensures InBounds()
      ensures more <==> old(offset < |chunk| || it != [])
      ensures !more ==> old(rest) == []
      ensures more ==> piece + rest == old(rest) && last == piece
      ensures piece != [] ==> Settled()
      ensures |rest| + |it| + (if more then 1 else 0) <= old(|rest| + |it|)
    {
      more, piece := Take(chunkSize);
    }

    /** `_get_num`: exactly `num` bytes, or nothing when the source ends first. */
    method GetNum(num: nat) returns (r: Option<Bytes>)
      requires Settled()
      modifies this
      ensures r.None? <==> |old(rest)| < num
      ensures r.Some? ==> |r.value| == num && r.value + rest == old(rest) && Settled()
    {
      var left: nat, got: Bytes := num, [];
      while left > 0
        invariant left <= num && InBounds() && (left == 0 ==> Settled())
        invariant |got| == num - left && got + rest == old(rest)
        decreases left + |rest| + |it|
      {
        var more, piece := Take(left);
        if !more {
          return None;
        }
        Associative(got, piece, rest);
        left := left - |piece|;
        got := got + piece;
      }
      return Some(got);
    }

    /** `_return_unused`: at most the last piece is pushed back, so the offset never falls below zero. */
    method ReturnUnused(num: nat)
      requires InBounds() && num <= |last|
      modifies this
      ensures InBounds() && rest == old(last[|last| - num..]) + old(rest)
      ensures chunk == old(chunk) && it == old(it)
    {
      assert last[|last| - num..] == chunk[offset - num..offset];
      rest := chunk[offset - num..offset] + rest;
      offset, last := offset - num, [];
    }
  }

  /** Taking the first `n` bytes of a piece off the stream. */
  lemma {:induction false} Advance(all: Bytes, k: nat, piece: Bytes, n: nat, after: Bytes)
    requires k <= |all| && n <= |piece| && piece + after == all[k..]
    ensures k + n <= |all|
    ensures all[..k] + piece[..n] == all[..k + n] && piece[n..] + after == all[k + n..]
  {
    assert all[k..][..n] == piece[..n] && all[k..][n..] == piece[n..] + after;
  }

  /** Between operations, running dry means the source has only its trailing empty chunks left. */
  lemma {:induction false} SourceState(reader: ByteReader)
    requires reader.Settled()
    ensures reader.rest == [] ==> reader.offset == |reader.chunk|
    ensures reader.rest == [] ==> (reader.it == [] <==> !reader.surplus)
    ensures reader.offset == |reader.chunk| && reader.it == [] ==> reader.rest == []
  {
    ConcatEmpty(reader.it);
  }

  /** The pieces of one file, "decompressed" by copying and summed as they arrive; what the last piece
      holds beyond the file's end is returned to the reader. A size of `None` raises a TypeError in the
      arithmetic on the first piece. */
  method Deliver(reader: ByteReader, size: Option<U64>) returns (content: Bytes, crc: U32, error: Option<Error>)
    requires reader.Settled()
    modifies reader
    ensures size.None? ==>
              && content == []
              && error == Some(if old(reader.rest) == [] && !reader.surplus then TruncatedData else UnknownSize)
    ensures size.Some? && |old(reader.rest)| < size.value ==>
              content == old(reader.rest) && error == Some(TruncatedData)
    ensures size.Some? && size.value <= |old(reader.rest)| ==>
              && content == old(reader.rest)[..size.value] && error == None
              && reader.Settled() && reader.rest == old(reader.rest)[size.value..]
              && crc == Crc32.Crc(content)
  {
    hide Concat, EndsEmpty, Crc32.Update, Crc32.Crc, ByteReader.InBounds;
    var numDecompressed: nat, numUnused: nat := 0, 0;
    content, crc, error := [], 0, None;
    Crc32.CrcOfNothing();
    SourceState(reader);
    if size.None? {
      // `num_decompressed == None` never holds, and the first piece fails
      var more, _ := reader.NextPiece();
      return [], 0, Some(if more then UnknownSize else TruncatedData);
    }
    ghost var all, cut := reader.rest, |reader.last|;  // the last piece is used up to `cut`
    while numDecompressed != size.value
      invariant reader.InBounds() && 0 <= cut && cut + numUnused == |reader.last|
      invariant numDecompressed <= size.value && numDecompressed <= |all|
      invariant content == all[..numDecompressed]
      invariant if numDecompressed == size.value then reader.Settled() else numUnused == 0
      invariant reader.last[cut..] + reader.rest == all[numDecompressed..]
      invariant crc == Crc32.Crc(content)
      decreases |reader.rest| + |reader.it|
    {
      assert reader.last[cut..] + reader.rest == reader.rest;
      var more, piece := reader.NextPiece();
      if !more {
        return content, crc, Some(TruncatedData);
      }
      var toYield := Min(|piece|, size.value - numDecompressed);
      var out := piece[..toYield];
      Advance(all, numDecompressed, piece, toYield, reader.rest);
      Crc32.UpdateConcat(0, content, out);
      crc := Crc32.Update(crc, out);
      content := content + out;
      numDecompressed := numDecompressed + toYield;
      numUnused := |piece| - toYield;
      cut := toYield;
    }
    assert |reader.last| - numUnused == cut;
    reader.ReturnUnused(numUnused);
  }

  lemma {:induction false} ParseExtraStep(extra: Bytes, offset: nat, sofar: map<Bytes, Bytes>)
    requires offset + 4 <= |extra|
    ensures var tag, n := extra[offset..offset + 2], WordAt(extra, offset + 2);
            var next := offset + 4 + n;
            ParseExtraInto(extra[offset..], sofar)
            == ParseExtraInto(if next <= |extra| then extra[next..] else [],
                              sofar[tag := extra[offset + 4..Min(next, |extra|)]])
  {
    var left := extra[offset..];
    assert left[2..4] == extra[offset + 2..offset + 4] && left[..2] == extra[offset..offset + 2];
    var end := Min(offset + 4 + WordAt(extra, offset + 2), |extra|);
    assert left[4..end - offset] == extra[offset + 4..end] && left[end - offset..] == extra[end..];
  }

  /** `parse_extra` collected into a dictionary. */
  method CollectExtra(extra: Bytes) returns (extras: map<Bytes, Bytes>)
    ensures extras == ParseExtra(extra)
  {
    extras := map[];
    var offset: nat := 0;
    while offset + 4 <= |extra|
      invariant ParseExtra(extra) == ParseExtraInto(if offset <= |extra| then extra[offset..] else [], extras)
      decreases |extra| - offset
    {
      var tag := extra[offset..offset + 2];
      var n := WordAt(extra, offset + 2);
      ParseExtraStep(extra, offset, extras);
      extras := extras[tag := extra[offset + 4..Min(offset + 4 + n, |extra|)]];
      offset := offset + 4 + n;
    }
  }

  /** A descriptor in the two pieces it is fetched in. */
  lemma {:induction false} DescriptorPieces(signature: Bytes, second: Bytes, rest: Bytes, zip64: bool)
    requires |signature| == 4
    requires |second| == (if zip64 then 20 else 12) - if signature == DESCRIPTOR_SIGNATURE then 0 else 4
    ensures var sofar := if signature == DESCRIPTOR_SIGNATURE then [] else signature;
      ParseDescriptor(signature + (second + rest), zip64) == Got(DwordAt(sofar + second, 0), rest)
  {
    hide FromLE;
    var data := signature + (second + rest);
    assert data[..4] == signature;
    var sofar := if signature == DESCRIPTOR_SIGNATURE then [] else signature;
    var start := 4 - |sofar|;
    assert data[start..start + 4] == (sofar + second)[0..4];
    assert data[4 + |second|..] == rest;
  }

  /** Too few bytes for a descriptor. */
  lemma {:induction false} DescriptorCut(signature: Bytes, rest: Bytes, zip64: bool)
    requires |signature| == 4
    requires |rest| < (if zip64 then 20 else 12) - if signature == DESCRIPTOR_SIGNATURE then 0 else 4
    ensures ParseDescriptor(signature + rest, zip64) == Bad(TruncatedData)
  {
    assert (signature + rest)[..4] == signature;
  }

  /** The checksum the content is compared with: from the header, or read from behind the content. */
  method GetExpectedCrc(reader: ByteReader, header: Header) returns (r: Result<U32, Error>)
    requires reader.Settled()
    modifies reader
    ensures match ExpectedCrc(header, old(reader.rest))
            case Got(crc, rest) => r == Ok(crc) && reader.Settled() && reader.rest == rest
            case Bad(e) => r == Err(e)
  {
    hide ByteReader.Settled, ByteReader.InBounds, FromLE;
    if !header.descriptor {
      return Ok(header.crc);
    }
    var signature := reader.GetNum(4);
    if signature.None? {
      return Err(TruncatedData);
    }
    hide ParseDescriptor;
    ghost var behind := reader.rest;
    var sofar := if signature.value == DESCRIPTOR_SIGNATURE then [] else signature.value;
    var rest := reader.GetNum((if header.zip64 then 20 else 12) - |sofar|);
    if rest.None? {
      DescriptorCut(signature.value, behind, header.zip64);
      return Err(TruncatedData);
    }
    DescriptorPieces(signature.value, rest.value, reader.rest, header.zip64);
    var descriptor := sofar + rest.value;
    return Ok(DwordAt(descriptor, 0));
  }

  /** The local header, its name and its extra field. */
  method ReadHeader(reader: ByteReader) returns (r: Result<Header, Error>)
    requires reader.Settled()
    modifies reader
    ensures match ParseHeader(old(reader.rest))
            case Got(header, rest) => r == Ok(header) && reader.Settled() && reader.rest == rest
            case Bad(e) => r == Err(e)
  {
    hide ByteReader.Settled, ByteReader.InBounds, Interpret, FromLE, ParseExtra;
    var fixed := reader.GetNum(LOCAL_SIZE);
    if fixed.None? {
      return Err(TruncatedData);
    }
    var b := fixed.value;
    SameFields(b, reader.rest);
    var flags := b[2..4];
    if Unsupported(flags) {
      return Err(UnsupportedFlags);
    }
    var name := reader.GetNum(WordAt(b, 22));
    if name.None? {
      return Err(TruncatedData);
    }
    var extra := reader.GetNum(WordAt(b, 24));
    if extra.None? {
      return Err(TruncatedData);
    }
    var extras := CollectExtra(extra.value);
    HeaderParts(b, name.value, extra.value, reader.rest);
    return Interpret(flags, WordAt(b, 4), DwordAt(b, 10), DwordAt(b, 14), DwordAt(b, 18), name.value, extras);
  }

  /** `yield_file` followed by the consumer draining the file's content. */
  method YieldFile(reader: ByteReader) returns (file: Option<File>, error: Option<Error>)
    requires reader.Settled()
    modifies reader
    ensures match ReadEntry(old(reader.rest), reader.surplus)
            case Rejected(e) => file == None && error == Some(e)
            case Broken(f, e) => file == Some(f) && error == Some(e)
            case Whole(f, rest) => file == Some(f) && error == None && reader.Settled() && reader.rest == rest
  {
    var parsed := ReadHeader(reader);
    if parsed.Err? {
      return None, Some(parsed.error);
    }
    var header := parsed.value;
    var content, crc, failure := Deliver(reader, header.size);
    file := Some(File(header.name, header.size, content));
    if failure.Some? {
      return file, failure;
    }
    var expected := GetExpectedCrc(reader, header);
    match expected
    case Err(e) => return file, Some(e);
    case Ok(c) => return file, if c != crc then Some(CRC32Integrity) else None;
  }

  function Prepend(files: seq<File>, later: Extraction): Extraction
  {
    Extraction(files + later.files, later.outcome)
  }

  lemma {:induction false} PrependOne(files: seq<File>, file: File, later: Extraction)
    ensures Prepend(files, Prepend([file], later)) == Prepend(files + [file], later)
  {
    assert files + ([file] + later.files) == files + [file] + later.files;
  }

  /** The whole run: however the archive is cut into chunks, only its bytes decide the outcome, except
      for one bit, whether the source ends in an empty chunk. */
  method Unzip(chunks: seq<Bytes>, chunkSize: nat) returns (r: Extraction)
    requires 1 <= chunkSize
    ensures r == Extract(Concat(chunks), EndsEmpty(chunks))
  {
    var reader := new ByteReader(chunks, chunkSize);
    var files: seq<File> := [];
    ghost var whole := Extract(Concat(chunks), EndsEmpty(chunks));
    while true
      invariant reader.Settled() && fresh(reader) && reader.surplus == EndsEmpty(chunks)
      invariant whole == Prepend(files, Extract(reader.rest, reader.surplus))
      decreases |reader.rest|
    {
      ghost var all := reader.rest;
      var signature := reader.GetNum(4);
      if signature.None? {
        return Extraction(files, Failed(TruncatedData));
      }
      if signature.value == LOCAL_SIGNATURE {
        var file, error := YieldFile(reader);
        if file.Some? {
          PrependOne(files, file.value, Extract(reader.rest, reader.surplus));
          files := files + [file.value];
        }
        if error.Some? {
          return Extraction(files, Failed(error.value));
        }
      } else if signature.value == CENTRAL_SIGNATURE {
        var more := true;
        while more
          invariant reader.InBounds()
          decreases |reader.rest| + |reader.it|, more
        {
          var piece: Bytes;
          more, piece := reader.NextPiece();
        }
        return Extraction(files, Finished);
      } else {
        return Extraction(files, Failed(UnexpectedSignature(signature.value)));
      }
    }
  }
}
