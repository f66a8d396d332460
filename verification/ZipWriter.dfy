/** The streaming writer: a running offset, a directory filled in as members are written, and output
    re-cut into even blocks. */
module ZipWriter {
  import opened Wrappers
  import opened Bytes
  import opened Struct
  import opened ZipFormat
  import opened ZipWriterSpec
  import Crc32

  /** A file to be archived, its content still in chunks. */
  datatype Source = Source(name: Bytes, modifiedAt: Time, perms: U16, mode: Mode, chunks: seq<Bytes>)

  function MemberOf(s: Source): Member
  {
    Member(s.name, s.modifiedAt, s.perms, s.mode, Concat(s.chunks))
  }

  function MembersOf(sources: seq<Source>): seq<Member>
  {
    seq(|sources|, i requires 0 <= i < |sources| => MemberOf(sources[i]))
  }

  /** Nothing of a source is lost on the way into the archive. */
  lemma {:induction false} MembersAsGiven(sources: seq<Source>)
    ensures var ms := MembersOf(sources);
      && |ms| == |sources|
      && forall i :: 0 <= i < |sources| ==>
           && ms[i].name == sources[i].name && ms[i].modifiedAt == sources[i].modifiedAt
           && ms[i].perms == sources[i].perms && ms[i].mode == sources[i].mode
           && ms[i].content == Concat(sources[i].chunks)
  {
  }

  /** All blocks but the last have exactly the given size, and none is empty. */
  predicate Even(blocks: seq<Bytes>, size: nat)
  {
    forall i :: 0 <= i < |blocks| ==> 0 < |blocks[i]| <= size && (i + 1 < |blocks| ==> |blocks[i]| == size)
  }

  /** All there is of the given size, where only less than that is missing at the end. */
  predicate FullBlocks(blocks: seq<Bytes>, bytes: Bytes, size: nat)
  {
    && (forall i :: 0 <= i < |blocks| ==> |blocks[i]| == size)
    && Concat(blocks) <= bytes && |bytes| < |Concat(blocks)| + size
  }

  /** The chunk and offset shared by the resumptions of `up_to`; the source may fail behind its last chunk. */
  class ChunkSource {
    const failing: bool
    var chunk: Bytes
    var offset: nat
    var it: seq<Bytes>
    ghost var rest: Bytes

    ghost predicate Valid()
      reads this
    {
      offset <= |chunk| && rest == chunk[offset..] + Concat(it)
    }

    constructor (chunks: seq<Bytes>, failing: bool)
      ensures Valid() && rest == Concat(chunks) && this.failing == failing
    {
      this.failing := failing;
      chunk, offset, it, rest := [], 0, chunks, Concat(chunks);
    }

    /** Fetches a chunk if the current one is used up; fails when the source is exhausted. */
    method Refill() returns (more: bool)
      requires Valid()
      modifies this
      ensures Valid() && rest == old(rest)
      ensures !more ==> rest == []
      ensures |it| + (if more && offset == |chunk| then 1 else 0) <= |old(it)|
    {
      if offset == |chunk| {
        assert chunk[offset..] == [];
        if it == [] {
          return false;
        }
        assert it[0][0..] == it[0];
        chunk, it, offset := it[0], it[1..], 0;
      }
      return true;
    }

    /** The next bytes of the current chunk. */
    method Advance(n: nat) returns (piece: Bytes)
      requires Valid() && offset + n <= |chunk|
      modifies this`offset, this`rest
      ensures Valid() && offset == old(offset) + n && piece + rest == old(rest) && |piece| == n
    {
      Regroup(chunk, offset, offset + n, Concat(it));
      piece := chunk[offset..offset + n];
      offset := offset + n;
      rest := chunk[offset..] + Concat(it);
    }

    /** `b"".join(up_to(num))`: the next `num` bytes, or all there are unless the source fails behind them. */
    method UpTo(num: nat) returns (block: Bytes, failed: bool)
      requires Valid()
      modifies this
      ensures Valid()
      ensures block + rest == old(rest)
      ensures |block| <= num && (|block| < num ==> rest == [])
      ensures failed <==> failing && |block| < num
    {
      hide Concat;
      block, failed := [], false;
      var left: nat := num;
      while left > 0
        invariant Valid() && |block| + left == num && block + rest == old(rest) && !failed
        decreases left + |it|
      {
        var more := Refill();
        if !more {
          return block, failing;
        }
        var toYield := if left < |chunk| - offset then left else |chunk| - offset;
        var piece := Advance(toYield);
        Associative(block, piece, rest);
        block := block + piece;
        left := left - toYield;
      }
    }
  }

  lemma {:induction false} NoBlocks(size: nat)
    ensures Even([], size)
  {
  }

  lemma {:induction false} EvenSnoc(blocks: seq<Bytes>, block: Bytes, size: nat)
    requires block != [] && |block| <= size && forall i :: 0 <= i < |blocks| ==> |blocks[i]| == size
    ensures Even(blocks + [block], size)
    ensures |block| == size ==> forall i :: 0 <= i < |blocks + [block]| ==> |(blocks + [block])[i]| == size
  {
  }

  /** `evenly_sized`, drained: the same bytes in blocks of the given size; of a source that fails, those blocks that
      are full. */
  method EvenlySized(chunks: seq<Bytes>, failing: bool, size: nat) returns (blocks: seq<Bytes>)
    requires 1 <= size
    ensures !failing ==> Concat(blocks) == Concat(chunks) && Even(blocks, size)
    ensures failing ==> FullBlocks(blocks, Concat(chunks), size)
  {
    hide Concat, Even;
    ConcatOfNothing();
    NoBlocks(size);
    var source := new ChunkSource(chunks, failing);
    blocks := [];
    var block, failed := source.UpTo(size);
    while block != [] && !failed
      invariant source.Valid() && fresh(source) && source.failing == failing
      invariant Concat(blocks) + (block + source.rest) == Concat(chunks)
      invariant |block| <= size && (|block| < size ==> source.rest == [])
      invariant failed <==> failing && |block| < size
      invariant Even(blocks, size)
      invariant block != [] || failing ==> forall i :: 0 <= i < |blocks| ==> |blocks[i]| == size
      decreases |block| + |source.rest|
    {
      ConcatSnoc(blocks, block);
      Associative(Concat(blocks), block, source.rest);
      EvenSnoc(blocks, block, size);
      blocks := blocks + [block];
      block, failed := source.UpTo(size);
    }
    assert source.rest == [] && block + [] == block;
    if failing {
      assert FullBlocks(blocks, Concat(chunks), size);
    }
  }

  /** A central directory entry waiting to be written: header, name and extra field. */
  datatype Record = Record(header: Bytes, name: Bytes, extra: Bytes)

  /** No record is longer than this. */
  const RECORD_LIMIT: nat := 0x2_0000

  function RecordOf(e: Entry, offset: U64): Record
    requires Recordable(e) && offset <= Maximum(e.mode)
  {
    Record(Pack(CentralFields(e, offset)), e.name, CentralExtra(e, offset))
  }

  function RecordBytes(r: Record): Bytes
  {
    CENTRAL_SIGNATURE + (r.header + (r.name + r.extra))
  }

  /** Each record stands for a member. */
  predicate Matching(records: seq<Record>, ps: seq<Placed>)
    requires AllFit(ps)
  {
    |records| == |ps| && forall i :: 0 <= i < |ps| ==> RecordBytes(records[i]) == CentralEntry(ps[i])
  }

  lemma {:induction false} MatchingSnoc(records: seq<Record>, ps: seq<Placed>, r: Record, p: Placed)
    requires AllFit(ps) && Matching(records, ps)
    requires CheckMember(p) == None && RecordBytes(r) == CentralEntry(p)
    ensures AllFit(ps + [p]) && Matching(records + [r], ps + [p])
  {
    hide RecordBytes, CentralEntry, CheckMember;
  }

  lemma {:induction false} RecordOfMember(p: Placed)
    requires CheckMember(p) == None
    ensures RecordBytes(RecordOf(EntryOf(p.member), p.offset)) == CentralEntry(p)
    ensures |CentralEntry(p)| <= RECORD_LIMIT
  {
  }

  function Flatten(records: seq<Record>): Bytes
  {
    if records == [] then [] else RecordBytes(records[0]) + Flatten(records[1..])
  }

  lemma {:induction false} FlattenOfNothing()
    ensures Flatten([]) == []
  {
  }

  lemma {:induction false} FlattenMatching(records: seq<Record>, ps: seq<Placed>)
    requires AllFit(ps) && Matching(records, ps)
    ensures Flatten(records) == Directory(ps)
  {
    hide RecordBytes, CentralEntry, CheckMember;
    if ps == [] {
    } else {
      FlattenMatching(records[1..], ps[1..]);
    }
  }

  /** The first records are those of the first members. */
  lemma {:induction false} FlattenFirsts(records: seq<Record>, ps: seq<Placed>, k: nat)
    requires AllFit(ps) && Matching(records, ps) && k <= |ps|
    ensures AllFit(ps[..k]) && Flatten(records[..k]) == Directory(ps[..k])
  {
    hide RecordBytes, CentralEntry, CheckMember;
    FlattenMatching(records[..k], ps[..k]);
  }

  lemma {:induction false} FlattenConcat(a: seq<Record>, b: seq<Record>)
    ensures Flatten(a + b) == Flatten(a) + Flatten(b)
  {
    if a == [] {
      assert a + b == b;
    } else {
      assert (a + b)[1..] == a[1..] + b;
      FlattenConcat(a[1..], b);
      Associative(RecordBytes(a[0]), Flatten(a[1..]), Flatten(b));
    }
  }

  lemma {:induction false} FlattenSnoc(records: seq<Record>, r: Record)
    ensures Flatten(records + [r]) == Flatten(records) + RecordBytes(r)
  {
    FlattenConcat(records, [r]);
    assert [r][1..] == [];
  }

  /** `_no_compression_buffered_data_size_crc_32`: all blocks, their size and checksum, or nothing when
      the size passes the maximum. */
  method Buffer(chunks: seq<Bytes>, maximum: nat) returns (ok: bool, size: nat, crc: U32)
    ensures ok <==> |Concat(chunks)| <= maximum
    ensures ok ==> size == |Concat(chunks)| && crc == Crc32.Crc(Concat(chunks))
  {
    size, crc := 0, 0;
    assert chunks[0..] == chunks;
    for i := 0 to |chunks|
      invariant size <= maximum
      invariant exists done :: done + Concat(chunks[i..]) == Concat(chunks) && |done| == size && crc == Crc32.Crc(done)
    {
      ghost var done :| done + Concat(chunks[i..]) == Concat(chunks) && |done| == size && crc == Crc32.Crc(done);
      assert chunks[i..][1..] == chunks[i + 1..];
      Associative(done, chunks[i], Concat(chunks[i + 1..]));
      Crc32.UpdateConcat(0, done, chunks[i]);
      size := size + |chunks[i]|;
      if size > maximum {
        return false, size, crc;
      }
      crc := Crc32.Update(crc, chunks[i]);
      assert (done + chunks[i]) + Concat(chunks[i + 1..]) == Concat(chunks);
    }
    ghost var done :| done + Concat(chunks[|chunks|..]) == Concat(chunks) && |done| == size && crc == Crc32.Crc(done);
    assert done == Concat(chunks);
    return true, size, crc;
  }

  lemma {:induction false} FlattenFirst(records: seq<Record>, i: nat)
    requires i <= |records|
    ensures Flatten(records[i..])
         == if i == |records| then [] else RecordBytes(records[i]) + Flatten(records[i + 1..])
  {
    assert i < |records| ==> records[i..][1..] == records[i + 1..];
  }

  lemma {:induction false} UsesZip64Snoc(ms: seq<Member>, m: Member)
    ensures UsesZip64(ms + [m]) <==> UsesZip64(ms) || m.mode.NO_COMPRESSION_64?
  {
    assert (ms + [m])[|ms|] == m;
    assert forall i :: 0 <= i < |ms| ==> (ms + [m])[i] == ms[i];
  }

  lemma {:induction false} Appended(ms: seq<Member>, m: Member)
    requires AllFit(Place(ms, 0))
    requires CheckMember(Placed(m, EndOf(ms, 0))) == None
    ensures var p, ps, qs := Placed(m, EndOf(ms, 0)), Place(ms, 0), Place(ms + [m], 0);
            && AllFit(qs)
            && qs == ps + [p]
            && Body(qs) == Body(ps) + LocalEntry(m)
            && (UsesZip64(ms + [m]) <==> UsesZip64(ms) || m.mode.NO_COMPRESSION_64?)
  {
    var p := Placed(m, EndOf(ms, 0));
    PlaceSnoc(ms, m);
    BodySnoc(Place(ms, 0), p);
    UsesZip64Snoc(ms, m);
  }

  class Writer {
    var output: seq<Bytes>
    var offset: nat
    var directory: seq<Record>
    var zip64: bool
    ghost var written: Bytes        // the bytes of `output`
    ghost var members: seq<Member>  // the members written so far

    /** The running offset is the number of bytes put out. */
    ghost predicate Counting()
      reads this
    {
      written == Concat(output) && offset == |written|
    }

    /** What has been written is the body of the members so far, and their records are waiting. */
    ghost predicate Valid()
      reads this
    {
      var ps := Place(members, 0);
      && Counting()
      && AllFit(ps)
      && written == Body(ps)
      && Matching(directory, ps)
      && (zip64 <==> UsesZip64(members))
    }

    constructor ()
      ensures Valid() && members == []
    {
      output, offset, directory, zip64 := [], 0, [], false;
      written, members := [], [];
    }

    /** `_`: passes a chunk on and counts it. */
    method Emit(chunk: Bytes)
      requires Counting()
      modifies this`output, this`offset, this`written
      ensures Counting() && written == old(written) + chunk
    {
      ConcatSnoc(output, chunk);
      output := output + [chunk];
      offset := offset + |chunk|;
      written := written + chunk;
    }

    method EmitAll(chunks: seq<Bytes>)
      requires Counting()
      modifies this`output, this`offset, this`written
      ensures Counting() && written == old(written) + Concat(chunks)
    {
      assert chunks[0..] == chunks;
      for i := 0 to |chunks|
        invariant Counting() && written + Concat(chunks[i..]) == old(written) + Concat(chunks)
      {
        assert chunks[i..][1..] == chunks[i + 1..];
        Associative(written, chunks[i], Concat(chunks[i + 1..]));
        Emit(chunks[i]);
      }
    }

    /** Local header and data of an entry whose blocks are buffered. */
    method EmitEntry(entry: Entry, blocks: seq<Bytes>, ghost m: Member)
      requires Counting() && Writable(m) && entry == EntryOf(m) && Concat(blocks) == m.content
      modifies this`output, this`offset, this`written
      ensures Counting() && written == old(written) + LocalEntry(m)
    {
      var fields := Pack(LocalFields(entry));
      var extra := LocalExtra(entry);
      Emit(LOCAL_SIGNATURE);
      Emit(fields);
      Emit(entry.name);
      Emit(extra);
      EmitAll(blocks);
      FivePieces(old(written), LOCAL_SIGNATURE, fields, entry.name, extra, m.content);
    }

    /** One turn of the loop over the files: checks, local header, data, and the directory record kept
        for later. */
    method AddFile(source: Source, chunkSize: nat) returns (error: Option<Error>)
      requires Valid() && 1 <= chunkSize
      modifies this
      ensures error == CheckMember(Placed(MemberOf(source), EndOf(old(members), 0)))
      ensures error.None? ==> Valid() && members == old(members) + [MemberOf(source)]
      ensures error.Some? ==> Counting() && written == old(written)
    {
      hide LocalEntry, CentralEntry, RecordBytes, RecordOf, Body, Matching, Concat, Place, UsesZip64, Crc32.Crc, EndOf;
      var mode := source.mode;
      ghost var p := Placed(MemberOf(source), EndOf(members, 0));
      BodyLength(members, 0);
      zip64 := zip64 || mode.NO_COMPRESSION_64?;
      if |source.name| > MAX16 {
        return Some(NameLengthOverflow);
      }
      var fileOffset := offset;
      if fileOffset > Maximum(mode) {
        return Some(OffsetOverflow);
      }
      var blocks := EvenlySized(source.chunks, false, chunkSize);
      var ok, size, crc := Buffer(blocks, Maximum(mode));
      if !ok {
        return Some(UncompressedSizeOverflow);
      }
      var entry := Entry(source.name, source.modifiedAt, source.perms, mode, size, crc);
      EmitEntry(entry, blocks, p.member);
      var record := RecordOf(entry, fileOffset);
      RecordOfMember(p);
      MatchingSnoc(directory, Place(members, 0), record, p);
      directory := directory + [record];
      Appended(members, p.member);
      members := members + [p.member];
      return None;
    }

    /** One record of the central directory. */
    method EmitRecord(r: Record)
      requires Counting()
      modifies this`output, this`offset, this`written
      ensures Counting() && written == old(written) + RecordBytes(r)
    {
      Emit(CENTRAL_SIGNATURE);
      Emit(r.header);
      Emit(r.name);
      Emit(r.extra);
      FourPieces(old(written), CENTRAL_SIGNATURE, r.header, r.name, r.extra);
    }

    /** The central directory, record by record, with the checks made behind each. */
    method EmitDirectory() returns (error: Option<Error>)
      requires Valid()
      requires offset <= if zip64 then MAX64 else MAX32
      modifies this`output, this`offset, this`written
      ensures var size := |Flatten(directory)|;
              && (error.None? <==> size <= (if zip64 then MAX64 else MAX32) && old(offset) + size <= MAX64)
              && (error.None? ==> Counting() && written == old(written) + Flatten(directory))
              && (error.Some? ==> error.value == if zip64 then OffsetOverflow else DirectorySizeOverflow)
      ensures error.Some? ==> Counting() && exists i ::
                && 0 <= i < |directory|
                && Within(zip64, old(offset), |Flatten(directory[..i])|)
                && !Within(zip64, old(offset), |Flatten(directory[..i + 1])|)
                && written == old(written) + Flatten(directory[..i + 1])
    {
      hide RecordBytes, Flatten, Body, CentralEntry, Concat, Place, UsesZip64;
      var start, limit := offset, if zip64 then MAX64 else MAX32;
      ghost var done: Bytes := [];
      assert directory[0..] == directory && directory[..0] == [];
      FlattenOfNothing();
      for i := 0 to |directory|
        invariant Counting() && written == old(written) + done
        invariant done + Flatten(directory[i..]) == Flatten(directory) && done == Flatten(directory[..i])
        invariant |done| <= limit && offset <= MAX64
      {
        FlattenFirst(directory, i);
        ghost var r := RecordBytes(directory[i]);
        Associative(done, r, Flatten(directory[i + 1..]));
        Associative(old(written), done, r);
        EmitRecord(directory[i]);
        assert directory[..i + 1] == directory[..i] + [directory[i]];
        FlattenSnoc(directory[..i], directory[i]);
        done := done + r;
        if offset > MAX64 {
          return Some(OffsetOverflow);
        }
        if offset - start > limit {
          return Some(DirectorySizeOverflow);
        }
      }
      FlattenFirst(directory, |directory|);
      return None;
    }
  }

  /** The end records, after the directory. */
  method EmitEnd(writer: Writer, count: U64, size: U64, start: U64)
    requires writer.Counting()
    requires start + size <= MAX64
    requires !writer.zip64 ==> count <= MAX16 && size <= MAX32 && start <= MAX32
    modifies writer`output, writer`offset, writer`written
    ensures writer.Counting() && writer.written == old(writer.written) + EndRecords(writer.zip64, count, size, start)
  {
    hide Pack, End64Fields, LocatorFields, EndFields;
    ghost var w := writer.written;
    if writer.zip64 {
      writer.Emit(END64_SIGNATURE);
      writer.Emit(Pack(End64Fields(count, size, start)));
      writer.Emit(LOCATOR_SIGNATURE);
      writer.Emit(Pack(LocatorFields(start + size)));
      writer.Emit(END_SIGNATURE);
      writer.Emit(Pack(EndFields(MAX16, MAX16, MAX32, MAX32)));
      SixPieces(w, END64_SIGNATURE, Pack(End64Fields(count, size, start)), LOCATOR_SIGNATURE,
                Pack(LocatorFields(start + size)), END_SIGNATURE, Pack(EndFields(MAX16, MAX16, MAX32, MAX32)));
    } else {
      writer.Emit(END_SIGNATURE);
      writer.Emit(Pack(EndFields(0, count, size, start)));
      Associative(w, END_SIGNATURE, Pack(EndFields(0, count, size, start)));
    }
  }

  lemma {:induction false} FirstFailure(ms: seq<Member>, i: nat)
    requires i < |ms| && AllFit(Place(ms[..i], 0))
    requires CheckMember(Placed(ms[i], EndOf(ms[..i], 0))) != None
    ensures CheckMembers(Place(ms, 0)) == CheckMember(Placed(ms[i], EndOf(ms[..i], 0)))
    ensures Stops(ms, i, 0) && PutOut(ms, i, 0) == Body(Place(ms[..i], 0))
  {
    hide CheckMember, Body, Crowded, Within;
    assert ms == ms[..i] + ms[i..];
    PlaceConcat(ms[..i], ms[i..], 0);
    ChecksConcat(Place(ms[..i], 0), Place(ms[i..], EndOf(ms[..i], 0)));
    assert Place(ms, 0)[..i] == Place(ms[..i], 0);
  }

  lemma {:induction false} NoFailure(ms: seq<Member>)
    requires AllFit(Place(ms, 0))
    ensures CheckMembers(Place(ms, 0)) == None
  {
  }

  /** The directory cannot be written. */
  lemma {:induction false} StopsBefore(ms: seq<Member>)
    requires AllFit(Place(ms, 0)) && Crowded(UsesZip64(ms), |ms|, |Body(Place(ms, 0))|)
    ensures Stops(ms, |ms|, 0) && PutOut(ms, |ms|, 0) == Body(Place(ms, 0))
  {
    hide Place, Body, CheckMember, UsesZip64;
    assert Place(ms, 0)[..|ms|] == Place(ms, 0);
  }

  lemma {:induction false} AllRecords(records: seq<Record>, ps: seq<Placed>)
    requires AllFit(ps) && Matching(records, ps)
    ensures Flatten(records) == Directory(ps) && |records| == |ps|
  {
    FlattenMatching(records, ps);
  }

  /** The directory becomes too large. */
  lemma {:induction false} StopsBehind(ms: seq<Member>, records: seq<Record>, k: nat)
    requires var ps := Place(ms, 0);
      && AllFit(ps) && Matching(records, ps) && 0 < k <= |ms|
      && !Crowded(UsesZip64(ms), |ms|, |Body(ps)|)
      && Within(UsesZip64(ms), |Body(ps)|, |Flatten(records[..k - 1])|)
      && !Within(UsesZip64(ms), |Body(ps)|, |Flatten(records[..k])|)
    ensures Stops(ms, |ms|, k) && PutOut(ms, |ms|, k) == Body(Place(ms, 0)) + Flatten(records[..k])
  {
    hide Place, Body, CheckMember, UsesZip64, Matching, Flatten, Directory;
    var ps := Place(ms, 0);
    assert ps[..|ms|] == ps;
    FlattenFirsts(records, ps, k - 1);
    FlattenFirsts(records, ps, k);
  }

  /** The loop over the files. */
  method AddFiles(writer: Writer, sources: seq<Source>, chunkSize: nat) returns (error: Option<Error>)
    requires writer.Valid() && writer.members == [] && 1 <= chunkSize
    modifies writer
    ensures error == CheckMembers(Place(MembersOf(sources), 0))
    ensures error.None? ==> writer.Valid() && writer.members == MembersOf(sources)
    ensures error.Some? ==> writer.Counting()
    ensures var ms := MembersOf(sources);
            error.Some? ==> exists n :: Stops(ms, n, 0) && writer.written == PutOut(ms, n, 0)
  {
    hide Place, CheckMembers, Stops, PutOut, CheckMember, EndOf, Writer.Counting, Body, Directory;
    ghost var ms := MembersOf(sources);
    for i := 0 to |sources|
      invariant writer.Valid() && writer.members == ms[..i]
    {
      error := writer.AddFile(sources[i], chunkSize);
      assert ms[..i + 1] == ms[..i] + [ms[i]];
      if error.Some? {
        FirstFailure(ms, i);
        return error;
      }
    }
    assert ms[..|sources|] == ms;
    NoFailure(ms);
    return None;
  }

  /** The chunks of the archive, as they come; behind them the error, if there is one. */
  method ZippedChunks(sources: seq<Source>, chunkSize: nat) returns (chunks: seq<Bytes>, error: Option<Error>)
    requires 1 <= chunkSize
    ensures var ms := MembersOf(sources);
            match Archive(ms)
            case Ok(archive) => error == None && Concat(chunks) == archive
            case Err(e) => error == Some(e) && exists n, k :: Stops(ms, n, k) && Concat(chunks) == PutOut(ms, n, k)
  {
    hide Place, CheckMembers, Body, Directory, Flatten, EndRecords, Concat, Matching, RecordBytes, Stops, PutOut;
    hide UsesZip64;
    ghost var ms := MembersOf(sources);
    var writer := new Writer();
    error := AddFiles(writer, sources, chunkSize);
    if error.Some? {
      return writer.output, error;
    }
    ghost var ps := Place(ms, 0);
    var start, count := writer.offset, |writer.directory|;
    AllRecords(writer.directory, ps);
    if start > if writer.zip64 then MAX64 else MAX32 {
      StopsBefore(ms);
      return writer.output, Some(OffsetOverflow);
    }
    if count > if writer.zip64 then MAX64 else MAX16 {
      StopsBefore(ms);
      return writer.output, Some(NumberOfEntriesOverflow);
    }
    ghost var directory := writer.directory;
    error := writer.EmitDirectory();
    if error.Some? {
      ghost var i :| && 0 <= i < |directory|
                     && Within(writer.zip64, start, |Flatten(directory[..i])|)
                     && !Within(writer.zip64, start, |Flatten(directory[..i + 1])|)
                     && writer.written == Body(ps) + Flatten(directory[..i + 1]);
      StopsBehind(ms, directory, i + 1);
      return writer.output, error;
    }
    EmitEnd(writer, count, writer.offset - start, start);
    Associative(Body(ps), Directory(ps), EndRecords(writer.zip64, count, |Directory(ps)|, start));
    return writer.output, None;
  }

  /** The whole writer, drained: the archive of the specification in even blocks, or its error behind the full blocks of
      what was put out before. */
  method StreamZip(sources: seq<Source>, chunkSize: nat) returns (blocks: seq<Bytes>, error: Option<Error>)
    requires 1 <= chunkSize
    ensures var ms := MembersOf(sources);
            match Archive(ms)
            case Ok(archive) => error == None && Concat(blocks) == archive && Even(blocks, chunkSize)
            case Err(e) =>
              && error == Some(e)
              && exists n, k :: Stops(ms, n, k) && FullBlocks(blocks, PutOut(ms, n, k), chunkSize)
  {
    hide Archive, Concat, Stops, PutOut, Even, FullBlocks;
    var chunks: seq<Bytes>;
    chunks, error := ZippedChunks(sources, chunkSize);
    blocks := EvenlySized(chunks, error.Some?, chunkSize);
  }
}
