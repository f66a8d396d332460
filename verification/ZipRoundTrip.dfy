/** What the reader makes of the writer's archives: whole, cut short, or with a corrupted byte. */
module ZipRoundTrip {
  import opened Wrappers
  import opened Bytes
  import opened Struct
  import opened ZipFormat
  import W = ZipWriterSpec
  import opened ZipReaderSpec
  import Crc32

  /** A 32-bit member of exactly 0xFFFFFFFF bytes is written, but read as a zip64 entry. */
  predicate Readable(m: W.Member)
  {
    m.mode.NO_COMPRESSION_32? ==> |m.content| != MAX32
  }

  function FileOf(m: W.Member): File
    requires W.Writable(m)
  {
    File(m.name, Some(|m.content|), m.content)
  }

  function FilesOf(ms: seq<W.Member>): (files: seq<File>)
    requires forall i :: 0 <= i < |ms| ==> W.Writable(ms[i])
    ensures |files| == |ms|
  {
    seq(|ms|, i requires 0 <= i < |ms| => FileOf(ms[i]))
  }

  /** The header the reader should arrive at. */
  function HeaderOf(m: W.Member): Header
    requires W.Writable(m)
  {
    Header(m.name, Some(|m.content|), Crc32.Crc(m.content), false, m.mode.NO_COMPRESSION_64?)
  }

  function HeaderSize(m: W.Member): nat
  {
    W.LocalSize(m) - |m.content|
  }

  /** The fixed fields of a written header, read at the reader's offsets. */
  lemma {:induction false} FixedFields(e: W.Entry, rest: Bytes)
    requires W.Recordable(e)
    ensures var data := Pack(W.LocalFields(e)) + rest;
            && LOCAL_SIZE <= |data|
            && data[2..4] == W.UTF8_FLAGS
            && WordAt(data, 4) == 0
            && DwordAt(data, 10) == e.crc
            && DwordAt(data, 14) == DwordAt(data, 18) == W.HeaderSize(e)
            && WordAt(data, 22) == |e.name|
            && WordAt(data, 24) == |W.LocalExtra(e)|
  {
    hide Pack, W.LocalFields;
    W.LocalFieldsRead(e);
    SameFields(Pack(W.LocalFields(e)), rest);
  }

  /** The zip64 extra field of a local header, parsed. */
  lemma {:induction false} ExtraRead(e: W.Entry)
    requires e.mode.NO_COMPRESSION_64?
    ensures var extra := W.LocalExtra(e);
            var extras := ParseExtra(extra);
            && ZIP64_EXTRA in extras && |extras[ZIP64_EXTRA]| == 16
            && QwordAt(extras[ZIP64_EXTRA], 0) == e.size
  {
    var fs, extra := W.LocalExtraFields(e), W.LocalExtra(e);
    W.ExtraOffsets(e, 0);
    FieldAt(fs, 0);
    FieldAt(fs, 1);
    FieldAt(fs, 2);
    hide Pack, W.LocalExtraFields, ParseExtra, FromLE;
    SingleExtra(extra);
    assert extra[..2] == extra[0..2] && extra[4..][0..8] == extra[4..12];
  }

  /** The decisions taken on a written header. */
  lemma {:induction false} Interpreted(m: W.Member)
    requires W.Writable(m)
    ensures var e := W.EntryOf(m);
            Interpret(W.UTF8_FLAGS, 0, e.crc, W.HeaderSize(e), W.HeaderSize(e), m.name, ParseExtra(W.LocalExtra(e)))
            == if Readable(m) then Ok(HeaderOf(m)) else Err(MissingZip64Extra)
  {
    var e := W.EntryOf(m);
    if m.mode.NO_COMPRESSION_64? {
      ExtraRead(e);
    }
  }

  /** What the reader sees behind the signature: the header, then whatever follows. */
  function AfterSignature(m: W.Member, rest: Bytes): Bytes
    requires W.Writable(m)
  {
    Pack(W.LocalFields(W.EntryOf(m))) + rest
  }

  lemma {:induction false} WrittenHeader(m: W.Member, data: Bytes)
    requires W.Writable(m)
    ensures ParseHeader(AfterSignature(m, m.name + (W.LocalExtra(W.EntryOf(m)) + data)))
         == if Readable(m) then Got(HeaderOf(m), data) else Bad(MissingZip64Extra)
  {
    hide Pack, W.LocalFields, W.LocalExtra, Interpret, ParseExtra, ParseHeader, WordAt, DwordAt, Readable, HeaderOf;
    var e := W.EntryOf(m);
    W.LocalOffsets(e);
    W.LocalFieldsRead(e);
    Interpreted(m);
    HeaderRead(Pack(W.LocalFields(e)), m.name, W.LocalExtra(e), data);
  }

  /** A header that breaks off is truncated, wherever it breaks off. */
  lemma {:induction false} BrokenHeader(m: W.Member, data: Bytes)
    requires W.Writable(m)
    requires var e := W.EntryOf(m);
             data <= AfterSignature(m, m.name + W.LocalExtra(e)) && data != AfterSignature(m, m.name + W.LocalExtra(e))
    ensures ParseHeader(data) == Bad(TruncatedData)
  {
    var e := W.EntryOf(m);
    var b := Pack(W.LocalFields(e));
    W.LocalOffsets(e);
    if LOCAL_SIZE <= |data| {
      hide Pack, W.LocalFields, W.LocalExtra, Interpret, ParseExtra, FromLE, WordAt, DwordAt;
      var rest := data[LOCAL_SIZE..];
      assert data == b + rest;
      FixedFields(e, rest);
    }
  }

  /** A local entry as stored, with any bytes in place of the content. */
  function EntryWith(m: W.Member, content: Bytes): Bytes
    requires W.Writable(m)
  {
    var e := W.EntryOf(m);
    LOCAL_SIGNATURE + (Pack(W.LocalFields(e)) + (m.name + (W.LocalExtra(e) + content)))
  }

  lemma {:induction false} StoredEntry(m: W.Member, content: Bytes, tail: Bytes)
    requires W.Writable(m)
    ensures var all := EntryWith(m, content) + tail;
            && all[..4] == LOCAL_SIGNATURE
            && all[4..] == AfterSignature(m, m.name + (W.LocalExtra(W.EntryOf(m)) + (content + tail)))
  {
    hide Pack, W.LocalFields, W.LocalExtra;
    var e := W.EntryOf(m);
    FourPieces(LOCAL_SIGNATURE, Pack(W.LocalFields(e)), m.name, W.LocalExtra(e), content);
    FivePieces(LOCAL_SIGNATURE, Pack(W.LocalFields(e)), m.name, W.LocalExtra(e), content, tail);
  }

  /** The reader on a stored entry: the content is taken by its size, then checked. */
  lemma {:induction false} EntryRead(m: W.Member, content: Bytes, tail: Bytes, surplus: bool)
    requires W.Writable(m) && Readable(m) && |content| == |m.content|
    ensures var all := EntryWith(m, content) + tail;
            && 4 <= |all| && all[..4] == LOCAL_SIGNATURE
            && ReadEntry(all[4..], surplus) == if Crc32.Crc(content) == Crc32.Crc(m.content)
                                               then Whole(File(m.name, Some(|m.content|), content), tail)
                                               else Broken(File(m.name, Some(|m.content|), content), CRC32Integrity)
  {
    StoredEntry(m, content, tail);
    WrittenHeader(m, content + tail);
    hide Pack, W.LocalFields, W.LocalExtra, ParseHeader, AfterSignature, EntryWith, Crc32.Crc;
    assert (content + tail)[..|content|] == content && (content + tail)[|content|..] == tail;
  }

  lemma {:induction false} FilesCons(ms: seq<W.Member>)
    requires ms != [] && forall i :: 0 <= i < |ms| ==> W.Writable(ms[i])
    ensures FilesOf(ms) == [FileOf(ms[0])] + FilesOf(ms[1..])
  {
  }

  /** The reader's outcome on a complete archive of given members. */
  function Expected(ms: seq<W.Member>): (x: Extraction)
    requires forall i :: 0 <= i < |ms| ==> W.Writable(ms[i])
    ensures (forall i :: 0 <= i < |ms| ==> Readable(ms[i])) ==> x == Extraction(FilesOf(ms), Finished)
    ensures !(forall i :: 0 <= i < |ms| ==> Readable(ms[i])) ==> x.outcome == Failed(MissingZip64Extra)
  {
    if ms == [] then Extraction([], Finished)
    else if !Readable(ms[0]) then Extraction([], Failed(MissingZip64Extra))
    else
      var later := Expected(ms[1..]);
      assert forall i :: 1 <= i < |ms| ==> ms[i] == ms[1..][i - 1];
      FilesCons(ms);
      Extraction([FileOf(ms[0])] + later.files, later.outcome)
  }

  lemma {:induction false} SameEntry(m: W.Member)
    requires W.Writable(m)
    ensures W.LocalEntry(m) == EntryWith(m, m.content)
  {
  }

  /** Reading one complete member off the front of the stream. */
  lemma {:induction false} EntryStep(m: W.Member, tail: Bytes, surplus: bool)
    requires W.Writable(m)
    ensures var later := Extract(tail, surplus);
            Extract(W.LocalEntry(m) + tail, surplus)
            == if Readable(m) then Extraction([FileOf(m)] + later.files, later.outcome)
               else Extraction([], Failed(MissingZip64Extra))
  {
    hide W.LocalEntry, EntryWith, W.LocalExtra, Pack, W.LocalFields, AfterSignature, ParseHeader, ReadContent,
         Crc32.Crc;
    SameEntry(m);
    StoredEntry(m, m.content, tail);
    WrittenHeader(m, m.content + tail);
    if Readable(m) {
      EntryRead(m, m.content, tail, surplus);
    }
  }

  /** Reading stops at the first central directory signature, whatever follows it. */
  lemma {:induction false} BodyRead(ps: seq<W.Placed>, ms: seq<W.Member>, tail: Bytes, surplus: bool)
    requires W.AllFit(ps) && |ms| == |ps|
    requires forall i :: 0 <= i < |ms| ==> ms[i] == ps[i].member && W.Writable(ms[i])
    ensures Extract(W.Body(ps) + (CENTRAL_SIGNATURE + tail), surplus) == Expected(ms)
  {
    hide W.LocalEntry, ReadEntry;
    var end := CENTRAL_SIGNATURE + tail;
    if ps == [] {
      assert [] + end == end && end[..4] == CENTRAL_SIGNATURE;
    } else {
      Associative(W.LocalEntry(ms[0]), W.Body(ps[1..]), end);
      EntryStep(ms[0], W.Body(ps[1..]) + end, surplus);
      BodyRead(ps[1..], ms[1..], tail, surplus);
    }
  }

  /** The outcome on the first `k` bytes of the body: every member that ends within them, and the next one, cut short,
      once its header is complete; but nothing from an unreadable member on. */
  function Cut(ms: seq<W.Member>, k: nat): (x: Extraction)
    requires forall i :: 0 <= i < |ms| ==> W.Writable(ms[i])
    ensures (forall i :: 0 <= i < |ms| ==> Readable(ms[i])) ==> x.outcome == Failed(TruncatedData)
    ensures x.outcome.Failed?
  {
    if ms == [] || k < HeaderSize(ms[0]) then Extraction([], Failed(TruncatedData))
    else if !Readable(ms[0]) then Extraction([], Failed(MissingZip64Extra))
    else if k < W.LocalSize(ms[0]) then
      Extraction([FileOf(ms[0]).(content := ms[0].content[..k - HeaderSize(ms[0])])], Failed(TruncatedData))
    else
      assert forall i :: 1 <= i < |ms| ==> ms[i] == ms[1..][i - 1];
      var later := Cut(ms[1..], k - W.LocalSize(ms[0]));
      Extraction([FileOf(ms[0])] + later.files, later.outcome)
  }

  lemma {:induction false} SplitHeader(m: W.Member, content: Bytes)
    requires W.Writable(m)
    ensures var header := EntryWith(m, []);
            && EntryWith(m, content) == header + content
            && |header| == HeaderSize(m)
            && header[..4] == LOCAL_SIGNATURE
            && header[4..] == AfterSignature(m, m.name + W.LocalExtra(W.EntryOf(m)))
  {
    var e := W.EntryOf(m);
    W.LocalOffsets(e);
    hide Pack, W.LocalFields, W.LocalExtra;
    FourPieces(LOCAL_SIGNATURE, Pack(W.LocalFields(e)), m.name, W.LocalExtra(e), []);
    FivePieces(LOCAL_SIGNATURE, Pack(W.LocalFields(e)), m.name, W.LocalExtra(e), [], content);
    assert W.LocalExtra(e) + [] == W.LocalExtra(e) && [] + content == content;
  }

  /** An entry that breaks off: nothing before the header is complete, then the beginning of its content. */
  lemma {:induction false} EntryCut(m: W.Member, k: nat, surplus: bool)
    requires W.Writable(m) && 4 <= k < W.LocalSize(m)
    ensures var all := W.LocalEntry(m)[..k];
            && all[..4] == LOCAL_SIGNATURE
            && ReadEntry(all[4..], surplus)
               == if k < HeaderSize(m) then Rejected(TruncatedData)
                  else if !Readable(m) then Rejected(MissingZip64Extra)
                  else Broken(FileOf(m).(content := m.content[..k - HeaderSize(m)]), TruncatedData)
  {
    var n := HeaderSize(m);
    SplitHeader(m, m.content);
    var header := EntryWith(m, []);
    assert W.LocalEntry(m) == EntryWith(m, m.content);
    var all := W.LocalEntry(m)[..k];
    if k < n {
      assert all == header[..k] && all[4..] == header[4..][..k - 4];
      BrokenHeader(m, all[4..]);
    } else {
      var part := m.content[..k - n];
      SplitHeader(m, part);
      assert all == header + part;
      StoredEntry(m, part, []);
      WrittenHeader(m, part);
      assert EntryWith(m, part) + [] == EntryWith(m, part) && part + [] == part;
    }
    hide Pack, W.LocalFields, W.LocalExtra, EntryWith, W.LocalEntry, AfterSignature, ParseHeader;
  }

  /** An archive cut before the end of its first central directory signature. */
  lemma {:induction false} BodyCut(ps: seq<W.Placed>, ms: seq<W.Member>, k: nat, surplus: bool)
    requires W.AllFit(ps) && |ms| == |ps|
    requires forall i :: 0 <= i < |ms| ==> ms[i] == ps[i].member && W.Writable(ms[i])
    requires k < |W.Body(ps)| + 4
    ensures Extract((W.Body(ps) + CENTRAL_SIGNATURE)[..k], surplus) == Cut(ms, k)
  {
    hide W.LocalEntry, ReadEntry;
    var all := W.Body(ps) + CENTRAL_SIGNATURE;
    if ps != [] && 4 <= k {
      var m, entry, rest := ms[0], W.LocalEntry(ms[0]), W.Body(ps[1..]) + CENTRAL_SIGNATURE;
      Associative(entry, W.Body(ps[1..]), CENTRAL_SIGNATURE);
      if k < |entry| {
        assert all[..k] == entry[..k];
        EntryCut(m, k, surplus);
      } else {
        var tail := rest[..k - |entry|];
        assert all[..k] == entry + tail;
        EntryStep(m, tail, surplus);
        if Readable(m) {
          BodyCut(ps[1..], ms[1..], k - |entry|, surplus);
        }
      }
    }
  }

  lemma {:induction false} DirectoryStart(ps: seq<W.Placed>)
    requires W.AllFit(ps) && ps != []
    ensures |W.Directory(ps)| >= 4 && W.Directory(ps)[..4] == CENTRAL_SIGNATURE
  {
    hide Pack, W.CentralFields, W.CentralExtra;
  }

  lemma {:induction false} Members(ms: seq<W.Member>, offset: nat)
    ensures forall i :: 0 <= i < |ms| ==> W.Place(ms, offset)[i].member == ms[i]
  {
    if ms == [] {
    } else {
      Members(ms[1..], offset + W.LocalSize(ms[0]));
    }
  }

  lemma {:induction false} ArchiveShape(ms: seq<W.Member>)
    requires W.Archive(ms).Ok?
    ensures forall i :: 0 <= i < |ms| ==> W.Place(ms, 0)[i].member == ms[i] && W.Writable(ms[i])
    ensures W.AllFit(W.Place(ms, 0))
    ensures ms != [] ==> exists tail :: W.Archive(ms).value == W.Body(W.Place(ms, 0)) + (CENTRAL_SIGNATURE + tail)
  {
    hide W.EndRecords, W.LocalEntry, W.CentralEntry;
    var ps := W.Place(ms, 0);
    Members(ms, 0);
    assert forall i :: 0 <= i < |ms| ==> W.CheckMember(ps[i]) == None;
    if ms != [] {
      var body, directory := W.Body(ps), W.Directory(ps);
      var rest := directory + W.EndRecords(W.UsesZip64(ms), |ms|, |directory|, |body|);
      DirectoryStart(ps);
      assert W.Archive(ms).value == body + rest && rest == CENTRAL_SIGNATURE + rest[4..];
    }
  }

  /** Reading back a written archive, for every list of members and every chunking. The round trip holds
      exactly for non-empty lists without a 32-bit member of 0xFFFFFFFF bytes. */
  lemma {:induction false} RoundTrip(ms: seq<W.Member>, chunks: seq<Bytes>)
    requires W.Archive(ms).Ok? && Concat(chunks) == W.Archive(ms).value
    ensures forall i :: 0 <= i < |ms| ==> W.Writable(ms[i])
    ensures Extract(Concat(chunks), EndsEmpty(chunks)) == Extraction(FilesOf(ms), Finished)
       <==> ms != [] && forall i :: 0 <= i < |ms| ==> Readable(ms[i])
    ensures ms == [] ==> Extract(Concat(chunks), EndsEmpty(chunks))
                         == Extraction([], Failed(UnexpectedSignature(END_SIGNATURE)))
    ensures ms != [] ==> Extract(Concat(chunks), EndsEmpty(chunks)) == Expected(ms)
  {
    ArchiveShape(ms);
    var ps, a := W.Place(ms, 0), W.Archive(ms).value;
    if ms == [] {
      hide Pack, W.EndFields;
      assert a[..4] == END_SIGNATURE;
    } else {
      var tail :| a == W.Body(ps) + (CENTRAL_SIGNATURE + tail);
      BodyRead(ps, ms, tail, EndsEmpty(chunks));
      hide W.Archive, W.Body, W.Place, Extract;
    }
  }

  /** Cutting a written archive short: what was delivered is known to the byte, and unless a member is unreadable, the
      reader notices exactly when the cut comes before the end of the first central directory signature. */
  lemma {:induction false} Truncation(ms: seq<W.Member>, k: nat, surplus: bool)
    requires ms != [] && W.Archive(ms).Ok? && k <= |W.Archive(ms).value|
    ensures forall i :: 0 <= i < |ms| ==> W.Writable(ms[i])
    ensures Extract(W.Archive(ms).value[..k], surplus) == if k < W.EndOf(ms, 0) + 4 then Cut(ms, k) else Expected(ms)
  {
    ArchiveShape(ms);
    var ps, a := W.Place(ms, 0), W.Archive(ms).value;
    W.BodyLength(ms, 0);
    var body := W.Body(ps);
    var tail :| a == body + (CENTRAL_SIGNATURE + tail);
    if k < |body| + 4 {
      assert a[..k] == (body + CENTRAL_SIGNATURE)[..k];
      BodyCut(ps, ms, k, surplus);
    } else {
      assert a[..k] == body + (CENTRAL_SIGNATURE + tail[..k - |body| - 4]);
      BodyRead(ps, ms, tail[..k - |body| - 4], surplus);
    }
    hide W.Archive, W.Body, W.Place, Extract, Cut, Expected;
  }

  lemma {:induction false} BodyConcat(ps: seq<W.Placed>, qs: seq<W.Placed>)
    requires W.AllFit(ps + qs)
    ensures W.AllFit(ps) && W.AllFit(qs) && W.Body(ps + qs) == W.Body(ps) + W.Body(qs)
  {
    hide W.LocalEntry;
    assert forall i :: 0 <= i < |ps| ==> (ps + qs)[i] == ps[i];
    assert forall i :: 0 <= i < |qs| ==> (ps + qs)[|ps| + i] == qs[i];
    if ps == [] {
      assert ps + qs == qs;
    } else {
      assert (ps + qs)[1..] == ps[1..] + qs;
      BodyConcat(ps[1..], qs);
      Associative(W.LocalEntry(ps[0].member), W.Body(ps[1..]), W.Body(qs));
    }
  }

  lemma {:induction false} JoinFiles(f: File, a: seq<File>, b: seq<File>)
    ensures ([f] + a) + b == [f] + (a + b)
  {
  }

  /** Complete members are delivered one after the other, whatever follows them. */
  lemma {:induction false} BodyThen(ps: seq<W.Placed>, ms: seq<W.Member>, rest: Bytes, surplus: bool)
    requires W.AllFit(ps) && |ms| == |ps|
    requires forall i :: 0 <= i < |ms| ==> ms[i] == ps[i].member && W.Writable(ms[i]) && Readable(ms[i])
    ensures var later := Extract(rest, surplus);
            Extract(W.Body(ps) + rest, surplus) == Extraction(FilesOf(ms) + later.files, later.outcome)
  {
    hide W.LocalEntry, FilesOf, FileOf, Readable, W.Writable;
    if ps == [] {
      assert [] + rest == rest && FilesOf(ms) == [];
    } else {
      Associative(W.LocalEntry(ms[0]), W.Body(ps[1..]), rest);
      EntryStep(ms[0], W.Body(ps[1..]) + rest, surplus);
      BodyThen(ps[1..], ms[1..], rest, surplus);
      FilesCons(ms);
      JoinFiles(FileOf(ms[0]), FilesOf(ms[1..]), Extract(rest, surplus).files);
    }
  }

  lemma {:induction false} PlaceAround(before: seq<W.Member>, m: W.Member, after: seq<W.Member>)
    returns (qs: seq<W.Placed>)
    ensures W.Place(before + [m] + after, 0) == W.Place(before, 0) + qs
    ensures qs != [] && qs[0].member == m
  {
    var tail := [m] + after;
    assert before + [m] + after == before + tail;
    W.PlaceConcat(before, tail, 0);
    qs := W.Place(tail, W.EndOf(before, 0));
  }

  lemma {:induction false} Nested(a: Bytes, b: Bytes, c: Bytes, d: Bytes)
    ensures (a + (b + c)) + d == a + (b + (c + d))
  {
  }

  /** Where a member's entry stands in the archive. */
  lemma {:induction false} EntryInBody(before: seq<W.Member>, m: W.Member, after: seq<W.Member>)
    requires W.Archive(before + [m] + after).Ok?
    ensures W.AllFit(W.Place(before, 0)) && W.Writable(m)
    ensures exists rest :: W.Archive(before + [m] + after).value
                           == W.Body(W.Place(before, 0)) + (W.LocalEntry(m) + rest)
  {
    hide W.LocalEntry, W.Archive, W.Writable, W.CheckMember, W.LocalSize, W.Place;
    var ms := before + [m] + after;
    ArchiveShape(ms);
    assert ms[|before|] == m;
    var qs := PlaceAround(before, m, after);
    BodyConcat(W.Place(before, 0), qs);
    var end :| W.Archive(ms).value == W.Body(W.Place(ms, 0)) + (CENTRAL_SIGNATURE + end);
    Nested(W.Body(W.Place(before, 0)), W.LocalEntry(m), W.Body(qs[1..]), CENTRAL_SIGNATURE + end);
  }

  lemma {:induction false} DamagedEntry(m: W.Member, left: Bytes, x: Byte, right: Bytes, y: Byte, rest: Bytes,
                                        surplus: bool)
    requires W.Writable(m) && Readable(m) && m.content == left + [x] + right && x != y
    ensures Extract(EntryWith(m, left + [y] + right) + rest, surplus)
         == Extraction([FileOf(m).(content := left + [y] + right)], Failed(CRC32Integrity))
  {
    hide EntryWith, ReadEntry, Crc32.Update;
    EntryRead(m, left + [y] + right, rest, surplus);
    Crc32.DetectsOneByte(0, left, x, y, right);
  }

  lemma {:induction false} DamagedArchive(body: Bytes, header: Bytes, left: Bytes, x: Byte, right: Bytes, y: Byte,
                                          rest: Bytes)
    ensures (body + ((header + (left + [x] + right)) + rest))[|body| + |header| + |left| := y]
         == body + ((header + (left + [y] + right)) + rest)
  {
  }

  /** A single corrupted content byte, with no unreadable member up to it, is always noticed: the files before it are
      intact, the corrupted file is delivered, and the run ends in a checksum error. */
  lemma {:induction false} Corruption(before: seq<W.Member>, m: W.Member, after: seq<W.Member>,
                                      left: Bytes, x: Byte, right: Bytes, y: Byte, surplus: bool)
    requires var ms := before + [m] + after;
             W.Archive(ms).Ok? && forall i :: 0 <= i <= |before| ==> Readable(ms[i])
    requires m.content == left + [x] + right && x != y
    ensures forall i :: 0 <= i < |before| ==> W.Writable(before[i])
    ensures W.Writable(m)
    ensures var a, at := W.Archive(before + [m] + after).value, W.EndOf(before, 0) + HeaderSize(m) + |left|;
            && at < |a|
            && Extract(a[at := y], surplus)
               == Extraction(FilesOf(before) + [FileOf(m).(content := left + [y] + right)], Failed(CRC32Integrity))
  {
    hide W.Archive, W.Body, W.LocalEntry, EntryWith, ReadEntry, Crc32.Update, W.Place, W.EndOf;
    var ms, damaged := before + [m] + after, left + [y] + right;
    assert forall i :: 0 <= i < |before| ==> ms[i] == before[i];
    assert ms[|before|] == m;
    EntryInBody(before, m, after);
    var ps, a := W.Place(before, 0), W.Archive(ms).value;
    var rest :| a == W.Body(ps) + (W.LocalEntry(m) + rest);
    W.BodyLength(before, 0);
    Members(before, 0);
    SameEntry(m);
    SplitHeader(m, m.content);
    SplitHeader(m, damaged);
    DamagedArchive(W.Body(ps), EntryWith(m, []), left, x, right, y, rest);
    DamagedEntry(m, left, x, right, y, rest, surplus);
    BodyThen(ps, before, EntryWith(m, damaged) + rest, surplus);
  }
}
