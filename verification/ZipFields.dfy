/** The records of the format byte by byte: where the writer puts what, and what the reader makes of any bytes. */
module ZipFields {
  import opened Wrappers
  import opened Bytes
  import opened Struct
  import opened ZipFormat
  import opened ZipWriterSpec
  import R = ZipReaderSpec
  import ZipDirectory
  import Crc32

  // ---------- Written records ----------

  lemma {:induction false} Together(sig: Bytes, b: Bytes, name: Bytes, extra: Bytes, content: Bytes)
    requires |sig| == 4
    ensures var all := sig + (b + (name + (extra + content)));
      var n, e := 4 + |b| + |name|, 4 + |b| + |name| + |extra|;
      && |all| == e + |content| && all[..4] == sig && all[4..4 + |b|] == b
      && all[4 + |b|..n] == name && all[n..e] == extra && all[e..] == content
  {
  }

  lemma {:induction false} FieldWithin(all: Bytes, b: Bytes, i: nat)
    requires 4 + |b| <= |all| && all[4..4 + |b|] == b
    ensures i + 2 <= |b| ==> WordAt(all, 4 + i) == WordAt(b, i) && all[4 + i..6 + i] == b[i..i + 2]
    ensures i + 4 <= |b| ==> DwordAt(all, 4 + i) == DwordAt(b, i) && all[4 + i..8 + i] == b[i..i + 4]
  {
    hide FromLE;
    if i + 2 <= |b| {
      SliceOfSlice(all, 4, 4 + |b|, i, i + 2);
    }
    if i + 4 <= |b| {
      SliceOfSlice(all, 4, 4 + |b|, i, i + 4);
    }
  }

  lemma {:induction false} LocalExtraRead(e: Entry)
    requires e.mode.NO_COMPRESSION_64?
    ensures var x := LocalExtra(e);
      |x| == 20 && x[0..2] == [1, 0] && WordAt(x, 2) == 16 && QwordAt(x, 4) == QwordAt(x, 12) == e.size
  {
    var fs := LocalExtraFields(e);
    ExtraOffsets(e, 0);
    hide Pack;
    FieldAt(fs, 0);
    FieldAt(fs, 1);
    FieldAt(fs, 2);
    FieldAt(fs, 3);
  }

  lemma {:induction false} CentralExtraRead(e: Entry, offset: U64)
    requires e.mode.NO_COMPRESSION_64?
    ensures var x := CentralExtra(e, offset);
      && |x| == 28 && x[0..2] == [1, 0] && WordAt(x, 2) == 24
      && QwordAt(x, 4) == QwordAt(x, 12) == e.size && QwordAt(x, 20) == offset
  {
    var fs := CentralExtraFields(e, offset);
    ExtraOffsets(e, offset);
    hide Pack;
    FieldAt(fs, 0);
    FieldAt(fs, 1);
    FieldAt(fs, 2);
    FieldAt(fs, 3);
    FieldAt(fs, 4);
  }

  lemma {:induction false} InExtra(all: Bytes, x: Bytes, n: nat)
    requires 20 <= |x| && n + |x| <= |all| && all[n..n + |x|] == x
    ensures all[n..n + 2] == x[0..2] && WordAt(all, n + 2) == WordAt(x, 2)
    ensures QwordAt(all, n + 4) == QwordAt(x, 4) && QwordAt(all, n + 12) == QwordAt(x, 12)
    ensures 28 <= |x| ==> QwordAt(all, n + 20) == QwordAt(x, 20)
  {
    hide FromLE;
    SliceOfSlice(all, n, n + |x|, 0, 2);
    SliceOfSlice(all, n, n + |x|, 2, 4);
    SliceOfSlice(all, n, n + |x|, 4, 12);
    SliceOfSlice(all, n, n + |x|, 12, 20);
    if 28 <= |x| {
      SliceOfSlice(all, n, n + |x|, 20, 28);
    }
  }

  /** A local header with its content (sections 4.3.7, 4.4 and 4.5.3 of PKWARE APPNOTE.TXT). */
  lemma {:induction false} LocalEntryBytes(m: Member)
    requires Writable(m)
    ensures var h, n, wide := LocalEntry(m), 30 + |m.name|, m.mode.NO_COMPRESSION_64?;
      && |h| == n + (if wide then 20 else 0) + |m.content|
      && h[0..4] == [0x50, 0x4b, 0x03, 0x04] && WordAt(h, 4) == (if wide then 45 else 20) && h[6..8] == [0x00, 0x08]
      && WordAt(h, 8) == 0 && h[10..14] == m.modifiedAt && DwordAt(h, 14) == Crc32.Crc(m.content)
      && DwordAt(h, 18) == DwordAt(h, 22) == (if wide then 0xFFFF_FFFF else |m.content|)
      && WordAt(h, 26) == |m.name| && WordAt(h, 28) == (if wide then 20 else 0) && h[30..n] == m.name
      && h[n + (if wide then 20 else 0)..] == m.content
      && (wide ==>
           && h[n..n + 2] == [1, 0] && WordAt(h, n + 2) == 16
           && QwordAt(h, n + 4) == QwordAt(h, n + 12) == |m.content|)
  {
    hide Pack, LocalFields, LocalExtra, WordAt, DwordAt, QwordAt, Crc32.Crc;
    var e := EntryOf(m);
    var b, x, h := Pack(LocalFields(e)), LocalExtra(e), LocalEntry(m);
    LocalFieldsRead(e);
    Together(LOCAL_SIGNATURE, b, m.name, x, m.content);
    FieldWithin(h, b, 0);
    FieldWithin(h, b, 2);
    FieldWithin(h, b, 4);
    FieldWithin(h, b, 6);
    FieldWithin(h, b, 10);
    FieldWithin(h, b, 14);
    FieldWithin(h, b, 18);
    FieldWithin(h, b, 22);
    FieldWithin(h, b, 24);
    if m.mode.NO_COMPRESSION_64? {
      LocalExtraRead(e);
      InExtra(h, x, 30 + |m.name|);
    }
  }

  /** A directory header (sections 4.3.12, 4.4 and 4.5.3). */
  lemma {:induction false} CentralEntryBytes(p: Placed)
    requires CheckMember(p) == None
    ensures var m := p.member;
      var h, n, wide := CentralEntry(p), 46 + |m.name|, m.mode.NO_COMPRESSION_64?;
      && |h| == n + (if wide then 28 else 0)
      && h[0..4] == [0x50, 0x4b, 0x01, 0x02] && WordAt(h, 4) == WordAt(h, 6) == (if wide then 45 else 20)
      && h[8..10] == [0x00, 0x08] && WordAt(h, 10) == 0 && h[12..16] == m.modifiedAt
      && DwordAt(h, 16) == Crc32.Crc(m.content)
      && DwordAt(h, 20) == DwordAt(h, 24) == (if wide then 0xFFFF_FFFF else |m.content|)
      && WordAt(h, 28) == |m.name| && WordAt(h, 30) == (if wide then 28 else 0)
      && WordAt(h, 32) == WordAt(h, 34) == WordAt(h, 36) == 0
      && DwordAt(h, 38) == 65536 * m.perms + (if m.name != [] && m.name[|m.name| - 1] == 47 then 16 else 0)
      && DwordAt(h, 42) == (if wide then 0xFFFF_FFFF else p.offset) && h[46..n] == m.name
      && (wide ==>
           && h[n..n + 2] == [1, 0] && WordAt(h, n + 2) == 24
           && QwordAt(h, n + 4) == QwordAt(h, n + 12) == |m.content| && QwordAt(h, n + 20) == p.offset)
  {
    hide Pack, CentralFields, CentralExtra, WordAt, DwordAt, QwordAt, Crc32.Crc;
    var m, e := p.member, EntryOf(p.member);
    var b, x, h := Pack(CentralFields(e, p.offset)), CentralExtra(e, p.offset), CentralEntry(p);
    CentralFieldsRead(e, p.offset);
    Together(CENTRAL_SIGNATURE, b, m.name, x, []);
    assert x + [] == x;
    FieldWithin(h, b, 0);
    FieldWithin(h, b, 2);
    FieldWithin(h, b, 4);
    FieldWithin(h, b, 6);
    FieldWithin(h, b, 8);
    FieldWithin(h, b, 12);
    FieldWithin(h, b, 16);
    FieldWithin(h, b, 20);
    FieldWithin(h, b, 24);
    FieldWithin(h, b, 26);
    FieldWithin(h, b, 28);
    FieldWithin(h, b, 30);
    FieldWithin(h, b, 32);
    FieldWithin(h, b, 34);
    FieldWithin(h, b, 38);
    if m.mode.NO_COMPRESSION_64? {
      CentralExtraRead(e, p.offset);
      InExtra(h, x, 46 + |m.name|);
    }
  }

  /** Which member is refused, and why. */
  lemma {:induction false} Refused(p: Placed)
    ensures var limit := if p.member.mode.NO_COMPRESSION_64? then 0xFFFF_FFFF_FFFF_FFFF else 0xFFFF_FFFF;
      && (CheckMember(p) == Some(NameLengthOverflow) <==> |p.member.name| >= 65536)
      && (CheckMember(p) == Some(OffsetOverflow) <==> |p.member.name| < 65536 && p.offset > limit)
      && (CheckMember(p) == Some(UncompressedSizeOverflow)
          <==> |p.member.name| < 65536 && p.offset <= limit < |p.member.content|)
      && (CheckMember(p) == None
          <==> |p.member.name| < 65536 && p.offset <= limit && |p.member.content| <= limit)
  {
  }

  /** Which directory is refused, and why, once all members have been written. */
  lemma {:induction false} DirectoryRefused(ms: seq<Member>)
    requires AllFit(Place(ms, 0))
    ensures var ps := Place(ms, 0);
      var start, size, wide := |Body(ps)|, |Directory(ps)|, exists m :: m in ms && m.mode.NO_COMPRESSION_64?;
      && (Archive(ms) == Err(NumberOfEntriesOverflow)
          <==> if wide then start < 0x1_0000_0000_0000_0000 <= |ms| else start < 0x1_0000_0000 && |ms| >= 65536)
      && (Archive(ms) == Err(DirectorySizeOverflow)
          <==> !wide && start < 0x1_0000_0000 && |ms| < 65536 && size >= 0x1_0000_0000)
      && (Archive(ms) == Err(OffsetOverflow)
          <==> if wide then
                 start >= 0x1_0000_0000_0000_0000
                 || (|ms| < 0x1_0000_0000_0000_0000 && start + size >= 0x1_0000_0000_0000_0000)
               else start >= 0x1_0000_0000)
  {
    hide Place, Body, Directory, EndRecords, CheckMember;
    assert UsesZip64(ms) <==> exists m :: m in ms && m.mode.NO_COMPRESSION_64?;
  }

  // ---------- Bytes read ----------

  lemma {:induction false} FlagBits(b: Byte)
    ensures R.Bit(b, 16) || R.Bit(b, 32) || R.Bit(b, 64) <==> b / 16 % 8 != 0
    ensures R.Bit(b, 8) <==> b / 8 % 2 != 0
  {
    var q := b / 16;
    assert b / 32 == q / 2 && b / 64 == q / 4;
  }

  /** A local header refused by the reader: the first of these conditions to hold decides. */
  lemma {:induction false} HeaderRefused(data: Bytes)
    requires |data| >= 26
    ensures var n, x := WordAt(data, 22), WordAt(data, 24);
      var flagged := data[2] / 16 % 8 != 0 || data[3] / 32 % 2 != 0;
      var short := |data| < 26 + n + x;
      var streamed := data[2] / 8 % 2 != 0;
      var wide := DwordAt(data, 14) == DwordAt(data, 18) == 0xFFFF_FFFF;
      var extras := if short then map[] else ParseExtra(data[26 + n..26 + n + x]);
      var stored, known := WordAt(data, 4) == 0, WordAt(data, 4) == 0 || WordAt(data, 4) == 8 || WordAt(data, 4) == 9;
      match R.ParseHeader(data)
      case Bad(UnsupportedFlags) => flagged
      case Bad(TruncatedData) => !flagged && short
      case Bad(UnsupportedCompression(c)) => !flagged && !short && !known && c == WordAt(data, 4)
      case Bad(MissingZip64Extra) => !flagged && !short && known && !streamed && wide && [1, 0] !in extras
      case Bad(TruncatedZip64Extra) =>
        !flagged && !short && known && !streamed && wide && [1, 0] in extras && |extras[[1, 0]]| < 16
      case Bad(UnknownSize) => !flagged && !short && stored && streamed && wide
      case Bad(_) => false
      case Got(h, rest) =>
        && !flagged && !short && known && rest == data[26 + n + x..]
        && h.name == data[26..26 + n] && h.crc == DwordAt(data, 10) && h.descriptor == streamed && h.zip64 == wide
        && (if streamed && !stored then h.size == None
            else if wide then
              !streamed && [1, 0] in extras && |extras[[1, 0]]| >= 16
              && h.size == Some(QwordAt(extras[[1, 0]], 0))
            else h.size == Some(DwordAt(data, 18)))
  {
    hide ParseExtra, WordAt, DwordAt, QwordAt;
    assert data[2..4][0] == data[2] && data[2..4][1] == data[3];
    FlagBits(data[2]);
    assert ZIP64_EXTRA == [1, 0];
  }

  /** A data descriptor (section 4.3.9), with its signature or without, whatever sizes it gives. */
  lemma {:induction false} DescriptorRead(crc: U32, compressed: nat, uncompressed: nat, wide: bool, signed: bool,
                                          rest: Bytes)
    requires signed || LE(4, crc) != [0x50, 0x4b, 0x07, 0x08]
    ensures var n := if wide then 8 else 4;
      var d := LE(4, crc) + (LE(n, compressed) + LE(n, uncompressed));
      R.ParseDescriptor((if signed then [0x50, 0x4b, 0x07, 0x08] else []) + d + rest, wide) == R.Got(crc, rest)
  {
    hide LE, FromLE;
    var n := if wide then 8 else 4;
    var d := LE(4, crc) + (LE(n, compressed) + LE(n, uncompressed));
    var s: Bytes := if signed then [0x50, 0x4b, 0x07, 0x08] else [];
    var all := s + d + rest;
    WordWidths();
    FromLEOfLE(4, crc);
    assert all[|s|..|s| + 4] == LE(4, crc);
    assert all[|s| + |d|..] == rest;
    assert signed ==> all[..4] == s;
    assert !signed ==> all[..4] == LE(4, crc);
  }

  /** An extra field of complete blocks. */
  predicate Blocks(extra: Bytes)
    decreases |extra|
  {
    extra == [] || (4 <= |extra| && 4 + WordAt(extra, 2) <= |extra| && Blocks(extra[4 + WordAt(extra, 2)..]))
  }

  lemma {:induction false} FirstBlock(extra: Bytes, sofar: map<Bytes, Bytes>)
    requires 4 <= |extra| && 4 + WordAt(extra, 2) <= |extra|
    ensures var end := 4 + WordAt(extra, 2);
      ParseExtraInto(extra, sofar) == ParseExtraInto(extra[end..], sofar[extra[..2] := extra[4..end]])
  {
  }

  lemma {:induction false} OneBlock(tag: Bytes, data: Bytes, behind: Bytes)
    requires |tag| == 2 && |data| < 65536
    ensures var all := tag + (LE(2, |data|) + data) + behind;
      && 4 <= |all| && WordAt(all, 2) == |data| && all[..2] == tag && all[4..4 + |data|] == data
      && all[4 + |data|..] == behind
  {
    var all := tag + (LE(2, |data|) + data) + behind;
    WordWidths();
    FromLEOfLE(2, |data|);
    hide LE, FromLE;
    assert all[2..4] == LE(2, |data|);
  }

  lemma {:induction false} SameBlock(extra: Bytes, more: Bytes)
    requires 4 <= |extra| && 4 + WordAt(extra, 2) <= |extra|
    ensures var all, end := extra + more, 4 + WordAt(extra, 2);
      && WordAt(all, 2) == WordAt(extra, 2) && all[..2] == extra[..2] && all[4..end] == extra[4..end]
      && all[end..] == extra[end..] + more
  {
    hide FromLE;
    SliceLeft(extra, more, 2, 4);
    var end := 4 + WordAt(extra, 2);
    SliceLeft(extra, more, 4, end);
    assert (extra + more)[end..] == extra[end..] + more;
  }

  lemma {:induction false} NoBlock(sofar: map<Bytes, Bytes>)
    ensures ParseExtraInto([], sofar) == sofar
  {
  }

  lemma {:induction false} ExtraSnocInto(extra: Bytes, tag: Bytes, data: Bytes, sofar: map<Bytes, Bytes>)
    requires Blocks(extra) && |tag| == 2 && |data| < 65536
    ensures ParseExtraInto(extra + (tag + (LE(2, |data|) + data)), sofar) == ParseExtraInto(extra, sofar)[tag := data]
    decreases |extra|
  {
    hide LE, WordAt, ParseExtraInto;
    var last := tag + (LE(2, |data|) + data);
    if extra == [] {
      assert extra + last == last == last + [];
      OneBlock(tag, data, []);
      FirstBlock(last, sofar);
      NoBlock(sofar);
      NoBlock(sofar[tag := data]);
    } else {
      SameBlock(extra, last);
      FirstBlock(extra, sofar);
      FirstBlock(extra + last, sofar);
      var end := 4 + WordAt(extra, 2);
      ExtraSnocInto(extra[end..], tag, data, sofar[extra[..2] := extra[4..end]]);
    }
  }

  /** One more block at the end of an extra field replaces the data of its tag. */
  lemma {:induction false} ExtraSnoc(extra: Bytes, tag: Bytes, data: Bytes)
    requires Blocks(extra) && |tag| == 2 && |data| < 65536
    ensures ParseExtra(extra + (tag + (LE(2, |data|) + data))) == ParseExtra(extra)[tag := data]
  {
    ExtraSnocInto(extra, tag, data, map[]);
  }
}
