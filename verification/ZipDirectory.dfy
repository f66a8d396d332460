/** An independent, random-access reading of archives: from the end records to the central directory to the
    local headers, in the way PKWARE APPNOTE.TXT (sections 4.3.12 to 4.3.16 and 4.5.3) intends. The writer's
    archives are read back through it, which fixes every offset, size and count they store. */
module ZipDirectory {
  import opened Wrappers
  import opened Bytes
  import opened Struct
  import opened ZipFormat
  import opened ZipWriterSpec
  import Crc32

  /** A member found through the directory. */
  datatype Found = Found(name: Bytes, crc: U32, offset: nat, content: Bytes)

  /** Where the central directory is. */
  datatype End = End(count: nat, size: nat, start: nat)

  predicate Signed(a: Bytes, at: nat, signature: Bytes)
  {
    at + |signature| <= |a| && a[at..at + |signature|] == signature
  }

  /** The end record; a field of all ones refers to the zip64 record, if its locator is there. */
  function FindEnd(a: Bytes): Option<End>
  {
    if |a| < 22 || !Signed(a, |a| - 22, END_SIGNATURE) then None
    else
      var e := |a| - 22;
      var count, size, start := WordAt(a, e + 10), DwordAt(a, e + 12), DwordAt(a, e + 16);
      if count != MAX16 && size != MAX32 && start != MAX32 then Some(End(count, size, start))
      else if |a| < 42 || !Signed(a, |a| - 42, LOCATOR_SIGNATURE) then Some(End(count, size, start))
      else
        var at: nat := QwordAt(a, |a| - 34);
        if |a| < at + 56 || !Signed(a, at, END64_SIGNATURE) then None
        else Some(End(QwordAt(a, at + 32), QwordAt(a, at + 40), QwordAt(a, at + 48)))
  }

  /** A 32-bit field of all ones takes its value from the next eight bytes of the zip64 extra field. */
  function Widen(raw: U32, z: Bytes): (U64, Bytes)
  {
    if raw == MAX32 && 8 <= |z| then (QwordAt(z, 0), z[8..]) else (raw, z)
  }

  /** The file behind a local header, given its name and stored size. */
  function FetchContent(a: Bytes, offset: nat, name: Bytes, size: nat): Option<Bytes>
  {
    if |a| < offset + 30 || !Signed(a, offset, LOCAL_SIGNATURE) then None
    else
      var n, e: nat := WordAt(a, offset + 26), WordAt(a, offset + 28);
      var start := offset + 30 + n + e;
      if |a| < start + size || a[offset + 30..offset + 30 + n] != name then None
      else Some(a[start..start + size])
  }

  /** The directory entry at the front of `d`, followed to its file, and the rest of the directory. */
  function FollowEntry(a: Bytes, d: Bytes): Option<(Found, Bytes)>
  {
    if |d| < 46 || d[..4] != CENTRAL_SIGNATURE then None
    else
      var nameEnd: nat := 46 + WordAt(d, 28);
      var extraEnd: nat := nameEnd + WordAt(d, 30);
      var end: nat := extraEnd + WordAt(d, 32);
      if |d| < end then None
      else
        var extras := ParseExtra(d[nameEnd..extraEnd]);
        var z := if ZIP64_EXTRA in extras then extras[ZIP64_EXTRA] else [];
        var (uncompressed, z1) := Widen(DwordAt(d, 24), z);
        var (compressed, z2) := Widen(DwordAt(d, 20), z1);
        var (offset, _) := Widen(DwordAt(d, 42), z2);
        match FetchContent(a, offset, d[46..nameEnd], compressed)
        case None => None
        case Some(content) => Some((Found(d[46..nameEnd], DwordAt(d, 16), offset, content), d[end..]))
  }

  function FollowAll(a: Bytes, d: Bytes, count: nat): Option<(seq<Found>, Bytes)>
  {
    if count == 0 then Some(([], d))
    else match FollowEntry(a, d)
      case None => None
      case Some((found, rest)) =>
        match FollowAll(a, rest, count - 1)
        case None => None
        case Some((later, end)) => Some(([found] + later, end))
  }

  /** Every file of an archive by way of its directory, which must fill exactly the announced bytes. */
  function ReadByDirectory(a: Bytes): Option<seq<Found>>
  {
    match FindEnd(a)
    case None => None
    case Some(end) =>
      if |a| < end.start + end.size then None
      else match FollowAll(a, a[end.start..], end.count)
        case None => None
        case Some((found, rest)) => if rest == a[end.start + end.size..] then Some(found) else None
  }

  /** What the directory of written members should lead to. */
  function FoundAt(p: Placed): Found
    requires CheckMember(p) == None
  {
    Found(p.member.name, Crc32.Crc(p.member.content), p.offset, p.member.content)
  }

  /** A slice of a record somewhere in the archive. */
  lemma {:induction false} RecordSlice(before: Bytes, sig: Bytes, b: Bytes, after: Bytes, i: nat, j: nat)
    requires i <= j <= |b|
    ensures var at := |before| + |sig|;
            (before + (sig + (b + after)))[at + i..at + j] == b[i..j]
  {
    SliceLeft(b, after, i, j);
    SliceRight(sig, b + after, i, j);
    SliceRight(before, sig + (b + after), |sig| + i, |sig| + j);
  }

  /** An integer inside a record that follows a signature. */
  lemma {:induction false} InRecord(sig: Bytes, b: Bytes, rest: Bytes, i: nat)
    ensures i + 2 <= |b| ==> WordAt(sig + (b + rest), |sig| + i) == WordAt(b, i)
    ensures i + 4 <= |b| ==> DwordAt(sig + (b + rest), |sig| + i) == DwordAt(b, i)
  {
    hide FromLE;
    assert [] + (sig + (b + rest)) == sig + (b + rest);
    if i + 2 <= |b| {
      RecordSlice([], sig, b, rest, i, i + 2);
    }
    if i + 4 <= |b| {
      RecordSlice([], sig, b, rest, i, i + 4);
    }
  }

  /** The fields of a central header at their offsets. */
  lemma {:induction false} CentralHeaderRead(e: Entry, offset: U64, rest: Bytes)
    requires Recordable(e) && offset <= Maximum(e.mode)
    ensures var d := CENTRAL_SIGNATURE + (Pack(CentralFields(e, offset)) + rest);
            && |d| == 46 + |rest|
            && DwordAt(d, 16) == e.crc
            && DwordAt(d, 20) == DwordAt(d, 24) == HeaderSize(e)
            && WordAt(d, 28) == |e.name|
            && WordAt(d, 30) == |CentralExtra(e, offset)|
            && WordAt(d, 32) == 0
            && DwordAt(d, 42) == if e.mode.NO_COMPRESSION_64? then MAX32 else offset
  {
    hide Pack, CentralFields, WordAt, DwordAt, QwordAt;
    var b := Pack(CentralFields(e, offset));
    CentralFieldsRead(e, offset);
    InRecord(CENTRAL_SIGNATURE, b, rest, 12);
    InRecord(CENTRAL_SIGNATURE, b, rest, 16);
    InRecord(CENTRAL_SIGNATURE, b, rest, 20);
    InRecord(CENTRAL_SIGNATURE, b, rest, 24);
    InRecord(CENTRAL_SIGNATURE, b, rest, 26);
    InRecord(CENTRAL_SIGNATURE, b, rest, 28);
    InRecord(CENTRAL_SIGNATURE, b, rest, 38);
  }

  /** Sizes and offset as the zip64 extra field restores them. */
  lemma {:induction false} Widened(e: Entry, offset: U64)
    requires Recordable(e) && offset <= Maximum(e.mode)
    ensures var extras := ParseExtra(CentralExtra(e, offset));
            var z := if ZIP64_EXTRA in extras then extras[ZIP64_EXTRA] else [];
            var (uncompressed, z1) := Widen(HeaderSize(e), z);
            var (compressed, z2) := Widen(HeaderSize(e), z1);
            compressed == e.size
            && Widen(if e.mode.NO_COMPRESSION_64? then MAX32 else offset, z2).0 == offset
  {
    if e.mode.NO_COMPRESSION_64? {
      var fs, extra := CentralExtraFields(e, offset), CentralExtra(e, offset);
      ExtraOffsets(e, offset);
      FieldAt(fs, 0);
      FieldAt(fs, 1);
      FieldAt(fs, 2);
      FieldAt(fs, 3);
      FieldAt(fs, 4);
      hide Pack, CentralExtraFields, ParseExtra, FromLE;
      SingleExtra(extra);
      var z := extra[4..];
      assert extra[..2] == extra[0..2];
      assert z[0..8] == extra[4..12] && z[8..][0..8] == extra[12..20] && z[8..][8..][0..8] == extra[20..28];
    }
  }

  lemma {:induction false} LocalParts(s: Bytes, b: Bytes, name: Bytes, extra: Bytes, content: Bytes, after: Bytes)
    ensures (s + (b + (name + (extra + content)))) + after == s + (b + (name + (extra + (content + after))))
  {
  }

  lemma {:induction false} LocalEntryParts(m: Member, after: Bytes)
    requires Writable(m)
    ensures var e := EntryOf(m);
            LocalEntry(m) + after
            == LOCAL_SIGNATURE + (Pack(LocalFields(e)) + (m.name + (LocalExtra(e) + (m.content + after))))
  {
    hide Pack, LocalFields, LocalExtra;
    var e := EntryOf(m);
    LocalParts(LOCAL_SIGNATURE, Pack(LocalFields(e)), m.name, LocalExtra(e), m.content, after);
  }

  lemma {:induction false} InTail(before: Bytes, s: Bytes, b: Bytes, name: Bytes, extra: Bytes, content: Bytes,
                                  after: Bytes)
    ensures var a := before + (s + (b + (name + (extra + (content + after)))));
            var at := |before|;
            var n := at + |s| + |b|;
            var c := n + |name| + |extra|;
            && c + |content| <= |a|
            && a[at..at + |s|] == s && a[n..n + |name|] == name && a[c..c + |content|] == content
  {
  }

  /** A record at a known place in the archive. */
  lemma {:induction false} RecordAt(before: Bytes, sig: Bytes, b: Bytes, after: Bytes, i: nat)
    ensures var a := before + (sig + (b + after));
            var at := |before| + |sig| + i;
            && Signed(a, |before|, sig)
            && (i + 2 <= |b| ==> WordAt(a, at) == WordAt(b, i))
            && (i + 4 <= |b| ==> DwordAt(a, at) == DwordAt(b, i))
            && (i + 8 <= |b| ==> QwordAt(a, at) == QwordAt(b, i))
  {
    hide FromLE;
    SliceLeft(sig, b + after, 0, |sig|);
    SliceRight(before, sig + (b + after), 0, |sig|);
    if i + 2 <= |b| {
      RecordSlice(before, sig, b, after, i, i + 2);
    }
    if i + 4 <= |b| {
      RecordSlice(before, sig, b, after, i, i + 4);
    }
    if i + 8 <= |b| {
      RecordSlice(before, sig, b, after, i, i + 8);
    }
  }

  /** The local header of a placed member is where the archive has it, and its content behind it. */
  lemma {:induction false} Fetched(a: Bytes, p: Placed, before: Bytes, after: Bytes)
    requires CheckMember(p) == None && |before| == p.offset && a == before + (LocalEntry(p.member) + after)
    ensures FetchContent(a, p.offset, p.member.name, |p.member.content|) == Some(p.member.content)
  {
    hide Pack, LocalFields, LocalExtra, FromLE, WordAt, DwordAt, QwordAt, LocalEntry;
    var m, e := p.member, EntryOf(p.member);
    var b, extra := Pack(LocalFields(e)), LocalExtra(e);
    LocalFieldsRead(e);
    var tail := m.name + (extra + (m.content + after));
    LocalEntryParts(m, after);
    RecordAt(before, LOCAL_SIGNATURE, b, tail, 22);
    RecordAt(before, LOCAL_SIGNATURE, b, tail, 24);
    InTail(before, LOCAL_SIGNATURE, b, m.name, extra, m.content, after);
  }

  lemma {:induction false} EntryParts(head: Bytes, name: Bytes, extra: Bytes, rest: Bytes)
    ensures var d := head + (name + (extra + rest));
            var n, e := |head| + |name|, |head| + |name| + |extra|;
            d[|head|..n] == name && d[n..e] == extra && d[e..] == rest
  {
  }

  lemma {:induction false} CentralEntryParts(p: Placed, rest: Bytes)
    requires CheckMember(p) == None
    ensures var e := EntryOf(p.member);
            var b, extra := Pack(CentralFields(e, p.offset)), CentralExtra(e, p.offset);
            && CentralEntry(p) + rest == CENTRAL_SIGNATURE + (b + (e.name + (extra + rest)))
            && CentralEntry(p) + rest == (CENTRAL_SIGNATURE + b) + (e.name + (extra + rest))
  {
    hide Pack, CentralFields, CentralExtra;
    var e := EntryOf(p.member);
    LocalParts(CENTRAL_SIGNATURE, Pack(CentralFields(e, p.offset)), e.name, CentralExtra(e, p.offset), [], rest);
    assert CentralExtra(e, p.offset) + [] == CentralExtra(e, p.offset) && [] + rest == rest;
  }

  /** One directory entry leads to its member. */
  lemma {:induction false} Followed(a: Bytes, p: Placed, before: Bytes, after: Bytes, rest: Bytes)
    requires CheckMember(p) == None && |before| == p.offset && a == before + (LocalEntry(p.member) + after)
    ensures FollowEntry(a, CentralEntry(p) + rest) == Some((FoundAt(p), rest))
  {
    hide Pack, CentralFields, CentralExtra, CentralEntry, LocalEntry, FromLE, WordAt, DwordAt, QwordAt,
         FetchContent, ParseExtra, HeaderSize, Widen, Crc32.Crc;
    var e := EntryOf(p.member);
    var b, extra := Pack(CentralFields(e, p.offset)), CentralExtra(e, p.offset);
    CentralEntryParts(p, rest);
    CentralHeaderRead(e, p.offset, e.name + (extra + rest));
    EntryParts(CENTRAL_SIGNATURE + b, e.name, extra, rest);
    Widened(e, p.offset);
    Fetched(a, p, before, after);
  }

  function AllFound(ps: seq<Placed>): (found: seq<Found>)
    requires AllFit(ps)
    ensures |found| == |ps|
  {
    if ps == [] then [] else [FoundAt(ps[0])] + AllFound(ps[1..])
  }

  /** The whole directory leads to all members. */
  lemma {:induction false} FollowedAll(a: Bytes, ms: seq<Member>, before: Bytes, after: Bytes, rest: Bytes)
    requires AllFit(Place(ms, |before|)) && a == before + (Body(Place(ms, |before|)) + after)
    ensures var ps := Place(ms, |before|);
            FollowAll(a, Directory(ps) + rest, |ms|) == Some((AllFound(ps), rest))
  {
    hide CentralEntry, LocalEntry, FollowEntry, FoundAt;
    var ps := Place(ms, |before|);
    if ms == [] {
      assert [] + rest == rest;
    } else {
      var entry, body := LocalEntry(ms[0]), Body(ps[1..]);
      Associative(entry, body, after);
      Associative(before, entry, body + after);
      Associative(CentralEntry(ps[0]), Directory(ps[1..]), rest);
      Followed(a, ps[0], before, body + after, Directory(ps[1..]) + rest);
      FollowedAll(a, ms[1..], before + entry, after, rest);
    }
  }

  lemma {:induction false} EndFieldsRead(disk: U16, count: U16, size: U32, start: U32)
    ensures var b := Pack(EndFields(disk, count, size, start));
            && |b| == 18 && WordAt(b, 0) == WordAt(b, 2) == disk && WordAt(b, 4) == WordAt(b, 6) == count
            && DwordAt(b, 8) == size && DwordAt(b, 12) == start && WordAt(b, 16) == 0
  {
    var fs := EndFields(disk, count, size, start);
    PackLength(fs);
    assert Offset(fs, 1) == 2 && Offset(fs, 2) == 4;
    assert Offset(fs, 3) == 6;
    assert Offset(fs, 5) == 12 && Offset(fs, 6) == 16;
    hide Pack;
    FieldAt(fs, 0);
    FieldAt(fs, 1);
    FieldAt(fs, 2);
    FieldAt(fs, 3);
    FieldAt(fs, 4);
    FieldAt(fs, 5);
    FieldAt(fs, 6);
  }

  lemma {:induction false} LocatorFieldsRead(end: U64)
    ensures var b := Pack(LocatorFields(end));
            |b| == 16 && DwordAt(b, 0) == 0 && QwordAt(b, 4) == end && DwordAt(b, 12) == 1
  {
    var fs := LocatorFields(end);
    PackLength(fs);
    assert Offset(fs, 1) == 4 && Offset(fs, 2) == 12;
    hide Pack;
    FieldAt(fs, 0);
    FieldAt(fs, 1);
    FieldAt(fs, 2);
  }

  lemma {:induction false} End64FieldsRead(count: U64, size: U64, start: U64)
    ensures var b := Pack(End64Fields(count, size, start));
            && |b| == 52 && QwordAt(b, 0) == 44 && WordAt(b, 8) == WordAt(b, 10) == 45
            && DwordAt(b, 12) == DwordAt(b, 16) == 0 && QwordAt(b, 20) == QwordAt(b, 28) == count
            && QwordAt(b, 36) == size && QwordAt(b, 44) == start
  {
    var fs := End64Fields(count, size, start);
    PackLength(fs);
    assert Offset(fs, 1) == 8;
    assert Offset(fs, 2) == 10;
    assert Offset(fs, 3) == 12;
    assert Offset(fs, 4) == 16;
    assert Offset(fs, 5) == 20;
    assert Offset(fs, 6) == 28;
    assert Offset(fs, 7) == 36;
    assert Offset(fs, 8) == 44;
    hide Pack;
    FieldAt(fs, 0);
    FieldAt(fs, 1);
    FieldAt(fs, 2);
    FieldAt(fs, 3);
    FieldAt(fs, 4);
    FieldAt(fs, 5);
    FieldAt(fs, 6);
    FieldAt(fs, 7);
    FieldAt(fs, 8);
  }

  // ---------- The end records ----------

  /** The end records are where sections 4.3.14 to 4.3.16 want them: they fill the archive behind the directory, and say
      how many entries the directory has, how long it is and where it starts; the locator points at the zip64 record. */
  predicate Located(a: Bytes, zip64: bool, end: End)
  {
    var at := end.start + end.size;
    && |a| == at + (if zip64 then 98 else 22) && Signed(a, |a| - 22, END_SIGNATURE)
    && if zip64 then
         && Signed(a, at, END64_SIGNATURE)
         && QwordAt(a, at + 4) == 44 && QwordAt(a, at + 24) == QwordAt(a, at + 32) == end.count
         && QwordAt(a, at + 40) == end.size && QwordAt(a, at + 48) == end.start
         && Signed(a, |a| - 42, LOCATOR_SIGNATURE) && QwordAt(a, |a| - 34) == at && DwordAt(a, |a| - 26) == 1
         && WordAt(a, |a| - 18) == WordAt(a, |a| - 16) == MAX16
         && WordAt(a, |a| - 14) == WordAt(a, |a| - 12) == MAX16
         && DwordAt(a, |a| - 10) == MAX32 && DwordAt(a, |a| - 6) == MAX32 && WordAt(a, |a| - 2) == 0
       else
         && WordAt(a, |a| - 18) == WordAt(a, |a| - 16) == 0
         && WordAt(a, |a| - 14) == WordAt(a, |a| - 12) == end.count
         && DwordAt(a, |a| - 10) == end.size && DwordAt(a, |a| - 6) == end.start && WordAt(a, |a| - 2) == 0
  }

  lemma {:induction false} Regrouped(x: Bytes, s: Bytes, b: Bytes, rest: Bytes)
    ensures x + (s + (b + rest)) == (x + (s + b)) + rest
  {
  }

  lemma {:induction false} EndRecordAt(x: Bytes, b: Bytes)
    requires |b| == 18
    ensures var a, at := x + (END_SIGNATURE + (b + [])), |x| + 4;
      && Signed(a, |x|, END_SIGNATURE) && |a| == at + 18
      && WordAt(a, at) == WordAt(b, 0) && WordAt(a, at + 2) == WordAt(b, 2)
      && WordAt(a, at + 4) == WordAt(b, 4) && WordAt(a, at + 6) == WordAt(b, 6)
      && DwordAt(a, at + 8) == DwordAt(b, 8) && DwordAt(a, at + 12) == DwordAt(b, 12)
      && WordAt(a, at + 16) == WordAt(b, 16)
  {
    hide WordAt, DwordAt, QwordAt;
    RecordAt(x, END_SIGNATURE, b, [], 0);
    RecordAt(x, END_SIGNATURE, b, [], 2);
    RecordAt(x, END_SIGNATURE, b, [], 4);
    RecordAt(x, END_SIGNATURE, b, [], 6);
    RecordAt(x, END_SIGNATURE, b, [], 8);
    RecordAt(x, END_SIGNATURE, b, [], 12);
    RecordAt(x, END_SIGNATURE, b, [], 16);
  }

  lemma {:induction false} End64Located(x: Bytes, count: U64, size: U64, start: U64)
    requires |x| == start + size <= MAX64
    ensures Located(x + EndRecords(true, count, size, start), true, End(count, size, start))
  {
    hide Pack, EndFields, LocatorFields, End64Fields, FromLE, WordAt, DwordAt, QwordAt;
    var b64, bl := Pack(End64Fields(count, size, start)), Pack(LocatorFields(start + size));
    var be := Pack(EndFields(MAX16, MAX16, MAX32, MAX32));
    End64FieldsRead(count, size, start);
    LocatorFieldsRead(start + size);
    EndFieldsRead(MAX16, MAX16, MAX32, MAX32);
    var end := END_SIGNATURE + (be + []);
    var locator := LOCATOR_SIGNATURE + (bl + end);
    assert be + [] == be;
    var x1 := x + (END64_SIGNATURE + b64);
    var x2 := x1 + (LOCATOR_SIGNATURE + bl);
    var a := x + (END64_SIGNATURE + (b64 + locator));
    Regrouped(x, END64_SIGNATURE, b64, locator);
    Regrouped(x1, LOCATOR_SIGNATURE, bl, end);
    RecordAt(x, END64_SIGNATURE, b64, locator, 0);
    RecordAt(x, END64_SIGNATURE, b64, locator, 20);
    RecordAt(x, END64_SIGNATURE, b64, locator, 28);
    RecordAt(x, END64_SIGNATURE, b64, locator, 36);
    RecordAt(x, END64_SIGNATURE, b64, locator, 44);
    RecordAt(x1, LOCATOR_SIGNATURE, bl, end, 4);
    RecordAt(x1, LOCATOR_SIGNATURE, bl, end, 12);
    EndRecordAt(x2, be);
    assert a == x2 + end && a == x1 + locator;
  }

  lemma {:induction false} End32Located(x: Bytes, count: U16, size: U32, start: U32)
    requires |x| == start + size
    ensures Located(x + EndRecords(false, count, size, start), false, End(count, size, start))
  {
    hide Pack, EndFields, FromLE, WordAt, DwordAt, QwordAt;
    var be := Pack(EndFields(0, count, size, start));
    EndFieldsRead(0, count, size, start);
    assert be + [] == be;
    EndRecordAt(x, be);
  }

  /** No field of a 32-bit archive is all ones, or the bytes in front of its end record do not begin like a locator. */
  predicate Unambiguous(a: Bytes, zip64: bool, end: End)
  {
    zip64 || (end.count != MAX16 && end.size != MAX32 && end.start != MAX32)
    || |a| < 42 || !Signed(a, |a| - 42, LOCATOR_SIGNATURE)
  }

  /** These bytes, taken for a locator, lead to a zip64 record with the right values after all. */
  predicate LeadsBack(a: Bytes, end: End)
    requires |a| >= 42
  {
    var at: nat := QwordAt(a, |a| - 34);
    && at + 56 <= |a| && Signed(a, at, END64_SIGNATURE)
    && End(QwordAt(a, at + 32), QwordAt(a, at + 40), QwordAt(a, at + 48)) == end
  }

  /** The end records are understood exactly if no stray bytes are taken for a locator, or these lead back. */
  lemma {:induction false} EndFound(a: Bytes, zip64: bool, end: End)
    requires Located(a, zip64, end)
    ensures FindEnd(a) == Some(end) <==> Unambiguous(a, zip64, end) || LeadsBack(a, end)
  {
    hide WordAt, DwordAt, QwordAt;
  }

  // ---------- The directory ----------

  /** Every offset, size, count and checksum the writer stores is right, in every archive: the end records are in place,
      and following the directory finds each member's name and content, at the position where it was written. */
  lemma {:induction false} DirectoryLocated(ms: seq<Member>)
    requires Archive(ms).Ok?
    ensures AllFit(Place(ms, 0))
    ensures var a, ps := Archive(ms).value, Place(ms, 0);
            var body, directory := Body(ps), Directory(ps);
            var rest := a[|body| + |directory|..];
            && a == body + (directory + rest)
            && Located(a, UsesZip64(ms), End(|ms|, |directory|, |body|))
            && FollowAll(a, a[|body|..], |ms|) == Some((AllFound(ps), rest))
  {
    hide EndRecords, Located, Body, Directory, Place, FollowAll;
    var a, ps := Archive(ms).value, Place(ms, 0);
    var body, directory := Body(ps), Directory(ps);
    var end := EndRecords(UsesZip64(ms), |ms|, |directory|, |body|);
    Associative(body, directory, end);
    assert a == (body + directory) + end;
    if UsesZip64(ms) {
      End64Located(body + directory, |ms|, |directory|, |body|);
    } else {
      End32Located(body + directory, |ms|, |directory|, |body|);
    }
    assert [] + a == a;
    FollowedAll(a, ms, [], directory + end, end);
    assert a[|body|..] == directory + end && a[|body| + |directory|..] == end;
  }

  /** A reader that starts at the end finds the directory exactly under the condition above, and then all members. */
  lemma {:induction false} DirectoryRoundTrip(ms: seq<Member>)
    requires Archive(ms).Ok?
    ensures AllFit(Place(ms, 0))
    ensures var a, ps := Archive(ms).value, Place(ms, 0);
            var end := End(|ms|, |Directory(ps)|, |Body(ps)|);
            && (FindEnd(a) == Some(end) <==> Unambiguous(a, UsesZip64(ms), end) || LeadsBack(a, end))
            && (FindEnd(a) == Some(end) ==> ReadByDirectory(a) == Some(AllFound(ps)))
  {
    hide Archive, FindEnd, Body, Directory, Place, Unambiguous, LeadsBack, Located, FollowAll;
    var a, ps := Archive(ms).value, Place(ms, 0);
    DirectoryLocated(ms);
    EndFound(a, UsesZip64(ms), End(|ms|, |Directory(ps)|, |Body(ps)|));
  }

  /** The members found are the members written. */
  lemma {:induction false} FoundAtIndex(ms: seq<Member>, offset: nat, i: nat)
    requires AllFit(Place(ms, offset)) && i < |ms|
    ensures AllFound(Place(ms, offset))[i]
         == Found(ms[i].name, Crc32.Crc(ms[i].content), EndOf(ms[..i], offset), ms[i].content)
    decreases i
  {
    hide LocalSize, Crc32.Crc;
    if i > 0 {
      var ps, later := Place(ms, offset), Place(ms[1..], offset + LocalSize(ms[0]));
      assert forall k :: 0 <= k < |later| ==> later[k] == ps[k + 1];
      FoundAtIndex(ms[1..], offset + LocalSize(ms[0]), i - 1);
      assert ms[..i][1..] == ms[1..][..i - 1];
    }
  }
}
