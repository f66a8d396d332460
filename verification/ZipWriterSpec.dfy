/** The archive the streaming writer produces for a list of files, as a function of their contents. */
module ZipWriterSpec {
  import opened Wrappers
  import opened Bytes
  import opened Struct
  import opened ZipFormat
  import Crc32

  datatype Mode = NO_COMPRESSION_32 | NO_COMPRESSION_64

  /** The packed MS-DOS date and time of a file. */
  type Time = t: Bytes | |t| == 4 witness [0, 0, 0, 0]

  datatype Member = Member(name: Bytes, modifiedAt: Time, perms: U16, mode: Mode, content: Bytes)

  datatype Error = NameLengthOverflow | OffsetOverflow | UncompressedSizeOverflow | NumberOfEntriesOverflow
                 | DirectorySizeOverflow

  function Maximum(mode: Mode): nat
  {
    if mode.NO_COMPRESSION_64? then MAX64 else MAX32
  }

  predicate Writable(m: Member)
  {
    |m.name| <= MAX16 && |m.content| <= Maximum(m.mode)
  }

  /** What the headers record about a member. */
  datatype Entry = Entry(name: Bytes, modifiedAt: Time, perms: U16, mode: Mode, size: U64, crc: U32)

  function EntryOf(m: Member): Entry
    requires Writable(m)
  {
    Entry(m.name, m.modifiedAt, m.perms, m.mode, |m.content|, Crc32.Crc(m.content))
  }

  predicate Recordable(e: Entry)
  {
    |e.name| <= MAX16 && e.size <= Maximum(e.mode)
  }

  function Version(mode: Mode): U16
  {
    if mode.NO_COMPRESSION_64? then 45 else 20
  }

  /** A size as the header stores it: all ones when the zip64 extra field carries it. */
  function HeaderSize(e: Entry): U32
    requires Recordable(e)
  {
    if e.mode.NO_COMPRESSION_64? then MAX32 else e.size
  }

  const UTF8_FLAGS: Bytes := [0x00, 0x08]

  /** `<2sHQQ` (section 4.5.3) */
  function LocalExtraFields(e: Entry): seq<Field>
  {
    [S(ZIP64_EXTRA), H(16), Q(e.size), Q(e.size)]
  }

  /** `<2sHQQQ` (section 4.5.3) */
  function CentralExtraFields(e: Entry, offset: U64): seq<Field>
  {
    [S(ZIP64_EXTRA), H(24), Q(e.size), Q(e.size), Q(offset)]
  }

  lemma {:induction false} ExtraOffsets(e: Entry, offset: U64)
    ensures var fs := LocalExtraFields(e);
            Offset(fs, 1) == 2 && Offset(fs, 2) == 4 && Offset(fs, 3) == 12 && |Pack(fs)| == 20
    ensures var fs := CentralExtraFields(e, offset);
            && Offset(fs, 1) == 2 && Offset(fs, 2) == 4 && Offset(fs, 3) == 12 && Offset(fs, 4) == 20
            && |Pack(fs)| == 28
  {
    PackLength(LocalExtraFields(e));
    PackLength(CentralExtraFields(e, offset));
  }

  function LocalExtra(e: Entry): (extra: Bytes)
    ensures |extra| == if e.mode.NO_COMPRESSION_64? then 20 else 0
  {
    if e.mode.NO_COMPRESSION_32? then []
    else
      ExtraOffsets(e, 0);
      Pack(LocalExtraFields(e))
  }

  /** `<H2sH4sIIIHH` */
  function LocalFields(e: Entry): seq<Field>
    requires Recordable(e)
  {
    [H(Version(e.mode)), S(UTF8_FLAGS), H(0), S(e.modifiedAt), I(e.crc), I(HeaderSize(e)), I(HeaderSize(e)),
     H(|e.name|), H(|LocalExtra(e)|)]
  }

  lemma {:induction false} LocalOffsets(e: Entry)
    requires Recordable(e)
    ensures var fs := LocalFields(e);
            && Offset(fs, 1) == 2 && Offset(fs, 2) == 4 && Offset(fs, 3) == 6 && Offset(fs, 4) == 10
            && Offset(fs, 5) == 14 && Offset(fs, 6) == 18 && Offset(fs, 7) == 22 && Offset(fs, 8) == 24
            && |Pack(fs)| == 26
  {
    PackLength(LocalFields(e));
  }

  /** The fields of a packed local header, read at fixed offsets. */
  lemma {:induction false} LocalFieldsRead(e: Entry)
    requires Recordable(e)
    ensures var b := Pack(LocalFields(e));
            && |b| == 26
            && WordAt(b, 0) == (if e.mode.NO_COMPRESSION_64? then 45 else 20)
            && b[2..4] == UTF8_FLAGS && WordAt(b, 4) == 0 && b[6..10] == e.modifiedAt && DwordAt(b, 10) == e.crc
            && DwordAt(b, 14) == DwordAt(b, 18) == HeaderSize(e)
            && WordAt(b, 22) == |e.name| && WordAt(b, 24) == |LocalExtra(e)|
  {
    hide Pack;
    var fs := LocalFields(e);
    LocalOffsets(e);
    FieldAt(fs, 0);
    FieldAt(fs, 1);
    FieldAt(fs, 2);
    FieldAt(fs, 3);
    FieldAt(fs, 4);
    FieldAt(fs, 5);
    FieldAt(fs, 6);
    FieldAt(fs, 7);
    FieldAt(fs, 8);
  }

  /** Bytes a member takes up before the central directory. */
  function LocalSize(m: Member): nat
  {
    30 + |m.name| + (if m.mode.NO_COMPRESSION_64? then 20 else 0) + |m.content|
  }

  /** Local file header and data of a member (sections 4.3.7 and 4.3.8). */
  function LocalEntry(m: Member): (b: Bytes)
    requires Writable(m)
    ensures |b| == LocalSize(m)
  {
    var e := EntryOf(m);
    LocalOffsets(e);
    LOCAL_SIGNATURE + (Pack(LocalFields(e)) + (m.name + (LocalExtra(e) + m.content)))
  }

  function CentralExtra(e: Entry, offset: U64): (extra: Bytes)
    ensures |extra| == if e.mode.NO_COMPRESSION_64? then 28 else 0
  {
    if e.mode.NO_COMPRESSION_32? then []
    else
      ExtraOffsets(e, offset);
      Pack(CentralExtraFields(e, offset))
  }

  /** MS-DOS attributes: the Unix permissions, and the directory bit for a name ending in a slash. */
  function ExternalAttributes(e: Entry): U32
  {
    e.perms * 0x1_0000 + if e.name != [] && e.name[|e.name| - 1] == 0x2f then 0x10 else 0
  }

  /** `<HH2sH4sIIIHHHHHII` */
  function CentralFields(e: Entry, offset: U64): seq<Field>
    requires Recordable(e) && offset <= Maximum(e.mode)
  {
    [H(Version(e.mode)), H(Version(e.mode)), S(UTF8_FLAGS), H(0), S(e.modifiedAt), I(e.crc),
     I(HeaderSize(e)), I(HeaderSize(e)), H(|e.name|), H(|CentralExtra(e, offset)|), H(0), H(0), H(0),
     I(ExternalAttributes(e)), I(if e.mode.NO_COMPRESSION_64? then MAX32 else offset)]
  }

  lemma {:induction false} CentralOffsets(e: Entry, offset: U64)
    requires Recordable(e) && offset <= Maximum(e.mode)
    ensures var fs := CentralFields(e, offset);
            && Offset(fs, 1) == 2 && Offset(fs, 2) == 4 && Offset(fs, 3) == 6 && Offset(fs, 4) == 8
            && Offset(fs, 5) == 12 && Offset(fs, 6) == 16
            && Offset(fs, 7) == 20 && Offset(fs, 8) == 24 && Offset(fs, 9) == 26 && Offset(fs, 10) == 28
            && Offset(fs, 11) == 30 && Offset(fs, 12) == 32 && Offset(fs, 13) == 34 && Offset(fs, 14) == 38
            && |Pack(fs)| == 42
  {
    hide Pack, CentralExtra, ExternalAttributes, HeaderSize;
    var fs := CentralFields(e, offset);
    PackLength(fs);
    assert Offset(fs, 5) == 12;
    assert Offset(fs, 10) == 28;
  }

  /** The fields of a packed central header, read at fixed offsets. */
  lemma {:induction false} CentralFieldsRead(e: Entry, offset: U64)
    requires Recordable(e) && offset <= Maximum(e.mode)
    ensures var b := Pack(CentralFields(e, offset));
            && |b| == 42
            && WordAt(b, 0) == WordAt(b, 2) == (if e.mode.NO_COMPRESSION_64? then 45 else 20)
            && b[4..6] == UTF8_FLAGS && WordAt(b, 6) == 0 && b[8..12] == e.modifiedAt
            && DwordAt(b, 12) == e.crc && DwordAt(b, 16) == DwordAt(b, 20) == HeaderSize(e)
            && WordAt(b, 24) == |e.name| && WordAt(b, 26) == |CentralExtra(e, offset)|
            && WordAt(b, 28) == WordAt(b, 30) == WordAt(b, 32) == 0
            && DwordAt(b, 34) == ExternalAttributes(e)
            && DwordAt(b, 38) == if e.mode.NO_COMPRESSION_64? then MAX32 else offset
  {
    hide Pack;
    var fs := CentralFields(e, offset);
    hide ExternalAttributes;
    CentralOffsets(e, offset);
    FieldAt(fs, 0);
    FieldAt(fs, 1);
    FieldAt(fs, 2);
    FieldAt(fs, 3);
    FieldAt(fs, 4);
    FieldAt(fs, 5);
    FieldAt(fs, 6);
    FieldAt(fs, 7);
    FieldAt(fs, 8);
    FieldAt(fs, 9);
    FieldAt(fs, 10);
    FieldAt(fs, 11);
    FieldAt(fs, 12);
    FieldAt(fs, 13);
    FieldAt(fs, 14);
  }

  /** A member and the position of its local header. */
  datatype Placed = Placed(member: Member, offset: nat)

  /** Members laid out one behind the other from an offset. */
  function Place(ms: seq<Member>, offset: nat): (ps: seq<Placed>)
    ensures |ps| == |ms|
  {
    if ms == [] then [] else [Placed(ms[0], offset)] + Place(ms[1..], offset + LocalSize(ms[0]))
  }

  /** The checks made before a member is written. */
  function CheckMember(p: Placed): Option<Error>
  {
    var limit := Maximum(p.member.mode);
    if |p.member.name| > MAX16 then Some(NameLengthOverflow)
    else if p.offset > limit then Some(OffsetOverflow)
    else if |p.member.content| > limit then Some(UncompressedSizeOverflow)
    else None
  }

  predicate AllFit(ps: seq<Placed>)
  {
    forall i :: 0 <= i < |ps| ==> CheckMember(ps[i]) == None
  }

  /** The first check that fails. */
  function CheckMembers(ps: seq<Placed>): (e: Option<Error>)
    ensures e == None <==> AllFit(ps)
  {
    if ps == [] then None
    else match CheckMember(ps[0])
      case Some(e) => Some(e)
      case None =>
        assert forall i :: 1 <= i < |ps| ==> ps[i] == ps[1..][i - 1];
        CheckMembers(ps[1..])
  }

  function CentralSize(m: Member): nat
  {
    46 + |m.name| + if m.mode.NO_COMPRESSION_64? then 28 else 0
  }

  /** Central directory header of a member (section 4.3.12). */
  function CentralEntry(p: Placed): (b: Bytes)
    requires CheckMember(p) == None
    ensures |b| == CentralSize(p.member)
  {
    var e := EntryOf(p.member);
    CentralOffsets(e, p.offset);
    CENTRAL_SIGNATURE + (Pack(CentralFields(e, p.offset)) + (e.name + CentralExtra(e, p.offset)))
  }

  /** All local entries. */
  function Body(ps: seq<Placed>): Bytes
    requires AllFit(ps)
  {
    if ps == [] then [] else LocalEntry(ps[0].member) + Body(ps[1..])
  }

  /** The central directory. */
  function Directory(ps: seq<Placed>): Bytes
    requires AllFit(ps)
  {
    if ps == [] then [] else CentralEntry(ps[0]) + Directory(ps[1..])
  }

  predicate UsesZip64(ms: seq<Member>)
  {
    exists i :: 0 <= i < |ms| && ms[i].mode.NO_COMPRESSION_64?
  }

  /** `<QHHIIQQQQ` */
  function End64Fields(count: U64, size: U64, start: U64): seq<Field>
  {
    [Q(44), H(45), H(45), I(0), I(0), Q(count), Q(count), Q(size), Q(start)]
  }

  /** `<IQI` */
  function LocatorFields(end: U64): seq<Field>
  {
    [I(0), Q(end), I(1)]
  }

  /** `<HHHHIIH` */
  function EndFields(disk: U16, count: U16, size: U32, start: U32): seq<Field>
  {
    [H(disk), H(disk), H(count), H(count), I(size), I(start), H(0)]
  }

  /** The end of central directory records (sections 4.3.14 to 4.3.16). */
  function EndRecords(zip64: bool, count: U64, size: U64, start: U64): Bytes
    requires start + size <= MAX64
    requires !zip64 ==> count <= MAX16 && size <= MAX32 && start <= MAX32
  {
    if zip64 then
      END64_SIGNATURE + (Pack(End64Fields(count, size, start)) +
      (LOCATOR_SIGNATURE + (Pack(LocatorFields(start + size)) +
      (END_SIGNATURE + Pack(EndFields(MAX16, MAX16, MAX32, MAX32))))))
    else
      END_SIGNATURE + Pack(EndFields(0, count, size, start))
  }

  /** The directory cannot start here, or cannot have so many entries. */
  predicate Crowded(zip64: bool, count: nat, start: nat)
  {
    start > (if zip64 then MAX64 else MAX32) || count > (if zip64 then MAX64 else MAX16)
  }

  /** A directory from `start` of this size can be recorded. */
  predicate Within(zip64: bool, start: nat, size: nat)
  {
    if zip64 then start + size <= MAX64 else size <= MAX32
  }

  /** The writer fails after the first `n` members and `k` directory records have been put out: at a member that does
      not fit, before the directory, or behind the first record with which the directory is too large. */
  predicate Stops(ms: seq<Member>, n: nat, k: nat)
  {
    var ps, zip64 := Place(ms, 0), UsesZip64(ms);
    && k <= n <= |ps| && AllFit(ps[..n])
    && if n < |ps| then k == 0 && CheckMember(ps[n]).Some?
       else if Crowded(zip64, n, |Body(ps[..n])|) then k == 0
       else
         && 0 < k
         && AllFit(ps[..k - 1]) && Within(zip64, |Body(ps[..n])|, |Directory(ps[..k - 1])|)
         && AllFit(ps[..k]) && !Within(zip64, |Body(ps[..n])|, |Directory(ps[..k])|)
  }

  /** What has been put out by then. */
  function PutOut(ms: seq<Member>, n: nat, k: nat): Bytes
    requires Stops(ms, n, k)
  {
    var ps := Place(ms, 0);
    assert forall i :: 0 <= i < k ==> ps[..k][i] == ps[..n][i];
    Body(ps[..n]) + Directory(ps[..k])
  }

  /** The checks made on the central directory, and the records that close the archive. */
  function Finish(zip64: bool, count: nat, body: Bytes, directory: Bytes): Result<Bytes, Error>
  {
    if |body| > (if zip64 then MAX64 else MAX32) then Err(OffsetOverflow)
    else if count > (if zip64 then MAX64 else MAX16) then Err(NumberOfEntriesOverflow)
    else if zip64 && |body| + |directory| > MAX64 then Err(OffsetOverflow)
    else if !zip64 && |directory| > MAX32 then Err(DirectorySizeOverflow)
    else Ok(body + (directory + EndRecords(zip64, count, |directory|, |body|)))
  }

  /** The whole archive, or the error that stops the writer. */
  function Archive(ms: seq<Member>): Result<Bytes, Error>
  {
    var ps := Place(ms, 0);
    match CheckMembers(ps)
    case Some(e) => Err(e)
    case None => Finish(UsesZip64(ms), |ms|, Body(ps), Directory(ps))
  }

  function EndOf(ms: seq<Member>, offset: nat): nat
  {
    if ms == [] then offset else EndOf(ms[1..], offset + LocalSize(ms[0]))
  }

  lemma {:induction false} PlaceConcat(ms: seq<Member>, more: seq<Member>, offset: nat)
    ensures Place(ms + more, offset) == Place(ms, offset) + Place(more, EndOf(ms, offset))
  {
    if ms == [] {
      assert [] + more == more;
    } else {
      assert (ms + more)[1..] == ms[1..] + more;
      PlaceConcat(ms[1..], more, offset + LocalSize(ms[0]));
    }
  }

  lemma {:induction false} PlaceSnoc(ms: seq<Member>, m: Member)
    ensures Place(ms + [m], 0) == Place(ms, 0) + [Placed(m, EndOf(ms, 0))]
  {
    PlaceConcat(ms, [m], 0);
    assert [m][1..] == [];
  }

  lemma {:induction false} BodyLength(ms: seq<Member>, offset: nat)
    requires AllFit(Place(ms, offset))
    ensures EndOf(ms, offset) == offset + |Body(Place(ms, offset))|
  {
    if ms == [] {
    } else {
      assert Place(ms, offset)[1..] == Place(ms[1..], offset + LocalSize(ms[0]));
      BodyLength(ms[1..], offset + LocalSize(ms[0]));
    }
  }

  lemma {:induction false} BodySnoc(ps: seq<Placed>, p: Placed)
    requires AllFit(ps) && CheckMember(p) == None
    ensures AllFit(ps + [p]) && Body(ps + [p]) == Body(ps) + LocalEntry(p.member)
  {
    if ps == [] {
      assert [] + [p] == [p] && [p][1..] == [];
      assert Body([p]) == LocalEntry(p.member) + Body([]);
    } else {
      assert (ps + [p])[1..] == ps[1..] + [p];
      BodySnoc(ps[1..], p);
      Associative(LocalEntry(ps[0].member), Body(ps[1..]), LocalEntry(p.member));
    }
  }

  lemma {:induction false} DirectorySnoc(ps: seq<Placed>, p: Placed)
    requires AllFit(ps) && CheckMember(p) == None
    ensures AllFit(ps + [p]) && Directory(ps + [p]) == Directory(ps) + CentralEntry(p)
  {
    if ps == [] {
      assert [] + [p] == [p] && [p][1..] == [];
      assert Directory([p]) == CentralEntry(p) + Directory([]);
    } else {
      assert (ps + [p])[1..] == ps[1..] + [p];
      DirectorySnoc(ps[1..], p);
      Associative(CentralEntry(ps[0]), Directory(ps[1..]), CentralEntry(p));
    }
  }

  lemma {:induction false} ChecksConcat(ps: seq<Placed>, qs: seq<Placed>)
    ensures CheckMembers(ps + qs) == if AllFit(ps) then CheckMembers(qs) else CheckMembers(ps)
  {
    if ps == [] {
      assert [] + qs == qs;
    } else {
      assert (ps + qs)[1..] == ps[1..] + qs;
      ChecksConcat(ps[1..], qs);
    }
  }
}
