/** Archives and streams at the edges of what the writer and the readers promise. */
module ZipEdges {
  import opened Wrappers
  import opened Bytes
  import opened Struct
  import opened ZipFormat
  import opened ZipWriterSpec
  import R = ZipReaderSpec
  import ZipDirectory
  import ZipFailure
  import ZipRoundTrip
  import ZipStreaming
  import ZipWriter
  import FileUtils

  const NO_TIME: Time := [0, 0, 0, 0]

  function Plain(name: Bytes, mode: Mode, content: Bytes): Member
  {
    Member(name, NO_TIME, 0, mode, content)
  }

  lemma {:induction false} OneMember(m: Member, offset: nat)
    ensures Place([m], offset) == [Placed(m, offset)]
    ensures EndOf([m], offset) == offset + LocalSize(m)
  {
    assert [m][1..] == [];
    assert Place([], offset + LocalSize(m)) == [];
  }

  // ---------- 32-bit members of 0xFFFFFFFF bytes ----------

  lemma {:induction false} EndIsBehind(ms: seq<Member>, offset: nat)
    ensures offset <= EndOf(ms, offset)
  {
    if ms == [] {
    } else {
      EndIsBehind(ms[1..], offset + LocalSize(ms[0]));
    }
  }

  lemma {:induction false} SizesAdd(ms: seq<Member>, offset: nat, i: nat)
    requires i < |ms|
    ensures offset + LocalSize(ms[i]) <= EndOf(ms, offset)
  {
    if i == 0 {
      EndIsBehind(ms[1..], offset + LocalSize(ms[0]));
    } else {
      SizesAdd(ms[1..], offset + LocalSize(ms[0]), i - 1);
    }
  }

  /** Without a 64-bit member beside it, a 32-bit member of 0xFFFFFFFF bytes is refused by the writer. */
  lemma {:induction false} SmallArchivesAreReadable(ms: seq<Member>)
    requires Archive(ms).Ok? && !UsesZip64(ms)
    ensures forall i :: 0 <= i < |ms| ==> ZipRoundTrip.Readable(ms[i])
  {
    hide EndRecords, Directory, Body, Place;
    BodyLength(ms, 0);
    forall i | 0 <= i < |ms|
      ensures ZipRoundTrip.Readable(ms[i])
    {
      SizesAdd(ms, 0, i);
    }
  }

  lemma {:induction false} InChunks(a: Bytes, surplus: bool, chunks: seq<Bytes>)
    requires chunks == (if surplus then [a, []] else [a]) && a != []
    ensures Concat(chunks) == a && R.EndsEmpty(chunks) == surplus
  {
    assert a + [] == a;
    if surplus {
      assert chunks[1..] == [[]] && chunks[1..][1..] == [];
      assert Concat([[]]) == [];
    } else {
      assert chunks[1..] == [];
    }
  }

  lemma {:induction false} TwoMembers(m: Member, n: Member)
    requires m.mode.NO_COMPRESSION_64? && n.mode.NO_COMPRESSION_32? && |n.content| == MAX32
    requires |m.name| == |n.name| == |m.content| == 0
    ensures Archive([m, n]).Ok?
    ensures forall surplus :: R.Extract(Archive([m, n]).value, surplus)
                           == R.Extraction([ZipRoundTrip.FileOf(m)], R.Failed(R.MissingZip64Extra))
  {
    hide R.Extract, EndRecords, LocalEntry, CentralEntry;
    var ms := [m, n];
    assert ms[1..] == [n];
    OneMember(n, LocalSize(m));
    var ps := Place(ms, 0);
    assert ps == [Placed(m, 0), Placed(n, LocalSize(m))];
    BodyLength(ms, 0);
    assert ps[1..] == [Placed(n, LocalSize(m))] && ps[1..][1..] == [];
    assert |Directory(ps[1..])| == CentralSize(n);
    assert |Directory(ps)| == CentralSize(m) + CentralSize(n);
    assert UsesZip64(ms) by { assert ms[0].mode.NO_COMPRESSION_64?; }
    assert Archive(ms).Ok?;
    hide Archive, Place, Body, Directory;
    assert ZipRoundTrip.Expected([n]) == R.Extraction([], R.Failed(R.MissingZip64Extra));
    forall surplus
      ensures R.Extract(Archive(ms).value, surplus) == ZipRoundTrip.Expected(ms)
    {
      var chunks := if surplus then [Archive(ms).value, []] else [Archive(ms).value];
      InChunks(Archive(ms).value, surplus, chunks);
      ZipRoundTrip.RoundTrip(ms, chunks);
    }
  }

  /** Beside one, it is written, and cannot be read back. */
  lemma {:induction false} UnreadableMember() returns (ms: seq<Member>)
    ensures |ms| == 2 && ms[0].mode.NO_COMPRESSION_64? && ms[1].mode.NO_COMPRESSION_32? && |ms[1].content| == MAX32
    ensures Archive(ms).Ok?
    ensures Writable(ms[0])
    ensures forall surplus :: R.Extract(Archive(ms).value, surplus)
                           == R.Extraction([ZipRoundTrip.FileOf(ms[0])], R.Failed(R.MissingZip64Extra))
  {
    var small, large := Plain([], NO_COMPRESSION_64, []), Plain([], NO_COMPRESSION_32, seq(MAX32, _ => 0));
    ms := [small, large];
    TwoMembers(small, large);
  }

  /** An archive without members is written; it is the one the reader refuses outright. */
  lemma {:induction false} EmptyArchive()
    ensures Archive([]).Ok? && Archive([]).value == EndRecords(false, 0, 0, 0)
  {
    assert Archive([]).value == [] + ([] + EndRecords(false, 0, 0, 0));
  }

  // ---------- A stream whose chunking shows ----------

  const DEFLATED: Bytes := [20, 0, 8, 0, 8, 0]

  lemma {:induction false} DeflatedFlags()
    ensures !R.Unsupported([8, 0]) && R.Bit(8, 8)
  {
  }

  lemma {:induction false} SmallWord(x: Byte)
    ensures FromLE([x, 0]) == x
  {
    assert [x, 0][1..] == [0] && [0][1..] == [];
    assert FromLE([0]) == 0;
  }

  lemma {:induction false} DeflatedHeader(b: Bytes)
    requires b == DEFLATED + seq(20, _ => 0)
    ensures R.ParseHeader(b).Got? && R.ParseHeader(b).value.size == None && R.ParseHeader(b).rest == []
  {
    hide R.ParseHeader, FromLE;
    assert b[2..4] == [8, 0] && b[4..6] == [8, 0] && b[22..24] == [0, 0] && b[24..26] == [0, 0];
    SmallWord(8);
    SmallWord(0);
    DeflatedFlags();
    assert b == b + ([] + ([] + []));
    R.HeaderRead(b, [], [], []);
    hide WordAt, DwordAt, ParseExtra, R.Unsupported, R.Bit;
  }

  /** The header of a deflated entry with a data descriptor, and nothing behind it. */
  lemma {:induction false} ObservableStream() returns (data: Bytes)
    ensures ZipStreaming.EndsAtUnknownSize(data)
  {
    var b: Bytes := DEFLATED + seq(20, _ => 0);
    data := LOCAL_SIGNATURE + b;
    assert data[4..] == b && data[..4] == LOCAL_SIGNATURE;
    DeflatedHeader(b);
    hide R.ParseHeader;
  }

  // ---------- A directory that is not found ----------

  const SMALLEST := Plain([], NO_COMPRESSION_32, [])

  function Copies(m: Member, n: nat): (ms: seq<Member>)
    ensures |ms| == n && forall i :: 0 <= i < n ==> ms[i] == m
  {
    seq(n, _ => m)
  }

  lemma {:induction false} OneMore(size: nat, n: nat)
    requires n > 0
    ensures size + size * (n - 1) == size * n
  {
  }

  lemma {:induction false} CopiesLaidOut(m: Member, n: nat, offset: nat)
    requires m.mode.NO_COMPRESSION_32? && |m.name| <= MAX16 && m.content == []
    requires offset + LocalSize(m) * n <= MAX32
    ensures AllFit(Place(Copies(m, n), offset)) && EndOf(Copies(m, n), offset) == offset + LocalSize(m) * n
    ensures |Directory(Place(Copies(m, n), offset))| == CentralSize(m) * n
  {
    hide CentralEntry, LocalSize, CentralSize;
    if n == 0 {
    } else {
      var ms, size := Copies(m, n), LocalSize(m);
      OneMore(size, n);
      OneMore(CentralSize(m), n);
      assert ms[1..] == Copies(m, n - 1);
      CopiesLaidOut(m, n - 1, offset + size);
      var ps, later := Place(ms, offset), Place(ms[1..], offset + size);
      assert ps[0] == Placed(m, offset) && ps[1..] == later;
      assert forall i :: 1 <= i < |ps| ==> ps[i] == later[i - 1];
    }
  }

  /** Twenty bytes that begin like a locator and point at the start of the archive. */
  const LOCATOR_LIKE: Bytes := [0x50, 0x4b, 0x06, 0x07, 0, 0, 0, 0, 0, 0, 0, 0, 0, 0, 0, 0, 0, 0, 0, 0]

  lemma {:induction false} ZeroMore(s: Bytes)
    ensures FromLE([0] + s) == 256 * FromLE(s)
  {
    assert ([0] + s)[1..] == s;
  }

  lemma {:induction false} EightZeros()
    ensures FromLE([0, 0, 0, 0, 0, 0, 0, 0]) == 0
  {
    ZeroMore([]);
    ZeroMore([0]);
    ZeroMore([0, 0]);
    ZeroMore([0, 0, 0]);
    ZeroMore([0, 0, 0, 0]);
    ZeroMore([0, 0, 0, 0, 0]);
    ZeroMore([0, 0, 0, 0, 0, 0]);
    ZeroMore([0, 0, 0, 0, 0, 0, 0]);
  }

  lemma {:induction false} SlicesOfLike()
    ensures LOCATOR_LIKE[0..4] == LOCATOR_SIGNATURE
    ensures LOCATOR_LIKE[8..16] == [0, 0, 0, 0, 0, 0, 0, 0]
  {
    var front, middle: Bytes, back: Bytes := LOCATOR_SIGNATURE + [0, 0, 0, 0], [0, 0, 0, 0, 0, 0, 0, 0], [0, 0, 0, 0];
    assert LOCATOR_LIKE == front + (middle + back);
    SliceRight(front, middle + back, 0, 8);
    SliceLeft(middle, back, 0, 8);
    SliceLeft(front, middle + back, 0, 4);
    SliceLeft(LOCATOR_SIGNATURE, [0, 0, 0, 0], 0, 4);
  }

  lemma {:induction false} LikeLocator(a: Bytes)
    requires |a| >= 42 && a[|a| - 42..|a| - 22] == LOCATOR_LIKE
    ensures ZipDirectory.Signed(a, |a| - 42, LOCATOR_SIGNATURE) && QwordAt(a, |a| - 34) == 0
  {
    hide FromLE;
    SliceOfSlice(a, |a| - 42, |a| - 22, 0, 4);
    SliceOfSlice(a, |a| - 42, |a| - 22, 8, 16);
    SlicesOfLike();
    EightZeros();
  }

  lemma {:induction false} AtTheFront(a: Bytes)
    requires |a| >= 4 && a[..4] == LOCAL_SIGNATURE
    ensures !ZipDirectory.Signed(a, 0, END64_SIGNATURE)
  {
    assert a[..4][2] == a[2] == 3;
    assert a[0..4][2] == a[2];
    assert END64_SIGNATURE[2] == 6;
  }

  lemma {:induction false} LocatorFollowed(a: Bytes, end: ZipDirectory.End)
    requires |a| >= 42 && a[..4] == LOCAL_SIGNATURE && a[|a| - 42..|a| - 22] == LOCATOR_LIKE
    requires end.count == MAX16 && ZipDirectory.Located(a, false, end)
    ensures ZipDirectory.FindEnd(a) == None
  {
    hide FromLE, WordAt, DwordAt, QwordAt;
    LikeLocator(a);
    AtTheFront(a);
  }

  lemma {:induction false} BodyStart(ps: seq<Placed>)
    requires AllFit(ps) && ps != []
    ensures |Body(ps)| >= 4 && Body(ps)[..4] == LOCAL_SIGNATURE
  {
    hide Pack, LocalFields, LocalExtra;
  }

  lemma {:induction false} NameBehindHeader(p: Placed)
    requires CheckMember(p) == None && p.member.mode.NO_COMPRESSION_32?
    ensures CentralEntry(p)[46..] == p.member.name
  {
    var e := EntryOf(p.member);
    CentralOffsets(e, p.offset);
    var b := Pack(CentralFields(e, p.offset));
    hide Pack, CentralFields;
    assert e.name + [] == e.name;
    assert (CENTRAL_SIGNATURE + (b + e.name))[46..] == e.name;
  }

  lemma {:induction false} FrontAndBack(body: Bytes, before: Bytes, entry: Bytes, end: Bytes)
    requires |body| >= 4 && |entry| == 66 && |end| == 22
    ensures var a := body + ((before + entry) + end);
      && |a| >= 42 && a[..4] == body[..4] && a[|a| - 42..|a| - 22] == entry[46..]
  {
  }

  /** That name stands right in front of the end record, and the first local header at the very front. */
  lemma {:induction false} Misread(n: nat, last: Member)
    requires n == MAX16 - 1 && last == Plain(LOCATOR_LIKE, NO_COMPRESSION_32, [])
    ensures var ms := Copies(SMALLEST, n) + [last];
      && Archive(ms).Ok? && !UsesZip64(ms)
      && var a := Archive(ms).value;
         && |a| >= 42 && a[..4] == LOCAL_SIGNATURE && a[|a| - 42..|a| - 22] == LOCATOR_LIKE
  {
    hide LocalEntry, CentralEntry, Body, Directory, Place, CheckMembers, EndOf, Pack, EndFields;
    var ms := Copies(SMALLEST, n) + [last];
    CopiesLaidOut(SMALLEST, n, 0);
    PlaceSnoc(Copies(SMALLEST, n), last);
    var ps, p := Place(Copies(SMALLEST, n), 0), Placed(last, EndOf(Copies(SMALLEST, n), 0));
    assert CheckMember(p) == None;
    BodySnoc(ps, p);
    DirectorySnoc(ps, p);
    BodyLength(Copies(SMALLEST, n), 0);
    BodyStart(ps + [p]);
    NameBehindHeader(p);
    var body, before, entry := Body(ps + [p]), Directory(ps), CentralEntry(p);
    var directory := before + entry;
    assert |body| == 30 * n + 50 && |directory| == 46 * n + 66;
    var end := EndRecords(false, |ms|, |directory|, |body|);
    ZipDirectory.EndFieldsRead(0, |ms|, |directory|, |body|);
    assert |end| == 22;
    assert Archive(ms) == Ok(body + (directory + end));
    hide Archive, EndRecords;
    FrontAndBack(body, before, entry, end);
  }

  /** The archive of 65535 members, the last of which has that name. */
  lemma {:induction false} MisreadArchive() returns (ms: seq<Member>)
    ensures Archive(ms).Ok? && !UsesZip64(ms)
    ensures ZipDirectory.FindEnd(Archive(ms).value) == None && ZipDirectory.ReadByDirectory(Archive(ms).value) == None
  {
    hide Archive, ZipDirectory.FindEnd, ZipDirectory.FollowAll, ZipDirectory.Located, Body, Directory, Place;
    var n := MAX16 - 1;
    var last := Plain(LOCATOR_LIKE, NO_COMPRESSION_32, []);
    ms := Copies(SMALLEST, n) + [last];
    Misread(n, last);
    ZipDirectory.DirectoryLocated(ms);
    var ps := Place(ms, 0);
    LocatorFollowed(Archive(ms).value, ZipDirectory.End(|ms|, |Directory(ps)|, |Body(ps)|));
  }

  // ---------- A failure that is not noticed ----------

  /** A list that fills the 32-bit offsets to the last one, where each directory record is longer than the member. */
  lemma {:induction false} LongDirectory(m: Member, n: nat)
    requires m.mode.NO_COMPRESSION_32? && |m.name| == 65507 && m.content == [] && n == MAX16
    ensures var ms := Copies(m, n); var ps := Place(ms, 0);
      && AllFit(ps) && !UsesZip64(ms) && !Crowded(false, |ms|, |Body(ps)|) && !Within(false, 0, |Directory(ps)|)
  {
    hide Body, Directory, Place;
    CopiesLaidOut(m, n, 0);
    BodyLength(Copies(m, n), 0);
  }

  /** 65535 empty members with names of 65507 bytes: the writer fails in the directory, and out of the blocks it has
      yielded by then the reader extracts every member and finds nothing wrong. */
  lemma {:induction false} UnnoticedFailure() returns (ms: seq<Member>, k: nat)
    ensures Archive(ms) == Err(DirectorySizeOverflow) && Stops(ms, |ms|, k)
    ensures forall i :: 0 <= i < |ms| ==> Writable(ms[i])
    ensures forall blocks, surplus :: ZipWriter.FullBlocks(blocks, PutOut(ms, |ms|, k), FileUtils.CHUNK_SIZE) ==>
      R.Extract(Concat(blocks), surplus) == R.Extraction(ZipRoundTrip.FilesOf(ms), R.Finished)
  {
    hide Place, Body, Directory, UsesZip64, CheckMember, PutOut, R.Extract, ZipRoundTrip.Cut, EndOf, Concat;
    var m := Plain(seq(65507, _ => 0), NO_COMPRESSION_32, []);
    ms := Copies(m, MAX16);
    LongDirectory(m, MAX16);
    var ps := Place(ms, 0);
    assert ps[..|ps|] == ps && ms[..|ms|] == ms;
    k := ZipFailure.FirstBeyond(ps, false, |Body(ps)|, |ps|);
    ZipFailure.DirectoryPutOut(ms, k);
    forall blocks, surplus | ZipWriter.FullBlocks(blocks, PutOut(ms, |ms|, k), FileUtils.CHUNK_SIZE)
      ensures R.Extract(Concat(blocks), surplus) == R.Extraction(ZipRoundTrip.FilesOf(ms), R.Finished)
    {
      ZipFailure.FailureNoticed(ms, |ms|, k, blocks, FileUtils.CHUNK_SIZE, surplus);
    }
  }
}
