/** Properties of the reader over every archive prefix and every way of cutting it into chunks. */
module ZipStreaming {
  import opened Wrappers
  import opened Bytes
  import opened ZipFormat
  import opened ZipReaderSpec

  /** What a consumer may have seen of `later` when the stream broke off: some files complete,
      and at most the last of them with only the beginning of its content. */
  predicate PartOf(seen: seq<File>, later: seq<File>)
  {
    && |seen| <= |later|
    && forall i :: 0 <= i < |seen| ==>
         && seen[i].name == later[i].name && seen[i].size == later[i].size
         && seen[i].content <= later[i].content
         && (i + 1 < |seen| ==> seen[i] == later[i])
  }

  /** A header that has been read, or refused for a reason other than missing bytes, does not depend on
      the bytes behind it. */
  lemma {:induction false} HeaderStable(data: Bytes, more: Bytes)
    ensures match ParseHeader(data)
            case Bad(TruncatedData) => true
            case Bad(e) => ParseHeader(data + more) == Bad(e)
            case Got(h, rest) => ParseHeader(data + more) == Got(h, rest + more)
  {
    hide Interpret, ParseExtra, FromLE;
    var all := data + more;
    if LOCAL_SIZE <= |data| {
      SameFields(data, more);
      var nameEnd := LOCAL_SIZE + WordAt(data, 22);
      var extraEnd := nameEnd + WordAt(data, 24);
      if extraEnd <= |data| {
        SliceLeft(data, more, LOCAL_SIZE, nameEnd);
        SliceLeft(data, more, nameEnd, extraEnd);
        assert all[extraEnd..] == data[extraEnd..] + more;
      }
    }
  }

  lemma {:induction false} DescriptorStable(data: Bytes, zip64: bool, more: Bytes)
    ensures match ParseDescriptor(data, zip64)
            case Bad(e) => e == TruncatedData
            case Got(crc, rest) => ParseDescriptor(data + more, zip64) == Got(crc, rest + more)
  {
    if 4 <= |data| {
      SliceLeft(data, more, 0, 4);
      assert (data + more)[..4] == data[..4];
      var start := if data[..4] == DESCRIPTOR_SIGNATURE then 4 else 0;
      var end := start + if zip64 then 20 else 12;
      if end <= |data| {
        SliceLeft(data, more, start, start + 4);
        assert (data + more)[end..] == data[end..] + more;
      }
    }
  }

  /** How the outcome of one entry on a shorter stream relates to its outcome on a longer one. */
  predicate Stable(short: Entry, more: Bytes, long: Entry)
  {
    match short
    case Whole(file, rest) => long == Whole(file, rest + more)
    case Rejected(e) => e != TruncatedData ==> long == short
    case Broken(file, e) =>
      if e != TruncatedData then long == short else !long.Rejected? && PartOf([file], [long.file])
  }

  lemma {:induction false} CheckStable(header: Header, content: Bytes, data: Bytes, more: Bytes)
    ensures Stable(CheckContent(header, content, data), more, CheckContent(header, content, data + more))
  {
    if header.descriptor {
      DescriptorStable(data, header.zip64, more);
    }
  }

  lemma {:induction false} ContentStable(header: Header, data: Bytes, surplus: bool, more: Bytes, surplus': bool)
    requires surplus ==> more != [] || surplus'
    ensures !ReadContent(header, data, surplus).Rejected?
    ensures Stable(ReadContent(header, data, surplus), more, ReadContent(header, data + more, surplus'))
  {
    if header.size.Some? && header.size.value <= |data| {
      var n := header.size.value;
      assert (data + more)[..n] == data[..n] && (data + more)[n..] == data[n..] + more;
      CheckStable(header, data[..n], data[n..], more);
    }
  }

  lemma {:induction false} EntryStable(data: Bytes, surplus: bool, more: Bytes, surplus': bool)
    requires surplus ==> more != [] || surplus'
    ensures Stable(ReadEntry(data, surplus), more, ReadEntry(data + more, surplus'))
  {
    HeaderStable(data, more);
    match ParseHeader(data)
    case Bad(_) =>
    case Got(header, rest) => ContentStable(header, rest, surplus, more, surplus');
  }

  lemma {:induction false} PartOfCons(file: File, seen: seq<File>, later: seq<File>)
    requires PartOf(seen, later)
    ensures PartOf([file] + seen, [file] + later)
  {
  }

  /** Streaming is monotone: once the outcome is anything but truncation, later bytes change nothing;
      until then, everything delivered is the beginning of what the longer stream delivers. */
  lemma {:induction false} Streaming(data: Bytes, surplus: bool, more: Bytes, surplus': bool)
    requires surplus ==> more != [] || surplus'
    ensures var short, long := Extract(data, surplus), Extract(data + more, surplus');
            if short.outcome == Failed(TruncatedData) then PartOf(short.files, long.files) else short == long
    decreases |data|
  {
    var all := data + more;
    if 4 <= |data| {
      assert all[..4] == data[..4] && all[4..] == data[4..] + more;
      if data[..4] == LOCAL_SIGNATURE {
        EntryStable(data[4..], surplus, more, surplus');
        var entry := ReadEntry(data[4..], surplus);
        if entry.Whole? {
          Streaming(entry.rest, surplus, more, surplus');
          var short, long := Extract(entry.rest, surplus), Extract(entry.rest + more, surplus');
          if short.outcome == Failed(TruncatedData) {
            PartOfCons(entry.file, short.files, long.files);
          }
        }
      }
    }
  }

  /** The stream ends exactly behind the header of an entry whose size is unknown: one with a data
      descriptor and a deflate method. */
  predicate EndsAtUnknownSize(data: Bytes)
    decreases |data|
  {
    && |data| >= 4 && data[..4] == LOCAL_SIGNATURE
    && match ParseHeader(data[4..])
       case Bad(_) => false
       case Got(header, rest) =>
         if header.size.None? then rest == []
         else
           match ReadContent(header, rest, false)
           case Whole(_, after) => EndsAtUnknownSize(after)
           case _ => false
  }

  /** The chunking of an archive can be observed on exactly these streams, and then only through a
      final empty chunk, which turns a truncation error into a TypeError. */
  lemma {:induction false} ChunkingObservable(data: Bytes)
    ensures Extract(data, true) != Extract(data, false) <==> EndsAtUnknownSize(data)
    ensures EndsAtUnknownSize(data) ==>
              && Extract(data, true).outcome == Failed(UnknownSize)
              && Extract(data, false).outcome == Failed(TruncatedData)
    decreases |data|
  {
    if |data| >= 4 && data[..4] == LOCAL_SIGNATURE {
      match ParseHeader(data[4..])
      case Bad(_) =>
      case Got(header, rest) =>
        match ReadContent(header, rest, false)
        case Whole(file, after) =>
          ChunkingObservable(after);
          var t, f := Extract(after, true), Extract(after, false);
          assert ([file] + t.files)[1..] == t.files && ([file] + f.files)[1..] == f.files;
        case _ =>
    }
  }

  /** Two ways of cutting the same bytes give the same extraction, unless the stream ends at an entry of
      unknown size and just one of them has a final empty chunk. */
  lemma {:induction false} ChunkingIrrelevant(chunks: seq<Bytes>, chunks': seq<Bytes>)
    requires Concat(chunks) == Concat(chunks')
    ensures Extract(Concat(chunks), EndsEmpty(chunks)) == Extract(Concat(chunks'), EndsEmpty(chunks'))
       <==> (EndsAtUnknownSize(Concat(chunks)) ==> EndsEmpty(chunks) == EndsEmpty(chunks'))
  {
    ChunkingObservable(Concat(chunks));
  }
}
