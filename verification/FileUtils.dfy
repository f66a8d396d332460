/** Archiving a folder and extracting it again, as the file utilities wire the writer to the reader. */
module FileUtils {
  import opened Wrappers
  import opened Bytes
  import W = ZipWriterSpec
  import opened ZipReaderSpec
  import opened ZipWriter
  import ZipReader
  import ZipRoundTrip
  import ZipStreaming

  const CHUNK_SIZE: nat := 65536

  /** `archive_local_folder` into a file, then `extract_archive_to` out of it. Every file is archived with
      NO_COMPRESSION_64, so the one archive that does not come back is that of an empty folder. */
  method ArchiveAndExtract(sources: seq<Source>) returns (r: Option<Extraction>)
    requires forall i :: 0 <= i < |sources| ==> sources[i].mode.NO_COMPRESSION_64?
    ensures r.None? <==> W.Archive(MembersOf(sources)).Err?
    ensures r.Some? && sources != [] ==> r.value.outcome == Finished && |r.value.files| == |sources|
    ensures r.Some? && sources != [] ==> forall i :: 0 <= i < |sources| ==>
      var content := Concat(sources[i].chunks);
      && |sources[i].name| <= MAX16 && |content| <= MAX64
      && r.value.files[i] == File(sources[i].name, Some(|content|), content)
    ensures r.Some? && sources == [] ==> r.value.files == [] && r.value.outcome.Failed?
  {
    hide W.Archive, Extract, ZipRoundTrip.Expected, MembersOf;
    MembersAsGiven(sources);
    var zipped, error := StreamZip(sources, CHUNK_SIZE);
    if error.Some? {
      return None;
    }
    var blocks := EvenlySized(zipped, false, CHUNK_SIZE);
    var extraction := ZipReader.Unzip(blocks, CHUNK_SIZE);
    ZipRoundTrip.RoundTrip(MembersOf(sources), blocks);
    return Some(extraction);
  }
}
