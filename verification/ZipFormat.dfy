/** Constants of the ZIP file format shared by the writer and the reader (PKWARE APPNOTE.TXT, section 4.3). */
module ZipFormat {
  import opened Bytes

  const LOCAL_SIGNATURE: Bytes := [0x50, 0x4b, 0x03, 0x04]
  const CENTRAL_SIGNATURE: Bytes := [0x50, 0x4b, 0x01, 0x02]
  const DESCRIPTOR_SIGNATURE: Bytes := [0x50, 0x4b, 0x07, 0x08]
  const END64_SIGNATURE: Bytes := [0x50, 0x4b, 0x06, 0x06]
  const LOCATOR_SIGNATURE: Bytes := [0x50, 0x4b, 0x06, 0x07]
  const END_SIGNATURE: Bytes := [0x50, 0x4b, 0x05, 0x06]
  const ZIP64_EXTRA: Bytes := [0x01, 0x00]

  function ParseExtraInto(extra: Bytes, sofar: map<Bytes, Bytes>): map<Bytes, Bytes>
  {
    if |extra| < 4 then sofar
    else
      var n := WordAt(extra, 2);
      var end := if 4 + n <= |extra| then 4 + n else |extra|;
      ParseExtraInto(extra[end..], sofar[extra[..2] := extra[4..end]])
  }

  /** The extra field as a dictionary from two-byte tags to data; a repeated tag keeps its last data,
      and data cut short by the end of the field is kept as it is. */
  function ParseExtra(extra: Bytes): map<Bytes, Bytes>
  {
    ParseExtraInto(extra, map[])
  }

  /** An extra field made of a single block. */
  lemma {:induction false} SingleExtra(extra: Bytes)
    requires 4 <= |extra| == 4 + WordAt(extra, 2)
    ensures ParseExtra(extra) == map[extra[..2] := extra[4..]]
  {
    assert extra[|extra|..] == [] && extra[4..|extra|] == extra[4..];
    var only := map[extra[..2] := extra[4..]];
    assert ParseExtraInto(extra, map[]) == ParseExtraInto([], only) == only;
  }
}
