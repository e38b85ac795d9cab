/** Concrete cases: worked examples stated on the model. */
module Examples {
  import opened Outcomes
  import opened Bytes
  import opened IntCodec
  import opened TextCodec
  import opened V2Header
  import opened V2Frame
  import opened V1Tag

  /** `FE FF 00 41`, `FF FE 41 00` and the unmarked `41 00` all read as "A". */
  lemma Utf16LetterA()
    ensures ParseID3v2String([1, 0xFE, 0xFF, 0x00, 0x41]) == Runes([0x41])
    ensures ParseID3v2String([1, 0xFF, 0xFE, 0x41, 0x00]) == Runes([0x41])
    ensures ParseID3v2String([1, 0x41, 0x00]) == Runes([0x41])
  {
    assert [1, 0xFE, 0xFF, 0x00, 0x41][1..] == [0xFE, 0xFF, 0x00, 0x41];
    assert [1, 0xFF, 0xFE, 0x41, 0x00][1..] == [0xFF, 0xFE, 0x41, 0x00];
    assert [1, 0x41, 0x00][1..] == [0x41, 0x00];
  }

  /** A one-byte UTF-16 payload other than 0xFE or 0xFF holds no code unit,
      so the field is empty. */
  lemma Utf16SingleByte()
    ensures ParseID3v2String([1, 0x41]) == Runes([])
    ensures ParseID3v2String([2, 0x00]) == Runes([])
  {
    assert [1, 0x41][1..] == [0x41];
    assert [2, 0x00][1..] == [0x00];
  }

  /** The unmarked big-endian `00 41` is read little-endian, as U+4100. */
  lemma Utf16UnmarkedBigEndian()
    ensures ParseID3v2String([1, 0x00, 0x41]) == Runes([0x4100])
  {
    assert [1, 0x00, 0x41][1..] == [0x00, 0x41];
  }

  /** A flag byte of 0x80 sets only the unsynchronisation flag; 0x10 only the footer flag. */
  lemma HeaderFlagExamples(rest: seq<byte>)
    ensures var h := ParseID3v2Header([0x49, 0x44, 0x33, 4, 0, 0x80, 0, 0, 0, 0] + rest).value.0;
      h.unsynchronized && !h.extended && !h.experimental && !h.footer && h.size == 0 && h.version == 4
    ensures var h := ParseID3v2Header([0x49, 0x44, 0x33, 3, 0, 0x10, 0, 0, 0x02, 0x01] + rest).value.0;
      !h.unsynchronized && !h.extended && !h.experimental && h.footer && h.size == 0x101
  {
  }

  /** A version-4 frame header whose id begins with a zero byte ends the
      enumeration, whatever follows it. */
  lemma PaddingEndsFrames(rest: seq<byte>)
    ensures ReadFrame(NewID3v2FrameParser(4), [0, 0, 0, 0, 0, 0, 0, 9, 0, 0] + rest) == Failed(EOF)
  {
  }

  /** A 128-byte trailer: "TAG", fields, zero at byte 125, track 5, genre index 0. */
  function SampleTrailer(genre: byte): (data: seq<byte>)
    ensures |data| == TagLen
  {
    Marker + [0x41] + Zeros(29) + Zeros(30) + Zeros(30) + [0x31, 0x39, 0x39, 0x39]
    + [0x43] + Zeros(27) + [0, 5] + [genre]
  }

  lemma TrailerWithTrack(genres: seq<string>)
    requires |genres| == 192
    ensures var r := ParseID3v1Tag(SampleTrailer(0), genres);
      r.Ok? && r.value.title == [0x41] && r.value.artist == [] && r.value.year == [0x31, 0x39, 0x39, 0x39]
      && r.value.comment == [0x43] && r.value.track == "5" && r.value.genre == genres[0]
    ensures ParseID3v1Tag(SampleTrailer(255), genres).value.genre == "Unspecified"
  {
    var t := ID3v1Tag([0x41], [], [], [0x31, 0x39, 0x39, 0x39], [0x43], "5", "");
    assert EncodeID3v1Tag(t, 5, 0) == SampleTrailer(0);
    assert EncodeID3v1Tag(t, 5, 255) == SampleTrailer(255);
    TagRoundTrip(t, 5, 0, genres);
    TagRoundTrip(t, 5, 255, genres);
  }

  /** A buffer that does not start with "T" holds no tag, however short. */
  lemma NoMarkerNoTag(data: seq<byte>, genres: seq<string>)
    requires |data| >= 3 && data[0] != 0x54
    ensures ParseID3v1Tag(data, genres) == Err(NoTag)
  {
  }
}
