/** The ID3v1 trailer: 128 bytes at the end of an audio file, "TAG" followed
    by fixed-width, zero-padded fields and a genre index. A zero at byte 125
    followed by a non-zero byte 126 is the v1.1 track number. */
module V1Tag {
  import opened Outcomes
  import opened Bytes

  /** A decoded trailer. Text fields are the field's bytes (the source's Go
      strings); the track is the decimal text of the track byte, and the genre
      a name from the genre table. */
  datatype ID3v1Tag = ID3v1Tag(
    title: seq<byte>,
    artist: seq<byte>,
    album: seq<byte>,
    year: seq<byte>,
    comment: seq<byte>,
    track: string,
    genre: string)

  const TagLen: nat := 128

  /** "TAG" */
  const Marker: seq<byte> := [0x54, 0x41, 0x47]

  const UnknownGenre: string := "Unspecified"

  // ---------------------------------------------------------------------------
  // Fields

  /** `field` is the content of the zero-padded `raw`: a prefix of it that does
      not end in a zero byte, with only zero bytes after it. */
  predicate IsContentOf(field: seq<byte>, raw: seq<byte>) {
    && field <= raw
    && (field == [] || field[|field| - 1] != 0)
    && forall i :: |field| <= i < |raw| ==> raw[i] == 0
  }

  /** A zero-padded buffer has one content. */
  lemma ContentUnique(a: seq<byte>, b: seq<byte>, raw: seq<byte>)
    requires IsContentOf(a, raw) && IsContentOf(b, raw)
    ensures a == b
  {
    if b != [] {
      assert raw[|b| - 1] == b[|b| - 1];
    }
    if a != [] {
      assert raw[|a| - 1] == a[|a| - 1];
    }
    assert |a| == |b|;
    assert a == raw[..|a|] && b == raw[..|b|];
  }

  /** Strips the trailing zero bytes. */
  function TrimString(data: seq<byte>): (r: seq<byte>)
    ensures IsContentOf(r, data)
  {
    if |data| > 0 && data[|data| - 1] == 0 then TrimString(data[..|data| - 1]) else data
  }

  /** Trimming twice is trimming once. */
  lemma TrimIdempotent(data: seq<byte>)
    ensures TrimString(TrimString(data)) == TrimString(data)
  {
    var once := TrimString(data);
    assert IsContentOf(once, once);
    ContentUnique(TrimString(once), once, once);
  }

  /** Content padded with zeros trims back to the content. */
  lemma TrimPadded(field: seq<byte>, n: nat)
    requires field == [] || field[|field| - 1] != 0
    ensures TrimString(field + Zeros(n)) == field
  {
    var raw := field + Zeros(n);
    assert IsContentOf(field, raw);
    ContentUnique(TrimString(raw), field, raw);
  }

  // ---------------------------------------------------------------------------
  // Track number

  predicate IsDigit(c: char) {
    '0' <= c <= '9'
  }

  predicate AllDigits(t: string) {
    forall i :: 0 <= i < |t| ==> IsDigit(t[i])
  }

  function DigitChar(d: nat): (c: char)
    requires d < 10
    ensures IsDigit(c)
  {
    ['0', '1', '2', '3', '4', '5', '6', '7', '8', '9'][d]
  }

  function DigitValue(c: char): (d: nat)
    requires IsDigit(c)
    ensures d < 10
  {
    (c as int) - ('0' as int)
  }

  /** The decimal text of a number, as the source's `fmt.Sprint` writes it. */
  function DecimalText(n: nat): (t: string)
    ensures |t| >= 1
    ensures AllDigits(t)
    ensures |t| > 1 ==> t[0] != '0'
  {
    if n < 10 then [DigitChar(n)] else DecimalText(n / 10) + [DigitChar(n % 10)]
  }

  /** The number a string of decimal digits denotes. */
  function DecimalValue(t: string): nat
    requires AllDigits(t)
  {
    if |t| == 0 then 0 else DecimalValue(t[..|t| - 1]) * 10 + DigitValue(t[|t| - 1])
  }

  /** The decimal text parses back to the number. */
  lemma {:induction false} DecimalRoundTrip(n: nat)
    ensures DecimalValue(DecimalText(n)) == n
  {
    if n >= 10 {
      var t := DecimalText(n);
      assert t[..|t| - 1] == DecimalText(n / 10);
      DecimalRoundTrip(n / 10);
    }
  }

  // ---------------------------------------------------------------------------
  // Genre

  /** The genre name for an index; indices past the end of the table give
      "Unspecified". */
  function GetGenre(i: byte, genres: seq<string>): (g: string)
    ensures g in genres || g == UnknownGenre
    ensures i < |genres| ==> g == genres[i]
    ensures i >= |genres| ==> g == UnknownGenre
  {
    if i > |genres| - 1 then UnknownGenre else genres[i]
  }

  // ---------------------------------------------------------------------------
  // The trailer

  /** Whether bytes 125..126 carry a v1.1 track number. */
  predicate HasTrack(data: seq<byte>)
    requires |data| >= TagLen
  {
    data[125] == 0 && data[126] != 0
  }

  /** Decodes a trailer. The source compares the first three bytes with "TAG"
      before anything else and only then reads up to byte 127, so it needs
      three bytes, and 128 once the marker is there. */
  function ParseID3v1Tag(data: seq<byte>, genres: seq<string>): (r: Result<ID3v1Tag>)
    requires |data| >= 3
    requires data[..3] == Marker ==> |data| >= TagLen
    ensures r.Err? <==> data[..3] != Marker
    ensures r.Err? ==> r.error == NoTag
    ensures r.Ok? ==>
      var t := r.value;
      && IsContentOf(t.title, data[3..33])
      && IsContentOf(t.artist, data[33..63])
      && IsContentOf(t.album, data[63..93])
      && IsContentOf(t.year, data[93..97])
    ensures r.Ok? && HasTrack(data) ==>
      && IsContentOf(r.value.comment, data[97..125])
      && AllDigits(r.value.track) && r.value.track != []
      && (|r.value.track| > 1 ==> r.value.track[0] != '0')
      && DecimalValue(r.value.track) == data[126]
    ensures r.Ok? && !HasTrack(data) ==>
      IsContentOf(r.value.comment, data[97..127]) && r.value.track == ""
    ensures r.Ok? && data[127] < |genres| ==> r.value.genre == genres[data[127]]
    ensures r.Ok? && data[127] >= |genres| ==> r.value.genre == UnknownGenre
  {
    if data[..3] != Marker then Err(NoTag)
    else
      var (track, comment) :=
        if HasTrack(data) then (DecimalText(data[126]), TrimString(data[97..125]))
        else ("", TrimString(data[97..127]));
      DecimalRoundTrip(data[126]);
      Ok(ID3v1Tag(
        title := TrimString(data[3..33]),
        artist := TrimString(data[33..63]),
        album := TrimString(data[63..93]),
        year := TrimString(data[93..97]),
        comment := comment,
        track := track,
        genre := GetGenre(data[127], genres)))
  }

  /** Nothing past byte 127 is read. */
  lemma ReadsFirst128(data: seq<byte>, genres: seq<string>)
    requires |data| >= TagLen
    ensures ParseID3v1Tag(data, genres) == ParseID3v1Tag(data[..TagLen], genres)
  {
    var head := data[..TagLen];
    assert head[..3] == data[..3];
    assert head[3..33] == data[3..33] && head[33..63] == data[33..63];
    assert head[63..93] == data[63..93] && head[93..97] == data[93..97];
    assert head[97..125] == data[97..125] && head[97..127] == data[97..127];
  }

  // ---------------------------------------------------------------------------
  // Writing a trailer

  /** A field that fits `width` bytes and does not end in a zero byte. */
  predicate Fits(field: seq<byte>, width: nat) {
    |field| <= width && (field == [] || field[|field| - 1] != 0)
  }

  function Pad(field: seq<byte>, width: nat): (padded: seq<byte>)
    requires |field| <= width
    ensures |padded| == width
  {
    field + Zeros(width - |field|)
  }

  /** A tag that can be written with track byte `trackNumber` (0 for none). Without
      a track, a 30-byte comment whose byte 28 is zero is excluded: its last
      two bytes would be read back as a track number. */
  predicate Encodable(t: ID3v1Tag, trackNumber: byte) {
    && Fits(t.title, 30) && Fits(t.artist, 30) && Fits(t.album, 30) && Fits(t.year, 4)
    && (trackNumber == 0 ==>
          Fits(t.comment, 30) && t.track == "" && !(|t.comment| == 30 && t.comment[28] == 0))
    && (trackNumber != 0 ==> Fits(t.comment, 28) && t.track == DecimalText(trackNumber))
  }

  /** The trailer for a tag, its track byte and its genre index. */
  function EncodeID3v1Tag(t: ID3v1Tag, trackNumber: byte, genreIndex: byte): (data: seq<byte>)
    requires Encodable(t, trackNumber)
    ensures |data| == TagLen
  {
    var commentAndTrack :=
      if trackNumber == 0 then Pad(t.comment, 30) else Pad(t.comment, 28) + [0, trackNumber];
    Marker + Pad(t.title, 30) + Pad(t.artist, 30) + Pad(t.album, 30) + Pad(t.year, 4)
    + commentAndTrack + [genreIndex]
  }

  /** Where each part of a written trailer lands. */
  lemma EncodedLayout(t: ID3v1Tag, trackNumber: byte, genreIndex: byte)
    requires Encodable(t, trackNumber)
    ensures var data := EncodeID3v1Tag(t, trackNumber, genreIndex);
      && data[..3] == Marker
      && data[3..33] == Pad(t.title, 30)
      && data[33..63] == Pad(t.artist, 30)
      && data[63..93] == Pad(t.album, 30)
      && data[93..97] == Pad(t.year, 4)
      && data[97..127] == (if trackNumber == 0 then Pad(t.comment, 30) else Pad(t.comment, 28) + [0, trackNumber])
      && data[127] == genreIndex
  {
    var data := EncodeID3v1Tag(t, trackNumber, genreIndex);
    var p1 := Marker + Pad(t.title, 30);
    var p2 := p1 + Pad(t.artist, 30);
    var p3 := p2 + Pad(t.album, 30);
    var p4 := p3 + Pad(t.year, 4);
    var ct := if trackNumber == 0 then Pad(t.comment, 30) else Pad(t.comment, 28) + [0, trackNumber];
    var p5 := p4 + ct;
    assert data == p5 + [genreIndex];
    assert data[..127] == p5;
    assert p5[..97] == p4 && p5[97..] == ct;
    assert p4[..93] == p3 && p4[93..] == Pad(t.year, 4);
    assert p3[..63] == p2 && p3[63..] == Pad(t.album, 30);
    assert p2[..33] == p1 && p2[33..] == Pad(t.artist, 30);
    assert p1[..3] == Marker && p1[3..] == Pad(t.title, 30);
  }

  /** The comment of a written trailer without a track number, and that no
      track number is seen in it. */
  lemma EncodedCommentOnly(t: ID3v1Tag, genreIndex: byte)
    requires Encodable(t, 0)
    ensures var data := EncodeID3v1Tag(t, 0, genreIndex);
      !HasTrack(data) && TrimString(data[97..127]) == t.comment
  {
    var data := EncodeID3v1Tag(t, 0, genreIndex);
    EncodedLayout(t, 0, genreIndex);
    var raw := data[97..127];
    assert raw == Pad(t.comment, 30);
    assert data[125] == raw[28] && data[126] == raw[29];
    if |t.comment| >= 29 {
      assert raw[28] == t.comment[28];
    } else {
      assert raw[29] == 0;
    }
    TrimField(t.comment, raw, 30);
  }

  /** The comment and track byte of a written trailer with a track number. */
  lemma EncodedCommentAndTrack(t: ID3v1Tag, trackNumber: byte, genreIndex: byte)
    requires trackNumber != 0 && Encodable(t, trackNumber)
    ensures var data := EncodeID3v1Tag(t, trackNumber, genreIndex);
      HasTrack(data) && TrimString(data[97..125]) == t.comment && data[126] == trackNumber
  {
    var data := EncodeID3v1Tag(t, trackNumber, genreIndex);
    EncodedLayout(t, trackNumber, genreIndex);
    var raw := data[97..127];
    assert raw == Pad(t.comment, 28) + [0, trackNumber];
    assert data[125] == raw[28] && data[126] == raw[29];
    assert data[97..125] == raw[..28] == Pad(t.comment, 28);
    TrimField(t.comment, data[97..125], 28);
  }

  lemma ParseMarked(data: seq<byte>, genres: seq<string>)
    requires |data| >= TagLen && data[..3] == Marker
    ensures ParseID3v1Tag(data, genres) == Ok(ID3v1Tag(
      TrimString(data[3..33]), TrimString(data[33..63]), TrimString(data[63..93]),
      TrimString(data[93..97]),
      if HasTrack(data) then TrimString(data[97..125]) else TrimString(data[97..127]),
      if HasTrack(data) then DecimalText(data[126]) else "",
      GetGenre(data[127], genres)))
  {
  }

  /** A written trailer decodes to the tag, with the genre the index names. */
  lemma TagRoundTrip(t: ID3v1Tag, trackNumber: byte, genreIndex: byte, genres: seq<string>)
    requires Encodable(t, trackNumber)
    ensures ParseID3v1Tag(EncodeID3v1Tag(t, trackNumber, genreIndex), genres)
         == Ok(t.(genre := GetGenre(genreIndex, genres)))
  {
    var data := EncodeID3v1Tag(t, trackNumber, genreIndex);
    EncodedLayout(t, trackNumber, genreIndex);
    if trackNumber == 0 {
      EncodedCommentOnly(t, genreIndex);
    } else {
      EncodedCommentAndTrack(t, trackNumber, genreIndex);
    }
    TrimField(t.title, data[3..33], 30);
    TrimField(t.artist, data[33..63], 30);
    TrimField(t.album, data[63..93], 30);
    TrimField(t.year, data[93..97], 4);
    ParseMarked(data, genres);
  }

  lemma TrimField(field: seq<byte>, raw: seq<byte>, width: nat)
    requires Fits(field, width) && raw == Pad(field, width)
    ensures TrimString(raw) == field
  {
    TrimPadded(field, width - |field|);
  }
}
