# ID3 tag decoding, modelled in Dafny

A model of the decoding core of a small Go library that reads ID3 audio
metadata, with proofs about it. The library reads two formats:

- the **ID3v1 trailer**: 128 bytes at the end of a file. It holds "TAG",
  zero-padded title, artist, album, year and comment fields, an optional v1.1
  track byte and a genre index;
- the **ID3v2 tag**: a 10-byte header (version, four flags, synchsafe body
  size) followed by frames. Each frame has an id, a size and a payload. The
  frame header layout depends on the major version (2, 3 or 4). Text payloads
  start with an encoding selector.

Everything is pure functions over `seq<byte>`. A stream is the sequence of
bytes not yet consumed. A read of `n` bytes either splits off `n` bytes or
fails with `ReadError`. The library's sentinel errors become the closed
`Outcomes.Error` datatype. Where the Go code would panic at run time, the
model either has a precondition (when the caller can always avoid it) or an
explicit `Panics` outcome (frame reading, where the layout decides).

| file | module | models |
|---|---|---|
| outcomes.dfy | `Outcomes` | error kinds, `Result`, `Option` |
| bytes.dfy | `Bytes` | bytes, big-endian digit strings, reading `n` bytes from a stream |
| intcodec.dfy | `IntCodec` | `ParseSynchSafe`, `ParseID3v23FrameSize` |
| textcodec.dfy | `TextCodec` | `parseUTF16`, `utf16.Decode`, `parseUTF16String`, `ParseID3v2String` |
| v2header.dfy | `V2Header` | `ID3v2Header`, `ParseID3v2Header` |
| v2frame.dfy | `V2Frame` | `ID3v2Frame`, `ID3v2FrameParser`, `NewID3v2FrameParser`, `ReadFrame` |
| v1tag.dfy | `V1Tag` | `ID3v1Tag`, `trimString`, `getGenre`, `ParseID3v1Tag` |
| cases.dfy | `Examples` | worked examples |

Every decoder is paired with an encoder written for the proofs. A round-trip
lemma connects the two: synchsafe and 32-bit sizes, UTF-16 code units with
and without a byte-order mark, surrogate pairs, the tag header, single
frames, whole frame sequences ending in padding, and the v1 trailer.

Behaviour kept as the code has it, where the ID3 and UTF-16 documents say
otherwise:

- UTF-16 text without a byte-order mark is read little-endian. RFC 2781,
  section 4.3 says big-endian. `TextCodec.NoBomBigEndianIsSwapped` shows the
  effect.
- Selector 2 is decoded exactly like selector 1. ID3v2.4.0 defines selector 2
  as big-endian UTF-16 without a mark.
- `ParseID3v23FrameSize` on fewer than four bytes returns 0. Go's
  `binary.Read` fails and its error is dropped. It does not decode a shorter
  big-endian number.
- `ParseID3v1Tag` needs 128 bytes only when the marker is present. Without
  the marker it returns `NoTag` after looking at three bytes.
- The version-2 frame layout hands a 3-byte size field to `ParseSynchSafe`,
  which panics on it. See "## Findings".

## Model

| member | source | states |
|---|---|---|
| `Bytes.ReadExactly` | id3/id3v2.go:105-109 | a read of n bytes succeeds exactly when n bytes remain; it splits the stream into those n bytes and the rest; otherwise `ReadError` |
| `IntCodec.ParseSynchSafe` | id3/id3v2.go:32-48 | on the last four bytes, bit 7 of each is dropped and the 7-bit groups are packed as b0·2^21 + b1·2^14 + b2·2^7 + b3; the low nibble of the fifth-from-last byte (if any) becomes bits 28..31; the result fits in 32 bits; fewer than four bytes is outside the domain |
| `IntCodec.ParseSynchSafeByMask` | id3/id3v2.go:33-46 | the shift-and-mask loop computes the same value as the positional definition |
| `IntCodec.SynchSafeRoundTrip` | id3/id3v2.go:32-48 | every value below 2^28 written as four 7-bit bytes decodes back to itself |
| `IntCodec.SynchSafeCanonical` | id3/id3v2.go:32-48 | four bytes with bit 7 clear are exactly the encoding of the value they decode to |
| `IntCodec.SynchSafeReadsLastFive` | id3/id3v2.go:36-46 | bytes before the last five never affect the result |
| `IntCodec.ParseID3v23FrameSize` | id3/id3v2.go:50-55 | the first four bytes as a big-endian uint32; 0 when fewer than four bytes are given |
| `IntCodec.BigEndian32RoundTrip` | id3/id3v2.go:50-55 | every uint32 written as four big-endian bytes decodes back to itself |
| `IntCodec.BigEndian32Canonical` | id3/id3v2.go:50-55 | any four bytes are the big-endian encoding of the size they decode to |
| `TextCodec.UnitsRoundTrip` | id3/id3v2.go:74-83 | code units written two bytes each in one byte order are read back in that order |
| `TextCodec.ParseUTF16` | id3/id3v2.go:57-84 | `FE FF` gives big-endian units after the mark, `FF FE` little-endian units after the mark, anything else little-endian units from byte 0; |buf|/2 - 1 units with a mark and |buf|/2 without, so an odd trailing byte is dropped; a single byte other than 0xFE or 0xFF gives no units |
| `TextCodec.BomBigEndianRoundTrip` | id3/id3v2.go:63-83 | units written big-endian behind `FE FF` are read back |
| `TextCodec.BomLittleEndianRoundTrip` | id3/id3v2.go:66-83 | units written little-endian behind `FF FE` are read back |
| `TextCodec.NoBomLittleEndianRoundTrip` | id3/id3v2.go:69-82 | without a mark, little-endian units are read back unless the first unit is itself U+FEFF or U+FFFE |
| `TextCodec.NoBomBigEndianIsSwapped` | id3/id3v2.go:69-72 | without a mark, big-endian units come out with their bytes exchanged |
| `TextCodec.Utf16Decode` | id3/id3v2.go:86-88 | every decoded value is a Unicode scalar value; there are no more values than units; text with no surrogates decodes to itself |
| `TextCodec.UnpairedSurrogateIsReplaced` | id3/id3v2.go:86-88 | a surrogate that does not begin a high-low pair decodes to U+FFFD and decoding resumes at the next unit |
| `TextCodec.Utf16RoundTrip` | id3/id3v2.go:86-88 | any sequence of scalar values, UTF-16 encoded with surrogate pairs above U+FFFF, decodes back to itself |
| `TextCodec.ParseUTF16String` | id3/id3v2.go:86-88 | a UTF-16 payload of n bytes decodes to at most n/2 scalar values |
| `TextCodec.ParseID3v2String` | id3/id3v2.go:90-102 | selectors 0 and 3 return the payload bytes verbatim; 1 and 2 return the UTF-16 decoding of the payload, at most (n-1)/2 scalar values for an n-byte field, including the empty string for a one-byte payload; any other selector gives the empty string |
| `TextCodec.Selector2IsSelector1` | id3/id3v2.go:94-97 | selector 2 decodes every payload exactly as selector 1 does |
| `TextCodec.Utf16FieldRoundTrip` | id3/id3v2.go:90-97 | any text written as UTF-16 behind a byte-order mark, in either order, is read back from a selector-1 field |
| `V2Header.ParseID3v2Header` | id3/id3v2.go:104-119 | fewer than 10 bytes gives `ReadError`; otherwise the version is byte 3 and the minor version byte 4; the four flags are bits 7, 6, 5 and 4 of byte 5; the size is the synchsafe value of bytes 6..9 and is below 2^28; the stream continues after byte 9 |
| `V2Header.HeaderReadsOnlyItsFields` | id3/id3v2.go:110-117 | bytes 0..2, the low nibble of the flag byte and bit 7 of each size byte never affect the header |
| `V2Header.HeaderRoundTrip` | id3/id3v2.go:104-119 | every header with byte-sized versions and a 28-bit size is read back from its 10-byte encoding, and the rest of the stream is untouched |
| `V2Frame.NewID3v2FrameParser` | id3/id3v2.go:121-141 | versions 3 and 4 give 10-byte headers with 4-byte ids and sizes, v3 sizes plain and v4 synchsafe; version 2 gives a 6-byte header with a 3-byte id and a 3-byte synchsafe size; other versions give an empty id; id and size always fit in the header |
| `V2Frame.DecodeSize` | id3/id3v2.go:153 | the size decoder panics exactly when there is no decoder, or when it is synchsafe and gets fewer than four bytes |
| `V2Frame.ReadFrame` | id3/id3v2.go:143-163 | a short header gives `ReadError`; an id whose first byte is zero gives `EOF` and depends on the header alone; a payload shorter than the decoded size gives `ReadError`; a frame has the header's first id bytes as its id and exactly the decoded size of payload; the stream is exactly header + payload + rest, so it strictly shrinks |
| `V2Frame.ReadFrames` | id3/id3v2.go:143-163 | repeated frame reads end, with an outcome that is not a frame |
| `V2Frame.V2LayoutPanics` | id3/id3v2.go:124-128 | the version-2 size field is shorter than the synchsafe decoder needs, so every version-2 frame that is not padding panics |
| `V2Frame.UnknownVersionPanics` | id3/id3v2.go:121-151 | for a version other than 2, 3 or 4, every frame read panics on the empty id |
| `V2Frame.CorrectedFrameParser` | id3/id3v2.go:124-128 | the corrected layouts agree with the source for every version except 2, whose 3-byte size is read as plain big-endian |
| `V2Frame.FrameRoundTrip` | id3/id3v2.go:143-163 | in a layout with a working size decoder, a written frame is read back and the following bytes are left as they were |
| `V2Frame.CorrectedFrameRoundTrip` | id3/id3v2.go:121-163 | with the corrected layouts, frames of versions 2, 3 and 4 all read back from their encoding |
| `V2Frame.FramesRoundTrip` | id3/id3v2.go:149-151 | written frames followed by at least one header's worth of zero padding enumerate back to exactly those frames, then `EOF` |
| `V1Tag.TrimString` | id3/id3v1.go:18-20 | the result is a prefix of the input that does not end in a zero byte, and only zero bytes follow it |
| `V1Tag.TrimIdempotent` | id3/id3v1.go:18-20 | trimming twice equals trimming once |
| `V1Tag.TrimPadded` | id3/id3v1.go:18-20 | content without a trailing zero, padded with any number of zeros, trims back to the content |
| `V1Tag.DecimalText` | id3/id3v1.go:39 | the decimal text of a number is non-empty and all digits, with no leading zero |
| `V1Tag.DecimalRoundTrip` | id3/id3v1.go:39 | the decimal text parses back to the number |
| `V1Tag.GetGenre` | id3/id3v1.go:22-27 | the genre is always a table entry or "Unspecified": the entry at the index when the index is inside the table, "Unspecified" past its end (an empty table included) |
| `V1Tag.ParseID3v1Tag` | id3/id3v1.go:29-46 | no "TAG" marker gives `NoTag`, and `NoTag` is the only error; title, artist, album and year are the contents of bytes 3..32, 33..62, 63..92 and 93..96; with byte 125 zero and byte 126 non-zero the track is the decimal text of byte 126 and the comment the content of bytes 97..124, otherwise the track is empty and the comment the content of bytes 97..126; the genre is the table entry at byte 127, or "Unspecified" past the table's end |
| `V1Tag.ReadsFirst128` | id3/id3v1.go:29-46 | bytes after the first 128 never affect the result |
| `V1Tag.TagRoundTrip` | id3/id3v1.go:29-46 | a tag whose fields fit, written with its track byte and a genre index, decodes back to itself with the genre that index names |
| `Examples.Utf16SingleByte` | id3/id3v2.go:63-83 | a one-byte UTF-16 payload other than 0xFE or 0xFF, behind selector 1 or 2, is the empty string |
| `Examples.Utf16LetterA` | id3/id3v2.go:57-102 | `FE FF 00 41`, `FF FE 41 00` and `41 00` behind selector 1 all decode to "A" |
| `Examples.Utf16UnmarkedBigEndian` | id3/id3v2.go:69-72 | `00 41` without a mark decodes to U+4100, not "A" |
| `Examples.HeaderFlagExamples` | id3/id3v2.go:113-117 | flag byte 0x80 sets only the unsynchronisation flag, and 0x10 only the footer flag |
| `Examples.PaddingEndsFrames` | id3/id3v2.go:150-151 | a version-4 header starting with a zero byte gives `EOF` whatever follows it |
| `Examples.TrailerWithTrack` | id3/id3v1.go:38-44 | a trailer with byte 125 zero and byte 126 five has track "5" and a comment from bytes 97..124; genre index 0 gives entry 0; index 255 past a 192-entry table gives "Unspecified" |
| `Examples.NoMarkerNoTag` | id3/id3v1.go:30-32 | any buffer of at least three bytes that does not start with "T" gives `NoTag` |

## Left out

- `io.Reader` semantics: a single `Read` may legally return fewer bytes than
  asked for, or data together with `io.EOF`. The model treats every read as
  "take exactly n bytes or fail with `ReadError`", which is how the code
  treats any short read. A zero-length read at the end of a stream
  therefore succeeds in the model: the payload read of a zero-size frame,
  and the zero-length header read of the all-zero layout an unknown version
  gets (`V2Frame.UnknownVersionPanics`). In Go both depend on the reader,
  since some readers, `bytes.Reader` among them, report `io.EOF` even for
  an empty buffer; the unknown-version read then ends in `ErrRead` rather
  than a panic.
- Error values: `ErrInvalidHeader` is kept in the error datatype but is
  never returned. `ErrNoTag` is used by the v1 decoder; its declaration is
  not part of this model.
- The genre table `ID3v1Genres` is not part of this model. Its contents are
  a parameter.
- Go strings: `string(bytes)` is the byte sequence itself. A UTF-16 field
  yields its code points (`TextCodec.Text.Runes`); the UTF-8 re-encoding
  `string(runes)` performs is not modelled.
- `utf16.Decode` belongs to Go's standard library, not to this repository.
  `TextCodec.Utf16Decode` models its documented behaviour: valid pairs are
  combined, and each unpaired surrogate becomes U+FFFD.
- `IntCodec.ParseSynchSafeByMask`: the source ORs disjoint bit ranges; the
  model adds them. Bit positions are carried as powers of 256.
- Run-time panics are not raised by the model. `ParseSynchSafe` (fewer than four
  bytes), `ParseUTF16` (an empty buffer, or a single byte 0xFE or 0xFF,
  whose missing second byte the mark test reads), `ParseID3v2String` (empty
  buffer, or a UTF-16 selector followed by such a payload) and
  `ParseID3v1Tag` (fewer than three bytes, or a marked buffer under 128
  bytes) carry preconditions instead. `ReadFrame` returns `Panics`.
  `ReadFrame` also requires the id and size fields to lie inside the header,
  which every layout `NewID3v2FrameParser` builds satisfies.
- Memory: `make([]byte, size)` for a size near 2^32 is not modelled.
- ID3 features the library does not implement are not modelled:
  unsynchronisation, the extended header, the footer, frame flag bytes
  (never read) and the meaning of frame ids.

## Findings

| source | as written | input that shows it | evidently intended | confidence | as-written member | corrected member |
|---|---|---|---|---|---|---|
| id3/id3v2.go:124-128 | the version-2 layout pairs a 3-byte size field with `ParseSynchSafe`, which slices `bin[l-4:l]` | any version-2 frame header whose first id byte is non-zero, e.g. `54 54 32 00 00 05` (id "TT2", size 5): the slice starts at index -1 and the read panics | a 24-bit big-endian size, as ID3v2.2.0 section 3.2 defines it | high; not executed | `V2Frame.V2LayoutPanics` | `V2Frame.CorrectedFrameRoundTrip` |
