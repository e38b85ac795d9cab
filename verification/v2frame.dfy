/** ID3v2 frames: a version-selected layout of the frame header (ID3v2.2.0
    section 3.2, ID3v2.3.0 section 3.3, ID3v2.4.0 structure section 4) and the
    reader that takes one frame off the front of the tag body. */
module V2Frame {
  import opened Outcomes
  import opened Bytes
  import opened IntCodec

  /** A frame: its identifier bytes and its raw payload. */
  datatype Frame = Frame(id: seq<byte>, data: seq<byte>)

  /** How the size field of a frame header is decoded. The source stores a
      function: `ParseSynchSafe`, `ParseID3v23FrameSize`, or nothing at all for
      an unknown version. `BigEndian` (every byte of the field, most significant
      first) is not in the source; only the corrected layout uses it. */
  datatype SizeRule = SynchSafe | FrameSize32 | BigEndian | Missing

  datatype FrameLayout = FrameLayout(headerLen: nat, idLen: nat, sizeLen: nat, sizeRule: SizeRule)

  /** The id and size fields lie inside the header. */
  predicate WellFormed(p: FrameLayout) {
    p.idLen + p.sizeLen <= p.headerLen
  }

  /** The layout for a tag's major version: 6-byte headers with 3-byte ids and
      sizes for version 2, 10-byte headers with 4-byte ids and sizes for
      versions 3 and 4, and an all-zero layout with no size decoder otherwise. */
  function NewID3v2FrameParser(version: int): (p: FrameLayout)
    ensures WellFormed(p)
    ensures p.idLen > 0 <==> version == 2 || version == 3 || version == 4
    ensures version == 3 || version == 4 ==> p.headerLen == 10 && p.idLen == 4 && p.sizeLen == 4
    ensures version == 3 ==> p.sizeRule == FrameSize32
    ensures version == 4 ==> p.sizeRule == SynchSafe
    ensures version == 2 ==> p.headerLen == 6 && p.idLen == 3 && p.sizeLen == 3 && p.sizeRule == SynchSafe
  {
    match version
    case 2 => FrameLayout(6, 3, 3, SynchSafe)
    case 3 => FrameLayout(10, 4, 4, FrameSize32)
    case 4 => FrameLayout(10, 4, 4, SynchSafe)
    case _ => FrameLayout(0, 0, 0, Missing)
  }

  /** The size a size field denotes under a rule, or `None` where the source
      panics: `ParseSynchSafe` on fewer than four bytes slices out of range,
      and a missing decoder is a nil function call. */
  function DecodeSize(rule: SizeRule, field: seq<byte>): (size: Option<nat>)
    ensures size.None? <==> rule.Missing? || (rule.SynchSafe? && |field| < 4)
  {
    match rule
    case SynchSafe => if |field| < 4 then None else Some(ParseSynchSafe(field))
    case FrameSize32 => Some(ParseID3v23FrameSize(field))
    case BigEndian => Some(FromDigits(256, field))
    case Missing => None
  }

  /** What one frame read yields: a frame and the stream after it, an error
      (`EOF` when the padding is reached), or a run-time panic of the source. */
  datatype ReadOutcome = Got(frame: Frame, rest: seq<byte>) | Failed(error: Error) | Panics

  /** The size field of a frame header. */
  function SizeField(p: FrameLayout, header: seq<byte>): seq<byte>
    requires WellFormed(p) && |header| >= p.headerLen
  {
    header[p.idLen..p.idLen + p.sizeLen]
  }

  /** Reads one frame: the header, then, unless the id starts with a zero byte
      (padding), a payload of the size the header gives. */
  function ReadFrame(p: FrameLayout, s: seq<byte>): (r: ReadOutcome)
    requires WellFormed(p)
    ensures |s| < p.headerLen ==> r == Failed(ReadError)
    ensures r.Failed? ==> r.error == ReadError || r.error == EOF
    ensures r == Failed(EOF) <==> |s| >= p.headerLen && p.idLen > 0 && s[0] == 0
    ensures r == Panics <==>
      |s| >= p.headerLen && (p.idLen == 0 || (s[0] != 0 && DecodeSize(p.sizeRule, SizeField(p, s)).None?))
    ensures r == Failed(ReadError) && |s| >= p.headerLen ==>
      var size := DecodeSize(p.sizeRule, SizeField(p, s));
      size.Some? && |s| < p.headerLen + size.value
    ensures r.Got? ==>
      && r.frame.id == s[..p.idLen] && r.frame.id != [] && r.frame.id[0] != 0
      && DecodeSize(p.sizeRule, SizeField(p, s)) == Some(|r.frame.data|)
      && s == s[..p.headerLen] + r.frame.data + r.rest
      && |r.rest| < |s|
  {
    match ReadExactly(s, p.headerLen)
    case Err(e) => Failed(e)
    case Ok((header, body)) =>
      if p.idLen == 0 then Panics
      else
        var id := header[..p.idLen];
        if id[0] == 0 then Failed(EOF)
        else
          assert SizeField(p, header) == SizeField(p, s);
          match DecodeSize(p.sizeRule, SizeField(p, header))
          case None => Panics
          case Some(size) =>
            match ReadExactly(body, size)
            case Err(e) => Failed(e)
            case Ok((data, rest)) => Got(Frame(id, data), rest)
  }

  /** The frames a caller gets by reading until the first outcome that is not a
      frame, together with that outcome. Every frame read shortens the stream,
      so the enumeration ends. */
  function ReadFrames(p: FrameLayout, s: seq<byte>): (r: (seq<Frame>, ReadOutcome))
    requires WellFormed(p)
    ensures !r.1.Got?
    decreases |s|
  {
    match ReadFrame(p, s)
    case Got(f, rest) =>
      var (fs, end) := ReadFrames(p, rest);
      ([f] + fs, end)
    case other => ([], other)
  }

  // ---------------------------------------------------------------------------
  // The version-2 defect

  /** Version 2 pairs a 3-byte size field with the synchsafe decoder, which needs
      four bytes: every version-2 header that is not padding makes the source
      panic, so no version-2 frame is ever read. */
  lemma V2LayoutPanics(s: seq<byte>)
    requires |s| >= 6 && s[0] != 0
    ensures NewID3v2FrameParser(2).sizeLen < 4
    ensures ReadFrame(NewID3v2FrameParser(2), s) == Panics
  {
  }

  /** An unknown version yields the zero layout, whose empty id cannot be indexed. */
  lemma UnknownVersionPanics(version: int, s: seq<byte>)
    requires version != 2 && version != 3 && version != 4
    ensures ReadFrame(NewID3v2FrameParser(version), s) == Panics
  {
  }

  /** The layouts with version 2 sizes read as 24-bit big-endian integers, as
      ID3v2.2.0 section 3.2 defines them; versions 3 and 4 are unchanged. */
  function CorrectedFrameParser(version: int): (p: FrameLayout)
    ensures WellFormed(p)
    ensures version != 2 ==> p == NewID3v2FrameParser(version)
    ensures version == 2 ==> p.sizeRule == BigEndian && p.sizeLen == 3
  {
    if version == 2 then FrameLayout(6, 3, 3, BigEndian) else NewID3v2FrameParser(version)
  }

  // ---------------------------------------------------------------------------
  // Writing frames

  /** Layouts a frame can be written in and read back from. */
  predicate Encodable(p: FrameLayout) {
    && WellFormed(p)
    && p.idLen > 0
    && match p.sizeRule
       case SynchSafe => p.sizeLen == 4
       case FrameSize32 => p.sizeLen == 4
       case BigEndian => true
       case Missing => false
  }

  /** One more than the largest payload size the size field can express. */
  function Capacity(p: FrameLayout): nat {
    match p.sizeRule
    case SynchSafe => SynchSafeLimit
    case FrameSize32 => Word32Limit
    case BigEndian => Pow(256, p.sizeLen)
    case Missing => 0
  }

  /** A frame that can be written in layout `p`: an id of the right width that
      does not start with a zero byte, and a payload whose size fits. */
  predicate ValidFrame(p: FrameLayout, f: Frame) {
    |f.id| == p.idLen && |f.id| > 0 && f.id[0] != 0 && |f.data| < Capacity(p)
  }

  function EncodeSize(p: FrameLayout, n: nat): (field: seq<byte>)
    requires Encodable(p) && n < Capacity(p)
    ensures |field| == p.sizeLen
  {
    match p.sizeRule
    case SynchSafe => EncodeSynchSafe(n)
    case FrameSize32 => EncodeBigEndian32(n)
    case BigEndian => ToDigits(256, p.sizeLen, n)
  }

  lemma DecodeEncodeSize(p: FrameLayout, n: nat)
    requires Encodable(p) && n < Capacity(p)
    ensures DecodeSize(p.sizeRule, EncodeSize(p, n)) == Some(n)
  {
    match p.sizeRule
    case SynchSafe => SynchSafeRoundTrip(n);
    case FrameSize32 => BigEndian32RoundTrip(n);
    case BigEndian => FromToDigits(256, p.sizeLen, n);
  }

  /** A frame as it is written: id, size field, zeroed flag bytes, payload. */
  function EncodeFrame(p: FrameLayout, f: Frame): (bytes: seq<byte>)
    requires Encodable(p) && ValidFrame(p, f)
    ensures |bytes| == p.headerLen + |f.data|
  {
    f.id + EncodeSize(p, |f.data|) + Zeros(p.headerLen - p.idLen - p.sizeLen) + f.data
  }

  /** A written frame is read back, and the stream after it is left untouched. */
  lemma FrameRoundTrip(p: FrameLayout, f: Frame, rest: seq<byte>)
    requires Encodable(p) && ValidFrame(p, f)
    ensures ReadFrame(p, EncodeFrame(p, f) + rest) == Got(f, rest)
  {
    var field := EncodeSize(p, |f.data|);
    var header := f.id + field + Zeros(p.headerLen - p.idLen - p.sizeLen);
    var s := EncodeFrame(p, f) + rest;
    assert s == header + (f.data + rest);
    assert s[..p.headerLen] == header;
    assert header[..p.idLen] == f.id;
    assert header[p.idLen..p.idLen + p.sizeLen] == field;
    DecodeEncodeSize(p, |f.data|);
    var body := s[p.headerLen..];
    assert body == f.data + rest;
    assert body[..|f.data|] == f.data && body[|f.data|..] == rest;
  }

  /** With the corrected version-2 layout, every frame of every supported
      version is read back from its encoding. */
  lemma CorrectedFrameRoundTrip(version: int, f: Frame, rest: seq<byte>)
    requires version == 2 || version == 3 || version == 4
    requires ValidFrame(CorrectedFrameParser(version), f)
    ensures ReadFrame(CorrectedFrameParser(version), EncodeFrame(CorrectedFrameParser(version), f) + rest)
         == Got(f, rest)
  {
    FrameRoundTrip(CorrectedFrameParser(version), f, rest);
  }

  function EncodeFrames(p: FrameLayout, fs: seq<Frame>): (bytes: seq<byte>)
    requires Encodable(p)
    requires forall i :: 0 <= i < |fs| ==> ValidFrame(p, fs[i])
  {
    if |fs| == 0 then [] else EncodeFrame(p, fs[0]) + EncodeFrames(p, fs[1..])
  }

  /** A tag body of written frames followed by zero padding at least one header
      long is enumerated back to exactly those frames, ending in `EOF`. */
  lemma {:induction false} FramesRoundTrip(p: FrameLayout, fs: seq<Frame>, padding: nat)
    requires Encodable(p)
    requires forall i :: 0 <= i < |fs| ==> ValidFrame(p, fs[i])
    requires padding >= p.headerLen
    ensures ReadFrames(p, EncodeFrames(p, fs) + Zeros(padding)) == (fs, Failed(EOF))
  {
    var s := EncodeFrames(p, fs) + Zeros(padding);
    if |fs| == 0 {
      assert s == Zeros(padding);
    } else {
      var tail := EncodeFrames(p, fs[1..]) + Zeros(padding);
      assert s == EncodeFrame(p, fs[0]) + tail;
      FrameRoundTrip(p, fs[0], tail);
      FramesRoundTrip(p, fs[1..], padding);
      assert [fs[0]] + fs[1..] == fs;
    }
  }
}
