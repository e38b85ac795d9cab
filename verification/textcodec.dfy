/** Text fields of ID3v2: an encoding selector byte (ID3v2.4.0 structure,
    section 4) followed by the text. Selectors 0 and 3 keep the bytes as they
    are; selectors 1 and 2 both go through byte-order-mark sniffing (RFC 2781,
    section 3.2) and UTF-16 surrogate decoding (RFC 2781, section 2.2). */
module TextCodec {
  import opened Bytes

  /** A 16-bit UTF-16 code unit. */
  type Unit = u: int | 0 <= u < 0x1_0000

  /** Unicode scalar values: code points that are not surrogates. */
  predicate IsScalar(c: int) {
    0 <= c < 0xD800 || 0xE000 <= c < 0x11_0000
  }

  predicate AllScalar(cps: seq<int>) {
    forall i :: 0 <= i < |cps| ==> IsScalar(cps[i])
  }

  predicate IsSurrogate(u: Unit) {
    0xD800 <= u < 0xE000
  }

  /** U+FFFD, which stands in for every unpaired surrogate. */
  const Replacement: int := 0xFFFD

  /** A decoded text field. Raw bytes are the payload kept verbatim (the
      source's `string(buf[1:])`); runes are decoded UTF-16. Both empty values
      stand for the empty string. */
  datatype Text = Raw(bytes: seq<byte>) | Runes(points: seq<int>)

  // ---------------------------------------------------------------------------
  // Byte order

  /** Code units read two bytes at a time in the given byte order. A trailing
      odd byte is left unread. */
  function UnitsOf(bytes: seq<byte>, bigEndian: bool): (units: seq<Unit>)
    ensures |units| == |bytes| / 2
  {
    seq(|bytes| / 2, i requires 0 <= i < |bytes| / 2 =>
      if bigEndian then bytes[2 * i] as int * 0x100 + bytes[2 * i + 1]
      else bytes[2 * i + 1] as int * 0x100 + bytes[2 * i])
  }

  /** Code units written two bytes each in the given byte order. */
  function UnitBytes(units: seq<Unit>, bigEndian: bool): (bytes: seq<byte>)
    ensures |bytes| == 2 * |units|
  {
    seq(2 * |units|, j requires 0 <= j < 2 * |units| =>
      var u := units[j / 2];
      if (j % 2 == 0) == bigEndian then u / 0x100 else u % 0x100)
  }

  /** Writing units in one byte order and reading them in the same order gives them back. */
  lemma UnitsRoundTrip(units: seq<Unit>, bigEndian: bool)
    ensures UnitsOf(UnitBytes(units, bigEndian), bigEndian) == units
  {
    var bytes := UnitBytes(units, bigEndian);
    forall i | 0 <= i < |units|
      ensures UnitsOf(bytes, bigEndian)[i] == units[i]
    {
      assert (2 * i) / 2 == i && (2 * i + 1) / 2 == i;
      assert (2 * i) % 2 == 0 && (2 * i + 1) % 2 == 1;
    }
  }

  /** A unit with its two bytes exchanged. */
  function Swap(u: Unit): Unit {
    (u % 0x100) * 0x100 + u / 0x100
  }

  const BomBigEndian: seq<byte> := [0xFE, 0xFF]
  const BomLittleEndian: seq<byte> := [0xFF, 0xFE]

  /** The payloads the mark test can look at: it always reads the first byte,
      and the second only when the first is 0xFE or 0xFF. */
  predicate MarkReadable(buf: seq<byte>) {
    |buf| >= 2 || (|buf| == 1 && buf[0] != 0xFE && buf[0] != 0xFF)
  }

  /** The code units of a UTF-16 payload. `FE FF` announces big-endian and `FF FE`
      little-endian units after the mark; with neither, the whole buffer is read
      little-endian. RFC 2781, section 4.3 asks for big-endian in that case: the
      little-endian default is the source's. The source indexes `buf[0]`, and
      `buf[1]` after a first byte of 0xFE or 0xFF, unguarded, hence the
      precondition; a single other byte gives no units. */
  function ParseUTF16(buf: seq<byte>): (units: seq<Unit>)
    requires MarkReadable(buf)
    ensures |buf| == 1 ==> units == []
    ensures |buf| >= 2 && buf[..2] == BomBigEndian ==>
      (|units| == |buf| / 2 - 1 &&
       forall i :: 0 <= i < |units| ==> units[i] == buf[2 * i + 2] as int * 0x100 + buf[2 * i + 3])
    ensures |buf| >= 2 && buf[..2] == BomLittleEndian ==>
      (|units| == |buf| / 2 - 1 &&
       forall i :: 0 <= i < |units| ==> units[i] == buf[2 * i + 3] as int * 0x100 + buf[2 * i + 2])
    ensures |buf| >= 2 && buf[..2] != BomBigEndian && buf[..2] != BomLittleEndian ==>
      (|units| == |buf| / 2 &&
       forall i :: 0 <= i < |units| ==> units[i] == buf[2 * i + 1] as int * 0x100 + buf[2 * i])
  {
    if buf[0] == 0xFE && buf[1] == 0xFF then UnitsOf(buf[2..], true)
    else if buf[0] == 0xFF && buf[1] == 0xFE then UnitsOf(buf[2..], false)
    else UnitsOf(buf, false)
  }

  /** Units written big-endian behind a `FE FF` mark are read back. */
  lemma BomBigEndianRoundTrip(units: seq<Unit>)
    ensures ParseUTF16(BomBigEndian + UnitBytes(units, true)) == units
  {
    var buf := BomBigEndian + UnitBytes(units, true);
    assert buf[2..] == UnitBytes(units, true);
    UnitsRoundTrip(units, true);
  }

  /** Units written little-endian behind a `FF FE` mark are read back. */
  lemma BomLittleEndianRoundTrip(units: seq<Unit>)
    ensures ParseUTF16(BomLittleEndian + UnitBytes(units, false)) == units
  {
    var buf := BomLittleEndian + UnitBytes(units, false);
    assert buf[2..] == UnitBytes(units, false);
    UnitsRoundTrip(units, false);
  }

  /** Without a mark, little-endian units are read back unless the first one
      itself looks like a mark. */
  lemma NoBomLittleEndianRoundTrip(units: seq<Unit>)
    requires |units| >= 1
    requires units[0] != 0xFEFF && units[0] != 0xFFFE
    ensures ParseUTF16(UnitBytes(units, false)) == units
  {
    var buf := UnitBytes(units, false);
    assert buf[0] == units[0] % 0x100 && buf[1] == units[0] / 0x100;
    UnitsRoundTrip(units, false);
  }

  /** Without a mark, big-endian units come out byte-swapped: the little-endian
      default departs from RFC 2781, section 4.3. */
  lemma NoBomBigEndianIsSwapped(units: seq<Unit>)
    requires |units| >= 1
    requires units[0] != 0xFEFF && units[0] != 0xFFFE
    ensures ParseUTF16(UnitBytes(units, true)) == seq(|units|, i requires 0 <= i < |units| => Swap(units[i]))
  {
    var buf := UnitBytes(units, true);
    assert buf[0] == units[0] / 0x100 && buf[1] == units[0] % 0x100;
    forall i | 0 <= i < |units|
      ensures ParseUTF16(buf)[i] == Swap(units[i])
    {
      assert (2 * i) / 2 == i && (2 * i + 1) / 2 == i;
      assert (2 * i) % 2 == 0 && (2 * i + 1) % 2 == 1;
    }
  }

  // ---------------------------------------------------------------------------
  // Surrogates

  /** The code point a high and a low surrogate stand for together. */
  function CombineSurrogates(high: Unit, low: Unit): (c: int)
    requires 0xD800 <= high < 0xDC00 && 0xDC00 <= low < 0xE000
    ensures 0x1_0000 <= c < 0x11_0000
  {
    (high - 0xD800) * 0x400 + (low - 0xDC00) + 0x1_0000
  }

  /** UTF-16 decoding as the source's runtime does it: a unit outside the
      surrogate range is its own code point, a high surrogate followed by a low
      one is a pair, and any other surrogate becomes U+FFFD. */
  function Utf16Decode(units: seq<Unit>): (cps: seq<int>)
    ensures |cps| <= |units|
    ensures AllScalar(cps)
    ensures (forall i :: 0 <= i < |units| ==> !IsSurrogate(units[i])) ==> cps == units
    decreases |units|
  {
    if |units| == 0 then []
    else if !IsSurrogate(units[0]) then [units[0] as int] + Utf16Decode(units[1..])
    else if units[0] < 0xDC00 && |units| >= 2 && 0xDC00 <= units[1] < 0xE000 then
      [CombineSurrogates(units[0], units[1])] + Utf16Decode(units[2..])
    else [Replacement] + Utf16Decode(units[1..])
  }

  /** A surrogate that does not start a high-low pair decodes to U+FFFD, and
      decoding carries on with the next unit. */
  lemma UnpairedSurrogateIsReplaced(u: Unit, rest: seq<Unit>)
    requires IsSurrogate(u)
    requires !(u < 0xDC00 && |rest| >= 1 && 0xDC00 <= rest[0] < 0xE000)
    ensures Utf16Decode([u] + rest) == [Replacement] + Utf16Decode(rest)
  {
    assert ([u] + rest)[1..] == rest;
  }

  /** The units of one scalar value: itself below U+10000, a surrogate pair above. */
  function EncodeRune(c: int): (units: seq<Unit>)
    requires IsScalar(c)
    ensures 1 <= |units| <= 2
  {
    if c < 0x1_0000 then [c]
    else
      var v := c - 0x1_0000;
      [0xD800 + v / 0x400, 0xDC00 + v % 0x400]
  }

  function Utf16Encode(cps: seq<int>): (units: seq<Unit>)
    requires AllScalar(cps)
    ensures |cps| <= |units| <= 2 * |cps|
  {
    if |cps| == 0 then [] else EncodeRune(cps[0]) + Utf16Encode(cps[1..])
  }

  lemma DecodeRune(c: int, rest: seq<Unit>)
    requires IsScalar(c)
    ensures Utf16Decode(EncodeRune(c) + rest) == [c] + Utf16Decode(rest)
  {
    var units := EncodeRune(c) + rest;
    if c < 0x1_0000 {
      assert units[0] == c && !IsSurrogate(units[0]);
      assert units[1..] == rest;
    } else {
      var v := c - 0x1_0000;
      var high, low := v / 0x400, v % 0x400;
      assert v == high * 0x400 + low;
      assert high < 0x400;
      assert units[0] == 0xD800 + high && units[1] == 0xDC00 + low;
      assert units[2..] == rest;
      assert CombineSurrogates(units[0], units[1]) == c;
    }
  }

  /** Decoding undoes encoding for every sequence of scalar values. */
  lemma {:induction false} Utf16RoundTrip(cps: seq<int>)
    requires AllScalar(cps)
    ensures Utf16Decode(Utf16Encode(cps)) == cps
  {
    if |cps| > 0 {
      DecodeRune(cps[0], Utf16Encode(cps[1..]));
      Utf16RoundTrip(cps[1..]);
      assert [cps[0]] + cps[1..] == cps;
    }
  }

  // ---------------------------------------------------------------------------
  // Text fields

  /** A UTF-16 payload decoded to code points. */
  function ParseUTF16String(buf: seq<byte>): (cps: seq<int>)
    requires MarkReadable(buf)
    ensures AllScalar(cps)
    ensures |cps| <= |buf| / 2
  {
    Utf16Decode(ParseUTF16(buf))
  }

  /** A text field: selector byte, then payload. Selectors 0 (Latin-1) and 3
      (UTF-8) keep the payload's bytes; 1 and 2 both decode it as UTF-16 with an
      optional mark, although ID3v2.4.0 defines 2 as big-endian without one;
      any other selector gives the empty string. The source indexes the
      selector, and for UTF-16 the payload bytes the mark test reads, unguarded. */
  function ParseID3v2String(buf: seq<byte>): (t: Text)
    requires |buf| >= 1
    requires buf[0] == 1 || buf[0] == 2 ==> MarkReadable(buf[1..])
    ensures buf[0] == 0 || buf[0] == 3 ==> t == Raw(buf[1..])
    ensures buf[0] == 1 || buf[0] == 2 ==> t == Runes(ParseUTF16String(buf[1..]))
    ensures buf[0] == 1 || buf[0] == 2 ==> AllScalar(t.points) && |t.points| <= (|buf| - 1) / 2
    ensures buf[0] > 3 ==> t == Raw([])
  {
    match buf[0]
    case 0 => Raw(buf[1..])
    case 1 => Runes(ParseUTF16String(buf[1..]))
    case 2 => Runes(ParseUTF16String(buf[1..]))
    case 3 => Raw(buf[1..])
    case _ => Raw([])
  }

  /** Selector 2 is decoded exactly as selector 1. */
  lemma Selector2IsSelector1(payload: seq<byte>)
    requires MarkReadable(payload)
    ensures ParseID3v2String([2] + payload) == ParseID3v2String([1] + payload)
  {
    assert ([2] + payload)[1..] == payload == ([1] + payload)[1..];
  }

  lemma Utf16Field(payload: seq<byte>)
    requires MarkReadable(payload)
    ensures ParseID3v2String([1] + payload) == Runes(ParseUTF16String(payload))
  {
    assert ([1] + payload)[1..] == payload;
  }

  /** Any text written as UTF-16 behind a byte-order mark, either order, is read
      back from a selector-1 field. */
  lemma Utf16FieldRoundTrip(cps: seq<int>, bigEndian: bool)
    requires AllScalar(cps)
    ensures var bom := if bigEndian then BomBigEndian else BomLittleEndian;
            ParseID3v2String([1] + bom + UnitBytes(Utf16Encode(cps), bigEndian)) == Runes(cps)
  {
    var bom := if bigEndian then BomBigEndian else BomLittleEndian;
    var units := Utf16Encode(cps);
    var payload := bom + UnitBytes(units, bigEndian);
    assert [1] + bom + UnitBytes(units, bigEndian) == [1] + payload;
    Utf16Field(payload);
    if bigEndian {
      BomBigEndianRoundTrip(units);
    } else {
      BomLittleEndianRoundTrip(units);
    }
    assert ParseUTF16(payload) == units;
    Utf16RoundTrip(cps);
  }
}
