/** The 10-byte ID3v2 tag header (ID3v2.4.0 structure, section 3.1): the
    "ID3" marker, major and minor version, a flag byte and the synchsafe size
    of the tag body. */
module V2Header {
  import opened Outcomes
  import opened Bytes
  import opened IntCodec

  datatype Header = Header(
    version: int,
    minorVersion: int,
    unsynchronized: bool,
    extended: bool,
    experimental: bool,
    footer: bool,
    size: nat)

  const HeaderLen: nat := 10

  /** `b & weight != 0`, for a weight that is a single bit. */
  predicate BitSet(b: byte, weight: nat)
    requires weight > 0
  {
    (b / weight) % 2 == 1
  }

  /** Reads the header off the front of the stream. The marker bytes 0..2 are
      not checked and the low nibble of the flag byte is not read; the size is
      always synchsafe, whatever the version. */
  function ParseID3v2Header(s: seq<byte>): (r: Result<(Header, seq<byte>)>)
    ensures r.Err? <==> |s| < HeaderLen
    ensures r.Err? ==> r.error == ReadError
    ensures r.Ok? ==>
      var (h, rest) := r.value;
      && rest == s[HeaderLen..]
      && h.version == s[3] && h.minorVersion == s[4]
      && h.unsynchronized == (s[5] >= 0x80)
      && h.extended == (s[5] % 0x80 >= 0x40)
      && h.experimental == (s[5] % 0x40 >= 0x20)
      && h.footer == (s[5] % 0x20 >= 0x10)
      && h.size < SynchSafeLimit
      && h.size == Low7(s[6]) * 0x20_0000 + Low7(s[7]) * 0x4000 + Low7(s[8]) * 0x80 + Low7(s[9])
  {
    var (buf, rest) :- ReadExactly(s, HeaderLen);
    var h := Header(
      version := buf[3],
      minorVersion := buf[4],
      unsynchronized := BitSet(buf[5], 0x80),
      extended := BitSet(buf[5], 0x40),
      experimental := BitSet(buf[5], 0x20),
      footer := BitSet(buf[5], 0x10),
      size := ParseSynchSafe(buf[6..10]));
    Ok((h, rest))
  }

  /** Two streams that agree on the version bytes, the high nibble of the flag
      byte and the low seven bits of each size byte give the same header,
      whatever their marker bytes, flag low nibbles and size high bits. */
  lemma HeaderReadsOnlyItsFields(s: seq<byte>, t: seq<byte>)
    requires |s| >= HeaderLen && |t| >= HeaderLen
    requires s[3] == t[3] && s[4] == t[4] && s[5] / 0x10 == t[5] / 0x10
    requires forall i :: 6 <= i < 10 ==> Low7(s[i]) == Low7(t[i])
    ensures ParseID3v2Header(s).value.0 == ParseID3v2Header(t).value.0
  {
    var hs, ht := ParseID3v2Header(s).value.0, ParseID3v2Header(t).value.0;
    assert Low7(s[6]) == Low7(t[6]) && Low7(s[7]) == Low7(t[7]);
    assert Low7(s[8]) == Low7(t[8]) && Low7(s[9]) == Low7(t[9]);
    assert hs.size == ht.size;
    HighNibbleFlags(s[5]);
    HighNibbleFlags(t[5]);
  }

  /** The four flags of a byte are the bits of its high nibble. */
  lemma HighNibbleFlags(b: byte)
    ensures b >= 0x80 <==> (b / 0x10) >= 8
    ensures b % 0x80 >= 0x40 <==> (b / 0x10) % 8 >= 4
    ensures b % 0x40 >= 0x20 <==> (b / 0x10) % 4 >= 2
    ensures b % 0x20 >= 0x10 <==> (b / 0x10) % 2 == 1
  {
    var q, r := b / 0x10, b % 0x10;
    DivMod(b, 0x10);
    LowBitsOfNibbles(q, r, 8);
    LowBitsOfNibbles(q, r, 4);
    LowBitsOfNibbles(q, r, 2);
  }

  /** With b = 16q + r and r < 16, b mod 16k is 16 (q mod k) + r. */
  lemma LowBitsOfNibbles(q: nat, r: nat, k: nat)
    requires r < 0x10 && k > 0
    ensures (0x10 * q + r) % (0x10 * k) == 0x10 * (q % k) + r
  {
    DivMod(q, k);
    assert 0x10 * q + r == (q / k) * (0x10 * k) + (0x10 * (q % k) + r);
    DivModUnique(q / k, 0x10 * k, 0x10 * (q % k) + r);
  }

  /** Headers that fit the 10-byte layout. */
  predicate Encodable(h: Header) {
    0 <= h.version < 0x100 && 0 <= h.minorVersion < 0x100 && h.size < SynchSafeLimit
  }

  function FlagByte(h: Header): byte {
    (if h.unsynchronized then 0x80 else 0) + (if h.extended then 0x40 else 0)
    + (if h.experimental then 0x20 else 0) + (if h.footer then 0x10 else 0)
  }

  lemma FlagByteBits(h: Header)
    ensures BitSet(FlagByte(h), 0x80) == h.unsynchronized
    ensures BitSet(FlagByte(h), 0x40) == h.extended
    ensures BitSet(FlagByte(h), 0x20) == h.experimental
    ensures BitSet(FlagByte(h), 0x10) == h.footer
  {
  }

  /** The header as it is written at the start of a tag, behind the "ID3" marker. */
  function EncodeHeader(h: Header): (bytes: seq<byte>)
    requires Encodable(h)
    ensures |bytes| == HeaderLen
  {
    [0x49, 0x44, 0x33, h.version, h.minorVersion, FlagByte(h)] + EncodeSynchSafe(h.size)
  }

  /** Every header that fits the layout is read back from its encoding, and
      the rest of the stream is left untouched. */
  lemma HeaderRoundTrip(h: Header, rest: seq<byte>)
    requires Encodable(h)
    ensures ParseID3v2Header(EncodeHeader(h) + rest) == Ok((h, rest))
  {
    var s := EncodeHeader(h) + rest;
    assert s[6..10] == EncodeSynchSafe(h.size);
    assert s[HeaderLen..] == rest;
    SynchSafeRoundTrip(h.size);
    assert s[5] == FlagByte(h);
    FlagByteBits(h);
  }
}
