/** The two integer encodings of ID3v2: the synchsafe integer (7 bits per byte,
    ID3v2.4.0 structure, section 6.2) and the plain 32-bit big-endian frame size
    of ID3v2.3.0, section 3.3. Results are uint32 values, modelled as naturals
    below 2^32. */
module IntCodec {
  import opened Bytes

  const SynchSafeLimit: nat := 0x1000_0000
  const Word32Limit: nat := 0x1_0000_0000

  /** `b & 0x7f`: the byte with its high bit cleared. */
  function Low7(b: byte): nat {
    b % 0x80
  }

  function Low7s(bs: seq<byte>): (ds: seq<nat>)
    ensures |ds| == |bs|
    ensures forall i :: 0 <= i < |bs| ==> ds[i] == Low7(bs[i])
  {
    seq(|bs|, i requires 0 <= i < |bs| => Low7(bs[i]))
  }

  lemma FourDigits(base: nat, ds: seq<nat>)
    requires |ds| == 4
    ensures FromDigits(base, ds) == ((ds[0] * base + ds[1]) * base + ds[2]) * base + ds[3]
  {
    assert ds[..3][..2] == ds[..2] && ds[..2][..1] == ds[..1] && ds[..1][..0] == [];
    assert FromDigits(base, ds[..1]) == ds[0];
    assert FromDigits(base, ds[..2]) == ds[0] * base + ds[1];
    assert FromDigits(base, ds[..3]) == (ds[0] * base + ds[1]) * base + ds[2];
  }

  lemma Pow128Four()
    ensures Pow(128, 4) == SynchSafeLimit
  {
  }

  lemma Pow256Four()
    ensures Pow(256, 4) == Word32Limit
  {
  }

  /** The 28-bit value the low seven bits of four bytes spell out. */
  lemma SynchSafeWord(w: seq<byte>)
    requires |w| == 4
    ensures FromDigits(128, Low7s(w))
         == Low7(w[0]) * 0x20_0000 + Low7(w[1]) * 0x4000 + Low7(w[2]) * 0x80 + Low7(w[3])
    ensures FromDigits(128, Low7s(w)) < SynchSafeLimit
  {
    FourDigits(128, Low7s(w));
  }

  /** Decodes a synchsafe integer from the last four bytes of `bin`, ignoring bit 7
      of each; when a fifth-from-last byte exists, its low nibble lands in bits
      28..31 (the rest of it is shifted out of the uint32). Shorter inputs are
      outside the domain: the source slices `bin[l-4:l]` unguarded. */
  function ParseSynchSafe(bin: seq<byte>): (r: nat)
    requires |bin| >= 4
    ensures r < Word32Limit
    ensures r % SynchSafeLimit
         == Low7(bin[|bin| - 4]) * 0x20_0000 + Low7(bin[|bin| - 3]) * 0x4000
          + Low7(bin[|bin| - 2]) * 0x80 + Low7(bin[|bin| - 1])
    ensures r / SynchSafeLimit == if |bin| > 4 then bin[|bin| - 5] % 0x10 else 0
  {
    var l := |bin|;
    SynchSafeWord(bin[l - 4..]);
    var low := FromDigits(128, Low7s(bin[l - 4..]));
    var high := if l > 4 then bin[l - 5] % 0x10 else 0;
    DivModUnique(high, SynchSafeLimit, low);
    high * SynchSafeLimit + low
  }

  /** The decoder's own loop: `in` is the big-endian word of the last four bytes;
      `mask` walks from 0x7f000000 down one byte per round, and each round shifts
      `out` right by one bit and ORs in `in & mask`. Bit positions are tracked as
      multiples of powers of 256; the OR never meets set bits, so it is an addition. */
  method ParseSynchSafeByMask(bin: seq<byte>) returns (out: nat)
    requires |bin| >= 4
    ensures out == ParseSynchSafe(bin)
  {
    var l := |bin|;
    var word := bin[l - 4..];
    out := 0;
    var k := 0;
    while k < 4
      invariant 0 <= k <= 4
      invariant out == FromDigits(128, Low7s(word[..k])) * Pow(256, 4 - k)
    {
      var shift := Pow(256, 3 - k);
      ghost var acc := FromDigits(128, Low7s(word[..k]));
      assert out == (acc * 128 * shift) * 2;
      out := out / 2;
      out := out + Low7(word[k]) * shift;
      assert Low7s(word[..k + 1])[..k] == Low7s(word[..k]);
      assert out == (acc * 128 + Low7(word[k])) * shift;
      k := k + 1;
    }
    assert word[..4] == word;
    if l > 4 {
      out := out + (bin[l - 5] % 0x10) * SynchSafeLimit;
    }
  }

  /** Writes a 28-bit value as four bytes of seven bits each. */
  function EncodeSynchSafe(v: nat): (bin: seq<byte>)
    requires v < SynchSafeLimit
    ensures |bin| == 4
    ensures forall i :: 0 <= i < 4 ==> bin[i] < 0x80
  {
    ToDigits(128, 4, v)
  }

  /** Every 28-bit value survives encoding and decoding. */
  lemma SynchSafeRoundTrip(v: nat)
    requires v < SynchSafeLimit
    ensures ParseSynchSafe(EncodeSynchSafe(v)) == v
  {
    var bin := EncodeSynchSafe(v);
    assert Low7s(bin[0..]) == bin;
    Pow128Four();
    FromToDigits(128, 4, v);
  }

  /** Four bytes with bit 7 clear are exactly the encoding of their decoded value,
      so the encoding is the only one. */
  lemma SynchSafeCanonical(bin: seq<byte>)
    requires |bin| == 4
    requires forall i :: 0 <= i < 4 ==> bin[i] < 0x80
    ensures EncodeSynchSafe(ParseSynchSafe(bin)) == bin
  {
    assert Low7s(bin[0..]) == bin;
    ToFromDigits(128, bin);
  }

  /** Only the last five bytes of the input are ever looked at. */
  lemma SynchSafeReadsLastFive(prefix: seq<byte>, bin: seq<byte>)
    requires |bin| >= 5
    ensures ParseSynchSafe(prefix + bin) == ParseSynchSafe(bin)
  {
    var whole := prefix + bin;
    var l, m := |whole|, |bin|;
    assert whole[l - 5..] == bin[m - 5..];
    assert whole[l - 4..] == bin[m - 4..];
  }

  /** The v2.3 frame size: the first four bytes as a big-endian uint32. With fewer
      than four bytes the source's `binary.Read` fails, its error is dropped and
      the zero-initialised result is returned. */
  function ParseID3v23FrameSize(buf: seq<byte>): (r: nat)
    ensures r < Word32Limit
    ensures |buf| < 4 ==> r == 0
    ensures |buf| >= 4 ==> r == buf[0] as int * 0x100_0000 + buf[1] as int * 0x1_0000 + buf[2] as int * 0x100 + buf[3]
  {
    if |buf| < 4 then 0
    else
      FourDigits(256, buf[..4]);
      FromDigitsBound(256, buf[..4]);
      Pow256Four();
      FromDigits(256, buf[..4])
  }

  /** Writes a uint32 as four big-endian bytes. */
  function EncodeBigEndian32(v: nat): (buf: seq<byte>)
    requires v < Word32Limit
    ensures |buf| == 4
  {
    ToDigits(256, 4, v)
  }

  /** Every uint32 survives big-endian encoding and decoding. */
  lemma BigEndian32RoundTrip(v: nat)
    requires v < Word32Limit
    ensures ParseID3v23FrameSize(EncodeBigEndian32(v)) == v
  {
    var buf := EncodeBigEndian32(v);
    assert buf[..4] == buf;
    Pow256Four();
    FromToDigits(256, 4, v);
  }

  /** Any four bytes are the big-endian encoding of the size they decode to. */
  lemma BigEndian32Canonical(buf: seq<byte>)
    requires |buf| == 4
    ensures EncodeBigEndian32(ParseID3v23FrameSize(buf)) == buf
  {
    assert buf[..4] == buf;
    ToFromDigits(256, buf);
  }
}
