/** The bit encoder: one pixel becomes 24 timer compare codes, green then red
    then blue, each channel most significant bit first. */
module Ws2812Encode {
  import opened LedTypes

  /** Compare value for a 1-bit: the long high pulse. */
  const Long: byte := 17
  /** Compare value for a 0-bit: the short high pulse. */
  const Short: byte := 9
  /** Codes per pixel: 3 channels of 8 bits. */
  const CodesPerLed: nat := 24

  function Pow2(k: nat): (r: nat)
    ensures r >= 1
  {
    if k == 0 then 1 else 2 * Pow2(k - 1)
  }

  /** `x >> k`, one halving at a time. */
  function ShiftRight(x: nat, k: nat): nat {
    if k == 0 then x else ShiftRight(x, k - 1) / 2
  }

  /** `x << k`, one doubling at a time (on an int: nothing is shifted out). */
  function ShiftLeft(x: nat, k: nat): nat {
    if k == 0 then x else 2 * ShiftLeft(x, k - 1)
  }

  /** Bit k (0 is the least significant) of c: the reference reading of a byte. */
  predicate BitSet(c: byte, k: nat) {
    ShiftRight(c as nat, k) % 2 == 1
  }

  lemma ShiftRightValues(x: nat)
    ensures ShiftRight(x, 1) == x / 2 && ShiftRight(x, 2) == x / 4
    ensures ShiftRight(x, 3) == x / 8 && ShiftRight(x, 4) == x / 16
    ensures ShiftRight(x, 5) == x / 32 && ShiftRight(x, 6) == x / 64
    ensures ShiftRight(x, 7) == x / 128 && ShiftRight(x, 8) == x / 256
  {
    assert ShiftRight(x, 1) == x / 2;
    assert ShiftRight(x, 2) == x / 2 / 2 == x / 4;
    assert ShiftRight(x, 3) == x / 4 / 2 == x / 8;
    assert ShiftRight(x, 4) == x / 8 / 2 == x / 16;
    assert ShiftRight(x, 5) == x / 16 / 2 == x / 32;
    assert ShiftRight(x, 6) == x / 32 / 2 == x / 64;
    assert ShiftRight(x, 7) == x / 64 / 2 == x / 128;
    assert ShiftRight(x, 8) == x / 128 / 2 == x / 256;
  }

  /** Halving 2y k times is halving y k - 1 times. */
  lemma {:induction false} HalveDouble(y: nat, k: nat)
    requires k >= 1
    ensures ShiftRight(2 * y, k) == ShiftRight(y, k - 1)
    decreases k
  {
    if k > 1 {
      HalveDouble(y, k - 1);
    }
  }

  /** `(x << i) >> k == x >> (k - i)` when i <= k: on unbounded integers
      nothing is lost by shifting left first. */
  lemma {:induction false} ShiftLeftRight(x: nat, i: nat, k: nat)
    requires i <= k
    ensures ShiftRight(ShiftLeft(x, i), k) == ShiftRight(x, k - i)
    decreases i
  {
    if i > 0 {
      HalveDouble(ShiftLeft(x, i - 1), k);
      ShiftLeftRight(x, i - 1, k - 1);
    }
  }

  /** Bit 7 of `c << i`. The byte is promoted to int before the shift, so no
      bit is lost; the bit tested is bit 7 - i of c. */
  lemma ShiftedBit(c: byte, i: nat)
    requires i < 8
    ensures (ShiftLeft(c as nat, i) / 128 % 2 == 1) == BitSet(c, 7 - i)
  {
    ShiftRightValues(ShiftLeft(c as nat, i));
    ShiftLeftRight(c as nat, i, 7);
  }

  /** The code for position i (0 = first sent) of one channel, computed as the
      source does: `((c << i) & 0x80) ? 17 : 9`. */
  function SlotCode(c: byte, i: nat): (r: byte)
    requires i < 8
    ensures r == Long || r == Short
    ensures r == Long <==> BitSet(c, 7 - i)
  {
    ShiftedBit(c, i);
    if ShiftLeft(c as nat, i) / 128 % 2 == 1 then Long else Short
  }

  /** Which byte of the pixel feeds code slot `slot`: green (1), red (0), blue (2). */
  function ChannelOf(slot: int): (ch: nat)
    ensures ch < 3
  {
    if slot < 8 then 1 else if slot < 16 then 0 else 2
  }

  function ChannelCodes(c: byte): (r: seq<byte>)
    ensures |r| == 8
  {
    seq(8, i requires 0 <= i < 8 => SlotCode(c, i))
  }

  /** The 24 codes `fillLed` writes for one pixel: slot i carries bit
      7 - i % 8 of channel `ChannelOf(i)`. */
  function EncodePixel(color: Pixel): (r: seq<byte>)
    ensures |r| == CodesPerLed
  {
    seq(CodesPerLed, i => SlotCode(color[ChannelOf(i)], i % 8))
  }

  /** Every code of a pixel is 17 or 9, and code i is 17 exactly when bit
      7 - i % 8 of its channel (green, red, blue in turn) is set. */
  lemma EncodePixelBits(color: Pixel)
    ensures var r := EncodePixel(color);
            forall i :: 0 <= i < CodesPerLed ==>
              (r[i] == Long || r[i] == Short)
              && (r[i] == Long <==> BitSet(color[ChannelOf(i)], 7 - i % 8))
  {
  }

  /** The codes come green first, then red, then blue: the concatenation of
      the three channel loops. */
  lemma EncodeChannels(color: Pixel)
    ensures EncodePixel(color)
            == ChannelCodes(color[1]) + ChannelCodes(color[0]) + ChannelCodes(color[2])
  {
    var r := EncodePixel(color);
    assert r[..8] == ChannelCodes(color[1]);
    assert r[8..16] == ChannelCodes(color[0]);
    assert r[16..] == ChannelCodes(color[2]);
    assert r == r[..8] + r[8..16] + r[16..];
  }

  /** The three channels of an `RGB` land where the protocol wants them:
      green from `GetG` in slots 0..7, red from `GetR` in 8..15, blue from
      `GetB` in 16..23, each most significant bit first. */
  lemma EncodeRgbChannels(c: RGB, i: nat)
    requires i < 8
    ensures EncodePixel(c.Clr)[i] == Long <==> BitSet(c.GetG(), 7 - i)
    ensures EncodePixel(c.Clr)[8 + i] == Long <==> BitSet(c.GetR(), 7 - i)
    ensures EncodePixel(c.Clr)[16 + i] == Long <==> BitSet(c.GetB(), 7 - i)
  {
    var r := EncodePixel(c.Clr);
    EncodePixelBits(c.Clr);
    assert ChannelOf(8 + i) == 0 && (8 + i) % 8 == i;
    assert ChannelOf(16 + i) == 2 && (16 + i) % 8 == i;
  }

  // ---------------------------------------------------------------------
  // The receiving side: how a strip reads the codes back. This is the
  // partner that pins down that the encoding loses nothing.

  /** The value of a run of codes read most significant first (Long = 1). */
  function FromCodes(codes: seq<byte>): (v: nat)
    ensures v < Pow2(|codes|)
  {
    if codes == [] then 0
    else 2 * FromCodes(codes[..|codes| - 1]) + (if codes[|codes| - 1] == Long then 1 else 0)
  }

  predicate WellFormedCodes(codes: seq<byte>) {
    forall i :: 0 <= i < |codes| ==> codes[i] == Long || codes[i] == Short
  }

  function ChannelValue(codes: seq<byte>): byte
    requires |codes| == 8
  {
    assert Pow2(8) == 256;
    FromCodes(codes) as byte
  }

  /** Decode 24 codes into the pixel they carry; anything that is not 24
      valid codes (a zero reset frame, say) is not a pixel. */
  function DecodePixel(codes: seq<byte>): (r: Option<Pixel>)
    ensures r.Some? <==> |codes| == CodesPerLed && WellFormedCodes(codes)
  {
    if |codes| == CodesPerLed && WellFormedCodes(codes) then
      Some([ChannelValue(codes[8..16]), ChannelValue(codes[0..8]), ChannelValue(codes[16..24])])
    else None
  }

  /** The first n codes of a channel carry the top n bits of the byte. */
  lemma {:induction false} ChannelPrefix(c: byte, n: nat)
    requires n <= 8
    ensures FromCodes(ChannelCodes(c)[..n]) == ShiftRight(c as nat, 8 - n)
  {
    if n == 0 {
      ShiftRightValues(c as nat);
    } else {
      var s := ChannelCodes(c)[..n];
      assert s[..n - 1] == ChannelCodes(c)[..n - 1];
      ChannelPrefix(c, n - 1);
      assert s[n - 1] == SlotCode(c, n - 1);
    }
  }

  /** Decoding the codes of one channel gives the channel's byte back. */
  lemma ChannelRoundTrip(c: byte)
    ensures ChannelValue(ChannelCodes(c)) == c
  {
    ChannelPrefix(c, 8);
    assert ChannelCodes(c)[..8] == ChannelCodes(c);
  }

  /** Round trip: the strip reads back exactly the pixel that was encoded. */
  lemma DecodeEncode(color: Pixel)
    ensures DecodePixel(EncodePixel(color)) == Some(color)
  {
    var r := EncodePixel(color);
    assert WellFormedCodes(r) by { EncodePixelBits(color); }
    EncodeChannels(color);
    var g, rd, b := ChannelCodes(color[1]), ChannelCodes(color[0]), ChannelCodes(color[2]);
    assert r[0..8] == g && r[8..16] == rd && r[16..24] == b;
    ChannelRoundTrip(color[0]);
    ChannelRoundTrip(color[1]);
    ChannelRoundTrip(color[2]);
    assert [color[0], color[1], color[2]] == color;
  }

  /** Different pixels never share an encoding. */
  lemma EncodeInjective(a: Pixel, b: Pixel)
    requires EncodePixel(a) == EncodePixel(b)
    ensures a == b
  {
    DecodeEncode(a);
    DecodeEncode(b);
  }

  // ---------------------------------------------------------------------
  // Writing into the DMA buffer in place.

  function Zeros(n: nat): (z: seq<byte>)
    ensures |z| == n && forall i :: 0 <= i < n ==> z[i] == 0
  {
    seq(n, _ => 0)
  }

  /** `s` with the bytes from `off` on replaced by `codes`. */
  function Splice(s: seq<byte>, off: nat, codes: seq<byte>): (r: seq<byte>)
    requires off + |codes| <= |s|
    ensures |r| == |s|
    ensures forall j :: 0 <= j < |s| ==>
              r[j] == if off <= j < off + |codes| then codes[j - off] else s[j]
  {
    s[..off] + codes + s[off + |codes|..]
  }

  /** `fillLed`: three counted loops write the green, red and blue codes into
      `buffer[off..off+24]`; no other byte changes. */
  method FillLed(buffer: array<byte>, off: nat, color: Pixel)
    requires off + CodesPerLed <= buffer.Length
    modifies buffer
    ensures buffer[..] == Splice(old(buffer[..]), off, EncodePixel(color))
  {
    ghost var before := buffer[..];
    var i := 0;
    while i < 8
      invariant 0 <= i <= 8
      invariant forall j :: 0 <= j < buffer.Length ==>
                  buffer[j] == if off <= j < off + i then SlotCode(color[1], j - off) else before[j]
    {
      buffer[off + i] := if ShiftLeft(color[1] as nat, i) / 128 % 2 == 1 then Long else Short;
      i := i + 1;
    }
    i := 0;
    while i < 8
      invariant 0 <= i <= 8
      invariant forall j :: 0 <= j < buffer.Length ==>
                  buffer[j] == if off <= j < off + 8 then SlotCode(color[1], j - off)
                               else if off + 8 <= j < off + 8 + i then SlotCode(color[0], j - off - 8)
                               else before[j]
    {
      buffer[off + 8 + i] := if ShiftLeft(color[0] as nat, i) / 128 % 2 == 1 then Long else Short;
      i := i + 1;
    }
    i := 0;
    while i < 8
      invariant 0 <= i <= 8
      invariant forall j :: 0 <= j < buffer.Length ==>
                  buffer[j] == if off <= j < off + 8 then SlotCode(color[1], j - off)
                               else if off + 8 <= j < off + 16 then SlotCode(color[0], j - off - 8)
                               else if off + 16 <= j < off + 16 + i then SlotCode(color[2], j - off - 16)
                               else before[j]
    {
      buffer[off + 16 + i] := if ShiftLeft(color[2] as nat, i) / 128 % 2 == 1 then Long else Short;
      i := i + 1;
    }
    EncodeChannels(color);
    assert buffer[..] == Splice(before, off, EncodePixel(color));
  }

  /** `bzero(buffer + off, n)`: n zero bytes from `off` on; no other byte changes. */
  method Bzero(buffer: array<byte>, off: nat, n: nat)
    requires off + n <= buffer.Length
    modifies buffer
    ensures buffer[..] == Splice(old(buffer[..]), off, Zeros(n))
  {
    ghost var before := buffer[..];
    var i := 0;
    while i < n
      invariant 0 <= i <= n
      invariant forall j :: 0 <= j < buffer.Length ==>
                  buffer[j] == if off <= j < off + i then 0 else before[j]
    {
      buffer[off + i] := 0;
      i := i + 1;
    }
    assert buffer[..] == Splice(before, off, Zeros(n));
  }
}
