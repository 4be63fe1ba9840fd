/** Value types shared by the driver: fixed-width integers, a pixel's three
    bytes, the RGB colour value and the borrowed pixel-buffer view. */
module LedTypes {

  newtype byte = x: int | 0 <= x < 0x100
  newtype uint16 = x: int | 0 <= x < 0x1_0000
  newtype uint32 = x: int | 0 <= x < 0x1_0000_0000

  datatype Option<+T> = None | Some(value: T)

  /** The three bytes of one pixel as the driver receives them (`uint8_t[3]`):
      index 0 is red, index 1 green, index 2 blue. */
  type Pixel = s: seq<byte> | |s| == 3 witness [0, 0, 0]

  /** The pixel stored at bytes 3*k .. 3*k+2 of `data`. */
  function PixelAt(data: seq<byte>, k: nat): Pixel
    requires 3 * k + 3 <= |data|
  {
    data[3 * k..3 * k + 3]
  }

  /** A colour value; `Clr` is its byte array, in the order the getters read it. */
  datatype RGB = RGB(Clr: Pixel) {
    /** The red channel is byte 0 of the colour array. */
    function GetR(): (r: byte)
      ensures r == Clr[0]
    {
      Clr[0]
    }

    /** The green channel is byte 1 of the colour array. */
    function GetG(): (g: byte)
      ensures g == Clr[1]
    {
      Clr[1]
    }

    /** The blue channel is byte 2 of the colour array. */
    function GetB(): (b: byte)
      ensures b == Clr[2]
    {
      Clr[2]
    }
  }

  /** The getters read back exactly the channels a colour is built from, and
      together they determine the colour. */
  lemma RgbRoundTrip(r: byte, g: byte, b: byte, c: RGB)
    ensures RGB([r, g, b]).GetR() == r && RGB([r, g, b]).GetG() == g && RGB([r, g, b]).GetB() == b
    ensures c == RGB([c.GetR(), c.GetG(), c.GetB()])
  {
    assert c.Clr == [c.Clr[0], c.Clr[1], c.Clr[2]];
  }

  /** A non-owning view of `NumLeds` pixels stored three bytes each in `LedData`.
      The count field is 16 bits wide although the constructor takes 32. */
  datatype LedBuffer = LedBuffer(LedData: seq<byte>, NumLeds: uint16) {

    /** The count the view reports is the number of pixels it yields. */
    function GetNumLeds(): (n: uint16)
      ensures 3 * NumLeds as int <= |LedData| ==> n as int == |Pixels()|
    {
      NumLeds
    }

    /** Bytes 3*led .. 3*led+2 of the data. The source returns an unchecked
        pointer; here an index past the data is reported as None. */
    function GetLed(led: uint16): (r: Option<Pixel>)
      ensures r.Some? <==> 3 * led as int + 3 <= |LedData|
      ensures r.Some? ==> forall j :: 0 <= j < 3 ==> r.value[j] == LedData[3 * led as int + j]
    {
      var at := 3 * led as int;
      if at + 3 <= |LedData| then Some(PixelAt(LedData, led as nat)) else None
    }

    /** Every pixel of the view, in order: what the driver streams. */
    function Pixels(): (ps: seq<Pixel>)
      requires 3 * NumLeds as int <= |LedData|
      ensures |ps| == NumLeds as int
      ensures forall k :: 0 <= k < |ps| ==> GetLed(k as uint16) == Some(ps[k])
    {
      seq(NumLeds as int, k requires 0 <= k < NumLeds as int => PixelAt(LedData, k))
    }
  }

  /** The constructor: the 32-bit count is stored into the 16-bit field. */
  function NewLedBuffer(ledColorBuffer: seq<byte>, numLeds: uint32): (b: LedBuffer)
    ensures b.LedData == ledColorBuffer
    ensures b.GetNumLeds() as int == numLeds as int % 0x1_0000
    ensures numLeds < 0x1_0000 ==> b.GetNumLeds() as int == numLeds as int
  {
    LedBuffer(ledColorBuffer, (numLeds as int % 0x1_0000) as uint16)
  }

  /** The byte layout of a pixel sequence: three bytes per pixel, in order. */
  function Flatten(ps: seq<Pixel>): (bytes: seq<byte>)
    ensures |bytes| == 3 * |ps|
  {
    if ps == [] then [] else Flatten(ps[..|ps| - 1]) + ps[|ps| - 1]
  }

  /** Reading the pixels of a view and laying them out again gives back exactly
      the bytes the view covers. */
  lemma {:induction false} FlattenPixels(b: LedBuffer)
    requires 3 * b.NumLeds as int <= |b.LedData|
    ensures Flatten(b.Pixels()) == b.LedData[..3 * b.NumLeds as int]
  {
    FlattenPrefix(b.LedData, b.Pixels());
  }

  lemma {:induction false} FlattenPrefix(data: seq<byte>, ps: seq<Pixel>)
    requires 3 * |ps| <= |data|
    requires forall k :: 0 <= k < |ps| ==> ps[k] == PixelAt(data, k)
    ensures Flatten(ps) == data[..3 * |ps|]
  {
    if ps != [] {
      var n := |ps|;
      FlattenPrefix(data, ps[..n - 1]);
      assert data[..3 * n] == data[..3 * (n - 1)] + data[3 * (n - 1)..3 * n];
    }
  }
}
