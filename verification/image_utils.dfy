/** Byte-level channel transforms used for display: dropping the alpha
    channel, extracting it as a grey image, and the placeholder shown for an
    image that cannot be loaded. */
module ImageUtils {
  import opened Wrappers
  import opened Text
  import opened AbstractImage
  import Rgba8888Image
  import Arith

  /** The R, G and B bytes of the first `n` four-byte pixels of `data`,
      packed three bytes per pixel. */
  function Colours(data: seq<Byte>, n: nat): (rgb: seq<Byte>)
    requires 4 * n <= |data|
    ensures |rgb| == 3 * n
    decreases n
  {
    if n == 0 then [] else Colours(data, n - 1) + data[4 * (n - 1) .. 4 * (n - 1) + 3]
  }

  /** Pixel `p` of `Colours` is pixel `p` of the source without its alpha. */
  lemma {:induction false} ColoursPixels(data: seq<Byte>, n: nat)
    requires 4 * n <= |data|
    ensures forall p | 0 <= p < n :: PixelAt(Colours(data, n), 3, p) == PixelAt(data, 4, p)[..3]
    decreases n
  {
    if n > 0 {
      ColoursPixels(data, n - 1);
      forall p | 0 <= p < n
        ensures PixelAt(Colours(data, n), 3, p) == PixelAt(data, 4, p)[..3]
      {
        PixelAtAppend(Colours(data, n - 1), data[4 * (n - 1) .. 4 * (n - 1) + 3], n - 1, p);
      }
    }
  }

  /** The alpha byte of each of the first `n` four-byte pixels of `data`,
      repeated three times. */
  function Greys(data: seq<Byte>, n: nat): (grey: seq<Byte>)
    requires 4 * n <= |data|
    ensures |grey| == 3 * n
    decreases n
  {
    if n == 0 then [] else
      var a := data[4 * (n - 1) + 3];
      Greys(data, n - 1) + [a, a, a]
  }

  /** Pixel `p` of `Greys` is three copies of source pixel `p`'s alpha. */
  lemma {:induction false} GreysPixels(data: seq<Byte>, n: nat)
    requires 4 * n <= |data|
    ensures forall p | 0 <= p < n ::
      PixelAt(Greys(data, n), 3, p) == [data[4 * p + 3], data[4 * p + 3], data[4 * p + 3]]
    decreases n
  {
    if n > 0 {
      GreysPixels(data, n - 1);
      var a := data[4 * (n - 1) + 3];
      forall p | 0 <= p < n
        ensures PixelAt(Greys(data, n), 3, p) == [data[4 * p + 3], data[4 * p + 3], data[4 * p + 3]]
      {
        PixelAtAppend(Greys(data, n - 1), [a, a, a], n - 1, p);
      }
    }
  }

  /** `dropAlpha`: a three-byte image is returned as it is; a four-byte image
      keeps R, G and B of every pixel. The slice assignments raise when the
      buffer is not a whole number of pixels. */
  function DropAlpha(img: Image): (r: Result<Image>)
    ensures img.format == Rgb888 ==> r == Ok(img)
    ensures img.format == Rgba8888 ==> (r.Ok? <==> |img.data| % 4 == 0)
    ensures r.Ok? ==> r.value.format == Rgb888 && r.value.width == img.width && r.value.height == img.height
    ensures r.Ok? && img.format == Rgba8888 ==>
      && |r.value.data| == 3 * (|img.data| / 4)
      && forall p | 0 <= p < |img.data| / 4 :: PixelAt(r.value.data, 3, p) == PixelAt(img.data, 4, p)[..3]
  {
    match img.format
    case Rgb888 => Ok(img)
    case Rgba8888 =>
      if |img.data| % 4 != 0 then Err("attempt to assign bytes to extended slice of another size")
      else
        var n := |img.data| / 4;
        ColoursPixels(img.data, n);
        Ok(NewRgb888(Colours(img.data, n), img.width, img.height))
  }

  /** `getAlphaImage`: `None` for a three-byte image; for a four-byte image a
      three-byte image whose every pixel repeats that pixel's alpha. */
  function GetAlphaImage(img: Image): (r: Option<Image>)
    ensures r.Some? <==> img.format == Rgba8888
    ensures r.Some? ==> r.value.format == Rgb888 && r.value.width == img.width && r.value.height == img.height
    ensures r.Some? ==>
      && |r.value.data| == 3 * (|img.data| / 4)
      && forall p | 0 <= p < |img.data| / 4 ::
           PixelAt(r.value.data, 3, p) == [img.data[4 * p + 3], img.data[4 * p + 3], img.data[4 * p + 3]]
  {
    match img.format
    case Rgb888 => None
    case Rgba8888 =>
      var n := |img.data| / 4;
      GreysPixels(img.data, n);
      Some(NewRgb888(Greys(img.data, n), img.width, img.height))
  }

  /** Together the two transforms lose nothing: every four-byte pixel is its
      colour from `dropAlpha` followed by its grey level from `getAlphaImage`. */
  lemma ChannelsReassemble(img: Image, p: nat)
    requires img.format == Rgba8888 && |img.data| % 4 == 0 && p < |img.data| / 4
    ensures PixelAt(img.data, 4, p)
      == PixelAt(DropAlpha(img).value.data, 3, p) + [PixelAt(GetAlphaImage(img).value.data, 3, p)[0]]
  {
    var px := PixelAt(img.data, 4, p);
    assert px == px[..3] + [px[3]];
  }

  /** Width and height of the placeholder image. */
  const PlaceHolderSide: nat := 100
  const PlaceHolderPixels: nat := PlaceHolderSide * PlaceHolderSide

  /** `count` copies of `unit`, end to end (`bytearray(unit) * count`). */
  function Tile(unit: seq<Byte>, count: nat): (r: seq<Byte>)
    ensures |r| == count * |unit|
    decreases count
  {
    if count == 0 then [] else Tile(unit, count - 1) + unit
  }

  /** Every pixel of a tiling is the unit. */
  lemma {:induction false} TilePixels(unit: seq<Byte>, count: nat)
    ensures forall p | 0 <= p < count ::
      p * |unit| + |unit| <= |Tile(unit, count)| && PixelAt(Tile(unit, count), |unit|, p) == unit
    decreases count
  {
    if count > 0 {
      TilePixels(unit, count - 1);
      forall p | 0 <= p < count
        ensures p * |unit| + |unit| <= |Tile(unit, count)| && PixelAt(Tile(unit, count), |unit|, p) == unit
      {
        PixelAtAppend(Tile(unit, count - 1), unit, count - 1, p);
      }
    }
  }

  /** `genPlaceHolder`: a 100 x 100 four-byte image whose every pixel is the
      null colour followed by a zero alpha, tagged "nullImage". */
  function PlaceHolder(nullColor: seq<Byte>): (img: Image)
    ensures img.format == Rgba8888 && img.width == PlaceHolderSide && img.height == PlaceHolderSide
    ensures img.srcFileFormat == Some("nullImage")
    ensures |img.data| == PlaceHolderPixels * |nullColor + [0]|
    ensures forall p | 0 <= p < PlaceHolderPixels ::
      p * |nullColor + [0]| + |nullColor + [0]| <= |img.data| && PixelAt(img.data, |nullColor + [0]|, p) == nullColor + [0]
  {
    var unit := nullColor + [0];
    var data := Tile(unit, PlaceHolderPixels);
    TilePixels(unit, PlaceHolderPixels);
    Image(Rgba8888, data, PlaceHolderSide, PlaceHolderSide, None, Some("nullImage"))
  }

  /** What `loadImage` does once the read or the PNG decode failed: the
      placeholder when a null colour is configured, the original error
      otherwise. */
  function OnLoadFailure(nullColor: seq<Byte>, error: string): (r: Result<Image>)
    ensures r.Err? <==> |nullColor| == 0
    ensures r.Err? ==> r.error == error
    ensures r.Ok? ==> r.value.srcFileFormat == Some("nullImage") && r.value.format == Rgba8888
  {
    if |nullColor| == 0 then Err(error) else Ok(PlaceHolder(nullColor))
  }

  /** Where `loadImage` gave up: the file could not be read; no container
      and no PIL decoder recognised the bytes; or PIL recognised them but
      they are not a PNG in RGB or RGBA mode, or failed to decode. */
  datatype FailureStage = ReadFailed | Unidentified | DecodeFailed

  /** `loadImage` after a failure at `stage` raising `error`. Only the read
      and the decode fall back to the placeholder; an unidentified format
      raises its own message whatever the null colour. */
  function FailedLoad(stage: FailureStage, nullColor: seq<Byte>, error: string): (r: Result<Image>)
    ensures r.Ok? <==> stage != Unidentified && |nullColor| > 0
    ensures r.Ok? ==> r.value == PlaceHolder(nullColor)
    ensures stage == Unidentified ==> r == Err("Unable to identify image format")
    ensures stage != Unidentified && r.Err? ==> r.error == error
  {
    if stage == Unidentified then Err("Unable to identify image format") else OnLoadFailure(nullColor, error)
  }

  /** With a three-byte null colour (the configured default is magenta) the
      placeholder is a well-formed RGBA image: it shows the null colour and
      its alpha image is black. */
  lemma PlaceHolderRgb(nullColor: seq<Byte>)
    requires |nullColor| == 3
    ensures var img := PlaceHolder(nullColor);
      && WellFormed(img) && |img.data| == img.width * img.height * 4
      && forall p | 0 <= p < PlaceHolderPixels ::
           && PixelAt(DropAlpha(img).value.data, 3, p) == nullColor
           && PixelAt(GetAlphaImage(img).value.data, 3, p) == [0, 0, 0]
  {
    var img := PlaceHolder(nullColor);
    forall p | 0 <= p < PlaceHolderPixels
      ensures PixelAt(DropAlpha(img).value.data, 3, p) == nullColor
      ensures PixelAt(GetAlphaImage(img).value.data, 3, p) == [0, 0, 0]
    {
      assert |nullColor + [0]| == 4;
      assert PixelAt(img.data, 4, p) == nullColor + [0];
      assert img.data[4 * p + 3] == PixelAt(img.data, 4, p)[3];
    }
  }
}
