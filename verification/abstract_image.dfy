/** The image container shared by both raw formats: a byte buffer with a
    declared width, height and pixel format, and the geometry check that
    `getDiff` applies to each image. */
module AbstractImage {
  import opened Wrappers
  import opened Text
  import opened Common
  import Arith

  /** The two container classes: three bytes (R, G, B) or four bytes
      (R, G, B, A) per pixel. */
  datatype PixelFormat = Rgb888 | Rgba8888 {

    function BytesPerPixel(): (n: nat)
      ensures n == 3 || n == 4
    {
      if Rgb888? then 3 else 4
    }

    function Mode(): string {
      if Rgb888? then "RGB" else "RGBA"
    }
  }

  /** An image object. The buffer length is not tied to width and height:
      nothing in the containers enforces it. */
  datatype Image = Image(format: PixelFormat, data: seq<Byte>, width: int, height: int,
                         srcFilePath: Option<string>, srcFileFormat: Option<string>) {

    function BytesPerPixel(): (n: nat)
      ensures n == 3 || n == 4
    {
      format.BytesPerPixel()
    }
  }

  /** An image whose buffer holds at least `width * height` pixels, so every
      pixel the declared size names can be read. */
  predicate WellFormed(img: Image) {
    img.width >= 0 && img.height >= 0 && |img.data| >= img.width * img.height * img.BytesPerPixel()
  }

  /** A three-byte image built from a buffer, as the transforms produce. */
  function NewRgb888(data: seq<Byte>, width: int, height: int): (img: Image)
    ensures img.BytesPerPixel() == 3 && img.format.Mode() == "RGB"
    ensures img.data == data && img.width == width && img.height == height
    ensures img.srcFilePath.None? && img.srcFileFormat.None?
  {
    Image(Rgb888, data, width, height, None, None)
  }

  /** The `size` bytes of pixel number `p` of a packed buffer. */
  function PixelAt(data: seq<Byte>, size: nat, p: nat): seq<Byte>
    requires p * size + size <= |data|
  {
    data[p * size .. p * size + size]
  }

  /** Appending one pixel to a buffer of `n` pixels leaves the earlier
      pixels in place and makes the new one pixel number `n`. */
  lemma PixelAtAppend(buf: seq<Byte>, c: seq<Byte>, n: nat, k: nat)
    requires |buf| == n * |c| && k <= n
    ensures k * |c| + |c| <= |buf + c| && (k < n ==> k * |c| + |c| <= |buf|)
    ensures PixelAt(buf + c, |c|, k) == if k < n then PixelAt(buf, |c|, k) else c
  {
    var m := |c|;
    assert k * m + m == (k + 1) * m;
    Arith.MulMonotone(k + 1, n + 1, m);
    assert (n + 1) * m == |buf + c|;
    if k < n {
      Arith.MulMonotone(k + 1, n, m);
      assert (buf + c)[k * m .. k * m + m] == buf[k * m .. k * m + m];
    } else {
      assert k * m == |buf|;
    }
  }

  /** `validateGeometry`: the window ends inside the image. */
  predicate ValidateGeometry(img: Image, g: Geometry) {
    g.width + g.x <= img.width && g.height + g.y <= img.height
  }

  /** Byte offset in `img` of the pixel at row `j`, column `i` of window `g`:
      `((j + g.y) * width + i + g.x) * bytesPerPixel`. */
  function InputIndex(img: Image, g: Geometry, j: int, i: int): int {
    ((j + g.y) * img.width + i + g.x) * img.BytesPerPixel()
  }

  /** A validated window of a well-formed image lies inside the buffer: every
      pixel of it can be read whole. */
  lemma ValidatedWindowInBuffer(img: Image, g: Geometry, j: nat, i: nat)
    requires WellFormed(img) && NonNegative(g) && ValidateGeometry(img, g)
    requires j < g.height && i < g.width
    ensures 0 <= InputIndex(img, g, j, i)
    ensures InputIndex(img, g, j, i) + img.BytesPerPixel() <= |img.data|
  {
    var row, col := j + g.y, i + g.x;
    Arith.RowMajorBound(row, col, img.width, img.height);
    Arith.MulMonotone(row * img.width + col + 1, img.height * img.width, img.BytesPerPixel());
    assert (row * img.width + col + 1) * img.BytesPerPixel()
      == (row * img.width + col) * img.BytesPerPixel() + img.BytesPerPixel();
    assert img.height * img.width * img.BytesPerPixel() == img.width * img.height * img.BytesPerPixel();
  }
}
