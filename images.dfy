/** Pixels and images as the PNG layer hands them to the matcher. An image that is
    only read is an `Image` value; the image that boxes are drawn into is a buffer
    `array2<Pixel>` indexed [row, col], of height `Length0` and width `Length1`. */
module Images {

  /** One 8-bit colour channel (an `unsigned char`). */
  type Byte = x: int | 0 <= x < 256

  /** One RGBA pixel. */
  datatype Pixel = Pixel(red: Byte, green: Byte, blue: Byte, alpha: Byte)

  /** The colour channels the matcher averages and compares; alpha is never one of them. */
  datatype Channel = Red | Green | Blue

  function Chan(p: Pixel, ch: Channel): Byte {
    match ch
    case Red => p.red
    case Green => p.green
    case Blue => p.blue
  }

  /** Opaque black, the packed word 0xff000000: the marker of a background position in a mask. */
  const Black: Pixel := Pixel(0, 0, 0, 255)

  /** `rgba == Black.rgba`: two packed words are equal exactly when all four channels are. */
  predicate IsBlack(p: Pixel) {
    p == Black
  }

  /** The buffer's red-marking update: red at full intensity, the other channels as found. */
  function SetRed(p: Pixel): Pixel {
    p.(red := 255)
  }

  /** Largest value of a 32-bit `int`. */
  const IntMax: int := 0x7fff_ffff

  predicate InInt32(x: int) {
    -IntMax - 1 <= x <= IntMax
  }

  /** Largest mask area for which a channel sum of 8-bit values cannot overflow an `int`. */
  const MaxMaskArea: int := IntMax / 255

  /** A loaded image, read-only while it is searched: `height` rows of `width` pixels,
      row-major, origin at the top left. */
  datatype Image = Image(height: nat, width: nat, rows: seq<seq<Pixel>>)

  predicate WellFormed(img: Image) {
    |img.rows| == img.height && forall r :: 0 <= r < |img.rows| ==> |img.rows[r]| == img.width
  }

  /** getPixel: the pixel at (row, col). */
  function GetPixel(img: Image, row: int, col: int): Pixel
    requires WellFormed(img) && 0 <= row < img.height && 0 <= col < img.width
  {
    img.rows[row][col]
  }

  /** The first `m` rows and `n` columns of `mask`, laid over `img` with the mask's
      origin at (sr, sc), lie inside both images. */
  predicate WindowInside(img: Image, mask: Image, sr: int, sc: int, m: int, n: int) {
    && WellFormed(img) && WellFormed(mask)
    && 0 <= m <= mask.height && 0 <= n <= mask.width
    && 0 <= sr && sr + m <= img.height
    && 0 <= sc && sc + n <= img.width
  }

  lemma SetRedIdempotent(p: Pixel)
    ensures SetRed(SetRed(p)) == SetRed(p)
    ensures SetRed(p).green == p.green && SetRed(p).blue == p.blue && SetRed(p).alpha == p.alpha
  {
  }
}
