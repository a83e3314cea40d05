/** The interleaved image of main.cpp: `ImageVec` is a vector of pixels, each a vector of three
    `unsigned char` samples, and pixel (x, y) of a width-w image sits at index y * w + x. */
module Image {
  import opened Arithmetic

  /** An `unsigned char` sample. */
  type Byte = x: int | 0 <= x < 256

  /** Samples per pixel: red, green, blue. */
  const CHANNELS: nat := 3

  type Pixel = p: seq<Byte> | |p| == CHANNELS witness [0, 0, 0]

  type ImageVec = seq<Pixel>

  /** Row-major linear index of pixel (x, y). */
  function Index(width: nat, x: nat, y: nat): nat {
    y * width + x
  }

  lemma IndexInBounds(width: nat, height: nat, x: nat, y: nat)
    requires x < width && y < height
    ensures Index(width, x, y) < width * height
  {
    Distribute(width, y + 1, height - y - 1);
    Distribute(width, y, 1);
  }

  /** Pixels of different coordinates have different indices. */
  lemma IndexInjective(width: nat, x: nat, y: nat, x': nat, y': nat)
    requires x < width && x' < width
    requires Index(width, x, y) == Index(width, x', y')
    ensures x == x' && y == y'
  {
    if y < y' {
      Distribute(width, y, y' - y);
      MulMonotone(1, y' - y, width, width);
    } else if y' < y {
      Distribute(width, y', y - y');
      MulMonotone(1, y - y', width, width);
    }
  }
}
