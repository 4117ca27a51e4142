/** Block geometry of the image: how many host file-system blocks it spans. */
module Geometry {

  /**
   * The number of blocks of `blockSize` bytes that an image of `imageSize`
   * bytes occupies: the quotient rounded up (Python 2 integer division of
   * `imageSize + blockSize - 1` by `blockSize`). The two bounds determine the
   * result uniquely: enough blocks to hold the image, and not one more.
   */
  function BlocksCount(imageSize: nat, blockSize: nat): (n: nat)
    requires blockSize > 0
    ensures n * blockSize >= imageSize
    ensures (n - 1) * blockSize < imageSize
  {
    var q := (imageSize + blockSize - 1) / blockSize;
    DivisionBounds(imageSize + blockSize - 1, blockSize);
    q
  }

  /** Euclidean division: `q * d <= x < (q + 1) * d`. */
  lemma DivisionBounds(x: nat, d: nat)
    requires d > 0
    ensures (x / d) * d <= x < (x / d) * d + d
  {
    assert x == (x / d) * d + x % d;
  }
}
