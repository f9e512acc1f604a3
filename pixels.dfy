/** Index arithmetic of a row-major pixel buffer: pixel (x, y) of an image of
    width `w` with `bpp` bytes per pixel starts at byte `(y * w + x) * bpp`,
    the expression the source uses for its pointer arithmetic. */
module Pixels {

  /** Byte index of channel `k` of pixel (x, y). */
  function Offset(w: int, bpp: int, x: int, y: int, k: int): int
  {
    (y * w + x) * bpp + k
  }

  /** Column of the pixel that byte `i` belongs to. */
  function PixelX(w: int, bpp: int, i: int): int
    requires w > 0 && bpp > 0
  {
    (i / bpp) % w
  }

  /** Row of the pixel that byte `i` belongs to. */
  function PixelY(w: int, bpp: int, i: int): int
    requires w > 0 && bpp > 0
  {
    (i / bpp) / w
  }

  /** Channel that byte `i` holds within its pixel. */
  function Channel(bpp: int, i: int): int
    requires bpp > 0
  {
    i % bpp
  }

  lemma MulMonotone(a: int, b: int, c: int)
    requires 0 <= a <= b && 0 <= c
    ensures a * c <= b * c
  {
  }

  /** Quotient and remainder are determined by any decomposition
      n == q * d + r with 0 <= r < d. */
  lemma {:induction false} DivModUnique(n: int, d: int, q: int, r: int)
    requires d > 0 && 0 <= r < d && n == q * d + r
    ensures n / d == q && n % d == r
  {
    var q', r' := n / d, n % d;
    assert n == q' * d + r';
    if q' > q {
      MulMonotone(1, q' - q, d);
    } else if q' < q {
      MulMonotone(1, q - q', d);
    }
  }

  lemma Distrib(a: int, b: int, c: int)
    ensures (a + b) * c == a * c + b * c
  {
  }

  /** The first byte of row r + 1 at column x lies one stride past row r's. */
  lemma NextRow(w: int, bpp: int, x: int, r: int)
    ensures Offset(w, bpp, x, r + 1, 0) == Offset(w, bpp, x, r, 0) + w * bpp
  {
    Distrib(r, 1, w);
    Distrib(r * w + x, w, bpp);
  }

  /** The pointer expression `x * bpp + (w * bpp) * y` of a row start. */
  lemma RowStart(w: int, bpp: int, x: int, y: int)
    ensures x * bpp + (w * bpp) * y == Offset(w, bpp, x, y, 0)
  {
    Distrib(y * w, x, bpp);
    assert (w * bpp) * y == (y * w) * bpp;
  }

  /** A quotient below its bound: n < m * d gives n / d < m. */
  lemma DivBelow(n: int, d: int, m: int)
    requires d > 0 && 0 <= n < m * d
    ensures 0 <= n / d < m
  {
    if n / d >= m {
      MulMonotone(m, n / d, d);
    }
  }

  /** Every byte index splits into its pixel's start and its channel. */
  lemma Split(w: int, bpp: int, i: int)
    requires w > 0 && bpp > 0 && 0 <= i
    ensures 0 <= PixelX(w, bpp, i) < w && 0 <= PixelY(w, bpp, i)
    ensures 0 <= Channel(bpp, i) < bpp
    ensures i == Offset(w, bpp, PixelX(w, bpp, i), PixelY(w, bpp, i), Channel(bpp, i))
  {
    var p := i / bpp;
    assert i == p * bpp + i % bpp;
    assert p == (p / w) * w + p % w;
  }

  /** Every byte of a w x h buffer lies inside it and is channel `Channel` of
      pixel (PixelX, PixelY). */
  lemma EncodePixel(w: int, h: int, bpp: int, i: int)
    requires w > 0 && bpp > 0 && 0 <= i < w * h * bpp
    ensures 0 <= PixelX(w, bpp, i) < w && 0 <= PixelY(w, bpp, i) < h
    ensures 0 <= Channel(bpp, i) < bpp
    ensures i == Offset(w, bpp, PixelX(w, bpp, i), PixelY(w, bpp, i), Channel(bpp, i))
  {
    Split(w, bpp, i);
    DivBelow(i, bpp, w * h);
    assert w * h == h * w;
    DivBelow(i / bpp, w, h);
  }

  /** Bytes inside the block that pixels pw .. pw + n - 1 of row y occupy
      decode to those pixels. */
  lemma BlockToPixel(w: int, bpp: int, pw: int, n: int, y: int, i: int)
    requires w > 0 && bpp > 0 && 0 <= pw && 0 <= n && pw + n <= w && 0 <= y
    requires Offset(w, bpp, pw, y, 0) <= i < Offset(w, bpp, pw, y, 0) + n * bpp
    ensures var j := i - Offset(w, bpp, pw, y, 0);
      PixelY(w, bpp, i) == y && PixelX(w, bpp, i) == pw + j / bpp && Channel(bpp, i) == j % bpp
  {
    var j := i - Offset(w, bpp, pw, y, 0);
    var c, k := j / bpp, j % bpp;
    DivBelow(j, bpp, n);
    assert j == c * bpp + k;
    Distrib(y * w + pw, c, bpp);
    assert i == (y * w + (pw + c)) * bpp + k;
    DivModUnique(i, bpp, y * w + (pw + c), k);
    DivModUnique(y * w + (pw + c), w, y, pw + c);
  }

  /** Bytes of pixels pw .. pw + n - 1 of row y lie inside that block. */
  lemma PixelToBlock(w: int, bpp: int, pw: int, n: int, y: int, i: int)
    requires w > 0 && bpp > 0 && 0 <= pw && 0 <= n && pw + n <= w && 0 <= y && 0 <= i
    requires PixelY(w, bpp, i) == y && pw <= PixelX(w, bpp, i) < pw + n
    ensures Offset(w, bpp, pw, y, 0) <= i < Offset(w, bpp, pw, y, 0) + n * bpp
  {
    Split(w, bpp, i);
    var x, k := PixelX(w, bpp, i), Channel(bpp, i);
    assert i == (y * w + pw + (x - pw)) * bpp + k;
    Distrib(y * w + pw, x - pw, bpp);
    MulMonotone(0, x - pw, bpp);
    MulMonotone(x - pw + 1, n, bpp);
    Distrib(x - pw, 1, bpp);
  }

  /** The bytes of one row that the pixels pw .. pw + n - 1 occupy form the
      contiguous block [Offset(pw, y, 0), Offset(pw, y, 0) + n * bpp); inside
      that block the pixel and channel follow from the distance to its start. */
  lemma RowSpan(w: int, bpp: int, pw: int, n: int, y: int, i: int)
    requires w > 0 && bpp > 0 && 0 <= pw && 0 <= n && pw + n <= w && 0 <= y && 0 <= i
    ensures (Offset(w, bpp, pw, y, 0) <= i < Offset(w, bpp, pw, y, 0) + n * bpp)
        <==> (PixelY(w, bpp, i) == y && pw <= PixelX(w, bpp, i) < pw + n)
    ensures Offset(w, bpp, pw, y, 0) <= i < Offset(w, bpp, pw, y, 0) + n * bpp ==>
      var j := i - Offset(w, bpp, pw, y, 0);
      PixelX(w, bpp, i) == pw + j / bpp && Channel(bpp, i) == j % bpp
  {
    if Offset(w, bpp, pw, y, 0) <= i < Offset(w, bpp, pw, y, 0) + n * bpp {
      BlockToPixel(w, bpp, pw, n, y, i);
    }
    if PixelY(w, bpp, i) == y && pw <= PixelX(w, bpp, i) < pw + n {
      PixelToBlock(w, bpp, pw, n, y, i);
    }
  }

  /** The bytes of pixel (x, y) are exactly [Offset(x, y, 0), Offset(x, y, 0) + bpp). */
  lemma PixelSpan(w: int, bpp: int, x: int, y: int, i: int)
    requires w > 0 && bpp > 0 && 0 <= x < w && 0 <= y && 0 <= i
    ensures (Offset(w, bpp, x, y, 0) <= i < Offset(w, bpp, x, y, 0) + bpp)
        <==> (PixelX(w, bpp, i) == x && PixelY(w, bpp, i) == y)
  {
    RowSpan(w, bpp, x, 1, y, i);
  }

  /** Decoding the index of channel k of pixel (x, y) gives back (x, y, k). */
  lemma DecodeOffset(w: int, h: int, bpp: int, x: int, y: int, k: int)
    requires w > 0 && bpp > 0 && 0 <= x < w && 0 <= y < h && 0 <= k < bpp
    ensures 0 <= Offset(w, bpp, x, y, k) < w * h * bpp
    ensures PixelX(w, bpp, Offset(w, bpp, x, y, k)) == x
    ensures PixelY(w, bpp, Offset(w, bpp, x, y, k)) == y
    ensures Channel(bpp, Offset(w, bpp, x, y, k)) == k
  {
    var i := Offset(w, bpp, x, y, k);
    var p := y * w + x;
    DivModUnique(i, bpp, p, k);
    DivModUnique(p, w, y, x);
    Distrib(y, 1, w);
    MulMonotone(y + 1, h, w);
    Distrib(p, 1, bpp);
    MulMonotone(p + 1, h * w, bpp);
    MulMonotone(0, p, bpp);
    assert h * w == w * h;
  }

  /** The bytes of pixel (x, y) of a buffer of `rows` rows lie inside it. */
  lemma PixelFits(w: int, bpp: int, x: int, y: int, rows: int)
    requires w > 0 && bpp > 0 && 0 <= x < w && 0 <= y < rows
    ensures 0 <= Offset(w, bpp, x, y, 0) && Offset(w, bpp, x, y, 0) + bpp <= rows * w * bpp
  {
    var p := y * w + x;
    MulMonotone(0, y, w);
    MulMonotone(0, p, bpp);
    Distrib(y, 1, w);
    MulMonotone(y + 1, rows, w);
    Distrib(p, 1, bpp);
    MulMonotone(p + 1, rows * w, bpp);
  }

  /** Rows 0 .. r - 1 of a buffer of width w fit in r * w * bpp bytes. */
  lemma RowsFit(w: int, bpp: int, r: int, h: int)
    requires 0 <= w && 0 <= bpp && 0 <= r <= h
    ensures r * w * bpp <= h * w * bpp
  {
    MulMonotone(r, h, w);
    MulMonotone(r * w, h * w, bpp);
  }
}
