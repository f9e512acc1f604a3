/** The in-place image transforms of makeicon: the corner-radius mask
    (`apply_radius`, `add_corner_radius`), the transparent padding
    (`add_border`) and their composition (`modify_image`). Buffers are
    row-major RGBA arrays; the float fractions of the source are taken as
    the integers they are truncated to. */
module Transform {
  import opened Common
  import opened Pixels

  // ---------------------------------------------------------------------
  // Corner radius
  // ---------------------------------------------------------------------

  /** Squared distance from pixel (x, y) to the centre (cx, cy) as
      `apply_radius` computes it: the differences and products are `u32`,
      so the sum is taken modulo 2^32. */
  function Distance2(cx: int, cy: int, x: int, y: int): U32
  {
    ((cy - y) * (cy - y) + (cx - x) * (cx - x)) % 0x1_0000_0000
  }

  /** Whether the call `apply_radius(cx, cy, sx, ex, sy, ey, r2)` zeroes
      pixel (x, y): it scans [sx, ex) x [sy, ey) and clears the pixels
      farther than r2 from the centre. */
  predicate Clipped(cx: int, cy: int, sx: int, ex: int, sy: int, ey: int, r2: int, x: int, y: int)
  {
    sx <= x < ex && sy <= y < ey && Distance2(cx, cy, x, y) > r2
  }

  /** The buffer after one `apply_radius` call on buffer `s`. */
  function RadiusPass(s: seq<U8>, w: int, bpp: int, cx: int, cy: int,
                      sx: int, ex: int, sy: int, ey: int, r2: int): (r: seq<U8>)
    requires w > 0 && bpp > 0
    ensures |r| == |s|
  {
    seq(|s|, i requires 0 <= i < |s| =>
      if Clipped(cx, cy, sx, ex, sy, ey, r2, PixelX(w, bpp, i), PixelY(w, bpp, i)) then 0 else s[i])
  }

  /** Whether `add_corner_radius` zeroes pixel (x, y) of a w x h image whose
      corner insets are `left` (from the width) and `top` (from the height).
      The squared radius is left * left: the width alone decides it. */
  predicate CornerMasked(w: int, h: int, left: int, top: int, x: int, y: int)
  {
    var right, bottom, r2 := w - left, h - top, left * left;
    || Clipped(left, top, 0, left, 0, top, r2, x, y)
    || Clipped(left, bottom, 0, left, bottom, h, r2, x, y)
    || Clipped(right, top, right, w, 0, top, r2, x, y)
    || Clipped(right, bottom, right, w, bottom, h, r2, x, y)
  }

  /** The buffer after `add_corner_radius`: masked pixels are all-zero,
      every other byte is kept. */
  function CornerMask(s: seq<U8>, w: int, h: int, bpp: int, left: int, top: int): (r: seq<U8>)
    requires w > 0 && bpp > 0
    ensures |r| == |s|
  {
    seq(|s|, i requires 0 <= i < |s| =>
      if CornerMasked(w, h, left, top, PixelX(w, bpp, i), PixelY(w, bpp, i)) then 0 else s[i])
  }

  /** The part of one `apply_radius` call done when the scan has reached row
      `y`, column `x`: rows sy .. y - 1 entirely, row y up to column x - 1. */
  ghost predicate Visited(sx: int, ex: int, sy: int, y: int, x: int, px: int, py: int)
  {
    (sy <= py < y && sx <= px < ex) || (py == y && sx <= px < x)
  }

  ghost function Partial(s: seq<U8>, w: int, bpp: int, cx: int, cy: int, sx: int, ex: int,
                         sy: int, r2: int, y: int, x: int, i: int): U8
    requires w > 0 && bpp > 0 && 0 <= i < |s|
  {
    var px, py := PixelX(w, bpp, i), PixelY(w, bpp, i);
    if Visited(sx, ex, sy, y, x, px, py) && Distance2(cx, cy, px, py) > r2 then 0 else s[i]
  }

  /** The `memset(data + pos, 0, bpp)` of `apply_radius`: clear all bytes of
      pixel (x, y). */
  method ClearPixel(data: array<U8>, w: int, bpp: int, x: int, y: int)
    requires w > 0 && bpp > 0 && 0 <= x < w && 0 <= y
    requires Offset(w, bpp, x, y, 0) + bpp <= data.Length
    modifies data
    ensures forall i :: 0 <= i < data.Length ==>
      data[i] == if PixelX(w, bpp, i) == x && PixelY(w, bpp, i) == y then 0 else old(data[i])
  {
    var pos := (y * w + x) * bpp;
    forall k | pos <= k < pos + bpp {
      data[k] := 0;
    }
    forall i | 0 <= i < data.Length
      ensures data[i] == if PixelX(w, bpp, i) == x && PixelY(w, bpp, i) == y then 0 else old(data[i])
    {
      PixelSpan(w, bpp, x, y, i);
    }
  }

  /** Visiting pixel (x, y) of row y extends the scanned part by that pixel. */
  lemma VisitStep(before: seq<U8>, after: seq<U8>, s: seq<U8>, w: int, bpp: int, cx: int, cy: int,
                  sx: int, ex: int, sy: int, r2: int, y: int, x: int)
    requires w > 0 && bpp > 0 && |before| == |after| == |s| && sx <= x < ex
    requires forall i :: 0 <= i < |s| ==> before[i] == Partial(s, w, bpp, cx, cy, sx, ex, sy, r2, y, x, i)
    requires forall i :: 0 <= i < |s| ==>
      after[i] == if PixelX(w, bpp, i) == x && PixelY(w, bpp, i) == y && Distance2(cx, cy, x, y) > r2
                  then 0 else before[i]
    ensures forall i :: 0 <= i < |s| ==> after[i] == Partial(s, w, bpp, cx, cy, sx, ex, sy, r2, y, x + 1, i)
  {
  }

  /** `apply_radius`: scan [sx, ex) x [sy, ey) row by row and zero all `bpp`
      bytes of every pixel farther than r2 from (cx, cy). */
  method ApplyRadius(data: array<U8>, w: int, bpp: int, cx: int, cy: int,
                     sx: int, ex: int, sy: int, ey: int, r2: int)
    requires w > 0 && bpp > 0
    requires 0 <= sx <= ex <= w && 0 <= sy <= ey && ey * w * bpp <= data.Length
    modifies data
    ensures data[..] == RadiusPass(old(data[..]), w, bpp, cx, cy, sx, ex, sy, ey, r2)
  {
    ghost var s := data[..];
    var y := sy;
    while y < ey
      invariant sy <= y <= ey
      invariant forall i :: 0 <= i < data.Length ==>
        data[i] == Partial(s, w, bpp, cx, cy, sx, ex, sy, r2, y, sx, i)
    {
      var x := sx;
      while x < ex
        invariant sx <= x <= ex
        invariant forall i :: 0 <= i < data.Length ==>
          data[i] == Partial(s, w, bpp, cx, cy, sx, ex, sy, r2, y, x, i)
      {
        ghost var before := data[..];
        var d := ((cy - y) * (cy - y) + (cx - x) * (cx - x)) % 0x1_0000_0000;
        if d > r2 {
          PixelFits(w, bpp, x, y, ey);
          ClearPixel(data, w, bpp, x, y);
        }
        VisitStep(before, data[..], s, w, bpp, cx, cy, sx, ex, sy, r2, y, x);
        x := x + 1;
      }
      y := y + 1;
    }
    assert data[..] == RadiusPass(s, w, bpp, cx, cy, sx, ex, sy, ey, r2);
  }

  /** The four `apply_radius` calls of `add_corner_radius`, in order, leave
      the buffer CornerMask describes. */
  lemma CornerMaskIsFourPasses(s: seq<U8>, w: int, h: int, bpp: int, left: int, top: int)
    requires w > 0 && bpp > 0
    ensures var right, bottom, r2 := w - left, h - top, left * left;
      CornerMask(s, w, h, bpp, left, top)
      == RadiusPass(RadiusPass(RadiusPass(RadiusPass(s,
           w, bpp, left, top, 0, left, 0, top, r2),
           w, bpp, left, bottom, 0, left, bottom, h, r2),
           w, bpp, right, top, right, w, 0, top, r2),
           w, bpp, right, bottom, right, w, bottom, h, r2)
  {
  }

  /** `add_corner_radius` with the fraction already clamped to 0.5 and
      truncated: left = width * radius, top = height * radius. */
  method AddCornerRadius(data: array<U8>, w: int, h: int, bpp: int, left: int, top: int)
    requires w > 0 && h > 0 && bpp > 0 && data.Length == w * h * bpp
    requires 0 <= left && 2 * left <= w && 0 <= top && 2 * top <= h
    requires left * left < 0x8000_0000
    modifies data
    ensures data[..] == CornerMask(old(data[..]), w, h, bpp, left, top)
  {
    ghost var s := data[..];
    var radiusSquared := left * left;
    var right := w - left;
    var bottom := h - top;
    assert h * w * bpp == data.Length;
    RowsFit(w, bpp, top, h);
    ApplyRadius(data, w, bpp, left, top, 0, left, 0, top, radiusSquared);
    ApplyRadius(data, w, bpp, left, bottom, 0, left, bottom, h, radiusSquared);
    ApplyRadius(data, w, bpp, right, top, right, w, 0, top, radiusSquared);
    ApplyRadius(data, w, bpp, right, bottom, right, w, bottom, h, radiusSquared);
    CornerMaskIsFourPasses(s, w, h, bpp, left, top);
  }

  /** Channel k of pixel (x, y) after the mask: zero when the pixel is
      masked, its old value otherwise. */
  lemma CornerMaskAt(s: seq<U8>, w: int, h: int, bpp: int, left: int, top: int, x: int, y: int, k: int)
    requires w > 0 && h > 0 && bpp > 0 && |s| == w * h * bpp
    requires 0 <= x < w && 0 <= y < h && 0 <= k < bpp
    ensures 0 <= Offset(w, bpp, x, y, k) < |s|
    ensures CornerMask(s, w, h, bpp, left, top)[Offset(w, bpp, x, y, k)]
         == if CornerMasked(w, h, left, top, x, y) then 0 else s[Offset(w, bpp, x, y, k)]
  {
    DecodeOffset(w, h, bpp, x, y, k);
  }

  /** A byte the mask changes belongs to a masked pixel and becomes zero. */
  lemma CornerMaskChangesOnlyMasked(s: seq<U8>, w: int, h: int, bpp: int, left: int, top: int, i: int)
    requires w > 0 && h > 0 && bpp > 0 && |s| == w * h * bpp && 0 <= i < |s|
    requires CornerMask(s, w, h, bpp, left, top)[i] != s[i]
    ensures CornerMask(s, w, h, bpp, left, top)[i] == 0
    ensures CornerMasked(w, h, left, top, PixelX(w, bpp, i), PixelY(w, bpp, i))
  {
  }

  /** Masked pixels lie in the four corner rectangles
      [0, left) or [w - left, w) across [0, top) or [h - top, h). */
  lemma MaskedOnlyInCorners(w: int, h: int, left: int, top: int, x: int, y: int)
    requires 0 <= left && 2 * left <= w && 0 <= top && 2 * top <= h
    requires CornerMasked(w, h, left, top, x, y)
    ensures 0 <= x < w && 0 <= y < h
    ensures x < left || w - left <= x
    ensures y < top || h - top <= y
  {
  }

  /** With a zero inset the corner rectangles are empty: nothing changes. */
  lemma ZeroRadiusKeepsImage(s: seq<U8>, w: int, h: int, bpp: int, top: int)
    requires w > 0 && bpp > 0
    ensures CornerMask(s, w, h, bpp, 0, top) == s
  {
  }

  /** Masking twice is masking once. */
  lemma CornerMaskIdempotent(s: seq<U8>, w: int, h: int, bpp: int, left: int, top: int)
    requires w > 0 && bpp > 0
    ensures CornerMask(CornerMask(s, w, h, bpp, left, top), w, h, bpp, left, top)
         == CornerMask(s, w, h, bpp, left, top)
  {
  }

  lemma SquareMonotone(a: int, b: int)
    requires 0 <= a <= b
    ensures a * a <= b * b
  {
    MulMonotone(a, b, a);
    MulMonotone(a, b, b);
  }

  /** The centre of the corner arc that governs pixel (x, y): the inset
      point of the corner rectangle the pixel lies in. */
  function ArcCentre(w: int, h: int, left: int, top: int, x: int, y: int): (int, int)
  {
    (if x < left then left else w - left, if y < top then top else h - top)
  }

  /** While squared distances stay below 2^32 the `u32` arithmetic is exact,
      and a pixel is masked exactly when it lies in a corner rectangle and
      strictly outside the quarter disc of radius `left` around that
      corner's centre. */
  lemma MaskedIffOutsideArc(w: int, h: int, left: int, top: int, x: int, y: int)
    requires 0 <= left && 2 * left <= w && 0 <= top && 2 * top <= h
    requires left * left + top * top < 0x1_0000_0000
    requires 0 <= x < w && 0 <= y < h
    ensures CornerMasked(w, h, left, top, x, y) <==>
      && (x < left || w - left <= x)
      && (y < top || h - top <= y)
      && var (cx, cy) := ArcCentre(w, h, left, top, x, y);
         (cx - x) * (cx - x) + (cy - y) * (cy - y) > left * left
  {
    var (cx, cy) := ArcCentre(w, h, left, top, x, y);
    var dx := if x < left then left - x else x - cx;
    var dy := if y < top then top - y else y - cy;
    if (x < left || w - left <= x) && (y < top || h - top <= y) {
      assert 0 <= dx <= left && 0 <= dy <= top;
      SquareMonotone(dx, left);
      SquareMonotone(dy, top);
      assert (cx - x) * (cx - x) == dx * dx;
      assert (cy - y) * (cy - y) == dy * dy;
      assert Distance2(cx, cy, x, y) == dy * dy + dx * dx;
    }
  }

  /** Full rounding: on a 2n x 2n image at radius fraction 0.5 both insets
      are n, every pixel lies in a corner rectangle, and all four arcs share
      the centre (n, n), a grid point half a pixel off the image centre. A
      pixel is cut exactly when it lies outside the disc of radius n around
      that point. */
  lemma FullRoundingIsDisc(n: int, x: int, y: int)
    requires 0 < n && n * n < 0x8000_0000
    requires 0 <= x < 2 * n && 0 <= y < 2 * n
    ensures CornerMasked(2 * n, 2 * n, n, n, x, y) <==> (n - x) * (n - x) + (n - y) * (n - y) > n * n
  {
    MaskedIffOutsideArc(2 * n, 2 * n, n, n, x, y);
  }

  /** The outermost pixel (0, 0) is always cut once both insets are
      positive. */
  lemma TopLeftCornerPixelCut(w: int, h: int, left: int, top: int)
    requires 1 <= left && 2 * left <= w && 1 <= top && 2 * top <= h
    requires left * left + top * top < 0x1_0000_0000
    ensures CornerMasked(w, h, left, top, 0, 0)
  {
    MaskedIffOutsideArc(w, h, left, top, 0, 0);
    assert top * top >= 1 by { MulMonotone(1, top, top); }
  }

  /** The right and bottom corners put their centre on the first column
      and row of their rectangle, the left and top ones just past the last:
      the mask is not mirror-symmetric. In a 4 x 4 image with radius 0.5,
      pixel (1, 0) is cut while its mirror image (2, 0) is kept. */
  lemma MaskNotMirrorSymmetric()
    ensures CornerMasked(4, 4, 2, 2, 1, 0)
    ensures !CornerMasked(4, 4, 2, 2, 2, 0)
  {
  }

  // ---------------------------------------------------------------------
  // Padding
  // ---------------------------------------------------------------------

  /** The box [pw, pw + iw) x [ph, ph + ih) that the resized artwork fills. */
  predicate InBox(pw: int, ph: int, iw: int, ih: int, x: int, y: int)
  {
    pw <= x < pw + iw && ph <= y < ph + ih
  }

  /** Dimensions that `add_border` can work with: an inner block of
      iw x ih pixels placed at (pw, ph) fits in the w x h canvas. */
  predicate BorderFits(w: int, h: int, iw: int, ih: int, pw: int, ph: int)
  {
    0 <= iw && 0 <= ih && 0 <= pw && 0 <= ph && pw + iw <= w && ph + ih <= h
  }

  /** The canvas after `add_border`: pixel (x, y) inside the box is pixel
      (x - pw, y - ph) of the resized buffer `inner`, every other byte is zero. */
  function Bordered(inner: seq<U8>, w: int, h: int, bpp: int, iw: int, ih: int, pw: int, ph: int): (r: seq<U8>)
    requires w > 0 && h > 0 && bpp > 0 && BorderFits(w, h, iw, ih, pw, ph)
    requires |inner| == iw * ih * bpp
    ensures |r| == w * h * bpp
  {
    seq(w * h * bpp, i requires 0 <= i < w * h * bpp =>
      var x, y, k := PixelX(w, bpp, i), PixelY(w, bpp, i), Channel(bpp, i);
      if InBox(pw, ph, iw, ih, x, y) then
        EncodePixel(w, h, bpp, i);
        DecodeOffset(iw, ih, bpp, x - pw, y - ph, k);
        inner[Offset(iw, bpp, x - pw, y - ph, k)]
      else 0)
  }

  ghost function PartialBorder(inner: seq<U8>, w: int, h: int, bpp: int, iw: int, ih: int,
                               pw: int, ph: int, rows: int, i: int): U8
    requires w > 0 && h > 0 && bpp > 0 && BorderFits(w, h, iw, ih, pw, ph)
    requires |inner| == iw * ih * bpp && 0 <= i < w * h * bpp
  {
    if PixelY(w, bpp, i) < ph + rows then Bordered(inner, w, h, bpp, iw, ih, pw, ph)[i] else 0
  }

  /** The canvas once the first `rows` rows of the inner block are copied:
      everything above row ph + rows is final, the rest still zero. */
  ghost predicate Painted(canvas: seq<U8>, inner: seq<U8>, w: int, h: int, bpp: int,
                          iw: int, ih: int, pw: int, ph: int, rows: int)
  {
    && w > 0 && h > 0 && bpp > 0 && BorderFits(w, h, iw, ih, pw, ph)
    && |inner| == iw * ih * bpp && |canvas| == w * h * bpp
    && forall i :: 0 <= i < |canvas| ==> canvas[i] == PartialBorder(inner, w, h, bpp, iw, ih, pw, ph, rows, i)
  }

  /** The `memcpy(output_dst, src, n)` of `add_border`. */
  method CopyBlock(data: array<U8>, dst: int, inner: seq<U8>, src: int, n: int)
    requires 0 <= dst && 0 <= src && 0 <= n && dst + n <= data.Length && src + n <= |inner|
    modifies data
    ensures forall i :: 0 <= i < data.Length ==>
      data[i] == if dst <= i < dst + n then inner[src + (i - dst)] else old(data[i])
  {
    forall j | 0 <= j < n {
      data[dst + j] := inner[src + j];
    }
  }

  /** Copying row y of `inner` to row ph + y of the canvas extends the
      finished part by that row. */
  lemma RowStep(before: seq<U8>, after: seq<U8>, inner: seq<U8>, w: int, h: int, bpp: int,
                iw: int, ih: int, pw: int, ph: int, y: int)
    requires w > 0 && h > 0 && bpp > 0 && BorderFits(w, h, iw, ih, pw, ph)
    requires |inner| == iw * ih * bpp && 0 <= y < ih
    requires |after| == w * h * bpp
    requires Painted(before, inner, w, h, bpp, iw, ih, pw, ph, y)
    requires var dst, src := Offset(w, bpp, pw, ph + y, 0), y * (iw * bpp);
      src + iw * bpp <= |inner| &&
      forall i :: 0 <= i < w * h * bpp ==>
        after[i] == if dst <= i < dst + iw * bpp then inner[src + (i - dst)] else before[i]
    ensures Painted(after, inner, w, h, bpp, iw, ih, pw, ph, y + 1)
  {
    forall i | 0 <= i < w * h * bpp
      ensures after[i] == PartialBorder(inner, w, h, bpp, iw, ih, pw, ph, y + 1, i)
    {
      RowByte(inner, w, h, bpp, iw, ih, pw, ph, y, i, before[i], after[i]);
    }
  }

  /** Byte i of the padded canvas, read off its definition. */
  lemma BorderedByte(inner: seq<U8>, w: int, h: int, bpp: int, iw: int, ih: int, pw: int, ph: int, i: int)
    requires w > 0 && h > 0 && bpp > 0 && BorderFits(w, h, iw, ih, pw, ph)
    requires |inner| == iw * ih * bpp && 0 <= i < w * h * bpp
    ensures var x, y, k := PixelX(w, bpp, i), PixelY(w, bpp, i), Channel(bpp, i);
      InBox(pw, ph, iw, ih, x, y) ==>
        0 <= Offset(iw, bpp, x - pw, y - ph, k) < |inner| &&
        Bordered(inner, w, h, bpp, iw, ih, pw, ph)[i] == inner[Offset(iw, bpp, x - pw, y - ph, k)]
    ensures !InBox(pw, ph, iw, ih, PixelX(w, bpp, i), PixelY(w, bpp, i)) ==>
      Bordered(inner, w, h, bpp, iw, ih, pw, ph)[i] == 0
  {
    EncodePixel(w, h, bpp, i);
    if InBox(pw, ph, iw, ih, PixelX(w, bpp, i), PixelY(w, bpp, i)) {
      DecodeOffset(iw, ih, bpp, PixelX(w, bpp, i) - pw, PixelY(w, bpp, i) - ph, Channel(bpp, i));
    }
  }

  /** One byte of that step: a byte of row ph + y inside the box takes the
      inner byte for its pixel, every other byte keeps its value. */
  lemma RowByte(inner: seq<U8>, w: int, h: int, bpp: int, iw: int, ih: int, pw: int, ph: int,
                y: int, i: int, before: U8, after: U8)
    requires w > 0 && h > 0 && bpp > 0 && BorderFits(w, h, iw, ih, pw, ph)
    requires |inner| == iw * ih * bpp && 0 <= y < ih && 0 <= i < w * h * bpp
    requires before == PartialBorder(inner, w, h, bpp, iw, ih, pw, ph, y, i)
    requires var dst, src := Offset(w, bpp, pw, ph + y, 0), y * (iw * bpp);
      src + iw * bpp <= |inner| &&
      after == if dst <= i < dst + iw * bpp then inner[src + (i - dst)] else before
    ensures after == PartialBorder(inner, w, h, bpp, iw, ih, pw, ph, y + 1, i)
  {
    var dst, src := Offset(w, bpp, pw, ph + y, 0), y * (iw * bpp);
    var x, k := PixelX(w, bpp, i), Channel(bpp, i);
    RowSpan(w, bpp, pw, iw, ph + y, i);
    BorderedByte(inner, w, h, bpp, iw, ih, pw, ph, i);
    if dst <= i < dst + iw * bpp {
      var j := i - dst;
      assert x - pw == j / bpp && k == j % bpp;
      InRowOffset(iw, bpp, y, j);
      assert InBox(pw, ph, iw, ih, x, PixelY(w, bpp, i));
    }
  }

  /** Byte j of inner row y is byte y * (iw * bpp) + j of the inner buffer. */
  lemma InRowOffset(iw: int, bpp: int, y: int, j: int)
    requires bpp > 0 && 0 <= j
    ensures Offset(iw, bpp, j / bpp, y, j % bpp) == y * (iw * bpp) + j
  {
    Distrib(y * iw, j / bpp, bpp);
    assert j == (j / bpp) * bpp + j % bpp;
    assert (y * iw) * bpp == y * (iw * bpp);
  }

  /** Row y of the inner block fits in the inner buffer. */
  lemma InnerRowFits(bpp: int, iw: int, ih: int, y: int)
    requires bpp > 0 && 0 <= iw && 0 <= y < ih
    ensures 0 <= y * (iw * bpp) && y * (iw * bpp) + iw * bpp <= iw * ih * bpp
  {
    MulMonotone(0, iw, bpp);
    MulMonotone(0, y, iw * bpp);
    Distrib(y, 1, iw * bpp);
    MulMonotone(y + 1, ih, iw * bpp);
    assert ih * (iw * bpp) == iw * ih * bpp;
  }

  /** Row y of the inner block, placed at (pw, ph + y), fits in the canvas. */
  lemma CanvasRowFits(w: int, h: int, bpp: int, iw: int, ih: int, pw: int, ph: int, y: int)
    requires w > 0 && h > 0 && bpp > 0 && BorderFits(w, h, iw, ih, pw, ph) && 0 <= y < ih
    ensures 0 <= Offset(w, bpp, pw, ph + y, 0)
    ensures Offset(w, bpp, pw, ph + y, 0) + iw * bpp <= w * h * bpp
  {
    var base := Offset(w, bpp, pw, ph + y, 0);
    if iw > 0 {
      PixelFits(w, bpp, pw, ph + y, h);
      PixelFits(w, bpp, pw + iw - 1, ph + y, h);
      Distrib((ph + y) * w + pw, iw - 1, bpp);
      assert Offset(w, bpp, pw + iw - 1, ph + y, 0) == base + (iw - 1) * bpp;
    } else if pw < w {
      PixelFits(w, bpp, pw, ph + y, h);
    } else {
      PixelFits(w, bpp, w - 1, ph + y, h);
      Distrib((ph + y) * w + w - 1, 1, bpp);
      assert base == Offset(w, bpp, w - 1, ph + y, 0) + bpp;
    }
    assert h * w * bpp == w * h * bpp;
  }

  /** The zero-filled canvas is the padded image with no row copied yet. */
  lemma PartialBorderStart(canvas: seq<U8>, inner: seq<U8>, w: int, h: int, bpp: int,
                           iw: int, ih: int, pw: int, ph: int)
    requires w > 0 && h > 0 && bpp > 0 && BorderFits(w, h, iw, ih, pw, ph)
    requires |inner| == iw * ih * bpp && |canvas| == w * h * bpp
    requires forall i :: 0 <= i < |canvas| ==> canvas[i] == 0
    ensures Painted(canvas, inner, w, h, bpp, iw, ih, pw, ph, 0)
  {
  }

  /** Once every inner row is copied, the canvas is the padded image. */
  lemma PartialBorderDone(canvas: seq<U8>, inner: seq<U8>, w: int, h: int, bpp: int,
                          iw: int, ih: int, pw: int, ph: int)
    requires w > 0 && h > 0 && bpp > 0 && BorderFits(w, h, iw, ih, pw, ph)
    requires |inner| == iw * ih * bpp && |canvas| == w * h * bpp
    requires Painted(canvas, inner, w, h, bpp, iw, ih, pw, ph, ih)
    ensures canvas == Bordered(inner, w, h, bpp, iw, ih, pw, ph)
  {
    forall i | 0 <= i < |canvas|
      ensures canvas[i] == Bordered(inner, w, h, bpp, iw, ih, pw, ph)[i]
    {
      EncodePixel(w, h, bpp, i);
    }
  }

  /** One iteration of the copy loop: row y of `inner` to row ph + y. */
  method CopyRow(data: array<U8>, w: int, h: int, bpp: int, inner: seq<U8>,
                 iw: int, ih: int, pw: int, ph: int, y: int, dst: int, src: int)
    requires 0 <= y < ih && Painted(data[..], inner, w, h, bpp, iw, ih, pw, ph, y)
    requires dst == Offset(w, bpp, pw, ph + y, 0) && src == y * (iw * bpp)
    modifies data
    ensures Painted(data[..], inner, w, h, bpp, iw, ih, pw, ph, y + 1)
  {
    ghost var before := data[..];
    CanvasRowFits(w, h, bpp, iw, ih, pw, ph, y);
    InnerRowFits(bpp, iw, ih, y);
    CopyBlock(data, dst, inner, src, iw * bpp);
    RowStep(before, data[..], inner, w, h, bpp, iw, ih, pw, ph, y);
  }

  /** `add_border` once the resize into the inner box has produced `inner`:
      zero the whole canvas, then copy `inner` row by row (stride iw * bpp)
      to offset (pw, ph) of the canvas (stride w * bpp). */
  method AddBorder(data: array<U8>, w: int, h: int, bpp: int, inner: seq<U8>,
                   iw: int, ih: int, pw: int, ph: int)
    requires w > 0 && h > 0 && bpp > 0 && data.Length == w * h * bpp
    requires BorderFits(w, h, iw, ih, pw, ph) && |inner| == iw * ih * bpp
    modifies data
    ensures data[..] == Bordered(inner, w, h, bpp, iw, ih, pw, ph)
  {
    var outputStride := w * bpp;
    var srcStride := iw * bpp;
    var dst := pw * bpp + outputStride * ph;
    var src := 0;
    RowStart(w, bpp, pw, ph);
    forall i | 0 <= i < data.Length {
      data[i] := 0;
    }
    PartialBorderStart(data[..], inner, w, h, bpp, iw, ih, pw, ph);
    var y := 0;
    while y < ih
      invariant 0 <= y <= ih
      invariant dst == Offset(w, bpp, pw, ph + y, 0) && src == y * srcStride
      invariant Painted(data[..], inner, w, h, bpp, iw, ih, pw, ph, y)
    {
      CopyRow(data, w, h, bpp, inner, iw, ih, pw, ph, y, dst, src);
      NextRow(w, bpp, pw, ph + y);
      dst := dst + outputStride;
      Distrib(y, 1, srcStride);
      src := src + srcStride;
      y := y + 1;
    }
    PartialBorderDone(data[..], inner, w, h, bpp, iw, ih, pw, ph);
  }

  /** Channel k of canvas pixel (x, y) after padding: the matching channel
      of inner pixel (x - pw, y - ph) inside the box, zero (alpha included)
      in the border band. */
  lemma BorderedAt(inner: seq<U8>, w: int, h: int, bpp: int, iw: int, ih: int, pw: int, ph: int,
                   x: int, y: int, k: int)
    requires w > 0 && h > 0 && bpp > 0 && BorderFits(w, h, iw, ih, pw, ph)
    requires |inner| == iw * ih * bpp
    requires 0 <= x < w && 0 <= y < h && 0 <= k < bpp
    ensures 0 <= Offset(w, bpp, x, y, k) < w * h * bpp
    ensures InBox(pw, ph, iw, ih, x, y) ==>
      0 <= Offset(iw, bpp, x - pw, y - ph, k) < |inner| &&
      Bordered(inner, w, h, bpp, iw, ih, pw, ph)[Offset(w, bpp, x, y, k)]
        == inner[Offset(iw, bpp, x - pw, y - ph, k)]
    ensures !InBox(pw, ph, iw, ih, x, y) ==>
      Bordered(inner, w, h, bpp, iw, ih, pw, ph)[Offset(w, bpp, x, y, k)] == 0
  {
    DecodeOffset(w, h, bpp, x, y, k);
    if InBox(pw, ph, iw, ih, x, y) {
      DecodeOffset(iw, ih, bpp, x - pw, y - ph, k);
    }
  }

  // ---------------------------------------------------------------------
  // modify_image
  // ---------------------------------------------------------------------

  /** Corner insets, `width * radius` and `height * radius` after the clamp
      to 0.5 and the truncation to an integer. */
  datatype Insets = Insets(left: int, top: int)

  /** Padding geometry: the inner size `(1 - 2 * padding) * dimension` and
      the offset `padding * dimension` on each axis, truncated. */
  datatype Frame = Frame(innerW: int, innerH: int, padW: int, padH: int)

  predicate InsetsFit(w: int, h: int, r: Insets)
  {
    0 <= r.left && 2 * r.left <= w && 0 <= r.top && 2 * r.top <= h && r.left * r.left < 0x8000_0000
  }

  /** The buffer `modify_image` leaves: the mask first (when the radius
      fraction is positive), then the padding, whose inner artwork is the
      resampled masked image (when the padding fraction is positive). */
  function Modified(s: seq<U8>, w: int, h: int, bpp: int, radius: Option<Insets>,
                    padding: Option<Frame>, resample: Resampler): (r: seq<U8>)
    requires w > 0 && h > 0 && bpp > 0 && |s| == w * h * bpp && FillsTarget(resample)
    requires padding.Some? ==> BorderFits(w, h, padding.value.innerW, padding.value.innerH,
                                          padding.value.padW, padding.value.padH)
    ensures |r| == |s|
  {
    var masked := if radius.Some? then CornerMask(s, w, h, bpp, radius.value.left, radius.value.top) else s;
    match padding
    case None => masked
    case Some(f) =>
      Bordered(resample(masked, w, h, bpp, f.innerW, f.innerH), w, h, bpp,
               f.innerW, f.innerH, f.padW, f.padH)
  }

  /** `modify_image`: radius before padding, each only when requested. */
  method ModifyImage(data: array<U8>, w: int, h: int, bpp: int, radius: Option<Insets>,
                     padding: Option<Frame>, resample: Resampler)
    requires w > 0 && h > 0 && bpp > 0 && data.Length == w * h * bpp && FillsTarget(resample)
    requires radius.Some? ==> InsetsFit(w, h, radius.value)
    requires padding.Some? ==> BorderFits(w, h, padding.value.innerW, padding.value.innerH,
                                          padding.value.padW, padding.value.padH)
    modifies data
    ensures data[..] == Modified(old(data[..]), w, h, bpp, radius, padding, resample)
  {
    if radius.Some? {
      AddCornerRadius(data, w, h, bpp, radius.value.left, radius.value.top);
    }
    if padding.Some? {
      var f := padding.value;
      var inner := resample(data[..], w, h, bpp, f.innerW, f.innerH);
      AddBorder(data, w, h, bpp, inner, f.innerW, f.innerH, f.padW, f.padH);
    }
  }
}
