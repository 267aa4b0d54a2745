/**
 Thumbnail geometry of `create_thumbnail`: choose a centred crop window with the
 target aspect ratio, then resize it to the target size. `create_thumbnail`
 compares and divides floating-point ratios; here the comparison is the equivalent
 cross-multiplication and `int(...)` of a positive quotient is floor division.
 */
module Thumbnail {
  import opened Wrappers

  datatype Size = Size(width: nat, height: nat)

  /** A Pillow crop box: left, upper, right and lower edges. */
  datatype Box = Box(left: int, top: int, right: int, bottom: int)

  /** The outcome of `create_thumbnail`: the window cropped and the size of the resized image. */
  datatype Thumb = Thumb(crop: Box, size: Size)

  /** `THUMB_SIZE`. */
  const DefaultSize: Size := Size(340, 170)

  predicate ValidTarget(target: Size) {
    target.width > 0 && target.height > 0
  }

  /** `width / height > size[0] / size[1]`, by cross-multiplication. */
  predicate IsWider(src: Size, target: Size) {
    src.width * target.height > target.width * src.height
  }

  /** The box lies inside the source image. */
  predicate Inside(b: Box, src: Size) {
    0 <= b.left <= b.right <= src.width && 0 <= b.top <= b.bottom <= src.height
  }

  /** The margin before `[lo, hi)` in `[0, extent)` is at most the margin after it, which exceeds it by at most one. */
  predicate Centred(lo: int, hi: int, extent: int) {
    lo <= extent - hi <= lo + 1
  }

  /** `n` is `int(a / d)` for the non-negative rational `a / d`: the largest `n` with `n * d <= a`. */
  predicate IsFloorQuotient(n: int, a: int, d: int) {
    0 <= n && n * d <= a < (n + 1) * d
  }

  /** Cancelling a positive factor preserves a strict inequality. */
  lemma LessByFactor(a: int, b: int, c: int)
    requires c > 0 && a * c < b * c
    ensures a < b
  {
    assert (b - a) * c == b * c - a * c;
  }

  lemma FloorQuotientUnique(m: int, n: int, a: int, d: int)
    requires d > 0 && IsFloorQuotient(m, a, d) && IsFloorQuotient(n, a, d)
    ensures m == n
  {
    LessByFactor(m, n + 1, d);
    LessByFactor(n, m + 1, d);
  }

  lemma DivIsFloorQuotient(a: nat, d: nat)
    requires d > 0
    ensures IsFloorQuotient(a / d, a, d)
  {
    assert a == (a / d) * d + a % d;
    assert (a / d + 1) * d == (a / d) * d + d;
  }

  /** The crop window of `create_thumbnail` (lines 32-39 of `generate/add_backgrounds.py`). */
  function CropBox(src: Size, target: Size): (b: Box)
    requires ValidTarget(target)
    ensures Inside(b, src)
    ensures IsWider(src, target) ==>
      && b.top == 0 && b.bottom == src.height
      && IsFloorQuotient(b.right - b.left, src.height * target.width, target.height)
      && Centred(b.left, b.right, src.width)
    ensures !IsWider(src, target) ==>
      && b.left == 0 && b.right == src.width
      && IsFloorQuotient(b.bottom - b.top, src.width * target.height, target.width)
      && Centred(b.top, b.bottom, src.height)
  {
    if IsWider(src, target) then
      var newWidth := src.height * target.width / target.height;
      DivIsFloorQuotient(src.height * target.width, target.height);
      assert newWidth * target.height <= src.height * target.width < src.width * target.height;
      LessByFactor(newWidth, src.width, target.height);
      var left := (src.width - newWidth) / 2;
      Box(left, 0, left + newWidth, src.height)
    else
      var newHeight := src.width * target.height / target.width;
      DivIsFloorQuotient(src.width * target.height, target.width);
      assert newHeight * target.width <= src.width * target.height <= src.height * target.width;
      LessByFactor(newHeight, src.height + 1, target.width);
      var top := (src.height - newHeight) / 2;
      Box(0, top, src.width, top + newHeight)
  }

  /**
   `create_thumbnail`: crop, then resize to the target. A zero-height source
   makes the ratio on line 29 of `generate/add_backgrounds.py` divide by zero, which the caller sees as a failure.
   */
  function CreateThumbnail(src: Size, target: Size): (r: Option<Thumb>)
    requires ValidTarget(target)
    ensures r.None? <==> src.height == 0
    ensures r.Some? ==> r.value.size == target && Inside(r.value.crop, src)
  {
    if src.height == 0 then None else Some(Thumb(CropBox(src, target), target))
  }

  /**
   The crop window is the only box that keeps the full extent along one axis,
   has the target ratio rounded down along the other, and is centred there.
   */
  lemma CropBoxUnique(src: Size, target: Size, b: Box)
    requires ValidTarget(target)
    requires Inside(b, src)
    requires IsWider(src, target) ==>
      && b.top == 0 && b.bottom == src.height
      && IsFloorQuotient(b.right - b.left, src.height * target.width, target.height)
      && Centred(b.left, b.right, src.width)
    requires !IsWider(src, target) ==>
      && b.left == 0 && b.right == src.width
      && IsFloorQuotient(b.bottom - b.top, src.width * target.height, target.width)
      && Centred(b.top, b.bottom, src.height)
    ensures b == CropBox(src, target)
  {
    var c := CropBox(src, target);
    if IsWider(src, target) {
      FloorQuotientUnique(b.right - b.left, c.right - c.left, src.height * target.width, target.height);
    } else {
      FloorQuotientUnique(b.bottom - b.top, c.bottom - c.top, src.width * target.height, target.width);
    }
  }

  /**
   With the default 340x170 target the ratio is exactly 2: a source wider than
   twice its height keeps a 2*height window, any other keeps width/2 rows.
   */
  lemma DefaultCrop(src: Size)
    ensures IsWider(src, DefaultSize) <==> src.width > 2 * src.height
    ensures var b := CropBox(src, DefaultSize);
      if src.width > 2 * src.height then
        b == Box((src.width - 2 * src.height) / 2, 0, (src.width - 2 * src.height) / 2 + 2 * src.height, src.height)
      else
        b == Box(0, (src.height - src.width / 2) / 2, src.width, (src.height - src.width / 2) / 2 + src.width / 2)
  {
    var b := CropBox(src, DefaultSize);
    if src.width > 2 * src.height {
      assert src.height * 340 / 170 == 2 * src.height;
    } else {
      assert src.width * 170 / 340 == src.width / 2;
    }
  }
}
