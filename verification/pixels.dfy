/** The two pixel helpers of `detect.js`: the bounding rectangle of the
    visible pixels of an RGBA mask, and the copy of an image's pixels through
    a mask's alpha channel. RGBA data is row-major, four entries per pixel. */
module MaskPixels {
  import JsBuiltins

  /** A rectangle as `calculateBoundingBox` returns it. */
  datatype Rect = Rect(x: int, y: int, width: int, height: int)

  /** The alpha entry of pixel `(x, y)`; an index past the end reads
      `undefined`, which is not `> 0`, so it counts as transparent. */
  function Alpha(maskData: seq<int>, width: nat, x: nat, y: nat): int {
    var i := (y * width + x) * 4 + 3;
    if i < |maskData| then maskData[i] else 0
  }

  /** Pixel `(x, y)` of the `width` x `height` grid is visible. */
  predicate Visible(maskData: seq<int>, width: nat, height: nat, x: nat, y: nat) {
    x < width && y < height && Alpha(maskData, width, x, y) > 0
  }

  ghost predicate AnyVisible(maskData: seq<int>, width: nat, height: nat) {
    exists x: nat, y: nat :: Visible(maskData, width, height, x, y)
  }

  /** `r` is the smallest rectangle holding every visible pixel: all of them
      lie inside, and each of its four edges touches one. */
  ghost predicate TightBound(r: Rect, maskData: seq<int>, width: nat, height: nat) {
    && r.x >= 0 && r.y >= 0 && r.width >= 1 && r.height >= 1
    && (forall x: nat, y: nat :: Visible(maskData, width, height, x, y) ==>
          r.x <= x < r.x + r.width && r.y <= y < r.y + r.height)
    && ColumnTouched(maskData, width, height, r.x) && ColumnTouched(maskData, width, height, r.x + r.width - 1)
    && RowTouched(maskData, width, height, r.y) && RowTouched(maskData, width, height, r.y + r.height - 1)
  }

  /** Some visible pixel lies in column `x`. */
  ghost predicate ColumnTouched(maskData: seq<int>, width: nat, height: nat, x: int) {
    x >= 0 && exists y: nat :: Visible(maskData, width, height, x, y)
  }

  /** Some visible pixel lies in row `y`. */
  ghost predicate RowTouched(maskData: seq<int>, width: nat, height: nat, y: int) {
    y >= 0 && exists x: nat :: Visible(maskData, width, height, x, y)
  }

  /** Pixel `(x, y)` comes before the scan position `(cx, cy)` in row order. */
  predicate Scanned(x: nat, y: nat, cx: nat, cy: nat) {
    y < cy || (y == cy && x < cx)
  }

  /** What the running minima and maxima know after the pixels before
      `(cx, cy)` were visited; `found` says whether any of them was visible. */
  ghost predicate Tracked(maskData: seq<int>, width: nat, height: nat, cx: nat, cy: nat,
                    found: bool, minX: int, minY: int, maxX: int, maxY: int,
                    wx0: nat, wx1: nat, wy0: nat, wy1: nat) {
    && (found <==> exists x: nat, y: nat :: Scanned(x, y, cx, cy) && Visible(maskData, width, height, x, y))
    && (!found ==> minX == width && minY == height && maxX == 0 && maxY == 0)
    && (found ==>
          && (forall x: nat, y: nat :: Scanned(x, y, cx, cy) && Visible(maskData, width, height, x, y) ==>
                minX <= x <= maxX && minY <= y <= maxY)
          && minX >= 0 && minY >= 0
          && Visible(maskData, width, height, minX, wy0)
          && Visible(maskData, width, height, maxX, wy1)
          && Visible(maskData, width, height, wx0, minY)
          && Visible(maskData, width, height, wx1, maxY))
  }

  /** `calculateBoundingBox(maskData, width, height)`. */
  method CalculateBoundingBox(maskData: seq<int>, width: nat, height: nat) returns (r: Rect)
    ensures AnyVisible(maskData, width, height) ==> TightBound(r, maskData, width, height)
    ensures !AnyVisible(maskData, width, height) ==> r == Rect(width, height, 1 - width, 1 - height)
  {
    var minX, minY, maxX, maxY := width as int, height as int, 0, 0;
    ghost var found := false;
    ghost var wx0: nat, wx1: nat, wy0: nat, wy1: nat := 0, 0, 0, 0;
    var y := 0;
    while y < height
      invariant 0 <= y <= height
      invariant Tracked(maskData, width, height, 0, y, found, minX, minY, maxX, maxY, wx0, wx1, wy0, wy1)
    {
      var x := 0;
      while x < width
        invariant 0 <= x <= width
        invariant Tracked(maskData, width, height, x, y, found, minX, minY, maxX, maxY, wx0, wx1, wy0, wy1)
      {
        ghost var found0, minX0, minY0, maxX0, maxY0 := found, minX, minY, maxX, maxY;
        ghost var wx00, wx10, wy00, wy10 := wx0, wx1, wy0, wy1;
        var alpha := Alpha(maskData, width, x, y);
        if alpha > 0 {
          if !found || x < minX { wy0 := y; }
          if !found || x > maxX { wy1 := y; }
          if !found || y < minY { wx0 := x; }
          if !found || y > maxY { wx1 := x; }
          minX := JsBuiltins.Min(minX, x);
          minY := JsBuiltins.Min(minY, y);
          maxX := JsBuiltins.Max(maxX, x);
          maxY := JsBuiltins.Max(maxY, y);
          found := true;
        }
        ScanAdvance(maskData, width, height, x, y, found0, minX0, minY0, maxX0, maxY0, wx00, wx10, wy00, wy10,
                    found, minX, minY, maxX, maxY, wx0, wx1, wy0, wy1);
        x := x + 1;
      }
      RowAdvance(maskData, width, height, y, found, minX, minY, maxX, maxY, wx0, wx1, wy0, wy1);
      y := y + 1;
    }
    ScanComplete(maskData, width, height, found, minX, minY, maxX, maxY, wx0, wx1, wy0, wy1);
    r := Rect(minX, minY, maxX - minX + 1, maxY - minY + 1);
  }

  /** Visiting pixel `(x, y)`: the primed values are the ones the loop body
      leaves behind. */
  lemma ScanAdvance(maskData: seq<int>, width: nat, height: nat, x: nat, y: nat,
                    found: bool, minX: int, minY: int, maxX: int, maxY: int,
                    wx0: nat, wx1: nat, wy0: nat, wy1: nat,
                    found': bool, minX': int, minY': int, maxX': int, maxY': int,
                    wx0': nat, wx1': nat, wy0': nat, wy1': nat)
    requires x < width && y < height
    requires Tracked(maskData, width, height, x, y, found, minX, minY, maxX, maxY, wx0, wx1, wy0, wy1)
    requires !Visible(maskData, width, height, x, y) ==>
      found' == found && minX' == minX && minY' == minY && maxX' == maxX && maxY' == maxY &&
      wx0' == wx0 && wx1' == wx1 && wy0' == wy0 && wy1' == wy1
    requires Visible(maskData, width, height, x, y) ==>
      found' && minX' == JsBuiltins.Min(minX, x) && minY' == JsBuiltins.Min(minY, y) &&
      maxX' == JsBuiltins.Max(maxX, x) && maxY' == JsBuiltins.Max(maxY, y) &&
      wy0' == (if !found || x < minX then y else wy0) &&
      wy1' == (if !found || x > maxX then y else wy1) &&
      wx0' == (if !found || y < minY then x else wx0) &&
      wx1' == (if !found || y > maxY then x else wx1)
    ensures Tracked(maskData, width, height, x + 1, y, found', minX', minY', maxX', maxY', wx0', wx1', wy0', wy1')
  {
    assert Scanned(x, y, x + 1, y);
    forall x'': nat, y'': nat | Scanned(x'', y'', x + 1, y)
      ensures Scanned(x'', y'', x, y) || (x'' == x && y'' == y)
    {
    }
  }

  /** Moving the scan position from the end of a row to the start of the next. */
  lemma RowAdvance(maskData: seq<int>, width: nat, height: nat, y: nat,
                   found: bool, minX: int, minY: int, maxX: int, maxY: int,
                   wx0: nat, wx1: nat, wy0: nat, wy1: nat)
    requires Tracked(maskData, width, height, width, y, found, minX, minY, maxX, maxY, wx0, wx1, wy0, wy1)
    ensures Tracked(maskData, width, height, 0, y + 1, found, minX, minY, maxX, maxY, wx0, wx1, wy0, wy1)
  {
    forall x: nat, y': nat | Visible(maskData, width, height, x, y')
      ensures Scanned(x, y', 0, y + 1) <==> Scanned(x, y', width, y)
    {
    }
  }

  /** After the last row every pixel was visited. */
  lemma ScanComplete(maskData: seq<int>, width: nat, height: nat,
                     found: bool, minX: int, minY: int, maxX: int, maxY: int,
                     wx0: nat, wx1: nat, wy0: nat, wy1: nat)
    requires Tracked(maskData, width, height, 0, height, found, minX, minY, maxX, maxY, wx0, wx1, wy0, wy1)
    ensures found <==> AnyVisible(maskData, width, height)
    ensures found ==> TightBound(Rect(minX, minY, maxX - minX + 1, maxY - minY + 1), maskData, width, height)
  {
    forall x: nat, y: nat | Visible(maskData, width, height, x, y)
      ensures Scanned(x, y, 0, height)
    {
    }
    if found {
      var r := Rect(minX, minY, maxX - minX + 1, maxY - minY + 1);
      assert r.x + r.width - 1 == maxX && r.y + r.height - 1 == maxY;
      assert ColumnTouched(maskData, width, height, minX);
      assert ColumnTouched(maskData, width, height, maxX);
      assert RowTouched(maskData, width, height, minY);
      assert RowTouched(maskData, width, height, maxY);
    }
  }

  /** The tight rectangle is unique, so any implementation meeting the
      contract of `CalculateBoundingBox` returns the same rectangle. */
  lemma TightBoundUnique(r: Rect, s: Rect, maskData: seq<int>, width: nat, height: nat)
    requires TightBound(r, maskData, width, height) && TightBound(s, maskData, width, height)
    ensures r == s
  {
    var y0: nat :| Visible(maskData, width, height, r.x, y0);
    var y1: nat :| Visible(maskData, width, height, s.x, y1);
    var xr := r.x + r.width - 1;
    var xs := s.x + s.width - 1;
    var y2: nat :| Visible(maskData, width, height, xr, y2);
    var y3: nat :| Visible(maskData, width, height, xs, y3);
    var x0: nat :| Visible(maskData, width, height, x0, r.y);
    var x1: nat :| Visible(maskData, width, height, x1, s.y);
    var yr := r.y + r.height - 1;
    var ys := s.y + s.height - 1;
    var x2: nat :| Visible(maskData, width, height, x2, yr);
    var x3: nat :| Visible(maskData, width, height, x3, ys);
  }

  /** Output entry `i` of the mask copy: the original entry when the alpha of
      its pixel in the mask is positive, 0 otherwise. */
  function Masked(mask: seq<int>, original: seq<int>, i: nat): int
    requires |original| == |mask| && |mask| % 4 == 0 && i < |mask|
  {
    var p := i - i % 4;
    assert p + 3 < |mask|;
    if mask[p + 3] > 0 then original[i] else 0
  }

  /** The copy loop of `copyPixelsFromMask`: a transparent result buffer of
      the mask's size, filled four entries (one pixel) at a time. */
  method CopyPixelsFromMask(mask: seq<int>, original: seq<int>) returns (result: seq<int>)
    requires |original| == |mask| && |mask| % 4 == 0
    ensures |result| == |mask|
    ensures forall i :: 0 <= i < |mask| ==> result[i] == Masked(mask, original, i)
    ensures result == MaskedImage(mask, original)
  {
    result := seq(|mask|, _ => 0);
    var i := 0;
    while i < |mask|
      invariant 0 <= i <= |mask| && i % 4 == 0
      invariant |result| == |mask|
      invariant forall j :: 0 <= j < i ==> result[j] == Masked(mask, original, j)
    {
      PixelFilled(mask, original, i);
      ghost var before := result;
      if mask[i + 3] > 0 {
        result := result[i := original[i]][i + 1 := original[i + 1]][i + 2 := original[i + 2]][i + 3 := original[i + 3]];
      } else {
        result := result[i := 0][i + 1 := 0][i + 2 := 0][i + 3 := 0];
      }
      PixelWritten(mask, original, before, result, i);
      i := i + 4;
    }
    EntriesMakeImage(mask, original, result);
  }

  /** Writing pixel `i` after the pixels before it extends the copied prefix
      by one pixel. */
  lemma PixelWritten(mask: seq<int>, original: seq<int>, before: seq<int>, after: seq<int>, i: nat)
    requires |original| == |mask| && |mask| % 4 == 0 && i % 4 == 0 && i + 3 < |mask| && |before| == |mask|
    requires forall j :: 0 <= j < i ==> before[j] == Masked(mask, original, j)
    requires after == if mask[i + 3] > 0
      then before[i := original[i]][i + 1 := original[i + 1]][i + 2 := original[i + 2]][i + 3 := original[i + 3]]
      else before[i := 0][i + 1 := 0][i + 2 := 0][i + 3 := 0]
    ensures |after| == |mask|
    ensures forall j :: 0 <= j < i + 4 ==> after[j] == Masked(mask, original, j)
  {
    PixelFilled(mask, original, i);
  }

  /** A buffer whose every entry follows `Masked` is the masked image. */
  lemma EntriesMakeImage(mask: seq<int>, original: seq<int>, r: seq<int>)
    requires |original| == |mask| && |mask| % 4 == 0 && |r| == |mask|
    requires forall j :: 0 <= j < |mask| ==> r[j] == Masked(mask, original, j)
    ensures r == MaskedImage(mask, original)
  {
  }

  /** The four entries of the pixel at `i` share its alpha test. */
  lemma PixelFilled(mask: seq<int>, original: seq<int>, i: nat)
    requires |original| == |mask| && |mask| % 4 == 0 && i % 4 == 0 && i < |mask|
    ensures i + 3 < |mask|
    ensures Masked(mask, original, i) == if mask[i + 3] > 0 then original[i] else 0
    ensures Masked(mask, original, i + 1) == if mask[i + 3] > 0 then original[i + 1] else 0
    ensures Masked(mask, original, i + 2) == if mask[i + 3] > 0 then original[i + 2] else 0
    ensures Masked(mask, original, i + 3) == if mask[i + 3] > 0 then original[i + 3] else 0
  {
    assert (i + 1) % 4 == 1 && (i + 2) % 4 == 2 && (i + 3) % 4 == 3;
  }

  /** The whole copy as one sequence: what `CopyPixelsFromMask` returns. Each
      pixel is either the original pixel, all four entries, or four zeros,
      according to the mask's alpha at that pixel. */
  function MaskedImage(mask: seq<int>, original: seq<int>): (r: seq<int>)
    requires |original| == |mask| && |mask| % 4 == 0
    ensures |r| == |mask|
    ensures forall i :: 0 <= i && i + 4 <= |mask| && i % 4 == 0 ==> r[i..i + 4] == PixelOf(mask, original, i)
  {
    var r := seq(|mask|, i requires 0 <= i < |mask| => Masked(mask, original, i));
    assert forall i :: 0 <= i && i + 4 <= |mask| && i % 4 == 0 ==> r[i..i + 4] == PixelOf(mask, original, i) by {
      forall i | 0 <= i && i + 4 <= |mask| && i % 4 == 0
        ensures r[i..i + 4] == PixelOf(mask, original, i)
      {
        PixelSlice(mask, original, r, i);
      }
    }
    r
  }

  /** The four entries pixel `i` is copied as: the original's where the
      mask's alpha is positive, zeros elsewhere. */
  function PixelOf(mask: seq<int>, original: seq<int>, i: nat): (px: seq<int>)
    requires |original| == |mask| && i + 4 <= |mask|
    ensures |px| == 4
  {
    if mask[i + 3] > 0 then original[i..i + 4] else [0, 0, 0, 0]
  }

  /** A result whose entries follow `Masked` holds each pixel as `PixelOf`. */
  lemma PixelSlice(mask: seq<int>, original: seq<int>, r: seq<int>, i: nat)
    requires |original| == |mask| && |mask| % 4 == 0 && i % 4 == 0 && i + 4 <= |mask| && |r| == |mask|
    requires forall j :: 0 <= j < |mask| ==> r[j] == Masked(mask, original, j)
    ensures r[i..i + 4] == PixelOf(mask, original, i)
  {
    PixelFilled(mask, original, i);
    assert r[i..i + 4] == [r[i], r[i + 1], r[i + 2], r[i + 3]];
    assert original[i..i + 4] == [original[i], original[i + 1], original[i + 2], original[i + 3]];
  }

  /** Copying through the same mask twice changes nothing more. */
  lemma MaskTwice(mask: seq<int>, original: seq<int>)
    requires |original| == |mask| && |mask| % 4 == 0
    ensures MaskedImage(mask, MaskedImage(mask, original)) == MaskedImage(mask, original)
  {
  }

  /** A pixel of the result is visible only where both the mask and the
      original are. */
  lemma VisibleOnlyInsideMask(mask: seq<int>, original: seq<int>, p: nat)
    requires |original| == |mask| && |mask| % 4 == 0 && p % 4 == 0 && p < |mask|
    ensures p + 3 < |mask|
    ensures MaskedImage(mask, original)[p + 3] > 0 <==> mask[p + 3] > 0 && original[p + 3] > 0
  {
    PixelFilled(mask, original, p);
  }
}
