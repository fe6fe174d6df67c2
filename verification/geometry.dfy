/** Geometry helpers of the detector: stride alignment of the input size, the
    square-padding arithmetic of preprocessing, and the overflow clamp that
    keeps a box inside a square canvas. `detect.tsx` and `detect.js` define
    `divStride` and `overflowBoxes` with identical bodies; they are modelled
    once here. */
module Geometry {
  import opened Wrappers
  import opened Failures

  /** A box `[x, y, w, h]`: top-left corner, width and height. */
  datatype Box = Box(x: real, y: real, w: real, h: real)

  /** The stride `preprocessing` aligns the input size to. Its `stride`
      parameter defaults to 32 and no caller passes another value. */
  const Stride: nat := 32

  /** `v` rounded to a multiple of the stride: a remainder of at least half a
      stride rounds up, a smaller one rounds down, and exact multiples are
      kept. (`width % stride >= stride / 2` divides by 2 exactly, so the test
      is `2 * rem >= stride` in integers.) */
  function AlignToStride(v: nat): (r: nat)
    ensures r % Stride == 0
    ensures v % Stride == 0 ==> r == v
    ensures v % Stride != 0 && 2 * (v % Stride) >= Stride ==> v < r < v + Stride
    ensures v % Stride != 0 && 2 * (v % Stride) < Stride ==> v - Stride < r < v
    ensures 2 * (r - v) <= Stride && 2 * (v - r) < Stride
  {
    var q := v / Stride;
    var rem := v % Stride;
    if rem != 0 then
      if 2 * rem >= Stride then (q + 1) * Stride else q * Stride
    else v
  }

  /** `a / b` for `a >= b > 0` is a ratio of at least 1 that scales `b` back to `a`. */
  lemma RatioScales(a: nat, b: nat)
    requires 0 < b <= a
    ensures (a as real / b as real) * b as real == a as real
    ensures a as real / b as real >= 1.0
    ensures a == b ==> a as real / b as real == 1.0
  {
    var r := a as real / b as real;
    assert r * b as real == a as real;
  }

  /** `divStride(stride, width, height)`: each dimension aligned on its own. */
  function DivStride(width: nat, height: nat): (r: (nat, nat))
    ensures r.0 % Stride == 0 && r.1 % Stride == 0
    ensures 2 * (r.0 - width) <= Stride && 2 * (width - r.0) < Stride
    ensures 2 * (r.1 - height) <= Stride && 2 * (height - r.1) < Stride
  {
    (AlignToStride(width), AlignToStride(height))
  }

  /** Aligning twice is aligning once. */
  lemma AlignIdempotent(v: nat)
    ensures AlignToStride(AlignToStride(v)) == AlignToStride(v)
  {
  }

  lemma DivStrideIdempotent(width: nat, height: nat)
    ensures var (w, h) := DivStride(width, height);
      DivStride(w, h) == (w, h)
  {
  }

  /** A dimension below half a stride collapses to 0; any larger one stays positive. */
  lemma AlignToZero(v: nat)
    ensures AlignToStride(v) == 0 <==> 2 * v < Stride
  {
  }

  /** The width result does not depend on the height, and vice versa. */
  lemma DivStrideIndependent(width: nat, height: nat, width': nat, height': nat)
    ensures DivStride(width, height).0 == DivStride(width, height').0
    ensures DivStride(width, height).1 == DivStride(width', height).1
  {
  }

  /** The padding step of preprocessing: the resized image is padded on the
      right and bottom to a `maxSize` square, and the ratios map a coordinate
      of that square back onto the unpadded image. */
  datatype Padding = Padding(maxSize: nat, xPad: nat, yPad: nat, xRatio: real, yRatio: real)

  function PadToSquare(cols: nat, rows: nat): (p: Padding)
    requires cols > 0 && rows > 0
    ensures p.maxSize >= cols && p.maxSize >= rows
    ensures p.maxSize == cols || p.maxSize == rows
    ensures cols + p.xPad == p.maxSize && rows + p.yPad == p.maxSize
    ensures p.xPad == 0 || p.yPad == 0
    ensures p.xRatio * cols as real == p.maxSize as real
    ensures p.yRatio * rows as real == p.maxSize as real
    ensures p.xRatio >= 1.0 && p.yRatio >= 1.0
    ensures p.xRatio == 1.0 || p.yRatio == 1.0
  {
    var maxSize := if rows >= cols then rows else cols;
    RatioScales(maxSize, cols);
    RatioScales(maxSize, rows);
    Padding(maxSize, maxSize - cols, maxSize - rows,
            maxSize as real / cols as real, maxSize as real / rows as real)
  }

  /** What preprocessing hands back besides the input tensor: the aligned
      size and the padding ratios. */
  datatype Preprocessed = Preprocessed(width: nat, height: nat, padding: Padding)

  /** The arithmetic of `preprocessing` on an image of `cols` x `rows` pixels.
      The image-processing library's resize rejects an empty target size,
      which is what an aligned dimension of 0 asks for. */
  function Preprocess(cols: nat, rows: nat): (r: Result<Preprocessed, Error>)
    ensures r.Failure? <==> 2 * cols < Stride || 2 * rows < Stride
    ensures r.Failure? ==> r.error == PreprocessingFailure
    ensures r.Success? ==>
      var p := r.value;
      p.width == AlignToStride(cols) && p.height == AlignToStride(rows) &&
      p.width > 0 && p.height > 0 &&
      p.padding == PadToSquare(p.width, p.height) && p.padding.maxSize % Stride == 0
  {
    AlignToZero(cols);
    AlignToZero(rows);
    var (w, h) := DivStride(cols, rows);
    if w == 0 || h == 0 then Failure(PreprocessingFailure)
    else Success(Preprocessed(w, h, PadToSquare(w, h)))
  }

  /** The four bounds `overflowBoxes` establishes. */
  predicate InCanvas(b: Box, maxSize: real) {
    b.x >= 0.0 && b.y >= 0.0 && b.x + b.w <= maxSize && b.y + b.h <= maxSize
  }

  /** `overflowBoxes(box, maxSize)`: a negative corner coordinate is moved to 0,
      then a width (height) reaching past `maxSize` is cut to end there. The
      cut is the only change to `w`/`h`, and it happens exactly when the box
      overflows; nothing bounds `w` or `h` from below. */
  function OverflowBoxes(b: Box, maxSize: real): (r: Box)
    ensures InCanvas(r, maxSize)
    ensures r.x == (if b.x >= 0.0 then b.x else 0.0)
    ensures r.y == (if b.y >= 0.0 then b.y else 0.0)
    ensures r.w <= b.w && (r.w == b.w <==> r.x + b.w <= maxSize)
    ensures r.h <= b.h && (r.h == b.h <==> r.y + b.h <= maxSize)
    ensures r.w < b.w ==> r.x + r.w == maxSize
    ensures r.h < b.h ==> r.y + r.h == maxSize
  {
    var x := if b.x >= 0.0 then b.x else 0.0;
    var y := if b.y >= 0.0 then b.y else 0.0;
    var w := if x + b.w <= maxSize then b.w else maxSize - x;
    var h := if y + b.h <= maxSize then b.h else maxSize - y;
    Box(x, y, w, h)
  }

  /** A box already inside the canvas is left as it is. */
  lemma OverflowKeepsInCanvas(b: Box, maxSize: real)
    requires InCanvas(b, maxSize)
    ensures OverflowBoxes(b, maxSize) == b
  {
  }

  /** Clamping twice is clamping once. */
  lemma OverflowIdempotent(b: Box, maxSize: real)
    ensures OverflowBoxes(OverflowBoxes(b, maxSize), maxSize) == OverflowBoxes(b, maxSize)
  {
    OverflowKeepsInCanvas(OverflowBoxes(b, maxSize), maxSize);
  }

  /** A box whose corner lies past the canvas gets a negative width. */
  lemma OverflowNegativeWidth(b: Box, maxSize: real)
    requires b.x > maxSize
    ensures OverflowBoxes(b, maxSize).w < 0.0
  {
  }
}
