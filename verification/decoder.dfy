/** The body of the detection loop up to the push: one selected row of the
    selection tensor becomes one `DetectBox` record. */
module Decoder {
  import opened Geometry
  import JsBuiltins
  import Colors

  /** One decoded detection, with the fields `detect.tsx` pushes. */
  datatype DetectBox = DetectBox(
    className: string,     // the `label` field: class name
    index: nat,            // class index
    probability: real,     // best class score
    color: string,         // palette colour of the class
    data: seq<real>,       // the whole row
    mask: seq<real>,       // mask coefficients (everything after the scores)
    bounding: Box,         // display-space box
    box: Box               // model-space box
  )

  /** What stays fixed over one run: the class names (whose count is
      `numClass`), the side of the model's square input, and the padding
      ratios preprocessing produced. */
  datatype Context = Context(labels: seq<string>, maxSize: nat, xRatio: real, yRatio: real)

  /** A row has room for four box values and one score per class. */
  predicate RowFits(row: seq<real>, ctx: Context) {
    |ctx.labels| >= 1 && |row| >= 4 + |ctx.labels|
  }

  /** Row `idx` of a `[n, width]` tensor stored row-major in `data`. */
  function RowOf(data: seq<real>, width: nat, idx: nat): (row: seq<real>)
    ensures (idx + 1) * width <= |data| ==> |row| == width && row == data[idx * width..(idx + 1) * width]
  {
    JsBuiltins.Slice(data, idx * width, (idx + 1) * width)
  }

  /** The three parts of a row: box, class scores, mask coefficients. */
  datatype RowParts = RowParts(box: seq<real>, scores: seq<real>, mask: seq<real>)

  function SplitRow(row: seq<real>, numClass: nat): (p: RowParts)
    ensures p.box + p.scores + p.mask == row
    ensures |row| >= 4 + numClass ==> |p.box| == 4 && |p.scores| == numClass && |p.mask| == |row| - 4 - numClass
  {
    JsBuiltins.SliceThree(row, 4, 4 + numClass);
    RowParts(JsBuiltins.Slice(row, 0, 4), JsBuiltins.Slice(row, 4, 4 + numClass),
             JsBuiltins.SliceFrom(row, 4 + numClass))
  }

  /** `scores.indexOf(Math.max(...scores))`: the first index of a maximal score. */
  function ArgMax(scores: seq<real>): (k: nat)
    requires |scores| > 0
    ensures k < |scores|
    ensures forall j :: 0 <= j < |scores| ==> scores[j] <= scores[k]
    ensures forall j :: 0 <= j < k ==> scores[j] < scores[k]
  {
    var m := JsBuiltins.MaxOf(scores);
    JsBuiltins.IndexOf(scores, m)
  }

  /** A centre-form box `[cx, cy, w, h]` in top-left form. */
  function CenterToCorner(b: seq<real>): (r: Box)
    requires |b| == 4
    ensures r.x + 0.5 * r.w == b[0] && r.y + 0.5 * r.h == b[1]
    ensures r.w == b[2] && r.h == b[3]
  {
    Box(b[0] - 0.5 * b[2], b[1] - 0.5 * b[3], b[2], b[3])
  }

  /** A box whose four values are whole numbers. */
  predicate Integral(b: Box) {
    b.x.Floor as real == b.x && b.y.Floor as real == b.y &&
    b.w.Floor as real == b.w && b.h.Floor as real == b.h
  }

  /** `Math.floor` of each value scaled by the padding ratios. */
  function Upscale(b: Box, xRatio: real, yRatio: real): (r: Box)
    ensures Integral(r)
    ensures r.x <= b.x * xRatio < r.x + 1.0 && r.y <= b.y * yRatio < r.y + 1.0
    ensures r.w <= b.w * xRatio < r.w + 1.0 && r.h <= b.h * yRatio < r.h + 1.0
  {
    Box((b.x * xRatio).Floor as real, (b.y * yRatio).Floor as real,
        (b.w * xRatio).Floor as real, (b.h * yRatio).Floor as real)
  }

  /** Clamping whole numbers against a whole-number side keeps them whole. */
  lemma ClampKeepsIntegral(b: Box, maxSize: nat)
    requires Integral(b)
    ensures Integral(OverflowBoxes(b, maxSize as real))
  {
    WholeDifference(maxSize, b.x.Floor as real);
    WholeDifference(maxSize, b.y.Floor as real);
    WholeDifference(maxSize, 0.0);
  }

  lemma WholeDifference(m: int, v: real)
    requires v.Floor as real == v
    ensures (m as real - v).Floor as real == m as real - v
  {
    var k := v.Floor;
    assert m as real - v == (m - k) as real;
  }

  /** One iteration of the detection loop, up to and including the push. */
  function DecodeRow(row: seq<real>, ctx: Context): (d: DetectBox)
    requires RowFits(row, ctx)
    ensures d.index < |ctx.labels| && d.className == ctx.labels[d.index]
    ensures d.color == Colors.Get(d.index)
    ensures d.probability == row[4 + d.index]
    ensures forall j :: 4 <= j < 4 + |ctx.labels| ==> row[j] <= d.probability
    ensures forall j :: 4 <= j < 4 + d.index ==> row[j] < d.probability
    ensures d.data == row && d.mask == row[4 + |ctx.labels|..]
    ensures InCanvas(d.box, ctx.maxSize as real) && InCanvas(d.bounding, ctx.maxSize as real)
    ensures Integral(d.bounding)
    ensures d.box == OverflowBoxes(CenterToCorner(row[..4]), ctx.maxSize as real)
    ensures d.bounding == OverflowBoxes(Upscale(d.box, ctx.xRatio, ctx.yRatio), ctx.maxSize as real)
    ensures InCanvas(CenterToCorner(row[..4]), ctx.maxSize as real) ==> d.box == CenterToCorner(row[..4])
    ensures d.box.w <= row[2] && d.box.h <= row[3]
    ensures InCanvas(Upscale(d.box, ctx.xRatio, ctx.yRatio), ctx.maxSize as real) ==>
      d.bounding == Upscale(d.box, ctx.xRatio, ctx.yRatio)
  {
    var numClass := |ctx.labels|;
    var parts := SplitRow(row, numClass);
    PartsOfRow(row, numClass);
    var index := ArgMax(parts.scores);
    ArgMaxInRow(row, numClass, index);
    var box := OverflowBoxes(CenterToCorner(parts.box), ctx.maxSize as real);
    var up := Upscale(box, ctx.xRatio, ctx.yRatio);
    ClampKeepsIntegral(up, ctx.maxSize);
    DetectBox(ctx.labels[index], index, parts.scores[index], Colors.Get(index), row,
              parts.mask, OverflowBoxes(up, ctx.maxSize as real), box)
  }

  /** The parts of a row long enough for the box and every score. */
  lemma PartsOfRow(row: seq<real>, numClass: nat)
    requires |row| >= 4 + numClass
    ensures var p := SplitRow(row, numClass);
      p.box == row[..4] && p.scores == row[4..4 + numClass] && p.mask == row[4 + numClass..]
  {
  }

  /** The best score's place, read in the row. */
  lemma ArgMaxInRow(row: seq<real>, numClass: nat, k: nat)
    requires 1 <= numClass && |row| >= 4 + numClass
    requires k == ArgMax(row[4..4 + numClass])
    ensures k < numClass && row[4..4 + numClass][k] == row[4 + k]
    ensures forall j :: 4 <= j < 4 + numClass ==> row[j] <= row[4 + k]
    ensures forall j :: 4 <= j < 4 + k ==> row[j] < row[4 + k]
  {
    var scores := row[4..4 + numClass];
    forall j | 4 <= j < 4 + numClass
      ensures row[j] <= row[4 + k] && (j < 4 + k ==> row[j] < row[4 + k])
    {
      assert row[j] == scores[j - 4];
    }
  }

  /** Two rows over two classes with scores `[0.9, 0.1]` and `[0.2, 0.8]`
      decode to classes 0 and 1, whatever their boxes and coefficients. */
  lemma TwoClassRows(row0: seq<real>, row1: seq<real>, ctx: Context)
    requires |ctx.labels| == 2 && |row0| >= 6 && |row1| >= 6
    requires row0[4] == 0.9 && row0[5] == 0.1 && row1[4] == 0.2 && row1[5] == 0.8
    ensures DecodeRow(row0, ctx).index == 0 && DecodeRow(row0, ctx).probability == 0.9
    ensures DecodeRow(row1, ctx).index == 1 && DecodeRow(row1, ctx).probability == 0.8
  {
  }

  /** Equal scores go to the first class. */
  lemma TieGoesToFirstClass(row: seq<real>, ctx: Context)
    requires RowFits(row, ctx) && |ctx.labels| >= 2 && row[4] == row[5]
    requires forall j :: 4 <= j < 4 + |ctx.labels| ==> row[j] <= row[4]
    ensures DecodeRow(row, ctx).index == 0
  {
  }

  /** A detection reaching past the canvas is cut at its edge: centre
      (600, 600) with sides 100 on a 512 canvas has its corner at (550, 550),
      already past the edge, so both sides become 512 - 550 = -38. */
  lemma OverflowingRow(row: seq<real>, ctx: Context)
    requires RowFits(row, ctx) && ctx.maxSize == 512
    requires row[0] == 600.0 && row[1] == 600.0 && row[2] == 100.0 && row[3] == 100.0
    ensures DecodeRow(row, ctx).box == Box(550.0, 550.0, -38.0, -38.0)
  {
  }
}
