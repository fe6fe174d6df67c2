/** `detectImage` of `detect.tsx` as a fold: preprocessing arithmetic, then
    one decode-push-and-mask step per selected row over an overlay that starts
    fully transparent, then one stable sort of the pushed records. The three
    inference sessions are not modelled: the selection tensor is an input, and
    the mask session is an opaque function from (request, overlay) to overlay. */
module Pipeline {
  import opened Wrappers
  import opened Failures
  import opened Geometry
  import opened Decoder
  import Colors
  import Ranker

  type Byte = b: int | 0 <= b < 256

  /** An RGBA overlay of `modelHeight * modelWidth * 4` bytes. */
  type Overlay = seq<Byte>

  /** The selection tensor: `count` rows (`dims[1]`) of `width` values
      (`dims[2]`) each, row-major in `data`. */
  datatype Selected = Selected(count: nat, width: nat, data: seq<real>)

  /** The shape the decoding loop relies on: a full tensor whose rows, if
      there are any, hold a box, one score per class, and the mask
      coefficients. */
  predicate WellFormed(sel: Selected, labels: seq<string>) {
    (sel.count == 0 || (|labels| >= 1 && sel.width >= 4 + |labels|)) && |sel.data| == sel.count * sel.width
  }

  /** What the mask session receives for one detection: the model-space box
      and the mask coefficients (its `detection` input), and `maxSize`, the
      display-space box and the class colour with alpha (its `config`). */
  datatype MaskRequest = MaskRequest(box: Box, coefficients: seq<real>, maxSize: nat, bounding: Box, color: Colors.Rgba)

  /** The mask session, applied to the running overlay. */
  type MaskStep = (MaskRequest, Overlay) -> Overlay

  /** The alpha the overlay colour is expanded with. */
  const MaskAlpha: int := 120

  /** `new Uint8Array(n)`. */
  function Zeros(n: nat): (o: Overlay)
    ensures |o| == n && forall i :: 0 <= i < n ==> o[i] == 0
  {
    seq(n, _ => 0)
  }

  /** The ranking key: probability times display-box area. */
  function RankKey(d: DetectBox): real {
    d.probability * (d.bounding.w * d.bounding.h)
  }

  /** Row `i` of the selection tensor. */
  function Row(sel: Selected, i: nat): (row: seq<real>)
    requires |sel.data| == sel.count * sel.width && i < sel.count
    ensures |row| == sel.width && row == sel.data[i * sel.width..(i + 1) * sel.width]
  {
    MulMono(i + 1, sel.count, sel.width);
    RowOf(sel.data, sel.width, i)
  }

  lemma MulMono(a: nat, b: nat, c: nat)
    requires a <= b
    ensures a * c <= b * c
  {
  }

  /** The record pushed for each selected row, in row order. */
  function Records(sel: Selected, ctx: Context): (rs: seq<DetectBox>)
    requires WellFormed(sel, ctx.labels)
    ensures |rs| == sel.count
    ensures forall i :: 0 <= i < sel.count ==> rs[i] == DecodeRow(Row(sel, i), ctx)
  {
    seq(sel.count, i requires 0 <= i < sel.count => DecodeRow(Row(sel, i), ctx))
  }

  /** The colour a class's mask is painted with; every palette entry parses. */
  function MaskColor(index: nat): (c: Colors.Rgba)
    ensures Colors.HexToRgba(Colors.Get(index), MaskAlpha) == Success(c)
  {
    Colors.PaletteParses(index, MaskAlpha);
    Colors.HexToRgba(Colors.Get(index), MaskAlpha).value
  }

  function RequestFor(d: DetectBox, maxSize: nat): MaskRequest {
    MaskRequest(d.box, d.mask, maxSize, d.bounding, MaskColor(d.index))
  }

  /** The mask requests, one per record, in row order. */
  function Requests(records: seq<DetectBox>, maxSize: nat): (qs: seq<MaskRequest>)
    ensures |qs| == |records|
    ensures forall i :: 0 <= i < |qs| ==> qs[i] == RequestFor(records[i], maxSize)
  {
    seq(|records|, i requires 0 <= i < |records| => RequestFor(records[i], maxSize))
  }

  /** The overlay after applying `step` for each request in turn. */
  function ApplyAll(step: MaskStep, qs: seq<MaskRequest>, start: Overlay): Overlay
    decreases |qs|
  {
    if |qs| == 0 then start else step(qs[|qs| - 1], ApplyAll(step, qs[..|qs| - 1], start))
  }

  lemma RequestsPrefix(records: seq<DetectBox>, maxSize: nat)
    requires |records| > 0
    ensures var qs := Requests(records, maxSize);
      qs[..|qs| - 1] == Requests(records[..|records| - 1], maxSize) &&
      qs[|qs| - 1] == RequestFor(records[|records| - 1], maxSize)
  {
  }

  datatype LoopState = LoopState(boxes: seq<DetectBox>, overlay: Overlay)

  /** The first `k` iterations of the loop. Each pushes one record and hands
      the overlay to the mask session once, with the class colour expanded by
      `colors.hexToRgba` (which cannot fail on a palette colour, see
      `MaskColor`). */
  function Loop(sel: Selected, ctx: Context, step: MaskStep, start: Overlay, k: nat): (st: LoopState)
    requires WellFormed(sel, ctx.labels) && k <= sel.count
    ensures st.boxes == Records(sel, ctx)[..k]
    ensures st.overlay == ApplyAll(step, Requests(st.boxes, ctx.maxSize), start)
    decreases k
  {
    if k == 0 then LoopState([], start)
    else
      var prev := Loop(sel, ctx, step, start, k - 1);
      var d := DecodeRow(Row(sel, k - 1), ctx);
      PrefixStep(Records(sel, ctx), k);
      ApplyAllSnoc(step, prev.boxes, d, ctx.maxSize, start);
      LoopState(prev.boxes + [d], step(RequestFor(d, ctx.maxSize), prev.overlay))
  }

  lemma PrefixStep<T>(s: seq<T>, k: nat)
    requires 0 < k <= |s|
    ensures s[..k] == s[..k - 1] + [s[k - 1]]
  {
  }

  /** The loop's overlay is the mask session applied once per pushed record,
      in row order, starting from the initial overlay. */
  lemma LoopOverlay(sel: Selected, ctx: Context, step: MaskStep, start: Overlay, k: nat)
    requires WellFormed(sel, ctx.labels) && k <= sel.count
    ensures Loop(sel, ctx, step, start, k).overlay ==
      ApplyAll(step, Requests(Records(sel, ctx)[..k], ctx.maxSize), start)
  {
  }

  /** Applying the mask session to record `k - 1` extends the overlay of the
      first `k - 1` records to the overlay of the first `k`. */
  lemma OverlaySnoc(step: MaskStep, records: seq<DetectBox>, k: nat, maxSize: nat, start: Overlay, prev: Overlay)
    requires 0 < k <= |records|
    requires prev == ApplyAll(step, Requests(records[..k - 1], maxSize), start)
    ensures step(RequestFor(records[k - 1], maxSize), prev) ==
      ApplyAll(step, Requests(records[..k], maxSize), start)
  {
    PrefixStep(records, k);
    ApplyAllSnoc(step, records[..k - 1], records[k - 1], maxSize, start);
  }

  /** One more record applies the mask session once more. */
  lemma ApplyAllSnoc(step: MaskStep, records: seq<DetectBox>, d: DetectBox, maxSize: nat, start: Overlay)
    ensures ApplyAll(step, Requests(records + [d], maxSize), start) ==
      step(RequestFor(d, maxSize), ApplyAll(step, Requests(records, maxSize), start))
  {
    RequestsPrefix(records + [d], maxSize);
    assert (records + [d])[..|records|] == records;
  }

  /** One more iteration applies the mask session once more, to the request
      of row `k - 1`. */
  lemma LoopStep(sel: Selected, ctx: Context, step: MaskStep, start: Overlay, k: nat)
    requires WellFormed(sel, ctx.labels) && 0 < k <= sel.count
    ensures Loop(sel, ctx, step, start, k).overlay ==
      step(RequestFor(Records(sel, ctx)[k - 1], ctx.maxSize), Loop(sel, ctx, step, start, k - 1).overlay)
  {
  }

  /** After every row: all records pushed, every request applied. */
  lemma FullLoop(sel: Selected, ctx: Context, step: MaskStep, start: Overlay)
    requires WellFormed(sel, ctx.labels)
    ensures var st := Loop(sel, ctx, step, start, sel.count);
      st.boxes == Records(sel, ctx) &&
      st.overlay == ApplyAll(step, Requests(Records(sel, ctx), ctx.maxSize), start)
  {
    assert Records(sel, ctx)[..sel.count] == Records(sel, ctx);
    LoopOverlay(sel, ctx, step, start, sel.count);
  }

  /** What `detectImage` leaves behind: the ranked boxes and the overlay. */
  datatype Detection = Detection(boxes: seq<DetectBox>, overlay: Overlay)

  /** The decode context of a run: model side `max(modelWidth, modelHeight)`
      and the ratios preprocessing computed. */
  function ContextOf(labels: seq<string>, modelWidth: nat, modelHeight: nat, p: Preprocessed): (c: Context)
    ensures c.maxSize >= modelWidth && c.maxSize >= modelHeight
    ensures c.maxSize == modelWidth || c.maxSize == modelHeight
    ensures c.labels == labels
  {
    Context(labels, if modelWidth >= modelHeight then modelWidth else modelHeight,
            p.padding.xRatio, p.padding.yRatio)
  }

  /** `detectImage` on an image of `imageCols` x `imageRows` pixels. */
  function DetectImage(imageCols: nat, imageRows: nat, modelWidth: nat, modelHeight: nat,
                       labels: seq<string>, sel: Selected, step: MaskStep): (r: Result<Detection, Error>)
    requires WellFormed(sel, labels)
    ensures r.Failure? <==> Preprocess(imageCols, imageRows).Failure?
    ensures r.Failure? ==> r.error == PreprocessingFailure
    ensures r.Success? ==>
      var ctx := ContextOf(labels, modelWidth, modelHeight, Preprocess(imageCols, imageRows).value);
      var records := Records(sel, ctx);
      && |r.value.boxes| == sel.count
      && multiset(r.value.boxes) == multiset(records)
      && Ranker.IsStableSortOf(RankKey, r.value.boxes, records)
      && r.value.overlay == ApplyAll(step, Requests(records, ctx.maxSize), Zeros(modelHeight * modelWidth * 4))
  {
    var pre := Preprocess(imageCols, imageRows);
    if pre.Failure? then Failure(pre.error)
    else Success(RankedRun(sel, ContextOf(labels, modelWidth, modelHeight, pre.value), step,
                           Zeros(modelHeight * modelWidth * 4)))
  }

  /** The loop over every selected row followed by the sort: the records in
      their stable descending ranking, and the overlay of every row's mask
      step. */
  function RankedRun(sel: Selected, ctx: Context, step: MaskStep, start: Overlay): (d: Detection)
    requires WellFormed(sel, ctx.labels)
    ensures var records := Records(sel, ctx);
      && |d.boxes| == sel.count
      && multiset(d.boxes) == multiset(records)
      && Ranker.IsStableSortOf(RankKey, d.boxes, records)
      && d.overlay == ApplyAll(step, Requests(records, ctx.maxSize), start)
  {
    var st := Loop(sel, ctx, step, start, sel.count);
    FullLoop(sel, ctx, step, start);
    Ranker.SortStable(RankKey, st.boxes);
    Detection(Ranker.Sort(RankKey, st.boxes), st.overlay)
  }

  /** Every ranked box is inside the model's square canvas, in both spaces,
      and its class index names one of the labels. */
  lemma RankedBoxesInCanvas(imageCols: nat, imageRows: nat, modelWidth: nat, modelHeight: nat,
                            labels: seq<string>, sel: Selected, step: MaskStep)
    requires WellFormed(sel, labels)
    requires DetectImage(imageCols, imageRows, modelWidth, modelHeight, labels, sel, step).Success?
    ensures var r := DetectImage(imageCols, imageRows, modelWidth, modelHeight, labels, sel, step).value;
      var maxSize := if modelWidth >= modelHeight then modelWidth else modelHeight;
      forall d :: d in r.boxes ==>
        InCanvas(d.box, maxSize as real) && InCanvas(d.bounding, maxSize as real) &&
        d.index < |labels| && d.className == labels[d.index]
  {
    var pre := Preprocess(imageCols, imageRows).value;
    var ctx := ContextOf(labels, modelWidth, modelHeight, pre);
    var r := DetectImage(imageCols, imageRows, modelWidth, modelHeight, labels, sel, step).value;
    PermutedRecordsInCanvas(sel, ctx, r.boxes);
  }

  /** Any rearrangement of the records keeps them in the canvas. */
  lemma PermutedRecordsInCanvas(sel: Selected, ctx: Context, boxes: seq<DetectBox>)
    requires WellFormed(sel, ctx.labels) && multiset(boxes) == multiset(Records(sel, ctx))
    ensures forall d :: d in boxes ==>
      InCanvas(d.box, ctx.maxSize as real) && InCanvas(d.bounding, ctx.maxSize as real) &&
      d.index < |ctx.labels| && d.className == ctx.labels[d.index]
  {
    forall d | d in boxes
      ensures InCanvas(d.box, ctx.maxSize as real) && InCanvas(d.bounding, ctx.maxSize as real)
      ensures d.index < |ctx.labels| && d.className == ctx.labels[d.index]
    {
      var i := PermutedIndex(boxes, Records(sel, ctx), d);
      RecordInCanvas(sel, ctx, i);
    }
  }

  /** An element of a permutation of `s` sits at some index of `s`. */
  lemma PermutedIndex<T>(p: seq<T>, s: seq<T>, x: T) returns (i: nat)
    requires multiset(p) == multiset(s) && x in p
    ensures i < |s| && s[i] == x
  {
    assert x in multiset(s) by {
      assert x in multiset(p);
    }
    i :| i < |s| && s[i] == x;
  }

  /** Each record is inside the canvas and names its class. */
  lemma RecordInCanvas(sel: Selected, ctx: Context, i: nat)
    requires WellFormed(sel, ctx.labels) && i < sel.count
    ensures var d := Records(sel, ctx)[i];
      InCanvas(d.box, ctx.maxSize as real) && InCanvas(d.bounding, ctx.maxSize as real) &&
      d.index < |ctx.labels| && d.className == ctx.labels[d.index]
  {
    assert Records(sel, ctx)[i] == DecodeRow(Row(sel, i), ctx);
  }

  /** With no selected rows the result is no boxes and a fully transparent
      overlay of the model's size. */
  lemma NoDetections(imageCols: nat, imageRows: nat, modelWidth: nat, modelHeight: nat,
                     labels: seq<string>, width: nat, step: MaskStep)
    requires Preprocess(imageCols, imageRows).Success?
    ensures var r := DetectImage(imageCols, imageRows, modelWidth, modelHeight, labels, Selected(0, width, []), step);
      r.Success? && r.value.boxes == [] && r.value.overlay == Zeros(modelHeight * modelWidth * 4)
  {
  }

  /** The overlay keeps its size when the mask session does. */
  lemma {:induction false} ApplyAllKeepsSize(step: MaskStep, qs: seq<MaskRequest>, start: Overlay)
    requires forall q, o :: |step(q, o)| == |o|
    ensures |ApplyAll(step, qs, start)| == |start|
    decreases |qs|
  {
    if |qs| > 0 {
      ApplyAllKeepsSize(step, qs[..|qs| - 1], start);
    }
  }
}
