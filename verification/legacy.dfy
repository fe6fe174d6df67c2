/** `detectImage` of `detect.js`, the older copy of the pipeline. Its loop
    decodes each row exactly as `detect.tsx` does but pushes a smaller record,
    re-sorts the whole list after every push, and expands the class colour
    through `Colors.hexToRgba` — a member the `Colors` class does not have:
    `hexToRgba` is an instance field, so the static lookup is `undefined` and
    calling it throws a `TypeError`. The fold is written once, over the way
    the colour expansion is reached, so the loop as written and the loop with
    the instance call (`colors.hexToRgba`) share every other step. */
module Legacy {
  import opened Wrappers
  import opened Failures
  import opened Geometry
  import opened Decoder
  import opened Pipeline
  import Colors
  import Ranker

  /** The record `detect.js` pushes: label, probability, colour, display box. */
  datatype LegacyBox = LegacyBox(className: string, probability: real, color: string, bounding: Box)

  function ToLegacy(d: DetectBox): (b: LegacyBox)
    ensures LegacyKey(b) == RankKey(d)
  {
    LegacyBox(d.className, d.probability, d.color, d.bounding)
  }

  /** The ranking key, on the smaller record: the comparator's `scoreA`. */
  function LegacyKey(b: LegacyBox): real {
    b.probability * (b.bounding.w * b.bounding.h)
  }

  /** How the loop reaches the colour expansion: through the class (as
      written) or through the module's `colors` instance. */
  datatype ColorCall = StaticCall | InstanceCall

  const MissingMember: string := "Colors.hexToRgba"

  /** The colour expansion as the chosen call performs it. */
  function Expand(call: ColorCall, color: string, alpha: int): (r: Result<Colors.Rgba, Error>)
    ensures call.StaticCall? ==> r == Failure(NotAFunction(MissingMember))
    ensures call.InstanceCall? ==> r == Colors.HexToRgba(color, alpha)
  {
    match call
    case StaticCall => Failure(NotAFunction(MissingMember))
    case InstanceCall => Colors.HexToRgba(color, alpha)
  }

  datatype LegacyState = LegacyState(boxes: seq<LegacyBox>, overlay: Overlay)

  /** The first `k` iterations: decode, push, sort the whole list, expand the
      colour, apply the mask session. A throw ends the run. */
  function LegacyLoop(call: ColorCall, sel: Selected, ctx: Context, step: MaskStep, start: Overlay, k: nat)
    : (r: Result<LegacyState, Error>)
    requires WellFormed(sel, ctx.labels) && k <= sel.count
    decreases k
  {
    if k == 0 then Success(LegacyState([], start))
    else
      var prev :- LegacyLoop(call, sel, ctx, step, start, k - 1);
      var d := DecodeRow(Row(sel, k - 1), ctx);
      var boxes := Ranker.Sort(LegacyKey, prev.boxes + [ToLegacy(d)]);
      var rgba :- Expand(call, d.color, MaskAlpha);
      Success(LegacyState(boxes, step(MaskRequest(d.box, d.mask, ctx.maxSize, d.bounding, rgba), prev.overlay)))
  }

  /** `detectImage` of `detect.js` on an image of `imageCols` x `imageRows` pixels. */
  function LegacyDetect(call: ColorCall, imageCols: nat, imageRows: nat, modelWidth: nat, modelHeight: nat,
                        labels: seq<string>, sel: Selected, step: MaskStep): (r: Result<LegacyState, Error>)
    requires WellFormed(sel, labels)
    ensures Preprocess(imageCols, imageRows).Failure? ==> r == Failure(PreprocessingFailure)
  {
    var pre :- Preprocess(imageCols, imageRows);
    var ctx := ContextOf(labels, modelWidth, modelHeight, pre);
    LegacyLoop(call, sel, ctx, step, Zeros(modelHeight * modelWidth * 4), sel.count)
  }

  /** As written, the first iteration throws: the loop fails exactly when it
      runs at least once, and always with the missing static member. */
  lemma {:induction false} StaticLoopFails(sel: Selected, ctx: Context, step: MaskStep, start: Overlay, k: nat)
    requires WellFormed(sel, ctx.labels) && k <= sel.count
    ensures var r := LegacyLoop(StaticCall, sel, ctx, step, start, k);
      (r.Failure? <==> k > 0) &&
      (r.Failure? ==> r.error == NotAFunction(MissingMember)) &&
      (r.Success? ==> r.value == LegacyState([], start))
    decreases k
  {
    if k > 0 {
      StaticLoopFails(sel, ctx, step, start, k - 1);
    }
  }

  /** Hence the legacy `detectImage` rejects whenever a row is selected, and
      with no rows it ends with no boxes and a transparent overlay. */
  lemma StaticDetectRejects(imageCols: nat, imageRows: nat, modelWidth: nat, modelHeight: nat,
                            labels: seq<string>, sel: Selected, step: MaskStep)
    requires WellFormed(sel, labels)
    ensures var r := LegacyDetect(StaticCall, imageCols, imageRows, modelWidth, modelHeight, labels, sel, step);
      (r.Failure? <==> Preprocess(imageCols, imageRows).Failure? || sel.count > 0) &&
      (r.Failure? && Preprocess(imageCols, imageRows).Success? ==> r.error == NotAFunction(MissingMember)) &&
      (r.Success? ==> r.value == LegacyState([], Zeros(modelHeight * modelWidth * 4)))
  {
    var pre := Preprocess(imageCols, imageRows);
    if pre.Success? {
      var ctx := ContextOf(labels, modelWidth, modelHeight, pre.value);
      var start := Zeros(modelHeight * modelWidth * 4);
      assert LegacyDetect(StaticCall, imageCols, imageRows, modelWidth, modelHeight, labels, sel, step) ==
        LegacyLoop(StaticCall, sel, ctx, step, start, sel.count);
      StaticLoopFails(sel, ctx, step, start, sel.count);
    }
  }

  /** With the instance call, no iteration throws; after every iteration the
      list is sorted and equals one stable sort of the records pushed so far,
      and the overlay is the one `detect.tsx` computes for those rows. */
  lemma {:induction false} InstanceLoopSorted(sel: Selected, ctx: Context, step: MaskStep, start: Overlay, k: nat)
    requires WellFormed(sel, ctx.labels) && k <= sel.count
    ensures var r := LegacyLoop(InstanceCall, sel, ctx, step, start, k);
      var pushed := Ranker.Project(ToLegacy, Records(sel, ctx)[..k]);
      && r.Success?
      && Ranker.SortedDesc(LegacyKey, r.value.boxes)
      && r.value.boxes == Ranker.Sort(LegacyKey, pushed)
      && r.value.overlay == ApplyAll(step, Requests(Records(sel, ctx)[..k], ctx.maxSize), start)
    decreases k
  {
    if k > 0 {
      InstanceLoopSorted(sel, ctx, step, start, k - 1);
      InstanceStep(sel, ctx, step, start, k);
      PushRanked(step, ctx.maxSize, start, Records(sel, ctx), k,
                 LegacyLoop(InstanceCall, sel, ctx, step, start, k - 1).value,
                 LegacyLoop(InstanceCall, sel, ctx, step, start, k).value);
    }
  }

  /** One iteration keeps the legacy state ranked: pushing record `k - 1` and
      applying its request turns the state of `k - 1` records into that of `k`. */
  lemma PushRanked(step: MaskStep, maxSize: nat, start: Overlay, records: seq<DetectBox>, k: nat,
                   prev: LegacyState, next: LegacyState)
    requires 0 < k <= |records|
    requires prev.boxes == Ranker.Sort(LegacyKey, Ranker.Project(ToLegacy, records[..k - 1]))
    requires prev.overlay == ApplyAll(step, Requests(records[..k - 1], maxSize), start)
    requires next == LegacyState(Ranker.Sort(LegacyKey, prev.boxes + [ToLegacy(records[k - 1])]),
                                 step(RequestFor(records[k - 1], maxSize), prev.overlay))
    ensures Ranker.SortedDesc(LegacyKey, next.boxes)
    ensures next.boxes == Ranker.Sort(LegacyKey, Ranker.Project(ToLegacy, records[..k]))
    ensures next.overlay == ApplyAll(step, Requests(records[..k], maxSize), start)
  {
    BoxesSnoc(records, k, prev.boxes);
    OverlaySnoc(step, records, k, maxSize, start, prev.overlay);
  }

  /** Pushing record `k - 1` onto the ranking of the first `k - 1` records and
      re-sorting gives the ranking of the first `k`. */
  lemma BoxesSnoc(records: seq<DetectBox>, k: nat, prev: seq<LegacyBox>)
    requires 0 < k <= |records|
    requires prev == Ranker.Sort(LegacyKey, Ranker.Project(ToLegacy, records[..k - 1]))
    ensures Ranker.Sort(LegacyKey, prev + [ToLegacy(records[k - 1])]) ==
      Ranker.Sort(LegacyKey, Ranker.Project(ToLegacy, records[..k]))
  {
    PrefixStep(records, k);
    SortedPush(records[..k - 1], records[k - 1]);
  }

  /** One more iteration with the instance call pushes the record of row
      `k - 1`, sorts, and applies the mask session to that row's request. */
  lemma InstanceStep(sel: Selected, ctx: Context, step: MaskStep, start: Overlay, k: nat)
    requires WellFormed(sel, ctx.labels) && 0 < k <= sel.count
    requires LegacyLoop(InstanceCall, sel, ctx, step, start, k - 1).Success?
    ensures var prev := LegacyLoop(InstanceCall, sel, ctx, step, start, k - 1).value;
      var d := Records(sel, ctx)[k - 1];
      LegacyLoop(InstanceCall, sel, ctx, step, start, k) ==
        Success(LegacyState(Ranker.Sort(LegacyKey, prev.boxes + [ToLegacy(d)]),
                            step(RequestFor(d, ctx.maxSize), prev.overlay)))
  {
    var d := DecodeRow(Row(sel, k - 1), ctx);
    assert Records(sel, ctx)[k - 1] == d;
    var rgba := MaskColor(d.index);
    assert Expand(InstanceCall, d.color, MaskAlpha) == Success(rgba);
    assert RequestFor(d, ctx.maxSize) == MaskRequest(d.box, d.mask, ctx.maxSize, d.bounding, rgba);
  }

  /** Re-sorting a sorted list after one push is the stable sort of every
      record pushed so far. */
  lemma SortedPush(records: seq<DetectBox>, d: DetectBox)
    ensures var prev := Ranker.Sort(LegacyKey, Ranker.Project(ToLegacy, records));
      Ranker.Sort(LegacyKey, prev + [ToLegacy(d)]) ==
        Ranker.Sort(LegacyKey, Ranker.Project(ToLegacy, records + [d]))
  {
    var before := Ranker.Project(ToLegacy, records);
    var pushed := Ranker.Project(ToLegacy, records + [d]);
    assert pushed[..|records|] == before;
    Ranker.SortSnocSorted(LegacyKey, Ranker.Sort(LegacyKey, before), ToLegacy(d));
  }

  /** The legacy run with the instance call agrees with `detect.tsx`: it fails
      exactly when preprocessing does, its list is the `detect.tsx` ranking
      with each record cut down to the legacy fields, and the overlays agree. */
  lemma InstanceMatchesPipeline(imageCols: nat, imageRows: nat, modelWidth: nat, modelHeight: nat,
                                labels: seq<string>, sel: Selected, step: MaskStep)
    requires WellFormed(sel, labels)
    ensures var r := LegacyDetect(InstanceCall, imageCols, imageRows, modelWidth, modelHeight, labels, sel, step);
      var p := DetectImage(imageCols, imageRows, modelWidth, modelHeight, labels, sel, step);
      (r.Success? <==> p.Success?) &&
      (r.Success? ==> r.value.boxes == Ranker.Project(ToLegacy, p.value.boxes) &&
                      r.value.overlay == p.value.overlay)
  {
    var pre := Preprocess(imageCols, imageRows);
    if pre.Success? {
      var ctx := ContextOf(labels, modelWidth, modelHeight, pre.value);
      var p := DetectImage(imageCols, imageRows, modelWidth, modelHeight, labels, sel, step).value;
      Ranker.StableSortIsSort(RankKey, p.boxes, Records(sel, ctx));
      InstanceRunRanks(sel, ctx, step, Zeros(modelHeight * modelWidth * 4));
    }
  }

  /** The whole instance-call loop: the records, ranked, cut down to the
      legacy fields, and the overlay of every row's mask step. */
  lemma InstanceRunRanks(sel: Selected, ctx: Context, step: MaskStep, start: Overlay)
    requires WellFormed(sel, ctx.labels)
    ensures var r := LegacyLoop(InstanceCall, sel, ctx, step, start, sel.count);
      var records := Records(sel, ctx);
      r.Success? &&
      r.value.boxes == Ranker.Project(ToLegacy, Ranker.Sort(RankKey, records)) &&
      r.value.overlay == ApplyAll(step, Requests(records, ctx.maxSize), start)
  {
    var records := Records(sel, ctx);
    InstanceLoopSorted(sel, ctx, step, start, sel.count);
    FullPrefix(records);
    RankProjected(records);
  }

  /** Ranking the legacy records is ranking the full records and then
      cutting each down: the two keys agree. */
  lemma RankProjected(records: seq<DetectBox>)
    ensures Ranker.Sort(LegacyKey, Ranker.Project(ToLegacy, records)) ==
      Ranker.Project(ToLegacy, Ranker.Sort(RankKey, records))
  {
    forall y ensures LegacyKey(ToLegacy(y)) == RankKey(y) {
    }
    Ranker.SortProject(RankKey, LegacyKey, ToLegacy, records);
  }

  lemma FullPrefix<T>(s: seq<T>)
    ensures s[..|s|] == s
  {
  }
}
