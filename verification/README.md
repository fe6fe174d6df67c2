# reported-plate decode pipeline, in Dafny

This project models the part of reported-plate that runs after inference. reported-plate is a browser app that segments street photos with a YOLOv8 model. The model's output becomes a ranked list of labelled, coloured boxes and one RGBA mask overlay:

- **Geometry** (`geometry.dfy`): `divStride`, the square-padding arithmetic of `preprocessing`, and `overflowBoxes`. `detect.tsx` and `detect.js` give `divStride` and `overflowBoxes` identical bodies. They are modelled once; the `detect.js` copies are `src/utils/detect.js:321-331` and `src/utils/detect.js:339-345`.
- **Colour palette** (`colors.dfy`, with `hextext.dfy` for `toString(16)`, `padStart` and `parseInt`): the `Colors` class, covering `palette`, `get`, `hexToRgba`, `toHex` and `toIndex`.
- **Box decoder** (`decoder.dfy`): one selected row becomes one `DetectBox` record. The row is sliced, the first maximal score picks the class, the centre-form box becomes top-left form and is clamped, and it is then upscaled with `Math.floor` and clamped again.
- **Detection loop** (`pipeline.dfy`): `detectImage` of `detect.tsx` as a fold. The overlay starts as `H*W*4` zero bytes. Each selected row pushes one record and hands the overlay once to the mask session. After the loop, one stable sort ranks the records by `probability * w * h`.
- **Ranker** (`ranker.dfy`): the stable sort, as insertion sort. `Array.prototype.sort` with comparator `scoreB - scoreA` is stable by section 23.1.3.30 of ECMA-262 (2023 edition). A stable sort has exactly one outcome, and `StableSortUnique` proves it.
- **Legacy loop** (`legacy.dfy`): `detectImage` of `detect.js`. It keeps a smaller record and re-sorts after every push. It calls `Colors.hexToRgba` on the class, but `hexToRgba` is an instance field, so that call throws (see Findings).
- **Pixel helpers** (`pixels.dfy`): `calculateBoundingBox` and the copy loop of `copyPixelsFromMask`, both from `detect.js`.
- **App handlers** (`app.dfy`): the thumbnail-to-image address derivation of `handleClick` and the source dispatch of `changeImage`.
- **JavaScript built-ins** (`jsbuiltins.dfy`): `slice`, `indexOf`, `Math.max(...)`, `split` and `join`, with the semantics they have for the arguments the program passes.

Some parts are not modelled as computations:

- The three inference sessions are not modelled. The selection tensor is an input.
- The mask session is a function parameter `(MaskRequest, Overlay) -> Overlay`. Nothing is assumed about its pixels.
- JavaScript numbers are `real`, and `Math.floor` is `.Floor`.
- Thrown exceptions are `Failure` values of `Wrappers.Result`.

The model follows the code as written on these points:

- The display-space box is clamped against the model's `maxSize`, which is the same value used for the model-space box. It is not clamped against a separately scaled display size.
- An empty score list is never decoded. `Math.max()` of nothing is `-Infinity`, and its `indexOf` is `-1`; there is no dedicated error. The model requires at least one class whenever a row is decoded.
- The legacy variant sorts inside the loop. `Legacy.InstanceLoopSorted` shows that this gives the same order as the single sort after the loop.

## Model

| member | source | states |
|---|---|---|
| Geometry.AlignToStride | src/utils/detect.tsx:361-364 | result is a multiple of the stride; exact multiples are kept; a remainder with `2*rem >= stride` rounds up into `(v, v+stride)`, a smaller one rounds down into `(v-stride, v)`; the result is within half a stride of `v` |
| Geometry.DivStride | src/utils/detect.tsx:360-370 | both dimensions become multiples of the stride, each within half a stride of its input |
| Geometry.AlignIdempotent | src/utils/detect.tsx:360-370 | aligning an aligned dimension changes nothing |
| Geometry.DivStrideIdempotent | src/utils/detect.js:321-331 | `divStride` applied to its own result returns that result |
| Geometry.AlignToZero | src/utils/detect.tsx:361-364 | a dimension aligns to 0 exactly when it is below half a stride |
| Geometry.DivStrideIndependent | src/utils/detect.tsx:360-370 | the aligned width does not depend on the height, and vice versa |
| Geometry.PadToSquare | src/utils/detect.tsx:301-305 | `maxSize` is the larger side; pads bring each side to `maxSize`, one pad is 0; each ratio scales its side back to `maxSize`, both are at least 1 and one is exactly 1 |
| Geometry.Preprocess | src/utils/detect.tsx:292-305 | preprocessing fails (resize to an empty size) exactly when a side is below half a stride; otherwise the sides are the aligned, positive input sides, padded to a square whose side is a stride multiple |
| Geometry.OverflowBoxes | src/utils/detect.tsx:378-384 | output lies in the canvas; negative corners move to 0; a side is cut exactly when it overflows, and then ends at `maxSize`; sides never grow |
| Geometry.OverflowKeepsInCanvas | src/utils/detect.tsx:378-384 | a box already in the canvas is returned unchanged |
| Geometry.OverflowIdempotent | src/utils/detect.js:339-345 | clamping twice equals clamping once |
| Geometry.OverflowNegativeWidth | src/utils/detect.tsx:381 | a corner past `maxSize` yields a negative width: nothing bounds `w` from below |
| JsBuiltins.Slice | src/utils/detect.tsx:78-80 | length is the clamped range length and entry `i` is `s[start+i]` |
| JsBuiltins.SliceFrom | src/utils/detect.tsx:117 | the suffix from `start`, empty past the end |
| JsBuiltins.SliceThree | src/utils/detect.tsx:79-80 | box, scores and the rest of a row concatenate back to the row, for any row length |
| JsBuiltins.IndexOf | src/utils/detect.tsx:82 | -1 exactly when the value is absent; otherwise the first index holding it |
| JsBuiltins.MaxOf | src/utils/detect.tsx:81 | the result is one of the scores and no score exceeds it |
| JsBuiltins.Split | src/App.tsx:35 | at least one piece, and no piece contains the separator |
| JsBuiltins.JoinSplit | src/App.tsx:35 | joining the pieces with the separator restores the string |
| JsBuiltins.SplitFirst | src/App.tsx:38 | the first piece is the text before the first separator, or the whole string without one |
| JsBuiltins.SplitSingle | src/App.tsx:35 | a split has one piece exactly when the separator is absent, and that piece is the whole string |
| JsBuiltins.SplitLast | src/App.tsx:35 | the last piece is a separator-free suffix that is the whole string or follows a separator |
| JsBuiltins.LastPieceAfterSeparator | src/App.tsx:35 | the last piece of `p + c + f`, `f` free of `c`, is `f` |
| HexText.DigitValue | src/utils/renderBox.tsx:79 | a hex digit of either case has a value below 16; `FoldDigit` gives `A`-`F` the values of `a`-`f` (10 to 15) |
| HexText.Fold | src/utils/renderBox.tsx:77 | folding a character keeps it a hex digit exactly when it was one, sends each digit to lower case and leaves lower-case digits alone, as the pattern's `/i` flag reads them |
| HexText.FoldText | src/utils/renderBox.tsx:77 | the folded text has the same length and folds each character in place |
| HexText.FoldDigit | src/utils/renderBox.tsx:77-79 | an upper-case digit reads as the lower-case digit of the same value (`F` is 15) |
| HexText.ParseFolded | src/utils/renderBox.tsx:79 | `parseInt(_, 16)` gives the same number for a digit string and its lower-case form |
| HexText.LowerDigit | src/utils/renderBox.tsx:84 | the printed digit is lower-case and reads back as its value |
| HexText.ToRadix16 | src/utils/renderBox.tsx:84 | non-negative numbers print as lower-case digits with no leading zero; values below 16 as one digit, larger ones as at least two; negatives start with `-` |
| HexText.ParsePrintedHex | src/utils/renderBox.tsx:79-84 | `parseInt(n.toString(16), 16) == n` for every natural `n` |
| HexText.ParseHex | src/utils/renderBox.tsx:79 | `parseInt(_, 16)` on a string of hex digits, most significant digit first; `ParsePrintedHex` shows it inverts `ToRadix16`, and `ParsePair` shows a two-digit pair is `16 * hi + lo`, below 256 |
| HexText.PadStart2 | src/utils/renderBox.tsx:84 | result has length max(2, len); it ends with the input, preceded only by `'0'`s |
| HexText.ByteAsTwoDigits | src/utils/renderBox.tsx:84 | a byte prints, padded, as its high and low nibble digits |
| HexText.ParsePair | src/utils/renderBox.tsx:79 | two digits read as high and low nibble, a byte |
| HexText.PairRoundTrip | src/utils/renderBox.tsx:79-84 | two lower-case digits survive parse, print and pad |
| Colors.PaletteShape | src/utils/renderBox.tsx:49-72 | the palette has 20 entries, each `#` and six lower-case hex digits |
| Colors.Get | src/utils/renderBox.tsx:75 | the colour of any non-negative index is a palette entry in `#rrggbb` lower-case form |
| Colors.GetWraps | src/utils/renderBox.tsx:75 | `get(i + 20k) == get(i)` |
| Colors.PaletteDistinct | src/utils/renderBox.tsx:49-70 | the twenty entries are pairwise different |
| Colors.HexToRgba | src/utils/renderBox.tsx:77-80 | succeeds exactly on text matching the six-digit pattern, optional `#`, either case; the three channels are bytes and alpha passes through; otherwise `InvalidColorFormat`; `HexToRgbaFolded` shows an upper-case colour reads as its lower-case form |
| Colors.PairBound | src/utils/renderBox.tsx:79 | two hex digits parse to a byte |
| Colors.Channel | src/utils/renderBox.tsx:84 | a channel prints as at least two characters, exactly two lower-case digits for a byte |
| Colors.ToHex | src/utils/renderBox.tsx:82-86 | output starts with `#` and has at least 7 characters; for byte channels it is `#` and six lower-case digits |
| Colors.ToHexIgnoresAlpha | src/utils/renderBox.tsx:82-86 | colours differing only in the fourth channel print the same |
| Colors.ToIndex | src/utils/renderBox.tsx:88-90 | -1 exactly for text not in the palette; otherwise an index holding that text |
| Colors.ToIndexOfGet | src/utils/renderBox.tsx:75-90 | `toIndex(get(i)) == i mod 20` |
| Colors.HexRoundTrip | src/utils/renderBox.tsx:77-86 | `toHex(hexToRgba(c, a)) == c` for every `#` plus six lower-case digits, so for every palette entry |
| Colors.RgbaRoundTrip | src/utils/renderBox.tsx:77-86 | `hexToRgba(toHex(c), a)` returns the channels of `c` with alpha `a` |
| Colors.HexToRgbaFolded | src/utils/renderBox.tsx:77-79 | a colour text and its lower-case form both parse or both fail, to the same channels |
| Colors.UpperCaseColor | src/utils/renderBox.tsx:77-79 | `#FF8000` reads as the channels 255, 128, 0 |
| Colors.HexToRgbaOf | src/utils/renderBox.tsx:77-80 | a matching text yields the three digit pairs it captures, read as numbers |
| Colors.PaddedParse | src/utils/renderBox.tsx:79-84 | the padded print of a byte parses back to it |
| Colors.PaletteParses | src/utils/renderBox.tsx:49-80 | every palette colour parses, so the pipeline's colour expansion never throws |
| Decoder.RowOf | src/utils/detect.tsx:78 | a row inside the tensor is `data[idx*D .. (idx+1)*D)` |
| Decoder.SplitRow | src/utils/detect.tsx:79-80 | box, scores and mask concatenate to the row; box has 4 entries, scores `numClass` |
| Decoder.ArgMax | src/utils/detect.tsx:81-82 | index is in range, holds a maximal score, and every earlier score is strictly smaller |
| Decoder.CenterToCorner | src/utils/detect.tsx:92-97 | the corner is half a side before the centre; sides are kept |
| Decoder.Upscale | src/utils/detect.tsx:102-107 | each value is the whole number just at or below the scaled value |
| Decoder.ClampKeepsIntegral | src/utils/detect.tsx:101-109 | clamping whole-number boxes against a whole `maxSize` keeps them whole |
| Decoder.ArgMaxInRow | src/utils/detect.tsx:80-82 | the class chosen holds the row's first maximal score |
| Decoder.DecodeRow | src/utils/detect.tsx:77-120 | the record's class is in range, named by `labels[index]` and coloured `get(index)`; its probability is the first maximal score; data and mask are the row and its coefficients; the model-space box is the clamp of the top-left form of `[cx, cy, w, h]` against `maxSize`, and the display box is the clamp of its floored upscale; both are in the canvas, the display box is whole, and a box already in the canvas is kept as it is |
| Decoder.TwoClassRows | src/utils/detect.tsx:80-82 | scores `[0.9, 0.1]` and `[0.2, 0.8]` decode to classes 0 and 1 |
| Decoder.TieGoesToFirstClass | src/utils/detect.tsx:81-82 | equal top scores go to the lower class index |
| Decoder.OverflowingRow | src/utils/detect.tsx:91-99 | a row centred at (600, 600) with sides 100 on a 512 canvas decodes to the box `[550, 550, -38, -38]` |
| Ranker.Filter | src/utils/detect.tsx:150-158 | the elements kept all have the asked key and come from the list |
| Ranker.FilterAppend | src/utils/detect.tsx:150-158 | filtering distributes over concatenation |
| Ranker.FilterSingle | src/utils/detect.tsx:150-158 | a one-element list filters to itself or to nothing, by its key |
| Ranker.Insert | src/utils/detect.tsx:150-158 | inserting adds exactly the element: one longer, same multiset plus it |
| Ranker.InsertSorted | src/utils/detect.tsx:150-158 | inserting into a descending list keeps it descending |
| Ranker.InsertFilter | src/utils/detect.tsx:150-158 | the inserted element lands after every element of its key |
| Ranker.Sort | src/utils/detect.tsx:150-158 | the result is a permutation of the input and is non-increasing in the key |
| Ranker.SortStable | src/utils/detect.tsx:150-158 | elements of equal key keep their arrival order |
| Ranker.SortOfSorted | src/utils/detect.tsx:150-158 | a sorted list is left as it is |
| Ranker.StableSortUnique | src/utils/detect.tsx:150-158 | two descending lists with the same equal-key groups are equal |
| Ranker.StableSortIsSort | src/utils/detect.tsx:150-158 | every stable descending sort of a list is `Sort` of it |
| Ranker.Project | src/utils/detect.js:98-103 | the projection maps each element in place |
| Ranker.InsertProject | src/utils/detect.js:98-113 | inserting commutes with a key-preserving projection |
| Ranker.SortProject | src/utils/detect.js:98-113 | sorting commutes with a key-preserving projection |
| Ranker.SortSnocSorted | src/utils/detect.js:105-113 | sorting a sorted list plus one element inserts that element |
| Ranker.SortStep | src/utils/detect.tsx:150-158 | sorting one more element inserts it into the sort of the rest |
| Ranker.RankingExample | src/utils/detect.tsx:150-158 | keys 90, 100, 90 rank as second, first, third |
| Pipeline.Zeros | src/utils/detect.tsx:70-74 | the initial overlay has the asked size and is all zero |
| Pipeline.Row | src/utils/detect.tsx:78 | row `i` of a full tensor is its `i`-th block of `width` values |
| Pipeline.Records | src/utils/detect.tsx:77-120 | one record per selected row, in row order, each the decoded row |
| Pipeline.MaskColor | src/utils/detect.tsx:137 | the mask colour is the successful expansion of `get(index)` with alpha 120 |
| Pipeline.RankKey | src/utils/detect.tsx:150-158 | the comparator's `probability * w * h` of the display box; `DetectImage` and `RankedRun` state the result is the stable descending sort by this key |
| Pipeline.Requests | src/utils/detect.tsx:122-139 | one mask request per record, in order |
| Pipeline.RequestFor | src/utils/detect.tsx:122-139 | the mask input (model-space box and mask coefficients) and config (`maxSize`, display box, colour with alpha 120) of one record; `InstanceStep` and `LoopStep` use it as the request of each iteration |
| Pipeline.RequestsPrefix | src/utils/detect.tsx:122-139 | the requests of a prefix are the prefix of the requests |
| Pipeline.Loop | src/utils/detect.tsx:77-148 | after `k` iterations the pushed list is exactly the first `k` records, and the overlay is the mask session applied to their requests in order |
| Pipeline.LoopOverlay | src/utils/detect.tsx:140-147 | after `k` iterations the overlay is the mask session applied once per record, in row order, from the initial overlay |
| Pipeline.FullLoop | src/utils/detect.tsx:77-148 | after the last row every record has been pushed and every request applied |
| Pipeline.ApplyAllSnoc | src/utils/detect.tsx:140-147 | one more record applies the mask session once more |
| Pipeline.ApplyAll | src/utils/detect.tsx:140-147 | the overlay after handing it to the mask session once per request, in order; characterised by `ApplyAllSnoc`, `LoopOverlay` and `ApplyAllKeepsSize` |
| Pipeline.LoopStep | src/utils/detect.tsx:140-147 | an iteration applies the session to its own row's request |
| Pipeline.DetectImage | src/utils/detect.tsx:52-158 | with the sessions' outputs given, fails exactly when preprocessing does; otherwise one box per selected row, a permutation of the records that is their stable descending ranking, and the overlay of every row's mask step over `H*W*4` zeros |
| Pipeline.RankedRun | src/utils/detect.tsx:77-158 | the loop over every selected row and the sort after it give one box per row, a permutation of the records in their stable descending ranking, and the overlay of every row's mask step |
| Pipeline.RankedBoxesInCanvas | src/utils/detect.tsx:91-120 | every ranked box is in the canvas in both spaces and names its class |
| Pipeline.PermutedRecordsInCanvas | src/utils/detect.tsx:91-120 | any rearrangement of the records stays in the canvas and names its class |
| Pipeline.RecordInCanvas | src/utils/detect.tsx:91-120 | each record is in the canvas in both spaces and names its class |
| Pipeline.NoDetections | src/utils/detect.tsx:70-77 | no selected rows give no boxes and a transparent overlay, whatever the labels and the row width |
| Pipeline.ApplyAllKeepsSize | src/utils/detect.tsx:140-147 | the overlay keeps its size when the session does |
| Pipeline.ContextOf | src/utils/detect.tsx:53-54 | `maxSize` is `Math.max(modelWidth, modelHeight)`: at least both sides and equal to one of them; the labels are passed through |
| Legacy.Expand | src/utils/detect.js:133 | the static call always fails as not a function; the instance call is `hexToRgba` |
| Legacy.LegacyDetect | src/utils/detect.js:39-144 | a preprocessing failure aborts the run |
| Legacy.LegacyLoop | src/utils/detect.js:64-144 | the loop: decode, push, re-sort, expand the colour, run the mask step; characterised by `StaticLoopFails` as written and by `InstanceLoopSorted` and `InstanceStep` with the instance call |
| Legacy.ToLegacy | src/utils/detect.js:98-103 | the pushed record keeps label, probability, colour and display box, so its ranking key equals the full record's `RankKey` |
| Legacy.LegacyKey | src/utils/detect.js:105-113 | the comparator's `probability * w * h` on the smaller record; `RankProjected` shows ranking by it agrees with ranking by `RankKey` |
| Legacy.StaticLoopFails | src/utils/detect.js:64-133 | as written, the loop fails exactly when it runs once, always with the missing static member |
| Legacy.StaticDetectRejects | src/utils/detect.js:39-144 | as written, the run rejects exactly when preprocessing fails or a row is selected; with no rows it returns no boxes and zero overlay |
| Legacy.InstanceLoopSorted | src/utils/detect.js:98-143 | with the instance call, after every iteration the list is sorted and equals one stable sort of the records pushed so far; the overlay is the one `detect.tsx` computes |
| Legacy.InstanceStep | src/utils/detect.js:98-143 | an iteration pushes, sorts and applies the session to its row's request |
| Legacy.PushRanked | src/utils/detect.js:98-143 | one iteration with the instance call turns the ranked state of `k - 1` records into the ranked state of `k` |
| Legacy.SortedPush | src/utils/detect.js:105-113 | re-sorting after a push equals sorting every pushed record |
| Legacy.InstanceRunRanks | src/utils/detect.js:64-143 | the whole loop ranks the records as `detect.tsx` does, cut down to the legacy fields |
| Legacy.InstanceMatchesPipeline | src/utils/detect.js:39-144 | the corrected legacy run and the `detect.tsx` run succeed together, with projected boxes and equal overlays |
| Legacy.RankProjected | src/utils/detect.js:98-113 | ranking legacy records equals ranking full records and then projecting them |
| MaskPixels.CalculateBoundingBox | src/utils/detect.js:250-269 | with a visible pixel, the tightest rectangle: every visible pixel inside, each edge touching one; with none, `x=width, y=height, width=1-width, height=1-height` |
| MaskPixels.ScanAdvance | src/utils/detect.js:253-260 | visiting one pixel keeps the running minima and maxima exact for the pixels seen |
| MaskPixels.RowAdvance | src/utils/detect.js:252-262 | ending a row keeps them exact |
| MaskPixels.ScanComplete | src/utils/detect.js:262-269 | after the scan the minima and maxima form the tight rectangle |
| MaskPixels.TightBoundUnique | src/utils/detect.js:250-269 | the tight rectangle is unique |
| MaskPixels.CopyPixelsFromMask | src/utils/detect.js:224-237 | output has the mask's length; each entry is the original where its pixel's mask alpha is positive, 0 elsewhere; the loop's result is `MaskedImage`, the value `MaskTwice` and `VisibleOnlyInsideMask` are about |
| MaskPixels.PixelFilled | src/utils/detect.js:225-236 | the four entries of a pixel share its alpha test |
| MaskPixels.MaskedImage | src/utils/detect.js:224-237 | the copied image has the mask's length; every pixel is the original's four entries where the mask's alpha is positive and four zeros elsewhere |
| MaskPixels.MaskTwice | src/utils/detect.js:224-237 | copying twice through the same mask changes nothing more |
| MaskPixels.VisibleOnlyInsideMask | src/utils/detect.js:224-237 | a result pixel is visible exactly where mask and original both are |
| App.FileName | src/App.tsx:35 | a `/`-free suffix that is the whole address or follows a `/` |
| App.BaseName | src/App.tsx:38 | a `_`-free prefix that is the whole name or is followed by `_` |
| App.ImageUrl | src/App.tsx:38-42 | the address starts with the public folder and `/` and ends with `.jpg` |
| App.HandleClick | src/App.tsx:26-47 | no image gives no change; an image gives its derived address |
| App.FileNameOfPath | src/App.tsx:35 | the file name of `p/f` is `f` |
| App.BaseNameOfStem | src/App.tsx:38 | the base name of `stem_rest` is `stem` |
| App.BaseNameWithoutUnderscore | src/App.tsx:38-39 | a name without `_` is its own base name |
| App.ThumbnailUrl | src/App.tsx:35-42 | any `.../stem_rest` leads to `public/stem.jpg` |
| App.ThumbnailLetter | src/App.tsx:123-124 | a one-letter thumbnail `.../c_thmb.jpg` leads to `public/c.jpg` |
| App.PageThumbnails | src/App.tsx:123-124 | the two thumbnails of the page lead to `a.jpg` and `b.jpg` |
| App.PlainFileUrl | src/App.tsx:35-42 | any `.../f` with no `_` in `f` leads to `public/f.jpg` |
| App.PlainFileDoublesExtension | src/App.tsx:38-39 | `x.jpg` leads to `x.jpg.jpg` |
| App.ChangeImage | src/App.tsx:49-73 | a truthy current image is released first, whatever the source; an unsupported source then leaves `src` alone and no image; a supported one shows its address |
| App.Click | src/App.tsx:26-47 | a click without an image changes nothing; otherwise it shows the derived address |
| App.NextChangeReleasesPrevious | src/App.tsx:50-54 | a shown address is released by the next change, even an unsupported one |
| App.UnsupportedLeavesNothing | src/App.tsx:50-68 | after an unsupported source the next change releases nothing more |
| App.ClickShowsFullImage | src/App.tsx:123 | clicking the first thumbnail shows `a.jpg` |

## Left out

- The image-processing library's calls (`imread`, `cvtColor`, `resize`, `copyMakeBorder`, `blobFromImage`, `delete`) are not modelled. Only the arithmetic around them is. An aligned side of 0 is modelled as `PreprocessingFailure`, because `resize` rejects an empty size.
- The inference sessions (`net.run`, `nms.run`, `mask.run`) are foreign code. The selection tensor is an input and the mask session is an uninterpreted function. No locality or blending property is claimed for it.
- Canvas and DOM work is not modelled: `renderBoxes`, `putImageData`, `resizeImageData`, the scaling and download link of `copyPixelsFromMask`, and every `console.log`.
- The colour-count diagnostics after the sort in `detect.tsx` (lines 162-191) are not modelled. They only log. `toHex` and `toIndex`, which they call, are modelled.
- The class groupings (`infractions`, `plates`, `taxi`, `bonus`) and the lookups that use them are left out. They only feed logging and commented-out code.
- Commented-out experiments, including `src/utils/detect.tsx:197-256`, are left out.
- The content of the labels file is not part of this model. Labels are any `seq<string>`, non-empty whenever a row is selected.
- React state, model download and warm-up, `cv.onRuntimeInitialized`, and the "Close image" button are left out. UI wiring is outside the decode pipeline.
- Geometry.AlignToStride: the stride is the constant 32. `preprocessing` takes it as a parameter that defaults to 32, and no caller passes another value.
- JsBuiltins.MaxOf: requires a non-empty list. `Math.max()` of nothing is `-Infinity`, and NaN scores are not modelled.
- Decoder.DecodeRow: requires at least one class. With none, the class would be `-1` and its label `undefined`.
- Colors.Get: takes only non-negative indices. A negative index gives a negative `%` and an `undefined` colour, and `Math.floor` of a fraction is not modelled.
- Pipeline.DetectImage: numbers are exact reals. Float32 truncation of the tensors and IEEE-754 rounding are not modelled.
- Pipeline.DetectImage: a rejection by `session.net.run`, `session.nms.run` or `session.mask.run` is not modelled. `detectImage` would reject with it, but the model's mask step is total and the selection tensor is given, so the model fails only when preprocessing does. The mask step is also assumed to return an overlay of the size it was given: `new ImageData(…, modelHeight, modelWidth)` after the loop (`src/utils/detect.tsx:162`) throws on any other length, and the model does not check it.
- Pipeline.DetectImage: the selection tensor's shape is assumed (`WellFormed`). `data` is assumed to hold `dims[1] * dims[2]` values, and each row, when there is one, to hold 4 box values and one score per class. Nothing in the source checks this; a shorter tensor would give short slices and `undefined` reads, which the model does not follow.
- MaskPixels.CalculateBoundingBox: an alpha index past the end of the data reads as transparent. JavaScript reads `undefined` there, and `undefined > 0` is false.
- App.ChangeImage: a `URL` object is represented by its `href`, and a `File` by the object URL passed in for it. `createObjectURL` and `revokeObjectURL` are recorded, not executed.

## Findings

| source | as written | input that shows it | evidently intended | confidence | as-written member | corrected member |
|---|---|---|---|---|---|---|
| src/utils/detect.js:133 | the colour is expanded through `hexToRgba` looked up on the `Colors` class, where it is an instance field, so the lookup is `undefined` and the call throws a `TypeError` | any run whose selection has at least one row | the module's `colors` instance, as `src/utils/detect.tsx:137` does | high; not executed | Legacy.StaticLoopFails | Legacy.InstanceLoopSorted |
