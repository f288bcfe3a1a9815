# vishti-convertor image pipeline, in Dafny

This project models the browser image converter vishti-convertor. It covers:

- **The stages of `convertAndCompressImage`.** Filters, rotation, flip, crop and resize, then either target-size compression or the image-compression library, then the final format conversion.
- **The target-size search `compressToTargetSize`.** Two quality bisections, a dimension estimate, a five-round ratchet and a last encode.
- **The live preview `generateImagePreview`.**
- **The file helpers of `fileUtils.ts`.**
- **The per-file bookkeeping of the `useImageConverter` hook.**

Images are abstract records: name, MIME type, byte size, width and height. Pixels are never represented. Encoding a canvas (`canvas.toBlob`) is a parameter `enc: Encoder`. It is a deterministic function from the quality argument, the width and the height to a byte count, or to nothing when the browser yields a `null` blob. Qualities and byte targets are `real`, so the bisection midpoints are exact. `Math.round` on non-negative numbers is `Floor(x + 0.5)`. Assigning a length to `canvas.width` drops the fraction.

Modules, one per file:

| file | module | models |
|---|---|---|
| wrappers.dfy | Wrappers | `Option`, `Result` |
| strings.dfy | Strings | ASCII `toLowerCase`, `startsWith`, `endsWith`, `includes`, `join` |
| converter_types.dfy | ConverterTypes | the option types of `src/types/converter.ts`; the encoder; JS truthiness of optional pixel counts |
| image_formats.dfy | ImageFormats | `getMimeType`, `getImageFormat`, the extension rewrite `/\.[^/.]+$/`, `convertImageFormat` |
| filters.dfy | FilterString | `buildFilterString` (both copies are the same text, so it is defined once) |
| transforms.dfy | Transforms | `applyImageFilters`, `rotateImage`, `flipImage`, `cropImage`, `resizeImage`: canvas sizes and where points land |
| target_size.dfy | TargetSize | `compressToTargetSize` |
| pipeline.dfy | Pipeline | `compressImage`'s option merge, `convertAndCompressImage` |
| preview.dfy | Preview | `generateImagePreview` |
| file_utils.dfy | FileUtils | `formatFileSize`, `getFileExtension`, `isImageFile`, `isVideoFile`, `validateImageFile`, `validateVideoFile` |
| converter_state.dfy | ConverterState | class `ImageConverter`: `files`, `convertedFiles`, `progress`, `options` and the hook's state updates |

Imperative code stays imperative:

- Each bisection loop, the ratchet loop, `buildFilterString`'s pushes and the stage-by-stage reassignment of `processedFile` are methods with loops or reassigned locals.
- The preview's `width`/`height` block and its `scaleX`/`scaleY` assignments are methods too.
- Each such method is proved against a specification function or a trace predicate.
- The hook's state is a class whose methods reassign its `seq` and `map` fields.

Some long functions of the source are split into methods so that each proof stays small. The stages and their order are unchanged:

- `convertAndCompressImage` is `ConvertAndCompress`. It calls `RedrawStages`, which runs one method per redraw stage (`FilterStage` to `ResizeStage`), and then `CompressStages`, which runs target-size compression (`TargetStage`) or the library, and then the final conversion.
- In `compressToTargetSize`, one round of a bisection is `Probe`. The first search with its early return is `FirstSearch`, the dimension estimate is `ReducedDims`, the second search with everything after it is `Shrunk`, and the ratchet with the last encode is `LastResort`.
- In the hook's `convertFile`, the pipeline call is `Run`, and the bookkeeping after it is `Finish`, which calls `Complete` on success and `Fail` on failure.
- One round of `convertAll`'s loop is `ConvertNext`, which calls `ConvertFile`.

Some behaviours of the source that the model keeps as written:

- **The library branch is dead.** `convertAndCompressImage` tests `options.quality < 1`, but the quality is 1–100, so that branch never runs. The comment beside it says "less than 100". See `Pipeline.LibraryPlanned`.
- **The pipeline never reaches crop-to-fill.** It never passes `width`/`height` to `resizeImage`. See `Pipeline.ResizePlanned`.
- **A non-positive target disables compression without re-enabling conversion.** When target size is enabled with a size of 0 or less, neither target compression nor the final conversion runs.
- **The dimension estimate always uses the original size.** A search loop returns every under-target file it keeps, so after the first search `bestFile` is always null. The `if (bestFile)` estimate in `compressToTargetSize` is therefore never taken. See `TargetSize.CompressToTargetSize`, whose attempts at the reduced size are drawn at `ReducedSide`, the estimate from the original size.
- **The bisection stops after 8 encodes.** Its width starts at 0.99 and halves on every path, including an encode failure, so the 30-iteration cap is never reached.
- **The preview draws the image at its natural size.** On a canvas the fit made smaller, the preview therefore shows only the middle of the image. See `Preview.PreviewDrawsNaturalSize`.
- **The preview canvas ignores rotation,** unlike `rotateImage`.

## Model

| member | source | states |
|---|---|---|
| ImageFormats.MimeType | src/lib/imageProcessor.ts:711-724 | every format has its own entry, each an `image/` type, so the PNG fallback is never used |
| ImageFormats.GetImageFormat | src/lib/imageProcessor.ts:696-709 | never reports `jpeg`; reports `jpg` whenever the lower-cased type contains `jpeg` |
| ImageFormats.ReplaceExtension | src/lib/imageProcessor.ts:38 | a name with a final dot-extension (no `.` or `/` after the dot) becomes exactly the part before that dot followed by `.ext`; any other name is unchanged |
| ImageFormats.ExtensionOfReplaced | src/lib/imageProcessor.ts:451 | after the rewrite, the extension the expression matches is exactly the new one |
| ImageFormats.ReplaceExtensionTwice | src/lib/imageProcessor.ts:38 | rewriting twice equals rewriting once with the second extension (idempotent) |
| ImageFormats.ReportedAfterRewrite | src/lib/imageProcessor.ts:696-724 | a file written as format f, with its MIME type and rewritten name, is detected as f (JPEG as `jpg`) |
| ImageFormats.QualityTestsDisagree | src/lib/imageProcessor.ts:29 | the two quality-support tests (:29 and :415) disagree exactly on BMP, GIF, TIFF and AVIF |
| ImageFormats.ConvertImageFormat | src/lib/imageProcessor.ts:4-53 | fails with "Failed to convert image" iff the blob is null; otherwise the name is the extension rewrite to f's extension, the file keeps the size, writes f's MIME type and is detected as f |
| FilterString.PartsExact | src/lib/imageProcessor.ts:129-152 | a part is emitted iff the filter set calls for it: colour adjustments whenever set (0 included), blur only when > 0, toggles when true; parts come in the order brightness, contrast, saturate, blur, grayscale, sepia |
| FilterString.TextIsNoneIff | src/lib/imageProcessor.ts:151 | the value is `'none'` iff no part is emitted |
| FilterString.BuildFilterString | src/lib/imagePreview.ts:113-136 | the pushed parts joined by spaces equal the filter value of exactly the emitted parts, and the result is `'none'` iff none is emitted |
| Transforms.ApplyImageFilters | src/lib/imageProcessor.ts:79-127 | the canvas keeps the image's size; encoded at 0.95; fails with "Failed to apply filters" iff the blob is null |
| Transforms.MapPointAppend | src/lib/imageProcessor.ts:176-178 | issuing two groups of context operations composes their maps |
| Transforms.QuarterTurns | src/lib/imageProcessor.ts:170 | a multiple of 90 degrees is a whole number of clockwise quarter turns below 4 |
| Transforms.TurnIsRotation | src/lib/imageProcessor.ts:176-177 | a quarter turn of a point equals the rotation matrix of `ctx.rotate` at that angle |
| Transforms.RotatedPoint | src/lib/imageProcessor.ts:176-178 | after the translate to the centre, the rotation and the draw at minus half the size, a point at (x, y) lands at (h−y, x), (w−x, h−y) or (y, w−x) for one, two or three quarter turns |
| Transforms.RotatedDimsSwap | src/lib/imageProcessor.ts:170-174 | a quarter-turn rotation keeps the sides on an even number of turns and swaps them on an odd one |
| Transforms.RotatedDimsCompose | src/lib/imageProcessor.ts:170-174 | rotating by a then by b gives the canvas size of rotating by a+b |
| Transforms.RotationStaysOnCanvas | src/lib/imageProcessor.ts:176-178 | every point of the image lands on the rotated canvas |
| Transforms.RotateImage | src/lib/imageProcessor.ts:154-201 | the canvas is the rotated size; the file keeps its name and type; fails with "Failed to rotate image" iff the encoder gives no blob at quality 0.95 on the rotated canvas; otherwise the size is that blob's |
| Transforms.FlipOps | src/lib/imageProcessor.ts:221-236 | the operations issued (both vertical branches) map every point to its mirror image across the centre lines the direction names |
| Transforms.MirrorInvolution | src/lib/imageProcessor.ts:221-236 | flipping twice in a direction restores every point |
| Transforms.MirrorStaysOnCanvas | src/lib/imageProcessor.ts:212-213 | a flip maps the unchanged canvas onto itself |
| Transforms.MirrorBoth | src/lib/imageProcessor.ts:221-236 | `both` is the horizontal flip after the vertical one |
| Transforms.FlipImage | src/lib/imageProcessor.ts:203-259 | the canvas keeps the image's size; fails with "Failed to flip image" iff the encoder gives no blob at quality 0.95 on that canvas; otherwise the size is that blob's |
| Transforms.CropImage | src/lib/imageProcessor.ts:261-309 | the output is exactly the crop rectangle's size, whatever the image's; fails with "Failed to crop image" iff the encoder gives no blob at quality 0.95 on that canvas; otherwise the size is that blob's |
| Transforms.CropShowsRect | src/lib/imageProcessor.ts:272-286 | the nine-argument draw `cropImage` issues covers exactly its output canvas, paints canvas point p with image point p plus the rectangle's corner, and so shows exactly the crop rectangle |
| Transforms.CropTwice | src/lib/imageProcessor.ts:261-309 | the two draws paint every canvas point from the same image point as one crop to b shifted by a's corner; the file equality of the two routes holds only because the model's encoder ignores content (see "## Left out") |
| Transforms.Scaled | src/lib/imageProcessor.ts:333-345 | the proportional side `a * num / den` is non-negative and no longer than `a` for a ratio of at most one |
| Transforms.ResizeMeetsWidthLimit | src/lib/imageProcessor.ts:333-338 | an exceeded width limit is met exactly and, with the aspect ratio kept, the shape is unchanged |
| Transforms.ResizeMeetsHeightLimit | src/lib/imageProcessor.ts:339-344 | an exceeded height limit, checked only when the width is not exceeded, is met exactly with the shape kept |
| Transforms.ResizeNeverEnlarges | src/lib/imageProcessor.ts:329-346 | without given dimensions, neither side grows |
| Transforms.ResizeEnforcesFirstLimitOnly | src/lib/imageProcessor.ts:333-344 | only the first exceeded limit is enforced: 4000×3000 with limits 1920×1080 becomes 1920×1440 |
| Transforms.ResizeUsesGivenDims | src/lib/imageProcessor.ts:329-332 | given width and height are taken verbatim |
| Transforms.CoverPlacementCovers | src/lib/imageProcessor.ts:348-366 | crop mode scales by max(tw/w, th/h), so the scaled image covers the target with non-positive centring offsets |
| Transforms.ResizeCanvas | src/lib/imageProcessor.ts:326-370 | the canvas is the given width and height in crop mode, and otherwise the target dimensions with their fractions dropped |
| Transforms.ResizeImage | src/lib/imageProcessor.ts:311-400 | the output is `ResizeCanvas`'s size and keeps name and type; fails with "Failed to resize image" iff the encoder gives no blob at quality 0.9 on that canvas; otherwise the size is that blob's |
| TargetSize.CompressWith | src/lib/imageProcessor.ts:418-459 | a compressed file is renamed to the format's extension, typed with its MIME type and sized `width \|\| img.width` by `height \|\| img.height`; failure is "Failed to compress image" |
| TargetSize.Tolerance | src/lib/imageProcessor.ts:468 | the tolerance is at least 1024 bytes and at least 5% of the target |
| TargetSize.WidthShrinks | src/lib/imageProcessor.ts:471-503 | the bisection width never grows |
| TargetSize.WidthAboveStop | src/lib/imageProcessor.ts:471 | from 0.99, halving keeps the width above 0.005 exactly for the first 8 steps |
| TargetSize.Probe | src/lib/imageProcessor.ts:472-500 | one encode at the interval's midpoint, recorded with the encoder's answer; it resolves a file iff that encode is within tolerance and under target, and the resolved file is that encode's; otherwise an oversized file or a failed encode moves the upper end to the midpoint and an under-target file moves the lower end; the kept file is the largest under-target size seen |
| TargetSize.QualitySearch | src/lib/imageProcessor.ts:461-509 | 1 to 8 encodes at fixed dimensions and qualities in (0.01, 1), starting at 0.505, each next quality half the interval below the last after an oversized or failed encode and above it otherwise; no encode before the last is within tolerance, and with nothing returned none is; a returned file is the last encode's and within tolerance; a kept file is under target, produced by one of the encodes and at least as large as every under-target encode; with neither, no encode was under target; 8 encodes when nothing was returned |
| TargetSize.SearchChosen | src/lib/imageProcessor.ts:479-506 | what a search guarantees of its result makes it the file `Chosen` names: the returned file, or else, after all eight encodes with none within tolerance, the kept largest under-target file |
| TargetSize.ChosenIsDetermined | src/lib/imageProcessor.ts:479-490 | a search resolves at most one file: the file accepted on sight and the closest under-target file exclude each other, and two closest files are equal |
| TargetSize.SearchStep | src/lib/imageProcessor.ts:472-500 | an encode at the midpoint extends the bisection, and the end of the interval its outcome selects becomes its quality |
| TargetSize.ClampScale | src/lib/imageProcessor.ts:536-538 | the scale is clamped into [minScale, 1] and left alone inside it |
| TargetSize.AtLeast50 | src/lib/imageProcessor.ts:539-540 | `Math.max(50, Math.round(x))` is at least 50 and the rounding when that is 50 or more |
| TargetSize.ReducedSideBounds | src/lib/imageProcessor.ts:539-540 | a side of at least 50 scaled by a factor in [0, 1] stays between 50 and its old length |
| TargetSize.RatchetQualityExact | src/lib/imageProcessor.ts:593-608 | the ratchet's k-th quality is 0.1·0.9^k, between 0.01 and 0.1, for its five rounds |
| TargetSize.RatchetRound | src/lib/imageProcessor.ts:596-608 | a round above the target extends the schedule, with both sides shrunk to max(50, round(·×0.8)) and the quality ×0.9 |
| TargetSize.Ratchet | src/lib/imageProcessor.ts:591-612 | at most 5 encodes on the schedule w,h ← max(50, round(·×0.8)), q ← q×0.9, each recorded with the encoder's answer at its quality and sides; every attempt before the last is over target; the first under-target file is returned; an encode error ends the loop, and the sides stay those of the last complete round |
| TargetSize.LastResort | src/lib/imageProcessor.ts:591-620 | 1 to 6 encodes at qualities in [0.01, 1), each recorded with the encoder's answer: ratchet rounds on the schedule, all over target and none failed except possibly the one right before the 0.01 encode, then either one more round on the schedule that fitted or, after five rounds or a failed encode, the 0.01 encode at the sides the last complete round reached; the result is the last encode's file; a result above the target comes only from the final 0.01 encode; the only failure is that encode failing, with "Failed to compress to target size" |
| TargetSize.RatchetHitTrace | src/lib/imageProcessor.ts:591-600 | ratchet rounds on the schedule with the encoder's answers that were over target, ended by one that was not, are a whole last-resort trace |
| TargetSize.RatchetOverTrace | src/lib/imageProcessor.ts:591-620 | five over-target rounds, or over-target rounds ended by a failed encode, all with the encoder's answers, followed by the 0.01 encode at the sides the last complete round reached, are a whole last-resort trace |
| TargetSize.FirstSearch | src/lib/imageProcessor.ts:461-509 | the search at the image's own size resolves the file `Chosen` names (the last encode within tolerance, or else the largest under-target one), or else leaves `bestFile` null after eight attempts none of which fitted |
| TargetSize.ReducedDims | src/lib/imageProcessor.ts:510-540 | both reduced sides are at least 50, and with `bestFile` null they are `ReducedSide` of the original sides, the estimate from the original file's size |
| TargetSize.Shrunk | src/lib/imageProcessor.ts:542-628 | the second search at the reduced size and, only when none of its eight attempts fitted, the last-resort trace from that size; the result is the file that search chose, or else the last encode's; the result and failure guarantees of the whole search |
| TargetSize.CompressToTargetSize | src/lib/imageProcessor.ts:402-630 | at most 22 encodes; only the final 0.01 encode can exceed the target; the only rejection is that encode failing; the attempts are a bisection at the image's own size and, only when none of its eight fitted, a bisection at the sides `ReducedSide` estimates from the original file's size, then, only when none of those fitted, the last-resort trace from that size; the result is the file `Picked` reads off the attempts: the first search's choice, else the second's, else the last encode's |
| TargetSize.PhasesJoin | src/lib/imageProcessor.ts:505-548 | eight unfitting attempts at the own size followed by the reduced-size phases make up the whole search |
| TargetSize.RatchetExhausted | src/lib/imageProcessor.ts:595-612 | after five rounds none of which returned, every round was over target and the sides are those the fifth round's shrink reached |
| TargetSize.SearchesAgree | src/lib/imageProcessor.ts:471-503 | two bisections with the same inputs make the same encode at every step both reach: the first quality is fixed and each next follows from the encoder's answer before it |
| TargetSize.SearchDetermined | src/lib/imageProcessor.ts:471-503 | two bisections with the same inputs that both stopped, after eight encodes or on a file within tolerance, made the same encodes |
| TargetSize.ChosenFits | src/lib/imageProcessor.ts:479-509 | a search that resolves a file stopped and had an encode under target |
| TargetSize.SearchPhaseDetermined | src/lib/imageProcessor.ts:461-509 | two runs of a search phase, each resolved by it or continued after eight attempts none of which fitted, made the same search and both continued or both stopped |
| TargetSize.RoundsAgree | src/lib/imageProcessor.ts:595-608 | two last resorts from the same sides agree on every ratchet round both made |
| TargetSize.LastResortRounds | src/lib/imageProcessor.ts:595-612 | every ratchet round of a last resort was over target, and only the one right before the final encode can have failed |
| TargetSize.LastResortNotShorter | src/lib/imageProcessor.ts:595-620 | a last resort stops at the same round as any other from the same sides, so it is never shorter |
| TargetSize.LastEncodesAgree | src/lib/imageProcessor.ts:595-620 | after the same rounds, two last resorts of equal length end in the same encode: both one more round or both the 0.01 encode |
| TargetSize.LastResortDetermined | src/lib/imageProcessor.ts:591-620 | two last resorts from the same sides and encoder made the same attempts |
| TargetSize.PhaseEnded | src/lib/imageProcessor.ts:542-628 | the search at the reduced size stopped, and when the run ends with it an encode was under target |
| TargetSize.ReducedDetermined | src/lib/imageProcessor.ts:542-628 | two runs of the attempts at the reduced size, each resolved or rejected as reported, made the same attempts |
| TargetSize.FirstPhaseEnded | src/lib/imageProcessor.ts:461-509 | the search at the own size stopped, and when the run ends with it an encode was under target |
| TargetSize.ReducedTail | src/lib/imageProcessor.ts:510-628 | a run that went past the first search holds the reduced-size attempts at `ReducedSide`, and its outcome is theirs |
| TargetSize.AttemptsDetermined | src/lib/imageProcessor.ts:402-630 | two runs on the same image, target, format and encoder made the same attempts |
| TargetSize.ResolvedUnique | src/lib/imageProcessor.ts:479-628 | a run's attempts fix its outcome: at most one file is `Picked`, and a rejection excludes any file |
| TargetSize.CompressionDetermined | src/lib/imageProcessor.ts:402-630 | `compressToTargetSize` is a function of its inputs: two runs make the same attempts and resolve the same file or reject alike |
| Pipeline.MergeDefaults | src/lib/imageProcessor.ts:65-70 | the library gets maxSizeMB 1, maxWidthOrHeight 1920 and useWebWorker true unless the caller overrides them |
| Pipeline.CompressImage | src/lib/imageProcessor.ts:56-77 | the library's file on success, and its message prefixed with "Image compression failed: " on failure |
| Pipeline.PlannedExact | src/lib/imageProcessor.ts:639-683 | a stage runs iff the options call for it, each at most once, in the order filters, rotate, flip, crop, resize, then target or library compression |
| Pipeline.RotateAndFlipPlanned | src/lib/imageProcessor.ts:644-653 | rotation runs iff the angle is set and non-zero; flipping iff the direction is set and not `none` |
| Pipeline.ResizePlanned | src/lib/imageProcessor.ts:659-665 | resizing runs iff a maximum is truthy or a mode is set, and is never in crop-to-fill |
| Pipeline.TargetPlanned | src/lib/imageProcessor.ts:669-674 | target compression runs iff enabled with size > 0, aiming at size×1024 (KB) or size×1024×1024 (MB) bytes in the requested format |
| Pipeline.LibraryPlanned | src/lib/imageProcessor.ts:675-683 | the library runs iff target compression does not and quality < 1, so never for quality 1–100; `maxWidthOrHeight` prefers a truthy `maxWidth` |
| Pipeline.NonPositiveTargetDoesNothing | src/lib/imageProcessor.ts:669 | enabled with a size ≤ 0, target compression does not run |
| Pipeline.EmptyFiltersStillRun | src/lib/imageProcessor.ts:639-642 | an empty filter object still runs the filter stage, with `'none'` |
| Pipeline.FilterStage | src/lib/imageProcessor.ts:639-641 | the stage starts iff filters are given; its result is `ApplyImageFilters` of the file it is given when it starts, and that file unchanged otherwise |
| Pipeline.RotateStage | src/lib/imageProcessor.ts:644-646 | the stage starts iff the angle is set and non-zero; its result is `RotateImage` of the file it is given when it starts, and that file unchanged otherwise |
| Pipeline.FlipStage | src/lib/imageProcessor.ts:649-651 | the stage starts iff the direction is set and not `none`; its result is `FlipImage` of the file it is given when it starts, and that file unchanged otherwise |
| Pipeline.CropStage | src/lib/imageProcessor.ts:654-656 | the stage starts iff a crop is given; its result is `CropImage` of the file it is given when it starts, and that file unchanged otherwise |
| Pipeline.ResizeStage | src/lib/imageProcessor.ts:659-666 | the stage starts iff a maximum is truthy or a mode is set; its result is `ResizeImage` of the file it is given when it starts, and that file unchanged otherwise |
| Pipeline.RedrawStages | src/lib/imageProcessor.ts:636-666 | the result is `Redrawn`: each stage applied to the file the one before produced, the first failure ending it; on success exactly the planned redraw stages ran, in order, keeping name and type; on failure the stages started are a prefix of them |
| Pipeline.FailureStays | src/lib/imageProcessor.ts:636-666 | once a redraw stage fails, the later stages keep that failure as the outcome |
| Pipeline.BeforeResize | src/lib/imageProcessor.ts:639-656 | after filters, rotation, flip and crop the file has the rotated or cropped canvas and the input's name and type, encoded at 0.95 when one of them ran, and is the input itself when none is set |
| Pipeline.RedrawnCanvas | src/lib/imageProcessor.ts:636-666 | after the redraw stages the file has the canvas `PlannedCanvas` computes from the options (rotation turns the sides, a crop takes its size, a resize takes `ResizeCanvas` of that) and the input's name and type; its size is the 0.9 encode of that canvas after a resize and the 0.95 one after any other stage; with no stage planned the file is unchanged |
| Pipeline.TargetStage | src/lib/imageProcessor.ts:669-674 | the result is what `compressToTargetSize` resolves (`Resolved`) on some run of attempts laid out by `Phases`, aiming at the size in bytes, which is the only such result (`TargetCompressedDetermined`); a produced file has the requested format's extension, MIME type and detected format |
| Pipeline.CompressStages | src/lib/imageProcessor.ts:668-692 | the result is `Compressed`, a single result by `OutcomeDetermined`: target compression when it runs, or else the library's result when the quality is below 1, then the final conversion iff target compression is disabled and the detected format differs; the steps taken are the planned later steps, with the conversion only then; with target compression disabled the result is detected as the requested format; enabled at size ≤ 0 at quality ≥ 1, the file is returned unchanged |
| Pipeline.JoinSteps | src/lib/imageProcessor.ts:636-692 | the redraw steps followed by the later ones are the whole plan, with or without the conversion, exactly when the later ones are; prefixes carry over; a library step is among them iff it is among the later ones |
| Pipeline.ConvertAndCompress | src/lib/imageProcessor.ts:632-694 | the result is `Outcome`: a redraw failure, or from the redrawn file what target compression resolves on attempts laid out by `Phases`, or the library's result followed by the final conversion, or the final conversion alone, made iff target compression is disabled and the detected format differs (always for `jpeg`); on success the planned stages ran, then a conversion only with target compression disabled; on failure the stages started are a prefix; with target compression disabled the result is detected as the requested format; when it runs, the result has that format's extension and MIME type; enabled at size ≤ 0 without the library, the input's name and type are kept |
| Pipeline.TargetCompressedDetermined | src/lib/imageProcessor.ts:669-674 | target-size compression of a file has exactly one outcome, so `TargetStage`'s contract fixes its result |
| Pipeline.OutcomeDetermined | src/lib/imageProcessor.ts:632-694 | `Outcome` admits exactly one result for a file, options, encoder and library, so `ConvertAndCompress`, `Run` and `ConvertFile` are pinned to it |
| Preview.FitRatio | src/lib/imagePreview.ts:20-24 | once a limit is exceeded, `Math.min(maxWidth / width, maxHeight / height)` with a missing limit as Infinity is strictly between 0 and 1 |
| Preview.PreviewSize | src/lib/imagePreview.ts:15-33 | the reassigned width and height are the fit size |
| Preview.FitKeepsAspect | src/lib/imagePreview.ts:23-28 | with the aspect kept and a limit exceeded, the preview fits every set limit, meets one exactly, shrinks and keeps the shape |
| Preview.FitLimits | src/lib/imagePreview.ts:20-28 | scaled by the fit ratio, each side stays within its set limit and one side meets its limit exactly |
| Preview.FitShrinks | src/lib/imagePreview.ts:20-28 | scaled by a fit ratio below 1, no side grows and the side that exceeded its limit shrinks |
| Preview.StretchCanEnlarge | src/lib/imagePreview.ts:29-31 | without the aspect, each side with a limit takes it, even one not exceeded: 1000×2000 with limits 1920×1080 becomes 1920×1080 |
| Preview.FitUnchangedWithinLimits | src/lib/imagePreview.ts:19-23 | with no limit set or none exceeded, the canvas is the image's size |
| Preview.PreviewIgnoresRotation | src/lib/imagePreview.ts:35-57 | the canvas size does not depend on the rotation, although `rotateImage` swaps the sides of a quarter turn |
| Preview.FlipScale | src/lib/imagePreview.ts:61-71 | scaleX is −1 iff the flip is horizontal or both, scaleY iff vertical or both, and scale is applied iff the flip is set and not `none` |
| Preview.PreviewFlipIsMirror | src/lib/imagePreview.ts:53-74 | without rotation, on a canvas of the image's size, the preview flip maps points as `flipImage` does |
| Preview.PreviewDrawsNaturalSize | src/lib/imagePreview.ts:53-74 | without rotation or flip, a point moves by half the canvas/image difference, so on a narrower canvas the image's corner is off the canvas |
| Preview.GeneratePreview | src/lib/imagePreview.ts:3-111 | fails with "Failed to get canvas context" iff there is no context; the output is always PNG, sized like the crop rectangle when a crop canvas is made and like the fit canvas otherwise, drawn with the filter value of the filters |
| FileUtils.UnitIndex | src/lib/fileUtils.ts:8 | the index is the power of 1024 the size reaches but does not pass |
| FileUtils.AsWrittenTebibyte | src/lib/fileUtils.ts:7-10 | as written, 1024⁴ bytes get index 4 and the label "1 undefined" |
| FileUtils.FormatFileSizeLabels | src/lib/fileUtils.ts:3-11 | with the index capped, the label is a number ≥ 1 (below 1024 up to MB) in one of the four units, equal to the source's label below 1024⁴ bytes |
| FileUtils.TwoDecimals | src/lib/fileUtils.ts:10 | rounding to two decimals moves the value by at most 0.005 |
| FileUtils.AfterLastDot | src/lib/fileUtils.ts:14 | `split('.').pop()` is the dot-free text after the last dot, or the whole string without a dot |
| FileUtils.GetFileExtension | src/lib/fileUtils.ts:13-15 | the extension has no dot; the lower-cased name ends with `.` plus it, or it is the whole lower-cased name |
| FileUtils.ExtensionMatch | src/lib/fileUtils.ts:13-15 | a lower-cased name ends with `.ext` iff it has a dot and its extension is `ext` |
| FileUtils.ExtensionAfterRewrite | src/lib/fileUtils.ts:13-15 | after the converter's rename, the extension read back is the format's name |
| FileUtils.ImageOrVideo | src/lib/fileUtils.ts:17-23 | no type passes both the `image/` and the `video/` prefix test |
| FileUtils.ValidateImageFile | src/lib/fileUtils.ts:53-66 | valid iff the type is one of the seven listed and the size is at most 50 MiB; the type error takes precedence |
| FileUtils.ImageValidationAgrees | src/lib/fileUtils.ts:53-66 | an accepted file is an image file; the converter's outputs pass except AVIF |
| FileUtils.ValidateVideoFile | src/lib/fileUtils.ts:68-81 | valid iff the type is listed or the name ends in a video extension (any case), and the size is at most 500 MiB; the format error takes precedence |
| FileUtils.VideoNameIsExtension | src/lib/fileUtils.ts:72 | the name test holds iff the name's extension is mp4, webm, avi, mov or mkv |
| ConverterState.Drop | src/hooks/useImageConverter.ts:46 | filtering by id keeps exactly the entries with another id |
| ConverterState.DropAppend | src/hooks/useImageConverter.ts:46 | filtering keeps the order |
| ConverterState.DropAbsent | src/hooks/useImageConverter.ts:54 | filtering out an id nothing has changes nothing |
| ConverterState.DropUnique | src/hooks/useImageConverter.ts:91 | filtering keeps ids unique |
| ConverterState.Entries | src/hooks/useImageConverter.ts:27-34 | one entry per new file, with its id, in order |
| ConverterState.DefaultsPlan | src/hooks/useImageConverter.ts:12-24 | with the starting options a conversion runs the `'none'` filter stage and a resize whose canvas keeps every width and height, and nothing else before the final conversion |
| ConverterState.ImageConverter.constructor | src/hooks/useImageConverter.ts:9-24 | the collections start empty and the options at their defaults |
| ConverterState.ImageConverter.AddFiles | src/hooks/useImageConverter.ts:26-37 | new entries are appended after the existing ones in order; nothing else changes |
| ConverterState.ImageConverter.RemoveFile | src/hooks/useImageConverter.ts:39-62 | the id leaves files, converted files and progress; every other entry stays in order |
| ConverterState.ImageConverter.StartConversion | src/hooks/useImageConverter.ts:67-70 | the file is marked processing at 0 |
| ConverterState.ImageConverter.Run | src/hooks/useImageConverter.ts:73 | the pipeline runs under the hook's current options: its outcome is `Outcome` of the file under those options, with the pipeline's format, name and type guarantees; on success every planned stage ran; a failure happens in a stage that started |
| ConverterState.ImageConverter.Finish | src/hooks/useImageConverter.ts:74-105 | success drops the old converted entry, appends the new one last and completes the progress at 100; failure records error at 0 with the message; other converted entries stay |
| ConverterState.ImageConverter.ConvertFile | src/hooks/useImageConverter.ts:64-108 | the outcome is `Outcome` of the file under the hook's options; on success the old converted entry is dropped, the new one goes last and progress is completed at 100; on failure converted files stay and progress is error at 0 with the message; unique ids and completed-has-entry are preserved |
| ConverterState.ImageConverter.ConvertNext | src/hooks/useImageConverter.ts:111-113 | one round converts the entry: it settles, and no other id's progress or converted entry moves |
| ConverterState.ImageConverter.ConvertAll | src/hooks/useImageConverter.ts:110-114 | files are converted one at a time, and the ids in the order converted are those of the list in order; afterwards each is settled (completed with an entry, or error) and other ids keep their state |
| ConverterState.ImageConverter.ClearAll | src/hooks/useImageConverter.ts:150-163 | files, converted files and progress are emptied |

## Left out

- Reading files and decoding images (`FileReader`, `Image`) is not modelled, nor are their errors "Failed to read file" and "Failed to load image". An image arrives as its width and height.
- A missing canvas context ("Failed to get canvas context") is not modelled in `imageProcessor.ts`. There the only failure of a canvas stage is a null blob. The preview does model both of its contexts.
- Pixels, canvas drawing, image smoothing and the codecs are not modelled. One deterministic encoder stands for every `toBlob`, so the size of a redrawn image depends only on quality and dimensions, not on its content.
- Transforms.CropTwice: its file equality holds only for the content-blind encoder. The program encodes the first crop at 0.95 and then re-encodes it, and with a lossy format that is not the file one crop gives. Only the composition of the two draws is a fact about the program.
- Rotation is modelled for quarter turns only, because other angles need floating-point trigonometry. That applies to each of the following members:
  - Transforms.RotateImage: requires an angle that is a multiple of 90.
  - Pipeline.FilterStage, Pipeline.RotateStage, Pipeline.FlipStage, Pipeline.CropStage and Pipeline.ResizeStage: require a multiple of 90 when a rotation is set, since their results are stated through `StageResult`.
  - Pipeline.RedrawStages: requires a multiple of 90 when a rotation is set.
  - Pipeline.ConvertAndCompress: requires a multiple of 90 when a rotation is set.
  - Preview.GeneratePreview: requires a multiple of 90 when a rotation is set.
  - ConverterState.ImageConverter.Run: requires the options' rotation to be a multiple of 90.
  - ConverterState.ImageConverter.ConvertFile: requires the options' rotation to be a multiple of 90.
  - ConverterState.ImageConverter.ConvertNext: requires the options' rotation to be a multiple of 90.
  - ConverterState.ImageConverter.ConvertAll: requires the options' rotation to be a multiple of 90.
- Floating point is replaced by exact reals. The model does not capture:
  - the rounding of qualities, ratios and `Math.log` (the unit index is the exact floor of the logarithm);
  - JavaScript's number-to-text conversion, which is a parameter `show`;
  - `Math.sqrt` in the dimension estimate, which is a parameter `sqrt`; only its clamped use matters.
- `browser-image-compression` is a parameter `library`. The model covers only the option merge around it.
- Object URLs are not modelled: `createObjectURL`, `revokePreviewUrl`, download URLs, `downloadFile` and `downloadConverted`. Neither are toasts, the `Date.now`/`Math.random` ids (passed in instead), `createFileMetadata`, or the debounced preview effect of the hook.
- Promises and `await` are not modelled; the model is sequential. While `convertAll` runs, no other update interleaves, so its file list is fixed.
- ConverterState.ImageConverter.ConvertFile: the `'Conversion failed'` message for a thrown non-`Error` is not modelled, because every failure in the model carries a message.
- The sizes in the options are natural numbers: `maxWidth`, `maxHeight` and the crop rectangle's width and height. The settings form passes `Number(...)` of a text field (src/components/ConversionSettings.tsx:158-170), so negative or fractional values can reach `resizeImage` and `cropImage`. The model does not capture what a canvas does with them.
- `toLowerCase` is modelled for ASCII letters only. JavaScript lower-cases all of Unicode, so a name or MIME type with other upper-case letters can differ in the model.
- ConverterState.ConvertedEntry keeps the format as a format value rather than a string, and drops the download URL.

## Findings

| source | as written | input that shows it | evidently intended | confidence | as-written member | corrected member |
|---|---|---|---|---|---|---|
| src/lib/fileUtils.ts:7-10 | the unit index `Math.floor(Math.log(bytes) / Math.log(1024))` is not bounded by the four-entry `sizes` array | 1024⁴ bytes (1 TiB): index 4, label "1 undefined" | cap the unit at GB, giving "1024 GB" | medium; not executed | FileUtils.AsWrittenTebibyte | FileUtils.FormatFileSizeLabels |
