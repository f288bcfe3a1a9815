/** `compressToTargetSize` (src/lib/imageProcessor.ts:402-630): a quality
    binary search at the image's own size, one reduction of the dimensions
    followed by a second binary search, a five-round ratchet of smaller
    dimensions and qualities, and a last encode at quality 0.01. */
module TargetSize {
  import opened Wrappers
  import opened ConverterTypes
  import opened ImageFormats

  /** One call of `compressWithSettings`: the quality asked for, the canvas
      drawn, and the blob size, absent when `toBlob` gave `null`. */
  datatype Attempt = Attempt(quality: real, width: nat, height: nat, size: Option<nat>)

  /** `compressWithSettings(quality, width, height)`: the canvas takes the
      given dimensions when they are truthy and the image's own otherwise;
      the quality reaches the encoder only for formats that take one; the
      file is renamed to the target format. */
  function CompressWith(img: ImageFile, format: ImageFormat, quality: real,
                        width: Option<nat>, height: Option<nat>, enc: Encoder): (r: Result<ImageFile>)
    ensures r.Ok? ==> r.value.name == ReplaceExtension(img.name, FormatName(format)) && r.value.mime == MimeType(format)
    ensures r.Ok? ==> r.value.width == (if Truthy(width) then width.value else img.width)
    ensures r.Ok? ==> r.value.height == (if Truthy(height) then height.value else img.height)
    ensures r.Err? ==> r.error == "Failed to compress image"
  {
    var w := if Truthy(width) then width.value else img.width;
    var h := if Truthy(height) then height.value else img.height;
    match enc(QualityArg(format, quality), w, h)
    case None => Err("Failed to compress image")
    case Some(size) => Ok(ImageFile(ReplaceExtension(img.name, FormatName(format)), MimeType(format), size, w, h))
  }

  /** The quality argument `toBlob` gets: only formats that take one see it. */
  function QualityArg(format: ImageFormat, quality: real): Option<real> {
    if TargetUsesQuality(format) then Some(quality) else None
  }

  /** Every attempt in `trace` records what the encoder gives for its
      quality and canvas. */
  predicate Encoded(trace: seq<Attempt>, format: ImageFormat, enc: Encoder) {
    forall i :: 0 <= i < |trace| ==> trace[i].size == enc(QualityArg(format, trace[i].quality), trace[i].width, trace[i].height)
  }

  /** An attempt that records the encoder's answer extends an encoded trace. */
  lemma EncodedAppend(trace: seq<Attempt>, a: Attempt, format: ImageFormat, enc: Encoder)
    requires Encoded(trace, format, enc)
    requires a.size == enc(QualityArg(format, a.quality), a.width, a.height)
    ensures Encoded(trace + [a], format, enc)
  {
    var t := trace + [a];
    forall i | 0 <= i < |t| ensures t[i].size == enc(QualityArg(format, t[i].quality), t[i].width, t[i].height) {
      if i < |trace| {
        assert t[i] == trace[i];
      }
    }
  }

  /** The attempt gave no file, or one above the target. */
  predicate Over(a: Attempt, target: real) {
    a.size.None? || a.size.value as real > target
  }

  /** The record of a `compressWithSettings` call and its outcome. */
  function Record(quality: real, r: Result<ImageFile>, img: ImageFile, width: Option<nat>, height: Option<nat>): Attempt {
    Attempt(quality,
            if Truthy(width) then width.value else img.width,
            if Truthy(height) then height.value else img.height,
            if r.Ok? then Some(r.value.size) else None)
  }

  /** `f` is the file attempt `a` produced. */
  predicate Produced(img: ImageFile, format: ImageFormat, a: Attempt, f: ImageFile) {
    a.size == Some(f.size) && f.width == a.width && f.height == a.height &&
    f.name == ReplaceExtension(img.name, FormatName(format)) && f.mime == MimeType(format)
  }

  /** `Math.max(targetSizeBytes * 0.05, 1024)`. */
  function Tolerance(target: real): (t: real)
    ensures t >= 1024.0 && t >= target * 0.05
  {
    if target * 0.05 >= 1024.0 then target * 0.05 else 1024.0
  }

  /** A size the search accepts on sight: not above the target and within
      the tolerance of it. */
  predicate CloseEnough(size: nat, target: real) {
    size as real <= target && target - size as real <= Tolerance(target)
  }

  /** The attempt gave a file the search accepts on sight. */
  predicate Hit(a: Attempt, target: real) {
    a.size.Some? && CloseEnough(a.size.value, target)
  }

  /** No attempt in `trace` gave a file the search accepts on sight. */
  predicate Misses(trace: seq<Attempt>, target: real) {
    forall i :: 0 <= i < |trace| ==> !Hit(trace[i], target)
  }

  // ---------------------------------------------------------------------
  // The quality binary search

  /** Width of the quality interval after `k` halvings of [0.01, 1.0]. */
  function Width(k: nat): (w: real)
    ensures w > 0.0
  {
    if k == 0 then 0.99 else Width(k - 1) / 2.0
  }

  lemma {:induction false} WidthShrinks(j: nat, k: nat)
    requires j <= k
    ensures Width(k) <= Width(j)
    decreases k - j
  {
    if j < k {
      WidthShrinks(j, k - 1);
    }
  }

  /** The interval is wider than 0.005 for the first eight iterations and
      not after that, so the 30-iteration cap is never what stops a search. */
  lemma WidthAboveStop(k: nat)
    ensures Width(k) > 0.005 <==> k < 8
  {
    assert Width(7) > 0.005 && Width(8) <= 0.005;
    if k < 8 {
      WidthShrinks(k, 7);
    } else {
      WidthShrinks(8, k);
    }
  }

  /** `sizeDiff < bestDiff`, where an absent best difference is `Infinity`. */
  predicate Improves(diff: real, bestDiff: Option<real>) {
    bestDiff.None? || diff < bestDiff.value
  }

  /** One binary search over the quality at fixed canvas dimensions
      (imageProcessor.ts:462-503, and again at :549-581). `hit` is a file
      resolved from inside the loop; `best` is `bestFile` when the loop ends
      without one. An encode that fails lowers the upper bound like an
      oversized one, so every path halves the interval and the loop runs
      exactly eight times unless it hits. `best` is only ever an under-target
      file, and no under-target attempt came closer to the target. */
  method QualitySearch(img: ImageFile, format: ImageFormat, target: real,
                       width: Option<nat>, height: Option<nat>, enc: Encoder)
    returns (hit: Option<ImageFile>, best: Option<ImageFile>, trace: seq<Attempt>)
    ensures 1 <= |trace| <= 8
    ensures hit.None? ==> |trace| == 8
    ensures SearchTrace(trace, img, target, format, width, height, enc)
    ensures hit.Some? ==> CloseEnough(hit.value.size, target) && Produced(img, format, trace[|trace| - 1], hit.value)
    ensures hit.Some? ==> best.None?
    ensures best.Some? ==> best.value.size as real <= target
    ensures best.Some? ==> exists i :: 0 <= i < |trace| && Produced(img, format, trace[i], best.value)
    ensures best.Some? ==> forall i :: 0 <= i < |trace| && trace[i].size.Some? && trace[i].size.value as real <= target ==>
      trace[i].size.value <= best.value.size
    ensures hit.None? && best.None? ==> NoneFits(trace, target)
    ensures hit.None? ==> Misses(trace, target)
  {
    var minQ := 0.01;
    var maxQ := 1.0;
    var bestFile: Option<ImageFile> := None;
    var bestDiff: Option<real> := None;
    ghost var bestAt: nat := 0;
    var iterations: nat := 0;
    var tolerance := Tolerance(target);
    trace := [];
    while iterations < 30 && maxQ - minQ > 0.005
      invariant iterations <= 8 && |trace| == iterations
      invariant maxQ - minQ == Width(iterations)
      invariant 0.01 <= minQ && maxQ <= 1.0
      invariant Searching(trace, img, target, format, width, height, enc, minQ, maxQ)
      invariant BestSoFar(target, bestFile, bestDiff) && Kept(trace, img, format, target, bestFile, bestAt)
      decreases 30 - iterations
    {
      WidthAboveStop(iterations);
      var found, a, newMin, newMax, improved;
      ghost var oldBest := bestFile;
      found, a, newMin, newMax, bestFile, bestDiff, improved :=
        Probe(img, format, target, tolerance, width, height, enc, minQ, maxQ, bestFile, bestDiff);
      SearchStep(trace, a, img, target, format, width, height, enc, minQ, maxQ, newMin, newMax, found.None?);
      if found.Some? {
        trace := trace + [a];
        hit := found;
        best := None;
        return;
      }
      ghost var newAt := if improved then |trace| else bestAt;
      KeptStep(trace, a, img, format, target, oldBest, bestFile, bestAt, newAt, improved);
      trace := trace + [a];
      minQ, maxQ, bestAt := newMin, newMax, newAt;
      iterations := iterations + 1;
    }
    WidthAboveStop(iterations);
    KeptBest(trace, img, format, target, bestFile, bestAt);
    hit := None;
    best := bestFile;
  }

  /** The qualities of a search in the order asked for: the middle of
      [0.01, 1.0] first, then each one half the current interval's width
      below the one before after an attempt over the target, and above it
      otherwise. */
  predicate Bisects(trace: seq<Attempt>, target: real) {
    (|trace| > 0 ==> trace[0].quality == 0.505) &&
    forall i :: 0 <= i < |trace| - 1 ==>
      trace[i + 1].quality == trace[i].quality + (if Over(trace[i], target) then -Width(i + 1) / 2.0 else Width(i + 1) / 2.0)
  }

  /** The attempts of a search: qualities strictly inside [0.01, 1.0], the
      canvas `compressWithSettings` picks for `width` and `height`, sizes
      from the encoder, qualities that follow the bisection, and no attempt
      accepted on sight before the last, since such an attempt ends the
      search. */
  predicate SearchTrace(trace: seq<Attempt>, img: ImageFile, target: real, format: ImageFormat,
                        width: Option<nat>, height: Option<nat>, enc: Encoder) {
    (forall i :: 0 <= i < |trace| ==> 0.01 < trace[i].quality < 1.0) &&
    (forall i :: 0 <= i < |trace| ==> trace[i].width == (if Truthy(width) then width.value else img.width)) &&
    (forall i :: 0 <= i < |trace| ==> trace[i].height == (if Truthy(height) then height.value else img.height)) &&
    Encoded(trace, format, enc) && Bisects(trace, target) &&
    (forall i :: 0 <= i < |trace| - 1 ==> !Hit(trace[i], target))
  }

  /** The search after the attempts in `trace` with the interval
      [`minQ`, `maxQ`]: the attempts so far, and the last one is the end of
      the interval it moved. */
  predicate Searching(trace: seq<Attempt>, img: ImageFile, target: real, format: ImageFormat,
                      width: Option<nat>, height: Option<nat>, enc: Encoder, minQ: real, maxQ: real) {
    SearchTrace(trace, img, target, format, width, height, enc) && Misses(trace, target) &&
    (|trace| == 0 ==> minQ == 0.01 && maxQ == 1.0) &&
    (|trace| > 0 ==> (if Over(trace[|trace| - 1], target) then maxQ else minQ) == trace[|trace| - 1].quality)
  }

  /** An attempt at the middle of the interval extends the search; when it
      does not resolve it, the end of the interval its outcome selects moves
      to it. */
  lemma SearchStep(trace: seq<Attempt>, a: Attempt, img: ImageFile, target: real, format: ImageFormat,
                   width: Option<nat>, height: Option<nat>, enc: Encoder,
                   minQ: real, maxQ: real, newMin: real, newMax: real, moved: bool)
    requires Searching(trace, img, target, format, width, height, enc, minQ, maxQ)
    requires maxQ - minQ == Width(|trace|) && 0.01 <= minQ && maxQ <= 1.0
    requires a.quality == (minQ + maxQ) / 2.0 && a.size == enc(QualityArg(format, a.quality), a.width, a.height)
    requires a.width == (if Truthy(width) then width.value else img.width)
    requires a.height == (if Truthy(height) then height.value else img.height)
    requires moved && Over(a, target) ==> newMin == minQ && newMax == a.quality
    requires moved && !Over(a, target) ==> newMin == a.quality && newMax == maxQ
    requires moved ==> !Hit(a, target)
    ensures SearchTrace(trace + [a], img, target, format, width, height, enc)
    ensures moved ==> Searching(trace + [a], img, target, format, width, height, enc, newMin, newMax)
  {
    var t := trace + [a];
    forall i | 0 <= i < |t| - 1
      ensures t[i + 1].quality == t[i].quality + (if Over(t[i], target) then -Width(i + 1) / 2.0 else Width(i + 1) / 2.0)
      ensures !Hit(t[i], target)
    {
      assert t[i] == trace[i];
      if i + 1 < |trace| {
        assert t[i + 1] == trace[i + 1];
      }
    }
    forall i | 0 <= i < |t|
      ensures t[i].size == enc(QualityArg(format, t[i].quality), t[i].width, t[i].height)
      ensures 0.01 < t[i].quality < 1.0
      ensures t[i].width == (if Truthy(width) then width.value else img.width)
      ensures t[i].height == (if Truthy(height) then height.value else img.height)
    {
      if i < |trace| {
        assert t[i] == trace[i];
      }
    }
  }

  /** `bestFile` was produced by attempt `bestAt`, and no under-target
      attempt in `trace` gave a larger file. */
  predicate Kept(trace: seq<Attempt>, img: ImageFile, format: ImageFormat, target: real, bestFile: Option<ImageFile>, bestAt: nat) {
    (bestFile.Some? ==> bestAt < |trace| && Produced(img, format, trace[bestAt], bestFile.value)) &&
    forall i :: 0 <= i < |trace| && trace[i].size.Some? && trace[i].size.value as real <= target ==>
      bestFile.Some? && trace[i].size.value <= bestFile.value.size
  }

  /** What `Kept` says of a search's result: the kept file was produced by
      one of the attempts and is the largest under-target one, and without
      a kept file no attempt fitted. */
  lemma KeptBest(trace: seq<Attempt>, img: ImageFile, format: ImageFormat, target: real, best: Option<ImageFile>, bestAt: nat)
    requires Kept(trace, img, format, target, best, bestAt)
    ensures best.Some? ==> exists i :: 0 <= i < |trace| && Produced(img, format, trace[i], best.value)
    ensures best.Some? ==> forall i :: 0 <= i < |trace| && trace[i].size.Some? && trace[i].size.value as real <= target ==>
      trace[i].size.value <= best.value.size
    ensures best.None? ==> NoneFits(trace, target)
  {
  }

  /** `f` was produced by one of the attempts in `trace`, is not above the
      target, and no attempt that fitted gave a larger file: it is the
      closest to the target from below. */
  predicate Largest(trace: seq<Attempt>, img: ImageFile, format: ImageFormat, target: real, f: ImageFile) {
    f.size as real <= target &&
    (exists i :: 0 <= i < |trace| && Produced(img, format, trace[i], f)) &&
    forall i :: 0 <= i < |trace| && !Over(trace[i], target) ==> trace[i].size.value <= f.size
  }

  /** What a search resolves (imageProcessor.ts:479-490, 506-509): the file
      of its last attempt when that one was accepted on sight, or else, when
      all eight attempts ran and none was accepted on sight, the closest
      under-target file. */
  predicate Chosen(trace: seq<Attempt>, img: ImageFile, format: ImageFormat, target: real, f: ImageFile) {
    |trace| > 0 &&
    ((Hit(trace[|trace| - 1], target) && Produced(img, format, trace[|trace| - 1], f)) ||
     (|trace| == 8 && Misses(trace, target) && Largest(trace, img, format, target, f)))
  }

  /** What a search's contract says of its result is what `Chosen` names:
      the hit it returned, or else the file it kept. */
  lemma SearchChosen(trace: seq<Attempt>, img: ImageFile, format: ImageFormat, target: real,
                     hit: Option<ImageFile>, best: Option<ImageFile>)
    requires |trace| > 0
    requires hit.Some? ==> CloseEnough(hit.value.size, target) && Produced(img, format, trace[|trace| - 1], hit.value)
    requires hit.None? ==> |trace| == 8 && Misses(trace, target)
    requires best.Some? ==> best.value.size as real <= target
    requires best.Some? ==> exists i :: 0 <= i < |trace| && Produced(img, format, trace[i], best.value)
    requires best.Some? ==> forall i :: 0 <= i < |trace| && trace[i].size.Some? && trace[i].size.value as real <= target ==>
      trace[i].size.value <= best.value.size
    ensures hit.Some? ==> Chosen(trace, img, format, target, hit.value)
    ensures hit.None? && best.Some? ==> Chosen(trace, img, format, target, best.value)
  {
  }

  /** A search resolves at most one file: the two ways of choosing exclude
      each other, and two closest files are the same file, since every
      attempt of a search draws the same canvas and renames the same way. */
  lemma ChosenIsDetermined(trace: seq<Attempt>, img: ImageFile, target: real, format: ImageFormat,
                           width: Option<nat>, height: Option<nat>, enc: Encoder, f: ImageFile, g: ImageFile)
    requires SearchTrace(trace, img, target, format, width, height, enc)
    requires Chosen(trace, img, format, target, f) && Chosen(trace, img, format, target, g)
    ensures f == g
  {
    ChosenOnOneCanvas(trace, img, format, target, if Truthy(width) then width.value else img.width,
                      if Truthy(height) then height.value else img.height, f, g);
  }

  lemma ChosenOnOneCanvas(trace: seq<Attempt>, img: ImageFile, format: ImageFormat, target: real, w: nat, h: nat,
                          f: ImageFile, g: ImageFile)
    requires forall i :: 0 <= i < |trace| ==> trace[i].width == w && trace[i].height == h
    requires Chosen(trace, img, format, target, f) && Chosen(trace, img, format, target, g)
    ensures f == g
  {
    if Hit(trace[|trace| - 1], target) {
      assert !Misses(trace, target);
    } else {
      var i :| 0 <= i < |trace| && Produced(img, format, trace[i], f);
      var j :| 0 <= j < |trace| && Produced(img, format, trace[j], g);
      assert trace[i].size.value <= g.size && trace[j].size.value <= f.size;
    }
  }

  /** An attempt that did not resolve the search keeps `Kept`, with the
      file it produced when it improved on the best. */
  lemma KeptStep(trace: seq<Attempt>, a: Attempt, img: ImageFile, format: ImageFormat, target: real,
                 best: Option<ImageFile>, newBest: Option<ImageFile>, bestAt: nat, newAt: nat, improved: bool)
    requires Kept(trace, img, format, target, best, bestAt)
    requires improved ==> newAt == |trace| && newBest.Some? && Produced(img, format, a, newBest.value)
    requires !improved ==> newBest == best && newAt == bestAt
    requires best.Some? ==> newBest.Some? && best.value.size <= newBest.value.size
    requires a.size.Some? && a.size.value as real <= target ==> newBest.Some? && a.size.value <= newBest.value.size
    ensures Kept(trace + [a], img, format, target, newBest, newAt)
  {
    var t := trace + [a];
    if improved {
      assert t[newAt] == a;
    } else if newBest.Some? {
      assert t[newAt] == trace[bestAt];
    }
    forall i | 0 <= i < |t| && t[i].size.Some? && t[i].size.value as real <= target
      ensures newBest.Some? && t[i].size.value <= newBest.value.size
    {
      if i < |trace| {
        assert t[i] == trace[i];
      }
    }
  }

  /** `bestFile` and `bestDiff` agree: both absent, or an under-target file
      and its distance to the target. */
  predicate BestSoFar(target: real, bestFile: Option<ImageFile>, bestDiff: Option<real>) {
    (bestFile.Some? <==> bestDiff.Some?) &&
    (bestFile.Some? ==> bestFile.value.size as real <= target && bestDiff.value == target - bestFile.value.size as real)
  }

  /** One round of the quality search (imageProcessor.ts:463-500): encode at
      the middle of the interval; resolve an under-target file within the
      tolerance; otherwise keep the closest under-target file so far and
      halve the interval, towards lower qualities after an oversized file or
      a failed encode, towards higher ones after an undersized file. */
  method Probe(img: ImageFile, format: ImageFormat, target: real, tolerance: real,
               width: Option<nat>, height: Option<nat>, enc: Encoder,
               minQ: real, maxQ: real, bestFile: Option<ImageFile>, bestDiff: Option<real>)
    returns (hit: Option<ImageFile>, a: Attempt, newMin: real, newMax: real,
             newBest: Option<ImageFile>, newDiff: Option<real>, improved: bool)
    requires tolerance == Tolerance(target) && BestSoFar(target, bestFile, bestDiff)
    ensures a.quality == (minQ + maxQ) / 2.0
    ensures a.width == (if Truthy(width) then width.value else img.width)
    ensures a.height == (if Truthy(height) then height.value else img.height)
    ensures hit.Some? ==> CloseEnough(hit.value.size, target) && Produced(img, format, a, hit.value)
    ensures hit.Some? <==> Hit(a, target)
    ensures a.size == enc(QualityArg(format, a.quality), a.width, a.height)
    ensures hit.None? && Over(a, target) ==> newMin == minQ && newMax == a.quality
    ensures hit.None? && !Over(a, target) ==> newMin == a.quality && newMax == maxQ
    ensures BestSoFar(target, newBest, newDiff)
    ensures improved ==> newBest.Some? && Produced(img, format, a, newBest.value)
    ensures !improved ==> newBest == bestFile
    ensures bestFile.Some? ==> newBest.Some? && bestFile.value.size <= newBest.value.size
    ensures hit.None? && a.size.Some? && a.size.value as real <= target ==> newBest.Some? && a.size.value <= newBest.value.size
  {
    newMin, newMax, newBest, newDiff, improved := minQ, maxQ, bestFile, bestDiff, false;
    var testQuality := (minQ + maxQ) / 2.0;
    var test := CompressWith(img, format, testQuality, width, height, enc);
    a := Record(testQuality, test, img, width, height);
    hit := None;
    match test {
      case Err(_) =>
        newMax := testQuality;
      case Ok(testFile) =>
        var sizeDiff := if testFile.size as real >= target then testFile.size as real - target else target - testFile.size as real;
        if testFile.size as real <= target && sizeDiff <= tolerance {
          hit := Some(testFile);
          return;
        }
        if testFile.size as real <= target {
          if Improves(sizeDiff, bestDiff) {
            newBest := Some(testFile);
            newDiff := Some(sizeDiff);
            improved := true;
          }
        }
        if testFile.size as real > target {
          newMax := testQuality;
        } else {
          newMin := testQuality;
        }
    }
  }

  // ---------------------------------------------------------------------
  // The dimension estimate between the two searches

  /** `scaleFactor` before clamping (imageProcessor.ts:512-534). The first
      branch, for a `bestFile` left over from the first search, is as
      written; `CompressToTargetSize` only ever reaches this point with
      `bestFile` null. `sqrt` stands for `Math.sqrt`. */
  function ScaleEstimate(best: Option<ImageFile>, originalSize: nat, target: real, sqrt: real -> real): real
    requires target > 0.0
  {
    if best.Some? then
      (if best.value.size as real > target then sqrt(target / best.value.size as real) * 0.85 else 0.95)
    else if originalSize as real > target then sqrt(target / originalSize as real) * 0.7
    else 0.9
  }

  /** `minScale`: 5% for targets under 100 KiB, 10% otherwise. */
  function MinScale(target: real): real {
    if target < 100.0 * 1024.0 then 0.05 else 0.1
  }

  /** `Math.max(minScale, Math.min(1.0, scaleFactor))`. */
  function ClampScale(s: real, target: real): (c: real)
    ensures MinScale(target) <= c <= 1.0
    ensures MinScale(target) <= s <= 1.0 ==> c == s
  {
    var m := if s <= 1.0 then s else 1.0;
    if MinScale(target) >= m then MinScale(target) else m
  }

  /** `Math.max(50, Math.round(n * factor))`. */
  function AtLeast50(x: real): (n: nat)
    ensures n >= 50
    ensures Round(x) >= 50 ==> n == Round(x)
  {
    var r := Round(x);
    if r >= 50 then r else 50
  }

  /** The reduced side never drops below 50 pixels and, when the image is
      larger than that, never exceeds the original side. */
  lemma ReducedSideBounds(n: nat, scale: real)
    requires 0.0 <= scale <= 1.0 && n >= 50
    ensures 50 <= AtLeast50(n as real * scale) <= n
  {
    assert n as real * scale <= n as real * 1.0;
  }

  // ---------------------------------------------------------------------
  // The ratchet

  /** `finalQuality` at the start of round `k` of the ratchet. */
  function RatchetQuality(k: nat): real {
    if k == 0 then 0.1
    else if RatchetQuality(k - 1) * 0.9 >= 0.01 then RatchetQuality(k - 1) * 0.9 else 0.01
  }

  function Pow(b: real, k: nat): (r: real)
    ensures b > 0.0 ==> r > 0.0
  {
    if k == 0 then 1.0 else b * Pow(b, k - 1)
  }

  /** Within the five rounds the 0.01 floor never bites: round `k` asks for
      exactly 0.1·0.9^k, and every round's quality lies in [0.01, 0.1]. */
  lemma {:induction false} RatchetQualityExact(k: nat)
    requires k <= 5
    ensures RatchetQuality(k) == 0.1 * Pow(0.9, k)
    ensures 0.01 <= RatchetQuality(k) <= 0.1
  {
    PowShrinks(0, k);
    if k > 0 {
      RatchetQualityExact(k - 1);
      PowShrinks(k - 1, 4);
      assert Pow(0.9, 4) == 0.6561;
    } else {
      assert Pow(0.9, 0) == 1.0;
    }
  }

  lemma {:induction false} PowShrinks(j: nat, k: nat)
    requires j <= k
    ensures Pow(0.9, k) <= Pow(0.9, j)
    decreases k - j
  {
    if j < k {
      PowShrinks(j, k - 1);
      assert Pow(0.9, k) == 0.9 * Pow(0.9, k - 1);
    }
  }

  /** `n` after `k` rounds of `Math.max(50, Math.round(n * 0.8))`. */
  function ShrinkN(n: nat, k: nat): nat {
    if k == 0 then n else AtLeast50(ShrinkN(n, k - 1) as real * 0.8)
  }

  /** The rounds of a ratchet trace that ran to the end: all of them but a
      last one whose encode failed. */
  function Rounds(trace: seq<Attempt>): nat {
    if |trace| > 0 && trace[|trace| - 1].size.None? then |trace| - 1 else |trace|
  }

  /** Round `k` of the ratchet asks for `RatchetQuality(k)` at the
      dimensions shrunk `k` times. */
  predicate RatchetSchedule(trace: seq<Attempt>, w0: nat, h0: nat) {
    forall k :: 0 <= k < |trace| ==>
      trace[k].quality == RatchetQuality(k) && trace[k].width == ShrinkN(w0, k) && trace[k].height == ShrinkN(h0, k)
  }

  /** Every encode in `trace` gave a blob above the target. */
  predicate AllOver(trace: seq<Attempt>, target: real) {
    forall k :: 0 <= k < |trace| ==> trace[k].size.Some? && trace[k].size.value as real > target
  }

  /** The state of the ratchet after the rounds in `trace`, all of them
      above the target: the dimensions shrunk and the quality lowered once
      per round. */
  predicate RatchetInvariant(trace: seq<Attempt>, w0: nat, h0: nat, target: real, w: nat, h: nat, quality: real,
                             format: ImageFormat, enc: Encoder) {
    |trace| <= 5 &&
    w == ShrinkN(w0, |trace|) && h == ShrinkN(h0, |trace|) && w >= 50 && h >= 50 &&
    quality == RatchetQuality(|trace|) &&
    RatchetSchedule(trace, w0, h0) && AllOver(trace, target) && Encoded(trace, format, enc)
  }

  /** The attempt of the round after `trace`. */
  predicate NextRound(trace: seq<Attempt>, w0: nat, h0: nat, a: Attempt) {
    a.quality == RatchetQuality(|trace|) && a.width == ShrinkN(w0, |trace|) && a.height == ShrinkN(h0, |trace|)
  }

  /** A round whose blob is still above the target keeps the invariant, with
      the dimensions and the quality of the next round. */
  lemma RatchetRound(trace: seq<Attempt>, w0: nat, h0: nat, target: real, w: nat, h: nat, quality: real, a: Attempt,
                     format: ImageFormat, enc: Encoder)
    requires RatchetInvariant(trace, w0, h0, target, w, h, quality, format, enc) && |trace| < 5
    requires a.quality == quality && a.width == w && a.height == h
    requires a.size == enc(QualityArg(format, a.quality), a.width, a.height)
    requires a.size.Some? && a.size.value as real > target
    ensures RatchetInvariant(trace + [a], w0, h0, target, AtLeast50(w as real * 0.8), AtLeast50(h as real * 0.8),
                             if quality * 0.9 >= 0.01 then quality * 0.9 else 0.01, format, enc)
  {
    var t := trace + [a];
    EncodedAppend(trace, a, format, enc);
    forall k | 0 <= k < |t|
      ensures t[k].quality == RatchetQuality(k) && t[k].width == ShrinkN(w0, k) && t[k].height == ShrinkN(h0, k)
    {
      if k < |trace| {
        assert t[k] == trace[k];
      }
    }
    forall k | 0 <= k < |t| ensures t[k].size.Some? && t[k].size.value as real > target {
      if k < |trace| {
        assert t[k] == trace[k];
      }
    }
  }

  /** The round after `trace` failed: the rounds that ran to the end are
      those of `trace`. */
  lemma RatchetFailed(trace: seq<Attempt>, w0: nat, h0: nat, target: real, w: nat, h: nat, quality: real, a: Attempt,
                      format: ImageFormat, enc: Encoder)
    requires RatchetInvariant(trace, w0, h0, target, w, h, quality, format, enc) && |trace| < 5
    requires a.quality == quality && a.width == w && a.height == h && a.size.None?
    requires a.size == enc(QualityArg(format, a.quality), a.width, a.height)
    ensures var t := trace + [a];
      RatchetSchedule(t, w0, h0) && Encoded(t, format, enc) &&
      AllOver(t[..|t| - 1], target) && AllOver(t[..Rounds(t)], target) &&
      w == ShrinkN(w0, Rounds(t)) && h == ShrinkN(h0, Rounds(t))
  {
    var t := trace + [a];
    EncodedAppend(trace, a, format, enc);
    assert t[..|t| - 1] == trace && Rounds(t) == |trace|;
    forall k | 0 <= k < |t|
      ensures t[k].quality == RatchetQuality(k) && t[k].width == ShrinkN(w0, k) && t[k].height == ShrinkN(h0, k)
    {
      if k < |trace| {
        assert t[k] == trace[k];
      }
    }
  }

  /** The round after `trace` resolved: it follows the schedule and every
      round before it was above the target. */
  lemma RatchetResolved(trace: seq<Attempt>, w0: nat, h0: nat, target: real, w: nat, h: nat, quality: real, a: Attempt,
                        format: ImageFormat, enc: Encoder)
    requires RatchetInvariant(trace, w0, h0, target, w, h, quality, format, enc) && |trace| < 5
    requires a.quality == quality && a.width == w && a.height == h
    requires a.size == enc(QualityArg(format, a.quality), a.width, a.height)
    ensures var t := trace + [a];
      RatchetSchedule(t, w0, h0) && AllOver(t[..|t| - 1], target) && Encoded(t, format, enc)
  {
    var t := trace + [a];
    EncodedAppend(trace, a, format, enc);
    assert t[..|t| - 1] == trace;
    forall k | 0 <= k < |t|
      ensures t[k].quality == RatchetQuality(k) && t[k].width == ShrinkN(w0, k) && t[k].height == ShrinkN(h0, k)
    {
      if k < |trace| {
        assert t[k] == trace[k];
      }
    }
  }

  /** Five rounds above the target: every one of them ran to the end. */
  lemma RatchetExhausted(trace: seq<Attempt>, w0: nat, h0: nat, target: real, w: nat, h: nat, quality: real,
                         format: ImageFormat, enc: Encoder)
    requires RatchetInvariant(trace, w0, h0, target, w, h, quality, format, enc) && |trace| == 5
    ensures AllOver(trace[..|trace| - 1], target) && AllOver(trace[..Rounds(trace)], target)
    ensures w == ShrinkN(w0, Rounds(trace)) && h == ShrinkN(h0, Rounds(trace))
  {
    assert trace[..Rounds(trace)] == trace;
  }

  /** The ratchet (imageProcessor.ts:591-612): up to five encodes, each at a
      smaller size and quality than the one before, resolving the first that
      is not above the target; an encode that fails ends it early. `w` and
      `h` are the dimensions the last encode is then made at. */
  method Ratchet(img: ImageFile, format: ImageFormat, target: real, w0: nat, h0: nat, enc: Encoder)
    returns (hit: Option<ImageFile>, w: nat, h: nat, trace: seq<Attempt>)
    requires w0 >= 50 && h0 >= 50
    ensures |trace| <= 5
    ensures RatchetSchedule(trace, w0, h0) && Encoded(trace, format, enc)
    ensures |trace| > 0 ==> AllOver(trace[..|trace| - 1], target)
    ensures hit.None? ==> AllOver(trace[..Rounds(trace)], target)
    ensures hit.Some? ==> |trace| > 0 && hit.value.size as real <= target && Produced(img, format, trace[|trace| - 1], hit.value)
    ensures hit.None? && |trace| < 5 ==> |trace| > 0 && trace[|trace| - 1].size.None?
    ensures hit.None? ==> w >= 50 && h >= 50
    ensures hit.None? ==> w == ShrinkN(w0, Rounds(trace)) && h == ShrinkN(h0, Rounds(trace))
  {
    w, h := w0, h0;
    var quality := 0.1;
    trace := [];
    var attempt := 0;
    while attempt < 5
      invariant attempt == |trace| && RatchetInvariant(trace, w0, h0, target, w, h, quality, format, enc)
    {
      var test := CompressWith(img, format, quality, Some(w), Some(h), enc);
      var a := Record(quality, test, img, Some(w), Some(h));
      if test.Err? {
        RatchetFailed(trace, w0, h0, target, w, h, quality, a, format, enc);
        trace := trace + [a];
        hit := None;
        return;
      }
      if test.value.size as real <= target {
        RatchetResolved(trace, w0, h0, target, w, h, quality, a, format, enc);
        trace := trace + [a];
        hit := Some(test.value);
        return;
      }
      RatchetRound(trace, w0, h0, target, w, h, quality, a, format, enc);
      trace := trace + [a];
      w := AtLeast50(w as real * 0.8);
      h := AtLeast50(h as real * 0.8);
      quality := if quality * 0.9 >= 0.01 then quality * 0.9 else 0.01;
      attempt := attempt + 1;
    }
    RatchetExhausted(trace, w0, h0, target, w, h, quality, format, enc);
    hit := None;
  }

  // ---------------------------------------------------------------------
  // The whole search

  /** Every quality asked for lies in [0.01, 1). */
  predicate QualitiesIn(trace: seq<Attempt>) {
    forall i :: 0 <= i < |trace| ==> 0.01 <= trace[i].quality < 1.0
  }

  /** The last resort (imageProcessor.ts:591-620): the ratchet, then, unless
      it resolved, one encode at quality 0.01 at the dimensions the ratchet
      reached, whose failure is the search's only rejection. */
  method LastResort(img: ImageFile, format: ImageFormat, target: real, w0: nat, h0: nat, enc: Encoder)
    returns (r: Result<ImageFile>, trace: seq<Attempt>)
    requires w0 >= 50 && h0 >= 50
    ensures 1 <= |trace| <= 6
    ensures QualitiesIn(trace)
    ensures LastResortTrace(trace, w0, h0, target, format, enc)
    ensures r.Ok? ==> Produced(img, format, trace[|trace| - 1], r.value)
    ensures r.Ok? && r.value.size as real > target ==> trace[|trace| - 1].quality == 0.01
    ensures r.Err? ==>
              r.error == "Failed to compress to target size" &&
              trace[|trace| - 1].quality == 0.01 && trace[|trace| - 1].size.None?
  {
    var hit, finalWidth, finalHeight;
    hit, finalWidth, finalHeight, trace := Ratchet(img, format, target, w0, h0, enc);
    forall k | 0 <= k < |trace| ensures 0.01 <= trace[k].quality < 1.0 {
      RatchetQualityExact(k);
    }
    if hit.Some? {
      RatchetHitTrace(trace, w0, h0, target, format, enc);
      return Ok(hit.value), trace;
    }
    ghost var ratchet := trace;
    var finalFile := CompressWith(img, format, 0.01, Some(finalWidth), Some(finalHeight), enc);
    EncodedAppend(trace, Record(0.01, finalFile, img, Some(finalWidth), Some(finalHeight)), format, enc);
    trace := trace + [Record(0.01, finalFile, img, Some(finalWidth), Some(finalHeight))];
    if finalFile.Err? {
      r := Err("Failed to compress to target size");
    } else {
      r := Ok(finalFile.value);
      assert Produced(img, format, trace[|trace| - 1], r.value);
    }
    RatchetOverTrace(ratchet, trace, w0, h0, target, format, enc);
  }

  /** The attempts of the last resort from `w`×`h`, each recording the
      encoder's answer (imageProcessor.ts:591-617): ratchet rounds on the
      schedule, and then either
      - one more round on the schedule that fitted, every round before it
        having given a blob above the target; or
      - the encode at quality 0.01 at the dimensions the last complete
        round reached, once five rounds ran or a round's encode failed,
        every complete round having given a blob above the target; a failed
        round can only be the one right before that encode, since the loop
        breaks there. */
  predicate LastResortTrace(t: seq<Attempt>, w: nat, h: nat, target: real, format: ImageFormat, enc: Encoder) {
    1 <= |t| <= 6 && Encoded(t, format, enc) && RatchetSchedule(t[..|t| - 1], w, h) &&
    ((|t| <= 5 && AllOver(t[..|t| - 1], target) && NextRound(t[..|t| - 1], w, h, t[|t| - 1]) && !Over(t[|t| - 1], target)) ||
     (t[|t| - 1].quality == 0.01 && AllOver(t[..Rounds(t[..|t| - 1])], target) &&
      t[|t| - 1].width == ShrinkN(w, Rounds(t[..|t| - 1])) && t[|t| - 1].height == ShrinkN(h, Rounds(t[..|t| - 1])) &&
      (|t| == 6 || (|t| >= 2 && t[|t| - 2].size.None?))))
  }

  /** A ratchet that resolved is a whole last-resort trace. */
  lemma RatchetHitTrace(trace: seq<Attempt>, w0: nat, h0: nat, target: real, format: ImageFormat, enc: Encoder)
    requires 1 <= |trace| <= 5 && RatchetSchedule(trace, w0, h0) && AllOver(trace[..|trace| - 1], target)
    requires Encoded(trace, format, enc) && !Over(trace[|trace| - 1], target)
    ensures LastResortTrace(trace, w0, h0, target, format, enc)
  {
    var rounds := trace[..|trace| - 1];
    forall k | 0 <= k < |rounds|
      ensures rounds[k].quality == RatchetQuality(k) && rounds[k].width == ShrinkN(w0, k) && rounds[k].height == ShrinkN(h0, k)
    {
      assert rounds[k] == trace[k];
    }
  }

  /** A ratchet that did not resolve, followed by the final encode at the
      dimensions it reached, is a whole last-resort trace. */
  lemma RatchetOverTrace(ratchet: seq<Attempt>, t: seq<Attempt>, w0: nat, h0: nat, target: real, format: ImageFormat, enc: Encoder)
    requires |ratchet| <= 5 && RatchetSchedule(ratchet, w0, h0) && AllOver(ratchet[..Rounds(ratchet)], target)
    requires |ratchet| < 5 ==> |ratchet| > 0 && ratchet[|ratchet| - 1].size.None?
    requires |t| == |ratchet| + 1 && t[..|ratchet|] == ratchet && Encoded(t, format, enc)
    requires t[|t| - 1].quality == 0.01
    requires t[|t| - 1].width == ShrinkN(w0, Rounds(ratchet)) && t[|t| - 1].height == ShrinkN(h0, Rounds(ratchet))
    ensures LastResortTrace(t, w0, h0, target, format, enc)
  {
    assert t[..|t| - 1] == ratchet;
    assert t[..Rounds(ratchet)] == ratchet[..Rounds(ratchet)];
    if |ratchet| < 5 {
      assert t[|t| - 2] == ratchet[|ratchet| - 1];
    }
  }

  /** No attempt in `trace` gave a file within the target. */
  predicate NoneFits(trace: seq<Attempt>, target: real) {
    forall i :: 0 <= i < |trace| ==> Over(trace[i], target)
  }

  function Min(a: nat, b: nat): nat {
    if a <= b then a else b
  }

  /** The side the second search draws at: `n` scaled by the clamped
      estimate, which is always taken from the original file's size. */
  function ReducedSide(n: nat, originalSize: nat, target: real, sqrt: real -> real): nat
    requires target > 0.0
  {
    AtLeast50(n as real * ClampScale(ScaleEstimate(None, originalSize, target, sqrt), target))
  }

  /** The attempts at the reduced size `w`×`h`: a search at that size and,
      only when none of its eight attempts fitted, the ratchet starting from
      that size and then the last encode. */
  predicate ReducedPhases(t: seq<Attempt>, img: ImageFile, target: real, format: ImageFormat, enc: Encoder, w: nat, h: nat) {
    SearchTrace(t[..Min(|t|, 8)], img, target, format, Some(w), Some(h), enc) &&
    (|t| > 8 ==> NoneFits(t[..8], target) && LastResortTrace(t[8..], w, h, target, format, enc))
  }

  /** The file the attempts at the reduced size resolve: the one the search
      chose when it resolved, or else the last resort's last one. */
  predicate ReducedPick(t: seq<Attempt>, img: ImageFile, format: ImageFormat, target: real, f: ImageFile) {
    if |t| <= 8 then Chosen(t, img, format, target, f)
    else Produced(img, format, t[|t| - 1], f)
  }

  /** The file `compressToTargetSize` resolves, read off its attempts: the
      one the first search chose when it resolved, or else the one the
      attempts at the reduced size resolve. */
  predicate Picked(trace: seq<Attempt>, img: ImageFile, format: ImageFormat, target: real, f: ImageFile) {
    if |trace| <= 8 then Chosen(trace, img, format, target, f)
    else ReducedPick(trace[8..], img, format, target, f)
  }

  /** The outcome of `compressToTargetSize` against its attempts: the file
      `Picked` names, or the rejection of a failed final encode. */
  predicate Resolved(trace: seq<Attempt>, img: ImageFile, target: real, format: ImageFormat, r: Result<ImageFile>) {
    |trace| > 0 &&
    (r.Ok? ==> Picked(trace, img, format, target, r.value)) &&
    (r.Err? ==>
       r.error == "Failed to compress to target size" &&
       trace[|trace| - 1].quality == 0.01 && trace[|trace| - 1].size.None?)
  }

  /** All the attempts of `compressToTargetSize`: a search at the image's
      own size and, only when none of its eight attempts fitted, the
      attempts at the size `ReducedSide` gives for each side. */
  predicate Phases(trace: seq<Attempt>, img: ImageFile, target: real, format: ImageFormat, enc: Encoder, sqrt: real -> real)
    requires target > 0.0
  {
    SearchTrace(trace[..Min(|trace|, 8)], img, target, format, None, None, enc) &&
    (|trace| > 8 ==>
       NoneFits(trace[..8], target) &&
       ReducedPhases(trace[8..], img, target, format, enc,
                     ReducedSide(img.width, img.size, target, sqrt), ReducedSide(img.height, img.size, target, sqrt)))
  }

  /** The search at the image's own size (imageProcessor.ts:461-509), and
      what it resolves: the file the loop returned, or else the kept one.
      `best` is `bestFile` as the code after it sees it. */
  method FirstSearch(img: ImageFile, format: ImageFormat, target: real, enc: Encoder, sqrt: real -> real)
    returns (found: Option<ImageFile>, best: Option<ImageFile>, trace: seq<Attempt>)
    requires target > 0.0
    ensures 1 <= |trace| <= 8 && QualitiesIn(trace)
    ensures found.Some? ==> found.value.size as real <= target && exists i :: 0 <= i < |trace| && Produced(img, format, trace[i], found.value)
    ensures found.Some? ==> Phases(trace, img, target, format, enc, sqrt)
    ensures found.Some? ==> Chosen(trace, img, format, target, found.value)
    ensures found.None? ==>
      best.None? && |trace| == 8 && NoneFits(trace, target) && SearchTrace(trace, img, target, format, None, None, enc)
  {
    var hit;
    hit, best, trace := QualitySearch(img, format, target, None, None, enc);
    SearchChosen(trace, img, format, target, hit, best);
    found := None;
    if hit.Some? {
      PhasesFirstOnly(trace, img, target, format, enc, sqrt);
      found := hit;
    } else if best.Some? && best.value.size as real <= target {
      PhasesFirstOnly(trace, img, target, format, enc, sqrt);
      found := best;
    }
  }

  /** A first search that resolved is the whole trace. */
  lemma PhasesFirstOnly(t1: seq<Attempt>, img: ImageFile, target: real, format: ImageFormat, enc: Encoder, sqrt: real -> real)
    requires target > 0.0 && |t1| <= 8 && SearchTrace(t1, img, target, format, None, None, enc)
    ensures Phases(t1, img, target, format, enc, sqrt)
  {
    assert t1[..Min(|t1|, 8)] == t1;
  }

  /** A first search of eight attempts, none of which fitted, followed by
      the attempts at the reduced size. */
  lemma PhasesJoin(t1: seq<Attempt>, t: seq<Attempt>, img: ImageFile, target: real, format: ImageFormat,
                   enc: Encoder, sqrt: real -> real)
    requires target > 0.0 && |t1| == 8 && SearchTrace(t1, img, target, format, None, None, enc) && NoneFits(t1, target)
    requires ReducedPhases(t, img, target, format, enc,
                           ReducedSide(img.width, img.size, target, sqrt), ReducedSide(img.height, img.size, target, sqrt))
    ensures Phases(t1 + t, img, target, format, enc, sqrt)
  {
    var trace := t1 + t;
    assert trace[..8] == t1 && trace[8..] == t;
    assert trace[..Min(|trace|, 8)] == t1;
  }

  /** The attempts at the reduced size (imageProcessor.ts:536-628): the
      second search and, unless it found a file within the target, the last
      resort. */
  method Shrunk(img: ImageFile, format: ImageFormat, target: real, w: nat, h: nat, enc: Encoder)
    returns (r: Result<ImageFile>, trace: seq<Attempt>)
    requires w >= 50 && h >= 50
    ensures 1 <= |trace| <= 14
    ensures QualitiesIn(trace)
    ensures r.Ok? ==> exists i :: 0 <= i < |trace| && Produced(img, format, trace[i], r.value)
    ensures r.Ok? && r.value.size as real > target ==>
              trace[|trace| - 1].quality == 0.01 && Produced(img, format, trace[|trace| - 1], r.value)
    ensures r.Err? ==>
              r.error == "Failed to compress to target size" &&
              trace[|trace| - 1].quality == 0.01 && trace[|trace| - 1].size.None?
    ensures ReducedPhases(trace, img, target, format, enc, w, h)
    ensures r.Ok? ==> ReducedPick(trace, img, format, target, r.value)
  {
    var hit, best, t2 := QualitySearch(img, format, target, Some(w), Some(h), enc);
    SearchChosen(t2, img, format, target, hit, best);
    trace := t2;
    if hit.Some? {
      assert trace[..Min(|trace|, 8)] == t2;
      return Ok(hit.value), trace;
    }
    if best.Some? && best.value.size as real <= target {
      assert trace[..Min(|trace|, 8)] == t2;
      return Ok(best.value), trace;
    }
    var t3;
    r, t3 := LastResort(img, format, target, w, h, enc);
    trace := t2 + t3;
    assert trace[..8] == t2 && trace[8..] == t3;
    assert trace[..Min(|trace|, 8)] == t2;
    assert trace[|trace| - 1] == t3[|t3| - 1];
  }

  /** `compressToTargetSize` for a decoded image `img` and a positive target
      in bytes. Every resolved file is one the searches produced, renamed
      and retyped to the target format; only a file from the final encode
      at quality 0.01 can be larger than the target; the only rejection is
      that final encode failing. At most 22 encodes are made, in the phases
      `Phases` lays out: the reduced size is estimated from the original
      file's size, since the first search never leaves a `bestFile` behind
      without returning it. */
  method CompressToTargetSize(img: ImageFile, target: real, format: ImageFormat, enc: Encoder, sqrt: real -> real)
    returns (r: Result<ImageFile>, trace: seq<Attempt>)
    requires target > 0.0
    ensures 1 <= |trace| <= 22
    ensures QualitiesIn(trace)
    ensures r.Ok? ==> exists i :: 0 <= i < |trace| && Produced(img, format, trace[i], r.value)
    ensures r.Ok? && r.value.size as real > target ==>
              trace[|trace| - 1].quality == 0.01 && Produced(img, format, trace[|trace| - 1], r.value)
    ensures r.Err? ==>
              r.error == "Failed to compress to target size" &&
              trace[|trace| - 1].quality == 0.01 && trace[|trace| - 1].size.None?
    ensures Phases(trace, img, target, format, enc, sqrt)
    ensures Resolved(trace, img, target, format, r)
  {
    var found, best, t1 := FirstSearch(img, format, target, enc, sqrt);
    trace := t1;
    if found.Some? {
      return Ok(found.value), trace;
    }
    assert best.None?;
    var newWidth, newHeight := ReducedDims(img, best, target, sqrt);
    var t;
    r, t := Shrunk(img, format, target, newWidth, newHeight, enc);
    trace := t1 + t;
    PhasesJoin(t1, t, img, target, format, enc, sqrt);
    if r.Ok? {
      ProducedAfter(img, format, t1, t, r.value);
      PickedAfter(img, format, target, t1, t, r.value);
    }
  }

  /** The dimensions for the second search (imageProcessor.ts:510-538),
      from `bestFile` as the first search left it. */
  method ReducedDims(img: ImageFile, best: Option<ImageFile>, target: real, sqrt: real -> real)
    returns (newWidth: nat, newHeight: nat)
    requires target > 0.0
    ensures newWidth >= 50 && newHeight >= 50
    ensures best.None? ==>
      newWidth == ReducedSide(img.width, img.size, target, sqrt) && newHeight == ReducedSide(img.height, img.size, target, sqrt)
  {
    var scaleFactor := ScaleEstimate(best, img.size, target, sqrt);
    scaleFactor := ClampScale(scaleFactor, target);
    newWidth := AtLeast50(img.width as real * scaleFactor);
    newHeight := AtLeast50(img.height as real * scaleFactor);
  }

  /** A file the attempts at the reduced size resolve is the file the whole
      trace resolves once the eight attempts of the first search precede
      them. */
  lemma PickedAfter(img: ImageFile, format: ImageFormat, target: real, t1: seq<Attempt>, t: seq<Attempt>, f: ImageFile)
    requires |t1| == 8 && |t| > 0 && ReducedPick(t, img, format, target, f)
    ensures Picked(t1 + t, img, format, target, f)
  {
    assert (t1 + t)[8..] == t;
  }

  /** A file one of the attempts in `t` produced is produced by an attempt
      of any trace that ends in `t`. */
  lemma ProducedAfter(img: ImageFile, format: ImageFormat, t1: seq<Attempt>, t: seq<Attempt>, f: ImageFile)
    requires exists i :: 0 <= i < |t| && Produced(img, format, t[i], f)
    ensures exists i :: 0 <= i < |t1 + t| && Produced(img, format, (t1 + t)[i], f)
  {
    var i :| 0 <= i < |t| && Produced(img, format, t[i], f);
    assert (t1 + t)[|t1| + i] == t[i];
  }
  // ---------------------------------------------------------------------
  // The attempts and the outcome are fixed by the inputs

  /** Two searches with the same inputs make the same attempts as far as
      both go: the first quality is fixed, each next one follows from the
      outcome of the one before, and the encoder answers alike. */
  lemma {:induction false} SearchesAgree(s: seq<Attempt>, u: seq<Attempt>, img: ImageFile, target: real, format: ImageFormat,
                                         width: Option<nat>, height: Option<nat>, enc: Encoder, i: nat)
    requires SearchTrace(s, img, target, format, width, height, enc)
    requires SearchTrace(u, img, target, format, width, height, enc)
    requires i < |s| && i < |u|
    ensures s[i] == u[i]
  {
    if i > 0 {
      SearchesAgree(s, u, img, target, format, width, height, enc, i - 1);
    }
  }

  /** A search that has stopped: it ran its eight attempts, or its last
      attempt was accepted on sight. */
  predicate Ended(s: seq<Attempt>, target: real) {
    |s| == 8 || (|s| > 0 && Hit(s[|s| - 1], target))
  }

  /** Two searches with the same inputs that both stopped made the same
      attempts. */
  lemma SearchDetermined(s: seq<Attempt>, u: seq<Attempt>, img: ImageFile, target: real, format: ImageFormat,
                         width: Option<nat>, height: Option<nat>, enc: Encoder)
    requires SearchTrace(s, img, target, format, width, height, enc) && |s| <= 8 && Ended(s, target)
    requires SearchTrace(u, img, target, format, width, height, enc) && |u| <= 8 && Ended(u, target)
    ensures s == u
  {
    if |s| < |u| {
      SearchesAgree(s, u, img, target, format, width, height, enc, |s| - 1);
      assert false;
    } else if |u| < |s| {
      SearchesAgree(s, u, img, target, format, width, height, enc, |u| - 1);
      assert false;
    }
    forall i | 0 <= i < |s| ensures s[i] == u[i] {
      SearchesAgree(s, u, img, target, format, width, height, enc, i);
    }
  }

  /** A search that resolves a file has stopped, and some attempt of it
      fitted. */
  lemma ChosenFits(trace: seq<Attempt>, img: ImageFile, format: ImageFormat, target: real, f: ImageFile)
    requires Chosen(trace, img, format, target, f)
    ensures Ended(trace, target) && !NoneFits(trace, target)
  {
    if !Hit(trace[|trace| - 1], target) {
      var i :| 0 <= i < |trace| && Produced(img, format, trace[i], f);
      assert !Over(trace[i], target);
    }
  }

  /** Two runs of the same search phase, each either resolved by its
      search, so with an attempt that fitted, or continued after eight
      attempts none of which fitted, made the same search and both went on
      or both stopped. */
  lemma SearchPhaseDetermined(t: seq<Attempt>, u: seq<Attempt>, img: ImageFile, target: real, format: ImageFormat,
                              width: Option<nat>, height: Option<nat>, enc: Encoder)
    requires SearchTrace(t[..Min(|t|, 8)], img, target, format, width, height, enc) && Ended(t[..Min(|t|, 8)], target)
    requires SearchTrace(u[..Min(|u|, 8)], img, target, format, width, height, enc) && Ended(u[..Min(|u|, 8)], target)
    requires |t| > 8 ==> NoneFits(t[..8], target)
    requires |u| > 8 ==> NoneFits(u[..8], target)
    requires |t| <= 8 ==> !NoneFits(t, target)
    requires |u| <= 8 ==> !NoneFits(u, target)
    ensures t[..Min(|t|, 8)] == u[..Min(|u|, 8)]
    ensures |t| <= 8 <==> |u| <= 8
  {
    SearchDetermined(t[..Min(|t|, 8)], u[..Min(|u|, 8)], img, target, format, width, height, enc);
    if |t| <= 8 {
      assert t[..Min(|t|, 8)] == t;
    }
    if |u| <= 8 {
      assert u[..Min(|u|, 8)] == u;
    }
  }

  /** Two last resorts from the same size agree on every ratchet round both
      made, since the schedule fixes a round's quality and canvas. */
  lemma RoundsAgree(a: seq<Attempt>, b: seq<Attempt>, w: nat, h: nat, format: ImageFormat, enc: Encoder, k: nat)
    requires |a| > 0 && |b| > 0 && Encoded(a, format, enc) && Encoded(b, format, enc)
    requires RatchetSchedule(a[..|a| - 1], w, h) && RatchetSchedule(b[..|b| - 1], w, h)
    requires k < |a| - 1 && k < |b| - 1
    ensures a[k] == b[k]
  {
    assert a[..|a| - 1][k] == a[k];
    assert b[..|b| - 1][k] == b[k];
  }

  /** Every ratchet round of a last resort gave a blob above the target or
      failed, and only the round right before the last encode can have
      failed. */
  lemma LastResortRounds(t: seq<Attempt>, w: nat, h: nat, target: real, format: ImageFormat, enc: Encoder, k: nat)
    requires LastResortTrace(t, w, h, target, format, enc) && k < |t| - 1
    ensures Over(t[k], target)
    ensures k < |t| - 2 ==> t[k].size.Some?
  {
    var rounds := t[..|t| - 1];
    assert rounds[k] == t[k];
    if k < Rounds(rounds) {
      assert t[..Rounds(rounds)][k] == t[k];
    }
  }

  /** A last resort is no shorter than another from the same size: the
      shorter one would have stopped at a round the longer one went past. */
  lemma LastResortNotShorter(a: seq<Attempt>, b: seq<Attempt>, w: nat, h: nat, target: real, format: ImageFormat, enc: Encoder)
    requires LastResortTrace(a, w, h, target, format, enc) && LastResortTrace(b, w, h, target, format, enc)
    ensures |a| >= |b|
  {
    if |a| < |b| {
      var m := |a| - 1;
      if |a| <= 5 && AllOver(a[..m], target) && NextRound(a[..m], w, h, a[m]) && !Over(a[m], target) {
        assert b[..|b| - 1][m] == b[m];
        LastResortRounds(b, w, h, target, format, enc, m);
        assert false;
      } else {
        RoundsAgree(a, b, w, h, format, enc, m - 1);
        LastResortRounds(b, w, h, target, format, enc, m - 1);
        assert false;
      }
    }
  }

  /** Two last resorts from the same size made the same attempts. */
  lemma LastResortDetermined(a: seq<Attempt>, b: seq<Attempt>, w: nat, h: nat, target: real, format: ImageFormat, enc: Encoder)
    requires LastResortTrace(a, w, h, target, format, enc) && LastResortTrace(b, w, h, target, format, enc)
    ensures a == b
  {
    LastResortNotShorter(a, b, w, h, target, format, enc);
    LastResortNotShorter(b, a, w, h, target, format, enc);
    var n := |a|;
    forall k | 0 <= k < n - 1 ensures a[k] == b[k] {
      RoundsAgree(a, b, w, h, format, enc, k);
    }
    assert a[..n - 1] == b[..n - 1];
    LastEncodesAgree(a, b, w, h, target, format, enc);
    forall k | 0 <= k < n ensures a[k] == b[k] {
      if k < n - 1 {
        RoundsAgree(a, b, w, h, format, enc, k);
      }
    }
  }

  /** Two last resorts of the same length after the same rounds end in the
      same encode: a further round, or the 0.01 encode, never both. */
  lemma LastEncodesAgree(a: seq<Attempt>, b: seq<Attempt>, w: nat, h: nat, target: real, format: ImageFormat, enc: Encoder)
    requires LastResortTrace(a, w, h, target, format, enc) && LastResortTrace(b, w, h, target, format, enc)
    requires |a| == |b| && a[..|a| - 1] == b[..|b| - 1]
    ensures a[|a| - 1] == b[|b| - 1]
  {
    var n := |a|;
    var r := a[..n - 1];
    var oneMore := |a| <= 5 && AllOver(r, target) && NextRound(r, w, h, a[n - 1]) && !Over(a[n - 1], target);
    var oneMoreB := |b| <= 5 && AllOver(r, target) && NextRound(r, w, h, b[n - 1]) && !Over(b[n - 1], target);
    if oneMore != oneMoreB {
      assert false;
    }
  }

  /** Two runs of the attempts at the reduced size, each resolved or
      rejected as `compressToTargetSize` reports it, made the same
      attempts. */
  lemma ReducedDetermined(t: seq<Attempt>, u: seq<Attempt>, img: ImageFile, target: real, format: ImageFormat,
                          enc: Encoder, w: nat, h: nat, r1: Result<ImageFile>, r2: Result<ImageFile>)
    requires |t| > 0 && ReducedPhases(t, img, target, format, enc, w, h)
    requires r1.Ok? ==> ReducedPick(t, img, format, target, r1.value)
    requires r1.Err? ==> t[|t| - 1].quality == 0.01 && t[|t| - 1].size.None?
    requires |u| > 0 && ReducedPhases(u, img, target, format, enc, w, h)
    requires r2.Ok? ==> ReducedPick(u, img, format, target, r2.value)
    requires r2.Err? ==> u[|u| - 1].quality == 0.01 && u[|u| - 1].size.None?
    ensures t == u
  {
    PhaseEnded(t, img, target, format, enc, w, h, r1);
    PhaseEnded(u, img, target, format, enc, w, h, r2);
    SearchPhaseDetermined(t, u, img, target, format, Some(w), Some(h), enc);
    if |t| > 8 {
      LastResortDetermined(t[8..], u[8..], w, h, target, format, enc);
      assert t == t[..8] + t[8..] && u == u[..8] + u[8..];
    } else {
      assert t[..Min(|t|, 8)] == t && u[..Min(|u|, 8)] == u;
    }
  }

  /** What the search of a reduced-size run leaves: it stopped, and when the
      run ends with it, some attempt fitted. */
  lemma PhaseEnded(t: seq<Attempt>, img: ImageFile, target: real, format: ImageFormat,
                   enc: Encoder, w: nat, h: nat, r: Result<ImageFile>)
    requires |t| > 0 && ReducedPhases(t, img, target, format, enc, w, h)
    requires r.Ok? ==> ReducedPick(t, img, format, target, r.value)
    requires r.Err? ==> t[|t| - 1].quality == 0.01 && t[|t| - 1].size.None?
    ensures Ended(t[..Min(|t|, 8)], target)
    ensures |t| <= 8 ==> !NoneFits(t, target)
  {
    if |t| <= 8 {
      assert t[..Min(|t|, 8)] == t;
      assert 0.01 < t[|t| - 1].quality;
      ChosenFits(t, img, format, target, r.value);
    } else {
      assert |t[..Min(|t|, 8)]| == 8;
    }
  }

  /** What the first search of a run leaves: it stopped, and when the run
      ends with it, some attempt fitted. */
  lemma FirstPhaseEnded(t: seq<Attempt>, img: ImageFile, target: real, format: ImageFormat,
                        enc: Encoder, sqrt: real -> real, r: Result<ImageFile>)
    requires target > 0.0 && Phases(t, img, target, format, enc, sqrt) && Resolved(t, img, target, format, r)
    ensures Ended(t[..Min(|t|, 8)], target)
    ensures |t| <= 8 ==> !NoneFits(t, target)
  {
    if |t| <= 8 {
      assert t[..Min(|t|, 8)] == t;
      assert 0.01 < t[|t| - 1].quality;
      ChosenFits(t, img, format, target, r.value);
    } else {
      assert |t[..Min(|t|, 8)]| == 8;
    }
  }

  /** The attempts at the reduced size, read off a whole run that went on to
      them, with the outcome the run reports. */
  lemma ReducedTail(t: seq<Attempt>, img: ImageFile, target: real, format: ImageFormat,
                    enc: Encoder, sqrt: real -> real, r: Result<ImageFile>)
    requires target > 0.0 && |t| > 8
    requires Phases(t, img, target, format, enc, sqrt) && Resolved(t, img, target, format, r)
    ensures ReducedPhases(t[8..], img, target, format, enc,
                          ReducedSide(img.width, img.size, target, sqrt), ReducedSide(img.height, img.size, target, sqrt))
    ensures r.Ok? ==> ReducedPick(t[8..], img, format, target, r.value)
    ensures r.Err? ==> t[8..][|t[8..]| - 1].quality == 0.01 && t[8..][|t[8..]| - 1].size.None?
  {
    assert t[|t| - 1] == t[8..][|t[8..]| - 1];
  }

  /** Two runs of `compressToTargetSize` on the same inputs made the same
      attempts. */
  lemma AttemptsDetermined(t: seq<Attempt>, u: seq<Attempt>, img: ImageFile, target: real, format: ImageFormat,
                           enc: Encoder, sqrt: real -> real, r1: Result<ImageFile>, r2: Result<ImageFile>)
    requires target > 0.0
    requires Phases(t, img, target, format, enc, sqrt) && Resolved(t, img, target, format, r1)
    requires Phases(u, img, target, format, enc, sqrt) && Resolved(u, img, target, format, r2)
    ensures t == u
  {
    FirstPhaseEnded(t, img, target, format, enc, sqrt, r1);
    FirstPhaseEnded(u, img, target, format, enc, sqrt, r2);
    SearchPhaseDetermined(t, u, img, target, format, None, None, enc);
    if |t| > 8 {
      var w, h := ReducedSide(img.width, img.size, target, sqrt), ReducedSide(img.height, img.size, target, sqrt);
      ReducedTail(t, img, target, format, enc, sqrt, r1);
      ReducedTail(u, img, target, format, enc, sqrt, r2);
      ReducedDetermined(t[8..], u[8..], img, target, format, enc, w, h, r1, r2);
      assert t == t[..8] + t[8..] && u == u[..8] + u[8..];
    } else {
      assert t[..Min(|t|, 8)] == t && u[..Min(|u|, 8)] == u;
    }
  }

  /** A run's attempts fix its outcome: the file `Picked` names is unique,
      and a rejection excludes a file. */
  lemma ResolvedUnique(t: seq<Attempt>, img: ImageFile, target: real, format: ImageFormat,
                       enc: Encoder, sqrt: real -> real, r1: Result<ImageFile>, r2: Result<ImageFile>)
    requires target > 0.0 && Phases(t, img, target, format, enc, sqrt)
    requires Resolved(t, img, target, format, r1) && Resolved(t, img, target, format, r2)
    ensures r1 == r2
  {
    if |t| <= 8 {
      var s := t[..Min(|t|, 8)];
      assert s == t;
      assert 0.01 < t[|t| - 1].quality;
      ChosenOnOneCanvas(t, img, format, target, img.width, img.height, r1.value, r2.value);
    } else {
      var rest := t[8..];
      var w, h := ReducedSide(img.width, img.size, target, sqrt), ReducedSide(img.height, img.size, target, sqrt);
      assert t[|t| - 1] == rest[|rest| - 1];
      if |rest| <= 8 {
        assert rest[..Min(|rest|, 8)] == rest;
        assert 0.01 < rest[|rest| - 1].quality;
        ChosenOnOneCanvas(rest, img, format, target, w, h, r1.value, r2.value);
      }
    }
  }

  /** `compressToTargetSize` is a function of its inputs: two runs on the
      same image, target, format, encoder and square root make the same
      attempts and resolve the same file or reject alike. */
  lemma CompressionDetermined(t: seq<Attempt>, u: seq<Attempt>, img: ImageFile, target: real, format: ImageFormat,
                              enc: Encoder, sqrt: real -> real, r1: Result<ImageFile>, r2: Result<ImageFile>)
    requires target > 0.0
    requires Phases(t, img, target, format, enc, sqrt) && Resolved(t, img, target, format, r1)
    requires Phases(u, img, target, format, enc, sqrt) && Resolved(u, img, target, format, r2)
    ensures t == u && r1 == r2
  {
    AttemptsDetermined(t, u, img, target, format, enc, sqrt, r1, r2);
    ResolvedUnique(t, img, target, format, enc, sqrt, r1, r2);
  }
}
