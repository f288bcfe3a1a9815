/** `generateImagePreview` (src/lib/imagePreview.ts): the preview canvas's
    size, the transform the image is drawn with, the filter, and the crop
    copy. Reading the file and decoding the image are not part of this
    model; the image arrives as its natural width and height. */
module Preview {
  import opened Wrappers
  import opened ConverterTypes
  import opened FilterString
  import opened Transforms

  // ---------------------------------------------------------------------
  // The fit calculation (imagePreview.ts:15-36)

  /** A positive number of pixels, or JavaScript's `Infinity`. */
  datatype Extended = Finite(v: real) | Infinity

  /** `m || Infinity`. */
  function Limit(m: Option<nat>): (r: Extended)
    ensures r.Finite? <==> Truthy(m)
    ensures r.Finite? ==> r.v == m.value as real && r.v > 0.0
  {
    if Truthy(m) then Finite(m.value as real) else Infinity
  }

  /** `x > limit`. */
  predicate Exceeds(x: nat, limit: Extended) {
    limit.Finite? && x as real > limit.v
  }

  /** `limit / x` for a positive limit: `Infinity` when the limit is, or
      when `x` is 0. */
  function Divide(limit: Extended, x: nat): (r: Extended)
    ensures r.Finite? <==> limit.Finite? && x > 0
    ensures r.Finite? ==> r.v * x as real == limit.v
  {
    if limit.Finite? && x > 0 then Finite(limit.v / x as real) else Infinity
  }

  predicate AtMost(a: Extended, b: Extended) {
    b.Infinity? || (a.Finite? && a.v <= b.v)
  }

  /** `Math.min`. */
  function Min(a: Extended, b: Extended): (r: Extended)
    ensures r == a || r == b
    ensures AtMost(r, a) && AtMost(r, b)
  {
    if a.Infinity? then b
    else if b.Infinity? then a
    else if a.v <= b.v then a else b
  }

  lemma MulMonotone(a: real, b: real, c: real)
    requires 0.0 <= a && b <= c
    ensures a * b <= a * c
  {
  }

  /** Some limit is set and the image exceeds one of them. */
  predicate Exceeded(w: nat, h: nat, maxWidth: Option<nat>, maxHeight: Option<nat>) {
    (Truthy(maxWidth) || Truthy(maxHeight)) &&
    (Exceeds(w, Limit(maxWidth)) || Exceeds(h, Limit(maxHeight)))
  }

  /** A side's ratio is positive, and below 1 when the side exceeds its
      limit. */
  lemma SideRatio(limit: Option<nat>, x: nat)
    requires Divide(Limit(limit), x).Finite?
    ensures 0.0 < Divide(Limit(limit), x).v
    ensures Exceeds(x, Limit(limit)) ==> Divide(Limit(limit), x).v < 1.0
  {
    var d := Divide(Limit(limit), x).v;
    if d <= 0.0 {
      MulMonotone(x as real, d, 0.0);
    }
    if Exceeds(x, Limit(limit)) && d >= 1.0 {
      MulMonotone(x as real, 1.0, d);
    }
  }

  /** The fit ratio `Math.min(maxWidth / width, maxHeight / height)` of an
      image that exceeds a limit is a number strictly between 0 and 1. */
  lemma FitRatioBounds(w: nat, h: nat, maxWidth: Option<nat>, maxHeight: Option<nat>)
    requires Exceeded(w, h, maxWidth, maxHeight)
    ensures var m := Min(Divide(Limit(maxWidth), w), Divide(Limit(maxHeight), h));
      m.Finite? && 0.0 < m.v < 1.0
  {
    var dw := Divide(Limit(maxWidth), w);
    var dh := Divide(Limit(maxHeight), h);
    if dw.Finite? {
      SideRatio(maxWidth, w);
    }
    if dh.Finite? {
      SideRatio(maxHeight, h);
    }
  }

  function FitRatio(w: nat, h: nat, maxWidth: Option<nat>, maxHeight: Option<nat>): (r: real)
    requires Exceeded(w, h, maxWidth, maxHeight)
    ensures 0.0 < r < 1.0
    ensures Min(Divide(Limit(maxWidth), w), Divide(Limit(maxHeight), h)) == Finite(r)
  {
    FitRatioBounds(w, h, maxWidth, maxHeight);
    Min(Divide(Limit(maxWidth), w), Divide(Limit(maxHeight), h)).v
  }

  /** The size the preview computes: unchanged unless a limit is set and
      exceeded; then both sides scaled by the fit ratio when the aspect
      ratio is kept, or each side replaced by its limit, when it has one,
      otherwise. */
  function FitSize(w: nat, h: nat, maxWidth: Option<nat>, maxHeight: Option<nat>, keep: bool): (s: Size)
    ensures s.width >= 0.0 && s.height >= 0.0
  {
    if !Exceeded(w, h, maxWidth, maxHeight) then Size(w as real, h as real)
    else if keep then
      var ratio := FitRatio(w, h, maxWidth, maxHeight);
      Size(w as real * ratio, h as real * ratio)
    else
      Size(if Truthy(maxWidth) then maxWidth.value as real else w as real,
           if Truthy(maxHeight) then maxHeight.value as real else h as real)
  }

  /** The preview canvas: the fit size with its fractions dropped. */
  function PreviewCanvas(w: nat, h: nat, opts: ConversionOptions): Dims {
    var s := FitSize(w, h, opts.maxWidth, opts.maxHeight, opts.maintainAspectRatio);
    Dims(CanvasLength(s.width), CanvasLength(s.height))
  }

  /** The block that reassigns `width` and `height`. */
  method PreviewSize(w: nat, h: nat, opts: ConversionOptions) returns (width: real, height: real)
    ensures Size(width, height) == FitSize(w, h, opts.maxWidth, opts.maxHeight, opts.maintainAspectRatio)
  {
    width := w as real;
    height := h as real;
    if Truthy(opts.maxWidth) || Truthy(opts.maxHeight) {
      var maxWidth := Limit(opts.maxWidth);
      var maxHeight := Limit(opts.maxHeight);
      if Exceeds(w, maxWidth) || Exceeds(h, maxHeight) {
        var ratio := Min(Divide(maxWidth, w), Divide(maxHeight, h));
        assert ratio == Finite(FitRatio(w, h, opts.maxWidth, opts.maxHeight));
        if opts.maintainAspectRatio {
          width := width * ratio.v;
          height := height * ratio.v;
        } else {
          width := if Truthy(opts.maxWidth) then opts.maxWidth.value as real else width;
          height := if Truthy(opts.maxHeight) then opts.maxHeight.value as real else height;
        }
      }
    }
  }

  /** A side scaled by at most its own ratio stays within its limit. */
  lemma WithinLimit(x: nat, limit: Option<nat>, r: real)
    requires Truthy(limit) && 0.0 <= r && AtMost(Finite(r), Divide(Limit(limit), x))
    ensures x as real * r <= limit.value as real
    ensures Divide(Limit(limit), x) == Finite(r) ==> x as real * r == limit.value as real
  {
    if x > 0 {
      MulMonotone(x as real, r, Divide(Limit(limit), x).v);
    }
  }

  /** `s` has the aspect ratio of `w`×`h`. */
  predicate SameShape(s: Size, w: nat, h: nat) {
    s.width * h as real == s.height * w as real
  }

  /** `s` fits every limit that is set, meets one of them exactly, is no
      larger than `w`×`h` on either side, smaller on one, and has its shape. */
  predicate ShrunkToFit(w: nat, h: nat, maxWidth: Option<nat>, maxHeight: Option<nat>, s: Size) {
    && SameShape(s, w, h)
    && (Truthy(maxWidth) ==> s.width <= maxWidth.value as real)
    && (Truthy(maxHeight) ==> s.height <= maxHeight.value as real)
    && (s.width == maxWidth.GetOr(0) as real || s.height == maxHeight.GetOr(0) as real)
    && s.width <= w as real && s.height <= h as real
    && (s.width < w as real || s.height < h as real)
  }

  /** With the aspect ratio kept and a limit exceeded, the preview fits every
      limit that is set, meets one of them exactly, shrinks both sides and
      keeps the shape. */
  lemma {:induction false} FitKeepsAspect(w: nat, h: nat, maxWidth: Option<nat>, maxHeight: Option<nat>)
    requires Exceeded(w, h, maxWidth, maxHeight)
    ensures ShrunkToFit(w, h, maxWidth, maxHeight, FitSize(w, h, maxWidth, maxHeight, true))
  {
    var r := FitRatio(w, h, maxWidth, maxHeight);
    var s := FitSize(w, h, maxWidth, maxHeight, true);
    assert s == Size(w as real * r, h as real * r);
    FitShape(w, h, r, s);
    FitLimits(w, h, maxWidth, maxHeight, r, s.width, s.height);
    FitShrinks(w, h, maxWidth, maxHeight, r, s.width, s.height);
  }

  /** Scaling both sides by one factor keeps the shape. */
  lemma FitShape(w: nat, h: nat, r: real, s: Size)
    requires s == Size(w as real * r, h as real * r)
    ensures SameShape(s, w, h)
  {
  }

  /** Scaled by the fit ratio, each side stays within its limit, and one side
      meets its limit exactly. */
  lemma FitLimits(w: nat, h: nat, maxWidth: Option<nat>, maxHeight: Option<nat>, r: real, sw: real, sh: real)
    requires 0.0 < r
    requires Min(Divide(Limit(maxWidth), w), Divide(Limit(maxHeight), h)) == Finite(r)
    requires sw == w as real * r && sh == h as real * r
    ensures Truthy(maxWidth) ==> sw <= maxWidth.value as real
    ensures Truthy(maxHeight) ==> sh <= maxHeight.value as real
    ensures sw == maxWidth.GetOr(0) as real || sh == maxHeight.GetOr(0) as real
  {
    if Truthy(maxWidth) {
      WithinLimit(w, maxWidth, r);
    }
    if Truthy(maxHeight) {
      WithinLimit(h, maxHeight, r);
    }
  }

  /** Scaled by the fit ratio, no side grows and the side that exceeded its
      limit shrinks. */
  lemma FitShrinks(w: nat, h: nat, maxWidth: Option<nat>, maxHeight: Option<nat>, r: real, sw: real, sh: real)
    requires 0.0 < r < 1.0
    requires Exceeds(w, Limit(maxWidth)) || Exceeds(h, Limit(maxHeight))
    requires sw == w as real * r && sh == h as real * r
    ensures sw <= w as real && sh <= h as real
    ensures sw < w as real || sh < h as real
  {
    ScaledBy(w, r, sw);
    ScaledBy(h, r, sh);
    if Exceeds(w, Limit(maxWidth)) {
      assert w > 0;
    } else {
      assert h > 0;
    }
  }

  /** A factor strictly between 0 and 1 shrinks a length, strictly when the
      length is positive. */
  lemma ScaledBy(x: nat, r: real, sx: real)
    requires 0.0 < r < 1.0 && sx == x as real * r
    ensures sx <= x as real
    ensures x > 0 ==> sx < x as real
  {
    MulMonotone(x as real, r, 1.0);
    if x > 0 {
      assert x as real * (1.0 - r) > 0.0;
    }
  }

  /** Without the aspect ratio, an exceeded limit replaces each side that has
      a limit by that limit, even a side the image did not exceed, which
      can then grow: a 1000×2000 image with limits 1920×1080 becomes
      1920×1080. */
  lemma StretchCanEnlarge()
    ensures FitSize(1000, 2000, Some(1920), Some(1080), false) == Size(1920.0, 1080.0)
  {
  }

  /** Nothing changes when no limit is set or none is exceeded. */
  lemma FitUnchangedWithinLimits(w: nat, h: nat, opts: ConversionOptions)
    requires !Truthy(opts.maxWidth) || w <= opts.maxWidth.value
    requires !Truthy(opts.maxHeight) || h <= opts.maxHeight.value
    ensures PreviewCanvas(w, h, opts) == Dims(w, h)
  {
  }

  /** The preview canvas depends on the resize options alone: a rotation
      never changes it, although `rotateImage` swaps the sides of a
      quarter turn. The first half holds by the definition of
      `PreviewCanvas`; it is kept as the record of that difference. */
  lemma PreviewIgnoresRotation(w: nat, h: nat, opts: ConversionOptions, degrees: int)
    ensures PreviewCanvas(w, h, opts.(rotate := Some(degrees))) == PreviewCanvas(w, h, opts)
    ensures !Truthy(opts.maxWidth) && !Truthy(opts.maxHeight) && w != h ==>
      PreviewCanvas(w, h, opts.(rotate := Some(90))) != RotatedDims(w, h, 90)
  {
    if !Truthy(opts.maxWidth) && !Truthy(opts.maxHeight) && w != h {
      RotatedDimsSwap(w, h, 90);
    }
  }

  // ---------------------------------------------------------------------
  // The drawing transform (imagePreview.ts:53-74)

  /** `scaleX` and `scaleY`: -1 on each axis the direction mirrors, and
      whether `ctx.scale` is called at all. */
  method FlipScale(flip: Option<FlipDirection>) returns (scaleX: real, scaleY: real, scaled: bool)
    ensures scaleX == -1.0 <==> flip.Some? && MirrorsX(flip.value)
    ensures scaleY == -1.0 <==> flip.Some? && MirrorsY(flip.value)
    ensures scaleX in {1.0, -1.0} && scaleY in {1.0, -1.0}
    ensures scaled <==> flip.Some? && flip.value != NoFlip
  {
    scaleX := 1.0;
    scaleY := 1.0;
    if flip == Some(Horizontal) || flip == Some(Both) {
      scaleX := -1.0;
    }
    if flip == Some(Vertical) || flip == Some(Both) {
      scaleY := -1.0;
    }
    scaled := scaleX != 1.0 || scaleY != 1.0;
  }

  /** The sign a direction gives each axis. */
  function Sign(mirrors: bool): real {
    if mirrors then -1.0 else 1.0
  }

  predicate Rotates(opts: ConversionOptions) {
    opts.rotate.Some? && opts.rotate.value != 0
  }

  predicate Flips(opts: ConversionOptions) {
    opts.flip.Some? && opts.flip.value != NoFlip
  }

  /** The operations in effect when the image is drawn on a `cw`×`ch` canvas
      at its natural `iw`×`ih` size, the last being the `drawImage` offset
      of half the image. */
  function DrawOps(cw: nat, ch: nat, iw: nat, ih: nat, opts: ConversionOptions): seq<CanvasOp>
    requires opts.rotate.Some? ==> opts.rotate.value % 90 == 0
  {
    [Translate(cw as real / 2.0, ch as real / 2.0)]
    + (if Rotates(opts) then [Rotate(QuarterTurns(opts.rotate.value))] else [])
    + (if Flips(opts) then [Scale(Sign(MirrorsX(opts.flip.value)), Sign(MirrorsY(opts.flip.value)))] else [])
    + [Translate(-(iw as real) / 2.0, -(ih as real) / 2.0)]
  }

  /** Without a rotation, flipping an image on a canvas of its own size is
      the mirror `flipImage` draws, so the two agree. */
  lemma PreviewFlipIsMirror(w: nat, h: nat, opts: ConversionOptions, p: Point)
    requires !Rotates(opts) && Flips(opts)
    ensures MapPoint(DrawOps(w, h, w, h, opts), p) == Mirror(opts.flip.value, w as real, h as real, p)
  {
    var dir := opts.flip.value;
    var a := Translate(w as real / 2.0, h as real / 2.0);
    var b := Scale(Sign(MirrorsX(dir)), Sign(MirrorsY(dir)));
    var c := Translate(-(w as real) / 2.0, -(h as real) / 2.0);
    assert DrawOps(w, h, w, h, opts) == [a, b, c];
    MapPointThree(a, b, c, p);
  }

  /** The image is drawn at its natural size, centred, whatever the canvas
      size: on a canvas the fit made smaller, only the middle of the image
      shows. Without rotation or flip, a point moves by half the difference
      between canvas and image. */
  lemma PreviewDrawsNaturalSize(cw: nat, ch: nat, iw: nat, ih: nat, opts: ConversionOptions, p: Point)
    requires !Rotates(opts) && !Flips(opts)
    ensures MapPoint(DrawOps(cw, ch, iw, ih, opts), p) ==
      Point(p.x + (cw as real - iw as real) / 2.0, p.y + (ch as real - ih as real) / 2.0)
    ensures cw < iw ==> !Inside(MapPoint(DrawOps(cw, ch, iw, ih, opts), Point(0.0, 0.0)), cw as real, ch as real)
  {
    var a := Translate(cw as real / 2.0, ch as real / 2.0);
    var c := Translate(-(iw as real) / 2.0, -(ih as real) / 2.0);
    assert DrawOps(cw, ch, iw, ih, opts) == [a, c];
    MapPointTwo(a, c, p);
    MapPointTwo(a, c, Point(0.0, 0.0));
  }

  // ---------------------------------------------------------------------
  // The whole preview

  /** The data URL the preview resolves with: its MIME type and size, the
      filter the image was drawn with, the drawing transform, and the source
      rectangle of the crop copy when there is one. */
  datatype PreviewImage = PreviewImage(
    mime: string, width: nat, height: nat, filter: Option<string>, ops: seq<CanvasOp>, source: Option<CropRect>)

  /** `generateImagePreview` once the image has loaded. `hasContext` and
      `hasCropContext` say whether `getContext('2d')` returns a context for
      the main and for the crop canvas. */
  method GeneratePreview(img: Dims, opts: ConversionOptions, show: real -> string,
                         hasContext: bool, hasCropContext: bool)
    returns (r: Result<PreviewImage>)
    requires opts.rotate.Some? ==> opts.rotate.value % 90 == 0
    ensures r.Err? <==> !hasContext
    ensures r.Err? ==> r.error == "Failed to get canvas context"
    ensures r.Ok? ==> r.value.mime == "image/png"
    ensures r.Ok? ==> r.value.filter == if opts.filters.Some? then Some(Text(Parts(opts.filters.value), show)) else None
    ensures r.Ok? ==>
      r.value.ops == DrawOps(PreviewCanvas(img.width, img.height, opts).width, PreviewCanvas(img.width, img.height, opts).height,
              img.width, img.height, opts)
    ensures r.Ok? && opts.crop.Some? && hasCropContext ==>
      r.value.width == opts.crop.value.width && r.value.height == opts.crop.value.height &&
      r.value.source == opts.crop
    ensures r.Ok? && !(opts.crop.Some? && hasCropContext) ==>
      Dims(r.value.width, r.value.height) == PreviewCanvas(img.width, img.height, opts) && r.value.source.None?
  {
    var width, height := PreviewSize(img.width, img.height, opts);
    var canvas := Dims(CanvasLength(width), CanvasLength(height));
    if !hasContext {
      return Err("Failed to get canvas context");
    }
    var filter := None;
    if opts.filters.Some? {
      var f := BuildFilterString(opts.filters.value, show);
      filter := Some(f);
    }
    var ops := [Translate(canvas.width as real / 2.0, canvas.height as real / 2.0)];
    if opts.rotate.Some? && opts.rotate.value != 0 {
      ops := ops + [Rotate(QuarterTurns(opts.rotate.value))];
    }
    var scaleX, scaleY, scaled := FlipScale(opts.flip);
    if scaled {
      ops := ops + [Scale(scaleX, scaleY)];
    }
    ops := ops + [Translate(-(img.width as real) / 2.0, -(img.height as real) / 2.0)];
    if opts.crop.Some? && hasCropContext {
      var crop := opts.crop.value;
      return Ok(PreviewImage("image/png", crop.width, crop.height, filter, ops, Some(crop)));
    }
    r := Ok(PreviewImage("image/png", canvas.width, canvas.height, filter, ops, None));
  }
}
