/** The redraw stages of src/lib/imageProcessor.ts — `applyImageFilters`,
    `rotateImage`, `flipImage`, `cropImage` and `resizeImage` — reduced to
    the canvas size each one picks, the transform it sets up before drawing,
    and the file it wraps the encoded blob in. */
module Transforms {
  import opened Wrappers
  import opened ConverterTypes

  /** The common tail of every stage: encode the canvas with the input's own
      MIME type and the given quality, and wrap the blob in a file with the
      input's name and type; a `null` blob rejects with `msg`. */
  function Redraw(file: ImageFile, quality: real, w: nat, h: nat, enc: Encoder, msg: string): (r: Result<ImageFile>)
    ensures r.Err? <==> enc(Some(quality), w, h).None?
    ensures r.Err? ==> r.error == msg
    ensures r.Ok? ==> r.value.name == file.name && r.value.mime == file.mime
    ensures r.Ok? ==> r.value.width == w && r.value.height == h && Some(r.value.size) == enc(Some(quality), w, h)
  {
    match enc(Some(quality), w, h)
    case None => Err(msg)
    case Some(size) => Ok(ImageFile(file.name, file.mime, size, w, h))
  }

  /** `applyImageFilters` for a present filter set: the image is redrawn at
      its own size through the CSS filter `BuildFilterString` yields (which
      the abstract encoder does not see). */
  function ApplyImageFilters(file: ImageFile, filters: Filters, enc: Encoder): (r: Result<ImageFile>)
    ensures r.Ok? ==> r.value.width == file.width && r.value.height == file.height
    ensures r.Ok? ==> r.value.name == file.name && r.value.mime == file.mime
    ensures r.Err? <==> enc(Some(0.95), file.width, file.height).None?
    ensures r.Ok? ==> Some(r.value.size) == enc(Some(0.95), file.width, file.height)
    ensures r.Err? ==> r.error == "Failed to apply filters"
  {
    Redraw(file, 0.95, file.width, file.height, enc, "Failed to apply filters")
  }

  // ---------------------------------------------------------------------
  // Canvas transforms

  datatype Point = Point(x: real, y: real)

  /** The context operations the stages issue before `drawImage`. `Rotate`
      is limited to quarter turns, counted clockwise on the y-down canvas. */
  datatype CanvasOp =
    | Translate(dx: real, dy: real)
    | Scale(sx: real, sy: real)
    | Rotate(turns: nat)

  /** Exact `Math.cos` and `Math.sin` of `turns` quarter turns. */
  function CosOf(turns: nat): real {
    var t := turns % 4;
    if t == 0 then 1.0 else if t == 2 then -1.0 else 0.0
  }

  function SinOf(turns: nat): real {
    var t := turns % 4;
    if t == 1 then 1.0 else if t == 3 then -1.0 else 0.0
  }

  /** One operation applied to a point given in the coordinates it precedes. */
  function ApplyOp(op: CanvasOp, p: Point): Point {
    match op
    case Translate(dx, dy) => Point(p.x + dx, p.y + dy)
    case Scale(sx, sy) => Point(p.x * sx, p.y * sy)
    case Rotate(t) => Turn(t, p)
  }

  /** A rotation by `turns` clockwise quarter turns about the origin, one
      case per turn. */
  function Turn(turns: nat, p: Point): Point {
    var t := turns % 4;
    if t == 0 then p
    else if t == 1 then Point(-p.y, p.x)
    else if t == 2 then Point(-p.x, -p.y)
    else Point(p.y, -p.x)
  }

  /** `Turn` is what `ctx.rotate` does: the rotation matrix for the angle
      `turns * Math.PI / 2`, with its cosine and sine. */
  lemma TurnIsRotation(turns: nat, p: Point)
    ensures Turn(turns, p) == Point(p.x * CosOf(turns) - p.y * SinOf(turns), p.x * SinOf(turns) + p.y * CosOf(turns))
  {
    var t := turns % 4;
    if t == 0 {
      assert CosOf(turns) == 1.0 && SinOf(turns) == 0.0;
    } else if t == 1 {
      assert CosOf(turns) == 0.0 && SinOf(turns) == 1.0;
    } else if t == 2 {
      assert CosOf(turns) == -1.0 && SinOf(turns) == 0.0;
    } else {
      assert CosOf(turns) == 0.0 && SinOf(turns) == -1.0;
    }
  }

  /** Where a point drawn after the operations `ops` lands on the canvas: the
      current transform is the product of the operations in issue order, so
      the last one issued is applied to the point first. */
  function MapPoint(ops: seq<CanvasOp>, p: Point): Point {
    if ops == [] then p else ApplyOp(ops[0], MapPoint(ops[1..], p))
  }

  lemma {:induction false} MapPointAppend(a: seq<CanvasOp>, b: seq<CanvasOp>, p: Point)
    ensures MapPoint(a + b, p) == MapPoint(a, MapPoint(b, p))
  {
    if a == [] {
      assert a + b == b;
    } else {
      assert (a + b)[0] == a[0] && (a + b)[1..] == a[1..] + b;
      MapPointAppend(a[1..], b, p);
    }
  }

  lemma MapPointTwo(a: CanvasOp, b: CanvasOp, p: Point)
    ensures MapPoint([a, b], p) == ApplyOp(a, ApplyOp(b, p))
  {
    assert [a, b][1..] == [b] && [b][1..] == [];
    assert MapPoint([b], p) == ApplyOp(b, MapPoint([], p));
  }

  lemma MapPointThree(a: CanvasOp, b: CanvasOp, c: CanvasOp, p: Point)
    ensures MapPoint([a, b, c], p) == ApplyOp(a, ApplyOp(b, ApplyOp(c, p)))
  {
    assert [a, b, c][1..] == [b, c];
    MapPointTwo(b, c, p);
  }

  predicate Inside(p: Point, w: real, h: real) {
    0.0 <= p.x <= w && 0.0 <= p.y <= h
  }

  // ---------------------------------------------------------------------
  // rotateImage

  /** Number of clockwise quarter turns in a rotation by `degrees`, which is a
      multiple of 90. */
  function QuarterTurns(degrees: int): (t: nat)
    requires degrees % 90 == 0
    ensures t < 4
  {
    (degrees / 90) % 4
  }

  /** `canvas.width = w·|cos| + h·|sin|`, `canvas.height = w·|sin| + h·|cos|`
      for a quarter-turn rotation. */
  function RotatedDims(w: nat, h: nat, degrees: int): (d: Dims)
    requires degrees % 90 == 0
  {
    var t := QuarterTurns(degrees);
    var c := if t % 2 == 0 then 1.0 else 0.0;
    var s := 1.0 - c;
    Dims(CanvasLength(w as real * c + h as real * s), CanvasLength(w as real * s + h as real * c))
  }

  /** The parity of a count of quarter turns survives reduction modulo 4. */
  lemma TurnParity(q: int)
    ensures (q % 4) % 2 == q % 2
  {
    var k, r := q / 4, q % 4;
    assert q == 2 * (2 * k) + r;
    if r == 0 {
      assert q == 2 * (2 * k);
    } else if r == 1 {
      assert q == 2 * (2 * k) + 1;
    } else if r == 2 {
      assert q == 2 * (2 * k + 1);
    } else {
      assert q == 2 * (2 * k + 1) + 1;
    }
  }

  /** Odd quarter turns swap the sides, even ones keep them. */
  lemma RotatedDimsSwap(w: nat, h: nat, degrees: int)
    requires degrees % 90 == 0
    ensures (degrees / 90) % 2 == 0 ==> RotatedDims(w, h, degrees) == Dims(w, h)
    ensures (degrees / 90) % 2 != 0 ==> RotatedDims(w, h, degrees) == Dims(h, w)
  {
    TurnParity(degrees / 90);
  }

  /** Rotating by `a` and then by `b` gives the canvas a rotation by `a + b`
      gives. */
  lemma RotatedDimsCompose(w: nat, h: nat, a: int, b: int)
    requires a % 90 == 0 && b % 90 == 0
    ensures var d := RotatedDims(w, h, a); RotatedDims(d.width, d.height, b) == RotatedDims(w, h, a + b)
  {
    TurnsAdd(a, b);
    RotatedDimsSwap(w, h, a);
    var d := RotatedDims(w, h, a);
    RotatedDimsSwap(d.width, d.height, b);
    RotatedDimsSwap(w, h, a + b);
  }

  /** Turn counts add up, and the parity of the sum follows from the
      parities of the parts. */
  lemma TurnsAdd(a: int, b: int)
    requires a % 90 == 0 && b % 90 == 0
    ensures (a + b) % 90 == 0 && (a + b) / 90 == a / 90 + b / 90
    ensures ((a + b) / 90) % 2 == 0 <==> (a / 90) % 2 == (b / 90) % 2
  {
    var p, q := a / 90, b / 90;
    assert a + b == 90 * (p + q);
  }

  /** The transform `rotateImage` draws through: move the origin to the
      canvas centre, rotate, and draw the image centred on it. */
  function RotateOps(w: nat, h: nat, degrees: int): seq<CanvasOp>
    requires degrees % 90 == 0
  {
    var d := RotatedDims(w, h, degrees);
    [Translate(d.width as real / 2.0, d.height as real / 2.0), Rotate(QuarterTurns(degrees)),
     Translate(-(w as real) / 2.0, -(h as real) / 2.0)]
  }

  /** A quarter-turn rotation neither crops the image nor leaves a margin
      along the way: every pixel of the image lands on the canvas. */
  lemma RotationStaysOnCanvas(w: nat, h: nat, degrees: int, p: Point)
    requires degrees % 90 == 0 && Inside(p, w as real, h as real)
    ensures var d := RotatedDims(w, h, degrees);
      Inside(MapPoint(RotateOps(w, h, degrees), p), d.width as real, d.height as real)
  {
    RotatedPoint(w, h, degrees, p);
    RotatedDimsSwap(w, h, degrees);
    TurnParity(degrees / 90);
  }

  /** Where the point (x, y) of a `w`×`h` image lands after `t` clockwise
      quarter turns onto a canvas that fits the turned image: (h - y, x)
      after one, (w - x, h - y) after two and (y, w - x) after three. */
  function Quartered(t: nat, w: real, h: real, p: Point): Point {
    if t == 0 then p
    else if t == 1 then Point(h - p.y, p.x)
    else if t == 2 then Point(w - p.x, h - p.y)
    else Point(p.y, w - p.x)
  }

  /** Where `rotateImage` draws each point of the image. */
  lemma RotatedPoint(w: nat, h: nat, degrees: int, p: Point)
    requires degrees % 90 == 0
    ensures MapPoint(RotateOps(w, h, degrees), p) == Quartered(QuarterTurns(degrees), w as real, h as real, p)
  {
    var t := QuarterTurns(degrees);
    var d := RotatedDims(w, h, degrees);
    RotatedDimsSwap(w, h, degrees);
    TurnParity(degrees / 90);
    PlacedPoint(t, w as real, h as real, d.width as real, d.height as real, p);
  }

  /** The three operations of `rotateImage` on plain numbers: centre the
      `w`×`h` image, turn it `t` times, and move it to the centre of a
      `cw`×`ch` canvas whose sides follow the parity of `t`. */
  lemma PlacedPoint(t: nat, w: real, h: real, cw: real, ch: real, p: Point)
    requires t < 4
    requires t % 2 == 0 ==> cw == w && ch == h
    requires t % 2 == 1 ==> cw == h && ch == w
    ensures MapPoint([Translate(cw / 2.0, ch / 2.0), Rotate(t), Translate(-w / 2.0, -h / 2.0)], p) == Quartered(t, w, h, p)
  {
    MapPointThree(Translate(cw / 2.0, ch / 2.0), Rotate(t), Translate(-w / 2.0, -h / 2.0), p);
    var c := ApplyOp(Translate(-w / 2.0, -h / 2.0), p);
    assert c == Point(p.x - w / 2.0, p.y - h / 2.0);
    if t == 0 {
      assert Turn(t, c) == c;
    } else if t == 1 {
      assert Turn(t, c) == Point(-c.y, c.x);
    } else if t == 2 {
      assert Turn(t, c) == Point(-c.x, -c.y);
    } else {
      assert Turn(t, c) == Point(c.y, -c.x);
    }
  }

  /** `rotateImage`: a canvas sized for the rotated image, encoded at quality
      0.95 with the input's type and name. */
  function RotateImage(file: ImageFile, degrees: int, enc: Encoder): (r: Result<ImageFile>)
    requires degrees % 90 == 0
    ensures r.Ok? ==> Dims(r.value.width, r.value.height) == RotatedDims(file.width, file.height, degrees)
    ensures r.Ok? ==> r.value.name == file.name && r.value.mime == file.mime
    ensures r.Err? <==> enc(Some(0.95), RotatedDims(file.width, file.height, degrees).width,
                            RotatedDims(file.width, file.height, degrees).height).None?
    ensures r.Ok? ==> Some(r.value.size) == enc(Some(0.95), r.value.width, r.value.height)
    ensures r.Err? ==> r.error == "Failed to rotate image"
  {
    var d := RotatedDims(file.width, file.height, degrees);
    Redraw(file, 0.95, d.width, d.height, enc, "Failed to rotate image")
  }

  // ---------------------------------------------------------------------
  // flipImage

  /** Whether a direction mirrors the x and the y axis. */
  predicate MirrorsX(dir: FlipDirection) {
    dir == Horizontal || dir == Both
  }

  predicate MirrorsY(dir: FlipDirection) {
    dir == Vertical || dir == Both
  }

  /** The intended picture of a flip: reflection across the canvas's
      vertical and/or horizontal centre line. */
  function Mirror(dir: FlipDirection, w: real, h: real, p: Point): Point {
    Point(if MirrorsX(dir) then w - p.x else p.x, if MirrorsY(dir) then h - p.y else p.y)
  }

  /** The operations `flipImage` issues on a `w`×`h` canvas. The vertical
      step has two branches, one for `'both'` and one for `'vertical'`, that
      issue the same operations. */
  method FlipOps(dir: FlipDirection, w: nat, h: nat) returns (ops: seq<CanvasOp>)
    requires dir != NoFlip
    ensures forall p :: MapPoint(ops, p) == Mirror(dir, w as real, h as real, p)
  {
    ops := [];
    if dir == Horizontal || dir == Both {
      ops := ops + [Translate(w as real, 0.0), Scale(-1.0, 1.0)];
    }
    if dir == Vertical || dir == Both {
      if dir == Both {
        ops := ops + [Translate(0.0, h as real), Scale(1.0, -1.0)];
      } else {
        ops := ops + [Translate(0.0, h as real), Scale(1.0, -1.0)];
      }
    }
    var flipX := [Translate(w as real, 0.0), Scale(-1.0, 1.0)];
    var flipY := [Translate(0.0, h as real), Scale(1.0, -1.0)];
    assert ops == (if MirrorsX(dir) then flipX else []) + (if MirrorsY(dir) then flipY else []);
    forall p ensures MapPoint(ops, p) == Mirror(dir, w as real, h as real, p) {
      MapPointTwo(flipX[0], flipX[1], p);
      MapPointTwo(flipY[0], flipY[1], p);
      if dir == Both {
        MapPointTwo(flipX[0], flipX[1], MapPoint(flipY, p));
        MapPointAppend(flipX, flipY, p);
      } else if dir == Horizontal {
        assert ops == flipX;
      } else {
        assert ops == flipY;
      }
    }
  }

  /** Flipping twice in the same direction restores every point. */
  lemma MirrorInvolution(dir: FlipDirection, w: real, h: real, p: Point)
    ensures Mirror(dir, w, h, Mirror(dir, w, h, p)) == p
  {
  }

  /** A flip maps the canvas onto itself, so nothing is cropped. */
  lemma MirrorStaysOnCanvas(dir: FlipDirection, w: real, h: real, p: Point)
    requires Inside(p, w, h)
    ensures Inside(Mirror(dir, w, h, p), w, h)
  {
  }

  /** `'both'` is the horizontal flip after the vertical one. */
  lemma MirrorBoth(w: real, h: real, p: Point)
    ensures Mirror(Both, w, h, p) == Mirror(Horizontal, w, h, Mirror(Vertical, w, h, p))
  {
  }

  /** `flipImage`: the canvas keeps the image's size. */
  function FlipImage(file: ImageFile, dir: FlipDirection, enc: Encoder): (r: Result<ImageFile>)
    requires dir != NoFlip
    ensures r.Ok? ==> r.value.width == file.width && r.value.height == file.height
    ensures r.Ok? ==> r.value.name == file.name && r.value.mime == file.mime
    ensures r.Err? <==> enc(Some(0.95), file.width, file.height).None?
    ensures r.Ok? ==> Some(r.value.size) == enc(Some(0.95), file.width, file.height)
    ensures r.Err? ==> r.error == "Failed to flip image"
  {
    Redraw(file, 0.95, file.width, file.height, enc, "Failed to flip image")
  }

  // ---------------------------------------------------------------------
  // cropImage

  /** `cropImage`: the canvas is the crop rectangle, whatever the image's
      own size, and `CropDraw` paints it. */
  function CropImage(file: ImageFile, crop: CropRect, enc: Encoder): (r: Result<ImageFile>)
    ensures r.Ok? ==> r.value.width == crop.width && r.value.height == crop.height
    ensures r.Ok? ==> r.value.name == file.name && r.value.mime == file.mime
    ensures r.Err? <==> enc(Some(0.95), crop.width, crop.height).None?
    ensures r.Ok? ==> Some(r.value.size) == enc(Some(0.95), crop.width, crop.height)
    ensures r.Err? ==> r.error == "Failed to crop image"
  {
    Redraw(file, 0.95, crop.width, crop.height, enc, "Failed to crop image")
  }

  datatype Rect = Rect(x: real, y: real, width: real, height: real)

  /** A nine-argument `drawImage`: the `source` rectangle of the image is
      stretched onto the `dest` rectangle of the canvas. */
  datatype DrawCall = DrawCall(source: Rect, dest: Rect)

  /** The image point a draw paints at canvas point `p`. */
  function SourcePoint(d: DrawCall, p: Point): Point
    requires d.dest.width > 0.0 && d.dest.height > 0.0
  {
    Point(d.source.x + (p.x - d.dest.x) * d.source.width / d.dest.width,
          d.source.y + (p.y - d.dest.y) * d.source.height / d.dest.height)
  }

  predicate InRect(p: Point, r: Rect) {
    r.x <= p.x <= r.x + r.width && r.y <= p.y <= r.y + r.height
  }

  /** The draw `cropImage` issues: the crop rectangle of the image onto the
      whole crop-sized canvas. */
  function CropDraw(crop: CropRect): DrawCall {
    DrawCall(Rect(crop.x, crop.y, crop.width as real, crop.height as real),
             Rect(0.0, 0.0, crop.width as real, crop.height as real))
  }

  /** The crop draw covers the whole canvas `cropImage` makes, paints canvas
      point `p` with image point `p` plus the rectangle's corner, and so
      shows exactly the image's crop rectangle. */
  lemma CropShowsRect(file: ImageFile, crop: CropRect, enc: Encoder, p: Point)
    requires crop.width > 0 && crop.height > 0
    ensures CropImage(file, crop, enc).Ok? ==>
      CropDraw(crop).dest == Rect(0.0, 0.0, CropImage(file, crop, enc).value.width as real,
                                  CropImage(file, crop, enc).value.height as real)
    ensures SourcePoint(CropDraw(crop), p) == Point(p.x + crop.x, p.y + crop.y)
    ensures InRect(p, CropDraw(crop).dest) <==> InRect(SourcePoint(CropDraw(crop), p), CropDraw(crop).source)
  {
    var w, h := crop.width as real, crop.height as real;
    assert (p.x - 0.0) * w / w == p.x;
    assert (p.y - 0.0) * h / h == p.y;
  }

  /** The rectangle `b` of an image already cropped to `a`, as a rectangle
      of the original image. */
  function CropWithin(a: CropRect, b: CropRect): CropRect {
    CropRect(a.x + b.x, a.y + b.y, b.width, b.height)
  }

  /** Cropping to `a` and then to `b` is cropping once to `b` shifted by
      `a`'s corner: the same image point at every canvas point. The same
      file only because the encoder here sees no pixels; a lossy codec
      re-encoding the first crop would give another file. */
  lemma CropTwice(file: ImageFile, a: CropRect, b: CropRect, enc: Encoder, p: Point)
    requires a.width > 0 && a.height > 0 && b.width > 0 && b.height > 0
    requires CropImage(file, a, enc).Ok?
    ensures CropImage(CropImage(file, a, enc).value, b, enc) == CropImage(file, CropWithin(a, b), enc)
    ensures SourcePoint(CropDraw(a), SourcePoint(CropDraw(b), p)) == SourcePoint(CropDraw(CropWithin(a, b)), p)
  {
    var q := SourcePoint(CropDraw(b), p);
    CropShowsRect(file, b, enc, p);
    CropShowsRect(file, a, enc, q);
    CropShowsRect(file, CropWithin(a, b), enc, p);
  }

  // ---------------------------------------------------------------------
  // resizeImage

  /** The options `resizeImage` accepts. */
  datatype ResizeRequest = ResizeRequest(
    maxWidth: Option<nat>,
    maxHeight: Option<nat>,
    width: Option<nat>,
    height: Option<nat>,
    maintainAspectRatio: Option<bool>,
    resizeMode: Option<ResizeMode>)

  datatype Size = Size(width: real, height: real)

  /** `a * num / den`: the length `a` scaled by the ratio `num / den`; it is
      never negative and, for a ratio of at most one, never longer than `a`. */
  function Scaled(a: nat, num: nat, den: nat): (r: real)
    requires den > 0
    ensures r * den as real == a as real * num as real
    ensures 0.0 <= r && (num <= den ==> r <= a as real)
  {
    var q := num as real / den as real;
    assert q * den as real == num as real;
    assert q >= 0.0;
    assert num <= den ==> q <= 1.0;
    assert (a as real * num as real) / den as real == a as real * q;
    assert num <= den ==> a as real * (1.0 - q) >= 0.0 * (1.0 - q);
    (a as real * num as real) / den as real
  }

  /** The target-dimension block: given width and height are taken verbatim
      when both are set; otherwise the first limit the image exceeds, width
      before height, is enforced, scaling the other side along when the
      aspect ratio is kept (the default). */
  function ResizeTarget(w: nat, h: nat, req: ResizeRequest): Size {
    var keep := req.maintainAspectRatio.GetOr(true);
    if Truthy(req.width) && Truthy(req.height) then
      Size(req.width.value as real, req.height.value as real)
    else if Truthy(req.maxWidth) && w > req.maxWidth.value then
      var mw := req.maxWidth.value as real;
      Size(mw, if keep then Scaled(h, req.maxWidth.value, w) else h as real)
    else if Truthy(req.maxHeight) && h > req.maxHeight.value then
      var mh := req.maxHeight.value as real;
      Size(if keep then Scaled(w, req.maxHeight.value, h) else w as real, mh)
    else
      Size(w as real, h as real)
  }

  /** Without given dimensions, a width limit the image exceeds is met
      exactly and, with the aspect ratio kept, the shape is unchanged. */
  lemma ResizeMeetsWidthLimit(w: nat, h: nat, req: ResizeRequest)
    requires !(Truthy(req.width) && Truthy(req.height))
    requires Truthy(req.maxWidth) && w > req.maxWidth.value
    ensures ResizeTarget(w, h, req).width == req.maxWidth.value as real
    ensures req.maintainAspectRatio != Some(false) ==>
      ResizeTarget(w, h, req).height * w as real == h as real * ResizeTarget(w, h, req).width
    ensures req.maintainAspectRatio == Some(false) ==> ResizeTarget(w, h, req).height == h as real
  {
  }

  /** Likewise for a height limit, when the width limit is not exceeded. */
  lemma ResizeMeetsHeightLimit(w: nat, h: nat, req: ResizeRequest)
    requires !(Truthy(req.width) && Truthy(req.height))
    requires !(Truthy(req.maxWidth) && w > req.maxWidth.value)
    requires Truthy(req.maxHeight) && h > req.maxHeight.value
    ensures ResizeTarget(w, h, req).height == req.maxHeight.value as real
    ensures req.maintainAspectRatio != Some(false) ==>
      ResizeTarget(w, h, req).width * h as real == w as real * ResizeTarget(w, h, req).height
    ensures req.maintainAspectRatio == Some(false) ==> ResizeTarget(w, h, req).width == w as real
  {
  }

  /** Resizing never enlarges an image when no dimensions are given, and
      leaves it alone when it is within both limits. */
  lemma ResizeNeverEnlarges(w: nat, h: nat, req: ResizeRequest)
    requires !(Truthy(req.width) && Truthy(req.height))
    ensures ResizeTarget(w, h, req).width <= w as real && ResizeTarget(w, h, req).height <= h as real
    ensures !(Truthy(req.maxWidth) && w > req.maxWidth.value) && !(Truthy(req.maxHeight) && h > req.maxHeight.value) ==>
      ResizeTarget(w, h, req) == Size(w as real, h as real)
  {
  }



  /** Only the first exceeded limit is enforced: a 4000×3000 image with
      limits 1920×1080 comes out 1920×1440, taller than its limit. */
  lemma ResizeEnforcesFirstLimitOnly()
    ensures var t := ResizeTarget(4000, 3000, ResizeRequest(Some(1920), Some(1080), None, None, None, Some(Fit)));
      t == Size(1920.0, 1440.0) && t.height > 1080.0
  {
  }

  /** Given width and height are used verbatim, whatever the limits. */
  lemma ResizeUsesGivenDims(w: nat, h: nat, req: ResizeRequest)
    requires Truthy(req.width) && Truthy(req.height)
    ensures ResizeTarget(w, h, req) == Size(req.width.value as real, req.height.value as real)
  {
  }

  /** The `'crop'` mode placement: the image scaled by the larger of the two
      ratios and centred on the `tw`×`th` canvas. */
  datatype Placement = Placement(x: real, y: real, width: real, height: real)

  function CoverPlacement(w: nat, h: nat, tw: nat, th: nat): Placement
    requires w > 0 && h > 0
  {
    var sx := tw as real / w as real;
    var sy := th as real / h as real;
    var scale := if sx >= sy then sx else sy;
    var sw := w as real * scale;
    var sh := h as real * scale;
    Placement((tw as real - sw) / 2.0, (th as real - sh) / 2.0, sw, sh)
  }

  /** The scaled image covers the whole canvas: it is at least as wide and
      as tall, its offsets are never positive, it overhangs both edges
      equally, and one side fits exactly. */
  lemma CoverPlacementCovers(w: nat, h: nat, tw: nat, th: nat)
    requires w > 0 && h > 0
    ensures var p := CoverPlacement(w, h, tw, th);
      p.width >= tw as real && p.height >= th as real && p.x <= 0.0 && p.y <= 0.0 &&
      p.x + p.width + p.x == tw as real && p.y + p.height + p.y == th as real &&
      (p.width == tw as real || p.height == th as real) &&
      p.width * h as real == p.height * w as real
  {
    var sx := tw as real / w as real;
    var sy := th as real / h as real;
    assert w as real * sx == tw as real;
    assert h as real * sy == th as real;
    if sx >= sy {
      assert h as real * sx >= h as real * sy;
    } else {
      assert w as real * sy >= w as real * sx;
    }
  }

  /** Whether `resizeImage` takes the crop-to-fill path. */
  predicate CropsToFill(req: ResizeRequest) {
    req.resizeMode == Some(CropToFill) && Truthy(req.width) && Truthy(req.height)
  }

  /** The canvas `resizeImage` draws on: the given width and height in crop
      mode, and otherwise the target dimensions with their fractions
      dropped. */
  function ResizeCanvas(w: nat, h: nat, req: ResizeRequest): (d: Dims)
    ensures CropsToFill(req) ==> d.width == req.width.value && d.height == req.height.value
    ensures !CropsToFill(req) ==>
      var t := ResizeTarget(w, h, req);
      d.width as real <= t.width < d.width as real + 1.0 &&
      d.height as real <= t.height < d.height as real + 1.0
  {
    var t := ResizeTarget(w, h, req);
    ResizeTargetNonNegative(w, h, req);
    if CropsToFill(req) then Dims(req.width.value, req.height.value)
    else Dims(CanvasLength(t.width), CanvasLength(t.height))
  }

  /** `resizeImage`: the image drawn on `ResizeCanvas` and encoded at
      quality 0.9. */
  function ResizeImage(file: ImageFile, req: ResizeRequest, enc: Encoder): (r: Result<ImageFile>)
    ensures r.Ok? ==> Dims(r.value.width, r.value.height) == ResizeCanvas(file.width, file.height, req)
    ensures r.Ok? ==> r.value.name == file.name && r.value.mime == file.mime
    ensures r.Err? <==> enc(Some(0.9), ResizeCanvas(file.width, file.height, req).width,
                            ResizeCanvas(file.width, file.height, req).height).None?
    ensures r.Ok? ==> Some(r.value.size) == enc(Some(0.9), r.value.width, r.value.height)
    ensures r.Err? ==> r.error == "Failed to resize image"
  {
    var d := ResizeCanvas(file.width, file.height, req);
    Redraw(file, 0.9, d.width, d.height, enc, "Failed to resize image")
  }

  lemma ResizeTargetNonNegative(w: nat, h: nat, req: ResizeRequest)
    ensures ResizeTarget(w, h, req).width >= 0.0 && ResizeTarget(w, h, req).height >= 0.0
  {
  }
}
