/** The option records a conversion request carries, and the abstract image
    file the pipeline passes from stage to stage. Pixels are not modelled: an
    image is its name, MIME type, byte size and pixel dimensions. */
module ConverterTypes {
  import opened Wrappers

  datatype ImageFormat = Jpg | Jpeg | Png | Webp | Bmp | Gif | Tiff | Avif

  /** The format's spelling in option values and file extensions. */
  function FormatName(f: ImageFormat): (r: string)
    ensures |r| > 0 && '.' !in r && '/' !in r
  {
    match f
    case Jpg => "jpg"
    case Jpeg => "jpeg"
    case Png => "png"
    case Webp => "webp"
    case Bmp => "bmp"
    case Gif => "gif"
    case Tiff => "tiff"
    case Avif => "avif"
  }

  datatype ResizeMode = Fit | Fill | CropToFill

  datatype FlipDirection = Horizontal | Vertical | Both | NoFlip

  /** Each adjustment is optional; an absent one is not emitted. */
  datatype Filters = Filters(
    brightness: Option<real>,
    contrast: Option<real>,
    saturation: Option<real>,
    blur: Option<real>,
    grayscale: Option<bool>,
    sepia: Option<bool>)

  datatype CropRect = CropRect(x: real, y: real, width: nat, height: nat)

  datatype SizeUnit = KB | MB

  datatype TargetFileSize = TargetFileSize(enabled: bool, size: real, unit: SizeUnit)

  datatype ConversionOptions = ConversionOptions(
    format: ImageFormat,
    quality: int,
    maxWidth: Option<nat>,
    maxHeight: Option<nat>,
    maintainAspectRatio: bool,
    resizeMode: Option<ResizeMode>,
    crop: Option<CropRect>,
    rotate: Option<int>,
    flip: Option<FlipDirection>,
    filters: Option<Filters>,
    targetFileSize: Option<TargetFileSize>)

  /** A browser `File` holding an encoded image, reduced to what the
      pipeline inspects. */
  datatype ImageFile = ImageFile(name: string, mime: string, size: nat, width: nat, height: nat)

  datatype Dims = Dims(width: nat, height: nat)

  /** `canvas.toBlob` for one decoded image: drawn at the given width and
      height and encoded with the given quality argument (absent when the
      caller passes `undefined`), it yields a blob of that many bytes, or
      nothing when the browser returns `null`. Deterministic. */
  type Encoder = (Option<real>, nat, nat) -> Option<nat>

  /** JavaScript truthiness of an optional pixel count: absent and 0 are false. */
  predicate Truthy(n: Option<nat>) {
    n.Some? && n.value > 0
  }

  /** `canvas.width = x` for a non-negative number: the fraction is dropped. */
  function CanvasLength(x: real): (n: nat)
    requires x >= 0.0
    ensures n as real <= x < n as real + 1.0
  {
    x.Floor
  }

  /** `Math.round` on non-negative numbers: halves round up. */
  function Round(x: real): (n: int)
    ensures n as real - 0.5 <= x < n as real + 0.5
  {
    (x + 0.5).Floor
  }
}
