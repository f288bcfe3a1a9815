/** Format bookkeeping of src/lib/imageProcessor.ts: the MIME table, the
    format sniffing of `getImageFormat`, the file-name rewrite every encoder
    applies, and `convertImageFormat`. */
module ImageFormats {
  import opened Wrappers
  import opened Strings
  import opened ConverterTypes

  /** `getMimeType`: every format has an entry, so the `'image/png'`
      fallback is never taken. */
  function MimeType(f: ImageFormat): (r: string)
    ensures StartsWith(r, "image/")
  {
    match f
    case Jpg => "image/jpeg"
    case Jpeg => "image/jpeg"
    case Png => "image/png"
    case Webp => "image/webp"
    case Bmp => "image/bmp"
    case Gif => "image/gif"
    case Tiff => "image/tiff"
    case Avif => "image/avif"
  }

  /** The format `getImageFormat` reports for a file written as `f`. */
  function Reported(f: ImageFormat): ImageFormat {
    if f == Jpeg then Jpg else f
  }

  /** `getImageFormat`: the first format whose name occurs in the lower-cased
      MIME type, or whose extension ends the lower-cased file name; PNG when
      none does. */
  function GetImageFormat(file: ImageFile): (r: ImageFormat)
    ensures r != Jpeg
    ensures Contains(Lower(file.mime), "jpeg") ==> r == Jpg
  {
    var t := Lower(file.mime);
    var n := Lower(file.name);
    if Contains(t, "jpeg") || EndsWith(n, ".jpg") || EndsWith(n, ".jpeg") then Jpg
    else if Contains(t, "png") || EndsWith(n, ".png") then Png
    else if Contains(t, "webp") || EndsWith(n, ".webp") then Webp
    else if Contains(t, "bmp") || EndsWith(n, ".bmp") then Bmp
    else if Contains(t, "gif") || EndsWith(n, ".gif") then Gif
    else if Contains(t, "tiff") || EndsWith(n, ".tiff") || EndsWith(n, ".tif") then Tiff
    else if Contains(t, "avif") || EndsWith(n, ".avif") then Avif
    else Png
  }

  /** The regular expression `/\.[^/.]+$/` matches `s` at `i`: a dot, then one
      or more characters up to the end, none of them a dot or a slash. */
  ghost predicate ExtensionAt(s: string, i: int) {
    0 <= i < |s| - 1 && s[i] == '.' && forall k :: i < k < |s| ==> s[k] != '.' && s[k] != '/'
  }

  ghost predicate HasExtension(s: string) {
    exists i :: ExtensionAt(s, i)
  }

  /** There is at most one place the expression can match. */
  lemma ExtensionAtUnique(s: string, i: int, j: int)
    requires ExtensionAt(s, i) && ExtensionAt(s, j)
    ensures i == j
  {
  }

  /** Scans leftwards from `j` for the dot that opens the extension;
      everything at `j` and after is already known to be neither a dot nor
      a slash. */
  function ExtensionScan(s: string, j: nat): (r: Option<nat>)
    requires j <= |s|
    requires forall k :: j <= k < |s| ==> s[k] != '.' && s[k] != '/'
    ensures r.Some? ==> ExtensionAt(s, r.value)
    ensures r.None? ==> !HasExtension(s)
    decreases j
  {
    if j == 0 then None
    else if s[j - 1] == '.' then (if j < |s| then Some(j - 1) else None)
    else if s[j - 1] == '/' then None
    else ExtensionScan(s, j - 1)
  }

  /** Where `/\.[^/.]+$/` matches the name, if anywhere. */
  function ExtensionDot(s: string): (r: Option<nat>)
    ensures r.Some? <==> HasExtension(s)
    ensures r.Some? ==> ExtensionAt(s, r.value)
  {
    ExtensionScan(s, |s|)
  }

  /** `name.replace(/\.[^/.]+$/, '.' + ext)`. */
  function ReplaceExtension(name: string, ext: string): (r: string)
    requires |ext| > 0 && '.' !in ext && '/' !in ext
    ensures HasExtension(name) ==> HasExtension(r) && EndsWith(r, "." + ext)
    ensures HasExtension(name) ==> forall i :: ExtensionAt(name, i) ==> i < |r| && r[..i] == name[..i]
    ensures forall i :: ExtensionAt(name, i) ==> r == name[..i] + "." + ext
    ensures !HasExtension(name) ==> r == name
  {
    match ExtensionDot(name)
    case Some(i) =>
      var r := name[..i] + "." + ext;
      assert ExtensionAt(r, i);
      forall j | ExtensionAt(name, j) ensures j == i { ExtensionAtUnique(name, i, j); }
      r
    case None => name
  }

  /** The extension of a rewritten name is exactly where the new one was put. */
  lemma ExtensionOfReplaced(name: string, ext: string)
    requires |ext| > 0 && '.' !in ext && '/' !in ext
    requires HasExtension(name)
    ensures ExtensionDot(ReplaceExtension(name, ext)) == Some(|ReplaceExtension(name, ext)| - |ext| - 1)
  {
    var r := ReplaceExtension(name, ext);
    var i := ExtensionDot(name).value;
    assert r == name[..i] + "." + ext;
    var k := |r| - |ext| - 1;
    assert ExtensionAt(r, k);
    ExtensionAtUnique(r, k, ExtensionDot(r).value);
  }

  /** Rewriting twice is rewriting once with the second extension; in
      particular the rewrite is idempotent. */
  lemma {:induction false} ReplaceExtensionTwice(name: string, e1: string, e2: string)
    requires |e1| > 0 && '.' !in e1 && '/' !in e1
    requires |e2| > 0 && '.' !in e2 && '/' !in e2
    ensures ReplaceExtension(ReplaceExtension(name, e1), e2) == ReplaceExtension(name, e2)
  {
    if HasExtension(name) {
      var i := ExtensionDot(name).value;
      var r1 := ReplaceExtension(name, e1);
      assert r1 == name[..i] + "." + e1;
      ExtensionOfReplaced(name, e1);
      assert ExtensionDot(r1) == Some(i);
      assert r1[..i] == name[..i];
    }
  }

  /** A lower-cased name that ends in a dot-extension had that extension
      before lower-casing. */
  lemma ExtensionThroughLower(name: string, e: string)
    requires |e| >= 2 && e[0] == '.' && '.' !in e[1..] && '/' !in e[1..]
    requires EndsWith(Lower(name), e)
    ensures ExtensionAt(name, |name| - |e|)
  {
    var l := Lower(name);
    var i := |name| - |e|;
    assert l[i] == e[0];
    forall k | i < k < |name| ensures name[k] != '.' && name[k] != '/' {
      assert l[k] == e[k - i] == e[1..][k - i - 1];
    }
  }

  /** After a rewrite to `ext`, the only dot-extension the lower-cased name
      can end with is `'.' + ext`. */
  lemma ReplacedEndsOnlyWith(name: string, ext: string, e: string)
    requires |ext| > 0 && '.' !in ext && '/' !in ext
    requires Lower(ext) == ext
    requires |e| >= 2 && e[0] == '.' && '.' !in e[1..] && '/' !in e[1..]
    requires EndsWith(Lower(ReplaceExtension(name, ext)), e)
    ensures HasExtension(name) && e == "." + ext
  {
    var r := ReplaceExtension(name, ext);
    ExtensionThroughLower(r, e);
    assert HasExtension(name);
    ExtensionOfReplaced(name, ext);
    ExtensionAtUnique(r, |r| - |e|, |r| - |ext| - 1);
    var dotted := "." + ext;
    forall i | 0 <= i < |dotted| ensures Lower(dotted)[i] == dotted[i] {
      if i > 0 {
        assert dotted[i] == ext[i - 1] == Lower(ext)[i - 1];
      }
    }
    LowerKeepsSuffix(r, dotted);
    var l := Lower(r);
    assert l[|l| - |e|..] == e && l[|l| - |dotted|..] == dotted;
  }

  /** The extensions `getImageFormat` looks for. */
  const KnownExtensions: seq<string> :=
    [".jpg", ".jpeg", ".png", ".webp", ".bmp", ".gif", ".tiff", ".tif", ".avif"]

  /** The MIME types the encoders write are already lower case. */
  lemma MimeIsLower(f: ImageFormat)
    ensures Lower(MimeType(f)) == MimeType(f)
  {
    LowerOfLowercase(MimeType(f));
  }

  /* Each MIME type written for a format contains the word `getImageFormat`
     looks for at that format's rank, and none of the words it tries first. */

  lemma MimeWordsJpeg()
    ensures Contains("image/jpeg", "jpeg")
  {
    assert OccursAt("image/jpeg", "jpeg", 6);
  }

  lemma MimeWordsPng()
    ensures !Contains("image/png", "jpeg") && Contains("image/png", "png")
  {
    AbsentByPrefix("image/png", "jpeg");
    assert OccursAt("image/png", "png", 6);
  }

  lemma MimeWordsWebp()
    ensures !Contains("image/webp", "jpeg") && !Contains("image/webp", "png")
    ensures Contains("image/webp", "webp")
  {
    AbsentByPrefix("image/webp", "jpeg");
    AbsentByPrefix("image/webp", "png");
    assert OccursAt("image/webp", "webp", 6);
  }

  lemma MimeWordsBmp()
    ensures !Contains("image/bmp", "jpeg") && !Contains("image/bmp", "png")
    ensures !Contains("image/bmp", "webp") && Contains("image/bmp", "bmp")
  {
    AbsentByPrefix("image/bmp", "jpeg");
    AbsentByPrefix("image/bmp", "png");
    AbsentByPrefix("image/bmp", "webp");
    assert OccursAt("image/bmp", "bmp", 6);
  }

  lemma MimeWordsGif()
    ensures !Contains("image/gif", "jpeg") && !Contains("image/gif", "png")
    ensures !Contains("image/gif", "webp") && !Contains("image/gif", "bmp")
    ensures Contains("image/gif", "gif")
  {
    AbsentByPrefix("image/gif", "jpeg");
    AbsentByPrefix("image/gif", "png");
    AbsentByPrefix("image/gif", "webp");
    AbsentByPrefix("image/gif", "bmp");
    assert OccursAt("image/gif", "gif", 6);
  }

  lemma MimeWordsTiff()
    ensures !Contains("image/tiff", "jpeg") && !Contains("image/tiff", "png")
    ensures !Contains("image/tiff", "webp") && !Contains("image/tiff", "bmp")
    ensures !Contains("image/tiff", "gif") && Contains("image/tiff", "tiff")
  {
    AbsentByPrefix("image/tiff", "jpeg");
    AbsentByPrefix("image/tiff", "png");
    AbsentByPrefix("image/tiff", "webp");
    AbsentByPrefix("image/tiff", "bmp");
    AbsentByPrefix("image/tiff", "gif");
    assert OccursAt("image/tiff", "tiff", 6);
  }

  lemma MimeWordsAvif()
    ensures !Contains("image/avif", "jpeg") && !Contains("image/avif", "png")
    ensures !Contains("image/avif", "webp") && !Contains("image/avif", "bmp")
    ensures !Contains("image/avif", "gif") && !Contains("image/avif", "tiff")
    ensures Contains("image/avif", "avif")
  {
    AbsentByPrefix("image/avif", "jpeg");
    AbsentByPrefix("image/avif", "png");
    AbsentByPrefix("image/avif", "webp");
    AbsentByPrefix("image/avif", "bmp");
    AbsentByPrefix("image/avif", "gif");
    AbsentByPrefix("image/avif", "tiff");
    assert OccursAt("image/avif", "avif", 6);
  }

  /** The extensions `getImageFormat` knows are all dot-extensions. */
  lemma KnownExtensionShape(e: string)
    requires e in KnownExtensions
    ensures |e| >= 2 && e[0] == '.' && '.' !in e[1..] && '/' !in e[1..]
  {
  }

  lemma FormatNameIsLower(f: ImageFormat)
    ensures Lower(FormatName(f)) == FormatName(f)
  {
    LowerOfLowercase(FormatName(f));
  }

  /** A known extension ending a rewritten name is the one written: it has
      the written name's length plus one and starts with its first letter. */
  lemma OwnEnding(name: string, f: ImageFormat, e: string)
    requires e in KnownExtensions
    requires EndsWith(Lower(ReplaceExtension(name, FormatName(f))), e)
    ensures |e| == |FormatName(f)| + 1 && e[1] == FormatName(f)[0]
  {
    KnownExtensionShape(e);
    FormatNameIsLower(f);
    ReplacedEndsOnlyWith(name, FormatName(f), e);
    assert e[1] == ("." + FormatName(f))[1];
  }

  /** The lower-cased name of a file rewritten to `f` ends with one of the
      extensions `getImageFormat` knows only if it is `f`'s own. */
  lemma NameEndingsAfterRewrite(name: string, f: ImageFormat)
    ensures var n := Lower(ReplaceExtension(name, FormatName(f)));
      && (EndsWith(n, ".jpg") ==> f == Jpg)
      && (EndsWith(n, ".jpeg") ==> f == Jpeg)
      && (EndsWith(n, ".png") ==> f == Png)
      && (EndsWith(n, ".webp") ==> f == Webp)
      && (EndsWith(n, ".bmp") ==> f == Bmp)
      && (EndsWith(n, ".gif") ==> f == Gif)
      && (EndsWith(n, ".tiff") ==> f == Tiff)
      && !EndsWith(n, ".tif")
      && (EndsWith(n, ".avif") ==> f == Avif)
  {
    var n := Lower(ReplaceExtension(name, FormatName(f)));
    forall e | e in KnownExtensions && EndsWith(n, e) ensures EndingNames(e, f) {
      OwnEnding(name, f, e);
      FormatOfEnding(f, e);
    }
    assert ".jpg" in KnownExtensions && ".jpeg" in KnownExtensions && ".png" in KnownExtensions;
    assert ".webp" in KnownExtensions && ".bmp" in KnownExtensions && ".gif" in KnownExtensions;
    assert ".tiff" in KnownExtensions && ".tif" in KnownExtensions && ".avif" in KnownExtensions;
  }

  /** Which format a known extension `e` names, if `f` is the one named. */
  predicate EndingNames(e: string, f: ImageFormat) {
    && (e == ".jpg" ==> f == Jpg)
    && (e == ".jpeg" ==> f == Jpeg)
    && (e == ".png" ==> f == Png)
    && (e == ".webp" ==> f == Webp)
    && (e == ".bmp" ==> f == Bmp)
    && (e == ".gif" ==> f == Gif)
    && (e == ".tiff" ==> f == Tiff)
    && e != ".tif"
    && (e == ".avif" ==> f == Avif)
  }

  /** A known extension with a format name's length plus one and its first
      letter names that format, and `.tif` names none. */
  lemma FormatOfEnding(f: ImageFormat, e: string)
    requires e in KnownExtensions
    requires |e| == |FormatName(f)| + 1 && e[1] == FormatName(f)[0]
    ensures EndingNames(e, f)
  {
    match f
    case Jpg =>
    case Jpeg =>
    case Png =>
    case Webp =>
    case Bmp =>
    case Gif =>
    case Tiff =>
    case Avif =>
  }

  /** A file written as `f` (MIME type and name as the encoders produce them)
      is reported as `f`, except that JPEG is reported as `jpg`. */
  lemma ReportedAfterRewrite(name: string, f: ImageFormat, size: nat, w: nat, h: nat)
    ensures GetImageFormat(ImageFile(ReplaceExtension(name, FormatName(f)), MimeType(f), size, w, h)) == Reported(f)
  {
    MimeIsLower(f);
    NameEndingsAfterRewrite(name, f);
    match f
    case Jpg => MimeWordsJpeg();
    case Jpeg => MimeWordsJpeg();
    case Png => MimeWordsPng();
    case Webp => MimeWordsWebp();
    case Bmp => MimeWordsBmp();
    case Gif => MimeWordsGif();
    case Tiff => MimeWordsTiff();
    case Avif => MimeWordsAvif();
  }

  /** `convertImageFormat` passes its quality only for formats other than
      PNG and AVIF (imageProcessor.ts:29). */
  predicate ConvertUsesQuality(f: ImageFormat) {
    f != Png && f != Avif
  }

  /** `compressToTargetSize` passes its quality only for formats other than
      PNG, BMP, GIF and TIFF (imageProcessor.ts:415). */
  predicate TargetUsesQuality(f: ImageFormat) {
    f != Png && f != Bmp && f != Gif && f != Tiff
  }

  /** The two tests disagree on BMP, GIF, TIFF and AVIF and agree elsewhere. */
  lemma QualityTestsDisagree(f: ImageFormat)
    ensures ConvertUsesQuality(f) != TargetUsesQuality(f) <==> f in {Bmp, Gif, Tiff, Avif}
  {
  }

  /** The quality argument `convertImageFormat` hands the encoder. */
  function ConvertQualityArg(f: ImageFormat, quality: real): Option<real> {
    if ConvertUsesQuality(f) then Some(quality) else None
  }

  /** `convertImageFormat`: draws the decoded image at its own size, encodes
      it as `f`, and renames the file to `f`'s extension. The result is a
      file that `getImageFormat` reports as `f` (as `jpg` for JPEG), so a
      second conversion to the same format would be skipped, except for JPEG. */
  function ConvertImageFormat(file: ImageFile, f: ImageFormat, quality: real, enc: Encoder): (r: Result<ImageFile>)
    ensures r.Err? <==> enc(ConvertQualityArg(f, quality), file.width, file.height).None?
    ensures r.Err? ==> r.error == "Failed to convert image"
    ensures r.Ok? ==> GetImageFormat(r.value) == Reported(f)
    ensures r.Ok? ==> r.value.name == ReplaceExtension(file.name, FormatName(f))
    ensures r.Ok? ==> r.value.mime == MimeType(f) && r.value.width == file.width && r.value.height == file.height
    ensures r.Ok? ==> r.value.size == enc(ConvertQualityArg(f, quality), file.width, file.height).value
  {
    match enc(ConvertQualityArg(f, quality), file.width, file.height)
    case None => Err("Failed to convert image")
    case Some(size) =>
      var out := ImageFile(ReplaceExtension(file.name, FormatName(f)), MimeType(f), size, file.width, file.height);
      ReportedAfterRewrite(file.name, f, size, file.width, file.height);
      Ok(out)
  }
}
