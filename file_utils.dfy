/** The helpers of src/lib/fileUtils.ts: the size label, the extension of a
    name, the MIME-type tests and the two upload validators. */
module FileUtils {
  import opened Wrappers
  import opened Strings
  import opened ConverterTypes
  import opened ImageFormats

  // ---------------------------------------------------------------------
  // formatFileSize (fileUtils.ts:3-11)

  function Pow1024(i: nat): (r: nat)
    ensures r >= 1
  {
    if i == 0 then 1 else 1024 * Pow1024(i - 1)
  }

  /** `Math.floor(Math.log(bytes) / Math.log(1024))` for a positive size:
      the power of 1024 the size reaches but does not pass. */
  function UnitIndex(bytes: nat): (i: nat)
    requires bytes >= 1
    ensures Pow1024(i) <= bytes < Pow1024(i + 1)
  {
    if bytes < 1024 then 0
    else
      var q := bytes / 1024;
      var j := UnitIndex(q);
      assert Pow1024(j + 1) == 1024 * Pow1024(j) <= 1024 * q <= bytes;
      assert bytes < 1024 * (q + 1) <= 1024 * Pow1024(j + 1);
      j + 1
  }

  /** The unit names, by index. */
  const Units: seq<string> := ["Bytes", "KB", "MB", "GB"]

  /** `sizes[i]` concatenated into a string: past the end of the array the
      element is `undefined`, which concatenates as that word. */
  function UnitName(i: nat): string {
    if i < |Units| then Units[i] else "undefined"
  }

  /** `Math.round(x * 100) / 100`: two decimals, halves rounded up. */
  function TwoDecimals(x: real): (r: real)
    requires x >= 0.0
    ensures x - 0.005 < r <= x + 0.005
  {
    var n := Round(x * 100.0) as real;
    assert n / 100.0 == n * 0.01;
    n / 100.0
  }

  /** A size label as the source writes it: `show` is JavaScript's
      conversion of a number to text. Sizes of 1024⁴ bytes and up take the
      unit `undefined`. */
  function FormatFileSizeAsWritten(bytes: nat, show: real -> string): string {
    if bytes == 0 then "0 Bytes"
    else
      var i := UnitIndex(bytes);
      show(TwoDecimals(bytes as real / Pow1024(i) as real)) + " " + UnitName(i)
  }

  /** One tebibyte gets the unit `undefined`. */
  lemma AsWrittenTebibyte(show: real -> string)
    ensures UnitIndex(Pow1024(4)) == 4
    ensures FormatFileSizeAsWritten(Pow1024(4), show) == show(1.0) + " undefined"
  {
    var b := Pow1024(4);
    var i := UnitIndex(b);
    if i < 4 {
      PowMonotone(i + 1, 4);
    }
    assert b as real / Pow1024(4) as real == 1.0;
    assert TwoDecimals(1.0) == 1.0;
  }

  lemma {:induction false} PowMonotone(i: nat, j: nat)
    requires i <= j
    ensures Pow1024(i) <= Pow1024(j)
    decreases j
  {
    if i < j {
      PowMonotone(i, j - 1);
    }
  }

  /** The index the label uses: the largest unit there is, gigabytes, for
      every size of at least one gigabyte. */
  function LabelIndex(bytes: nat): (i: nat)
    requires bytes >= 1
    ensures i < |Units|
    ensures i < 3 ==> i == UnitIndex(bytes)
    ensures Pow1024(i) <= bytes
  {
    if UnitIndex(bytes) <= 3 then UnitIndex(bytes)
    else
      PowMonotone(3, UnitIndex(bytes));
      3
  }

  /** `formatFileSize` with the unit index capped at `GB`. */
  function FormatFileSize(bytes: nat, show: real -> string): string {
    if bytes == 0 then "0 Bytes"
    else
      var i := LabelIndex(bytes);
      show(TwoDecimals(bytes as real / Pow1024(i) as real)) + " " + Units[i]
  }

  /** The label is `0 Bytes` for nothing, and otherwise a number of at least
      1 (below 1024 up to the gigabytes) in one of the four units; below
      1024⁴ bytes it is the label the source writes. */
  lemma FormatFileSizeLabels(bytes: nat, show: real -> string)
    requires bytes >= 1
    ensures var i := LabelIndex(bytes);
      && FormatFileSize(bytes, show) == show(TwoDecimals(bytes as real / Pow1024(i) as real)) + " " + Units[i]
      && bytes as real / Pow1024(i) as real >= 1.0
      && (i < 3 ==> bytes as real / Pow1024(i) as real < 1024.0)
    ensures bytes < Pow1024(4) ==> FormatFileSize(bytes, show) == FormatFileSizeAsWritten(bytes, show)
  {
    var i := LabelIndex(bytes);
    var p := Pow1024(i) as real;
    assert bytes as real >= p;
    assert bytes as real / p >= 1.0 by {
      assert (bytes as real / p) * p == bytes as real;
    }
    if i < 3 {
      assert bytes < Pow1024(i + 1) == 1024 * Pow1024(i);
      assert bytes as real / p < 1024.0 by {
        assert (bytes as real / p) * p == bytes as real;
      }
    }
    if bytes < Pow1024(4) {
      var u := UnitIndex(bytes);
      if u > 3 {
        PowMonotone(4, u);
      }
    }
  }

  // ---------------------------------------------------------------------
  // getFileExtension (fileUtils.ts:13-15)

  /** `s.split('.').pop()`: the text after the last dot, or all of `s` when
      it has no dot. */
  function AfterLastDot(s: string): (r: string)
    ensures EndsWith(s, r) && '.' !in r
    ensures '.' in s ==> |r| < |s| && s[|s| - |r| - 1] == '.'
    ensures '.' !in s ==> r == s
  {
    if s == [] then []
    else if s[|s| - 1] == '.' then []
    else
      var r := AfterLastDot(s[..|s| - 1]);
      assert s == s[..|s| - 1] + [s[|s| - 1]];
      assert '.' in s ==> '.' in s[..|s| - 1];
      r + [s[|s| - 1]]
  }

  /** The segment after a dot that is followed by no other dot is the last
      one. */
  lemma {:induction false} AfterLastDotAt(s: string, k: int)
    requires 0 <= k < |s| && s[k] == '.' && '.' !in s[k + 1..]
    ensures AfterLastDot(s) == s[k + 1..]
  {
    var r := AfterLastDot(s);
    var j := |s| - |r| - 1;
    assert s[j] == '.';
    assert s[j + 1..] == r;
  }

  /** `getFileExtension`: the lower-cased text after the last dot, or the
      whole lower-cased name when there is none. */
  function GetFileExtension(name: string): (r: string)
    ensures '.' !in r
    ensures '.' in name ==> EndsWith(Lower(name), "." + r)
    ensures '.' !in name ==> r == Lower(name)
  {
    var seg := AfterLastDot(name);
    var r := Lower(seg);
    forall i | 0 <= i < |r| ensures r[i] != '.' {
      LowerKeepsPunctuation(seg, i);
    }
    if '.' in name then
      var k := |name| - |seg| - 1;
      assert name[k + 1..] == seg;
      LowerEnding(name, k);
      r
    else r
  }

  /** Lower-casing a name keeps a dot at `k`, followed by the lower-cased
      rest. */
  lemma LowerEnding(s: string, k: int)
    requires 0 <= k < |s| && s[k] == '.'
    ensures EndsWith(Lower(s), "." + Lower(s[k + 1..]))
  {
    var t, e := Lower(s), "." + Lower(s[k + 1..]);
    forall i | 0 <= i < |e| ensures t[k + i] == e[i] {
      if i > 0 {
        assert e[i] == Lower(s[k + 1..])[i - 1];
        assert s[k + 1..][i - 1] == s[k + i];
      }
    }
    assert t[|t| - |e|..] == e;
  }

  /** A lower-cased name ends with `.ext` exactly when the name has a dot
      and its extension is `ext`, for an extension without a dot. */
  lemma ExtensionMatch(name: string, ext: string)
    requires '.' !in ext
    ensures EndsWith(Lower(name), "." + ext) <==> '.' in name && GetFileExtension(name) == ext
  {
    if EndsWith(Lower(name), "." + ext) {
      var k := |name| - |ext| - 1;
      LowerKeepsPunctuation(name, k);
      assert Lower(name)[k] == ("." + ext)[0];
      var tail := name[k + 1..];
      assert Lower(name)[k + 1..] == ext;
      assert Lower(tail) == ext;
      forall i | 0 <= i < |tail| ensures tail[i] != '.' {
        LowerKeepsPunctuation(tail, i);
        assert Lower(tail)[i] == ext[i];
      }
      AfterLastDotAt(name, k);
    }
  }

  /** After the converter renames a file with an extension, the extension
      read back is the format's name. */
  lemma ExtensionAfterRewrite(name: string, f: ImageFormat)
    requires HasExtension(name)
    ensures GetFileExtension(ReplaceExtension(name, FormatName(f))) == FormatName(f)
  {
    var e := FormatName(f);
    var r := ReplaceExtension(name, e);
    var k := |r| - |e| - 1;
    assert r[k + 1..] == e && r[k] == '.';
    AfterLastDotAt(r, k);
    FormatNameIsLower(f);
  }

  // ---------------------------------------------------------------------
  // isImageFile, isVideoFile (fileUtils.ts:17-23)

  predicate IsImageFile(mime: string) {
    StartsWith(mime, "image/")
  }

  predicate IsVideoFile(mime: string) {
    StartsWith(mime, "video/")
  }

  /** No type is both. */
  lemma ImageOrVideo(mime: string)
    ensures !(IsImageFile(mime) && IsVideoFile(mime))
  {
    if IsImageFile(mime) {
      assert mime[0] == "image/"[0];
    }
  }

  // ---------------------------------------------------------------------
  // validateImageFile, validateVideoFile (fileUtils.ts:53-81)

  /** `{ valid, error? }`. */
  datatype Validation = Validation(valid: bool, error: Option<string>)

  const MaxImageBytes: nat := 50 * 1024 * 1024
  const MaxVideoBytes: nat := 500 * 1024 * 1024

  const ImageTypes: seq<string> :=
    ["image/jpeg", "image/jpg", "image/png", "image/webp", "image/bmp", "image/gif", "image/tiff"]

  const VideoTypes: seq<string> :=
    ["video/mp4", "video/webm", "video/avi", "video/quicktime", "video/x-msvideo", "video/x-matroska"]

  const VideoExtensions: seq<string> := ["mp4", "webm", "avi", "mov", "mkv"]

  /** `/\.(mp4|webm|avi|mov|mkv)$/i`. */
  predicate VideoName(name: string) {
    exists e | e in VideoExtensions :: EndsWith(Lower(name), "." + e)
  }

  /** `validateImageFile`: the type is checked before the size. */
  function ValidateImageFile(mime: string, size: nat): (v: Validation)
    ensures v.valid <==> mime in ImageTypes && size <= MaxImageBytes
    ensures v.valid <==> v.error.None?
    ensures mime !in ImageTypes ==> v.error == Some("Unsupported image format")
    ensures mime in ImageTypes && size > MaxImageBytes ==> v.error == Some("File size exceeds 50MB limit")
  {
    if mime !in ImageTypes then Validation(false, Some("Unsupported image format"))
    else if size > MaxImageBytes then Validation(false, Some("File size exceeds 50MB limit"))
    else Validation(true, None)
  }

  /** Every accepted image passes `isImageFile`, and the JPEG, PNG, WebP,
      BMP, GIF and TIFF files the converter writes pass while its AVIF files
      do not. */
  lemma ImageValidationAgrees(mime: string, size: nat, f: ImageFormat)
    ensures ValidateImageFile(mime, size).valid ==> IsImageFile(mime)
    ensures ValidateImageFile(MimeType(f), size).valid <==> f != Avif && size <= MaxImageBytes
  {
    if ValidateImageFile(mime, size).valid {
      assert mime[..6] == "image/";
    }
  }

  /** `validateVideoFile`: a listed type or a video extension in any case,
      then the size. */
  function ValidateVideoFile(mime: string, name: string, size: nat): (v: Validation)
    ensures v.valid <==> (mime in VideoTypes || VideoName(name)) && size <= MaxVideoBytes
    ensures v.valid <==> v.error.None?
    ensures !(mime in VideoTypes || VideoName(name)) ==> v.error == Some("Unsupported video format")
    ensures (mime in VideoTypes || VideoName(name)) && size > MaxVideoBytes ==>
      v.error == Some("File size exceeds 500MB limit")
  {
    if mime !in VideoTypes && !VideoName(name) then Validation(false, Some("Unsupported video format"))
    else if size > MaxVideoBytes then Validation(false, Some("File size exceeds 500MB limit"))
    else Validation(true, None)
  }

  /** The name test is the extension test: a name passes exactly when its
      extension, lower-cased, is one of the five; so `CLIP.MKV` passes
      whatever its type. */
  lemma VideoNameIsExtension(name: string)
    ensures VideoName(name) <==> '.' in name && GetFileExtension(name) in VideoExtensions
  {
    forall e | e in VideoExtensions ensures EndsWith(Lower(name), "." + e) <==> '.' in name && GetFileExtension(name) == e {
      ExtensionMatch(name, e);
    }
  }
}
