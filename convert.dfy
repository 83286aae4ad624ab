/** The conversion pipeline's decisions: validating a file's magic bytes
    against its extension, deriving the output file name, choosing the
    geometric correction for an EXIF orientation, the encoder settings, the
    resize bounds, and the order in which `convert_image` fails. The codecs
    themselves are not modelled: what they report (whether decoding worked,
    the dimensions they produce, the bytes they emit) comes in as parameters. */
module Convert {
  import opened Common
  import opened State
  import opened Exif

  // ------------------------------------------------ magic bytes

  /** JPEG start-of-image marker followed by the first byte of the next marker
      (Annex B, Table B.1 of ITU-T T.81). */
  const MagicJpeg: seq<byte> := [0xFF, 0xD8, 0xFF]
  /** The first four bytes of the PNG signature (section 5.2 of the W3C PNG
      specification). */
  const MagicPng: seq<byte> := [0x89, 0x50, 0x4E, 0x47]
  /** `RIFF`. */
  const MagicWebp: seq<byte> := [0x52, 0x49, 0x46, 0x46]
  /** `WEBP`, the RIFF form type at bytes 8-11. */
  const WebpForm: seq<byte> := [0x57, 0x45, 0x42, 0x50]
  /** `ftyp`, the type of the first box of an ISO base media file (section 4.3
      of ISO/IEC 14496-12), at bytes 4-7. */
  const MagicHeic: seq<byte> := [0x66, 0x74, 0x79, 0x70]

  /** The 12-byte header buffer after one read: the file's first bytes, and
      zeros where the file is shorter. */
  function Header(file: seq<byte>): (h: seq<byte>)
    ensures |h| == 12
    ensures 12 <= |file| ==> h == file[..12]
    ensures |file| < 12 ==> h[..|file|] == file && forall i :: |file| <= i < 12 ==> h[i] == 0
  {
    seq(12, i requires 0 <= i < 12 => if i < |file| then file[i] else 0)
  }

  predicate IsJpegExtension(ext: string) {
    AsciiLower(ext) == "jpg" || AsciiLower(ext) == "jpeg"
  }

  predicate IsHeicExtension(ext: string) {
    AsciiLower(ext) == "heic" || AsciiLower(ext) == "heif"
  }

  /** Whether a header is acceptable for a file with extension `ext`. */
  predicate MagicMatches(ext: string, header: seq<byte>)
    requires |header| == 12
  {
    var e := AsciiLower(ext);
    if e == "jpg" || e == "jpeg" then StartsWith(header, MagicJpeg)
    else if e == "png" then StartsWith(header, MagicPng)
    else if e == "webp" then StartsWith(header, MagicWebp) && header[8..12] == WebpForm
    else if e == "heic" || e == "heif" then header[4..8] == MagicHeic
    else true
  }

  /** Why a conversion stopped. */
  datatype ConvertError =
    | OpenFailed     // the file could not be opened or read
    | MagicMismatch  // the header does not match the extension
    | FileTooLarge   // more than `MaxFileSize` bytes
    | DecodeFailed   // the decoder (or the HEIC loader) failed
    | CreateFailed   // the output file could not be created
    | EncodeFailed   // the encoder or the write failed

  datatype Check = Passed | Failed(error: ConvertError)

  /** `validate_file_magic`: `file` is the file's contents, `None` when it
      cannot be opened or read. */
  function ValidateFileMagic(path: FilePath, file: Option<seq<byte>>): (r: Check)
    ensures r.Failed? ==> r.error == OpenFailed || r.error == MagicMismatch
  {
    match file
    case None => Failed(OpenFailed)
    case Some(bytes) => if MagicMatches(Extension(path), Header(bytes)) then Passed else Failed(MagicMismatch)
  }

  /** A window of the header equals a signature with no zero byte exactly when
      the file is long enough and holds the signature there: zero filling
      never forges a signature. */
  lemma HeaderWindow(file: seq<byte>, lo: nat, hi: nat, magic: seq<byte>)
    requires lo < hi <= 12 && |magic| == hi - lo
    requires forall i :: 0 <= i < |magic| ==> magic[i] != 0
    ensures Header(file)[lo..hi] == magic <==> hi <= |file| && file[lo..hi] == magic
  {
    var h := Header(file);
    if hi <= |file| {
      assert h[lo..hi] == file[lo..hi];
    } else {
      assert h[lo..hi][hi - 1 - lo] == h[hi - 1] == 0;
      assert magic[hi - 1 - lo] != 0;
    }
  }

  /** `jpg`/`jpeg` files pass exactly when they start `FF D8 FF`. */
  lemma JpegMagicIff(path: FilePath, bytes: seq<byte>)
    requires IsJpegExtension(Extension(path))
    ensures ValidateFileMagic(path, Some(bytes)) == Passed <==> 3 <= |bytes| && bytes[..3] == MagicJpeg
  {
    HeaderWindow(bytes, 0, 3, MagicJpeg);
  }

  /** `png` files pass exactly when they start `89 50 4E 47`. */
  lemma PngMagicIff(path: FilePath, bytes: seq<byte>)
    requires AsciiLower(Extension(path)) == "png"
    ensures ValidateFileMagic(path, Some(bytes)) == Passed <==> 4 <= |bytes| && bytes[..4] == MagicPng
  {
    HeaderWindow(bytes, 0, 4, MagicPng);
  }

  /** `webp` files pass exactly when they start `RIFF` and bytes 8-11 read
      `WEBP`. */
  lemma WebpMagicIff(path: FilePath, bytes: seq<byte>)
    requires AsciiLower(Extension(path)) == "webp"
    ensures ValidateFileMagic(path, Some(bytes)) == Passed <==>
      12 <= |bytes| && bytes[..4] == MagicWebp && bytes[8..12] == WebpForm
  {
    HeaderWindow(bytes, 0, 4, MagicWebp);
    HeaderWindow(bytes, 8, 12, WebpForm);
  }

  /** `heic`/`heif` files pass exactly when bytes 4-7 read `ftyp`. */
  lemma HeicMagicIff(path: FilePath, bytes: seq<byte>)
    requires IsHeicExtension(Extension(path))
    ensures ValidateFileMagic(path, Some(bytes)) == Passed <==> 8 <= |bytes| && bytes[4..8] == MagicHeic
  {
    HeaderWindow(bytes, 4, 8, MagicHeic);
  }

  /** Any other extension, including none, passes whatever the contents. */
  lemma OtherExtensionsPass(path: FilePath, bytes: seq<byte>)
    requires AsciiLower(Extension(path)) !in {"jpg", "jpeg", "png", "webp", "heic", "heif"}
    ensures ValidateFileMagic(path, Some(bytes)) == Passed
  {
  }

  lemma {:induction false} AsciiLowerIdempotent(s: string)
    ensures AsciiLower(AsciiLower(s)) == AsciiLower(s)
  {
    var l := AsciiLower(s);
    forall i | 0 <= i < |s|
      ensures AsciiLower(l)[i] == l[i]
    {
      assert l[i] == LowerChar(s[i]);
    }
  }

  /** Extensions are matched without regard to ASCII case. */
  lemma MagicIgnoresCase(ext: string, header: seq<byte>)
    requires |header| == 12
    ensures MagicMatches(ext, header) == MagicMatches(AsciiLower(ext), header)
  {
    AsciiLowerIdempotent(ext);
  }

  // ------------------------------------------------ file names

  /** The extension written for each output format. */
  function OutputExtension(f: ImageFormat): (e: string)
    ensures |e| >= 3 && forall i :: 0 <= i < |e| ==> e[i] != '.'
  {
    match f
    case Jpeg => "jpg"
    case Png => "png"
    case WebP => "webp"
  }

  /** `get_smart_suffix`: the short side in pixels, then for lossy formats the
      quality. */
  function SmartSuffix(width: nat, height: nat, quality: byte, f: ImageFormat): (r: string)
    ensures |r| >= 3 && r[0] == '-' && IsDigit(r[1])
    ensures r[|r| - 1] == (if f == Png then 'p' else 'q')
    ensures f == Png ==> AllDigits(r[1..|r| - 1])
  {
    var shortSide := NatToString(Min(width, height));
    if f == Png then "-" + shortSide + "p"
    else "-" + shortSide + "p-" + NatToString(quality) + "q"
  }

  /** The stem of the input file after find-and-replace. */
  function RenamedStem(path: FilePath, opts: ConversionOptions): string {
    if opts.findPattern == [] then FileStem(path)
    else ReplaceAll(FileStem(path), opts.findPattern, opts.replaceWith)
  }

  /** The stem of the output file: the renamed stem, and the smart suffix
      when it is enabled and the dimensions are known. */
  function TargetStem(path: FilePath, opts: ConversionOptions, dims: Option<(nat, nat)>): string {
    RenamedStem(path, opts)
      + (if opts.autoSuffix && dims.Some? then SmartSuffix(dims.value.0, dims.value.1, opts.quality, opts.format) else "")
  }

  /** The output file name for `path`, given the image's dimensions when they
      are known. */
  function TargetFilename(path: FilePath, opts: ConversionOptions, dims: Option<(nat, nat)>): (r: string)
    ensures opts.prefix <= r
    ensures var e := "." + OutputExtension(opts.format); |e| <= |r| && r[|r| - |e|..] == e
  {
    opts.prefix + TargetStem(path, opts, dims) + "." + OutputExtension(opts.format)
  }

  /** `get_target_filename`: `dims` is what `image_dimensions` reports for the
      file on disk, `None` when it cannot read them. */
  method GetTargetFilename(path: FilePath, opts: ConversionOptions, dims: Option<(nat, nat)>) returns (name: string)
    ensures name == TargetFilename(path, opts, dims)
  {
    var stem := FileStem(path);
    if opts.findPattern != [] {
      stem := ReplaceAll(stem, opts.findPattern, opts.replaceWith);
    }
    if opts.autoSuffix {
      if dims.Some? {
        stem := stem + SmartSuffix(dims.value.0, dims.value.1, opts.quality, opts.format);
      }
    }
    var ext := match opts.format
      case Jpeg => "jpg"
      case Png => "png"
      case WebP => "webp";
    name := opts.prefix + stem + "." + ext;
  }

  /** The last dot of `x + "." + ext`, when `ext` has none, is the one added. */
  lemma LastDotOfDottedName(x: string, ext: string)
    requires forall i :: 0 <= i < |ext| ==> ext[i] != '.'
    ensures LastDot(x + "." + ext) == Some(|x|)
  {
    var d := x + ".";
    assert d[..|d| - 1] == x;
    LastDotIgnoresDotless(d, ext);
  }

  /** Appending text without a dot does not move the last dot. */
  lemma {:induction false} LastDotIgnoresDotless(d: string, e: string)
    requires forall i :: 0 <= i < |e| ==> e[i] != '.'
    ensures LastDot(d + e) == LastDot(d)
  {
    if e == [] {
      assert d + e == d;
    } else {
      var n := d + e;
      var e' := e[..|e| - 1];
      assert n[|n| - 1] == e[|e| - 1];
      assert n[..|n| - 1] == d + e';
      LastDotIgnoresDotless(d, e');
    }
  }

  /** Reading the derived name back as a path gives the prefixed stem and the
      output format's extension, whenever prefix and stem are not both empty
      (a name that starts with its only dot has no extension). */
  lemma TargetFilenameReadsBack(dir: string, path: FilePath, opts: ConversionOptions, dims: Option<(nat, nat)>)
    requires opts.prefix + TargetStem(path, opts, dims) != []
    ensures var out := Join(dir, TargetFilename(path, opts, dims));
      && FileStem(out) == opts.prefix + TargetStem(path, opts, dims)
      && Extension(out) == OutputExtension(opts.format)
  {
    var x := opts.prefix + TargetStem(path, opts, dims);
    LastDotOfDottedName(x, OutputExtension(opts.format));
    assert TargetFilename(path, opts, dims) == x + "." + OutputExtension(opts.format);
  }

  /** Without renaming and without suffix the name is prefix, original stem and
      the new extension; a pattern replaced by itself counts as no renaming. */
  lemma TargetFilenameWithoutRenaming(path: FilePath, opts: ConversionOptions, dims: Option<(nat, nat)>)
    requires opts.findPattern == [] || opts.findPattern == opts.replaceWith
    requires !opts.autoSuffix
    ensures TargetFilename(path, opts, dims) == opts.prefix + FileStem(path) + "." + OutputExtension(opts.format)
  {
    if opts.findPattern != [] {
      ReplaceAllByItself(FileStem(path), opts.findPattern);
    }
  }

  /** A string of digits followed by a non-digit is determined by what
      follows it. */
  lemma DigitsPrefixCancels(d1: string, d2: string, t1: string, t2: string)
    requires AllDigits(d1) && AllDigits(d2)
    requires t1 != [] && t2 != [] && !IsDigit(t1[0]) && !IsDigit(t2[0])
    requires d1 + t1 == d2 + t2
    ensures d1 == d2 && t1 == t2
  {
    // Both lengths are the index of the first non-digit of the same string.
    var s := d1 + t1;
    assert forall i :: 0 <= i < |d1| ==> IsDigit(s[i]);
    assert !IsDigit(s[|d1|]);
    assert forall i :: 0 <= i < |d2| ==> IsDigit(s[i]) by {
      assert forall i :: 0 <= i < |d2| ==> s[i] == (d2 + t2)[i] == d2[i];
    }
    assert !IsDigit(s[|d2|]) by {
      assert s[|d2|] == (d2 + t2)[|d2|] == t2[0];
    }
    assert |d1| == |d2|;
    assert d1 == s[..|d1|] && t1 == s[|d1|..];
    assert d2 == (d2 + t2)[..|d2|] && t2 == (d2 + t2)[|d2|..];
  }

  /** The suffix tells the short side, whether the format is PNG, and for lossy
      formats the quality: two images get the same suffix exactly when these
      agree. */
  lemma SmartSuffixDetermines(w: nat, h: nat, q: byte, f: ImageFormat, w': nat, h': nat, q': byte, f': ImageFormat)
    requires SmartSuffix(w, h, q, f) == SmartSuffix(w', h', q', f')
    ensures Min(w, h) == Min(w', h')
    ensures f == Png <==> f' == Png
    ensures f != Png ==> q == q'
  {
    var a, a' := NatToString(Min(w, h)), NatToString(Min(w', h'));
    var t, t' := QualityTail(q, f), QualityTail(q', f');
    SmartSuffixParts(w, h, q, f);
    SmartSuffixParts(w', h', q', f');
    assert a + t == a' + t' by {
      assert a + t == ("-" + (a + t))[1..];
      assert a' + t' == ("-" + (a' + t'))[1..];
    }
    DigitsPrefixCancels(a, a', t, t');
    NatToStringInjective(Min(w, h), Min(w', h'));
    QualityTailDetermines(q, f, q', f');
  }

  /** What follows the short side in the suffix: `p`, and for lossy formats
      the quality. */
  function QualityTail(q: byte, f: ImageFormat): (t: string)
    ensures t != [] && !IsDigit(t[0])
  {
    if f == Png then "p" else "p-" + NatToString(q) + "q"
  }

  lemma SmartSuffixParts(w: nat, h: nat, q: byte, f: ImageFormat)
    ensures SmartSuffix(w, h, q, f) == "-" + (NatToString(Min(w, h)) + QualityTail(q, f))
  {
  }

  lemma QualityTailDetermines(q: byte, f: ImageFormat, q': byte, f': ImageFormat)
    requires QualityTail(q, f) == QualityTail(q', f')
    ensures f == Png <==> f' == Png
    ensures f != Png ==> q == q'
  {
    var t, t' := QualityTail(q, f), QualityTail(q', f');
    assert f == Png <==> |t| == 1;
    assert f' == Png <==> |t'| == 1;
    if f != Png && f' != Png {
      var b, b' := NatToString(q), NatToString(q');
      assert t[2..] == b + "q" && t'[2..] == b' + "q";
      DigitsPrefixCancels(b, b', "q", "q");
      NatToStringInjective(q, q');
    }
  }

  /** With the suffix on, a preview computed without dimensions never names
      the file the conversion writes, and one computed from other dimensions
      names it exactly when the short side (and so the suffix) is the same. */
  lemma PreviewMatchesOutputIff(path: FilePath, opts: ConversionOptions, onDisk: Option<(nat, nat)>, processed: (nat, nat))
    requires opts.autoSuffix
    ensures onDisk.None? ==> TargetFilename(path, opts, onDisk) != TargetFilename(path, opts, Some(processed))
    ensures onDisk.Some? ==>
      (TargetFilename(path, opts, onDisk) == TargetFilename(path, opts, Some(processed))
       <==> Min(onDisk.value.0, onDisk.value.1) == Min(processed.0, processed.1))
  {
    var a := opts.prefix + RenamedStem(path, opts);
    var ext := "." + OutputExtension(opts.format);
    var sp := SmartSuffix(processed.0, processed.1, opts.quality, opts.format);
    SuffixedTarget(path, opts, Some(processed));
    SuffixedTarget(path, opts, onDisk);
    if onDisk.None? {
      assert |a + [] + ext| < |a + sp + ext|;
    } else {
      var sd := SmartSuffix(onDisk.value.0, onDisk.value.1, opts.quality, opts.format);
      if a + sd + ext == a + sp + ext {
        MiddleCancels(a, sd, sp, ext);
        SmartSuffixDetermines(onDisk.value.0, onDisk.value.1, opts.quality, opts.format,
                              processed.0, processed.1, opts.quality, opts.format);
      }
    }
  }

  /** With the suffix on, the target name is the prefix, the renamed stem,
      the suffix for the dimensions (none when they are unknown) and the
      extension. */
  lemma SuffixedTarget(path: FilePath, opts: ConversionOptions, dims: Option<(nat, nat)>)
    requires opts.autoSuffix
    ensures TargetFilename(path, opts, dims) ==
      opts.prefix + RenamedStem(path, opts)
      + (if dims.Some? then SmartSuffix(dims.value.0, dims.value.1, opts.quality, opts.format) else [])
      + ("." + OutputExtension(opts.format))
  {
  }

  /** Equal sequences with the same head and tail have the same middle. */
  lemma MiddleCancels<T>(a: seq<T>, x: seq<T>, y: seq<T>, e: seq<T>)
    requires a + x + e == a + y + e
    ensures x == y
  {
    assert |x| == |y|;
    assert x == (a + x + e)[|a|..|a| + |x|];
    assert y == (a + y + e)[|a|..|a| + |y|];
  }

  /** The worked examples: `photo.JPG` renamed and converted to PNG, and
      the suffixes of a 1920x1080 image at quality 80. */
  lemma FilenameExamples(dir: Option<string>)
    ensures var opts := DefaultOptions().(prefix := "out_", findPattern := "photo", replaceWith := "pic", format := Png);
      TargetFilename(FilePath(dir, "photo.JPG"), opts, None) == "out_pic.png"
  {
    LastDotOfDottedName("photo", "JPG");
    assert "photo" + "." + "JPG" == "photo.JPG";
    assert FileStem(FilePath(dir, "photo.JPG")) == "photo";
    assert ReplaceAll("photo", "photo", "pic") == "pic" + ReplaceAll("", "photo", "pic");
  }

  lemma SuffixExamples()
    ensures SmartSuffix(1920, 1080, 80, Png) == "-1080p"
    ensures SmartSuffix(1920, 1080, 80, Jpeg) == "-1080p-80q"
  {
    assert NatToString(1080) == "1080" by {
      assert NatToString(10) == NatToString(1) + "0";
      assert NatToString(108) == NatToString(10) + "8";
      assert NatToString(1080) == NatToString(108) + "0";
    }
    assert NatToString(80) == "80" by {
      assert NatToString(80) == NatToString(8) + "0";
    }
  }

  // ------------------------------------------------ orientation

  /** The elementary operations of the image library: mirror left-right,
      mirror top-bottom, and clockwise rotations. */
  datatype Step = FlipH | FlipV | Rotate90 | Rotate180 | Rotate270

  /** The `match` of `apply_orientation`: what is done to the decoded image for
      each EXIF Orientation value (1 and anything unknown: nothing). */
  function OrientationSteps(orientation: nat): (r: seq<Step>)
    ensures |r| <= 2
    ensures r == [] <==> orientation < 2 || 8 < orientation
  {
    match orientation
    case 2 => [FlipH]
    case 3 => [Rotate180]
    case 4 => [FlipV]
    case 5 => [Rotate90, FlipH]
    case 6 => [Rotate90]
    case 7 => [Rotate270, FlipH]
    case 8 => [Rotate270]
    case _ => []
  }

  /** Width and height after one step. */
  function StepDims(st: Step, w: nat, h: nat): (nat, nat) {
    if st == Rotate90 || st == Rotate270 then (h, w) else (w, h)
  }

  /** For a pixel of the result of one step, the pixel of its input it comes
      from. */
  function StepSource(st: Step, w: nat, h: nat, x: nat, y: nat): (p: (nat, nat))
    requires x < StepDims(st, w, h).0 && y < StepDims(st, w, h).1
    ensures p.0 < w && p.1 < h
  {
    match st
    case FlipH => (w - 1 - x, y)
    case FlipV => (x, h - 1 - y)
    case Rotate180 => (w - 1 - x, h - 1 - y)
    case Rotate90 => (y, h - 1 - x)
    case Rotate270 => (w - 1 - y, x)
  }

  function StepsDims(steps: seq<Step>, w: nat, h: nat): (nat, nat) {
    if steps == [] then (w, h)
    else
      var d := StepsDims(steps[..|steps| - 1], w, h);
      StepDims(steps[|steps| - 1], d.0, d.1)
  }

  /** For a pixel of the result of several steps, the pixel of the original
      image it comes from. */
  function StepsSource(steps: seq<Step>, w: nat, h: nat, x: nat, y: nat): (p: (nat, nat))
    requires x < StepsDims(steps, w, h).0 && y < StepsDims(steps, w, h).1
    ensures p.0 < w && p.1 < h
  {
    if steps == [] then (x, y)
    else
      var init := steps[..|steps| - 1];
      var d := StepsDims(init, w, h);
      var q := StepSource(steps[|steps| - 1], d.0, d.1, x, y);
      StepsSource(init, w, h, q.0, q.1)
  }

  /** Width and height of the image as TIFF 6.0 says it is displayed: values
      5 to 8 swap them. */
  function DisplayedDims(orientation: nat, w: nat, h: nat): (nat, nat) {
    if 5 <= orientation <= 8 then (h, w) else (w, h)
  }

  /** The meaning of each Orientation value in TIFF 6.0, Section 8, read as a
      map from displayed pixel to stored pixel: value 2 mirrors, 3 turns
      half-way, 4 mirrors vertically, 5 transposes, 6 is stored a quarter turn
      anticlockwise, 7 transverses, 8 is stored a quarter turn clockwise. */
  function TiffDisplayedSource(orientation: nat, w: nat, h: nat, x: nat, y: nat): (p: (nat, nat))
    requires x < DisplayedDims(orientation, w, h).0 && y < DisplayedDims(orientation, w, h).1
    ensures p.0 < w && p.1 < h
  {
    match orientation
    case 2 => (w - 1 - x, y)
    case 3 => (w - 1 - x, h - 1 - y)
    case 4 => (x, h - 1 - y)
    case 5 => (y, x)
    case 6 => (y, h - 1 - x)
    case 7 => (w - 1 - y, h - 1 - x)
    case 8 => (w - 1 - y, x)
    case _ => (x, y)
  }

  /** Two steps: the second applied to the result of the first. */
  lemma TwoSteps(a: Step, b: Step, w: nat, h: nat, x: nat, y: nat)
    ensures var d := StepDims(a, w, h); StepsDims([a, b], w, h) == StepDims(b, d.0, d.1)
    ensures var d := StepDims(a, w, h); var e := StepDims(b, d.0, d.1);
      x < e.0 && y < e.1 ==>
        var q := StepSource(b, d.0, d.1, x, y);
        StepsSource([a, b], w, h, x, y) == StepSource(a, w, h, q.0, q.1)
  {
    assert [a, b][..1] == [a];
    var d := StepDims(a, w, h);
    OneStep(a, w, h, 0, 0);
    var e := StepDims(b, d.0, d.1);
    if x < e.0 && y < e.1 {
      var q := StepSource(b, d.0, d.1, x, y);
      OneStep(a, w, h, q.0, q.1);
    }
  }

  lemma OneStep(a: Step, w: nat, h: nat, x: nat, y: nat)
    ensures StepsDims([a], w, h) == StepDims(a, w, h)
    ensures var e := StepDims(a, w, h);
      x < e.0 && y < e.1 ==> StepsSource([a], w, h, x, y) == StepSource(a, w, h, x, y)
  {
    assert [a][..0] == [];
  }

  /** The corrected image is the one TIFF 6.0 says should be displayed: it has
      the displayed dimensions, and every displayed pixel comes from the stored
      pixel the standard prescribes. */
  lemma OrientationFollowsTiff(orientation: nat, w: nat, h: nat, x: nat, y: nat)
    ensures StepsDims(OrientationSteps(orientation), w, h) == DisplayedDims(orientation, w, h)
    ensures x < DisplayedDims(orientation, w, h).0 && y < DisplayedDims(orientation, w, h).1 ==>
      StepsSource(OrientationSteps(orientation), w, h, x, y) == TiffDisplayedSource(orientation, w, h, x, y)
  {
    var steps := OrientationSteps(orientation);
    if |steps| == 2 {
      TwoSteps(steps[0], steps[1], w, h, x, y);
      assert steps == [steps[0], steps[1]];
    } else if |steps| == 1 {
      OneStep(steps[0], w, h, x, y);
      assert steps == [steps[0]];
    }
  }

  /** Distinct displayed pixels come from distinct stored pixels, so the
      correction neither loses nor duplicates a pixel. */
  lemma TiffDisplayedSourceInjective(orientation: nat, w: nat, h: nat, x: nat, y: nat, x': nat, y': nat)
    requires var d := DisplayedDims(orientation, w, h); x < d.0 && y < d.1 && x' < d.0 && y' < d.1
    requires TiffDisplayedSource(orientation, w, h, x, y) == TiffDisplayedSource(orientation, w, h, x', y')
    ensures x == x' && y == y'
  {
  }

  // ------------------------------------------------ encoder settings

  /** Whether any pixel is not fully opaque. */
  function HasTranslucentPixel(alphas: seq<byte>): (r: bool)
    ensures r <==> exists i :: 0 <= i < |alphas| && alphas[i] < 255
  {
    if alphas == [] then false
    else alphas[0] < 255 || HasTranslucentPixel(alphas[1..])
  }

  /** An alpha channel that is used: the image's colour type has one and some
      pixel's alpha (of its RGBA conversion) is below 255. */
  function HasTrueAlpha(hasAlphaChannel: bool, alphas: seq<byte>): (r: bool)
    ensures r <==> hasAlphaChannel && exists i :: 0 <= i < |alphas| && alphas[i] < 255
  {
    hasAlphaChannel && HasTranslucentPixel(alphas)
  }

  datatype PngCompression = Best | DefaultCompression
  datatype PngFilter = Paeth | Sub
  datatype PngColor = Rgba | Rgb

  /** The PNG encoder's settings, and whether the result is optimised
      afterwards. */
  datatype PngEncoding = PngEncoding(compression: PngCompression, filter: PngFilter, color: PngColor, optimise: bool)

  /** `encode_png`'s choices: best compression with the Paeth filter and a
      lossless optimisation pass when `compressed`, the default compression
      with the Sub filter otherwise; RGBA exactly when the alpha is used. */
  function PngEncodingFor(compressed: bool, trueAlpha: bool): (r: PngEncoding)
    ensures r.color == Rgba <==> trueAlpha
    ensures r.optimise <==> compressed
    ensures compressed ==> r.compression == Best && r.filter == Paeth
    ensures !compressed ==> r.compression == DefaultCompression && r.filter == Sub
  {
    var (c, f) := if compressed then (Best, Paeth) else (DefaultCompression, Sub);
    PngEncoding(c, f, if trueAlpha then Rgba else Rgb, compressed)
  }

  /** An image whose pixels are all opaque is written without alpha, whatever
      its colour type. */
  lemma OpaqueImagesDropAlpha(compressed: bool, hasAlphaChannel: bool, alphas: seq<byte>)
    requires forall i :: 0 <= i < |alphas| ==> alphas[i] == 255
    ensures PngEncodingFor(compressed, HasTrueAlpha(hasAlphaChannel, alphas)).color == Rgb
  {
  }

  /** The quality given to the primary JPEG encoder: the option, at most 99. */
  function MozjpegQuality(quality: byte): (r: nat)
    ensures r <= 99
    ensures quality <= 99 ==> r == quality
    ensures quality > 99 ==> r == 99
  {
    Min(quality, 99)
  }

  /** What `encode_jpeg` writes: a re-serialised container, or the encoder's
      bytes as they are when they do not parse as JPEG. */
  datatype JpegWrite = Container(segments: seq<JpegSegment>) | Raw(bytes: seq<byte>)

  /** `encode_jpeg` after encoding. `primary` is the primary encoder's output,
      `None` when it aborted; `fallback` is the fallback encoder's output.
      `withIcc` installs the sRGB profile in a segment list. */
  method EncodeJpeg(primary: Option<seq<byte>>, fallback: seq<byte>,
                    parse: seq<byte> -> Option<seq<JpegSegment>>,
                    withIcc: seq<JpegSegment> -> seq<JpegSegment>,
                    metadata: Option<Metadata>) returns (w: JpegWrite)
    ensures var buf := primary.GetOr(fallback);
      parse(buf).None? ==> w == Raw(buf)
    ensures var buf := primary.GetOr(fallback);
      parse(buf).Some? && (metadata.None? || metadata.value.exif.None?) ==>
      w == Container(withIcc(parse(buf).value))
    ensures var buf := primary.GetOr(fallback);
      parse(buf).Some? && metadata.Some? && metadata.value.exif.Some? ==>
      w == Container([JpegSegment(App1, PatchedOrientation(metadata.value.exif.value))]
                     + WithoutExifSegments(withIcc(parse(buf).value)))
  {
    var buf := if primary.Some? then primary.value else fallback;
    var jpeg := parse(buf);
    if jpeg.None? {
      return Raw(buf);
    }
    var segments := withIcc(jpeg.value);
    if metadata.Some? && metadata.value.exif.Some? {
      segments := EmbedExif(segments, metadata.value.exif.value);
    }
    w := Container(segments);
  }

  /** The written JPEG never carries a stale orientation: when metadata is
      re-embedded, the only EXIF segment is the patched one, whose
      Orientation entry (if any) reads 1. */
  lemma EncodedJpegOrientationIsNormal(segments: seq<JpegSegment>, rawExif: seq<byte>)
    requires IsExifPayload(rawExif)
    requires OrientationEntry(rawExif).Some?
    ensures var r := [JpegSegment(App1, PatchedOrientation(rawExif))] + WithoutExifSegments(segments);
      forall i :: 0 <= i < |r| && IsExifPayload(r[i].contents) ==>
        i == 0 && OrientationEntry(r[i].contents) == OrientationEntry(rawExif)
        && ReadU16(r[i].contents, OrientationEntry(rawExif).value + 8, LittleEndian(rawExif)) == 1
  {
    EmbeddedExifIsUniqueAndFirst(segments, rawExif);
    PatchFrame(rawExif);
    PatchKeepsDirectory(rawExif);
    OrientationEntryFrame(rawExif, PatchedOrientation(rawExif));
  }

  // ------------------------------------------------ convert_image

  /** `MAX_FILE_SIZE`: 100 MiB. */
  const MaxFileSize: nat := 100 * 1024 * 1024

  /** A target dimension as typed: a `u32`, or 0 when it does not parse. */
  function ParseDimension(s: string): (r: nat)
    ensures r <= U32Max
  {
    ParseUnsigned(s, U32Max).GetOr(0)
  }

  /** The bounds handed to the resizer, `None` when the image is not resized:
      resizing is off, or neither dimension is a positive number. A missing
      dimension becomes `u32::MAX`, so it does not constrain. */
  function ResizeBounds(opts: ConversionOptions): (r: Option<(nat, nat)>)
    ensures r.None? <==> !opts.resize || (ParseDimension(opts.targetWidth) == 0 && ParseDimension(opts.targetHeight) == 0)
    ensures r.Some? ==> 1 <= r.value.0 <= U32Max && 1 <= r.value.1 <= U32Max
  {
    if !opts.resize then None
    else
      var (w, h) := (ParseDimension(opts.targetWidth), ParseDimension(opts.targetHeight));
      if w > 0 || h > 0 then Some((if w == 0 then U32Max else w, if h == 0 then U32Max else h))
      else None
  }

  /** A width typed as a number within `u32` is used as it is; an empty height
      leaves the height unbounded. */
  lemma ResizeBoundsOfTypedWidth(opts: ConversionOptions, n: nat)
    requires opts.resize && 1 <= n <= U32Max
    requires opts.targetWidth == NatToString(n) && opts.targetHeight == ""
    ensures ResizeBounds(opts) == Some((n, U32Max))
  {
    ParseNatToString(n, U32Max);
    ParseRejectsNonNumbers("", U32Max);
  }

  /** Metadata survives only a JPEG-to-JPEG conversion with the option on. */
  predicate KeepsMetadata(opts: ConversionOptions, inputExt: string)
    ensures KeepsMetadata(opts, inputExt) ==> opts.keepMetadata && opts.format == Jpeg && 3 <= |inputExt| <= 4
    ensures opts.keepMetadata && opts.format == Jpeg && inputExt in ["jpg", "JPG", "jpeg", "JPEG"] ==> KeepsMetadata(opts, inputExt)
  {
    opts.keepMetadata && IsJpegExtension(inputExt) && opts.format == Jpeg
  }

  /** The output directory: the custom directory when it is enabled, set and
      exists, otherwise the input's parent (or `.` when it has none). The
      existence test is `Path::exists`, which a regular file at that path
      also passes. */
  function OutputDirectory(path: FilePath, opts: ConversionOptions, pathExists: string -> bool): (d: string)
    ensures opts.useCustomOutput && opts.customOutputPath.Some? && pathExists(opts.customOutputPath.value) ==>
      d == opts.customOutputPath.value
    ensures !(opts.useCustomOutput && opts.customOutputPath.Some? && pathExists(opts.customOutputPath.value)) ==>
      d == path.parent.GetOr(".")
  {
    if opts.useCustomOutput && opts.customOutputPath.Some? && pathExists(opts.customOutputPath.value)
    then opts.customOutputPath.value
    else path.parent.GetOr(".")
  }

  /** What the codecs and the file system report about one conversion. */
  datatype Environment = Environment(
    contents: Option<seq<byte>>,   // the input's bytes; `None` when it cannot be read
    size: Option<nat>,             // its length per the file system; `None` when unknown
    decoded: bool,                 // whether the decoder (or HEIC loader) succeeded
    processedDims: (nat, nat),     // width and height of the image handed to the encoder
    pathExists: string -> bool,    // whether a path exists (`Path::exists`: true of a regular file too)
    created: bool,                 // whether the output file could be created
    encoded: bool)                 // whether encoding and writing succeeded

  /** A conversion that runs to the end: where it writes, and what it did. */
  datatype Plan = Plan(
    output: FilePath,
    applyOrientation: bool,        // orientation correction (not for HEIC, whose loader applies it)
    keepMetadata: bool,            // EXIF extracted and re-embedded
    resize: Option<(nat, nat)>,    // the bounds handed to the resizer
    format: ImageFormat)

  datatype Outcome = Converted(plan: Plan) | Stopped(error: ConvertError)

  /** `convert_image`, as the sequence of its decisions and failure points. */
  function ConvertImage(path: FilePath, opts: ConversionOptions, env: Environment): (r: Outcome)
    ensures r.Converted? <==>
      && ValidateFileMagic(path, env.contents) == Passed && env.size.GetOr(0) <= MaxFileSize
      && env.decoded && env.created && env.encoded
    ensures r.Converted? ==> r.plan.format == opts.format && r.plan.resize == ResizeBounds(opts)
  {
    var check := ValidateFileMagic(path, env.contents);
    if check.Failed? then Stopped(check.error)
    else if env.size.GetOr(0) > MaxFileSize then Stopped(FileTooLarge)
    else if !env.decoded then Stopped(DecodeFailed)
    else if !env.created then Stopped(CreateFailed)
    else if !env.encoded then Stopped(EncodeFailed)
    else
      var ext := AsciiLower(Extension(path));
      var name := TargetFilename(path, opts, Some(env.processedDims));
      Converted(Plan(
        output := Join(OutputDirectory(path, opts, env.pathExists), name),
        applyOrientation := !IsHeicExtension(ext),
        keepMetadata := KeepsMetadata(opts, ext),
        resize := ResizeBounds(opts),
        format := opts.format))
  }

  /** The magic check comes first: a mismatching file is refused as such,
      whatever its size and however the rest would go. */
  lemma MagicCheckPrecedesSizeGate(path: FilePath, opts: ConversionOptions, env: Environment)
    requires env.contents.Some? && !MagicMatches(Extension(path), Header(env.contents.value))
    ensures ConvertImage(path, opts, env) == Stopped(MagicMismatch)
  {
  }

  /** The size gate: a file that passes the magic check fails as too large
      exactly when its known size exceeds 100 MiB; an unknown size counts as
      zero. */
  lemma SizeGate(path: FilePath, opts: ConversionOptions, env: Environment)
    requires ValidateFileMagic(path, env.contents) == Passed
    ensures ConvertImage(path, opts, env) == Stopped(FileTooLarge) <==> env.size.Some? && env.size.value > MaxFileSize
  {
  }

  /** Extensions that lower-case alike are judged alike, whatever the header. */
  lemma MagicCaseInsensitive(a: string, b: string, header: seq<byte>)
    requires |header| == 12
    requires AsciiLower(a) == AsciiLower(b)
    ensures MagicMatches(a, header) == MagicMatches(b, header)
    ensures IsJpegExtension(a) == IsJpegExtension(b) && IsHeicExtension(a) == IsHeicExtension(b)
  {
  }

  /** `JPG` and `JpEg` are JPEG extensions, `jpe` and `jpgx` are not. */
  lemma JpegExtensionAnyCase()
    ensures IsJpegExtension("JPG") && IsJpegExtension("JpEg")
    ensures !IsJpegExtension("jpe") && !IsJpegExtension("jpgx")
  {
    assert AsciiLower("JPG") == "jpg";
    assert AsciiLower("JpEg") == "jpeg";
    assert AsciiLower("jpe")[2] == 'e';
    assert AsciiLower("jpgx")[3] == 'x';
  }

  /** A finished conversion writes, into the output directory, the name the
      preview derivation gives for the processed image's dimensions; it keeps
      metadata exactly when asked to and going from JPEG to JPEG, and it
      corrects orientation for every input but HEIC/HEIF. */
  lemma ConvertedOutput(path: FilePath, opts: ConversionOptions, env: Environment)
    requires ConvertImage(path, opts, env).Converted?
    ensures var p := ConvertImage(path, opts, env).plan;
      && p.output.parent == Some(OutputDirectory(path, opts, env.pathExists))
      && p.output.fileName == TargetFilename(path, opts, Some(env.processedDims))
      && (p.keepMetadata <==> opts.keepMetadata && IsJpegExtension(Extension(path)) && opts.format == Jpeg)
      && (p.applyOrientation <==> !IsHeicExtension(Extension(path)))
      && p.format == opts.format
  {
    AsciiLowerIdempotent(Extension(path));
  }
}
