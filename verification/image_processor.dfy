/** `convertImage`: the target geometry, the background-fill policy and the
    choice between the SVG wrapper and a raster `toBlob` encoding. Browser
    facilities (image decoding, the 2D context, pixel encoding, object URLs
    and number-to-text conversion) are the fields of a `Browser` value. */
module ImageProcessor {
  import opened Wrappers
  import opened Strings
  import opened Types

  /** JavaScript truthiness of an optional number: absent and `0` are unset. */
  predicate IsSetNumber(v: Option<real>) {
    v.Some? && v.value != 0.0
  }

  /** JavaScript truthiness of an optional string: absent and `""` are unset. */
  predicate IsSetText(v: Option<string>) {
    v.Some? && v.value != ""
  }

  /** `v || fallback` for an optional number. */
  function OrElse(v: Option<real>, fallback: real): real {
    if IsSetNumber(v) then v.value else fallback
  }

  datatype Size = Size(width: real, height: real)

  function Min(a: real, b: real): (m: real)
    ensures m <= a && m <= b && (m == a || m == b)
  {
    if a <= b then a else b
  }

  /** `w` by `h` has the proportions of `srcW` by `srcH`. */
  predicate SameRatio(w: real, h: real, srcW: real, srcH: real) {
    w * srcH == h * srcW
  }

  /** The canvas size for a decoded image of `srcW` by `srcH` pixels. No
      rounding, clamping or zero check is applied. */
  function TargetSize(srcW: real, srcH: real, opts: ConversionOptions): (r: Size)
    requires srcW > 0.0 && srcH > 0.0
    // neither axis requested: the source size, whatever the aspect flag
    ensures !IsSetNumber(opts.width) && !IsSetNumber(opts.height) ==> r == Size(srcW, srcH)
    // aspect flag off: each axis independently takes its request or the source value
    ensures !opts.maintainAspectRatio ==> r == Size(OrElse(opts.width, srcW), OrElse(opts.height, srcH))
    // aspect flag on and one axis requested: that axis as requested, the ratio kept exactly
    ensures opts.maintainAspectRatio && IsSetNumber(opts.width) && !IsSetNumber(opts.height) ==>
      r.width == opts.width.value && r.height != 0.0 && SameRatio(r.width, r.height, srcW, srcH)
    ensures opts.maintainAspectRatio && IsSetNumber(opts.height) && !IsSetNumber(opts.width) ==>
      r.height == opts.height.value && r.width != 0.0 && SameRatio(r.width, r.height, srcW, srcH)
    // aspect flag on and both requested: within both bounds, touching one, ratio kept
    ensures opts.maintainAspectRatio && IsSetNumber(opts.width) && IsSetNumber(opts.height) ==>
      && r.width <= opts.width.value && r.height <= opts.height.value
      && (r.width == opts.width.value || r.height == opts.height.value)
      && r.width != 0.0 && r.height != 0.0
      && SameRatio(r.width, r.height, srcW, srcH)
  {
    var w := OrElse(opts.width, srcW);
    var h := OrElse(opts.height, srcH);
    if !opts.maintainAspectRatio then Size(w, h)
    else if IsSetNumber(opts.width) && !IsSetNumber(opts.height) then
      Size(w, OtherAxis(opts.width.value, srcW, srcH))
    else if IsSetNumber(opts.height) && !IsSetNumber(opts.width) then
      Size(OtherAxis(opts.height.value, srcH, srcW), h)
    else if IsSetNumber(opts.width) && IsSetNumber(opts.height) then
      Fit(srcW, srcH, opts.width.value, opts.height.value)
    else Size(w, h)
  }

  /** `(req / srcSet) * srcOther`: the axis that follows a requested one. */
  function OtherAxis(req: real, srcSet: real, srcOther: real): (o: real)
    requires srcSet > 0.0 && srcOther > 0.0 && req != 0.0
    ensures o != 0.0 && o * srcSet == req * srcOther
  {
    ScaledAxis(req, srcSet, srcOther);
    (req / srcSet) * srcOther
  }

  /** Scaling by `min(maxW / srcW, maxH / srcH)`: fit within both bounds. */
  function Fit(srcW: real, srcH: real, maxW: real, maxH: real): (r: Size)
    requires srcW > 0.0 && srcH > 0.0 && maxW != 0.0 && maxH != 0.0
    ensures r.width <= maxW && r.height <= maxH
    ensures r.width == maxW || r.height == maxH
    ensures r.width != 0.0 && r.height != 0.0
    ensures SameRatio(r.width, r.height, srcW, srcH)
  {
    var ratio := Min(maxW / srcW, maxH / srcH);
    FitWithin(srcW, ratio, maxW);
    FitWithin(srcH, ratio, maxH);
    UniformScale(srcW, srcH, ratio);
    Size(srcW * ratio, srcH * ratio)
  }

  /** The axis derived from a requested one keeps the source proportions. */
  lemma ScaledAxis(req: real, srcSet: real, srcOther: real)
    requires srcSet > 0.0 && srcOther > 0.0 && req != 0.0
    ensures (req / srcSet) * srcOther != 0.0
    ensures ((req / srcSet) * srcOther) * srcSet == req * srcOther
  {
    var q := req / srcSet;
    assert q * srcSet == req;
    assert q != 0.0;
    calc {
      (q * srcOther) * srcSet;
      (q * srcSet) * srcOther;
      req * srcOther;
    }
  }

  /** Scaling both axes by one non-zero factor keeps the proportions. */
  lemma UniformScale(srcW: real, srcH: real, ratio: real)
    requires srcW > 0.0 && srcH > 0.0 && ratio != 0.0
    ensures srcW * ratio != 0.0 && srcH * ratio != 0.0
    ensures SameRatio(srcW * ratio, srcH * ratio, srcW, srcH)
  {
    assert (srcW * ratio) * srcH == (srcH * ratio) * srcW;
  }

  /** Scaling `src` by a factor no larger than `bound / src` stays within
      `bound`, and reaches it exactly at that factor. */
  lemma FitWithin(src: real, ratio: real, bound: real)
    requires src > 0.0
    requires ratio <= bound / src
    ensures src * ratio <= bound
    ensures ratio == bound / src ==> src * ratio == bound
  {
    assert src * (bound / src) == bound;
    assert src * ratio <= src * (bound / src);
  }

  /** Fit-within scaling is the largest uniform scaling that fits: any factor
      `s` whose scaled source stays within both requested bounds gives a
      size no larger than the computed target on either axis. */
  lemma FitIsLargest(srcW: real, srcH: real, opts: ConversionOptions, s: real)
    requires srcW > 0.0 && srcH > 0.0
    requires opts.maintainAspectRatio && IsSetNumber(opts.width) && IsSetNumber(opts.height)
    requires srcW * s <= opts.width.value && srcH * s <= opts.height.value
    ensures srcW * s <= TargetSize(srcW, srcH, opts).width
    ensures srcH * s <= TargetSize(srcW, srcH, opts).height
  {
    var ratio := Min(opts.width.value / srcW, opts.height.value / srcH);
    BelowQuotient(srcW, s, opts.width.value);
    BelowQuotient(srcH, s, opts.height.value);
    assert s <= ratio;
    assert srcW * s <= srcW * ratio;
    assert srcH * s <= srcH * ratio;
  }

  /** `src * s <= bound` with `src > 0` bounds `s` by `bound / src`. */
  lemma BelowQuotient(src: real, s: real, bound: real)
    requires src > 0.0
    requires src * s <= bound
    ensures s <= bound / src
  {
    assert s == (src * s) / src;
  }

  /** Example: a 4000 by 2000 image fitted into 1000 by 1000 becomes 1000 by 500. */
  lemma FitExample()
    ensures TargetSize(4000.0, 2000.0, ConversionOptions(PNG, 90, Some(1000.0), Some(1000.0), true, None, false))
         == Size(1000.0, 500.0)
  {
  }

  /** Example: an 800 by 600 image with only height 300 becomes 400 by 300. */
  lemma HeightOnlyExample()
    ensures TargetSize(800.0, 600.0, ConversionOptions(PNG, 90, None, Some(300.0), true, None, false))
         == Size(400.0, 300.0)
  {
  }

  const DefaultFill: string := "#ffffff"

  /** The colour the whole surface is painted with before drawing, if any. */
  function FillColour(opts: ConversionOptions): (r: Option<string>)
    // filled exactly when a background is given or the format has no alpha
    ensures r.Some? <==> IsSetText(opts.background) || opts.format == JPEG
    // a fill is always a real colour: the given background, else opaque white
    ensures r.Some? ==> r.value != ""
    ensures r.Some? ==> r.value == (if IsSetText(opts.background) then opts.background.value else DefaultFill)
  {
    if IsSetText(opts.background) || opts.format == JPEG then
      Some(if IsSetText(opts.background) then opts.background.value else DefaultFill)
    else None
  }

  /** Example: JPEG without a background is painted opaque white. */
  lemma JpegWithoutBackgroundIsWhite(opts: ConversionOptions)
    requires opts.format == JPEG && !IsSetText(opts.background)
    ensures FillColour(opts) == Some("#ffffff")
  {
  }

  /** A decoded image: its natural size and its pixels, which the model
      passes along but never inspects. */
  datatype Picture = Picture(dims: Dims, pixels: seq<byte>)

  /** The drawing surface: its size, the fill painted first, and the picture
      drawn over it at the origin, scaled to the full size. */
  datatype Surface = Surface(size: Size, fill: Option<string>, picture: Picture)

  function RenderSurface(p: Picture, opts: ConversionOptions): Surface {
    Surface(TargetSize(p.dims.width as real, p.dims.height as real, opts), FillColour(opts), p)
  }

  /** How the surface is serialised. */
  datatype EncodeRequest = SvgWrapper | RasterBlob(mimeType: string, quality: real)

  function EncodeRequestFor(opts: ConversionOptions): (r: EncodeRequest)
    ensures r.SvgWrapper? <==> opts.format == SVG
    // raster encodings use the chosen format's MIME type and the quality as a fraction
    ensures r.RasterBlob? ==> r.mimeType == opts.format.Mime() && r.quality * 100.0 == opts.quality as real
    ensures r.RasterBlob? && 1 <= opts.quality <= 100 ==> 0.0 < r.quality <= 1.0
  {
    if opts.format == SVG then SvgWrapper
    else RasterBlob(opts.format.Mime(), opts.quality as real / 100.0)
  }

  /** The literal pieces of the SVG wrapper, after trimming; the holes are
      the width, the height, the PNG data URL, the width and the height. */
  const SvgLiterals: seq<string> := [
    "<svg xmlns=\"http://www.w3.org/2000/svg\" width=\"",
    "\" height=\"",
    "\">\n            <image href=\"",
    "\" width=\"",
    "\" height=\"",
    "\" />\n          </svg>"
  ]

  function SvgMarkup(width: string, height: string, href: string): string {
    Fill(SvgLiterals, [width, height, href, width, height])
  }

  /** The SVG wrapper can be read back: its outer width and height, the
      embedded image's href, width and height are exactly what was put in,
      as long as none of them contains a double quote. */
  lemma SvgMarkupReadsBack(width: string, height: string, href: string)
    requires '"' !in width && '"' !in height && '"' !in href
    ensures Parse(SvgLiterals, '"', SvgMarkup(width, height, href)) == Some([width, height, href, width, height])
  {
    ParseFill(SvgLiterals, '"', [width, height, href, width, height]);
  }

  datatype BlobData = Text(text: string) | Bytes(bytes: seq<byte>)

  datatype Blob = Blob(data: BlobData, mimeType: string)

  /** The browser facilities `convertImage` relies on. */
  datatype Browser = Browser(
    load: string -> Option<Picture>,                 // image decode; None is `onerror`
    hasContext: bool,                                // `getContext('2d')` is non-null
    toDataUrl: (Surface, string) -> string,          // `canvas.toDataURL(type)`
    toBlob: (Surface, string, real) -> Option<Blob>, // `canvas.toBlob(cb, type, quality)`
    createObjectUrl: Blob -> string,                 // `URL.createObjectURL`
    numberText: real -> string)                      // `${n}` for a number

  const LoadFailed: string := "Failed to load image for conversion"
  const NoContext: string := "Could not get canvas context"
  const ConversionFailed: string := "Conversion failed"

  /** The SVG document for a rendered surface. */
  function SvgDocument(b: Browser, s: Surface): string {
    SvgMarkup(b.numberText(s.size.width), b.numberText(s.size.height), b.toDataUrl(s, "image/png"))
  }

  /** `convertImage(sourceUrl, options)`: resolves with an object URL or
      rejects with one of three fixed messages. */
  function ConvertImage(b: Browser, sourceUrl: string, opts: ConversionOptions): (r: Result<string, string>)
    ensures r.Failure? ==> r.error in {LoadFailed, NoContext, ConversionFailed}
    ensures r == Failure(LoadFailed) <==> b.load(sourceUrl).None?
    ensures r == Failure(NoContext) <==> b.load(sourceUrl).Some? && !b.hasContext
    // the SVG path cannot fail once the image is decoded and a context exists
    ensures r == Failure(ConversionFailed) ==> opts.format != SVG
    ensures b.load(sourceUrl).Some? && b.hasContext && opts.format == SVG ==> r.Success?
  {
    match b.load(sourceUrl)
    case None => Failure(LoadFailed)
    case Some(d) =>
      if !b.hasContext then Failure(NoContext)
      else
        var surface := RenderSurface(d, opts);
        match EncodeRequestFor(opts)
        case SvgWrapper =>
          Success(b.createObjectUrl(Blob(Text(SvgDocument(b, surface)), "image/svg+xml")))
        case RasterBlob(mimeType, quality) =>
          match b.toBlob(surface, mimeType, quality)
          case None => Failure(ConversionFailed)
          case Some(blob) => Success(b.createObjectUrl(blob))
  }

  /** SVG output: a single `image/svg+xml` blob whose document declares the
      target size and embeds the surface as a PNG data URL at that size. */
  lemma SvgOutput(b: Browser, sourceUrl: string, opts: ConversionOptions)
    requires b.load(sourceUrl).Some? && b.hasContext && opts.format == SVG
    requires var s := RenderSurface(b.load(sourceUrl).value, opts);
      '"' !in b.numberText(s.size.width) && '"' !in b.numberText(s.size.height)
      && '"' !in b.toDataUrl(s, "image/png")
    ensures var d := b.load(sourceUrl).value;
      var s := RenderSurface(d, opts);
      var doc := SvgDocument(b, s);
      && s.size == TargetSize(d.dims.width as real, d.dims.height as real, opts)
      && s.picture == d
      && ConvertImage(b, sourceUrl, opts) == Success(b.createObjectUrl(Blob(Text(doc), "image/svg+xml")))
      && Parse(SvgLiterals, '"', doc) == Some([
           b.numberText(s.size.width), b.numberText(s.size.height), b.toDataUrl(s, "image/png"),
           b.numberText(s.size.width), b.numberText(s.size.height)])
  {
    var s := RenderSurface(b.load(sourceUrl).value, opts);
    SvgMarkupReadsBack(b.numberText(s.size.width), b.numberText(s.size.height), b.toDataUrl(s, "image/png"));
  }

  /** Raster output: the surface is encoded with the chosen MIME type and
      `quality / 100`; the conversion succeeds exactly when that encoding
      yields a blob, and then resolves with that blob's object URL. */
  lemma RasterOutput(b: Browser, sourceUrl: string, opts: ConversionOptions)
    requires b.load(sourceUrl).Some? && b.hasContext && opts.format != SVG
    ensures var s := RenderSurface(b.load(sourceUrl).value, opts);
      var blob := b.toBlob(s, opts.format.Mime(), opts.quality as real / 100.0);
      && (ConvertImage(b, sourceUrl, opts).Success? <==> blob.Some?)
      && (blob.Some? ==> ConvertImage(b, sourceUrl, opts) == Success(b.createObjectUrl(blob.value)))
      && (blob.None? ==> ConvertImage(b, sourceUrl, opts) == Failure(ConversionFailed))
  {
  }
}
