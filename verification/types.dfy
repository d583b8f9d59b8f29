/** The application's data definitions: output formats, conversion options
    and the queued image record. */
module Types {
  import opened Wrappers
  import opened Strings

  /** The six output formats; each is identified by its MIME type. */
  datatype ImageFormat = PNG | JPEG | WEBP | SVG | GIF | BMP {

    /** The enum's string value. */
    function Mime(): string {
      match this
      case PNG => "image/png"
      case JPEG => "image/jpeg"
      case WEBP => "image/webp"
      case SVG => "image/svg+xml"
      case GIF => "image/gif"
      case BMP => "image/bmp"
    }

    /** The part of the MIME type after the `/`. */
    function Subtype(): string {
      match this
      case PNG => "png"
      case JPEG => "jpeg"
      case WEBP => "webp"
      case SVG => "svg+xml"
      case GIF => "gif"
      case BMP => "bmp"
    }
  }

  /** Every member of the enum, in declaration order. */
  const AllFormats: seq<ImageFormat> := [PNG, JPEG, WEBP, SVG, GIF, BMP]

  /** The labels offered to the user. */
  datatype FormatLabel = LabelPNG | LabelJPG | LabelWEBP | LabelSVG | LabelGIF | LabelBMP {

    function Text(): string {
      match this
      case LabelPNG => "PNG"
      case LabelJPG => "JPG"
      case LabelWEBP => "WEBP"
      case LabelSVG => "SVG"
      case LabelGIF => "GIF"
      case LabelBMP => "BMP"
    }
  }

  /** The enum has exactly six members, and their string values are pairwise
      distinct, so a MIME string identifies its format. */
  lemma FormatsAreSixAndDistinct()
    ensures |AllFormats| == 6
    ensures forall f: ImageFormat :: f in AllFormats
    ensures forall i, j :: 0 <= i < j < |AllFormats| ==> AllFormats[i].Mime() != AllFormats[j].Mime()
  {
    forall f: ImageFormat ensures f in AllFormats {
      match f
      case PNG => assert AllFormats[0] == f;
      case JPEG => assert AllFormats[1] == f;
      case WEBP => assert AllFormats[2] == f;
      case SVG => assert AllFormats[3] == f;
      case GIF => assert AllFormats[4] == f;
      case BMP => assert AllFormats[5] == f;
    }
  }

  /** Every format's value is `image/<subtype>` with exactly one `/`, so
      `split('/')` yields exactly the two parts and `[1]` is the subtype. */
  lemma MimeSplitsIntoTwo(f: ImageFormat)
    ensures '/' !in f.Subtype()
    ensures Split(f.Mime(), '/') == ["image", f.Subtype()]
  {
    var parts := ["image", f.Subtype()];
    assert Join(parts, '/') == f.Mime();
    SplitJoin(parts, '/');
  }

  /** The per-item status union. */
  datatype Status = Pending | Processing | Completed | Error

  /** The four statuses are all there is. */
  lemma StatusIsFourValued(s: Status)
    ensures s in {Pending, Processing, Completed, Error}
  {
  }

  /** User-chosen options; `width`, `height` and `background` are optional,
      every other field is always present. */
  datatype ConversionOptions = ConversionOptions(
    format: ImageFormat,
    quality: int,
    width: Option<real>,
    height: Option<real>,
    maintainAspectRatio: bool,
    background: Option<string>,
    aiEnhance: bool)

  /** The user's file: the properties the application reads, and its
      contents, which only the probe, the enhancer and the describer see. */
  datatype SourceFile = SourceFile(name: string, size: nat, mimeType: string, contents: seq<byte>)

  /** File and blob contents. */
  newtype byte = x: int | 0 <= x < 256

  /** Positive pixel counts: the natural size of a decoded image. */
  type pos = x: int | x > 0 witness 1

  datatype Dims = Dims(width: pos, height: pos)

  datatype Metadata = Metadata(width: pos, height: pos, size: nat, mimeType: string)

  /** One queued image. `convertedUrl` and `error` are optional and are not
      tied to `status` by the type; only the queue operations relate them. */
  datatype ImageFile = ImageFile(
    id: string,
    file: SourceFile,
    previewUrl: string,
    metadata: Metadata,
    status: Status,
    convertedUrl: Option<string>,
    error: Option<string>)

  /** The type admits records whose optional fields disagree with their
      status: a pending record holding both a result and an error. */
  lemma StatusNotTiedToFields()
    ensures exists f: ImageFile :: f.status == Pending && f.convertedUrl.Some? && f.error.Some?
  {
    var f := ImageFile("a", SourceFile("a.png", 1, "image/png", [0]), "blob:a",
                       Metadata(1, 1, 1, "image/png"), Pending, Some("blob:b"), Some("e"));
    assert f.status == Pending && f.convertedUrl.Some? && f.error.Some?;
  }

  /** A pricing plan; only its constants exist in the application. */
  datatype UserPlan = UserPlan(name: string, conversionsRemaining: nat, maxFileSize: nat, isPremium: bool)
}
