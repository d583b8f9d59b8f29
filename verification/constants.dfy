/** The label-to-format table and the plan constants. */
module Constants {
  import opened Types
  import opened Strings

  /** The label-to-format record. */
  function SupportedFormat(l: FormatLabel): ImageFormat {
    match l
    case LabelPNG => PNG
    case LabelJPG => JPEG
    case LabelWEBP => WEBP
    case LabelSVG => SVG
    case LabelGIF => GIF
    case LabelBMP => BMP
  }

  /** The label under which a format is offered. */
  function LabelOf(f: ImageFormat): FormatLabel {
    match f
    case PNG => LabelPNG
    case JPEG => LabelJPG
    case WEBP => LabelWEBP
    case SVG => LabelSVG
    case GIF => LabelGIF
    case BMP => LabelBMP
  }

  /** The table is a bijection: distinct labels name distinct formats, and
      every format is named by exactly the label `LabelOf` gives it. */
  lemma SupportedFormatsBijective(l1: FormatLabel, l2: FormatLabel, f: ImageFormat)
    ensures SupportedFormat(l1) == SupportedFormat(l2) ==> l1 == l2
    ensures SupportedFormat(LabelOf(f)) == f
    ensures SupportedFormat(l1) == f <==> l1 == LabelOf(f)
  {
  }

  /** The labels in lower case. */
  lemma LowercaseLabel(l: FormatLabel)
    ensures Lowercase(l.Text()) == match l
      case LabelPNG => "png" case LabelJPG => "jpg" case LabelWEBP => "webp"
      case LabelSVG => "svg" case LabelGIF => "gif" case LabelBMP => "bmp"
  {
    match l
    case LabelPNG => assert Lowercase("PNG") == "png";
    case LabelJPG => assert Lowercase("JPG") == "jpg";
    case LabelWEBP => assert Lowercase("WEBP") == "webp";
    case LabelSVG => assert Lowercase("SVG") == "svg";
    case LabelGIF => assert Lowercase("GIF") == "gif";
    case LabelBMP => assert Lowercase("BMP") == "bmp";
  }

  /** Only JPG (subtype `jpeg`) and SVG (subtype `svg+xml`) have a MIME
      subtype different from the lower-cased label. */
  lemma SubtypeDiffersFromLabel(l: FormatLabel)
    ensures SupportedFormat(l).Subtype() != Lowercase(l.Text()) <==> l == LabelJPG || l == LabelSVG
  {
    LowercaseLabel(l);
  }

  const MaxFreeFileSize: nat := 5 * 1024 * 1024
  const MaxPremiumFileSize: nat := 50 * 1024 * 1024

  const DefaultPlan: UserPlan := UserPlan("Free Starter", 10, MaxFreeFileSize, false)

  /** The premium limit is ten times the free one (50 MiB against 5 MiB),
      and the default plan is the free one. */
  lemma PlanLimits()
    ensures MaxFreeFileSize == 5 * 1048576 && MaxPremiumFileSize == 50 * 1048576
    ensures MaxPremiumFileSize == 10 * MaxFreeFileSize
    ensures DefaultPlan.maxFileSize == MaxFreeFileSize && !DefaultPlan.isPremium
  {
  }
}
