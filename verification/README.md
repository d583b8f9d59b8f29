# Instant image converter: conversion core in Dafny

This project models the logic inside a small browser application that
converts a batch of images to another format and size and exports them,
one by one or as a ZIP archive. Three pieces are modelled:

- **`convertImage`** (`ImageProcessor`): the target canvas size from the
  decoded image size and the optional width, optional height and
  aspect-ratio flag; whether the canvas is painted with a background and
  with which colour; and whether the canvas is serialised as an SVG
  wrapper around a PNG data URL or through `toBlob` with the chosen MIME
  type and `quality / 100`. Sizes are exact `real`s.
- **The queue** (`Queue`): `handleFilesSelect` appends probed files as
  `pending`; `startConversion` walks the queue in index order, skips
  `completed` records and settles every other one as `completed` or
  `error`; `removeFile`, `clearAll` and the `allCompleted` export gate.
  The run is a fold (`RunFrom`) over the record sequence.
- **Export naming** (`Archive`): entry names `<text before first '.'>.<ext>`,
  the extension derived from the MIME type, and the archive as a
  `map<string, seq<byte>>` built left to right, so a repeated name keeps
  the later record's bytes.

Supporting modules: `Wrappers` (`Option`, `Result`), `Strings` (JavaScript
`split`, `indexOf`, first-occurrence `replace` with a literal replacement, and a reader for
quote-delimited templates), `Seqs` (`filter`), `Types` (the format enum, the
format labels, the status union, the option and record types) and
`Constants` (the label-to-format table and the plan limits).

Browser and service facilities are parameters. `ImageProcessor.Browser`
bundles image decoding (a `Picture` of natural size and opaque pixels, or
`None` for `onerror`), whether a 2D context exists,
`toDataURL`, `toBlob`, `URL.createObjectURL`, and number-to-text
conversion. `Queue.RunContext` bundles the options, the enhancer
(`Option<url>`), the converter (`Result<url, message>`) and the describer
(a string). The metadata probe is a parameter returning `Option<Dims>`.
Ids and preview URLs arrive with each `Queue.Upload`. The per-URL bytes
read at export time come from a `fetch` parameter.

Behaviour modelled as the code has it:

- The target size is never rounded or clamped, and fractional sizes are
  not rejected. Zero targets cannot arise in the model: a 0 request counts
  as unset and decoded sizes are positive. In the application a zero target
  comes only from a zero-sized image, which is left out below.
- The base name stops at the first dot, so `a.b.png` gives `a`.
- The ZIP entry extension maps `jpeg` to `jpg`. The single-file download
  name (App.tsx line 214) does not, and gives `jpeg`.
- Archive names use the format selected at export time, not the one the
  item was converted with.
- `removeFile` and `clearAll` do not revoke object URLs.
- A record that completes on a retry keeps the `error` message of its
  earlier failure.
- The description is refreshed only when the record at index 0 converts
  in this run.

## Model

| member | source | states |
|---|---|---|
| ImageProcessor.TargetSize | services/imageProcessor.ts:31-45 | Neither axis set (unset meaning absent or 0): the source size, whatever the aspect flag. Aspect off: each axis takes its own request or its source value. Aspect on with one axis set: that axis as requested, the other non-zero and in exact source proportion. Aspect on with both set: within both bounds, equal to one of them, non-zero and in exact source proportion. |
| ImageProcessor.Fit | services/imageProcessor.ts:40-44 | Fitting within both bounds gives a size that is within each bound, reaches at least one of them, is non-zero on both axes and keeps the source proportions exactly. |
| ImageProcessor.FitIsLargest | services/imageProcessor.ts:40-44 | The min-ratio fit is the largest uniform scaling that fits. Any factor whose scaled source fits both bounds gives a size no larger than the target on either axis. |
| ImageProcessor.FitExample | services/imageProcessor.ts:40-44 | 4000×2000 fitted into 1000×1000 gives 1000×500. |
| ImageProcessor.HeightOnlyExample | services/imageProcessor.ts:38-39 | 800×600 with only height 300 gives 400×300. |
| ImageProcessor.FillColour | services/imageProcessor.ts:51-54 | The surface is filled exactly when a non-empty background is given or the format is JPEG. The fill is never empty: it is the background if given, else `#ffffff`. |
| ImageProcessor.JpegWithoutBackgroundIsWhite | services/imageProcessor.ts:51-54 | JPEG with no (or an empty) background is painted opaque white. |
| ImageProcessor.EncodeRequestFor | services/imageProcessor.ts:61-77 | The SVG wrapper is chosen exactly for SVG. Every other format is encoded with its own MIME type and quality/100, which lies in (0, 1] for quality 1..100. |
| ImageProcessor.RenderSurface | services/imageProcessor.ts:47-59 | The canvas: the target size, then the fill, then the decoded picture drawn over it. ImageProcessor.SvgOutput states the size and that the picture is the decoded one; ImageProcessor.FillColour states the fill. |
| ImageProcessor.SvgMarkup | services/imageProcessor.ts:62-66 | The SVG wrapper template with its five holes. ImageProcessor.SvgMarkupReadsBack shows the holes read back exactly. |
| ImageProcessor.SvgMarkupReadsBack | services/imageProcessor.ts:62-65 | Reading the SVG wrapper back yields the outer width and height, then the `<image>` href, width and height, exactly as written (quote-free values). |
| ImageProcessor.ConvertImage | services/imageProcessor.ts:15-83 | Every rejection carries one of the three fixed messages. "Failed to load image for conversion" occurs exactly when decoding fails. "Could not get canvas context" occurs exactly when the image decodes but no context exists. The SVG path never rejects once it is reached. |
| ImageProcessor.SvgOutput | services/imageProcessor.ts:61-68 | SVG output is one `image/svg+xml` blob. Its document declares the target size and embeds the surface's PNG data URL at that same size. |
| ImageProcessor.RasterOutput | services/imageProcessor.ts:70-78 | Raster output succeeds exactly when `toBlob(surface, mime, quality/100)` yields a blob, and then resolves with that blob's object URL. Otherwise it rejects with "Conversion failed". |
| Types.FormatsAreSixAndDistinct | types.ts:2-9 | The format enum has exactly six members, and their MIME strings are pairwise distinct. |
| Types.MimeSplitsIntoTwo | types.ts:3-8 | Every MIME string is `image/<subtype>` with exactly one `/`, so splitting on `/` gives exactly `["image", subtype]`. |
| Types.StatusIsFourValued | types.ts:33 | A status is one of pending, processing, completed or error. |
| Types.StatusNotTiedToFields | types.ts:34-35 | The record type allows a pending record that carries both a result URL and an error. |
| Constants.SupportedFormat | constants.ts:4-11 | The label-to-format table itself. Constants.SupportedFormatsBijective shows it is a bijection with inverse LabelOf. |
| Constants.SupportedFormatsBijective | constants.ts:4-11 | The label table is injective, and every format is reached by exactly one label. |
| Constants.SubtypeDiffersFromLabel | constants.ts:4-11 | The MIME subtype differs from the lower-cased label exactly for JPG and SVG. |
| Constants.PlanLimits | constants.ts:13-21 | The premium limit (50 MiB) is ten times the free one (5 MiB). The default plan uses the free limit and is not premium. |
| Strings.Split | App.tsx:111 | JavaScript `split` on one character. It always gives at least one piece, and no piece contains the separator. It gives exactly one piece iff the separator is absent. |
| Strings.SplitJoin | App.tsx:111-112 | Splitting a join of separator-free pieces gives back those pieces. |
| Strings.JoinSplit | App.tsx:111-112 | Joining the pieces of a split gives back the original string. |
| Strings.IndexOf | App.tsx:112 | `indexOf` returns a position where the pattern occurs with no earlier occurrence, or nothing when it occurs nowhere. |
| Strings.ParseFill | services/imageProcessor.ts:62-66 | Reading back a filled quote-delimited template gives exactly its holes. |
| Queue.DefaultOptionsKeepSize | App.tsx:12-17 | Under the starting options the target is the decoded size. |
| Queue.Accepted | App.tsx:28-39 | The record literal pushed for a probed file: pending, with no result and no error, carrying the file, the preview URL and the probed size. Queue.Probed and Queue.ProbedExactly characterise it. |
| Queue.Probed | App.tsx:21-45 | At most one record per file. Each new record is pending, with no result and no error. |
| Queue.ProbedConcat | App.tsx:23-44 | Probing distributes over concatenation, so records come out in input order. |
| Queue.ProbedExactly | App.tsx:26-42 | A record is queued iff it comes from a file whose probe succeeded. Files whose probe fails are dropped silently. |
| Queue.HandleFilesSelect | App.tsx:21-45 | The probed records, in input order, are appended after the existing queue. The description is unchanged, and every new record is pending. |
| Queue.AddKeepsConsistent | App.tsx:28-44 | Adding keeps the record invariant: a result URL only on completed records, completed records have a non-empty one, failed records carry a message. |
| Queue.SourceUrl | App.tsx:57-66 | The converter gets the enhanced URL when enhancement is on and returned a non-empty one. Otherwise it gets the preview URL. |
| Queue.Settle | App.tsx:68-84 | The spread updates after the converter settles: completed with the URL, or error with the message, every other field kept. Queue.Outcome, Queue.RunFromSpec and Queue.RetryKeepsOldError characterise it. |
| Queue.Outcome | App.tsx:53-86 | Per record: completed records are untouched. Any other record ends completed iff its conversion succeeds. A success sets the URL and keeps any old error. A failure sets the message and keeps the old URL. Id, file, preview and metadata never change. |
| Queue.RunFrom | App.tsx:51-87 | The `for` loop over the working copy `updatedFiles`, as a fold from index `i`. Defined by its body; Queue.RunFromSpec characterises it. |
| Queue.RunFromSpec | App.tsx:51-87 | From any index, the loop leaves earlier records alone and settles each later record by itself. It visits exactly the non-completed indices, in increasing order. |
| Queue.StartConversion | App.tsx:47-89 | Record j after a run is the per-record outcome of record j, so one failure never affects another record. The indices visited are exactly the non-completed ones, in increasing order. The description changes only when record 0 converts in this run. |
| Queue.RunKeepsConsistent | App.tsx:55-85 | A run keeps the record invariant when the converter's URLs are non-empty. |
| Queue.RetryKeepsOldError | App.tsx:68-72 | A failed record that succeeds on a retry is completed and still carries its old error. |
| Queue.MiddleFailureIsIsolated | App.tsx:51-87 | Three pending records where only the middle one fails end completed, error, completed. |
| Queue.RunRecordsKnownMessages | App.tsx:67-85 | With `convertImage` as the converter, every message a run records is one of its three fixed messages. |
| Queue.RemoveFile | App.tsx:91-97 | Exactly the records with a different id remain. An absent id leaves the queue unchanged. The description is cleared iff the queue becomes empty. |
| Queue.RemoveKeepsOrder | App.tsx:93 | Removal distributes over concatenation, so the remaining records keep their order. |
| Queue.RemoveIdempotent | App.tsx:91-97 | Removing an id twice is the same as removing it once. |
| Queue.RemoveKeepsConsistent | App.tsx:93 | Removal keeps the record invariant. |
| Queue.ClearAll | App.tsx:99-102 | Clearing gives the starting state (empty queue, empty description). Export is not offered afterwards. |
| Queue.AllCompleted | App.tsx:126 | The export gate: a non-empty queue whose records are all completed. Defined by its body; Queue.AllCompletedAfterRun and Archive.ExportOfCompletedQueue relate it to runs and exports. |
| Queue.AllCompletedAfterRun | App.tsx:126 | After a run, export is offered iff the queue is non-empty and every record not already completed converted. |
| Queue.RerunOfCompletedQueue | App.tsx:47-89 | Re-running a fully completed queue changes nothing and visits nothing. |
| Archive.BaseName | App.tsx:111 | `name.split('.')[0]`, the file name up to its first dot. Defined through Strings.Split; Archive.EntryNameShape characterises it. |
| Archive.ArchiveExtension | App.tsx:112 | The subtype with the first `jpeg` replaced by `jpg`, then the first `svg+xml` by `svg`. Archive.ArchiveExtensionTable evaluates it for every format. |
| Archive.DownloadExtension | App.tsx:214 | The subtype with only `svg+xml` replaced by `svg`. Archive.ArchiveExtensionTable evaluates it for every format. |
| Archive.EntryName | App.tsx:113 | `${fileName}.${extension}`. Archive.EntryNameShape, Archive.EntryNameBase and Archive.SameEntryNameIffSameBase characterise it. |
| Archive.DownloadName | App.tsx:214 | `converted-<base>.<download extension>`. Archive.DownloadNameVsEntryName relates it to the entry name. |
| Archive.Exportable | App.tsx:106 | The filter predicate: completed with a truthy `convertedUrl`. Defined by its body. |
| Strings.ReplaceFirst | App.tsx:112 | JavaScript `replace` with a string pattern, with the replacement inserted literally; the call sites use `jpg` and `svg`. Without an occurrence the string is returned unchanged. Otherwise exactly the first occurrence is replaced: the text before it, the replacement, then the text after it. |
| Seqs.Filter | App.tsx:106 | `Array.prototype.filter`, also used by removal at line 93. The result is no longer than the input, every kept element satisfies the predicate and comes from the input, and an input whose every element satisfies it is returned whole. Seqs.FilterMembership gives membership both ways, and Seqs.FilterConcat gives order. |
| Archive.MimeSubtype | App.tsx:112 | `format.split('/')[1]` is the format's subtype. |
| Archive.ArchiveExtensionTable | App.tsx:112 | The archive extension is png, jpg, webp, svg, gif or bmp. The download extension is the subtype, except `svg` for SVG. |
| Archive.ArchiveExtensionIsLowercaseLabel | App.tsx:112 | For every label, the archive extension of its format is the label in lower case. |
| Archive.DownloadAndArchiveDisagreeOnJpeg | App.tsx:214 | The download and archive extensions differ exactly for JPEG (`jpeg` against `jpg`). |
| Archive.DownloadNameVsEntryName | App.tsx:214 | The download name is `converted-` plus the archive entry name iff the format is not JPEG. |
| Archive.EntryNameShape | App.tsx:111-113 | An entry name is a dot-free prefix of the file name, then a dot and the extension. The prefix ends at the file name's first dot or at its end. |
| Archive.EntryNameBase | App.tsx:111-113 | The base name of an entry name is the file's base name. |
| Archive.SameEntryNameIffSameBase | App.tsx:111-116 | Two records share an entry name iff their file names agree up to the first dot. |
| Archive.CollisionExample | App.tsx:111-116 | `holiday.png` and `holiday.v2.png` collide on `holiday.<ext>`. |
| Archive.Pack | App.tsx:109-117 | The archive's names are exactly the entry names added. |
| Archive.PackLastWins | App.tsx:116 | An entry whose name no later entry repeats keeps its own fetched bytes (the later write wins). |
| Archive.PackSize | App.tsx:109-117 | The archive has at most one entry per added file, and exactly one per file iff no two names coincide. |
| Archive.DownloadAllAsZip | App.tsx:104-117 | Nothing is produced iff no record is completed with a result URL. |
| Archive.ArchiveHoldsLastBytes | App.tsx:109-116 | Under an exportable record's entry name, the archive holds the bytes fetched from that record's URL, when no later exportable record in queue order takes the same name. Every name therefore holds the bytes of the last record that wrote it. |
| Archive.ArchiveEntryNames | App.tsx:106-117 | When some record is completed with a result URL, an archive is produced. Its entry names are exactly those of the exportable records, and it never has more entries than there are exportable records. |
| Archive.ExportOfCompletedQueue | App.tsx:104-126 | For a consistent, fully completed queue an archive is always produced. It has at most one entry per record, and exactly one per record iff no names collide. |

## Left out

- Canvas pixel work (drawing, smoothing, real `toBlob`/`toDataURL` encoding) is a browser facility. The surface carries its size, its fill and the decoded picture, and the encoders are parameters over the surface, so their output may depend on the picture. Only the size, the fill and the encoders' arguments and outcomes are stated.
- `URL.createObjectURL` is a function of the blob: two equal blobs get equal URLs, where the browser would issue a fresh URL for each call. No property proved here relies on URL freshness.
- Canvas truncation of fractional `canvas.width`/`canvas.height` and floating-point rounding are left out: sizes are exact reals.
- `NaN` options are not modelled: an unset number is absent or 0.
- ImageProcessor.TargetSize: requires a positive decoded size on every branch. Only the aspect-locked branches with a requested axis divide by the decoded size, where a zero size gives Infinity/NaN that reals cannot represent. The other branches would accept a zero-sized image (an SVG without intrinsic size, say), and the model does not cover that case.
- The decoded and probed image sizes are positive integers (`Types.pos`), so a zero-sized image is not modelled anywhere. This includes the probed `Metadata`, which is only displayed and never divided by.
- Strings.ReplaceFirst: inserts the replacement literally. JavaScript expands `$&`, `$$`, `` $` `` and `$'` in a string replacement, so the model agrees with JavaScript only for replacements without `$`. Both call sites pass `jpg` or `svg`.
- Number-to-text conversion inside the SVG template is the `numberText` parameter. ImageProcessor.SvgOutput and ImageProcessor.SvgMarkupReadsBack assume its output and the data URL contain no double quote, which holds for JavaScript number text and data URLs.
- Object-URL creation is a parameter. Revocation is not modelled, because `removeFile` and `clearAll` never revoke anything.
- I/O is left out: `FileReader` reads (folded into the enhancer and describer parameters), failures of `fetch` at export time, JSZip's `generateAsync`, and the timestamped archive download name with its `<a>.click()`, which needs a clock and the DOM.
- The enhancement and analysis service calls are parameters. They never reject: they return `null` or a fallback string.
- React state setters, the `isProcessing` flag and intermediate render snapshots are collapsed into the final state. Changes made while a run is in progress are not modelled. The loop's next `setFiles([...updatedFiles])` (App.tsx lines 56, 82 and 85) would overwrite files added in the meantime, and would undo a `removeFile` or `clearAll` made during the run (those buttons stay enabled).
- Random id generation (`Math.random`) is left out: ids arrive as given strings and need not be unique.
- `UserPlan` is modelled only as its constants. It is unused by the logic.
- The form components (`OptionsPanel`, `Uploader`, including `parseInt` of inputs and the quality slider range) and the build configuration are UI and tooling.
