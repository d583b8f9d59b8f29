/** Names of exported files and the ZIP export of the application
    component: the archive is a map from entry name to the fetched bytes of
    each completed record, built left to right, so a repeated name keeps the
    later record's bytes. */
module Archive {
  import opened Wrappers
  import opened Strings
  import opened Seqs
  import opened Types
  import opened Constants
  import Queue

  /** `name.split('.')[0]`: the file name up to its first dot. */
  function BaseName(name: string): string {
    Before(name, '.')
  }

  /** `format.split('/')[1]`. */
  function MimeSubtype(f: ImageFormat): (r: string)
    ensures r == f.Subtype()
  {
    MimeSplitsIntoTwo(f);
    Split(f.Mime(), '/')[1]
  }

  /** The archive entry extension: the subtype with `jpeg` replaced by `jpg`
      and then `svg+xml` replaced by `svg`. */
  function ArchiveExtension(f: ImageFormat): string {
    ReplaceFirst(ReplaceFirst(MimeSubtype(f), "jpeg", "jpg"), "svg+xml", "svg")
  }

  /** The single-file download extension: only `svg+xml` is replaced. */
  function DownloadExtension(f: ImageFormat): string {
    ReplaceFirst(MimeSubtype(f), "svg+xml", "svg")
  }

  /** The archive extension of every format: png, jpg, webp, svg, gif, bmp. */
  lemma ArchiveExtensionTable(f: ImageFormat)
    ensures ArchiveExtension(f) == match f
      case PNG => "png" case JPEG => "jpg" case WEBP => "webp"
      case SVG => "svg" case GIF => "gif" case BMP => "bmp"
    ensures DownloadExtension(f) == (if f == SVG then "svg" else f.Subtype())
  {
    match f
    case PNG =>
    case JPEG =>
      ReplaceWhole("jpeg", "jpg");
    case WEBP =>
      NoOccurrenceWithoutChar("webp", "jpeg", 'j');
      NoOccurrenceWithoutChar("webp", "svg+xml", 'x');
    case SVG =>
      NoOccurrenceWithoutChar("svg+xml", "jpeg", 'j');
      ReplaceWhole("svg+xml", "svg");
    case GIF =>
    case BMP =>
  }

  /** The archive extension of the format behind each label is the label in
      lower case. */
  lemma ArchiveExtensionIsLowercaseLabel(l: FormatLabel)
    ensures ArchiveExtension(SupportedFormat(l)) == Lowercase(l.Text())
  {
    ArchiveExtensionTable(SupportedFormat(l));
    LowercaseLabel(l);
  }

  /** The two naming rules disagree for exactly one format: a JPEG is saved
      as `.jpeg` on its own but as `.jpg` inside the archive. */
  lemma DownloadAndArchiveDisagreeOnJpeg(f: ImageFormat)
    ensures DownloadExtension(f) != ArchiveExtension(f) <==> f == JPEG
    ensures DownloadExtension(JPEG) == "jpeg" && ArchiveExtension(JPEG) == "jpg"
  {
    ArchiveExtensionTable(f);
    ArchiveExtensionTable(JPEG);
  }

  /** `<name before first '.'>.<ext>`. */
  function EntryName(item: ImageFile, ext: string): string {
    BaseName(item.file.name) + "." + ext
  }

  /** The single-file download name `converted-<base>.<ext>`. */
  function DownloadName(item: ImageFile, format: ImageFormat): string {
    "converted-" + BaseName(item.file.name) + "." + DownloadExtension(format)
  }

  /** The single-file download name is `converted-` followed by the archive
      entry name for every format except JPEG. */
  lemma DownloadNameVsEntryName(item: ImageFile, format: ImageFormat)
    ensures DownloadName(item, format) == "converted-" + EntryName(item, ArchiveExtension(format)) <==> format != JPEG
  {
    DownloadAndArchiveDisagreeOnJpeg(format);
    PrefixedEntryName(item, ArchiveExtension(format), DownloadExtension(format));
  }

  /** `converted-` plus an entry name is a download-style name with the same
      extension, and only with that one. */
  lemma PrefixedEntryName(item: ImageFile, ext: string, other: string)
    ensures "converted-" + BaseName(item.file.name) + "." + other == "converted-" + EntryName(item, ext) <==> other == ext
  {
    var p := "converted-" + BaseName(item.file.name) + ".";
    assert "converted-" + EntryName(item, ext) == p + ext;
    SameSuffixIff(p, other, ext);
  }

  /** Two strings with a common prefix are equal exactly when the rests are. */
  lemma SameSuffixIff(p: string, x: string, y: string)
    ensures p + x == p + y <==> x == y
  {
    if p + x == p + y {
      assert x == (p + x)[|p|..];
    }
  }

  /** An entry name is a dot-free prefix of the file name, a dot and the
      extension; the prefix stops at the file name's first dot. */
  lemma EntryNameShape(item: ImageFile, ext: string)
    ensures var b := BaseName(item.file.name);
      && EntryName(item, ext) == b + "." + ext
      && '.' !in b
      && |b| <= |item.file.name| && item.file.name[..|b|] == b
      && (|b| < |item.file.name| ==> item.file.name[|b|] == '.')
  {
    BeforeIsFirstPiece(item.file.name, '.');
  }

  /** The base name is recovered from the entry name: the text before its
      first dot. */
  lemma EntryNameBase(item: ImageFile, ext: string)
    ensures BaseName(EntryName(item, ext)) == BaseName(item.file.name)
  {
    var b := BaseName(item.file.name);
    BeforeIsFirstPiece(item.file.name, '.');
    assert EntryName(item, ext) == b + ("." + ext);
    BeforeAppend(b, '.', "." + ext);
  }

  /** Two records share an entry name exactly when their file names agree up
      to the first dot; nothing else is looked at. */
  lemma SameEntryNameIffSameBase(a: ImageFile, b: ImageFile, ext: string)
    ensures EntryName(a, ext) == EntryName(b, ext) <==> BaseName(a.file.name) == BaseName(b.file.name)
  {
    EntryNameBase(a, ext);
    EntryNameBase(b, ext);
  }

  /** Example: `holiday.png` and `holiday.v2.png` collide. */
  lemma CollisionExample(a: ImageFile, b: ImageFile, ext: string)
    requires a.file.name == "holiday.png" && b.file.name == "holiday.v2.png"
    ensures EntryName(a, ext) == EntryName(b, ext) == "holiday." + ext
  {
    EntryNameOfStem(a, "holiday", ".png", ext);
    EntryNameOfStem(b, "holiday", ".v2.png", ext);
  }

  /** A file named `stem + rest`, with a dot-free stem and `rest` opening
      with a dot, is archived as `stem.ext`. */
  lemma EntryNameOfStem(item: ImageFile, stem: string, rest: string, ext: string)
    requires item.file.name == stem + rest
    requires '.' !in stem && |rest| > 0 && rest[0] == '.'
    ensures EntryName(item, ext) == stem + "." + ext
  {
    BeforeAppend(stem, '.', rest);
  }

  /** Records the export takes: completed with a (truthy) result URL. */
  predicate Exportable(item: ImageFile) {
    item.status == Completed && item.convertedUrl.Some? && item.convertedUrl.value != ""
  }

  /** One `zip.file(name, blob)` call: an entry name and the URL whose bytes
      are stored under it. */
  datatype Entry = Entry(name: string, url: string)

  /** The entries the export loop adds for `items`, in order. */
  function Entries(items: seq<ImageFile>, ext: string): seq<Entry>
    requires forall i :: 0 <= i < |items| ==> items[i].convertedUrl.Some?
  {
    seq(|items|, i requires 0 <= i < |items| => Entry(EntryName(items[i], ext), items[i].convertedUrl.value))
  }

  /** The names of `entries`. */
  function Names(entries: seq<Entry>): set<string> {
    set i | 0 <= i < |entries| :: entries[i].name
  }

  /** The names of a non-empty sequence: those of all but the last entry,
      plus the last entry's. */
  lemma NamesSnoc(entries: seq<Entry>)
    requires |entries| > 0
    ensures Names(entries) == Names(entries[..|entries| - 1]) + {entries[|entries| - 1].name}
  {
    var n := |entries| - 1;
    var prefix := entries[..n];
    forall k | k in Names(entries) ensures k in Names(prefix) + {entries[n].name} {
      var i :| 0 <= i < |entries| && entries[i].name == k;
      if i < n {
        assert prefix[i] == entries[i];
      }
    }
    forall k | k in Names(prefix) ensures k in Names(entries) {
      var i :| 0 <= i < n && prefix[i].name == k;
      assert prefix[i] == entries[i];
    }
  }

  /** The archive: entries added left to right into a map, so a name added
      again replaces the earlier contents. */
  function Pack(entries: seq<Entry>, fetch: string -> seq<byte>): (m: map<string, seq<byte>>)
    ensures m.Keys == Names(entries)
    decreases |entries|
  {
    if |entries| == 0 then map[]
    else
      var n := |entries| - 1;
      NamesSnoc(entries);
      Pack(entries[..n], fetch)[entries[n].name := fetch(entries[n].url)]
  }

  /** Later entries win: an entry whose name no later entry repeats has its
      own bytes in the archive. */
  lemma {:induction false} PackLastWins(entries: seq<Entry>, fetch: string -> seq<byte>, i: nat)
    requires i < |entries|
    requires forall j :: i < j < |entries| ==> entries[j].name != entries[i].name
    ensures entries[i].name in Pack(entries, fetch)
    ensures Pack(entries, fetch)[entries[i].name] == fetch(entries[i].url)
    decreases |entries|
  {
    var n := |entries| - 1;
    var prefix := entries[..n];
    if i < n {
      assert prefix[i] == entries[i];
      forall j | i < j < |prefix|
        ensures prefix[j].name != prefix[i].name
      {
        assert prefix[j] == entries[j];
      }
      PackLastWins(prefix, fetch, i);
    }
  }

  /** No two entries share a name. */
  predicate DistinctNames(entries: seq<Entry>) {
    forall i, j :: 0 <= i < j < |entries| ==> entries[i].name != entries[j].name
  }

  /** The archive has at most one entry per `zip.file` call, and exactly one
      per call precisely when no two calls use the same name. */
  lemma {:induction false} PackSize(entries: seq<Entry>, fetch: string -> seq<byte>)
    ensures |Pack(entries, fetch)| <= |entries|
    ensures |Pack(entries, fetch)| == |entries| <==> DistinctNames(entries)
    decreases |entries|
  {
    if |entries| > 0 {
      var n := |entries| - 1;
      var prefix := entries[..n];
      assert forall j :: 0 <= j < n ==> prefix[j] == entries[j];
      PackSize(prefix, fetch);
      var k := entries[n].name;
      var before := Pack(prefix, fetch);
      var after := Pack(entries, fetch);
      assert after == before[k := fetch(entries[n].url)];
      if k in before {
        assert after.Keys == before.Keys;
        assert |after| == |before|;
        var i :| 0 <= i < n && prefix[i].name == k;
        assert entries[i].name == entries[n].name;
        assert !DistinctNames(entries);
      } else {
        assert after.Keys == before.Keys + {k};
        assert |after| == |before| + 1;
        if DistinctNames(entries) {
          assert DistinctNames(prefix);
        }
        if DistinctNames(prefix) {
          forall i, j | 0 <= i < j < |entries|
            ensures entries[i].name != entries[j].name
          {
            if j == n {
              assert prefix[i].name in Names(prefix);
            } else {
              assert prefix[i].name != prefix[j].name;
            }
          }
        }
      }
    }
  }

  /** `downloadAllAsZip`: nothing when no record is exportable, otherwise the
      archive of the exportable records, in queue order, named with the
      format chosen at export time. */
  function DownloadAllAsZip(files: seq<ImageFile>, format: ImageFormat, fetch: string -> seq<byte>)
    : (r: Option<map<string, seq<byte>>>)
    ensures r.None? <==> forall j :: 0 <= j < |files| ==> !Exportable(files[j])
  {
    var completed := Filter(Exportable, files);
    FilterMembership(Exportable, files);
    if |completed| == 0 then
      assert forall j :: 0 <= j < |files| ==> files[j] !in completed;
      None
    else
      assert completed[0] in completed;
      Some(Pack(Entries(completed, ArchiveExtension(format)), fetch))
  }

  /** The archive's entries are named after exactly the exportable records,
      and there are never more of them than exportable records. */
  lemma ArchiveEntryNames(files: seq<ImageFile>, format: ImageFormat, fetch: string -> seq<byte>)
    requires exists j :: 0 <= j < |files| && Exportable(files[j])
    ensures DownloadAllAsZip(files, format, fetch).Some?
    ensures var m := DownloadAllAsZip(files, format, fetch).value;
      var ext := ArchiveExtension(format);
      && (forall k :: k in m <==> exists j :: 0 <= j < |files| && Exportable(files[j]) && EntryName(files[j], ext) == k)
      && |m| <= |Filter(Exportable, files)|
  {
    ExportedNames(files, ArchiveExtension(format), fetch);
  }

  /** `ArchiveEntryNames` for any extension. */
  lemma ExportedNames(files: seq<ImageFile>, ext: string, fetch: string -> seq<byte>)
    ensures var m := Pack(Entries(Filter(Exportable, files), ext), fetch);
      && (forall k :: k in m <==> exists j :: 0 <= j < |files| && Exportable(files[j]) && EntryName(files[j], ext) == k)
      && |m| <= |Filter(Exportable, files)|
  {
    var es := Entries(Filter(Exportable, files), ext);
    PackSize(es, fetch);
    forall k | k in Pack(es, fetch)
      ensures exists j :: 0 <= j < |files| && Exportable(files[j]) && EntryName(files[j], ext) == k
    {
      assert k in Names(es);
      var i :| 0 <= i < |es| && es[i].name == k;
      EntryHasRecord(files, ext, i);
    }
    forall j | 0 <= j < |files| && Exportable(files[j])
      ensures EntryName(files[j], ext) in Pack(es, fetch)
    {
      RecordHasEntry(files, ext, j);
    }
  }

  /** Each archive entry comes from an exportable record. */
  lemma EntryHasRecord(files: seq<ImageFile>, ext: string, i: int)
    requires 0 <= i < |Filter(Exportable, files)|
    ensures exists j ::
      0 <= j < |files| && Exportable(files[j]) && EntryName(files[j], ext) == Entries(Filter(Exportable, files), ext)[i].name
  {
    var completed := Filter(Exportable, files);
    assert completed[i] in files;
    var j :| 0 <= j < |files| && files[j] == completed[i];
    assert EntryName(files[j], ext) == Entries(completed, ext)[i].name;
  }

  /** Each exportable record has an archive entry. */
  lemma RecordHasEntry(files: seq<ImageFile>, ext: string, j: int)
    requires 0 <= j < |files| && Exportable(files[j])
    ensures exists i ::
      0 <= i < |Filter(Exportable, files)| && Entries(Filter(Exportable, files), ext)[i].name == EntryName(files[j], ext)
  {
    var completed := Filter(Exportable, files);
    FilterMembership(Exportable, files);
    assert files[j] in completed;
    var i :| 0 <= i < |completed| && completed[i] == files[j];
    assert Entries(completed, ext)[i].name == EntryName(files[j], ext);
  }

  /** The archive holds, under a record's entry name, the bytes fetched from
      that record's URL, provided no later exportable record in the queue
      takes the same name: in queue order, the later write wins. */
  lemma ArchiveHoldsLastBytes(files: seq<ImageFile>, format: ImageFormat, fetch: string -> seq<byte>, j: nat)
    requires j < |files| && Exportable(files[j])
    requires forall k :: j < k < |files| && Exportable(files[k]) ==>
      EntryName(files[k], ArchiveExtension(format)) != EntryName(files[j], ArchiveExtension(format))
    ensures DownloadAllAsZip(files, format, fetch).Some?
    ensures var m := DownloadAllAsZip(files, format, fetch).value;
      var name := EntryName(files[j], ArchiveExtension(format));
      name in m && m[name] == fetch(files[j].convertedUrl.value)
  {
    ExportedLastWins(files, ArchiveExtension(format), fetch, j);
  }

  /** `ArchiveHoldsLastBytes` for any extension: the filtered records keep
      queue order, so the later-write rule carries over from `Pack`. */
  lemma ExportedLastWins(files: seq<ImageFile>, ext: string, fetch: string -> seq<byte>, j: nat)
    requires j < |files| && Exportable(files[j])
    requires forall k :: j < k < |files| && Exportable(files[k]) ==> EntryName(files[k], ext) != EntryName(files[j], ext)
    ensures var m := Pack(Entries(Filter(Exportable, files), ext), fetch);
      EntryName(files[j], ext) in m && m[EntryName(files[j], ext)] == fetch(files[j].convertedUrl.value)
  {
    var after := files[j + 1..];
    FilterAround(Exportable, files, j);
    var completed := Filter(Exportable, files);
    var i := |Filter(Exportable, files[..j])|;
    var es := Entries(completed, ext);
    forall t | i < t < |es|
      ensures es[t].name != es[i].name
    {
      var k := LaterComesFrom(Exportable, files, j, t);
      assert es[t].name == EntryName(files[k], ext);
    }
    PackLastWins(es, fetch, i);
  }

  /** The export button is only shown for a fully completed queue; under the
      record invariant such a queue always yields an archive, with one entry
      per record unless names collide. */
  lemma ExportOfCompletedQueue(files: seq<ImageFile>, format: ImageFormat, fetch: string -> seq<byte>)
    requires Queue.Consistent(files) && Queue.AllCompleted(files)
    ensures DownloadAllAsZip(files, format, fetch).Some?
    ensures var m := DownloadAllAsZip(files, format, fetch).value;
      |m| <= |files| && (|m| == |files| <==> DistinctNames(Entries(files, ArchiveExtension(format))))
  {
    assert forall j :: 0 <= j < |files| ==> Queue.ItemConsistent(files[j]);
    assert Filter(Exportable, files) == files;
    assert Exportable(files[0]);
    PackSize(Entries(files, ArchiveExtension(format)), fetch);
  }
}
