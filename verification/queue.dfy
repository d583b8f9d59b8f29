/** The batch queue of the application component: adding probed files,
    the sequential conversion run, removal, clearing and the export gate.
    The metadata probe, the converter, the enhancer and the describer are
    parameters; React state updates are collapsed into the final state. */
module Queue {
  import opened Wrappers
  import opened Seqs
  import opened Types
  import ImageProcessor

  /** The state the queue operations read and write. */
  datatype AppState = AppState(files: seq<ImageFile>, description: string)

  /** The state the application starts in. */
  const InitialState: AppState := AppState([], "")

  /** The options the application starts with. */
  const DefaultOptions: ConversionOptions := ConversionOptions(PNG, 90, None, None, true, None, false)

  /** Under the starting options a conversion keeps the decoded size. */
  lemma DefaultOptionsKeepSize(srcW: real, srcH: real)
    requires srcW > 0.0 && srcH > 0.0
    ensures ImageProcessor.TargetSize(srcW, srcH, DefaultOptions) == ImageProcessor.Size(srcW, srcH)
  {
  }

  /** The record invariant the queue operations maintain: a result URL only
      on completed items, every completed item has a non-empty one, and every
      failed item carries a message. */
  predicate ItemConsistent(f: ImageFile) {
    && (f.convertedUrl.Some? ==> f.status == Completed)
    && (f.status == Completed ==> f.convertedUrl.Some? && f.convertedUrl.value != "")
    && (f.status == Error ==> f.error.Some?)
  }

  predicate Consistent(files: seq<ImageFile>) {
    forall j :: 0 <= j < |files| ==> ItemConsistent(files[j])
  }

  // ---------------------------------------------------------------- adding

  /** One selected file with the object URL and the random id the
      application draws for it. */
  datatype Upload = Upload(file: SourceFile, previewUrl: string, id: string)

  /** The queue record of a file whose probe succeeded, or nothing. */
  function Accepted(u: Upload, probe: SourceFile -> Option<Dims>): Option<ImageFile> {
    match probe(u.file)
    case None => None
    case Some(d) =>
      Some(ImageFile(u.id, u.file, u.previewUrl,
                     Metadata(d.width, d.height, u.file.size, u.file.mimeType),
                     Pending, None, None))
  }

  /** The records for the files whose probe succeeded, in input order. */
  function Probed(uploads: seq<Upload>, probe: SourceFile -> Option<Dims>): (r: seq<ImageFile>)
    ensures |r| <= |uploads|
    ensures forall k :: 0 <= k < |r| ==> r[k].status == Pending && r[k].convertedUrl.None? && r[k].error.None?
  {
    if |uploads| == 0 then []
    else
      (match Accepted(uploads[0], probe) case None => [] case Some(f) => [f])
      + Probed(uploads[1..], probe)
  }

  /** Probing distributes over concatenation, so records keep input order. */
  lemma {:induction false} ProbedConcat(a: seq<Upload>, b: seq<Upload>, probe: SourceFile -> Option<Dims>)
    ensures Probed(a + b, probe) == Probed(a, probe) + Probed(b, probe)
    decreases |a|
  {
    if |a| == 0 {
      assert a + b == b;
    } else {
      assert (a + b)[1..] == a[1..] + b;
      ProbedConcat(a[1..], b, probe);
    }
  }

  /** Exactly the files whose probe succeeds are queued; the others are
      dropped silently. */
  lemma {:induction false} ProbedExactly(uploads: seq<Upload>, probe: SourceFile -> Option<Dims>)
    ensures forall x :: x in Probed(uploads, probe) <==>
      exists i :: 0 <= i < |uploads| && Accepted(uploads[i], probe) == Some(x)
    decreases |uploads|
  {
    if |uploads| > 0 {
      ProbedExactly(uploads[1..], probe);
      forall x | exists i :: 0 <= i < |uploads| && Accepted(uploads[i], probe) == Some(x)
        ensures x in Probed(uploads, probe)
      {
        var i :| 0 <= i < |uploads| && Accepted(uploads[i], probe) == Some(x);
        if i > 0 {
          assert uploads[1..][i - 1] == uploads[i];
        }
      }
      forall x | x in Probed(uploads, probe)
        ensures exists i :: 0 <= i < |uploads| && Accepted(uploads[i], probe) == Some(x)
      {
        if x !in Probed(uploads[1..], probe) {
          assert Accepted(uploads[0], probe) == Some(x);
        } else {
          var i :| 0 <= i < |uploads[1..]| && Accepted(uploads[1..][i], probe) == Some(x);
          assert Accepted(uploads[i + 1], probe) == Some(x);
        }
      }
    }
  }

  /** `handleFilesSelect`: probes each file in turn and appends the
      accepted records after the existing queue. */
  method HandleFilesSelect(s: AppState, uploads: seq<Upload>, probe: SourceFile -> Option<Dims>)
    returns (r: AppState)
    ensures r.files == s.files + Probed(uploads, probe)
    ensures r.description == s.description
    ensures |s.files| <= |r.files| <= |s.files| + |uploads|
    ensures forall k :: |s.files| <= k < |r.files| ==> r.files[k].status == Pending
  {
    var newFiles: seq<ImageFile> := [];
    var i := 0;
    while i < |uploads|
      invariant 0 <= i <= |uploads|
      invariant newFiles == Probed(uploads[..i], probe)
    {
      match Accepted(uploads[i], probe) {
        case Some(f) => newFiles := newFiles + [f];
        case None =>
      }
      ProbedConcat(uploads[..i], [uploads[i]], probe);
      assert uploads[..i + 1] == uploads[..i] + [uploads[i]];
      i := i + 1;
    }
    assert uploads[..i] == uploads;
    r := AppState(s.files + newFiles, s.description);
  }

  /** Adding keeps the record invariant. */
  lemma AddKeepsConsistent(s: AppState, uploads: seq<Upload>, probe: SourceFile -> Option<Dims>)
    requires Consistent(s.files)
    ensures Consistent(s.files + Probed(uploads, probe))
  {
  }

  // ------------------------------------------------------------ conversion

  /** The collaborators of a run: the options in force, the enhancer (the
      file read as a data URL and sent to the enhancement service), the
      converter and the describer (the file sent to the analysis service). */
  datatype RunContext = RunContext(
    options: ConversionOptions,
    enhance: SourceFile -> Option<string>,
    convert: (string, ConversionOptions) -> Result<string, string>,
    describe: SourceFile -> string)

  /** The URL handed to the converter: the enhanced data URL when enhancement
      is on and returned a non-empty one, otherwise the preview URL. */
  function SourceUrl(item: ImageFile, ctx: RunContext): (url: string)
    ensures !ctx.options.aiEnhance ==> url == item.previewUrl
    ensures ctx.options.aiEnhance && ctx.enhance(item.file).Some? && ctx.enhance(item.file).value != "" ==>
      url == ctx.enhance(item.file).value
    ensures ctx.options.aiEnhance && (ctx.enhance(item.file).None? || ctx.enhance(item.file).value == "") ==>
      url == item.previewUrl
    ensures url == item.previewUrl || (ctx.options.aiEnhance && ctx.enhance(item.file) == Some(url))
  {
    if ctx.options.aiEnhance then
      match ctx.enhance(item.file)
      case Some(enhanced) => if enhanced != "" then enhanced else item.previewUrl
      case None => item.previewUrl
    else item.previewUrl
  }

  /** The converter's verdict on one item. */
  function Attempt(item: ImageFile, ctx: RunContext): Result<string, string> {
    ctx.convert(SourceUrl(item, ctx), ctx.options)
  }

  /** `{ ...item, status: 'processing' }`. */
  function Begin(item: ImageFile): ImageFile {
    item.(status := Processing)
  }

  /** The record written after the converter resolved or rejected; the
      spread keeps every field not written. */
  function Settle(item: ImageFile, outcome: Result<string, string>): ImageFile {
    match outcome
    case Success(url) => item.(status := Completed, convertedUrl := Some(url))
    case Failure(message) => item.(status := Error, error := Some(message))
  }

  /** What one run makes of one record, independently of every other record:
      completed records are left alone; any other ends completed with the
      converter's URL or failed with its message, and nothing else changes. */
  function Outcome(item: ImageFile, ctx: RunContext): (r: ImageFile)
    ensures item.status == Completed ==> r == item
    ensures r.status == Completed || r.status == Error
    ensures r.id == item.id && r.file == item.file && r.previewUrl == item.previewUrl && r.metadata == item.metadata
    ensures item.status != Completed ==>
      (r.status == Completed <==> Attempt(item, ctx).Success?)
    ensures item.status != Completed && Attempt(item, ctx).Success? ==>
      r.convertedUrl == Some(Attempt(item, ctx).value) && r.error == item.error
    ensures item.status != Completed && Attempt(item, ctx).Failure? ==>
      r.error == Some(Attempt(item, ctx).error) && r.convertedUrl == item.convertedUrl
  {
    if item.status == Completed then item
    else Settle(Begin(item), Attempt(item, ctx))
  }

  /** The result of a run: the final state and the indices it processed, in
      the order it processed them. */
  datatype RunResult = RunResult(state: AppState, visited: seq<nat>)

  /** The conversion loop from index `i` on, over the working copy `files`. */
  function RunFrom(files: seq<ImageFile>, i: nat, desc: string, ctx: RunContext): RunResult
    requires i <= |files|
    decreases |files| - i
  {
    if i == |files| then RunResult(AppState(files, desc), [])
    else if files[i].status == Completed then RunFrom(files, i + 1, desc, ctx)
    else
      var outcome := Attempt(files[i], ctx);
      var settled := Settle(Begin(files[i]), outcome);
      var desc' := if i == 0 && outcome.Success? then ctx.describe(files[i].file) else desc;
      var rest := RunFrom(files[i := settled], i + 1, desc', ctx);
      RunResult(rest.state, [i] + rest.visited)
  }

  /** Whether the run described the first item. */
  predicate DescribesFirst(files: seq<ImageFile>, ctx: RunContext) {
    |files| > 0 && files[0].status != Completed && Attempt(files[0], ctx).Success?
  }

  /** From index `i` on, the loop leaves earlier records alone and settles
      each later one by itself; the description changes only when the loop
      starts at 0 and describes the first item; the indices it visits are
      exactly the non-completed ones from `i` on, in increasing order. */
  lemma RunFromSpec(files: seq<ImageFile>, i: nat, desc: string, ctx: RunContext)
    requires i <= |files|
    ensures var r := RunFrom(files, i, desc, ctx);
      && |r.state.files| == |files|
      && (forall j :: 0 <= j < i ==> r.state.files[j] == files[j])
      && (forall j :: i <= j < |files| ==> r.state.files[j] == Outcome(files[j], ctx))
      && r.state.description == (if i == 0 && DescribesFirst(files, ctx) then ctx.describe(files[0].file) else desc)
      && (forall j :: j in r.visited <==> i <= j < |files| && files[j].status != Completed)
      && (forall a :: 0 <= a < |r.visited| ==> i <= r.visited[a])
      && (forall a, b :: 0 <= a < b < |r.visited| ==> r.visited[a] < r.visited[b])
      && ((forall j :: i <= j < |files| ==> files[j].status == Completed) ==> r.visited == [])
  {
    RunFromRecords(files, i, desc, ctx);
    RunFromDescription(files, i, desc, ctx);
    RunFromVisits(files, i, desc, ctx);
  }

  /** The records after the loop from `i`: earlier ones untouched, later
      ones each settled by itself. */
  lemma {:induction false} RunFromRecords(files: seq<ImageFile>, i: nat, desc: string, ctx: RunContext)
    requires i <= |files|
    ensures var r := RunFrom(files, i, desc, ctx);
      && |r.state.files| == |files|
      && (forall j :: 0 <= j < i ==> r.state.files[j] == files[j])
      && (forall j :: i <= j < |files| ==> r.state.files[j] == Outcome(files[j], ctx))
    decreases |files| - i
  {
    if i < |files| {
      if files[i].status == Completed {
        RunFromRecords(files, i + 1, desc, ctx);
      } else {
        var settled := Settle(Begin(files[i]), Attempt(files[i], ctx));
        var desc' := if i == 0 && Attempt(files[i], ctx).Success? then ctx.describe(files[i].file) else desc;
        RunFromRecords(files[i := settled], i + 1, desc', ctx);
      }
    }
  }

  /** The description after the loop from `i`: the first item's description
      when the loop starts at 0 and the first item converts, else unchanged. */
  lemma {:induction false} RunFromDescription(files: seq<ImageFile>, i: nat, desc: string, ctx: RunContext)
    requires i <= |files|
    ensures RunFrom(files, i, desc, ctx).state.description ==
      (if i == 0 && DescribesFirst(files, ctx) then ctx.describe(files[0].file) else desc)
    decreases |files| - i
  {
    if i < |files| {
      if files[i].status == Completed {
        RunFromDescription(files, i + 1, desc, ctx);
      } else {
        var settled := Settle(Begin(files[i]), Attempt(files[i], ctx));
        var desc' := if i == 0 && Attempt(files[i], ctx).Success? then ctx.describe(files[i].file) else desc;
        RunFromDescription(files[i := settled], i + 1, desc', ctx);
      }
    }
  }

  /** The indices the loop from `i` visits: exactly the non-completed ones
      from `i` on, in increasing order. */
  lemma {:induction false} RunFromVisits(files: seq<ImageFile>, i: nat, desc: string, ctx: RunContext)
    requires i <= |files|
    ensures var r := RunFrom(files, i, desc, ctx);
      && (forall j :: j in r.visited <==> i <= j < |files| && files[j].status != Completed)
      && (forall a :: 0 <= a < |r.visited| ==> i <= r.visited[a])
      && (forall a, b :: 0 <= a < b < |r.visited| ==> r.visited[a] < r.visited[b])
      && ((forall j :: i <= j < |files| ==> files[j].status == Completed) ==> r.visited == [])
    decreases |files| - i
  {
    if i < |files| {
      if files[i].status == Completed {
        RunFromVisits(files, i + 1, desc, ctx);
      } else {
        var settled := Settle(Begin(files[i]), Attempt(files[i], ctx));
        var desc' := if i == 0 && Attempt(files[i], ctx).Success? then ctx.describe(files[i].file) else desc;
        var files' := files[i := settled];
        RunFromVisits(files', i + 1, desc', ctx);
        assert forall j :: i < j < |files| ==> files'[j] == files[j];
      }
    }
  }

  /** `startConversion`: visits the queue in index order, skips completed
      records, settles every other one, and describes the first item when it
      converts in this run. A failure never stops the items after it: each
      record's fate depends only on that record. */
  function StartConversion(s: AppState, ctx: RunContext): (r: RunResult)
    ensures |r.state.files| == |s.files|
    ensures forall j :: 0 <= j < |s.files| ==> r.state.files[j] == Outcome(s.files[j], ctx)
    ensures r.state.description ==
      (if DescribesFirst(s.files, ctx) then ctx.describe(s.files[0].file) else s.description)
    ensures forall j :: j in r.visited <==> 0 <= j < |s.files| && s.files[j].status != Completed
    ensures forall a, b :: 0 <= a < b < |r.visited| ==> r.visited[a] < r.visited[b]
  {
    if |s.files| == 0 then RunResult(s, [])
    else
      RunFromSpec(s.files, 0, s.description, ctx);
      RunFrom(s.files, 0, s.description, ctx)
  }

  /** A run keeps the record invariant when the converter's URLs are
      non-empty (object URLs always are). */
  lemma RunKeepsConsistent(s: AppState, ctx: RunContext)
    requires Consistent(s.files)
    requires forall u :: ctx.convert(u, ctx.options).Success? ==> ctx.convert(u, ctx.options).value != ""
    ensures Consistent(StartConversion(s, ctx).state.files)
  {
    var r := StartConversion(s, ctx).state.files;
    forall j | 0 <= j < |r| ensures ItemConsistent(r[j]) {
      assert ItemConsistent(s.files[j]);
    }
  }

  /** A completed record re-run keeps an error message from an earlier failed
      run: `completed` does not imply the absence of `error`. */
  lemma RetryKeepsOldError(item: ImageFile, ctx: RunContext)
    requires item.status == Error && item.error.Some?
    requires Attempt(item, ctx).Success?
    ensures Outcome(item, ctx).status == Completed && Outcome(item, ctx).error == item.error
  {
  }

  /** Example: of three pending items whose second does not convert, the
      first and third still complete. */
  lemma MiddleFailureIsIsolated(s: AppState, ctx: RunContext)
    requires |s.files| == 3
    requires forall j :: 0 <= j < 3 ==> s.files[j].status == Pending
    requires Attempt(s.files[0], ctx).Success? && Attempt(s.files[2], ctx).Success?
    requires Attempt(s.files[1], ctx).Failure?
    ensures var f := StartConversion(s, ctx).state.files;
      f[0].status == Completed && f[1].status == Error && f[2].status == Completed
  {
  }

  /** The runner wired to `convertImage`: every message a run records is one
      of the converter's three fixed messages. */
  lemma RunRecordsKnownMessages(s: AppState, ctx: RunContext, b: ImageProcessor.Browser)
    requires forall u, o :: ctx.convert(u, o) == ImageProcessor.ConvertImage(b, u, o)
    ensures var f := StartConversion(s, ctx).state.files;
      forall j :: 0 <= j < |f| && s.files[j].status != Completed && f[j].status == Error ==>
        f[j].error.Some? && f[j].error.value in
          {ImageProcessor.LoadFailed, ImageProcessor.NoContext, ImageProcessor.ConversionFailed}
  {
  }

  // ------------------------------------------------------- removal, export

  /** `removeFile(id)`: drops every record with that id, and clears the
      description when nothing is left. */
  function RemoveFile(s: AppState, id: string): (r: AppState)
    ensures forall x :: x in r.files <==> x in s.files && x.id != id
    ensures (forall j :: 0 <= j < |s.files| ==> s.files[j].id != id) ==> r.files == s.files
    ensures |r.files| <= |s.files|
    ensures r.description == (if |r.files| == 0 then "" else s.description)
  {
    var keep := (f: ImageFile) => f.id != id;
    FilterMembership(keep, s.files);
    var kept := Filter(keep, s.files);
    AppState(kept, if |kept| == 0 then "" else s.description)
  }

  /** Removal keeps the relative order of the remaining records. */
  lemma RemoveKeepsOrder(a: seq<ImageFile>, b: seq<ImageFile>, desc: string, id: string)
    ensures RemoveFile(AppState(a + b, desc), id).files
         == RemoveFile(AppState(a, desc), id).files + RemoveFile(AppState(b, desc), id).files
  {
    FilterConcat((f: ImageFile) => f.id != id, a, b);
  }

  /** Removing an id twice is removing it once. */
  lemma RemoveIdempotent(s: AppState, id: string)
    ensures RemoveFile(RemoveFile(s, id), id) == RemoveFile(s, id)
  {
  }

  /** Removal keeps the record invariant. */
  lemma RemoveKeepsConsistent(s: AppState, id: string)
    requires Consistent(s.files)
    ensures Consistent(RemoveFile(s, id).files)
  {
    var r := RemoveFile(s, id).files;
    forall j | 0 <= j < |r| ensures ItemConsistent(r[j]) {
      assert r[j] in s.files;
    }
  }

  /** `clearAll`: back to the state the application starts in. */
  function ClearAll(s: AppState): (r: AppState)
    ensures r == InitialState
    ensures Consistent(r.files) && !AllCompleted(r.files)
  {
    AppState([], "")
  }

  /** The export gate: a non-empty queue of completed records. */
  predicate AllCompleted(files: seq<ImageFile>) {
    |files| > 0 && forall j :: 0 <= j < |files| ==> files[j].status == Completed
  }

  /** After a run, export is offered exactly when the queue is non-empty and
      every record not already completed converted in this run. */
  lemma AllCompletedAfterRun(s: AppState, ctx: RunContext)
    ensures AllCompleted(StartConversion(s, ctx).state.files) <==>
      |s.files| > 0 &&
      forall j :: 0 <= j < |s.files| && s.files[j].status != Completed ==> Attempt(s.files[j], ctx).Success?
  {
    var f := StartConversion(s, ctx).state.files;
    if AllCompleted(f) {
      forall j | 0 <= j < |s.files| && s.files[j].status != Completed
        ensures Attempt(s.files[j], ctx).Success?
      {
        assert f[j].status == Completed;
      }
    }
  }

  /** Re-running a fully completed queue changes nothing and visits nothing. */
  lemma RerunOfCompletedQueue(s: AppState, ctx: RunContext)
    requires AllCompleted(s.files)
    ensures StartConversion(s, ctx) == RunResult(s, [])
  {
    var r := StartConversion(s, ctx);
    assert r.state.files == s.files;
    assert !DescribesFirst(s.files, ctx);
    assert r.state == s;
    RunFromSpec(s.files, 0, s.description, ctx);
  }
}
