/** The multipart route `POST /api/upload` of util/modified_upload_handler.js. Every
    uploaded file is checked and moved from its temporary path to
    ROOT/targetPath/relativePath, with the last segment sanitised; the files share the
    one `relativePath` field of the request body. A failed file has its temporary
    file deleted. The response is 400 without files, 201 when every file succeeded and
    207 otherwise. The sanitiser and the byte limits come from the server that
    installs the route and are parameters here. */
module UploadHandler {
  import opened Wrappers
  import opened Paths
  import opened Storage
  import opened UriCodec
  import opened TusServer

  /** A file as the multipart parser hands it over; `renameOk` says whether `rename`
      throws for a reason the filesystem map does not show. */
  datatype UploadedFile = UploadedFile(fieldname: string, originalname: Option<string>, temp: Path, renameOk: bool)

  datatype Request = Request(targetPath: Option<string>, relativePath: Option<string>, files: seq<UploadedFile>)

  /** The per-file entry of the response; `path` is the stored relative path. */
  datatype FileResult = FileResult(filename: string, success: bool, path: Option<string>)

  datatype Response = Response(status: int, results: seq<FileResult>)

  datatype Limits = Limits(maxPathBytes: nat, maxFilenameBytes: nat, sanitize: string -> string)

  datatype FileStep = FileStep(result: FileResult, fs: FS)

  /** `path.normalize(path.join(targetPath, relativePath))`. */
  function FinalRelative(target: string, rel: string): string
  {
    Render(Normalize(Join2(target, rel)))
  }

  /** The sanitised last segment of the relative path. */
  function StoredName(lim: Limits, target: string, rel: string): string
  {
    lim.sanitize(Basename(FinalRelative(target, rel)))
  }

  /** The stored relative path: the directory part with the sanitised name. */
  function StoredPath(lim: Limits, target: string, rel: string): string
  {
    Join2(Dirname(FinalRelative(target, rel)), StoredName(lim, target, rel))
  }

  function StoredAt(root: Path, lim: Limits, target: string, rel: string): Path
  {
    Resolve(root, StoredPath(lim, target, rel))
  }

  /** The temporary file is deleted; a failed deletion is only logged. */
  function DropTemp(fs: FS, temp: Path): FS
  {
    if Unlink(fs, temp).Some? then Unlink(fs, temp).value else fs
  }

  /** The byte limits, checked before anything touches the disk. */
  predicate WithinLimits(lim: Limits, target: string, rel: string)
  {
    && |Utf8(StoredPath(lim, target, rel))| <= lim.maxPathBytes
    && |Utf8(StoredName(lim, target, rel))| <= lim.maxFilenameBytes
  }

  /** Every check that has to pass before the rename, and the rename itself. */
  predicate Stored(fs: FS, root: Path, lim: Limits, target: string, rel: string, f: UploadedFile)
  {
    var sp := StoredPath(lim, target, rel);
    var dst := Resolve(root, sp);
    && WithinLimits(lim, target, rel)
    && MkdirP(fs, Parent(dst)).Some?
    && !Exists(MkdirP(fs, Parent(dst)).value, dst)
    && f.renameOk
    && Rename(MkdirP(fs, Parent(dst)).value, f.temp, dst).Some?
  }

  /** One turn of the loop. */
  function ProcessFile(fs: FS, root: Path, lim: Limits, target: string, rel: Option<string>, f: UploadedFile): (r: FileStep)
    ensures r.result.success <==> r.result.path.Some?
    ensures !r.result.success ==> !IsFile(r.fs, f.temp)
  {
    if !Truthy(f.originalname) || !Truthy(rel) then
      FileStep(FileResult(f.fieldname, false, None), DropTemp(fs, f.temp))
    else
      var sp := StoredPath(lim, target, rel.value);
      var dst := Resolve(root, sp);
      if !Stored(fs, root, lim, target, rel.value, f) then
        var fs1 := if WithinLimits(lim, target, rel.value) && MkdirP(fs, Parent(dst)).Some? then MkdirP(fs, Parent(dst)).value else fs;
        FileStep(FileResult(f.originalname.value, false, None), DropTemp(fs1, f.temp))
      else
        FileStep(FileResult(f.originalname.value, true, Some(sp)), Rename(MkdirP(fs, Parent(dst)).value, f.temp, dst).value)
  }

  /** The loop over the files, as a fold. */
  function ProcessAll(fs: FS, root: Path, lim: Limits, target: string, rel: Option<string>, files: seq<UploadedFile>): (FS, seq<FileResult>)
    decreases |files|
  {
    if files == [] then (fs, [])
    else
      var prev := ProcessAll(fs, root, lim, target, rel, files[..|files| - 1]);
      var step := ProcessFile(prev.0, root, lim, target, rel, files[|files| - 1]);
      (step.fs, prev.1 + [step.result])
  }

  function CountSuccess(results: seq<FileResult>): nat
  {
    if results == [] then 0
    else CountSuccess(results[..|results| - 1]) + (if results[|results| - 1].success then 1 else 0)
  }

  function CountFailed(results: seq<FileResult>): nat
  {
    if results == [] then 0
    else CountFailed(results[..|results| - 1]) + (if results[|results| - 1].success then 0 else 1)
  }

  /** The route handler. */
  method HandleUpload(fs0: FS, root: Path, lim: Limits, req: Request) returns (resp: Response, fs: FS)
    ensures req.files == [] ==> resp == Response(400, []) && fs == fs0
    ensures req.files != [] ==>
      var all := ProcessAll(fs0, root, lim, OrElse(req.targetPath, ""), req.relativePath, req.files);
      && fs == all.0 && resp.results == all.1
      && |resp.results| == |req.files|
      && (resp.status == 201 <==> forall i :: 0 <= i < |resp.results| ==> resp.results[i].success)
      && (resp.status == 201 || resp.status == 207)
      && CountSuccess(resp.results) + CountFailed(resp.results) == |req.files|
    ensures forall i :: 0 <= i < |resp.results| ==> (resp.results[i].success <==> resp.results[i].path.Some?)
  {
    fs := fs0;
    if req.files == [] {
      return Response(400, []), fs;
    }
    var target := OrElse(req.targetPath, "");
    var results: seq<FileResult> := [];
    var overallSuccess := true;
    for k := 0 to |req.files|
      invariant (fs, results) == ProcessAll(fs0, root, lim, target, req.relativePath, req.files[..k])
      invariant overallSuccess <==> CountFailed(results) == 0
    {
      var step := ProcessFile(fs, root, lim, target, req.relativePath, req.files[k]);
      ProcessAllSnoc(fs0, root, lim, target, req.relativePath, req.files, k);
      CountFailedSnoc(results, step.result);
      fs := step.fs;
      results := results + [step.result];
      if !step.result.success {
        overallSuccess := false;
      }
    }
    assert req.files[..|req.files|] == req.files;
    ProcessAllResults(fs0, root, lim, target, req.relativePath, req.files);
    CountsAddUp(results);
    NoFailures(results);
    resp := Response(if overallSuccess then 201 else 207, results);
  }

  /** The fold over one more file is one more turn of the loop. */
  lemma ProcessAllSnoc(fs: FS, root: Path, lim: Limits, target: string, rel: Option<string>, files: seq<UploadedFile>, k: nat)
    requires k < |files|
    ensures var prev := ProcessAll(fs, root, lim, target, rel, files[..k]);
      var step := ProcessFile(prev.0, root, lim, target, rel, files[k]);
      ProcessAll(fs, root, lim, target, rel, files[..k + 1]) == (step.fs, prev.1 + [step.result])
  {
    assert files[..k + 1][..k] == files[..k];
  }

  lemma CountFailedSnoc(results: seq<FileResult>, r: FileResult)
    ensures CountFailed(results + [r]) == CountFailed(results) + (if r.success then 0 else 1)
  {
    assert (results + [r])[..|results|] == results;
  }

  /** One result per file, and a result carries a path exactly when it succeeded. */
  lemma {:induction false} ProcessAllResults(fs: FS, root: Path, lim: Limits, target: string, rel: Option<string>, files: seq<UploadedFile>)
    ensures var results := ProcessAll(fs, root, lim, target, rel, files).1;
      && |results| == |files|
      && forall i :: 0 <= i < |results| ==> (results[i].success <==> results[i].path.Some?)
    decreases |files|
  {
    if files != [] {
      ProcessAllResults(fs, root, lim, target, rel, files[..|files| - 1]);
    }
  }

  lemma {:induction false} NoFailures(results: seq<FileResult>)
    ensures CountFailed(results) == 0 <==> forall i :: 0 <= i < |results| ==> results[i].success
  {
    if results != [] {
      var init := results[..|results| - 1];
      NoFailures(init);
      assert forall i :: 0 <= i < |init| ==> init[i] == results[i];
    }
  }

  lemma {:induction false} CountsAddUp(results: seq<FileResult>)
    ensures CountSuccess(results) + CountFailed(results) == |results|
  {
    if results != [] {
      CountsAddUp(results[..|results| - 1]);
    }
  }

  // ---------------------------------------------------------------- properties

  /** A file that is stored lands at its destination, which was free, with the content
      of its temporary file, and nothing that existed before is changed except the
      temporary file. */
  lemma ProcessFileSpec(fs: FS, root: Path, lim: Limits, target: string, rel: Option<string>, f: UploadedFile)
    ensures var r := ProcessFile(fs, root, lim, target, rel, f);
      && (r.result.success ==>
            var dst := StoredAt(root, lim, target, rel.value);
            && dst !in fs && dst in r.fs && IsFile(fs, f.temp) && r.fs[dst] == fs[f.temp] && f.temp !in r.fs
            && r.result.path == Some(StoredPath(lim, target, rel.value)))
      && (forall p :: p in fs && p != f.temp ==> p in r.fs && r.fs[p] == fs[p])
  {
    if Truthy(f.originalname) && Truthy(rel) {
      var dst := StoredAt(root, lim, target, rel.value);
      if MkdirP(fs, Parent(dst)).Some? {
        var fs1 := MkdirP(fs, Parent(dst)).value;
        if !Exists(fs1, dst) {
          assert dst !in fs;
        }
      }
    }
  }

  /** A file at the destination directory's path, or anywhere on the way to it, fails
      the file, and so does an existing destination. */
  lemma ConflictsFail(fs: FS, root: Path, lim: Limits, target: string, rel: string, f: UploadedFile)
    ensures var dst := StoredAt(root, lim, target, rel);
      (exists k :: 1 <= k <= |Parent(dst)| && IsFile(fs, Parent(dst)[..k])) || Exists(fs, dst) ==>
        !ProcessFile(fs, root, lim, target, Some(rel), f).result.success
  {
    var dst := StoredAt(root, lim, target, rel);
    MkdirPFails(fs, Parent(dst));
  }

  /** A name or a path over its byte limit fails the file before any directory is
      made: only the temporary file is deleted. */
  lemma LimitsFail(fs: FS, root: Path, lim: Limits, target: string, rel: string, f: UploadedFile)
    requires |Utf8(StoredPath(lim, target, rel))| > lim.maxPathBytes
          || |Utf8(StoredName(lim, target, rel))| > lim.maxFilenameBytes
    ensures var r := ProcessFile(fs, root, lim, target, Some(rel), f);
      && !r.result.success
      && r.fs == (if IsFile(fs, f.temp) then fs - {f.temp} else fs)
  {
  }

  /** Every file of a request aims at the same destination, so once one is stored the
      ones after it fail: at most one file of a request succeeds, as long as no
      temporary file sits at that destination. */
  lemma {:induction false} AtMostOneStored(fs: FS, root: Path, lim: Limits, target: string, rel: Option<string>, files: seq<UploadedFile>)
    requires Truthy(rel) ==> forall i :: 0 <= i < |files| ==> files[i].temp != StoredAt(root, lim, target, rel.value)
    ensures CountSuccess(ProcessAll(fs, root, lim, target, rel, files).1) <= 1
    ensures Truthy(rel) && CountSuccess(ProcessAll(fs, root, lim, target, rel, files).1) == 1 ==>
      StoredAt(root, lim, target, rel.value) in ProcessAll(fs, root, lim, target, rel, files).0
    decreases |files|
  {
    if files != [] {
      var init := files[..|files| - 1];
      AtMostOneStored(fs, root, lim, target, rel, init);
      var prev := ProcessAll(fs, root, lim, target, rel, init);
      var f := files[|files| - 1];
      ProcessFileSpec(prev.0, root, lim, target, rel, f);
      var results := ProcessAll(fs, root, lim, target, rel, files).1;
      assert results[..|results| - 1] == prev.1;
      if Truthy(rel) {
        var dst := StoredAt(root, lim, target, rel.value);
        if CountSuccess(prev.1) == 1 {
          assert dst in prev.0;
          assert !ProcessFile(prev.0, root, lim, target, rel, f).result.success;
        }
      } else {
        assert !ProcessFile(prev.0, root, lim, target, rel, f).result.success;
      }
    }
  }
}
