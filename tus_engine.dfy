/** The stateful side of backend/tus-server.js: the `processingFiles` registry that
    keeps one finalisation per upload id in flight, the Promise chains it schedules,
    the step-by-step `processTusFile`, `handleDirectoryCreation`, the routing of the
    upload-complete event (which two listeners receive), and the restart scan
    `processExistingFiles`. The Promise chain of `handleCompletedUpload` is split into
    the synchronous registration and a later `Finish` step that runs the chain. */
module TusEngine {
  import opened Wrappers
  import opened Paths
  import opened Storage
  import opened TusServer

  // ---------------------------------------------------------------- restart scan

  /** A numeric sidecar field as `JSON.parse` returns it: missing (`undefined`), JSON
      `null`, or a number (taken to be an integer). `===` tells all three apart. */
  datatype JsonNumber = Missing | Null | Number(n: int)

  /** The field handed on as `size`; neither `undefined` nor `null` exceeds 0. */
  function NumberValue(j: JsonNumber): (r: Option<int>)
    ensures r.Some? <==> j.Number?
    ensures r.Some? ==> j == Number(r.value)
  {
    if j.Number? then Some(j.n) else None
  }

  /** A sidecar as `JSON.parse` returns it. */
  datatype SidecarRecord = SidecarRecord(size: JsonNumber, offset: JsonNumber, metadata: Metadata)

  /** What the restart scan does with one sidecar name. */
  datatype ScanAction =
    | ScanDirectory(file: Upload)     // handed to handleDirectoryCreation
    | ScanComplete(file: Upload)      // handed to handleCompletedUpload
    | ScanIncomplete(id: string)      // skipped: the upload is still partial
    | ScanOrphan(name: string)        // no blob: only logged
    | ScanUnreadable(name: string)    // reading or parsing threw: only logged

  predicate IsSidecarName(name: string)
  {
    |name| >= 5 && name[|name| - 5..] == ".json"
  }

  /** `path.basename(name, '.json')` for a directory entry name. */
  function IdOf(name: string): (id: string)
    requires IsSidecarName(name)
    ensures id + ".json" == name
  {
    if name == ".json" then "" else name[..|name| - 5]
  }

  /** The names in the staging directory that are not sidecars. */
  function BlobNames(names: seq<string>): set<string>
  {
    set n | n in names && !IsSidecarName(n)
  }

  /** The decision for one sidecar; `read` is the sidecar's content as parsed, None
      when reading or parsing throws. */
  function Classify(name: string, blobs: set<string>, read: string -> Option<SidecarRecord>): ScanAction
    requires IsSidecarName(name)
  {
    var id := IdOf(name);
    if id !in blobs then ScanOrphan(name)
    else match read(name)
      case None => ScanUnreadable(name)
      case Some(rec) =>
        if rec.size == Number(0) then ScanDirectory(Upload(Some(id), rec.metadata, Some(0)))
        else if rec.offset == rec.size || rec.offset.Missing? then ScanComplete(Upload(Some(id), rec.metadata, NumberValue(rec.size)))
        else ScanIncomplete(id)
  }

  /** The decisions for the sidecar names among names[..k], in listing order. */
  function PlanPrefix(names: seq<string>, k: nat, read: string -> Option<SidecarRecord>): seq<ScanAction>
    requires k <= |names|
  {
    if k == 0 then []
    else
      var rest := PlanPrefix(names, k - 1, read);
      if IsSidecarName(names[k - 1]) then rest + [Classify(names[k - 1], BlobNames(names), read)] else rest
  }

  lemma PlanPrefixStep(names: seq<string>, k: nat, read: string -> Option<SidecarRecord>)
    requires k < |names|
    ensures PlanPrefix(names, k + 1, read) ==
      if IsSidecarName(names[k]) then PlanPrefix(names, k, read) + [Classify(names[k], BlobNames(names), read)]
      else PlanPrefix(names, k, read)
  {
  }

  function Plan(names: seq<string>, read: string -> Option<SidecarRecord>): seq<ScanAction>
  {
    PlanPrefix(names, |names|, read)
  }

  /** The ids the scan hands to handleCompletedUpload. */
  function CompletedIds(plan: seq<ScanAction>): set<string>
  {
    set i | 0 <= i < |plan| && plan[i].ScanComplete? && Truthy(plan[i].file.id) :: plan[i].file.id.value
  }

  /** The filesystem after the scan's directory creations, in order. */
  function ApplyDirectories(fs: FS, cfg: Config, plan: seq<ScanAction>): FS
    decreases |plan|
  {
    if plan == [] then fs
    else
      var fs1 := ApplyDirectories(fs, cfg, plan[..|plan| - 1]);
      var last := plan[|plan| - 1];
      if last.ScanDirectory? then CreateDirectory(fs1, cfg, last.file).fs else fs1
  }

  lemma ApplyDirectoriesSnoc(fs: FS, cfg: Config, plan: seq<ScanAction>, a: ScanAction)
    ensures ApplyDirectories(fs, cfg, plan + [a]) ==
      if a.ScanDirectory? then CreateDirectory(ApplyDirectories(fs, cfg, plan), cfg, a.file).fs
      else ApplyDirectories(fs, cfg, plan)
  {
    assert (plan + [a])[..|plan|] == plan;
  }

  /** What each decision of the scan requires of the listing and of the sidecar it read:
      only an id with a blob is ever dispatched, a directory has the recorded size 0, a
      completed upload has its offset at its size or no offset field at all (a JSON `null`
      offset is neither). */
  predicate Justified(a: ScanAction, names: seq<string>, read: string -> Option<SidecarRecord>)
  {
    match a
    case ScanDirectory(f) =>
      && f.id.Some? && f.id.value in BlobNames(names) && f.id.value + ".json" in names
      && read(f.id.value + ".json").Some?
      && read(f.id.value + ".json").value.size == Number(0)
      && f == Upload(f.id, read(f.id.value + ".json").value.metadata, Some(0))
    case ScanComplete(f) =>
      && f.id.Some? && f.id.value in BlobNames(names) && f.id.value + ".json" in names
      && read(f.id.value + ".json").Some?
      && var rec := read(f.id.value + ".json").value;
        && rec.size != Number(0) && (rec.offset == rec.size || rec.offset.Missing?)
        && f == Upload(f.id, rec.metadata, NumberValue(rec.size))
    case ScanIncomplete(id) =>
      && id in BlobNames(names) && id + ".json" in names
      && read(id + ".json").Some?
      && var rec := read(id + ".json").value;
        rec.size != Number(0) && !rec.offset.Missing? && rec.offset != rec.size
    case ScanOrphan(name) => name in names && IsSidecarName(name) && IdOf(name) !in BlobNames(names)
    case ScanUnreadable(name) =>
      name in names && IsSidecarName(name) && IdOf(name) in BlobNames(names) && read(name).None?
  }

  /** The number of sidecar names in a listing. */
  function SidecarCount(names: seq<string>): nat
  {
    if names == [] then 0
    else SidecarCount(names[..|names| - 1]) + (if IsSidecarName(names[|names| - 1]) then 1 else 0)
  }

  /** Every decision of the scan is justified by the listing and the sidecar it read,
      and there is one decision per sidecar name. */
  lemma {:induction false} PlanSound(names: seq<string>, k: nat, read: string -> Option<SidecarRecord>)
    requires k <= |names|
    ensures forall a :: a in PlanPrefix(names, k, read) ==> Justified(a, names, read)
    ensures |PlanPrefix(names, k, read)| == SidecarCount(names[..k])
  {
    if k > 0 {
      PlanSound(names, k - 1, read);
      assert names[..k][..k - 1] == names[..k - 1];
      var name := names[k - 1];
      if IsSidecarName(name) {
        assert name in names;
        assert IdOf(name) + ".json" == name;
      }
    }
  }

  /** `offset === size || offset === undefined` for a nonzero size: a missing offset or
      one equal to the size completes the upload, while a JSON `null` offset (which is
      not `undefined`) or any other number leaves it skipped. */
  lemma OffsetDecides(id: string, blobs: set<string>, read: string -> Option<SidecarRecord>, size: JsonNumber, offset: JsonNumber, m: Metadata)
    requires id in blobs && read(id + ".json") == Some(SidecarRecord(size, offset, m)) && size != Number(0)
    ensures var a := Classify(id + ".json", blobs, read);
      && (a.ScanComplete? <==> offset.Missing? || offset == size)
      && (a.ScanComplete? ==> a.file == Upload(Some(id), m, NumberValue(size)))
      && (!a.ScanComplete? ==> a == ScanIncomplete(id))
      && (offset.Null? && !size.Null? ==> a == ScanIncomplete(id))
  {
    var name := id + ".json";
    assert IsSidecarName(name) by { assert name[|name| - 5..] == ".json"; }
    assert IdOf(name) == id by { assert IdOf(name) + ".json" == id + ".json"; }
  }

  /** Sidecars whose blob is missing never reach either handler. */
  lemma OrphanNeverDispatched(names: seq<string>, read: string -> Option<SidecarRecord>, name: string)
    requires IsSidecarName(name) && IdOf(name) !in BlobNames(names)
    ensures forall a :: a in Plan(names, read) && (a.ScanDirectory? || a.ScanComplete?) ==>
      a.file.id != Some(IdOf(name))
  {
    PlanSound(names, |names|, read);
  }

  // ---------------------------------------------------------------- the engine

  class Engine {
    const cfg: Config
    /** The filesystem: the staging directory and the final storage. */
    var fs: FS
    /** The ids whose finalisation is in flight. */
    var processingFiles: set<string>
    /** The finalisations scheduled by handleCompletedUpload that have not finished. */
    var scheduled: seq<Upload>

    /** Each scheduled upload has an id, no id is scheduled twice, the registry holds
        exactly the scheduled ids, and every entry sits in a directory. */
    ghost predicate Valid()
      reads this
    {
      && (forall i :: 0 <= i < |scheduled| ==> Truthy(scheduled[i].id))
      && (forall i, j :: 0 <= i < j < |scheduled| ==> scheduled[i].id != scheduled[j].id)
      && processingFiles == IdsOf(scheduled)
      && WellFormed(fs)
    }

    constructor(cfg: Config, fs: FS)
      requires WellFormed(fs)
      ensures Valid()
      ensures this.cfg == cfg && this.fs == fs && processingFiles == {} && scheduled == []
    {
      this.cfg := cfg;
      this.fs := fs;
      processingFiles := {};
      scheduled := [];
    }

    /** `handleCompletedUpload(file)` up to the point where it returns: an upload without
        an id, or one whose id is in flight, changes nothing; any other is registered
        and its finalisation scheduled. */
    method HandleCompletedUpload(file: Upload) returns (accepted: bool)
      requires Valid()
      modifies this
      ensures Valid()
      ensures accepted <==> Truthy(file.id) && file.id.value !in old(processingFiles)
      ensures accepted ==> processingFiles == old(processingFiles) + {file.id.value}
                           && scheduled == old(scheduled) + [file]
      ensures !accepted ==> processingFiles == old(processingFiles) && scheduled == old(scheduled)
      ensures fs == old(fs)
    {
      if !Truthy(file.id) {
        return false;
      }
      var id := file.id.value;
      if id in processingFiles {
        return false;
      }
      processingFiles := processingFiles + {id};
      scheduled := scheduled + [file];
      accepted := true;
      assert forall i :: 0 <= i < |old(scheduled)| ==> scheduled[i] == old(scheduled)[i];
      assert IdsOf(scheduled) == IdsOf(old(scheduled)) + {id} by {
        forall x | x in IdsOf(scheduled)
          ensures x in IdsOf(old(scheduled)) + {id}
        {
          var i :| 0 <= i < |scheduled| && scheduled[i].id.value == x;
          if i < |old(scheduled)| {
            assert old(scheduled)[i].id.value == x;
          }
        }
        assert scheduled[|scheduled| - 1].id.value == id;
      }
    }

    /** The scheduled chain for scheduled[i] runs: processTusFile, then the `finally`
        that removes the id from the registry whatever the result. */
    method Finish(i: nat, iso: string, io: MoveIo) returns (ok: bool)
      requires Valid() && i < |scheduled|
      modifies this
      ensures Valid()
      ensures var file := old(scheduled[i]);
        Step(ok, fs) == Finalize(old(fs), cfg, file.id.value, file.metadata, iso, io)
      ensures processingFiles == old(processingFiles) - {old(scheduled[i]).id.value}
      ensures scheduled == old(scheduled[..i] + scheduled[i + 1..])
    {
      var file := scheduled[i];
      ok := ProcessTusFile(file.id.value, file.metadata, iso, io);
      FinalizeWellFormed(old(fs), cfg, file.id.value, file.metadata, iso, io);
      var id := file.id.value;
      RemoveAt(scheduled, i);
      processingFiles := processingFiles - {id};
      scheduled := scheduled[..i] + scheduled[i + 1..];
    }

    /** `processTusFile(file)`, one filesystem step at a time. */
    method ProcessTusFile(id: string, meta: Metadata, iso: string, io: MoveIo) returns (ok: bool)
      modifies this`fs
      ensures Step(ok, fs) == Finalize(old(fs), cfg, id, meta, iso, io)
    {
      if !Truthy(meta.filename) {
        return false;
      }
      var decoded := DecodedPath(meta);
      if decoded.None? {
        return false;
      }
      var rel := decoded.value;
      var blob := Blob(cfg, id);
      if !Exists(fs, blob) {
        return false;
      }
      if StatSize(fs, blob) == 0 {
        ok := MakeDirectory(id, UnderTarget(cfg, meta, rel));
        return;
      }
      var dir := FinalDir(cfg, meta, rel);
      if !Exists(fs, dir) {
        var made := MkdirP(fs, dir);
        if made.None? {
          return false;
        }
        fs := made.value;
      }
      assert PrepareDir(old(fs), dir) == Some(fs);
      var dst := Destination(fs, Candidate(cfg, meta, rel), iso);
      ok := MoveThenClean(id, dst, io);
    }

    /** The move tiers, then the sidecar. */
    method MoveThenClean(id: string, dst: Path, io: MoveIo) returns (ok: bool)
      modifies this`fs
      ensures Step(ok, fs) == MoveAndClean(old(fs), cfg, id, dst, io)
    {
      var blob := Blob(cfg, id);
      var moved := false;
      if io.renameOk {
        var renamed := Rename(fs, blob, dst);
        if renamed.Some? {
          fs := renamed.value;
          moved := true;
        }
      }
      if !moved {
        var copied := Copy(fs, blob, dst, io.copy);
        if copied.Some? {
          fs := copied.value;
          if fs[dst] == fs[blob] {
            fs := Unlink(fs, blob).value;
            moved := true;
          }
        }
      }
      if !moved {
        var copied := Copy(fs, blob, dst, io.cp);
        if copied.None? {
          return false;
        }
        fs := copied.value;
        if fs[dst] != fs[blob] {
          return false;
        }
        fs := Unlink(fs, blob).value;
      }
      assert MoveBlob(old(fs), blob, dst, io) == Step(true, fs);
      ok := DeleteSidecar(id);
    }

    /** Deletes the sidecar if it exists. */
    method DeleteSidecar(id: string) returns (ok: bool)
      modifies this`fs
      ensures Step(ok, fs) == RemoveSidecar(old(fs), SidecarPath(cfg, id))
    {
      var side := SidecarPath(cfg, id);
      if Exists(fs, side) {
        var removed := Unlink(fs, side);
        if removed.None? {
          return false;
        }
        fs := removed.value;
      }
      ok := true;
    }

    /** Creates dir, then removes the placeholder blob and the sidecar where they exist. */
    method MakeDirectory(id: string, dir: Path) returns (ok: bool)
      modifies this`fs
      ensures Step(ok, fs) == PlaceDirectory(old(fs), cfg, id, dir)
    {
      var made := EnsureDir(fs, dir);
      if made.None? {
        return false;
      }
      fs := made.value;
      var blob := Blob(cfg, id);
      if Exists(fs, blob) {
        var removed := Unlink(fs, blob);
        if removed.None? {
          return false;
        }
        fs := removed.value;
      }
      ok := DeleteSidecar(id);
    }

    /** `handleDirectoryCreation(file)`. */
    method HandleDirectoryCreation(file: Upload) returns (ok: bool)
      modifies this`fs
      ensures Step(ok, fs) == CreateDirectory(old(fs), cfg, file)
    {
      if !Truthy(file.id) || !Truthy(file.metadata.filename) {
        return false;
      }
      var decoded := DecodedPath(file.metadata);
      if decoded.None? {
        return false;
      }
      ok := MakeDirectory(file.id.value, UnderTarget(cfg, file.metadata, decoded.value));
    }

    /** One upload-complete listener: a size above zero is a file upload, any other
        size (absent included) a directory. */
    method Route(event: Option<Upload>)
      requires Valid()
      modifies this
      ensures Valid()
      ensures event.Some? && IsFileEvent(event.value) ==>
        var file := event.value;
        && fs == old(fs)
        && processingFiles == old(processingFiles) + (if Truthy(file.id) then {file.id.value} else {})
        && scheduled == old(scheduled) + (if Truthy(file.id) && file.id.value !in old(processingFiles) then [file] else [])
      ensures event.Some? && !IsFileEvent(event.value) ==>
        fs == CreateDirectory(old(fs), cfg, event.value).fs
        && processingFiles == old(processingFiles) && scheduled == old(scheduled)
      ensures event.None? ==> fs == old(fs) && processingFiles == old(processingFiles) && scheduled == old(scheduled)
    {
      if event.Some? {
        var file := event.value;
        if IsFileEvent(file) {
          var _ := HandleCompletedUpload(file);
        } else {
          var _ := HandleDirectoryCreation(file);
          CreateDirectoryWellFormed(old(fs), cfg, file);
        }
      }
    }

    /** The upload-complete event reaches two listeners. The second registration of a
        file upload is refused, so its finalisation is scheduled once; the second
        directory creation after a successful first changes nothing. */
    method DeliverUploadComplete(event: Option<Upload>)
      requires Valid()
      modifies this
      ensures Valid()
      ensures event.Some? && IsFileEvent(event.value) ==>
        var file := event.value;
        && fs == old(fs)
        && scheduled == old(scheduled) + (if Truthy(file.id) && file.id.value !in old(processingFiles) then [file] else [])
      ensures event.Some? && !IsFileEvent(event.value) && CreateDirectory(old(fs), cfg, event.value).ok ==>
        fs == CreateDirectory(old(fs), cfg, event.value).fs
    {
      Route(event);
      ghost var mid := fs;
      Route(event);
      if event.Some? && !IsFileEvent(event.value) && CreateDirectory(old(fs), cfg, event.value).ok {
        CreateDirectoryTwice(old(fs), cfg, event.value);
      }
    }

    /** The handler the scan calls for one decision: a directory is created, a
        completed upload goes through handleCompletedUpload, anything else is skipped. */
    method Dispatch(action: ScanAction)
      requires Valid()
      modifies this
      ensures Valid()
      ensures processingFiles == old(processingFiles) +
        (if action.ScanComplete? && Truthy(action.file.id) then {action.file.id.value} else {})
      ensures fs == if action.ScanDirectory? then CreateDirectory(old(fs), cfg, action.file).fs else old(fs)
    {
      match action {
        case ScanDirectory(file) =>
          CreateDirectoryWellFormed(fs, cfg, file);
          var _ := HandleDirectoryCreation(file);
        case ScanComplete(file) =>
          var _ := HandleCompletedUpload(file);
        case _ =>
      }
    }

    /** `processExistingFiles`: every sidecar in the listing is classified in order;
        directories are created, completed uploads registered, the rest only logged. */
    method ProcessExistingFiles(names: seq<string>, read: string -> Option<SidecarRecord>) returns (plan: seq<ScanAction>)
      requires Valid()
      modifies this
      ensures Valid()
      ensures plan == Plan(names, read)
      ensures processingFiles == old(processingFiles) + CompletedIds(plan)
      ensures fs == ApplyDirectories(old(fs), cfg, plan)
    {
      var blobs := BlobNames(names);
      plan := [];
      var k := 0;
      while k < |names|
        invariant 0 <= k <= |names|
        invariant Valid()
        invariant plan == PlanPrefix(names, k, read)
        invariant processingFiles == old(processingFiles) + CompletedIds(plan)
        invariant fs == ApplyDirectories(old(fs), cfg, plan)
      {
        var name := names[k];
        if IsSidecarName(name) {
          var action := Classify(name, blobs, read);
          var before := plan;
          Dispatch(action);
          plan := plan + [action];
          ApplyDirectoriesSnoc(old(fs), cfg, before, action);
          CompletedIdsSnoc(before, action);
        }
        PlanPrefixStep(names, k, read);
        k := k + 1;
      }
    }
  }

  /** The ids of the given uploads (each one assumed to carry an id). */
  function IdsOf(files: seq<Upload>): set<string>
  {
    set i | 0 <= i < |files| && files[i].id.Some? :: files[i].id.value
  }

  predicate IsFileEvent(file: Upload)
  {
    file.size.Some? && file.size.value > 0
  }

  /** Taking one upload out of a registry with distinct ids removes exactly its id. */
  lemma RemoveAt(files: seq<Upload>, i: nat)
    requires i < |files| && Truthy(files[i].id)
    requires forall k :: 0 <= k < |files| ==> Truthy(files[k].id)
    requires forall j, k :: 0 <= j < k < |files| ==> files[j].id != files[k].id
    ensures var rest := files[..i] + files[i + 1..];
      && (forall k :: 0 <= k < |rest| ==> Truthy(rest[k].id))
      && (forall j, k :: 0 <= j < k < |rest| ==> rest[j].id != rest[k].id)
      && IdsOf(rest) == IdsOf(files) - {files[i].id.value}
  {
    var rest := files[..i] + files[i + 1..];
    assert forall k :: 0 <= k < |rest| ==> rest[k] == (if k < i then files[k] else files[k + 1]);
    forall x | x in IdsOf(files) - {files[i].id.value}
      ensures x in IdsOf(rest)
    {
      var k :| 0 <= k < |files| && files[k].id.Some? && files[k].id.value == x;
      if k < i {
        assert rest[k] == files[k];
      } else {
        assert rest[k - 1] == files[k];
      }
    }
    forall x | x in IdsOf(rest)
      ensures x in IdsOf(files) - {files[i].id.value}
    {
      var k :| 0 <= k < |rest| && rest[k].id.Some? && rest[k].id.value == x;
      var k' := if k < i then k else k + 1;
      assert files[k'].id.value == x && k' != i;
      assert files[k'].id != files[i].id;
    }
  }

  lemma CompletedIdsSnoc(plan: seq<ScanAction>, a: ScanAction)
    ensures CompletedIds(plan + [a]) ==
      CompletedIds(plan) + (if a.ScanComplete? && Truthy(a.file.id) then {a.file.id.value} else {})
  {
    var p := plan + [a];
    assert forall i :: 0 <= i < |plan| ==> p[i] == plan[i];
    forall x | x in CompletedIds(p)
      ensures x in CompletedIds(plan) + (if a.ScanComplete? && Truthy(a.file.id) then {a.file.id.value} else {})
    {
      var i :| 0 <= i < |p| && p[i].ScanComplete? && Truthy(p[i].file.id) && p[i].file.id.value == x;
      if i < |plan| {
        assert plan[i] == p[i];
      }
    }
    assert p[|plan|] == a;
  }
}
