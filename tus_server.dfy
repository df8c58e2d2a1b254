/** What `processTusFile` and `handleDirectoryCreation` of backend/tus-server.js do to
    the filesystem, as specification functions: the metadata checks, the destination
    path, directory intent for zero-byte uploads, the timestamped name on a collision,
    the three-tier move (rename, then copyFile with a size check, then `cp -a` with a
    size check) and the removal of the sidecar. Each returns whether the code reports
    success together with the filesystem it leaves behind, partial work included. */
module TusServer {
  import opened Wrappers
  import opened Text
  import opened Paths
  import opened Storage
  import opened UriCodec
  import Sanitize

  /** The metadata fields the engine reads; a field the client did not send is None. */
  datatype Metadata = Metadata(filename: Option<string>, relativePath: Option<string>, targetPath: Option<string>)

  /** The upload object the tus server hands over. An absent `metadata` object reads as
      all fields absent. */
  datatype Upload = Upload(id: Option<string>, metadata: Metadata, size: Option<int>)

  /** JavaScript truthiness of an optional string: present and not empty. */
  predicate Truthy(v: Option<string>)
  {
    v.Some? && v.value != ""
  }

  /** `v || fallback`. */
  function OrElse(v: Option<string>, fallback: string): (r: string)
    ensures Truthy(v) ==> r == v.value
    ensures !Truthy(v) ==> r == fallback
  {
    if Truthy(v) then v.value else fallback
  }

  /** The staging directory, the final storage root, and the sanitiser in force (the
      identity unless the mounting code supplies the one of backend/tus-utils.js). */
  datatype Config = Config(stageDir: Path, finalDir: Path, sanitize: string -> string)

  /** Where the moves that the model cannot see end up: whether `rename` throws for an
      environmental reason (EXDEV, permissions), and what `copyFile` and `cp -a` leave. */
  datatype MoveIo = MoveIo(renameOk: bool, copy: CopyOutcome, cp: CopyOutcome)

  /** A reported result together with the filesystem left behind. */
  datatype Step = Step(ok: bool, fs: FS)

  // ---------------------------------------------------------------- paths

  function Blob(cfg: Config, id: string): Path
  {
    Resolve(cfg.stageDir, id)
  }

  function SidecarPath(cfg: Config, id: string): Path
  {
    Resolve(cfg.stageDir, id + ".json")
  }

  /** The relative path the upload names: `relativePath` percent-decoded when it is
      truthy, otherwise `filename`; None when decoding throws. */
  function DecodedPath(meta: Metadata): Option<string>
  {
    if Truthy(meta.relativePath) then DecodeURIComponent(meta.relativePath.value)
    else Some(OrElse(meta.filename, ""))
  }

  /** `path.join(finalStorageDir, targetPath || '', rel)`. */
  function UnderTarget(cfg: Config, meta: Metadata, rel: string): Path
  {
    Resolve(Resolve(cfg.finalDir, OrElse(meta.targetPath, "")), rel)
  }

  /** The relative path with every '\' turned into '/'. */
  function Slashed(rel: string): string
  {
    Replace(rel, {'\\'}, '/')
  }

  /** The directory part: the dirname of the slashed path, with "." read as "", and ""
      outright for a path with no separator of either kind. */
  function DirPart(rel: string): string
  {
    if '/' in rel || '\\' in rel then
      var d := Dirname(Slashed(rel));
      if d == "." then "" else d
    else ""
  }

  /** The stored file name: the sanitised last segment of the slashed path. */
  function LeafName(cfg: Config, rel: string): string
  {
    cfg.sanitize(Basename(Slashed(rel)))
  }

  function FinalDir(cfg: Config, meta: Metadata, rel: string): Path
  {
    UnderTarget(cfg, meta, DirPart(rel))
  }

  /** The path a file upload is meant to take. */
  function Candidate(cfg: Config, meta: Metadata, rel: string): Path
  {
    Resolve(FinalDir(cfg, meta, rel), LeafName(cfg, rel))
  }

  // ---------------------------------------------------------------- collision naming

  /** `toISOString()` with every ':' and '.' turned into '-'. */
  function Stamp(iso: string): string
  {
    Replace(iso, {':', '.'}, '-')
  }

  /** `<base>_<stamp><ext>` next to p. */
  function CollisionPath(p: Path, stamp: string): Path
  {
    Resolve(Parent(p), Stem(Leaf(p)) + "_" + stamp + Extname(Leaf(p)))
  }

  /** Where the blob goes: the candidate, or its timestamped sibling when something
      (a file or a directory) already has the candidate's name. */
  function Destination(fs: FS, p: Path, iso: string): Path
  {
    if Exists(fs, p) then CollisionPath(p, Stamp(iso)) else p
  }

  // ---------------------------------------------------------------- the move

  /** The three-tier move of the blob at src to dst. Tier 2 runs only when rename
      throws; tier 3 runs when tier 2 throws or copies a file of the wrong size (that
      copy stays behind); a failed tier 3 reports failure. */
  function MoveBlob(fs: FS, src: Path, dst: Path, io: MoveIo): Step
  {
    if io.renameOk && Rename(fs, src, dst).Some? then Step(true, Rename(fs, src, dst).value)
    else
      var tier2 := Copy(fs, src, dst, io.copy);
      if tier2.Some? && tier2.value[dst] == tier2.value[src] then Step(true, Unlink(tier2.value, src).value)
      else
        var fs2 := if tier2.Some? then tier2.value else fs;
        match Copy(fs2, src, dst, io.cp)
        case None => Step(false, fs2)
        case Some(fs3) =>
          if fs3[dst] == fs3[src] then Step(true, Unlink(fs3, src).value) else Step(false, fs3)
  }

  /** Deletes the sidecar when it exists; a failed deletion is a failure. */
  function RemoveSidecar(fs: FS, meta: Path): Step
  {
    if !Exists(fs, meta) then Step(true, fs)
    else match Unlink(fs, meta)
      case None => Step(false, fs)
      case Some(fs1) => Step(true, fs1)
  }

  // ---------------------------------------------------------------- directory intent

  /** The directories a directory upload asks for are created with `mkdir -p`, which
      fails when a file stands at the path or on the way to it. */
  function EnsureDir(fs: FS, dir: Path): Option<FS>
  {
    MkdirP(fs, dir)
  }

  /** Creates dir, then removes the placeholder blob and the sidecar. */
  function PlaceDirectory(fs: FS, cfg: Config, id: string, dir: Path): Step
  {
    match EnsureDir(fs, dir)
    case None => Step(false, fs)
    case Some(fs1) => ClearPlaceholder(fs1, cfg, id)
  }

  /** Removes the placeholder blob and the sidecar where they exist; a failed deletion
      is a failure. */
  function ClearPlaceholder(fs1: FS, cfg: Config, id: string): Step
  {
    var blob := Blob(cfg, id);
    if Exists(fs1, blob) && Unlink(fs1, blob).None? then Step(false, fs1)
    else
      var fs2 := if Exists(fs1, blob) then Unlink(fs1, blob).value else fs1;
      RemoveSidecar(fs2, SidecarPath(cfg, id))
  }

  /** `handleDirectoryCreation(file)`. */
  function CreateDirectory(fs: FS, cfg: Config, file: Upload): Step
  {
    if !Truthy(file.id) || !Truthy(file.metadata.filename) then Step(false, fs)
    else match DecodedPath(file.metadata)
      case None => Step(false, fs)
      case Some(rel) => PlaceDirectory(fs, cfg, file.id.value, UnderTarget(cfg, file.metadata, rel))
  }

  // ---------------------------------------------------------------- processTusFile

  /** `if (!existsSync(dir)) mkdir(dir, { recursive: true })`: anything at dir, a
      file included, counts as present. */
  function PrepareDir(fs: FS, dir: Path): Option<FS>
  {
    if Exists(fs, dir) then Some(fs) else MkdirP(fs, dir)
  }

  /** The file branch: create the directory if missing, pick the destination, move the
      blob, remove the sidecar. */
  function PlaceFile(fs: FS, cfg: Config, id: string, meta: Metadata, rel: string, iso: string, io: MoveIo): Step
  {
    PlaceFileAt(fs, cfg, id, FinalDir(cfg, meta, rel), Candidate(cfg, meta, rel), iso, io)
  }

  /** The file branch for the directory dir and the intended path cand. */
  function PlaceFileAt(fs: FS, cfg: Config, id: string, dir: Path, cand: Path, iso: string, io: MoveIo): Step
  {
    match PrepareDir(fs, dir)
    case None => Step(false, fs)
    case Some(fs1) => MoveAndClean(fs1, cfg, id, Destination(fs1, cand, iso), io)
  }

  /** Moves the blob to dst and, once it is there, removes the sidecar. */
  function MoveAndClean(fs: FS, cfg: Config, id: string, dst: Path, io: MoveIo): Step
  {
    var moved := MoveBlob(fs, Blob(cfg, id), dst, io);
    if !moved.ok then moved
    else RemoveSidecar(moved.fs, SidecarPath(cfg, id))
  }

  /** `processTusFile(file)` for the upload with the given id; `iso` is the clock
      reading `new Date().toISOString()` would give. */
  function Finalize(fs: FS, cfg: Config, id: string, meta: Metadata, iso: string, io: MoveIo): Step
  {
    if !Truthy(meta.filename) then Step(false, fs)
    else match DecodedPath(meta)
      case None => Step(false, fs)
      case Some(rel) =>
        var blob := Blob(cfg, id);
        if !Exists(fs, blob) then Step(false, fs)
        else if StatSize(fs, blob) == 0 then PlaceDirectory(fs, cfg, id, UnderTarget(cfg, meta, rel))
        else PlaceFile(fs, cfg, id, meta, rel, iso, io)
  }

  // ---------------------------------------------------------------- properties

  /** A missing filename, an undecodable relativePath and a missing blob each report
      failure before anything on disk changes; an absent relativePath means filename. */
  lemma FinalizeEarlyFailures(fs: FS, cfg: Config, id: string, meta: Metadata, iso: string, io: MoveIo)
    ensures !Truthy(meta.filename) ==> Finalize(fs, cfg, id, meta, iso, io) == Step(false, fs)
    ensures Truthy(meta.relativePath) && DecodeURIComponent(meta.relativePath.value).None? ==>
      Finalize(fs, cfg, id, meta, iso, io) == Step(false, fs)
    ensures !Exists(fs, Blob(cfg, id)) ==> Finalize(fs, cfg, id, meta, iso, io) == Step(false, fs)
    ensures !Truthy(meta.relativePath) && Truthy(meta.filename) ==> DecodedPath(meta) == Some(meta.filename.value)
  {
  }

  lemma SlashedSpec(rel: string)
    ensures |Slashed(rel)| == |rel| && '\\' !in Slashed(rel)
    ensures '\\' !in rel ==> Slashed(rel) == rel
  {
    ReplaceAt(rel, {'\\'}, '/');
    if '\\' !in rel {
      assert forall i :: 0 <= i < |rel| ==> Slashed(rel)[i] == rel[i];
    }
  }

  /** When sanitising leaves the last segment alone, the file is meant for
      finalStorageDir/targetPath/relativePath, with '\' read as a separator. */
  lemma CandidateJoinsRelativePath(cfg: Config, meta: Metadata, rel: string)
    requires cfg.sanitize(Basename(Slashed(rel))) == Basename(Slashed(rel))
    ensures Candidate(cfg, meta, rel) == UnderTarget(cfg, meta, Slashed(rel))
  {
    var t := Resolve(cfg.finalDir, OrElse(meta.targetPath, ""));
    var s := Slashed(rel);
    ResolveTrivial(t);
    DirnameBasenameRejoin(t, s);
    SlashedSpec(rel);
    if !('/' in rel || '\\' in rel) {
      assert s == rel;
      assert SegStart(s, TrimEnd(s)) == 0;
      assert Dirname(s) == ".";
    }
  }

  /** A leaf that is a proper segment is appended to the directory part. */
  lemma CandidateInFinalDir(cfg: Config, meta: Metadata, rel: string)
    requires IsSegment(LeafName(cfg, rel))
    ensures Candidate(cfg, meta, rel) == FinalDir(cfg, meta, rel) + [LeafName(cfg, rel)]
    ensures Parent(Candidate(cfg, meta, rel)) == FinalDir(cfg, meta, rel)
    ensures Leaf(Candidate(cfg, meta, rel)) == LeafName(cfg, rel)
  {
    ResolveSegment(FinalDir(cfg, meta, rel), LeafName(cfg, rel));
  }

  lemma StampSpec(iso: string)
    ensures |Stamp(iso)| == |iso|
    ensures '.' !in Stamp(iso) && ':' !in Stamp(iso)
    ensures '/' !in iso ==> '/' !in Stamp(iso)
  {
    ReplaceAt(iso, {':', '.'}, '-');
  }

  /** The extension of `<base>_<stamp><ext>` is ext again, for a stamp without '.'. */
  lemma CollisionExtension(leaf: string, stamp: string)
    requires IsSegment(leaf) && '.' !in stamp
    ensures Extname(Stem(leaf) + "_" + stamp + Extname(leaf)) == Extname(leaf)
  {
    var stem, ext := Stem(leaf), Extname(leaf);
    var n := stem + "_" + stamp + ext;
    var head := stem + "_" + stamp;
    assert n == head + ext;
    assert LastDot(head) == LastDot(stem) by {
      LastDotAppend(stem + "_", stamp);
      LastDotAppend(stem, "_");
      assert LastDot(stamp) == -1;
      assert LastDot("_") == -1;
    }
    assert n != ".." by {
      assert n[|stem|] == '_';
    }
    var k := LastDot(leaf);
    if k <= 0 {
      assert ext == "" && stem == leaf by {
        StemExt(leaf);
      }
      assert n == head;
    } else {
      assert ext == leaf[k..];
      assert LastDot(n) == |head| by {
        assert LastDot(ext) == 0 by {
          assert ext[0] == '.';
          assert forall i :: 0 < i < |ext| ==> ext[i] == leaf[k + i];
        }
        LastDotAppend(head, ext);
      }
    }
  }

  /** On a collision the blob keeps its directory and its extension, and gets a name
      that differs from the existing one: `<base>_<stamp><ext>`. */
  lemma CollisionRenames(p: Path, iso: string)
    requires IsCanonical(p) && p != [] && '/' !in iso
    ensures var q := CollisionPath(p, Stamp(iso));
      var leaf := Leaf(p);
      && Parent(q) == Parent(p) && |q| == |p|
      && Leaf(q) == Stem(leaf) + "_" + Stamp(iso) + Extname(leaf)
      && Leaf(q) != leaf
      && Extname(Leaf(q)) == Extname(leaf)
      && Stem(leaf) <= Leaf(q)
  {
    var leaf := Leaf(p);
    var st := Stamp(iso);
    StampSpec(iso);
    var n := Stem(leaf) + "_" + st + Extname(leaf);
    assert IsSegment(leaf);
    CollisionLeafIsSegment(leaf, st);
    ResolveSegment(Parent(p), n);
    StemExt(leaf);
    CollisionExtension(leaf, st);
  }

  /** `<base>_<stamp><ext>` is a segment again, for a stamp without '/'. */
  lemma CollisionLeafIsSegment(leaf: string, st: string)
    requires IsSegment(leaf) && '/' !in st
    ensures IsSegment(Stem(leaf) + "_" + st + Extname(leaf))
  {
    var n := Stem(leaf) + "_" + st + Extname(leaf);
    assert |Stem(leaf)| <= |leaf|;
    assert n[|Stem(leaf)|] == '_';
    assert Stem(leaf) == leaf[..|Stem(leaf)|];
    forall i | 0 <= i < |n|
      ensures n[i] != '/'
    {
      if i < |Stem(leaf)| {
        assert n[i] == leaf[i];
      } else if i == |Stem(leaf)| {
      } else if i < |Stem(leaf)| + 1 + |st| {
        assert n[i] == st[i - |Stem(leaf)| - 1];
      } else {
        assert n[i] == Extname(leaf)[i - |Stem(leaf)| - 1 - |st|];
        assert Extname(leaf)[i - |Stem(leaf)| - 1 - |st|] == leaf[|leaf| - |Extname(leaf)| + (i - |Stem(leaf)| - 1 - |st|)];
      }
    }
  }

  /** The destination stays in the candidate's directory and keeps its extension; it is
      the candidate itself exactly when nothing has the candidate's name, and it is free
      whenever the timestamped name is. */
  lemma DestinationFree(fs: FS, p: Path, iso: string)
    requires IsCanonical(p) && p != [] && '/' !in iso
    ensures var d := Destination(fs, p, iso);
      && Parent(d) == Parent(p)
      && Extname(Leaf(d)) == Extname(Leaf(p))
      && (d == p <==> !Exists(fs, p))
      && (!Exists(fs, CollisionPath(p, Stamp(iso))) ==> !Exists(fs, d))
  {
    CollisionRenames(p, iso);
  }

  /** The move succeeds exactly when the blob is a file, a file can be written at the
      target, and some tier works: rename, or a copy of the right size. Success means
      the target holds the blob and the source is gone; failure keeps the source. Only
      the source and the target can change. */
  lemma MoveBlobSpec(fs: FS, src: Path, dst: Path, io: MoveIo)
    requires src != dst
    ensures var r := MoveBlob(fs, src, dst, io);
      && (r.ok <==> IsFile(fs, src) && Placeable(fs, dst)
                    && (io.renameOk || io.copy == Copied(fs[src].size) || io.cp == Copied(fs[src].size)))
      && (r.ok ==> src !in r.fs && dst in r.fs && r.fs[dst] == fs[src])
      && (!r.ok && src in fs ==> src in r.fs && r.fs[src] == fs[src])
      && (forall q :: q != src && q != dst ==> (q in r.fs <==> q in fs) && (q in fs ==> r.fs[q] == fs[q]))
  {
    if !(io.renameOk && Rename(fs, src, dst).Some?) {
      var tier2 := Copy(fs, src, dst, io.copy);
      if !(tier2.Some? && tier2.value[dst] == tier2.value[src]) {
        var fs2 := if tier2.Some? then tier2.value else fs;
        assert IsFile(fs, src) && Placeable(fs, dst) ==> IsFile(fs2, src) && Placeable(fs2, dst) by {
          if IsFile(fs, src) && Placeable(fs, dst) {
            assert Parent(dst) != dst;
          }
        }
      }
    }
  }

  /** When rename works the later tiers never run. */
  lemma MoveRenameFirst(fs: FS, src: Path, dst: Path, io: MoveIo)
    requires io.renameOk && IsFile(fs, src) && Placeable(fs, dst)
    ensures MoveBlob(fs, src, dst, io) == Step(true, (fs - {src})[dst := fs[src]])
  {
  }

  lemma MkdirPExisting(fs: FS, p: Path)
    requires WellFormed(fs) && IsDir(fs, p)
    ensures MkdirP(fs, p) == Some(fs)
    decreases |p|
  {
    if p != [] {
      MkdirPExisting(fs, Parent(p));
    }
  }

  /** Corrected directory creation: success means a directory stands at dir, and it
      fails exactly when a file is at dir or on the way to it. */
  lemma EnsureDirSpec(fs: FS, dir: Path)
    ensures EnsureDir(fs, dir).Some? ==> IsDir(EnsureDir(fs, dir).value, dir)
    ensures EnsureDir(fs, dir).None? <==> exists k :: 1 <= k <= |dir| && IsFile(fs, dir[..k])
  {
    MkdirPFails(fs, dir);
  }

  /** The existence test as written lets a regular file pass for the directory: with a
      file at /srv/a, directory intent for /srv/a reports success and no directory
      exists, where `mkdir -p` alone would have failed. */
  lemma PrepareDirAcceptsFile()
    ensures var fs: FS := map[["srv"] := Directory, ["srv", "a"] := File(3)];
      && PrepareDir(fs, ["srv", "a"]) == Some(fs)
      && !IsDir(fs, ["srv", "a"])
      && EnsureDir(fs, ["srv", "a"]).None?
  {
    var fs: FS := map[["srv"] := Directory, ["srv", "a"] := File(3)];
    EnsureDirSpec(fs, ["srv", "a"]);
    assert ["srv", "a"][..2] == ["srv", "a"];
  }

  /** Directory intent as modelled: success leaves a directory at dir and neither the
      placeholder blob nor the sidecar; no file is created or changed; a file on the
      way to dir fails with nothing changed; and it succeeds whenever nothing is in the
      way (no file on the way, blob and sidecar not directories and not on the way). */
  lemma PlaceDirectorySpec(fs: FS, cfg: Config, id: string, dir: Path)
    ensures var r := PlaceDirectory(fs, cfg, id, dir);
      var blob, meta := Blob(cfg, id), SidecarPath(cfg, id);
      && (r.ok ==> IsDir(r.fs, dir) && blob !in r.fs && meta !in r.fs)
      && (forall q :: q in r.fs && r.fs[q].File? ==> q in fs && r.fs[q] == fs[q])
      && ((exists k :: 1 <= k <= |dir| && IsFile(fs, dir[..k])) ==> r == Step(false, fs))
      && (((forall k :: 1 <= k <= |dir| ==> !IsFile(fs, dir[..k]))
           && !IsDir(fs, blob) && !(blob <= dir) && !IsDir(fs, meta) && !(meta <= dir)) ==> r.ok)
  {
    var blob, meta := Blob(cfg, id), SidecarPath(cfg, id);
    EnsureDirSpec(fs, dir);
    match EnsureDir(fs, dir)
    case None =>
    case Some(fs1) =>
      assert blob in fs1 && fs1[blob].Directory? && blob !in fs ==> blob <= dir;
      assert meta in fs1 && fs1[meta].Directory? && meta !in fs ==> meta <= dir;
      if Exists(fs1, blob) && Unlink(fs1, blob).None? {
      } else {
        var fs2 := if Exists(fs1, blob) then Unlink(fs1, blob).value else fs1;
        assert IsDir(fs2, dir);
      }
  }

  /** processTusFile on a zero-byte blob is handleDirectoryCreation for the same upload. */
  lemma FinalizeZeroBytes(fs: FS, cfg: Config, id: string, meta: Metadata, iso: string, io: MoveIo)
    requires Truthy(meta.filename) && DecodedPath(meta).Some?
    requires Exists(fs, Blob(cfg, id)) && StatSize(fs, Blob(cfg, id)) == 0
    ensures IsFile(fs, Blob(cfg, id))
    ensures Finalize(fs, cfg, id, meta, iso, io) == PlaceDirectory(fs, cfg, id, UnderTarget(cfg, meta, DecodedPath(meta).value))
    ensures id != "" ==> Finalize(fs, cfg, id, meta, iso, io) == CreateDirectory(fs, cfg, Upload(Some(id), meta, Some(0)))
  {
  }

  /** After the move: a failed move reports false and keeps the blob and the sidecar;
      success means the destination holds the blob and the blob and the sidecar are gone. */
  lemma MoveAndCleanSpec(fs: FS, cfg: Config, id: string, dst: Path, io: MoveIo)
    requires IsFile(fs, Blob(cfg, id))
    requires dst != Blob(cfg, id) && dst != SidecarPath(cfg, id)
    ensures var r := MoveAndClean(fs, cfg, id, dst, io);
      var blob, side := Blob(cfg, id), SidecarPath(cfg, id);
      && (!MoveBlob(fs, blob, dst, io).ok ==>
            !r.ok && r.fs[blob] == fs[blob] && (side in fs ==> side in r.fs && r.fs[side] == fs[side]))
      && (r.ok ==> blob !in r.fs && side !in r.fs && dst in r.fs && r.fs[dst] == fs[blob])
      && (!r.ok ==> (blob in r.fs && r.fs[blob] == fs[blob]) || (dst in r.fs && r.fs[dst] == fs[blob] && Exists(r.fs, side)))
      && (forall q :: q in fs && q != blob && q != side && q != dst ==> q in r.fs && r.fs[q] == fs[q])
  {
    var blob, side := Blob(cfg, id), SidecarPath(cfg, id);
    var moved := MoveBlob(fs, blob, dst, io);
    MoveBlobSpec(fs, blob, dst, io);
    if moved.ok {
      var r := RemoveSidecar(moved.fs, side);
      assert r.ok ==> r.fs == moved.fs - {side};
      assert !r.ok ==> r.fs == moved.fs;
    }
  }

  /** The file branch, for the intended path cand in dir: it fails with nothing changed
      exactly when dir is missing and a file stands on the way to it. Otherwise the
      blob goes to the destination, which is cand when nothing is there and the
      timestamped name (not checked again) when something is. On success the
      destination holds the blob's content, replacing a file already there, and the
      blob and the sidecar are gone; a failure leaves the content in staging, or at
      the destination with the sidecar still there. Nothing else that existed changes. */
  lemma PlaceFileSpec(fs: FS, cfg: Config, id: string, dir: Path, cand: Path, iso: string, io: MoveIo)
    requires IsFile(fs, Blob(cfg, id))
    ensures var r := PlaceFileAt(fs, cfg, id, dir, cand, iso, io);
      var blob, side := Blob(cfg, id), SidecarPath(cfg, id);
      && (PrepareDir(fs, dir).None? <==> !Exists(fs, dir) && exists k :: 1 <= k <= |dir| && IsFile(fs, dir[..k]))
      && (PrepareDir(fs, dir).None? ==> r == Step(false, fs))
      && (PrepareDir(fs, dir).Some? ==>
            var fs1 := PrepareDir(fs, dir).value;
            var dst := Destination(fs1, cand, iso);
            && (!Exists(fs1, cand) ==> dst == cand)
            && (dst != blob && dst != side ==>
                  && (r.ok ==> blob !in r.fs && side !in r.fs && dst in r.fs && r.fs[dst] == fs[blob])
                  && (!r.ok ==> (blob in r.fs && r.fs[blob] == fs[blob])
                                || (dst in r.fs && r.fs[dst] == fs[blob] && Exists(r.fs, side)))
                  && (forall q :: q in fs && q != blob && q != side && q != dst ==> q in r.fs && r.fs[q] == fs[q])))
  {
    var blob, side := Blob(cfg, id), SidecarPath(cfg, id);
    MkdirPFails(fs, dir);
    var prepared := PrepareDir(fs, dir);
    if prepared.Some? {
      var fs1 := prepared.value;
      var dst := Destination(fs1, cand, iso);
      assert forall q :: q in fs ==> q in fs1 && fs1[q] == fs[q];
      if dst != blob && dst != side {
        MoveAndCleanSpec(fs1, cfg, id, dst, io);
      }
    }
  }

  /** processTusFile on a non-empty blob is the file branch. */
  lemma FinalizeNonEmpty(fs: FS, cfg: Config, id: string, meta: Metadata, iso: string, io: MoveIo)
    requires Truthy(meta.filename) && DecodedPath(meta).Some?
    requires Exists(fs, Blob(cfg, id)) && StatSize(fs, Blob(cfg, id)) > 0
    ensures Finalize(fs, cfg, id, meta, iso, io) == PlaceFile(fs, cfg, id, meta, DecodedPath(meta).value, iso, io)
  {
  }

  /** Running handleDirectoryCreation again after a success (the upload-complete event
      reaches two listeners) succeeds and changes nothing. */
  lemma CreateDirectoryTwice(fs: FS, cfg: Config, file: Upload)
    requires WellFormed(fs)
    requires CreateDirectory(fs, cfg, file).ok
    ensures var once := CreateDirectory(fs, cfg, file).fs;
      CreateDirectory(once, cfg, file) == Step(true, once)
  {
    var rel := DecodedPath(file.metadata).value;
    var id := file.id.value;
    var dir := UnderTarget(cfg, file.metadata, rel);
    assert CreateDirectory(fs, cfg, file) == PlaceDirectory(fs, cfg, id, dir);
    var once := PlaceDirectory(fs, cfg, id, dir).fs;
    assert CreateDirectory(once, cfg, file) == PlaceDirectory(once, cfg, id, dir);
    PlaceDirectoryAgain(fs, cfg, id, dir);
  }

  /** Directory intent a second time after a success: the directory stands, the blob
      and the sidecar are gone, so nothing is left to do. */
  lemma PlaceDirectoryAgain(fs: FS, cfg: Config, id: string, dir: Path)
    requires WellFormed(fs)
    requires PlaceDirectory(fs, cfg, id, dir).ok
    ensures var once := PlaceDirectory(fs, cfg, id, dir).fs;
      PlaceDirectory(once, cfg, id, dir) == Step(true, once)
  {
    var blob, side := Blob(cfg, id), SidecarPath(cfg, id);
    var fs1 := MkdirP(fs, dir).value;
    assert WellFormed(fs1) by {
      MkdirPWellFormed(fs, dir);
    }
    assert blob != [] && side != [] by {
      assert [] !in fs1;
    }
    var fs2 := if Exists(fs1, blob) then Unlink(fs1, blob).value else fs1;
    assert WellFormed(fs2) by {
      if Exists(fs1, blob) {
        RemoveFileWellFormed(fs1, blob);
      }
    }
    var once := PlaceDirectory(fs, cfg, id, dir).fs;
    assert WellFormed(once) by {
      if Exists(fs2, side) {
        RemoveFileWellFormed(fs2, side);
      }
    }
    PlaceDirectorySpec(fs, cfg, id, dir);
    MkdirPExisting(once, dir);
  }

  // ---------------------------------------------------------------- the leaf as written

  /** As written, the stored name is the sanitised basename of the decoded path before
      '\' is turned into '/', while the directory part is taken after. */
  function LeafNameAsWritten(cfg: Config, rel: string): string
  {
    cfg.sanitize(Basename(rel))
  }

  function CandidateAsWritten(cfg: Config, meta: Metadata, rel: string): Path
  {
    Resolve(FinalDir(cfg, meta, rel), LeafNameAsWritten(cfg, rel))
  }

  /** Without a backslash the two agree. */
  lemma LeafAsWrittenAgrees(cfg: Config, meta: Metadata, rel: string)
    requires '\\' !in rel
    ensures LeafNameAsWritten(cfg, rel) == LeafName(cfg, rel)
    ensures CandidateAsWritten(cfg, meta, rel) == Candidate(cfg, meta, rel)
  {
    SlashedSpec(rel);
  }

  lemma SlashedJoin(d: string, f: string)
    requires '\\' !in d && '\\' !in f
    ensures Slashed(d + "\\" + f) == d + "/" + f
  {
    var rel := d + "\\" + f;
    ReplaceAt(rel, {'\\'}, '/');
    assert forall i :: 0 <= i < |rel| ==> Slashed(rel)[i] == (d + "/" + f)[i];
  }

  /** "d\\f" has the directory part d in both readings, but as written the stored name
      is the whole of "d\\f" sanitised rather than f. */
  lemma BackslashLeafAsWritten(cfg: Config, d: string, f: string)
    requires IsSegment(d) && IsSegment(f) && '\\' !in d && '\\' !in f
    ensures DirPart(d + "\\" + f) == d
    ensures LeafName(cfg, d + "\\" + f) == cfg.sanitize(f)
    ensures LeafNameAsWritten(cfg, d + "\\" + f) == cfg.sanitize(d + "\\" + f)
  {
    var rel := d + "\\" + f;
    SlashedJoin(d, f);
    assert '\\' in rel by { assert rel[|d|] == '\\'; }
    BasenameDirnameJoin(d, f);
    BasenameNoSlash(rel);
  }

  /** With the sanitiser of backend/tus-utils.js the two names differ: the file lands at
      .../d/<d>_<f> instead of .../d/<f>. */
  lemma BackslashLeafDiffers(d: string, f: string)
    requires IsSegment(d) && IsSegment(f) && '\\' !in d && '\\' !in f
    ensures var cfg := Config([], [], Sanitize.SanitizeFilename);
      && LeafNameAsWritten(cfg, d + "\\" + f) != LeafName(cfg, d + "\\" + f)
      && |LeafNameAsWritten(cfg, d + "\\" + f)| == |d| + 1 + |f|
      && LeafNameAsWritten(cfg, d + "\\" + f)[|d|] == '_'
  {
    var cfg := Config([], [], Sanitize.SanitizeFilename);
    BackslashLeafAsWritten(cfg, d, f);
    Sanitize.SanitizeSpec(d + "\\" + f);
    Sanitize.SanitizeSpec(f);
  }

  // ---------------------------------------------------------------- the operation as written

  /** Directory intent as written, at lines 188 and 469: `existsSync` alone decides, so
      anything at dir, a file included, counts as the directory. */
  function PlaceDirectoryAsWritten(fs: FS, cfg: Config, id: string, dir: Path): Step
  {
    match PrepareDir(fs, dir)
    case None => Step(false, fs)
    case Some(fs1) => ClearPlaceholder(fs1, cfg, id)
  }

  /** `handleDirectoryCreation(file)` as written. */
  function CreateDirectoryAsWritten(fs: FS, cfg: Config, file: Upload): Step
  {
    if !Truthy(file.id) || !Truthy(file.metadata.filename) then Step(false, fs)
    else match DecodedPath(file.metadata)
      case None => Step(false, fs)
      case Some(rel) => PlaceDirectoryAsWritten(fs, cfg, file.id.value, UnderTarget(cfg, file.metadata, rel))
  }

  /** `processTusFile(file)` as written: the existence test of the directory branch and
      the leaf taken before '\' is turned into '/'. */
  function FinalizeAsWritten(fs: FS, cfg: Config, id: string, meta: Metadata, iso: string, io: MoveIo): Step
  {
    if !Truthy(meta.filename) then Step(false, fs)
    else match DecodedPath(meta)
      case None => Step(false, fs)
      case Some(rel) =>
        var blob := Blob(cfg, id);
        if !Exists(fs, blob) then Step(false, fs)
        else if StatSize(fs, blob) == 0 then PlaceDirectoryAsWritten(fs, cfg, id, UnderTarget(cfg, meta, rel))
        else PlaceFileAt(fs, cfg, id, FinalDir(cfg, meta, rel), CandidateAsWritten(cfg, meta, rel), iso, io)
  }

  /** With neither the blob nor the sidecar a directory, clearing the placeholder
      succeeds and removes exactly those two. */
  lemma ClearPlaceholderSpec(fs: FS, cfg: Config, id: string)
    requires !IsDir(fs, Blob(cfg, id)) && !IsDir(fs, SidecarPath(cfg, id))
    ensures ClearPlaceholder(fs, cfg, id) == Step(true, fs - {Blob(cfg, id), SidecarPath(cfg, id)})
  {
    var blob, side := Blob(cfg, id), SidecarPath(cfg, id);
    var fs2 := if Exists(fs, blob) then Unlink(fs, blob).value else fs;
    assert fs2 == fs - {blob};
    if Exists(fs2, side) {
      assert Unlink(fs2, side).value == fs - {blob, side};
    } else {
      assert fs2 == fs - {blob, side};
    }
  }

  /** Unless a file stands at dir itself, the existence test and `mkdir -p` agree. */
  lemma PlaceDirectoryAsWrittenAgrees(fs: FS, cfg: Config, id: string, dir: Path)
    requires WellFormed(fs) && !IsFile(fs, dir)
    ensures PlaceDirectoryAsWritten(fs, cfg, id, dir) == PlaceDirectory(fs, cfg, id, dir)
  {
    if Exists(fs, dir) {
      MkdirPExisting(fs, dir);
    }
  }

  /** The program as written and the corrected one do the same, unless the decoded path
      has a '\' or a zero-byte upload finds a file where its directory should be. */
  lemma FinalizeAsWrittenAgrees(fs: FS, cfg: Config, id: string, meta: Metadata, iso: string, io: MoveIo)
    requires WellFormed(fs)
    requires DecodedPath(meta).Some? ==> '\\' !in DecodedPath(meta).value
    requires DecodedPath(meta).Some? && Exists(fs, Blob(cfg, id)) && StatSize(fs, Blob(cfg, id)) == 0 ==>
      !IsFile(fs, UnderTarget(cfg, meta, DecodedPath(meta).value))
    ensures FinalizeAsWritten(fs, cfg, id, meta, iso, io) == Finalize(fs, cfg, id, meta, iso, io)
  {
    if DecodedPath(meta).Some? {
      var rel := DecodedPath(meta).value;
      if Exists(fs, Blob(cfg, id)) && StatSize(fs, Blob(cfg, id)) == 0 {
        PlaceDirectoryAsWrittenAgrees(fs, cfg, id, UnderTarget(cfg, meta, rel));
      }
      LeafAsWrittenAgrees(cfg, meta, rel);
    }
  }

  lemma CreateDirectoryAsWrittenAgrees(fs: FS, cfg: Config, file: Upload)
    requires WellFormed(fs)
    requires DecodedPath(file.metadata).Some? ==>
      !IsFile(fs, UnderTarget(cfg, file.metadata, DecodedPath(file.metadata).value))
    ensures CreateDirectoryAsWritten(fs, cfg, file) == CreateDirectory(fs, cfg, file)
  {
    if Truthy(file.id) && DecodedPath(file.metadata).Some? {
      PlaceDirectoryAsWrittenAgrees(fs, cfg, file.id.value, UnderTarget(cfg, file.metadata, DecodedPath(file.metadata).value));
    }
  }

  /** A file at dir: as written, directory intent reports success, removes the blob and
      the sidecar and leaves no directory at dir; `mkdir -p` fails with nothing changed. */
  lemma FileAtDirectoryAccepted(fs: FS, cfg: Config, id: string, dir: Path)
    requires WellFormed(fs) && IsFile(fs, dir) && !IsDir(fs, Blob(cfg, id)) && !IsDir(fs, SidecarPath(cfg, id))
    ensures var w := PlaceDirectoryAsWritten(fs, cfg, id, dir);
      && w == Step(true, fs - {Blob(cfg, id), SidecarPath(cfg, id)})
      && !IsDir(w.fs, dir)
      && PlaceDirectory(fs, cfg, id, dir) == Step(false, fs)
  {
    ClearPlaceholderSpec(fs, cfg, id);
    MkdirPFails(fs, dir);
    assert dir[..|dir|] == dir;
  }

  /** processTusFile of a zero-byte upload whose directory path holds a file: as written
      it reports success, deletes the blob and the sidecar and creates no directory;
      the corrected program fails with nothing changed. */
  lemma FinalizeAcceptsFileAtDirectory(fs: FS, cfg: Config, id: string, meta: Metadata, iso: string, io: MoveIo)
    requires WellFormed(fs) && Truthy(meta.filename) && DecodedPath(meta).Some?
    requires Exists(fs, Blob(cfg, id)) && StatSize(fs, Blob(cfg, id)) == 0
    requires IsFile(fs, UnderTarget(cfg, meta, DecodedPath(meta).value)) && !IsDir(fs, SidecarPath(cfg, id))
    ensures var w := FinalizeAsWritten(fs, cfg, id, meta, iso, io);
      && w == Step(true, fs - {Blob(cfg, id), SidecarPath(cfg, id)})
      && !IsDir(w.fs, UnderTarget(cfg, meta, DecodedPath(meta).value))
      && Finalize(fs, cfg, id, meta, iso, io) == Step(false, fs)
  {
    FinalizeZeroBytes(fs, cfg, id, meta, iso, io);
    FileAtDirectoryAccepted(fs, cfg, id, UnderTarget(cfg, meta, DecodedPath(meta).value));
  }

  /** handleDirectoryCreation for a path that holds a file: as written it reports
      success and no directory exists; the corrected program fails with nothing changed. */
  lemma CreateDirectoryAcceptsFile(fs: FS, cfg: Config, file: Upload)
    requires WellFormed(fs) && Truthy(file.id) && Truthy(file.metadata.filename) && DecodedPath(file.metadata).Some?
    requires IsFile(fs, UnderTarget(cfg, file.metadata, DecodedPath(file.metadata).value))
    requires !IsDir(fs, Blob(cfg, file.id.value)) && !IsDir(fs, SidecarPath(cfg, file.id.value))
    ensures var w := CreateDirectoryAsWritten(fs, cfg, file);
      && w.ok && !IsDir(w.fs, UnderTarget(cfg, file.metadata, DecodedPath(file.metadata).value))
      && CreateDirectory(fs, cfg, file) == Step(false, fs)
  {
    FileAtDirectoryAccepted(fs, cfg, file.id.value, UnderTarget(cfg, file.metadata, DecodedPath(file.metadata).value));
  }

  /** A path that was free and lies below dir is still free once dir is prepared. */
  lemma PreparedFree(fs: FS, dir: Path, p: Path)
    requires PrepareDir(fs, dir).Some? && p !in fs && |p| > |dir|
    ensures p !in PrepareDir(fs, dir).value
  {
  }

  /** processTusFile of `d\f` with a free target: as written the blob's content lands
      at targetPath/d/<d\f sanitised>, while the corrected program puts it at
      targetPath/d/<f sanitised>. */
  lemma FinalizeBackslashStoredFlat(fs: FS, cfg: Config, id: string, meta: Metadata, iso: string, io: MoveIo, d: string, f: string)
    requires Truthy(meta.filename) && DecodedPath(meta) == Some(d + "\\" + f)
    requires IsSegment(d) && IsSegment(f) && '\\' !in d && '\\' !in f
    requires IsFile(fs, Blob(cfg, id)) && StatSize(fs, Blob(cfg, id)) > 0
    ensures var dir := UnderTarget(cfg, meta, d);
      var flat, nested := dir + [cfg.sanitize(d + "\\" + f)], dir + [cfg.sanitize(f)];
      var written, intended := FinalizeAsWritten(fs, cfg, id, meta, iso, io), Finalize(fs, cfg, id, meta, iso, io);
      && (IsSegment(cfg.sanitize(d + "\\" + f)) && flat !in fs && flat != SidecarPath(cfg, id) && written.ok ==>
            flat in written.fs && written.fs[flat] == fs[Blob(cfg, id)] && Blob(cfg, id) !in written.fs)
      && (IsSegment(cfg.sanitize(f)) && nested !in fs && nested != SidecarPath(cfg, id) && intended.ok ==>
            nested in intended.fs && intended.fs[nested] == fs[Blob(cfg, id)] && Blob(cfg, id) !in intended.fs)
  {
    var rel := d + "\\" + f;
    var dir := UnderTarget(cfg, meta, d);
    var blob := Blob(cfg, id);
    assert FinalizeAsWritten(fs, cfg, id, meta, iso, io) == PlaceFileAt(fs, cfg, id, FinalDir(cfg, meta, rel), CandidateAsWritten(cfg, meta, rel), iso, io);
    assert Finalize(fs, cfg, id, meta, iso, io) == PlaceFileAt(fs, cfg, id, FinalDir(cfg, meta, rel), Candidate(cfg, meta, rel), iso, io);
    BackslashCandidates(cfg, meta, d, f);
    var flat, nested := dir + [cfg.sanitize(rel)], dir + [cfg.sanitize(f)];
    if IsSegment(cfg.sanitize(rel)) && flat !in fs && flat != SidecarPath(cfg, id) {
      ResolveSegment(dir, cfg.sanitize(rel));
      StoredAtFree(fs, cfg, id, dir, flat, iso, io);
    }
    if IsSegment(cfg.sanitize(f)) && nested !in fs && nested != SidecarPath(cfg, id) {
      ResolveSegment(dir, cfg.sanitize(f));
      StoredAtFree(fs, cfg, id, dir, nested, iso, io);
    }
  }

  /** For `d\f` both readings use the directory d; the leaf is `d\f` or f. */
  lemma BackslashCandidates(cfg: Config, meta: Metadata, d: string, f: string)
    requires IsSegment(d) && IsSegment(f) && '\\' !in d && '\\' !in f
    ensures FinalDir(cfg, meta, d + "\\" + f) == UnderTarget(cfg, meta, d)
    ensures CandidateAsWritten(cfg, meta, d + "\\" + f) == Resolve(UnderTarget(cfg, meta, d), cfg.sanitize(d + "\\" + f))
    ensures Candidate(cfg, meta, d + "\\" + f) == Resolve(UnderTarget(cfg, meta, d), cfg.sanitize(f))
  {
    BackslashLeafAsWritten(cfg, d, f);
  }

  /** The file branch with a free intended path below dir stores the blob there. */
  lemma StoredAtFree(fs: FS, cfg: Config, id: string, dir: Path, cand: Path, iso: string, io: MoveIo)
    requires IsFile(fs, Blob(cfg, id)) && cand !in fs && |cand| > |dir| && cand != SidecarPath(cfg, id)
    ensures var r := PlaceFileAt(fs, cfg, id, dir, cand, iso, io);
      r.ok ==> cand in r.fs && r.fs[cand] == fs[Blob(cfg, id)] && Blob(cfg, id) !in r.fs
  {
    PlaceFileSpec(fs, cfg, id, dir, cand, iso, io);
    if PrepareDir(fs, dir).Some? {
      PreparedFree(fs, dir, cand);
    }
  }

  lemma MoveBlobWellFormed(fs: FS, src: Path, dst: Path, io: MoveIo)
    requires WellFormed(fs)
    ensures WellFormed(MoveBlob(fs, src, dst, io).fs)
  {
    PrimitivesWellFormed(fs, src, dst, io.copy);
    var tier2 := Copy(fs, src, dst, io.copy);
    var fs2 := if tier2.Some? then tier2.value else fs;
    PrimitivesWellFormed(fs2, src, dst, io.cp);
    match Copy(fs2, src, dst, io.cp)
    case None =>
    case Some(fs3) => PrimitivesWellFormed(fs3, src, dst, io.cp);
  }

  lemma PlaceDirectoryWellFormed(fs: FS, cfg: Config, id: string, dir: Path)
    requires WellFormed(fs)
    ensures WellFormed(PlaceDirectory(fs, cfg, id, dir).fs)
  {
    match EnsureDir(fs, dir)
    case None =>
    case Some(fs1) =>
      MkdirPWellFormed(fs, dir);
      var blob := Blob(cfg, id);
      PrimitivesWellFormed(fs1, blob, blob, CopyFailed);
      var fs2 := if Exists(fs1, blob) && Unlink(fs1, blob).Some? then Unlink(fs1, blob).value else fs1;
      PrimitivesWellFormed(fs2, SidecarPath(cfg, id), blob, CopyFailed);
  }

  lemma MoveAndCleanWellFormed(fs: FS, cfg: Config, id: string, dst: Path, io: MoveIo)
    requires WellFormed(fs)
    ensures WellFormed(MoveAndClean(fs, cfg, id, dst, io).fs)
  {
    var moved := MoveBlob(fs, Blob(cfg, id), dst, io);
    MoveBlobWellFormed(fs, Blob(cfg, id), dst, io);
    PrimitivesWellFormed(moved.fs, SidecarPath(cfg, id), dst, io.cp);
  }

  lemma PrepareDirWellFormed(fs: FS, dir: Path)
    requires WellFormed(fs)
    ensures PrepareDir(fs, dir).Some? ==> WellFormed(PrepareDir(fs, dir).value)
  {
    if !Exists(fs, dir) && MkdirP(fs, dir).Some? {
      MkdirPWellFormed(fs, dir);
    }
  }

  lemma PlaceFileWellFormed(fs: FS, cfg: Config, id: string, meta: Metadata, rel: string, iso: string, io: MoveIo)
    requires WellFormed(fs)
    ensures WellFormed(PlaceFile(fs, cfg, id, meta, rel, iso, io).fs)
  {
    var dir := FinalDir(cfg, meta, rel);
    PrepareDirWellFormed(fs, dir);
    match PrepareDir(fs, dir)
    case None =>
    case Some(fs1) =>
      MoveAndCleanWellFormed(fs1, cfg, id, Destination(fs1, Candidate(cfg, meta, rel), iso), io);
  }

  /** processTusFile and handleDirectoryCreation keep every entry inside a directory. */
  lemma FinalizeWellFormed(fs: FS, cfg: Config, id: string, meta: Metadata, iso: string, io: MoveIo)
    requires WellFormed(fs)
    ensures WellFormed(Finalize(fs, cfg, id, meta, iso, io).fs)
  {
    if Truthy(meta.filename) && DecodedPath(meta).Some? && Exists(fs, Blob(cfg, id)) {
      var rel := DecodedPath(meta).value;
      if StatSize(fs, Blob(cfg, id)) == 0 {
        PlaceDirectoryWellFormed(fs, cfg, id, UnderTarget(cfg, meta, rel));
      } else {
        PlaceFileWellFormed(fs, cfg, id, meta, rel, iso, io);
      }
    }
  }

  lemma CreateDirectoryWellFormed(fs: FS, cfg: Config, file: Upload)
    requires WellFormed(fs)
    ensures WellFormed(CreateDirectory(fs, cfg, file).fs)
  {
    if Truthy(file.id) && Truthy(file.metadata.filename) && DecodedPath(file.metadata).Some? {
      PlaceDirectoryWellFormed(fs, cfg, file.id.value, UnderTarget(cfg, file.metadata, DecodedPath(file.metadata).value));
    }
  }
}
