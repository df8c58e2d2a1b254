/** The first draft of `processTusFile`, kept in backend/temp-test/original-func.js and,
    unchanged, inside backend/temp-test/original-tus-server.js. Its free globals (the
    staging and final directories, the sanitiser) are the fields of a Config. Unlike the
    current engine it takes the directory part straight from `path.dirname`, makes no
    directory for zero-byte uploads, and moves the blob with a single `rename`. The
    disk-usage update that follows is swallowed on failure and does not appear here. */
module DraftFinalize {
  import opened Wrappers
  import opened Text
  import opened Paths
  import opened Storage
  import opened TusServer

  /** `path.dirname(rel)`, with "." read as "". */
  function DraftDirPart(rel: string): string
  {
    var d := Dirname(rel);
    if d == "." then "" else d
  }

  /** `path.join(finalStorageDir, targetPath || '', dirPath)`. */
  function DraftFinalDir(cfg: Config, meta: Metadata, rel: string): Path
  {
    UnderTarget(cfg, meta, DraftDirPart(rel))
  }

  function DraftCandidate(cfg: Config, meta: Metadata, rel: string): Path
  {
    Resolve(DraftFinalDir(cfg, meta, rel), cfg.sanitize(Basename(rel)))
  }

  /** The draft `processTusFile`; `renameOk` says whether `rename` throws for a reason the
      filesystem map does not show. */
  function DraftFinalizeStep(fs: FS, cfg: Config, id: string, meta: Metadata, iso: string, renameOk: bool): Step
  {
    if !Truthy(meta.filename) then Step(false, fs)
    else match DecodedPath(meta)
      case None => Step(false, fs)
      case Some(rel) =>
        var blob := Blob(cfg, id);
        if !Exists(fs, blob) then Step(false, fs)
        else match PrepareDir(fs, DraftFinalDir(cfg, meta, rel))
          case None => Step(false, fs)
          case Some(fs1) =>
            DraftMove(fs1, blob, Destination(fs1, DraftCandidate(cfg, meta, rel), iso), SidecarPath(cfg, id), renameOk)
  }

  /** The single `rename` of the blob to dst, then the removal of the sidecar. */
  function DraftMove(fs: FS, blob: Path, dst: Path, side: Path, renameOk: bool): Step
  {
    if !renameOk || Rename(fs, blob, dst).None? then Step(false, fs)
    else RemoveSidecar(Rename(fs, blob, dst).value, side)
  }

  /** The draft step by step, with its early returns. */
  method DraftProcessTusFile(fs0: FS, cfg: Config, id: string, meta: Metadata, iso: string, renameOk: bool)
    returns (ok: bool, fs: FS)
    ensures Step(ok, fs) == DraftFinalizeStep(fs0, cfg, id, meta, iso, renameOk)
  {
    fs := fs0;
    if !Truthy(meta.filename) {
      return false, fs;
    }
    var decoded := DecodedPath(meta);
    if decoded.None? {
      return false, fs;
    }
    var rel := decoded.value;
    var blob := Blob(cfg, id);
    if !Exists(fs, blob) {
      return false, fs;
    }
    var dir := DraftFinalDir(cfg, meta, rel);
    if !Exists(fs, dir) {
      var made := MkdirP(fs, dir);
      if made.None? {
        return false, fs;
      }
      fs := made.value;
    }
    var dst := Destination(fs, DraftCandidate(cfg, meta, rel), iso);
    if !renameOk {
      return false, fs;
    }
    var renamed := Rename(fs, blob, dst);
    if renamed.None? {
      return false, fs;
    }
    fs := renamed.value;
    var side := SidecarPath(cfg, id);
    if Exists(fs, side) {
      var removed := Unlink(fs, side);
      if removed.None? {
        return false, fs;
      }
      fs := removed.value;
    }
    ok := true;
  }

  // ---------------------------------------------------------------- properties

  /** A missing filename, an undecodable relativePath and a missing blob fail before the
      final directory is created. */
  lemma DraftEarlyFailures(fs: FS, cfg: Config, id: string, meta: Metadata, iso: string, renameOk: bool)
    ensures !Truthy(meta.filename) ==> DraftFinalizeStep(fs, cfg, id, meta, iso, renameOk) == Step(false, fs)
    ensures DecodedPath(meta).None? ==> DraftFinalizeStep(fs, cfg, id, meta, iso, renameOk) == Step(false, fs)
    ensures !Exists(fs, Blob(cfg, id)) ==> DraftFinalizeStep(fs, cfg, id, meta, iso, renameOk) == Step(false, fs)
  {
  }

  /** The single rename: the move succeeds exactly when the rename goes through and the
      sidecar, if any, can be deleted. On success the blob's content sits at the
      destination and the blob and the sidecar are gone; when the rename fails nothing
      changes. There is no second attempt. */
  lemma DraftMoveSpec(fs: FS, blob: Path, dst: Path, side: Path, renameOk: bool)
    requires side != [] && blob != side
    ensures var r := DraftMove(fs, blob, dst, side, renameOk);
      && (r.ok <==> renameOk && IsFile(fs, blob) && Placeable(fs, dst)
                    && (side in fs && side != dst ==> IsFile(fs, side)))
      && (r.ok ==> side !in r.fs)
      && (r.ok && dst != blob ==> blob !in r.fs)
      && (r.ok && dst != side ==> dst in r.fs && r.fs[dst] == fs[blob])
      && (!renameOk || Rename(fs, blob, dst).None? ==> r.fs == fs)
  {
    if renameOk && Rename(fs, blob, dst).Some? {
      var fs2 := Rename(fs, blob, dst).value;
      if dst == side {
        assert Exists(fs2, side) && fs2[side].File?;
      } else {
        assert (side in fs2) == (side in fs) && (side in fs ==> fs2[side] == fs[side]);
      }
    }
  }

  /** After the checks, the draft creates the directory when nothing is at its path and
      then makes its one move; the blob keeps its content up to the move. */
  lemma DraftReachesMove(fs: FS, cfg: Config, id: string, meta: Metadata, rel: string, iso: string, renameOk: bool)
    requires Truthy(meta.filename) && DecodedPath(meta) == Some(rel)
    requires Blob(cfg, id) in fs
    requires PrepareDir(fs, DraftFinalDir(cfg, meta, rel)).Some?
    ensures var fs1 := PrepareDir(fs, DraftFinalDir(cfg, meta, rel)).value;
      && Blob(cfg, id) in fs1 && fs1[Blob(cfg, id)] == fs[Blob(cfg, id)]
      && DraftFinalizeStep(fs, cfg, id, meta, iso, renameOk)
         == DraftMove(fs1, Blob(cfg, id), Destination(fs1, DraftCandidate(cfg, meta, rel), iso), SidecarPath(cfg, id), renameOk)
  {
  }

  /** A zero-byte blob is still moved as a file: the draft has no directory intent. */
  lemma DraftZeroByteIsFile(fs: FS, blob: Path, dst: Path, side: Path)
    requires side != [] && blob != side && dst != side
    requires blob in fs && fs[blob] == File(0)
    requires DraftMove(fs, blob, dst, side, true).ok
    ensures dst in DraftMove(fs, blob, dst, side, true).fs
    ensures DraftMove(fs, blob, dst, side, true).fs[dst] == File(0)
  {
    DraftMoveSpec(fs, blob, dst, side, true);
  }

  /** For a relative path without '\' the draft and the current engine pick the same
      directory and the same file path. */
  lemma DraftMatchesCurrent(cfg: Config, meta: Metadata, rel: string)
    requires '\\' !in rel
    ensures DraftFinalDir(cfg, meta, rel) == FinalDir(cfg, meta, rel)
    ensures DraftCandidate(cfg, meta, rel) == Candidate(cfg, meta, rel)
  {
    SlashedSpec(rel);
    if '/' !in rel {
      if rel != [] {
        BasenameNoSlash(rel);
      }
    }
  }

  /** With '\' the draft keeps the whole decoded path as one name: "d\\f" goes to
      finalStorageDir/targetPath/<sanitised "d\\f">, not into the directory d. */
  lemma DraftBackslashStaysFlat(cfg: Config, meta: Metadata, d: string, f: string)
    requires IsSegment(d) && IsSegment(f) && '\\' !in d && '\\' !in f
    ensures DraftDirPart(d + "\\" + f) == ""
    ensures DraftCandidate(cfg, meta, d + "\\" + f)
         == Resolve(Resolve(cfg.finalDir, OrElse(meta.targetPath, "")), cfg.sanitize(d + "\\" + f))
  {
    var rel := d + "\\" + f;
    assert '/' !in rel by {
      assert forall i :: 0 <= i < |rel| ==> rel[i] == (if i < |d| then d[i] else if i == |d| then '\\' else f[i - |d| - 1]);
    }
    BasenameNoSlash(rel);
    ResolveTrivial(Resolve(cfg.finalDir, OrElse(meta.targetPath, "")));
  }
}
