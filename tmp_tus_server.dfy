/** The upload-complete handler of tmp/tus-server.js, an intermediate version of the
    engine. It insists on all three metadata fields, joins targetPath and the decoded
    relativePath as strings and normalises the result, sanitises the last segment with
    the sanitiser of backend/tus-utils.js, creates the directory, and renames the blob
    into place unless something already exists there. Early errors delete the staging
    blob; the sidecar is never deleted. The disk-usage update after a move is not
    awaited and its failure only logged, so it does not appear here. */
module TmpServer {
  import opened Wrappers
  import opened Text
  import opened Paths
  import opened Storage
  import opened UriCodec
  import opened TusServer
  import Sanitize

  /** How the handler ends. */
  datatype Outcome = MissingMetadata | DecodeFailed | MkdirFailed | AlreadyExists | RenameFailed | Moved

  datatype TmpResult = TmpResult(outcome: Outcome, fs: FS)

  /** `path.normalize(path.join(targetPath, decodedRelativePath))`. */
  function RelativeTarget(target: string, rel: string): string
  {
    Render(Normalize(Join2(target, rel)))
  }

  /** The sanitised destination `path.join(finalStorageDir, path.join(dirname(r), name))`,
      where name is the sanitised basename of `path.join(finalStorageDir, r)`. */
  function TmpDestination(finalDir: Path, target: string, rel: string): Path
  {
    var r := RelativeTarget(target, rel);
    var name := Sanitize.SanitizeFilename(Leaf(Resolve(finalDir, r)));
    Resolve(finalDir, Join2(Dirname(r), name))
  }

  /** The staging blob is deleted; a failed deletion is only logged. */
  function DropBlob(fs: FS, blob: Path): FS
  {
    if Unlink(fs, blob).Some? then Unlink(fs, blob).value else fs
  }

  /** The handler; `renameOk` says whether `rename` throws for a reason the map does not show. */
  function TmpComplete(fs: FS, cfg: Config, id: string, meta: Metadata, renameOk: bool): TmpResult
  {
    var blob := Blob(cfg, id);
    if !Truthy(meta.filename) || !Truthy(meta.relativePath) || !Truthy(meta.targetPath) then
      TmpResult(MissingMetadata, DropBlob(fs, blob))
    else match DecodeURIComponent(meta.relativePath.value)
      case None => TmpResult(DecodeFailed, DropBlob(fs, blob))
      case Some(rel) =>
        var dst := TmpDestination(cfg.finalDir, meta.targetPath.value, rel);
        match MkdirP(fs, Parent(dst))
        case None => TmpResult(MkdirFailed, DropBlob(fs, blob))
        case Some(fs1) => MoveIntoPlace(fs1, blob, dst, renameOk)
  }

  /** The last step: the blob is renamed to a destination that does not exist yet. */
  function MoveIntoPlace(fs1: FS, blob: Path, dst: Path, renameOk: bool): TmpResult
  {
    if Exists(fs1, dst) then TmpResult(AlreadyExists, fs1)
    else if !renameOk || Rename(fs1, blob, dst).None? then TmpResult(RenameFailed, fs1)
    else TmpResult(Moved, Rename(fs1, blob, dst).value)
  }

  /** The last step keeps everything but the blob, and moves the blob's content to a free
      destination or leaves the blob as it was. */
  lemma MoveIntoPlaceSpec(fs1: FS, blob: Path, dst: Path, renameOk: bool)
    ensures var r := MoveIntoPlace(fs1, blob, dst, renameOk);
      && (forall p :: p in fs1 && p != blob ==> p in r.fs && r.fs[p] == fs1[p])
      && (r.outcome == Moved ==>
            dst !in fs1 && dst in r.fs && IsFile(fs1, blob) && r.fs[dst] == fs1[blob] && blob !in r.fs)
      && (r.outcome != Moved ==> r.fs == fs1)
  {
    if !Exists(fs1, dst) && renameOk && Rename(fs1, blob, dst).Some? {
      assert blob != dst;
    }
  }

  /** The handler step by step. */
  method TmpUploadComplete(fs0: FS, cfg: Config, id: string, meta: Metadata, renameOk: bool)
    returns (outcome: Outcome, fs: FS)
    ensures TmpResult(outcome, fs) == TmpComplete(fs0, cfg, id, meta, renameOk)
  {
    fs := fs0;
    var blob := Blob(cfg, id);
    if !Truthy(meta.filename) || !Truthy(meta.relativePath) || !Truthy(meta.targetPath) {
      fs := DeleteBlob(fs, blob);
      return MissingMetadata, fs;
    }
    var decoded := DecodeURIComponent(meta.relativePath.value);
    if decoded.None? {
      fs := DeleteBlob(fs, blob);
      return DecodeFailed, fs;
    }
    var dst := TmpDestination(cfg.finalDir, meta.targetPath.value, decoded.value);
    var made := MkdirP(fs, Parent(dst));
    if made.None? {
      fs := DeleteBlob(fs, blob);
      return MkdirFailed, fs;
    }
    fs := made.value;
    if Exists(fs, dst) {
      return AlreadyExists, fs;
    }
    if !renameOk {
      return RenameFailed, fs;
    }
    var renamed := Rename(fs, blob, dst);
    if renamed.None? {
      return RenameFailed, fs;
    }
    fs := renamed.value;
    outcome := Moved;
  }

  method DeleteBlob(fs0: FS, blob: Path) returns (fs: FS)
    ensures fs == DropBlob(fs0, blob)
  {
    fs := fs0;
    var removed := Unlink(fs, blob);
    if removed.Some? {
      fs := removed.value;
    }
  }

  // ---------------------------------------------------------------- properties

  /** Without all three fields, an empty targetPath included, only the blob is removed. */
  lemma TmpRejectsMissingMetadata(fs: FS, cfg: Config, id: string, meta: Metadata, renameOk: bool)
    requires !Truthy(meta.filename) || !Truthy(meta.relativePath) || !Truthy(meta.targetPath)
    ensures var r := TmpComplete(fs, cfg, id, meta, renameOk);
      && r.outcome == MissingMetadata
      && r.fs == (if IsFile(fs, Blob(cfg, id)) then fs - {Blob(cfg, id)} else fs)
  {
  }

  /** Nothing that existed before is changed or removed, except the staging blob: an
      existing destination is never overwritten, and the sidecar is never deleted. */
  lemma TmpPreservesExisting(fs: FS, cfg: Config, id: string, meta: Metadata, renameOk: bool)
    ensures var r := TmpComplete(fs, cfg, id, meta, renameOk);
      forall p :: p in fs && p != Blob(cfg, id) ==> p in r.fs && r.fs[p] == fs[p]
  {
    var blob := Blob(cfg, id);
    if Truthy(meta.filename) && Truthy(meta.relativePath) && Truthy(meta.targetPath)
       && DecodeURIComponent(meta.relativePath.value).Some? {
      var dst := TmpDestination(cfg.finalDir, meta.targetPath.value, DecodeURIComponent(meta.relativePath.value).value);
      if MkdirP(fs, Parent(dst)).Some? {
        MoveIntoPlaceSpec(MkdirP(fs, Parent(dst)).value, blob, dst, renameOk);
      }
    }
  }

  /** A move places the blob's content at the destination, which was free, and the blob
      leaves staging; every outcome other than a move keeps the blob unless an early
      error deleted it. */
  lemma TmpMoveSpec(fs: FS, cfg: Config, id: string, meta: Metadata, renameOk: bool)
    ensures var r := TmpComplete(fs, cfg, id, meta, renameOk);
      var blob := Blob(cfg, id);
      && (r.outcome == Moved ==>
            var dst := TmpDestination(cfg.finalDir, meta.targetPath.value, DecodeURIComponent(meta.relativePath.value).value);
            && Truthy(meta.filename) && Truthy(meta.relativePath) && Truthy(meta.targetPath)
            && dst !in fs && dst in r.fs && IsFile(fs, blob) && r.fs[dst] == fs[blob] && blob !in r.fs)
      && (r.outcome in {AlreadyExists, RenameFailed} ==> blob in fs ==> blob in r.fs && r.fs[blob] == fs[blob])
  {
    var blob := Blob(cfg, id);
    if Truthy(meta.filename) && Truthy(meta.relativePath) && Truthy(meta.targetPath)
       && DecodeURIComponent(meta.relativePath.value).Some? {
      var dst := TmpDestination(cfg.finalDir, meta.targetPath.value, DecodeURIComponent(meta.relativePath.value).value);
      if MkdirP(fs, Parent(dst)).Some? {
        var fs1 := MkdirP(fs, Parent(dst)).value;
        MoveIntoPlaceSpec(fs1, blob, dst, renameOk);
        if !Exists(fs1, dst) {
          assert dst !in fs;
        }
      }
    }
  }

  // ---------------------------------------------------------------- containment

  /** No ".." among the '/'-separated segments of s. */
  predicate NoUp(s: string)
  {
    forall i :: 0 <= i < |Split(s, '/')| ==> Split(s, '/')[i] != ".."
  }

  lemma {:induction false} PushAllNNoUp(n: NPath, xs: seq<string>)
    requires n.ups == 0 && IsCanonical(n.segs)
    requires forall i :: 0 <= i < |xs| ==> xs[i] != ".." && '/' !in xs[i]
    ensures PushAllN(n, xs).ups == 0 && IsCanonical(PushAllN(n, xs).segs)
    decreases |xs|
  {
    if xs != [] {
      PushAllNNoUp(PushN(n, xs[0]), xs[1..]);
    }
  }

  lemma RenderNoUp(n: NPath)
    requires n.ups == 0 && IsCanonical(n.segs)
    ensures NoUp(Render(n))
  {
    if n.segs != [] {
      SplitJoin(n.segs, '/');
    }
    if n.absolute {
      SplitAppend("", '/', JoinWith(n.segs, '/'));
      assert "/" + JoinWith(n.segs, '/') == "" + ['/'] + JoinWith(n.segs, '/');
    } else if n.segs == [] {
      SplitNoSep(".", '/');
    } else {
      assert Ups(0) + n.segs == n.segs;
    }
  }

  lemma NormalizeNoUp(s: string)
    requires NoUp(s)
    ensures NoUp(Render(Normalize(s)))
    ensures Normalize(s).ups == 0 && IsCanonical(Normalize(s).segs)
  {
    SplitHasNoSep(s, '/');
    PushAllNNoUp(NPath(s != [] && s[0] == '/', 0, []), Split(s, '/'));
    RenderNoUp(Normalize(s));
  }

  lemma Join2NoUp(a: string, b: string)
    requires NoUp(a) && NoUp(b)
    ensures NoUp(Join2(a, b))
  {
    if a != "" && b != "" {
      assert a + "/" + b == a + ['/'] + b;
      SplitAppend(a, '/', b);
    }
    NormalizeNoUp(if a == "" then b else if b == "" then a else a + "/" + b);
  }

  lemma DirnameNoUp(s: string)
    requires NoUp(s)
    ensures NoUp(Dirname(s))
  {
    ConstantsNoUp();
    if s != [] {
      var j := SegStart(s, TrimEnd(s));
      if j >= 2 && !(s[0] == '/' && j == 2) {
        PrefixNoUp(s, j);
      }
    }
  }

  /** The constant answers of `path.dirname` hold no "..". */
  lemma ConstantsNoUp()
    ensures NoUp("/") && NoUp("//") && NoUp(".")
  {
    SplitAppend("", '/', "/");
    SplitAppend("", '/', "");
    assert "//" == "" + ['/'] + "/";
    assert "/" == "" + ['/'] + "";
    SplitNoSep(".", '/');
  }

  /** Cutting a path before one of its separators keeps it free of "..". */
  lemma PrefixNoUp(s: string, j: nat)
    requires NoUp(s) && 1 <= j <= |s| && s[j - 1] == '/'
    ensures NoUp(s[..j - 1])
  {
    var pre := s[..j - 1];
    assert s == pre + ['/'] + s[j..];
    SplitAppend(pre, '/', s[j..]);
    forall i | 0 <= i < |Split(pre, '/')|
      ensures Split(pre, '/')[i] != ".."
    {
      assert Split(pre, '/')[i] == Split(s, '/')[i];
    }
  }

  /** A sanitised segment is still a single segment, and never "..". */
  lemma SanitizedLeafNoUp(leaf: string)
    requires leaf == "" || IsSegment(leaf)
    ensures NoUp(Sanitize.SanitizeFilename(leaf))
  {
    var s := Sanitize.SanitizeFilename(leaf);
    Sanitize.SanitizedHasNoSeparator(leaf);
    Sanitize.SanitizeSpec(leaf);
    SplitNoSep(s, '/');
    assert s != ".." by {
      if |leaf| == 2 {
        assert s[0] == (if leaf[0] in Sanitize.Unsafe then '_' else leaf[0]);
        assert s[1] == (if leaf[1] in Sanitize.Unsafe then '_' else leaf[1]);
        assert leaf != [leaf[0], leaf[1]] || leaf[0] != '.' || leaf[1] != '.';
      }
    }
  }

  /** Under the explicit assumption that neither targetPath nor the decoded
      relativePath holds a ".." segment, the destination lies inside the final storage
      root. The code itself does not check this (see TmpCanEscape). */
  lemma TmpContained(finalDir: Path, target: string, rel: string)
    requires IsCanonical(finalDir)
    requires NoUp(target) && NoUp(rel)
    ensures finalDir <= TmpDestination(finalDir, target, rel)
  {
    var r := RelativeTarget(target, rel);
    Join2NoUp(target, rel);
    NormalizeNoUp(Join2(target, rel));
    var leaf := Leaf(Resolve(finalDir, r));
    assert leaf == "" || IsSegment(leaf);
    SanitizedLeafNoUp(leaf);
    DirnameNoUp(r);
    Join2NoUp(Dirname(r), Sanitize.SanitizeFilename(leaf));
    ResolveStaysBelow(finalDir, Join2(Dirname(r), Sanitize.SanitizeFilename(leaf)));
  }

  /** Without that assumption the destination can leave the root: targetPath ".." and
      relativePath "x" place the file next to the root, at /srv/x for the root
      /srv/share. */
  lemma TmpCanEscape(finalDir: Path)
    requires finalDir != []
    ensures TmpDestination(finalDir, "..", "x") == Parent(finalDir) + ["x"]
    ensures Leaf(finalDir) != "x" ==> !(finalDir <= TmpDestination(finalDir, "..", "x"))
  {
    UpX();
    assert RelativeTarget("..", "x") == "../x";
    ResolveUpX(finalDir);
    Sanitize.SanitizeKeepsSafe("x");
    DirnameUpX();
    TmpDestinationOf(finalDir, "..", "x", "../x", "x");
  }

  lemma TmpDestinationOf(finalDir: Path, target: string, rel: string, r: string, name: string)
    requires RelativeTarget(target, rel) == r
    requires Sanitize.SanitizeFilename(Leaf(Resolve(finalDir, r))) == name
    ensures TmpDestination(finalDir, target, rel) == Resolve(finalDir, Join2(Dirname(r), name))
  {
  }

  lemma ResolveUpX(p: Path)
    requires p != []
    ensures Resolve(p, "../x") == Parent(p) + ["x"]
  {
    UpX();
    assert Push(p, "..") == Parent(p);
    assert PushAll(p, ["..", "x"]) == PushAll(Parent(p), ["x"]);
  }

  /** "../x" is already normal, and it is what joining ".." and "x" gives. */
  lemma UpX()
    ensures Split("../x", '/') == ["..", "x"]
    ensures Render(Normalize("../x")) == "../x"
    ensures Join2("..", "x") == "../x"
  {
    assert "../x" == ".." + ['/'] + "x";
    SplitAppend("..", '/', "x");
    SplitNoSep("..", '/');
    SplitNoSep("x", '/');
    assert PushAllN(NPath(false, 0, []), ["..", "x"]) == NPath(false, 1, ["x"]);
    assert Ups(1) + ["x"] == ["..", "x"];
  }

  lemma DirnameUpX()
    ensures Dirname("../x") == ".."
  {
    assert TrimEnd("../x") == 4;
    assert SegStart("../x", 4) == 3;
  }
}
