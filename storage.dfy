/** The filesystem the finalisation code works on, as a map from normalised absolute
    paths to entries. The root directory is implicit and always exists. The primitives
    follow Node's `fs` calls: `existsSync`, `statSync(...).size`, `mkdir` with
    `recursive: true`, `unlink`, `rename`, `copyFile`. A primitive that throws in Node
    returns None here. */
module Storage {
  import opened Wrappers
  import opened Paths

  datatype Entry = File(size: nat) | Directory

  type FS = map<Path, Entry>

  /** What `statSync(dir).size` reports for a directory (the usual block size). */
  const DIR_STAT_SIZE: nat := 4096

  /** `existsSync(p)`: true for a file and for a directory alike. */
  predicate Exists(fs: FS, p: Path)
  {
    p == [] || p in fs
  }

  predicate IsDir(fs: FS, p: Path)
  {
    p == [] || (p in fs && fs[p].Directory?)
  }

  predicate IsFile(fs: FS, p: Path)
  {
    p in fs && fs[p].File?
  }

  /** `statSync(p).size`. */
  function StatSize(fs: FS, p: Path): nat
    requires Exists(fs, p)
  {
    if p == [] || fs[p].Directory? then DIR_STAT_SIZE else fs[p].size
  }

  /** Every entry sits in a directory. */
  predicate WellFormed(fs: FS)
  {
    forall p :: p in fs ==> p != [] && IsDir(fs, Parent(p))
  }

  /** `mkdir(p, { recursive: true })`: creates p and each missing ancestor; fails when
      one of them, or p itself, is a file. An existing directory is not an error. */
  function MkdirP(fs: FS, p: Path): (r: Option<FS>)
    ensures r.Some? ==> IsDir(r.value, p) && fs.Keys <= r.value.Keys
    ensures r.Some? ==> forall q :: q in fs ==> r.value[q] == fs[q]
    ensures r.Some? ==> forall q :: q in r.value && q !in fs ==> r.value[q] == Directory && q <= p
    decreases |p|
  {
    if p == [] then Some(fs)
    else
      match MkdirP(fs, Parent(p))
      case None => None
      case Some(fs1) =>
        if p in fs1 then (if fs1[p].Directory? then Some(fs1) else None)
        else Some(fs1[p := Directory])
  }

  /** Creating directories fails exactly when a file stands on the way. */
  lemma {:induction false} MkdirPFails(fs: FS, p: Path)
    ensures MkdirP(fs, p).None? <==> exists k :: 1 <= k <= |p| && IsFile(fs, p[..k])
    decreases |p|
  {
    if p != [] {
      var q := Parent(p);
      MkdirPFails(fs, q);
      assert q == p[..|p| - 1];
      if MkdirP(fs, q).None? {
        var k :| 1 <= k <= |q| && IsFile(fs, q[..k]);
        assert p[..k] == q[..k];
      } else {
        var fs1 := MkdirP(fs, q).value;
        forall k | 1 <= k < |p|
          ensures !IsFile(fs, p[..k])
        {
          assert p[..k] == q[..k];
        }
        assert p[..|p|] == p;
        if p in fs1 && fs1[p].File? {
          assert p in fs && fs[p] == fs1[p];
          assert IsFile(fs, p[..|p|]);
        } else {
          assert !IsFile(fs, p) by {
            if p in fs {
              assert fs1[p] == fs[p];
            }
          }
        }
      }
    }
  }

  lemma {:induction false} MkdirPWellFormed(fs: FS, p: Path)
    requires WellFormed(fs)
    requires MkdirP(fs, p).Some?
    ensures WellFormed(MkdirP(fs, p).value)
    decreases |p|
  {
    if p != [] {
      MkdirPWellFormed(fs, Parent(p));
    }
  }

  /** `unlink(p)`: removes a file; fails on a directory or a missing path. */
  function Unlink(fs: FS, p: Path): (r: Option<FS>)
    ensures r.Some? <==> IsFile(fs, p)
    ensures r.Some? ==> r.value == fs - {p}
  {
    if IsFile(fs, p) then Some(fs - {p}) else None
  }

  /** A file may be written at dst: its directory exists and dst is not a directory. */
  predicate Placeable(fs: FS, dst: Path)
  {
    dst != [] && IsDir(fs, Parent(dst)) && !IsDir(fs, dst)
  }

  /** `rename(src, dst)` of a file: an existing file at dst is replaced. */
  function Rename(fs: FS, src: Path, dst: Path): (r: Option<FS>)
    ensures r.Some? <==> IsFile(fs, src) && Placeable(fs, dst)
    ensures r.Some? ==> r.value == (fs - {src})[dst := fs[src]]
  {
    if IsFile(fs, src) && Placeable(fs, dst) then Some((fs - {src})[dst := fs[src]]) else None
  }

  /** A rename moves the content of src to dst and touches nothing else: src is gone
      unless it is dst itself, renaming a file onto itself changes nothing, and the
      result keeps every entry's parent a directory. */
  lemma RenameSpec(fs: FS, src: Path, dst: Path)
    requires Rename(fs, src, dst).Some?
    ensures var r := Rename(fs, src, dst).value;
      && dst in r && r[dst] == fs[src] && r[dst].File?
      && (src != dst ==> src !in r)
      && (src == dst ==> r == fs)
      && (forall p :: p in fs && p != src && p != dst ==> p in r && r[p] == fs[p])
      && (forall p :: p in r ==> p == dst || p in fs)
      && (WellFormed(fs) ==> WellFormed(r))
  {
    var r := Rename(fs, src, dst).value;
    if src == dst {
      assert r == fs;
    }
    if WellFormed(fs) {
      PrimitivesWellFormed(fs, src, dst, CopyFailed);
    }
  }

  /** The outcome of a copy the model does not look inside (`copyFile`, `cp -a`): it
      throws, or it leaves a file of the given size at the target. */
  datatype CopyOutcome = CopyFailed | Copied(size: nat)

  /** A copy of the file at src to dst, or None when it throws. */
  function Copy(fs: FS, src: Path, dst: Path, outcome: CopyOutcome): (r: Option<FS>)
    ensures r.Some? <==> IsFile(fs, src) && Placeable(fs, dst) && outcome.Copied?
    ensures r.Some? ==> r.value == fs[dst := File(outcome.size)]
  {
    if IsFile(fs, src) && Placeable(fs, dst) && outcome.Copied? then Some(fs[dst := File(outcome.size)]) else None
  }

  /** The primitives that succeed keep every entry inside a directory. */
  lemma PrimitivesWellFormed(fs: FS, src: Path, dst: Path, outcome: CopyOutcome)
    requires WellFormed(fs)
    ensures Unlink(fs, src).Some? ==> WellFormed(Unlink(fs, src).value)
    ensures Rename(fs, src, dst).Some? ==> WellFormed(Rename(fs, src, dst).value)
    ensures Copy(fs, src, dst, outcome).Some? ==> WellFormed(Copy(fs, src, dst, outcome).value)
  {
    if Unlink(fs, src).Some? {
      RemoveFileWellFormed(fs, src);
    }
    if Rename(fs, src, dst).Some? {
      RemoveFileWellFormed(fs, src);
      PlaceFileWellFormed(fs - {src}, dst, fs[src]);
    }
    if Copy(fs, src, dst, outcome).Some? {
      PlaceFileWellFormed(fs, dst, File(outcome.size));
    }
  }

  /** Removing a file leaves every other entry's parent in place. */
  lemma RemoveFileWellFormed(fs: FS, p: Path)
    requires WellFormed(fs) && IsFile(fs, p)
    ensures WellFormed(fs - {p})
  {
    forall q | q in fs - {p}
      ensures q != [] && IsDir(fs - {p}, Parent(q))
    {
      assert IsDir(fs, Parent(q));
    }
  }

  /** Writing a file under an existing directory, where no directory stands. */
  lemma PlaceFileWellFormed(fs: FS, dst: Path, e: Entry)
    requires WellFormed(fs) && Placeable(fs, dst) && e.File?
    ensures WellFormed(fs[dst := e])
  {
  }
}
