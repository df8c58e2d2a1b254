/** Node's POSIX `path` functions as the finalisation code uses them.

    A filesystem location is a `Path`: the segments of a normalised absolute path
    ("/srv/share/a" is ["srv", "share", "a"]). `Resolve(p, s)` is `path.join(P, s)` for
    the absolute path P whose segments are p: the string s is split at '/', empty and
    "." segments are dropped, ".." removes the last segment (never going above the
    root), every other segment is appended. `Dirname`, `Basename` and `Extname` follow
    Node's string algorithms. `Normalize`/`Render` give `path.normalize` for strings
    that may be relative (leading ".." segments are then kept). Node's habit of
    keeping one trailing '/' is not represented: every consumer here (a filesystem
    lookup, `dirname`, `basename`) treats "a/" and "a" alike. */
module Paths {
  import opened Text

  type Path = seq<string>

  /** A segment of a normalised path. */
  predicate IsSegment(s: string)
  {
    s != "" && s != "." && s != ".." && '/' !in s
  }

  predicate IsCanonical(p: Path)
  {
    forall i :: 0 <= i < |p| ==> IsSegment(p[i])
  }

  predicate NoSlash(segs: seq<string>)
  {
    forall i :: 0 <= i < |segs| ==> '/' !in segs[i]
  }

  /** One normalisation step on an absolute path. */
  function Push(p: Path, seg: string): (r: Path)
    ensures IsCanonical(p) && '/' !in seg ==> IsCanonical(r)
  {
    if seg == "" || seg == "." then p
    else if seg == ".." then (if p == [] then [] else p[..|p| - 1])
    else p + [seg]
  }

  function PushAll(p: Path, segs: seq<string>): (r: Path)
    ensures IsCanonical(p) && NoSlash(segs) ==> IsCanonical(r)
    decreases |segs|
  {
    if segs == [] then p else PushAll(Push(p, segs[0]), segs[1..])
  }

  /** `path.join(P, s)` where P is the absolute path with segments p. */
  function Resolve(p: Path, s: string): (r: Path)
    ensures IsCanonical(p) ==> IsCanonical(r)
  {
    SplitHasNoSep(s, '/');
    PushAll(p, Split(s, '/'))
  }

  lemma {:induction false} PushAllAppend(p: Path, xs: seq<string>, ys: seq<string>)
    ensures PushAll(p, xs + ys) == PushAll(PushAll(p, xs), ys)
    decreases |xs|
  {
    if xs != [] {
      assert (xs + ys)[1..] == xs[1..] + ys;
      PushAllAppend(Push(p, xs[0]), xs[1..], ys);
    } else {
      assert xs + ys == ys;
    }
  }

  /** Joining "a/b" is joining "a" and then "b". */
  lemma ResolveAppend(p: Path, a: string, b: string)
    ensures Resolve(p, a + "/" + b) == Resolve(Resolve(p, a), b)
  {
    SplitAppend(a, '/', b);
    PushAllAppend(p, Split(a, '/'), Split(b, '/'));
  }

  predicate AllSlashes(t: string)
  {
    forall i :: 0 <= i < |t| ==> t[i] == '/'
  }

  /** A run of separators joins to nothing. */
  lemma {:induction false} ResolveSlashes(p: Path, t: string)
    requires AllSlashes(t)
    ensures Resolve(p, t) == p
  {
    if t != [] {
      assert Split(t, '/') == [""] + Split(t[1..], '/');
      assert PushAll(p, Split(t, '/')) == PushAll(p, Split(t[1..], '/'));
      ResolveSlashes(p, t[1..]);
    } else {
      assert PushAll(p, [""]) == PushAll(p, []);
    }
  }

  /** Separators after the last segment change nothing. */
  lemma TrailingSlashes(p: Path, x: string, t: string)
    requires AllSlashes(t)
    ensures Resolve(p, x + t) == Resolve(p, x)
  {
    if t != [] {
      assert t == "/" + t[1..];
      assert x + t == x + "/" + t[1..];
      ResolveAppend(p, x, t[1..]);
      ResolveSlashes(Resolve(p, x), t[1..]);
    } else {
      assert x + t == x;
    }
  }

  /** Joining segments that contain no ".." never leaves the starting directory. */
  lemma {:induction false} PushAllStaysBelow(p: Path, q: Path, segs: seq<string>)
    requires p <= q
    requires forall i :: 0 <= i < |segs| ==> segs[i] != ".."
    ensures p <= PushAll(q, segs)
    decreases |segs|
  {
    if segs != [] {
      PushAllStaysBelow(p, Push(q, segs[0]), segs[1..]);
    }
  }

  /** Containment holds only when the joined string has no ".." segment. */
  lemma ResolveStaysBelow(p: Path, s: string)
    requires forall i :: 0 <= i < |Split(s, '/')| ==> Split(s, '/')[i] != ".."
    ensures p <= Resolve(p, s)
  {
    PushAllStaysBelow(p, p, Split(s, '/'));
  }

  /** ...and a ".." segment can leave it: `path.join(P, "../etc")` is the sibling "etc"
      of P, so `path.join("/srv/share", "../etc")` is "/srv/etc". */
  lemma ResolveCanEscape(p: Path)
    requires p != []
    ensures Resolve(p, "../etc") == p[..|p| - 1] + ["etc"]
    ensures p[|p| - 1] != "etc" ==> !(p <= Resolve(p, "../etc"))
  {
    SplitUpEtc();
    assert PushAll(p, ["..", "etc"]) == PushAll(p[..|p| - 1], ["etc"]);
  }

  lemma SplitUpEtc()
    ensures Split("../etc", '/') == ["..", "etc"]
  {
    SplitNoSep("etc", '/');
    SplitNoSep("..", '/');
    SplitAppend("..", '/', "etc");
    assert "../etc" == ".." + ['/'] + "etc";
  }

  // ---------------------------------------------------------------- basename/dirname

  /** Length of s once its trailing '/' characters are removed. */
  function TrimEnd(s: string): (e: nat)
    ensures e <= |s|
    ensures forall i :: e <= i < |s| ==> s[i] == '/'
    ensures e > 0 ==> s[e - 1] != '/'
  {
    if s == [] || s[|s| - 1] != '/' then |s| else TrimEnd(s[..|s| - 1])
  }

  /** Start of the last segment ending at e: just after the last '/' before e, or 0. */
  function SegStart(s: string, e: nat): (j: nat)
    requires e <= |s|
    ensures j <= e
    ensures j > 0 ==> s[j - 1] == '/'
    ensures forall i :: j <= i < e ==> s[i] != '/'
  {
    if e == 0 || s[e - 1] == '/' then e else SegStart(s, e - 1)
  }

  /** `path.basename(s)`: the last segment, trailing separators ignored. */
  function Basename(s: string): string
  {
    var e := TrimEnd(s);
    s[SegStart(s, e)..e]
  }

  /** `path.dirname(s)`: everything before the separator that precedes the last
      segment; "." when there is none, "/" for a rooted path, "//" when that
      separator is the second of two leading ones. */
  function Dirname(s: string): string
  {
    if s == [] then "."
    else
      var j := SegStart(s, TrimEnd(s));
      if j >= 2 then (if s[0] == '/' && j == 2 then "//" else s[..j - 1])
      else if s[0] == '/' then "/" else "."
  }

  /** A string without '/' is its own basename and has dirname ".". */
  lemma BasenameNoSlash(s: string)
    requires s != [] && '/' !in s
    ensures Basename(s) == s && Dirname(s) == "."
  {
    assert s[|s| - 1] != '/';
    var j := SegStart(s, |s|);
    assert forall i :: 0 <= i < |s| ==> s[i] != '/';
  }

  /** The basename of "d/f" is f and its dirname d, for segments d and f. */
  lemma BasenameDirnameJoin(d: string, f: string)
    requires IsSegment(d) && IsSegment(f)
    ensures Basename(d + "/" + f) == f && Dirname(d + "/" + f) == d
  {
    var s := d + "/" + f;
    assert TrimEnd(s) == |s| by { assert s[|s| - 1] == f[|f| - 1]; }
    var j := SegStart(s, |s|);
    assert s[|d|] == '/';
    assert forall i :: |d| < i < |s| ==> s[i] == f[i - |d| - 1] && s[i] != '/';
    assert j == |d| + 1;
    assert s[..j - 1] == d;
    assert s[j..] == f;
    assert s[0] == d[0];
  }

  lemma ResolveTrivial(p: Path)
    ensures Resolve(p, "") == p && Resolve(p, ".") == p
    ensures Resolve(p, "/") == p && Resolve(p, "//") == p
  {
    SplitNoSep(".", '/');
    ResolveSlashes(p, "/");
    ResolveSlashes(p, "//");
  }

  /** The string before the last segment joins to the same place as `dirname`. */
  lemma DirnameHead(p: Path, s: string)
    requires s != []
    ensures var j := SegStart(s, TrimEnd(s));
      Resolve(p, Dirname(s)) == (if j == 0 then p else Resolve(p, s[..j - 1]))
  {
    ResolveTrivial(p);
    var j := SegStart(s, TrimEnd(s));
    if j == 2 && s[0] == '/' {
      assert s[..j - 1] == "/";
    }
  }

  /** s cut around the separator before its last segment (index j - 1) and after the
      segment (index e). */
  lemma CutAround(s: string, j: nat, e: nat)
    requires 1 <= j <= e <= |s| && s[j - 1] == '/'
    ensures s == s[..j - 1] + "/" + (s[j..e] + s[e..])
  {
    assert s == s[..j - 1] + s[j - 1..j] + s[j..e] + s[e..];
  }

  /** Splitting a path into `dirname` and `basename` and joining the two again
      reaches the same place as joining the whole path. */
  lemma DirnameBasenameRejoin(p: Path, s: string)
    ensures Resolve(Resolve(p, Dirname(s)), Basename(s)) == Resolve(p, s)
  {
    if s == [] {
      ResolveTrivial(p);
    } else {
      var e := TrimEnd(s);
      var j := SegStart(s, e);
      var b, t := s[j..e], s[e..];
      DirnameHead(p, s);
      if j >= 1 {
        var h := s[..j - 1];
        CutAround(s, j, e);
        ResolveAppend(p, h, b + t);
        TrailingSlashes(Resolve(p, h), b, t);
      } else {
        assert s == b + t;
        TrailingSlashes(p, b, t);
      }
    }
  }

  // ---------------------------------------------------------------- extname

  /** Index of the last '.' of name, or -1. */
  function LastDot(name: string): (k: int)
    ensures -1 <= k < |name|
    ensures k >= 0 ==> name[k] == '.'
    ensures forall i :: k < i < |name| ==> name[i] != '.'
  {
    if name == [] then -1
    else if name[|name| - 1] == '.' then |name| - 1
    else LastDot(name[..|name| - 1])
  }

  /** `path.extname` of a path whose last segment is name: from its last '.' on,
      unless that '.' is the segment's first character or the segment is "..". */
  function Extname(name: string): (x: string)
    ensures |x| <= |name| && x == name[|name| - |x|..]
  {
    var k := LastDot(name);
    if k <= 0 || name == ".." then "" else name[k..]
  }

  /** `path.basename(P, path.extname(P))` for a path P whose last segment is name. */
  function Stem(name: string): string
  {
    name[..|name| - |Extname(name)|]
  }

  lemma StemExt(name: string)
    ensures Stem(name) + Extname(name) == name
  {
    var k := LastDot(name);
    if !(k <= 0 || name == "..") {
      assert |name| - |Extname(name)| == k;
    }
  }

  /** The last '.' of a + b is in b when b has one, and otherwise the last one of a. */
  lemma {:induction false} LastDotAppend(a: string, b: string)
    ensures LastDot(a + b) == if LastDot(b) >= 0 then |a| + LastDot(b) else LastDot(a)
    decreases |b|
  {
    if b == [] {
      assert a + b == a;
    } else {
      var b' := b[..|b| - 1];
      assert (a + b)[..|a + b| - 1] == a + b';
      LastDotAppend(a, b');
    }
  }

  /** Joining a single segment appends it. */
  lemma ResolveSegment(p: Path, s: string)
    requires IsSegment(s)
    ensures Resolve(p, s) == p + [s]
  {
    SplitNoSep(s, '/');
    assert PushAll(p, [s]) == PushAll(p + [s], []);
  }

  /** Last segment of a path (`path.basename`), "" for the root. */
  function Leaf(p: Path): string
  {
    if p == [] then "" else p[|p| - 1]
  }

  /** Parent of a path (`path.dirname`); the root is its own parent. */
  function Parent(p: Path): Path
  {
    if p == [] then [] else p[..|p| - 1]
  }

  // ---------------------------------------------------------------- relative normalisation

  /** A normalised path that may be relative: whether it is rooted, how many ".."
      it starts with (always 0 when rooted), and its segments. */
  datatype NPath = NPath(absolute: bool, ups: nat, segs: Path)

  function PushN(n: NPath, seg: string): NPath
  {
    if seg == "" || seg == "." then n
    else if seg == ".." then
      (if n.segs != [] then n.(segs := n.segs[..|n.segs| - 1])
       else if n.absolute then n
       else n.(ups := n.ups + 1))
    else n.(segs := n.segs + [seg])
  }

  function PushAllN(n: NPath, segs: seq<string>): NPath
    decreases |segs|
  {
    if segs == [] then n else PushAllN(PushN(n, segs[0]), segs[1..])
  }

  /** `path.normalize(s)`. */
  function Normalize(s: string): NPath
  {
    PushAllN(NPath(s != [] && s[0] == '/', 0, []), Split(s, '/'))
  }

  function Ups(k: nat): seq<string>
  {
    if k == 0 then [] else [".."] + Ups(k - 1)
  }

  /** The string `path.normalize` returns: "/" for the root, "." for an empty relative path. */
  function Render(n: NPath): string
  {
    if n.absolute then "/" + JoinWith(n.segs, '/')
    else if n.ups == 0 && n.segs == [] then "."
    else JoinWith(Ups(n.ups) + n.segs, '/')
  }

  /** `path.join(a, b)` for strings that may be relative: empty arguments are skipped,
      the others joined with '/', and the result normalised. */
  function Join2(a: string, b: string): string
  {
    Render(Normalize(if a == "" then b else if b == "" then a else a + "/" + b))
  }
}
