/** The filename sanitiser of backend/tus-utils.js: every character that is unsafe in a
    file name on common filesystems becomes '_'. */
module Sanitize {
  import opened Text

  /** The characters the sanitiser replaces: / \ : * ? " < > | */
  const Unsafe: set<char> := {'/', '\\', ':', '*', '?', '"', '<', '>', '|'}

  function SanitizeFilename(name: string): string
  {
    if name == "" then "" else Replace(name, Unsafe, '_')
  }

  /** The result has the same length, holds no unsafe character, and differs from the
      input exactly at the unsafe characters, each of which became '_'. */
  lemma SanitizeSpec(name: string)
    ensures |SanitizeFilename(name)| == |name|
    ensures forall i :: 0 <= i < |name| ==> SanitizeFilename(name)[i] !in Unsafe
    ensures forall i :: 0 <= i < |name| ==>
      SanitizeFilename(name)[i] == (if name[i] in Unsafe then '_' else name[i])
  {
    ReplaceAt(name, Unsafe, '_');
  }

  /** In particular the result contains no path separator, so it names a single entry. */
  lemma SanitizedHasNoSeparator(name: string)
    ensures '/' !in SanitizeFilename(name) && '\\' !in SanitizeFilename(name)
  {
    SanitizeSpec(name);
  }

  /** Sanitising an already-safe name changes nothing; so sanitising twice is sanitising once. */
  lemma SanitizeIdempotent(name: string)
    ensures SanitizeFilename(SanitizeFilename(name)) == SanitizeFilename(name)
  {
    var once := SanitizeFilename(name);
    SanitizeSpec(name);
    SanitizeSpec(once);
  }

  /** A name without unsafe characters is returned unchanged. */
  lemma SanitizeKeepsSafe(name: string)
    requires forall i :: 0 <= i < |name| ==> name[i] !in Unsafe
    ensures SanitizeFilename(name) == name
  {
    SanitizeSpec(name);
  }
}
