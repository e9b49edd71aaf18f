/**
 * Text operations on path strings used by the stubs command: the
 * right-trim of '/' that normalises the project root argument.
 */
module PathText {

  /** True iff `s` is non-empty and its last character is '/'. */
  predicate EndsWithSlash(s: string) {
    |s| > 0 && s[|s| - 1] == '/'
  }

  /** True iff every character of `s` is '/'. */
  predicate AllSlashes(s: string) {
    forall i :: 0 <= i < |s| ==> s[i] == '/'
  }

  /**
   * The project root with every trailing '/' removed (PHP's `rtrim($root, '/')`).
   * The result is the longest prefix of `s` that does not end in '/', and what
   * was cut off consists of slashes only.
   */
  function TrimTrailingSlashes(s: string): (r: string)
    ensures |r| <= |s| && r == s[..|r|]
    ensures AllSlashes(s[|r|..])
    ensures !EndsWithSlash(r)
  {
    if EndsWithSlash(s) then TrimTrailingSlashes(s[..|s| - 1]) else s
  }

  /**
   * The trimmed root is the only string that both is a prefix of `s` followed
   * by slashes only and does not itself end in '/'.
   */
  lemma {:induction false} TrimTrailingSlashesUnique(s: string, t: string)
    requires |t| <= |s| && t == s[..|t|]
    requires AllSlashes(s[|t|..])
    requires !EndsWithSlash(t)
    ensures t == TrimTrailingSlashes(s)
  {
  }

  /** Trimming twice is trimming once. */
  lemma TrimTrailingSlashesIdempotent(s: string)
    ensures TrimTrailingSlashes(TrimTrailingSlashes(s)) == TrimTrailingSlashes(s)
  {
  }

  /** Any number of appended slashes is ignored. */
  lemma {:induction false} TrimIgnoresAppendedSlashes(s: string, tail: string)
    requires AllSlashes(tail)
    ensures TrimTrailingSlashes(s + tail) == TrimTrailingSlashes(s)
  {
    if tail == [] {
      assert s + tail == s;
    } else {
      var shorter := tail[..|tail| - 1];
      assert (s + tail)[|s + tail| - 1] == tail[|tail| - 1] == '/';
      assert EndsWithSlash(s + tail);
      assert (s + tail)[..|s + tail| - 1] == s + shorter;
      TrimIgnoresAppendedSlashes(s, shorter);
    }
  }
}
