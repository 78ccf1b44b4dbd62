/** The three operations of Go's `strings` package the servers use. */
module Strings {
  import opened Wrappers

  /** `strings.HasPrefix(s, prefix)`: `s` begins, character by character,
      with `prefix`. */
  function HasPrefix(s: string, prefix: string): (b: bool)
    ensures b <==> |prefix| <= |s| && forall k :: 0 <= k < |prefix| ==> s[k] == prefix[k]
  {
    |prefix| <= |s| && s[..|prefix|] == prefix
  }

  /** `pat` occurs in `s` starting at position `k`. */
  predicate OccursAt(s: string, pat: string, k: nat) {
    k + |pat| <= |s| && s[k..k + |pat|] == pat
  }

  /** `strings.Index(s, pat)`: the leftmost occurrence, None standing for -1. */
  function IndexOf(s: string, pat: string): (r: Option<nat>)
    ensures r.Some? ==> OccursAt(s, pat, r.value)
    ensures r.Some? ==> forall k: nat :: k < r.value ==> !OccursAt(s, pat, k)
    ensures r.None? <==> forall k: nat :: !OccursAt(s, pat, k)
  {
    IndexFrom(s, pat, 0)
  }

  function IndexFrom(s: string, pat: string, start: nat): (r: Option<nat>)
    requires start <= |s|
    ensures r.Some? ==> start <= r.value && OccursAt(s, pat, r.value)
    ensures r.Some? ==> forall k: nat :: start <= k < r.value ==> !OccursAt(s, pat, k)
    ensures r.None? <==> forall k: nat :: start <= k ==> !OccursAt(s, pat, k)
    decreases |s| - start
  {
    if OccursAt(s, pat, start) then Some(start)
    else if start + |pat| >= |s| then None
    else IndexFrom(s, pat, start + 1)
  }

  /** `strings.Replace(s, pat, repl, 1)`: without an occurrence of `pat` the
      string is unchanged; otherwise everything before the leftmost occurrence
      is kept, `repl` stands where it was, and putting `pat` back in its place
      gives `s` again. */
  function ReplaceOnce(s: string, pat: string, repl: string): (r: string)
    ensures IndexOf(s, pat).None? ==> r == s
    ensures IndexOf(s, pat).Some? ==>
      var k := IndexOf(s, pat).value;
      k + |repl| <= |r| && r[..k] == s[..k] && r[k..k + |repl|] == repl &&
      r[..k] + pat + r[k + |repl|..] == s
  {
    match IndexOf(s, pat)
    case None => s
    case Some(k) =>
      var r := s[..k] + repl + s[k + |pat|..];
      assert r[k + |repl|..] == s[k + |pat|..];
      assert s == s[..k] + s[k..k + |pat|] + s[k + |pat|..];
      r
  }

  /** A replacement never touches a prefix in which `pat`'s first character
      does not occur. */
  lemma ReplaceOnceKeepsPrefix(s: string, prefix: string, pat: string, repl: string)
    requires HasPrefix(s, prefix) && |pat| > 0
    requires forall k :: 0 <= k < |prefix| ==> prefix[k] != pat[0]
    ensures HasPrefix(ReplaceOnce(s, pat, repl), prefix)
  {
    match IndexOf(s, pat)
    case None =>
    case Some(k) =>
      forall j: nat | j < |prefix| && j + |pat| <= |s|
        ensures !OccursAt(s, pat, j)
      {
        assert s[j..j + |pat|][0] == s[j] == prefix[j];
      }
      assert ReplaceOnce(s, pat, repl)[..k][..|prefix|] == s[..k][..|prefix|];
  }
}
