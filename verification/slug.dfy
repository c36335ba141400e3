/** `clean` of the graph emitter: every character outside `[A-Za-z0-9_.-]`
    becomes `_`, so that the text can be the local name of a URI.
 */
module Slugs {

  /** The characters the pattern `[A-Za-z0-9_.-]` matches. */
  predicate IsSafeChar(c: char) {
    || 'A' <= c <= 'Z'
    || 'a' <= c <= 'z'
    || '0' <= c <= '9'
    || c == '_' || c == '.' || c == '-'
  }

  predicate AllSafe(s: string) {
    forall k | 0 <= k < |s| :: IsSafeChar(s[k])
  }

  /** `re.sub(r"[^A-Za-z0-9_.-]", "_", s)`. */
  function Slug(s: string): (r: string)
    ensures |r| == |s|
    ensures AllSafe(r)
    ensures forall k | 0 <= k < |s| :: r[k] == if IsSafeChar(s[k]) then s[k] else '_'
  {
    seq(|s|, k requires 0 <= k < |s| => if IsSafeChar(s[k]) then s[k] else '_')
  }

  /** A slug leaves a string unchanged exactly when it is already safe. */
  lemma SlugIdentityIffSafe(s: string)
    ensures Slug(s) == s <==> AllSafe(s)
  {
    if Slug(s) == s {
      assert AllSafe(Slug(s));
    }
  }

  /** Slugging is idempotent. */
  lemma SlugIdempotent(s: string)
    ensures Slug(Slug(s)) == Slug(s)
  {
    SlugIdentityIffSafe(Slug(s));
  }

  /** Unsafe characters all map to the same `_`, so different texts can share
      a slug: `"Ω"` and `"?"` both become `"_"`, as does `"_"` itself. */
  lemma SlugMerges()
    ensures Slug("\U{3A9}") == "_" && Slug("?") == "_" && Slug("_") == "_"
  {
  }
}
