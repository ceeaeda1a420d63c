/**
 * Searching a sequence from its end, as `lastIndexOf` does; shared by the
 * URL splitting and the OBJ index compaction.
 */
module Sequences {
  /** `s.lastIndexOf(c)`: the last position holding c, or -1. */
  function LastIndexOf<T(==)>(s: seq<T>, c: T): (r: int)
    ensures -1 <= r < |s|
    ensures r >= 0 ==> s[r] == c
    ensures forall k | r < k < |s| :: s[k] != c
  {
    LastBefore(s, c, |s|)
  }

  /** The last position below n holding c, or -1. */
  function LastBefore<T(==)>(s: seq<T>, c: T, n: nat): (r: int)
    requires n <= |s|
    ensures -1 <= r < n
    ensures r >= 0 ==> s[r] == c
    ensures forall k | r < k < n :: s[k] != c
  {
    if n == 0 then -1 else if s[n - 1] == c then n - 1 else LastBefore(s, c, n - 1)
  }

  /** lastIndexOf finds a position exactly when the element occurs. */
  lemma LastIndexOfFinds<T>(s: seq<T>, c: T)
    ensures LastIndexOf(s, c) != -1 <==> c in s
  {
    if c in s {
      var k :| 0 <= k < |s| && s[k] == c;
      assert LastIndexOf(s, c) >= k;
    }
  }
}
