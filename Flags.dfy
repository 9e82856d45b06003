/**
 * Rows of on/off flags, one per DOM element of a NodeList: the `active` class of
 * FAQ items, filter buttons and carousel dots, or the visibility of testimonials.
 */
module Flags {

  /** The number of flags that are on. */
  function Count(s: seq<bool>): (n: nat)
    ensures n <= |s|
    ensures n == 0 <==> forall j :: 0 <= j < |s| ==> !s[j]
  {
    if s == [] then 0 else (if s[0] then 1 else 0) + Count(s[1..])
  }

  /** Only position k may be on. */
  predicate OnlyAt(s: seq<bool>, k: int) {
    forall j :: 0 <= j < |s| ==> (s[j] ==> j == k)
  }

  /** Exactly position k is on. */
  predicate ExactlyAt(s: seq<bool>, k: int) {
    0 <= k < |s| && forall j :: 0 <= j < |s| ==> (s[j] <==> j == k)
  }

  lemma {:induction false} OnlyAtCount(s: seq<bool>, k: int)
    requires OnlyAt(s, k)
    ensures Count(s) <= 1
    ensures Count(s) == 1 <==> 0 <= k < |s| && s[k]
  {
    if s != [] {
      if s[0] {
        assert OnlyAt(s[1..], -1) by {
          forall j | 0 <= j < |s[1..]| ensures s[1..][j] ==> j == -1 {
            assert s[1..][j] == s[j + 1];
          }
        }
        OnlyAtCount(s[1..], -1);
      } else {
        assert OnlyAt(s[1..], k - 1) by {
          forall j | 0 <= j < |s[1..]| ensures s[1..][j] ==> j == k - 1 {
            assert s[1..][j] == s[j + 1];
          }
        }
        OnlyAtCount(s[1..], k - 1);
        if 0 < k < |s| { assert s[1..][k - 1] == s[k]; }
      }
    }
  }

  /** A row on at exactly one position has exactly one flag on. */
  lemma ExactlyAtCount(s: seq<bool>, k: int)
    requires ExactlyAt(s, k)
    ensures Count(s) == 1
  {
    OnlyAtCount(s, k);
  }

  /** A row whose flags are all on counts its whole length. */
  lemma {:induction false} CountAllOn(s: seq<bool>)
    requires forall j :: 0 <= j < |s| ==> s[j]
    ensures Count(s) == |s|
  {
    if s != [] {
      CountAllOn(s[1..]);
    }
  }
}
