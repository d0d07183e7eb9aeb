/** Counting occurrences in a sequence, and the size of the set of a
    duplicate-free sequence. */
module Counting {

  /** The number of positions of `s` that hold `x`. */
  function Count<T(==)>(s: seq<T>, x: T): (n: nat)
    ensures n <= |s|
  {
    if |s| == 0 then 0 else (if s[0] == x then 1 else 0) + Count(s[1..], x)
  }

  /** `x` occurs in `s` exactly when its count is positive. */
  lemma {:induction false} CountZero<T>(s: seq<T>, x: T)
    ensures Count(s, x) == 0 <==> x !in s
  {
    if |s| > 0 {
      CountZero(s[1..], x);
      assert s == [s[0]] + s[1..];
    }
  }

  /** Overwriting position `k` with `v` removes one `s[k]` and adds one `v`. */
  lemma {:induction false} CountUpdate<T>(s: seq<T>, k: int, v: T, x: T)
    requires 0 <= k < |s|
    ensures Count(s[k := v], x)
            == Count(s, x) - (if s[k] == x then 1 else 0) + (if v == x then 1 else 0)
  {
    if k == 0 {
      assert s[k := v][1..] == s[1..];
    } else {
      CountUpdate(s[1..], k - 1, v, x);
      assert s[k := v][1..] == s[1..][k - 1 := v];
    }
  }

  predicate Distinct<T(==)>(s: seq<T>) {
    forall i, j :: 0 <= i < j < |s| ==> s[i] != s[j]
  }

  /** A sequence without duplicates has as many elements as its set. */
  lemma {:induction false} DistinctCard<T>(s: seq<T>)
    requires Distinct(s)
    ensures |set x | x in s| == |s|
  {
    if |s| > 0 {
      DistinctCard(s[1..]);
      assert (set x | x in s) == {s[0]} + (set x | x in s[1..]);
      assert s[0] !in s[1..] by {
        forall i | 0 <= i < |s[1..]|
          ensures s[1..][i] != s[0]
        {
          assert s[1..][i] == s[i + 1];
        }
      }
    }
  }
}
