/**
 Order and counting facts about the one-dimensional sequences the Euler
 sampler works with: time grids (`seq<real>`), index vectors (`seq<nat>`)
 and keep-masks (`seq<bool>`).
 */
module Sequences {

  /** Every element is strictly smaller than every later one. */
  predicate StrictlyIncreasing(s: seq<real>) {
    forall i, j :: 0 <= i < j < |s| ==> s[i] < s[j]
  }

  /** The order a left `searchsorted` needs of the sequence it searches. */
  predicate NonDecreasing(s: seq<real>) {
    forall i, j :: 0 <= i < j < |s| ==> s[i] <= s[j]
  }

  /** No value occurs twice. */
  predicate Distinct(s: seq<real>) {
    forall i, j :: 0 <= i < j < |s| ==> s[i] != s[j]
  }

  /** Strictly increasing positions. */
  predicate IncreasingIndices(s: seq<nat>) {
    forall i, j :: 0 <= i < j < |s| ==> s[i] < s[j]
  }

  /** Number of `true` entries of a mask. */
  function CountTrue(m: seq<bool>): nat
  {
    if |m| == 0 then 0
    else CountTrue(m[..|m| - 1]) + (if m[|m| - 1] then 1 else 0)
  }

  /** Number of entries of `s` strictly below `v`. */
  function NumBelow(s: seq<nat>, v: int): nat
  {
    if |s| == 0 then 0
    else (if s[0] < v then 1 else 0) + NumBelow(s[1..], v)
  }

  /** Sum of a sequence of reals. */
  function Sum(s: seq<real>): real
  {
    if |s| == 0 then 0.0 else Sum(s[..|s| - 1]) + s[|s| - 1]
  }

  /** A strictly increasing sequence is determined by its set of elements:
      this is what makes "sort the distinct values" a well-defined result. */
  lemma {:induction false} SortedByElements(a: seq<real>, b: seq<real>)
    requires StrictlyIncreasing(a) && StrictlyIncreasing(b)
    requires forall x :: x in a <==> x in b
    ensures a == b
    decreases |a|
  {
    assert |a| > 0 ==> a[0] in a && a[0] in b;
    assert |b| > 0 ==> b[0] in b && b[0] in a;
    if |a| == 0 || |b| == 0 {
    } else {
      assert a[0] == b[0] by {
        assert a[0] in a && b[0] in b;
      }
      forall x
        ensures x in a[1..] <==> x in b[1..]
      {
        if x in a[1..] {
          var i :| 1 <= i < |a| && a[i] == x;
          assert x in a && x in b;
          var j :| 0 <= j < |b| && b[j] == x;
          assert j != 0;
          assert b[1..][j - 1] == x;
        }
        if x in b[1..] {
          var i :| 1 <= i < |b| && b[i] == x;
          assert x in b && x in a;
          var j :| 0 <= j < |a| && a[j] == x;
          assert j != 0;
          assert a[1..][j - 1] == x;
        }
      }
      SortedByElements(a[1..], b[1..]);
      assert a == [a[0]] + a[1..];
      assert b == [b[0]] + b[1..];
    }
  }

  /** Counting the `true`s of a longer prefix never gives fewer. */
  lemma {:induction false} CountTrueMonotone(m: seq<bool>, a: nat, b: nat)
    requires a <= b <= |m|
    ensures CountTrue(m[..a]) <= CountTrue(m[..b])
    decreases b - a
  {
    if a < b {
      CountTrueMonotone(m, a, b - 1);
      assert m[..b][..b - 1] == m[..b - 1];
    }
  }

  /** No prefix has more `true`s than the whole mask. */
  lemma CountTrueAtMostTotal(m: seq<bool>, j: nat)
    requires j <= |m|
    ensures CountTrue(m[..j]) <= CountTrue(m)
  {
    CountTrueMonotone(m, j, |m|);
    assert m[..|m|] == m;
  }

  /** A kept position has fewer kept positions before it than the mask
      has in all. */
  lemma CountTrueBelowTotal(m: seq<bool>, j: nat)
    requires j < |m| && m[j]
    ensures CountTrue(m[..j]) < CountTrue(m)
  {
    CountTrueStep(m, j);
    CountTrueAtMostTotal(m, j + 1);
  }

  /** One more prefix element adds one exactly when it is `true`. */
  lemma CountTrueStep(m: seq<bool>, j: nat)
    requires j < |m|
    ensures CountTrue(m[..j + 1]) == CountTrue(m[..j]) + (if m[j] then 1 else 0)
  {
    assert m[..j + 1][..j] == m[..j];
  }

  /** Two kept positions of a mask have different numbers of kept positions
      before them: counting the kept positions before `j` is injective on
      the kept positions. */
  lemma CountTrueSeparates(m: seq<bool>, j1: nat, j2: nat)
    requires j1 < j2 < |m| && m[j1]
    ensures CountTrue(m[..j1]) < CountTrue(m[..j2])
  {
    CountTrueStep(m, j1);
    CountTrueMonotone(m, j1 + 1, j2);
  }

  /** If exactly the first `k` entries lie below `v`, `NumBelow` counts `k`. */
  lemma {:induction false} NumBelowSplit(s: seq<nat>, k: nat, v: int)
    requires k <= |s|
    requires forall i :: 0 <= i < k ==> s[i] < v
    requires forall i :: k <= i < |s| ==> v <= s[i]
    ensures NumBelow(s, v) == k
    decreases |s|
  {
    if |s| > 0 {
      if k == 0 {
        NumBelowSplit(s[1..], 0, v);
      } else {
        NumBelowSplit(s[1..], k - 1, v);
      }
    }
  }

  /** Raising the bound by one picks up `v` exactly when it occurs. */
  lemma {:induction false} NumBelowStep(s: seq<nat>, v: int)
    requires IncreasingIndices(s)
    ensures NumBelow(s, v + 1) == NumBelow(s, v) + (if v in s then 1 else 0)
    decreases |s|
  {
    if |s| > 0 {
      NumBelowStep(s[1..], v);
      if s[0] == v {
        assert v !in s[1..];
      }
      assert v in s <==> s[0] == v || v in s[1..];
    }
  }

  /** Adding up consecutive differences gives back the distance travelled. */
  lemma {:induction false} SumTelescopes(g: seq<real>, d: seq<real>, n: nat)
    requires |d| + 1 == |g| && n <= |d|
    requires forall i :: 0 <= i < |d| ==> d[i] == g[i + 1] - g[i]
    ensures g[0] + Sum(d[..n]) == g[n]
    decreases n
  {
    if n > 0 {
      SumTelescopes(g, d, n - 1);
      assert d[..n][..n - 1] == d[..n - 1];
    }
  }
}
