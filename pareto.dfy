/** The Pareto filter of the genetic-programming solver
    (src/ltitop/solvers/gp.py, `argnondominated`): the indices of the
    candidates that no other candidate matches or beats on every objective,
    as found by one pass over the pairs. */
module Pareto {

  /** One row of scores per objective, one column per candidate, so every
      row has the same length. */
  predicate Rectangular(scores: seq<seq<real>>) {
    forall k :: 0 <= k < |scores| ==> |scores[k]| == |scores[0]|
  }

  /** The number of candidates (none when there are no objectives). */
  function Count(scores: seq<seq<real>>): nat {
    if |scores| == 0 then 0 else |scores[0]|
  }

  /** `all(scores[i] >= scores[j])`: candidate i does at least as well as
      candidate j on every objective. */
  predicate Covers(scores: seq<seq<real>>, i: nat, j: nat)
    requires Rectangular(scores) && i < Count(scores) && j < Count(scores)
  {
    forall k :: 0 <= k < |scores| ==> scores[k][i] >= scores[k][j]
  }

  /** Neither of two candidates covers the other. */
  predicate Incomparable(scores: seq<seq<real>>, i: nat, j: nat)
    requires Rectangular(scores) && i < Count(scores) && j < Count(scores)
  {
    !Covers(scores, i, j) && !Covers(scores, j, i)
  }

  /** Some other candidate covers candidate k. */
  predicate Covered(scores: seq<seq<real>>, k: nat)
    requires Rectangular(scores) && k < Count(scores)
  {
    exists m :: 0 <= m < Count(scores) && m != k && Covers(scores, m, k)
  }

  /** Why the scan excludes k: another candidate covers it and either comes
      earlier or is strictly better on some objective. */
  predicate Beaten(scores: seq<seq<real>>, k: nat)
    requires Rectangular(scores) && k < Count(scores)
  {
    exists c :: 0 <= c < Count(scores) && c != k && Covers(scores, c, k) && (c < k || !Covers(scores, k, c))
  }

  /** The sum of the first r scores of candidate c. */
  function ColumnSum(scores: seq<seq<real>>, c: nat, r: nat): real
    requires Rectangular(scores) && c < Count(scores) && r <= |scores|
  {
    if r == 0 then 0.0 else ColumnSum(scores, c, r - 1) + scores[r - 1][c]
  }

  /** A strict total order on the candidates: a larger sum of scores first,
      the smaller index first among equal sums. */
  predicate Above(scores: seq<seq<real>>, y: nat, x: nat)
    requires Rectangular(scores) && y < Count(scores) && x < Count(scores)
  {
    var sy, sx := ColumnSum(scores, y, |scores|), ColumnSum(scores, x, |scores|);
    sy > sx || (sy == sx && y < x)
  }

  /** 0, 1, ..., n - 1. */
  function Range(n: nat): (s: seq<nat>)
    ensures |s| == n && forall p :: 0 <= p < n ==> s[p] == p
  {
    seq(n, p => p)
  }

  /** Each candidate i not yet excluded is compared with every later j: j is
      excluded when i covers it; otherwise i is excluded, and its scan ends,
      when j covers it. The survivors come out in ascending order; any two of
      them are incomparable, and a candidate is dropped only when another
      covers it, so when no candidate covers another all are kept. */
  method ArgNondominated(scores: seq<seq<real>>) returns (kept: seq<nat>)
    requires Rectangular(scores)
    ensures forall p, q :: 0 <= p < q < |kept| ==> kept[p] < kept[q]
    ensures forall p :: 0 <= p < |kept| ==> kept[p] < Count(scores)
    ensures forall k :: 0 <= k < Count(scores) && k !in kept ==> Covered(scores, k)
    ensures forall d :: 0 <= d < Count(scores) && d !in kept ==>
      exists p :: 0 <= p < |kept| && Covers(scores, kept[p], d)
    ensures Count(scores) > 0 ==> |kept| > 0
    ensures forall p, q :: 0 <= p < q < |kept| ==> Incomparable(scores, kept[p], kept[q])
    ensures (forall k :: 0 <= k < Count(scores) ==> !Covered(scores, k)) ==> kept == Range(Count(scores))
  {
    var n := Count(scores);
    var dominated: seq<nat> := [];
    var i := 0;
    while i + 1 < n
      invariant i <= n
      invariant forall d :: d in dominated ==> d < n && Covered(scores, d)
      invariant forall d :: d in dominated ==> Beaten(scores, d)
      invariant forall a, b :: 0 <= a < i && a < b < n && a !in dominated ==> b in dominated || Incomparable(scores, a, b)
    {
      if i in dominated {
        i := i + 1;
        continue;
      }
      dominated := Scan(scores, i, dominated);
      i := i + 1;
    }
    kept := Unexcluded(n, dominated);
    forall d | 0 <= d < n && d !in kept
      ensures exists p :: 0 <= p < |kept| && Covers(scores, kept[p], d)
    {
      var c := Top(scores, d, n);
      TopUnbeaten(scores, d);
      assert c in kept;
    }
    if n > 0 {
      assert 0 in kept || exists p :: 0 <= p < |kept| && Covers(scores, kept[p], 0);
    }
    if forall x :: 0 <= x < n ==> !Covered(scores, x) {
      IncreasingCover(kept, n);
    }
  }

  /** The inner loop for candidate i: every later j that i covers is
      excluded, until a j that covers i excludes i and ends the scan. What
      was excluded stays excluded, everything excluded is covered by another
      candidate, and unless i itself was excluded every later candidate is
      excluded or incomparable with i. */
  method Scan(scores: seq<seq<real>>, i: nat, dominated: seq<nat>) returns (result: seq<nat>)
    requires Rectangular(scores) && i < Count(scores) && i !in dominated
    requires forall d :: d in dominated ==> d < Count(scores) && Covered(scores, d)
    ensures forall d :: d in dominated ==> d in result
    ensures forall d :: d in result ==> d < Count(scores) && Covered(scores, d)
    ensures forall d :: d in result && d !in dominated ==> Beaten(scores, d)
    ensures i in result || forall b :: i < b < Count(scores) ==> b in result || Incomparable(scores, i, b)
  {
    var n := Count(scores);
    result := dominated;
    var j := i + 1;
    while j < n
      invariant i + 1 <= j <= n
      invariant i !in result
      invariant forall d :: d in dominated ==> d in result
      invariant forall d :: d in result ==> d < n && Covered(scores, d)
      invariant forall d :: d in result && d !in dominated ==> Beaten(scores, d)
      invariant forall b :: i < b < j ==> b in result || Incomparable(scores, i, b)
    {
      if Covers(scores, i, j) {
        result := result + [j];
      } else if Covers(scores, j, i) {
        result := result + [i];
        return;
      }
      j := j + 1;
    }
  }

  /** `[k for k in range(n) if k not in dominated]`. */
  method Unexcluded(n: nat, dominated: seq<nat>) returns (kept: seq<nat>)
    ensures forall p, q :: 0 <= p < q < |kept| ==> kept[p] < kept[q]
    ensures forall p :: 0 <= p < |kept| ==> kept[p] < n && kept[p] !in dominated
    ensures forall x :: 0 <= x < n && x !in dominated ==> x in kept
  {
    kept := [];
    var k := 0;
    while k < n
      invariant k <= n
      invariant forall p, q :: 0 <= p < q < |kept| ==> kept[p] < kept[q]
      invariant forall p :: 0 <= p < |kept| ==> kept[p] < k && kept[p] !in dominated
      invariant forall x :: 0 <= x < k && x !in dominated ==> x in kept
    {
      if k !in dominated {
        kept := kept + [k];
      }
      k := k + 1;
    }
  }

  /** An ascending sequence of indices below n that holds every one of them
      is 0, 1, ..., n - 1. */
  lemma {:induction false} IncreasingCover(s: seq<nat>, n: nat)
    requires forall p, q :: 0 <= p < q < |s| ==> s[p] < s[q]
    requires forall p :: 0 <= p < |s| ==> s[p] < n
    requires forall k :: 0 <= k < n ==> k in s
    ensures s == Range(n)
  {
    if n > 0 {
      var top, last := n - 1, |s| - 1;
      assert top in s;
      var p :| 0 <= p < |s| && s[p] == top;
      assert s[last] >= s[p];
      assert s[last] == top;
      var init := s[..last];
      assert forall k :: 0 <= k < top ==> k in init by {
        forall k | 0 <= k < top
          ensures k in init
        {
          assert k in s;
          var q :| 0 <= q < |s| && s[q] == k;
          assert s[q] == init[q];
        }
      }
      assert forall q :: 0 <= q < |init| ==> init[q] < top by {
        forall q | 0 <= q < |init|
          ensures init[q] < top
        {
          assert s[q] < s[last];
        }
      }
      IncreasingCover(init, top);
      assert s == init + [top];
    }
  }

  /** Scores at least as high row by row sum to at least as much, to more
      when one row is higher, and to the same when every row is equal. */
  lemma {:induction false} ColumnSumMonotone(scores: seq<seq<real>>, b: nat, c: nat, r: nat)
    requires Rectangular(scores) && b < Count(scores) && c < Count(scores) && r <= |scores|
    requires forall k :: 0 <= k < r ==> scores[k][b] >= scores[k][c]
    ensures ColumnSum(scores, b, r) >= ColumnSum(scores, c, r)
    ensures (exists k :: 0 <= k < r && scores[k][b] > scores[k][c]) ==> ColumnSum(scores, b, r) > ColumnSum(scores, c, r)
    ensures (forall k :: 0 <= k < r ==> scores[k][b] == scores[k][c]) ==> ColumnSum(scores, b, r) == ColumnSum(scores, c, r)
  {
    if r > 0 {
      ColumnSumMonotone(scores, b, c, r - 1);
    }
  }

  /** A candidate that beats another in the scan's sense is above it. */
  lemma BeatsIsAbove(scores: seq<seq<real>>, c: nat, k: nat)
    requires Rectangular(scores) && c < Count(scores) && k < Count(scores)
    requires c != k && Covers(scores, c, k) && (c < k || !Covers(scores, k, c))
    ensures Above(scores, c, k)
  {
    ColumnSumMonotone(scores, c, k, |scores|);
    if Covers(scores, k, c) {
      ColumnSumMonotone(scores, k, c, |scores|);
    }
  }

  /** Among the candidates below r that cover d, and d itself, the one
      highest in the order `Above`. */
  function Top(scores: seq<seq<real>>, d: nat, r: nat): (c: nat)
    requires Rectangular(scores) && d < Count(scores) && r <= Count(scores)
    ensures c < Count(scores) && Covers(scores, c, d)
    ensures forall y :: 0 <= y < r && Covers(scores, y, d) ==> !Above(scores, y, c)
  {
    if r == 0 then d
    else
      var c := Top(scores, d, r - 1);
      if Covers(scores, r - 1, d) && Above(scores, r - 1, c) then r - 1 else c
  }

  /** Nothing beats the top candidate covering d: whatever covered it would
      cover d too and be above it. */
  lemma TopUnbeaten(scores: seq<seq<real>>, d: nat)
    requires Rectangular(scores) && d < Count(scores)
    ensures !Beaten(scores, Top(scores, d, Count(scores)))
  {
    var c := Top(scores, d, Count(scores));
    if Beaten(scores, c) {
      var b :| 0 <= b < Count(scores) && b != c && Covers(scores, b, c) && (b < c || !Covers(scores, c, b));
      BeatsIsAbove(scores, b, c);
      assert false;
    }
  }
}
