/** Splitting a sequence at a list of indices (src/ltitop/common/arrays.py,
    `split`), with Python's slice semantics. */
module Arrays {

  /** A slice bound as Python reads it: a negative index counts from the
      end, and the result is clamped into [0, n]. */
  function Clamp(i: int, n: nat): (k: nat)
    ensures k <= n
    ensures 0 <= i <= n ==> k == i
    ensures i < 0 <= i + n ==> k == n + i
    ensures i + n < 0 ==> k == 0
    ensures i > n ==> k == n
  {
    if i < 0 then (if i + n < 0 then 0 else i + n)
    else if i > n then n
    else i
  }

  /** `a[start:end]`: the elements between the two clamped bounds, empty when
      they cross. */
  function Slice<T>(a: seq<T>, start: int, end: int): (s: seq<T>)
    ensures 0 <= start <= end <= |a| ==> s == a[start..end]
    ensures |s| <= |a|
  {
    var lo, hi := Clamp(start, |a|), Clamp(end, |a|);
    if lo < hi then a[lo..hi] else []
  }

  /** The middle pieces, `a[start:end]` for each consecutive pair of
      indices. */
  function Windows<T>(a: seq<T>, indices: seq<int>): (pieces: seq<seq<T>>)
    ensures |indices| >= 1 ==> |pieces| == |indices| - 1
    decreases |indices|
  {
    if |indices| < 2 then []
    else [Slice(a, indices[0], indices[1])] + Windows(a, indices[1..])
  }

  /** `list(split(a, indices))`: the whole sequence without indices;
      otherwise the piece before the first index, one piece per consecutive
      pair, and the piece from the last index on. */
  function Split<T>(a: seq<T>, indices: seq<int>): (pieces: seq<seq<T>>)
    ensures |pieces| == |indices| + 1
    ensures |indices| == 0 ==> pieces == [a]
  {
    if |indices| == 0 then [a]
    else [Slice(a, 0, indices[0])] + Windows(a, indices) + [Slice(a, indices[|indices| - 1], |a|)]
  }

  /** The pieces one after another. */
  function Join<T>(pieces: seq<seq<T>>): seq<T>
    decreases |pieces|
  {
    if |pieces| == 0 then [] else pieces[0] + Join(pieces[1..])
  }

  /** Indices in ascending order, all within the sequence. */
  predicate SortedWithin(indices: seq<int>, n: nat) {
    (forall p :: 0 <= p < |indices| ==> 0 <= indices[p] <= n) &&
    (forall p, q :: 0 <= p < q < |indices| ==> indices[p] <= indices[q])
  }

  /** One piece more than there are indices; without indices the one piece
      is the whole sequence; the first and last pieces are the slices up to
      the first index and from the last. */
  lemma SplitShape<T>(a: seq<T>, indices: seq<int>)
    ensures |Split(a, indices)| == |indices| + 1
    ensures |indices| == 0 ==> Split(a, indices) == [a]
    ensures |indices| > 0 ==> Split(a, indices)[0] == Slice(a, 0, indices[0])
    ensures |indices| > 0 ==> Split(a, indices)[|indices|] == Slice(a, indices[|indices| - 1], |a|)
  {
  }

  /** Piece p + 1 lies between indices p and p + 1. */
  lemma {:induction false} WindowAt<T>(a: seq<T>, indices: seq<int>, p: nat)
    requires p + 1 < |indices|
    ensures Windows(a, indices)[p] == Slice(a, indices[p], indices[p + 1])
    decreases p
  {
    if p > 0 {
      WindowAt(a, indices[1..], p - 1);
    }
  }

  lemma {:induction false} JoinAppend<T>(x: seq<seq<T>>, y: seq<seq<T>>)
    ensures Join(x + y) == Join(x) + Join(y)
    decreases |x|
  {
    if |x| > 0 {
      assert (x + y)[1..] == x[1..] + y;
      JoinAppend(x[1..], y);
    } else {
      assert x + y == y;
    }
  }

  /** The middle pieces join into the slice from the first index to the
      last. */
  lemma {:induction false} JoinWindows<T>(a: seq<T>, indices: seq<int>)
    requires |indices| >= 1 && SortedWithin(indices, |a|)
    ensures Join(Windows(a, indices)) == a[indices[0]..indices[|indices| - 1]]
    decreases |indices|
  {
    if |indices| >= 2 {
      var rest := indices[1..];
      assert SortedWithin(rest, |a|);
      JoinWindows(a, rest);
      assert rest[|rest| - 1] == indices[|indices| - 1];
      var i, j, k := indices[0], indices[1], indices[|indices| - 1];
      assert j <= k;
      assert Join(Windows(a, indices)) == a[i..j] + a[j..k];
      assert a[i..j] + a[j..k] == a[i..k];
    }
  }

  lemma JoinThree<T>(x: seq<T>, mid: seq<seq<T>>, y: seq<T>)
    ensures Join([x] + mid + [y]) == x + Join(mid) + y
  {
    JoinAppend([x], mid + [y]);
    JoinAppend(mid, [y]);
    assert [x] + mid + [y] == [x] + (mid + [y]);
    assert Join([x]) == x + Join([]);
    assert Join([y]) == y + Join([]);
  }

  /** For ascending in-bounds indices, the pieces join back into the
      sequence. */
  lemma SplitJoin<T>(a: seq<T>, indices: seq<int>)
    requires SortedWithin(indices, |a|)
    ensures Join(Split(a, indices)) == a
  {
    if |indices| > 0 {
      var first, last := indices[0], indices[|indices| - 1];
      assert first <= last;
      var mid := Windows(a, indices);
      assert 0 <= first && last <= |a|;
      assert Slice(a, 0, first) == a[..first];
      assert Slice(a, last, |a|) == a[last..];
      assert Split(a, indices) == [a[..first]] + mid + [a[last..]];
      JoinThree(a[..first], mid, a[last..]);
      JoinWindows(a, indices);
      assert a[..first] + a[first..last] + a[last..] == a;
    } else {
      assert Join([a]) == a + Join([]);
    }
  }

  /** Python's slicing of an out-of-order or out-of-range index: a negative
      index counts from the end, and a crossed pair gives an empty piece. */
  lemma SplitExamples()
    ensures Split([1, 2, 3, 4, 5], [2, 4]) == [[1, 2], [3, 4], [5]]
    ensures Split([1, 2, 3, 4, 5], [-2]) == [[1, 2, 3], [4, 5]]
    ensures Split([1, 2, 3, 4, 5], [4, 2]) == [[1, 2, 3, 4], [], [3, 4, 5]]
  {
    var a := [1, 2, 3, 4, 5];
    assert Slice(a, 0, 2) == [1, 2] && Slice(a, 2, 4) == [3, 4] && Slice(a, 4, 5) == [5];
    assert Windows(a, [2, 4]) == [[3, 4]] + Windows(a, [4]);
    assert Slice(a, 0, -2) == [1, 2, 3] && Slice(a, -2, 5) == [4, 5];
    assert Slice(a, 0, 4) == [1, 2, 3, 4] && Slice(a, 4, 2) == [] && Slice(a, 2, 5) == [3, 4, 5];
    assert Windows(a, [4, 2]) == [[]] + Windows(a, [2]);
  }
}
