// The residual index vector of the plane segmentation loop ("outliers" in
// SimpleOpenNIViewer::segment) and its two operations: filling it with every
// point index of the cloud, and removing a batch of inlier indices from it in
// place (filterOutIndices).
module Indices {

  /** Strictly increasing values, hence no duplicates. */
  predicate StrictlyAscending(s: seq<int>) {
    forall i, j :: 0 <= i < j < |s| ==> s[i] < s[j]
  }

  /** Every value of s lies in [0, n): a valid index into a cloud of n points. */
  predicate InRange(s: seq<int>, n: nat) {
    forall i :: 0 <= i < |s| ==> 0 <= s[i] < n
  }

  /** x can be obtained from y by deleting elements (order kept).
      Defined from the back, like the scan of filterOutIndices. */
  predicate IsSubsequence(x: seq<int>, y: seq<int>)
    decreases |y|
  {
    if x == [] then true
    else if y == [] then false
    else (x[|x| - 1] == y[|y| - 1] && IsSubsequence(x[..|x| - 1], y[..|y| - 1]))
         || IsSubsequence(x, y[..|y| - 1])
  }

  /** The elements of s that do not occur in r, in their order in s. */
  function Without(s: seq<int>, r: seq<int>): seq<int>
    decreases |s|
  {
    if s == [] then []
    else if s[|s| - 1] in r then Without(s[..|s| - 1], r)
    else Without(s[..|s| - 1], r) + [s[|s| - 1]]
  }

  /** 0, 1, ..., n-1: the residual vector before the first plane is fitted. */
  function Iota(n: nat): (r: seq<int>)
    ensures |r| == n
  {
    seq(n, i => i)
  }

  /** The cursors of filterOutIndices once its read cursor has passed over
      all of `larger`: the values written to the front (k == |kept|) and the
      position of the remove cursor j. */
  datatype Scan = Scan(kept: seq<int>, matched: nat)

  /** One iteration of the loop of filterOutIndices on element x: an
      element equal to the next unmatched element of `remove` is skipped (and
      the remove cursor advances), every other element is kept. */
  function Step(st: Scan, x: int, remove: seq<int>): Scan {
    if st.matched < |remove| && x == remove[st.matched] then Scan(st.kept, st.matched + 1)
    else Scan(st.kept + [x], st.matched)
  }

  /** filterOutIndices as a left fold of Step over `larger`. */
  function FilterScan(larger: seq<int>, remove: seq<int>): Scan
    decreases |larger|
  {
    if larger == [] then Scan([], 0)
    else Step(FilterScan(larger[..|larger| - 1], remove), larger[|larger| - 1], remove)
  }

  /** The contents of `larger` after filterOutIndices(larger, remove). */
  function FilterOut(larger: seq<int>, remove: seq<int>): seq<int> {
    FilterScan(larger, remove).kept
  }

  /** Residual initialisation: outliers[i] = i for every i. */
  method InitResidual(outliers: array<int>)
    modifies outliers
    ensures outliers[..] == Iota(outliers.Length)
  {
    var i := 0;
    while i < outliers.Length
      invariant 0 <= i <= outliers.Length
      invariant forall t :: 0 <= t < i ==> outliers[t] == t
    {
      outliers[i] := i;
      i := i + 1;
    }
  }

  /** filterOutIndices on a vector of logical size `size` stored in `larger`:
      overwrites the front of the vector with the elements kept and returns the
      new size k (the vector's resize(k)). No precondition: on any input the
      write cursor stays behind the read cursor and the cells past the old size
      are untouched. */
  method FilterOutIndices(larger: array<int>, size: nat, remove: seq<int>) returns (k: nat)
    requires size <= larger.Length
    modifies larger
    ensures k <= size
    ensures larger[..k] == FilterOut(old(larger[..size]), remove)
    ensures larger[size..] == old(larger[size..])
  {
    ghost var orig := larger[..size];
    var j: nat := 0;
    k := 0;
    var i := 0;
    while i < size
      invariant 0 <= k <= i <= size
      invariant forall t :: i <= t < size ==> larger[t] == orig[t]
      invariant larger[size..] == old(larger[size..])
      invariant FilterScan(orig[..i], remove) == Scan(larger[..k], j)
    {
      FilterScanPrefix(orig, remove, i);
      if j < |remove| && larger[i] == remove[j] {
        j := j + 1;
      } else {
        ghost var kept := larger[..k];
        larger[k] := larger[i];
        assert larger[..k + 1] == kept + [orig[i]];
        k := k + 1;
      }
      i := i + 1;
    }
    assert orig[..size] == orig;
  }

  /** The scan of one more element of a prefix is one more Step. */
  lemma FilterScanPrefix(larger: seq<int>, remove: seq<int>, i: nat)
    requires i < |larger|
    ensures FilterScan(larger[..i + 1], remove) == Step(FilterScan(larger[..i], remove), larger[i], remove)
  {
    assert larger[..i + 1][..i] == larger[..i];
  }

  // ---------------------------------------------------------------------
  // Properties of the scan

  /** A subsequence of the front of y is a subsequence of y, and stays one
      when y's last element is appended to it. */
  lemma SubsequenceSnoc(x: seq<int>, y: seq<int>)
    requires y != [] && IsSubsequence(x, y[..|y| - 1])
    ensures IsSubsequence(x, y)
    ensures IsSubsequence(x + [y[|y| - 1]], y)
  {
    var x' := x + [y[|y| - 1]];
    assert x'[..|x'| - 1] == x;
  }

  /** Without any precondition: the remove cursor stays within `remove` and
      every element of `larger` is either kept or matched. */
  lemma {:induction false} FilterScanBounds(larger: seq<int>, remove: seq<int>)
    ensures FilterScan(larger, remove).matched <= |remove|
    ensures |FilterScan(larger, remove).kept| + FilterScan(larger, remove).matched == |larger|
    decreases |larger|
  {
    if larger != [] {
      FilterScanBounds(larger[..|larger| - 1], remove);
    }
  }

  /** Without any precondition: the kept elements form a subsequence of
      `larger`. */
  lemma {:induction false} FilterScanKept(larger: seq<int>, remove: seq<int>)
    ensures IsSubsequence(FilterScan(larger, remove).kept, larger)
    decreases |larger|
  {
    if larger != [] {
      var front := larger[..|larger| - 1];
      var st := FilterScan(front, remove);
      FilterScanKept(front, remove);
      SubsequenceSnoc(st.kept, larger);
    }
  }

  /** Without any precondition: the matched elements of `remove` form a
      subsequence of `larger`. */
  lemma {:induction false} FilterScanMatched(larger: seq<int>, remove: seq<int>)
    ensures FilterScan(larger, remove).matched <= |remove|
    ensures IsSubsequence(remove[..FilterScan(larger, remove).matched], larger)
    decreases |larger|
  {
    if larger != [] {
      var front := larger[..|larger| - 1];
      var x := larger[|larger| - 1];
      var st := FilterScan(front, remove);
      FilterScanMatched(front, remove);
      SubsequenceSnoc(remove[..st.matched], larger);
      if st.matched < |remove| && x == remove[st.matched] {
        assert remove[..st.matched + 1] == remove[..st.matched] + [x];
      }
    }
  }

  /** The new size never exceeds the old one, and the result is a
      subsequence of the original vector. */
  lemma FilterOutShrinks(larger: seq<int>, remove: seq<int>)
    ensures |FilterOut(larger, remove)| <= |larger|
    ensures IsSubsequence(FilterOut(larger, remove), larger)
  {
    FilterScanBounds(larger, remove);
    FilterScanKept(larger, remove);
  }

  /** Removing nothing leaves the vector unchanged. */
  lemma {:induction false} FilterOutNothing(larger: seq<int>)
    ensures FilterScan(larger, []) == Scan(larger, 0)
    decreases |larger|
  {
    if larger != [] {
      FilterOutNothing(larger[..|larger| - 1]);
      KeepLast(larger);
    }
  }

  /** With nothing to remove, scanning one more element keeps it. */
  lemma KeepLast(larger: seq<int>)
    requires larger != []
    requires FilterScan(larger[..|larger| - 1], []) == Scan(larger[..|larger| - 1], 0)
    ensures FilterScan(larger, []) == Scan(larger, 0)
  {
    assert larger[..|larger| - 1] + [larger[|larger| - 1]] == larger;
  }

  /** Elements of a subsequence come from the sequence, and a subsequence of
      a strictly ascending sequence is strictly ascending. */
  lemma {:induction false} SubsequenceOfAscending(x: seq<int>, y: seq<int>)
    requires IsSubsequence(x, y)
    ensures forall i :: 0 <= i < |x| ==> x[i] in y
    ensures |x| <= |y|
    ensures StrictlyAscending(y) ==> StrictlyAscending(x)
    decreases |y|
  {
    if x != [] {
      var y' := y[..|y| - 1];
      if x[|x| - 1] == y[|y| - 1] && IsSubsequence(x[..|x| - 1], y') {
        var x' := x[..|x| - 1];
        SubsequenceOfAscending(x', y');
        forall i | 0 <= i < |x| ensures x[i] in y {
          if i < |x'| {
            assert x[i] == x'[i];
            assert x'[i] in y';
          } else {
            assert x[i] == y[|y| - 1];
          }
        }
        if StrictlyAscending(y) {
          assert StrictlyAscending(y');
          forall i, j | 0 <= i < j < |x| ensures x[i] < x[j] {
            if j < |x| - 1 {
              assert x[i] == x'[i] && x[j] == x'[j];
            } else {
              assert x[i] == x'[i] && x'[i] in y';
              var p :| 0 <= p < |y'| && y'[p] == x[i];
              assert y[p] < y[|y| - 1];
            }
          }
        }
      } else {
        SubsequenceOfAscending(x, y');
        forall i | 0 <= i < |x| ensures x[i] in y {
          assert x[i] in y';
          var p :| 0 <= p < |y'| && y'[p] == x[i];
          assert y[p] == x[i];
        }
      }
    }
  }

  /** Without depends on r only through which elements of s occur in r. */
  lemma {:induction false} WithoutCongruent(s: seq<int>, r1: seq<int>, r2: seq<int>)
    requires forall i :: 0 <= i < |s| ==> (s[i] in r1 <==> s[i] in r2)
    ensures Without(s, r1) == Without(s, r2)
    decreases |s|
  {
    if s != [] {
      var s' := s[..|s| - 1];
      assert forall i :: 0 <= i < |s'| ==> s'[i] == s[i];
      WithoutCongruent(s', r1, r2);
    }
  }

  /** The last element of a strictly ascending sequence exceeds all others. */
  lemma AscendingLast(s: seq<int>)
    requires StrictlyAscending(s) && s != []
    ensures StrictlyAscending(s[..|s| - 1])
    ensures forall i :: 0 <= i < |s| - 1 ==> s[i] < s[|s| - 1]
    ensures forall e :: e in s ==> e <= s[|s| - 1]
  {
  }

  /** One step of FilterScanSorted: how the first m elements of `remove`
      split around the last element x of `larger`. At most the m-th of them
      equals x (`hit`); the ones before it lie in the front of `larger`. */
  lemma SortedStep(larger: seq<int>, remove: seq<int>, m: nat, hit: bool, m': nat)
    requires StrictlyAscending(larger) && StrictlyAscending(remove)
    requires larger != [] && m <= |remove|
    requires forall t :: 0 <= t < m ==> remove[t] in larger
    requires m < |remove| ==> remove[m] > larger[|larger| - 1]
    requires hit == (m > 0 && remove[m - 1] == larger[|larger| - 1])
    requires m' == if hit then m - 1 else m
    ensures forall t :: 0 <= t < m' ==> remove[t] < larger[|larger| - 1]
    ensures forall t :: 0 <= t < m' ==> remove[t] in larger[..|larger| - 1]
    ensures m' < |remove| ==> remove[m'] >= larger[|larger| - 1]
  {
    var front := larger[..|larger| - 1];
    var x := larger[|larger| - 1];
    AscendingLast(larger);
    forall t | 0 <= t < m' ensures remove[t] < x {
      assert remove[t] in larger;
      if !hit {
        assert remove[m - 1] in larger;
        assert remove[t] <= remove[m - 1];
      }
    }
    forall t | 0 <= t < m' ensures remove[t] in front {
      assert remove[t] in larger;
      var p :| 0 <= p < |larger| && larger[p] == remove[t];
      assert front[p] == remove[t];
    }
  }

  /** When the first m' elements of `remove` are below x and the m-th (if
      m == m' + 1) equals x, the elements of `front` (all below x) meet
      remove[..m] exactly where they meet remove[..m']. */
  lemma PrefixAgree(front: seq<int>, x: int, remove: seq<int>, m: nat, m': nat)
    requires m' <= m <= |remove| && m <= m' + 1
    requires m == m' + 1 ==> remove[m'] == x
    requires forall i :: 0 <= i < |front| ==> front[i] < x
    ensures forall i :: 0 <= i < |front| ==> (front[i] in remove[..m] <==> front[i] in remove[..m'])
  {
    forall i | 0 <= i < |front| ensures front[i] in remove[..m] <==> front[i] in remove[..m'] {
      if m == m' + 1 {
        assert remove[..m] == remove[..m'] + [x];
      } else {
        assert remove[..m] == remove[..m'];
      }
    }
  }

  /** Nothing can be matched against an empty vector. */
  lemma MatchedComeFromLarger(larger: seq<int>, remove: seq<int>, m: nat)
    ensures 0 < m <= |remove| && (forall t :: 0 <= t < m ==> remove[t] in larger) ==> larger != []
  {
    if 0 < m <= |remove| && (forall t :: 0 <= t < m ==> remove[t] in larger) {
      assert remove[0] in larger;
    }
  }

  /** The invariant behind the sorted theorem: when the first m elements of
      a strictly ascending `remove` all occur in the strictly ascending
      `larger`, and the rest are past its last element, the scan matches
      exactly those m and keeps everything else. */
  lemma {:induction false} FilterScanSorted(larger: seq<int>, remove: seq<int>, m: nat)
    requires StrictlyAscending(larger) && StrictlyAscending(remove)
    requires m <= |remove|
    requires forall t :: 0 <= t < m ==> remove[t] in larger
    requires m < |remove| && larger != [] ==> remove[m] > larger[|larger| - 1]
    ensures FilterScan(larger, remove) == Scan(Without(larger, remove[..m]), m)
    ensures |Without(larger, remove[..m])| == |larger| - m
    decreases |larger|
  {
    if larger == [] {
      MatchedComeFromLarger(larger, remove, m);
    } else {
      var front := larger[..|larger| - 1];
      var x := larger[|larger| - 1];
      var hit := m > 0 && remove[m - 1] == x;
      var m' := if hit then m - 1 else m;
      AscendingLast(larger);
      SortedStep(larger, remove, m, hit, m');
      if m' < |remove| && front != [] {
        assert x > front[|front| - 1];
      }
      FilterScanSorted(front, remove, m');
      PrefixAgree(front, x, remove, m, m');
      WithoutCongruent(front, remove[..m], remove[..m']);
      if hit {
        assert remove[..m][m - 1] == x;
      } else {
        assert x !in remove[..m];
      }
    }
  }

  /** filterOutIndices' correctness: if `larger` is strictly ascending and
      `remove` is a subsequence of it, the result is `larger` with exactly the
      elements of `remove` dropped, order kept, every element of `remove` is
      matched, and the new size is |larger| - |remove|. */
  lemma FilterOutSorted(larger: seq<int>, remove: seq<int>)
    requires StrictlyAscending(larger)
    requires IsSubsequence(remove, larger)
    ensures FilterOut(larger, remove) == Without(larger, remove)
    ensures FilterScan(larger, remove).matched == |remove|
    ensures |FilterOut(larger, remove)| == |larger| - |remove|
  {
    SubsequenceOfAscending(remove, larger);
    assert remove[..|remove|] == remove;
    FilterScanSorted(larger, remove, |remove|);
  }

  /** Without the drawn-from assumption the loop is no set difference:
      both inputs are strictly ascending, but 2 is not in [1, 3], so the
      remove cursor stops there and 3 is kept. */
  lemma FilterOutNeedsSubset()
    ensures StrictlyAscending([1, 3]) && StrictlyAscending([2, 3])
    ensures FilterOut([1, 3], [2, 3]) == [1, 3]
    ensures Without([1, 3], [2, 3]) == [1]
  {
    assert [1, 3][..1] == [1];
    assert [1][..0] == [];
    assert FilterScan([1], [2, 3]) == Scan([1], 0);
    assert FilterScan([1, 3], [2, 3]) == Scan([1, 3], 0);
    assert Without([1], [2, 3]) == [1];
  }

  /** The residual after one round: removing the inliers of a plane, drawn
      in order from a strictly ascending residual of point indices, leaves
      the set difference, exactly |inliers| shorter, still ascending and
      still made of point indices. */
  lemma FilterResidual(residual: seq<int>, inliers: seq<int>, n: nat)
    requires StrictlyAscending(residual) && InRange(residual, n)
    requires IsSubsequence(inliers, residual)
    ensures FilterOut(residual, inliers) == Without(residual, inliers)
    ensures |FilterOut(residual, inliers)| == |residual| - |inliers|
    ensures StrictlyAscending(FilterOut(residual, inliers)) && InRange(FilterOut(residual, inliers), n)
  {
    FilterOutSorted(residual, inliers);
    FilterOutShrinks(residual, inliers);
    SubsequenceOfAscending(FilterOut(residual, inliers), residual);
  }

  /** Membership in Without: in s and not in r. */
  lemma {:induction false} WithoutMembers(s: seq<int>, r: seq<int>)
    ensures forall e :: e in Without(s, r) <==> e in s && e !in r
    decreases |s|
  {
    if s != [] {
      var front := s[..|s| - 1];
      WithoutMembers(front, r);
      assert s == front + [s[|s| - 1]];
    }
  }

  /** Before the loop the residual vector is strictly ascending and holds
      valid indices only: the sortedness filterOutIndices needs. */
  lemma IotaAscending(n: nat)
    ensures StrictlyAscending(Iota(n)) && InRange(Iota(n), n)
  {
  }
}
