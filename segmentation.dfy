// SimpleOpenNIViewer::segment: the multi-plane segmentation driver.
// Repeatedly fit a plane to the residual points, rasterise its inliers into a
// mask, find 2D lines in the mask, back-project them onto the plane, and drop
// the inliers from the residual, until two planes are found and the last
// plane is small, or no plane is found.
//
// The RANSAC plane fitter and the Canny/Hough line finder are library calls;
// they are parameters here, the fitter constrained by its contract.
module Segmentation {
  import opened Indices
  import opened Mask
  import opened Projection

  /** What one call of the plane fitter yields: the plane coefficients and
      the inlier indices (empty when no plane could be estimated). */
  datatype Fit = Fit(coefficients: Plane, inliers: seq<int>)

  /** The plane fitter restricted to a set of candidate indices of the fixed
      cloud. The first argument numbers the call: RANSAC is randomised, so two
      calls on the same candidates may answer differently. */
  type Fitter = (nat, seq<int>) -> Fit

  /** Canny edge detection followed by the probabilistic Hough transform on
      a mask of the fixed cloud's size (zero segments when Canny fails). */
  type LineFinder = seq<byte> -> seq<Segment2>

  /** The fitter's contract: inliers come in strictly ascending index order
      and are drawn from the candidates. */
  ghost predicate SoundFitter(fit: Fitter) {
    forall k: nat, candidates: seq<int> ::
      StrictlyAscending(fit(k, candidates).inliers) && IsSubsequence(fit(k, candidates).inliers, candidates)
  }

  const UInt32Modulus: int := 0x1_0000_0000
  const SizeTModulus: int := 0x1_0000_0000_0000_0000

  /** cloud->height * cloud->width, a product of two 32-bit unsigned values. */
  function CloudSize(height: nat, width: nat): nat {
    (height * width) % UInt32Modulus
  }

  /** inliers->indices.size() > size: the int bound is converted to size_t
      before the comparison. */
  function ExceedsBound(count: nat, size: int): bool {
    count > size % SizeTModulus
  }

  /** The condition of segment's while loop. */
  function KeepGoing(planes: nat, lastCount: nat, size: int): bool {
    planes < 2 || ExceedsBound(lastCount, size)
  }

  /** The number of inliers the loop condition sees before round r: none
      before the first round, those of round r - 1 afterwards. */
  ghost function LastCount(fit: Fitter, residuals: seq<seq<int>>, r: nat): nat
    requires r <= |residuals|
  {
    if r == 0 then 0 else |fit(r - 1, residuals[r - 1]).inliers|
  }

  /** What round r of the loop did: it was entered, the fitter found a plane
      on the residual of that round, the plane's 3D lines were appended as
      entry first + r, and the residual of the next round is the old one
      without the plane's inliers, exactly |inliers| shorter. */
  ghost predicate RoundDone(fit: Fitter, findLines: LineFinder, intr: Intrinsics, n: nat, size: int,
                            first: nat, planes: seq<seq<LinePos>>, residuals: seq<seq<int>>, r: nat)
    requires r + 1 < |residuals| && first + r < |planes|
  {
    var f := fit(r, residuals[r]);
    && KeepGoing(first + r, LastCount(fit, residuals, r), size)
    && |f.inliers| > 0
    && planes[first + r] == Positions(f.coefficients, intr, findLines(MaskOf(n, IntendedCells(f.inliers))))
    && residuals[r + 1] == Without(residuals[r], f.inliers)
    && |residuals[r + 1]| == |residuals[r]| - |f.inliers|
  }

  /** Appending a plane and a residual keeps what earlier rounds did. */
  lemma RoundDoneStable(fit: Fitter, findLines: LineFinder, intr: Intrinsics, n: nat, size: int,
                        first: nat, planes: seq<seq<LinePos>>, residuals: seq<seq<int>>, r: nat,
                        plane: seq<LinePos>, residual: seq<int>)
    requires r + 1 < |residuals| && first + r < |planes|
    requires RoundDone(fit, findLines, intr, n, size, first, planes, residuals, r)
    ensures RoundDone(fit, findLines, intr, n, size, first, planes + [plane], residuals + [residual], r)
  {
    assert (residuals + [residual])[..r + 1] == residuals[..r + 1];
  }

  /** The loop invariant of segment is kept by one more round. */
  lemma NextRound(fit: Fitter, findLines: LineFinder, intr: Intrinsics, n: nat, size: int,
                  first: nat, planes: seq<seq<LinePos>>, residuals: seq<seq<int>>, round: nat,
                  plane: seq<LinePos>, residual: seq<int>)
    requires |residuals| == round + 1 && |planes| == first + round
    requires forall r :: 0 <= r < round ==> RoundDone(fit, findLines, intr, n, size, first, planes, residuals, r)
    requires forall r :: 0 <= r <= round ==> StrictlyAscending(residuals[r]) && InRange(residuals[r], n)
    requires KeepGoing(first + round, LastCount(fit, residuals, round), size)
    requires |fit(round, residuals[round]).inliers| > 0
    requires plane == Positions(fit(round, residuals[round]).coefficients, intr,
                                findLines(MaskOf(n, IntendedCells(fit(round, residuals[round]).inliers))))
    requires residual == Without(residuals[round], fit(round, residuals[round]).inliers)
    requires |residual| == |residuals[round]| - |fit(round, residuals[round]).inliers|
    requires StrictlyAscending(residual) && InRange(residual, n)
    ensures forall r :: 0 <= r < round + 1 ==>
      RoundDone(fit, findLines, intr, n, size, first, planes + [plane], residuals + [residual], r)
    ensures forall r :: 0 <= r <= round + 1 ==>
      StrictlyAscending((residuals + [residual])[r]) && InRange((residuals + [residual])[r], n)
    ensures LastCount(fit, residuals + [residual], round + 1) == |fit(round, residuals[round]).inliers|
  {
    var planes', residuals' := planes + [plane], residuals + [residual];
    forall r | 0 <= r < round + 1
      ensures RoundDone(fit, findLines, intr, n, size, first, planes', residuals', r)
    {
      if r < round {
        RoundDoneStable(fit, findLines, intr, n, size, first, planes, residuals, r, plane, residual);
      } else {
        assert residuals'[r] == residuals[round] && residuals'[r + 1] == residual;
        assert LastCount(fit, residuals', r) == LastCount(fit, residuals, r);
      }
    }
    forall r | 0 <= r <= round + 1
      ensures StrictlyAscending(residuals'[r]) && InRange(residuals'[r], n)
    {
      if r <= round {
        assert residuals'[r] == residuals[r];
      }
    }
  }

  /** The lines of one plane in space: rasterise the plane's inliers into a
      zeroed mask of the cloud's size, find the 2D lines of the mask and
      back-project them onto the plane. */
  method PlaneLines(n: nat, intr: Intrinsics, f: Fit, findLines: LineFinder)
    returns (currentLinePos: seq<LinePos>)
    requires InRange(f.inliers, n)
    ensures currentLinePos == Positions(f.coefficients, intr, findLines(MaskOf(n, IntendedCells(f.inliers))))
    ensures |currentLinePos| == |findLines(MaskOf(n, IntendedCells(f.inliers)))|
  {
    var majorPlane := ZeroMask(n);
    CloudToMat(f.inliers, majorPlane);
    MarkedZeroMask(n, IntendedCells(f.inliers));
    var lines := findLines(majorPlane[..]);
    currentLinePos := LinesToPositions(f.coefficients, intr, lines, []);
  }

  /** The body of segment's loop once the fitter has found a plane with
      inliers: the plane's lines in space, and the residual with the inliers
      filtered out. */
  method ProcessPlane(n: nat, intr: Intrinsics, f: Fit, findLines: LineFinder,
                      outliers: array<int>, outN: nat)
    returns (currentLinePos: seq<LinePos>, newN: nat)
    requires outN <= outliers.Length
    requires StrictlyAscending(outliers[..outN]) && InRange(outliers[..outN], n)
    requires StrictlyAscending(f.inliers) && IsSubsequence(f.inliers, outliers[..outN])
    modifies outliers
    ensures currentLinePos == Positions(f.coefficients, intr, findLines(MaskOf(n, IntendedCells(f.inliers))))
    ensures newN <= outN
    ensures outliers[..newN] == Without(old(outliers[..outN]), f.inliers)
    ensures newN + |f.inliers| == outN
    ensures StrictlyAscending(outliers[..newN]) && InRange(outliers[..newN], n)
  {
    ghost var before := outliers[..outN];
    SubsequenceOfAscending(f.inliers, before);
    currentLinePos := PlaneLines(n, intr, f, findLines);
    FilterResidual(before, f.inliers, n);
    newN := FilterOutIndices(outliers, outN, f.inliers);
  }

  /** segment(cloud, linePositions, size). `linePositions0` is the vector
      the caller passes in; the result is that vector after the call, and
      `noPlaneError` tells whether "Could not estimate a plane" was reported.
      The ghost `residuals` lists the residual vector at the start of each
      round, the last one being the residual when the loop ended. */
  method Segment(height: nat, width: nat, size: int, intr: Intrinsics,
                 fit: Fitter, findLines: LineFinder, linePositions0: seq<seq<LinePos>>)
    returns (linePositions: seq<seq<LinePos>>, noPlaneError: bool, ghost residuals: seq<seq<int>>)
    requires SoundFitter(fit)
    ensures |linePositions0| <= |linePositions| <= |linePositions0| + CloudSize(height, width)
    ensures linePositions[..|linePositions0|] == linePositions0
    ensures |residuals| == |linePositions| - |linePositions0| + 1
    ensures residuals[0] == Iota(CloudSize(height, width))
    ensures forall r :: 0 <= r < |residuals| ==>
      StrictlyAscending(residuals[r]) && InRange(residuals[r], CloudSize(height, width))
    ensures forall r :: 0 <= r < |residuals| - 1 ==>
      RoundDone(fit, findLines, intr, CloudSize(height, width), size, |linePositions0|, linePositions, residuals, r)
    ensures var k := |residuals| - 1;
      if KeepGoing(|linePositions|, LastCount(fit, residuals, k), size)
      then fit(k, residuals[k]).inliers == [] && noPlaneError == (|linePositions| == 0)
      else !noPlaneError
  {
    var n := CloudSize(height, width);
    var outliers := new int[n];
    InitResidual(outliers);
    IotaAscending(n);
    var outN := n;
    var inliers: seq<int> := [];
    var round: nat := 0;  // calls made to the fitter so far
    linePositions := linePositions0;
    noPlaneError := false;
    residuals := [outliers[..]];
    assert outliers[..outN] == outliers[..];
    while |linePositions| < 2 || ExceedsBound(|inliers|, size)
      invariant outN <= outliers.Length == n
      invariant |residuals| == round + 1 && |linePositions| == |linePositions0| + round
      invariant residuals[round] == outliers[..outN]
      invariant residuals[0] == Iota(n)
      invariant outN + round <= n
      invariant linePositions[..|linePositions0|] == linePositions0
      invariant |inliers| == LastCount(fit, residuals, round)
      invariant forall r :: 0 <= r <= round ==> StrictlyAscending(residuals[r]) && InRange(residuals[r], n)
      invariant forall r :: 0 <= r < round ==>
        RoundDone(fit, findLines, intr, n, size, |linePositions0|, linePositions, residuals, r)
      decreases outN
    {
      var f := fit(round, outliers[..outN]);
      inliers := f.inliers;
      if |inliers| == 0 {
        noPlaneError := |linePositions| == 0;
        return;
      }
      ghost var before := outliers[..outN];
      var currentLinePos;
      currentLinePos, outN := ProcessPlane(n, intr, f, findLines, outliers, outN);
      ghost var oldPlanes, oldResiduals := linePositions, residuals;
      linePositions := linePositions + [currentLinePos];
      residuals := residuals + [outliers[..outN]];
      NextRound(fit, findLines, intr, n, size, |linePositions0|, oldPlanes, oldResiduals, round,
                currentLinePos, outliers[..outN]);
      round := round + 1;
    }
  }

  // ---------------------------------------------------------------------
  // Properties of a run

  /** The fitter cannot find inliers among no candidates: on an empty
      cloud, or once the residual is exhausted, the loop stops. */
  lemma NoCandidatesNoInliers(fit: Fitter, k: nat)
    requires SoundFitter(fit)
    ensures fit(k, []).inliers == []
  {
    SubsequenceOfAscending(fit(k, []).inliers, []);
  }

  /** An empty cloud (no rows or no columns): the fitter finds no plane on
      the first round, nothing is appended and the error is reported. */
  method SegmentEmptyCloud(height: nat, width: nat, size: int, intr: Intrinsics,
                           fit: Fitter, findLines: LineFinder)
    returns (linePositions: seq<seq<LinePos>>, noPlaneError: bool)
    requires SoundFitter(fit)
    requires height == 0 || width == 0
    ensures linePositions == []
    ensures noPlaneError
  {
    ghost var n := CloudSize(height, width);
    assert n == 0 by { assert height * width == 0; }
    ghost var residuals;
    linePositions, noPlaneError, residuals := Segment(height, width, size, intr, fit, findLines, []);
    assert residuals[0] == [];
    EmptyResidualNoRound(fit, findLines, intr, n, size, 0, linePositions, residuals);
    assert LastCount(fit, residuals, 0) == 0;
  }

  /** When the first residual is empty the fitter finds no inliers, so no
      round completes. */
  lemma EmptyResidualNoRound(fit: Fitter, findLines: LineFinder, intr: Intrinsics, n: nat,
                             size: int, first: nat, planes: seq<seq<LinePos>>, residuals: seq<seq<int>>)
    requires SoundFitter(fit)
    requires |planes| == first + |residuals| - 1
    requires residuals != [] && residuals[0] == []
    requires forall r :: 0 <= r < |residuals| - 1 ==>
      RoundDone(fit, findLines, intr, n, size, first, planes, residuals, r)
    ensures |residuals| == 1
  {
    NoCandidatesNoInliers(fit, 0);
    FirstRoundFound(fit, findLines, intr, n, size, first, planes, residuals);
    if |residuals| > 1 {
      assert false;
    }
  }

  /** A completed first round found inliers. */
  lemma FirstRoundFound(fit: Fitter, findLines: LineFinder, intr: Intrinsics, n: nat,
                        size: int, first: nat, planes: seq<seq<LinePos>>, residuals: seq<seq<int>>)
    ensures |residuals| > 1 && |planes| == first + |residuals| - 1
      && (forall r :: 0 <= r < |residuals| - 1 ==> RoundDone(fit, findLines, intr, n, size, first, planes, residuals, r))
      ==> fit(0, residuals[0]).inliers != []
  {
    if |residuals| > 1 && |planes| == first + |residuals| - 1
      && (forall r :: 0 <= r < |residuals| - 1 ==> RoundDone(fit, findLines, intr, n, size, first, planes, residuals, r)) {
      assert RoundDone(fit, findLines, intr, n, size, first, planes, residuals, 0);
    }
  }

  /** A non-negative bound is compared as is; a negative one becomes a huge
      size_t, so the loop never continues past its second plane. */
  lemma BoundConversion(count: nat, size: int)
    ensures size >= 0 && size < SizeTModulus ==> (ExceedsBound(count, size) <==> count > size)
    ensures size < 0 && count < SizeTModulus / 2 && size >= -(SizeTModulus / 2) ==> !ExceedsBound(count, size)
  {
  }

  /** Later residuals hold no index removed in an earlier round, and stay
      within the earlier residual. */
  lemma {:induction false} ResidualsNested(fit: Fitter, findLines: LineFinder, intr: Intrinsics, n: nat,
                                           size: int, first: nat, planes: seq<seq<LinePos>>,
                                           residuals: seq<seq<int>>, r1: nat, r2: nat)
    requires |planes| == first + |residuals| - 1
    requires forall r :: 0 <= r < |residuals| - 1 ==>
      RoundDone(fit, findLines, intr, n, size, first, planes, residuals, r)
    requires r1 < r2 < |residuals|
    ensures forall e :: e in residuals[r2] ==> e in residuals[r1] && e !in fit(r1, residuals[r1]).inliers
    decreases r2 - r1
  {
    assert RoundDone(fit, findLines, intr, n, size, first, planes, residuals, r1);
    WithoutMembers(residuals[r1], fit(r1, residuals[r1]).inliers);
    if r1 + 1 < r2 {
      ResidualsNested(fit, findLines, intr, n, size, first, planes, residuals, r1 + 1, r2);
    }
  }

  /** The inlier sets of different rounds are disjoint, and every inlier is
      an index of the cloud. */
  lemma InliersDisjoint(fit: Fitter, findLines: LineFinder, intr: Intrinsics, n: nat,
                        size: int, first: nat, planes: seq<seq<LinePos>>,
                        residuals: seq<seq<int>>, r1: nat, r2: nat)
    requires SoundFitter(fit)
    requires |planes| == first + |residuals| - 1
    requires residuals != [] && residuals[0] == Iota(n)
    requires forall r :: 0 <= r < |residuals| - 1 ==>
      RoundDone(fit, findLines, intr, n, size, first, planes, residuals, r)
    requires r1 < r2 < |residuals|
    ensures forall e :: e in fit(r2, residuals[r2]).inliers ==> e !in fit(r1, residuals[r1]).inliers
    ensures forall e :: e in fit(r2, residuals[r2]).inliers ==> 0 <= e < n
  {
    var inl := fit(r2, residuals[r2]).inliers;
    SubsequenceOfAscending(inl, residuals[r2]);
    ResidualsNested(fit, findLines, intr, n, size, first, planes, residuals, r1, r2);
    if 0 < r1 {
      ResidualsNested(fit, findLines, intr, n, size, first, planes, residuals, 0, r2);
    }
    forall e | e in inl ensures 0 <= e < n {
      assert e in residuals[r2];
      assert e in residuals[0];
    }
  }
}
