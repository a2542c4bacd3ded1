// The binary mask of one plane (cloudToMat and the zeroed cv::Mat that
// segment allocates for it): one byte per point of the cloud, 255 where the
// point is an inlier of the plane and 0 elsewhere.
module Mask {
  import opened Indices

  /** One element of a CV_8UC1 matrix. */
  newtype byte = x: int | 0 <= x < 256

  /** The flat offset that mat.at<uint8_t>(row, col) addresses in a
      continuous single-channel 8-bit matrix with `cols` columns. */
  function AtOffset(row: int, col: int, cols: nat): int {
    row * cols + col
  }

  /** The cell cloudToMat writes for a point index, as the code is written:
      at(index, 1) on the (height*width) x 1 mask, one past the point's cell. */
  function WrittenCell(index: int): (c: int)
    ensures c == index + 1
  {
    AtOffset(index, 1, 1)
  }

  /** The intended cell of a point index: at(index, 0), the point's own cell. */
  function IntendedCell(index: int): (c: int)
    ensures c == index
  {
    AtOffset(index, 0, 1)
  }

  function WrittenCells(validPoints: seq<int>): (cells: seq<int>)
    ensures |cells| == |validPoints|
  {
    seq(|validPoints|, i requires 0 <= i < |validPoints| => WrittenCell(validPoints[i]))
  }

  function IntendedCells(validPoints: seq<int>): (cells: seq<int>)
    ensures |cells| == |validPoints|
  {
    seq(|validPoints|, i requires 0 <= i < |validPoints| => IntendedCell(validPoints[i]))
  }

  /** A mask of n cells that is 255 exactly on `cells` and 0 elsewhere. */
  function MaskOf(n: nat, cells: seq<int>): (mask: seq<byte>)
    ensures |mask| == n
  {
    seq(n, c => if c in cells then 255 else 0)
  }

  /** `mask` with 255 stored in every listed cell. */
  function Marked(mask: seq<byte>, cells: seq<int>): (r: seq<byte>)
    ensures |r| == |mask|
  {
    seq(|mask|, c requires 0 <= c < |mask| => if c in cells then 255 else mask[c])
  }

  /** The cells of a mask that are on the plane. */
  function OnCells(mask: seq<byte>): set<int> {
    set c | 0 <= c < |mask| && mask[c] == 255
  }

  /** cv::Mat::zeros(height * width, 1, CV_8UC1). */
  method ZeroMask(n: nat) returns (mat: array<byte>)
    ensures fresh(mat)
    ensures mat[..] == MaskOf(n, [])
  {
    mat := new byte[n](_ => 0);
  }

  /** cloudToMat with the intended index-to-cell mapping: stores 255 in the
      cell of every listed point and touches no other cell. */
  method CloudToMat(validPoints: seq<int>, mat: array<byte>)
    requires forall i :: 0 <= i < |validPoints| ==> 0 <= IntendedCell(validPoints[i]) < mat.Length
    modifies mat
    ensures mat[..] == Marked(old(mat[..]), IntendedCells(validPoints))
  {
    ghost var cells := IntendedCells(validPoints);
    for i := 0 to |validPoints|
      invariant forall c :: 0 <= c < mat.Length ==>
        mat[c] == if c in cells[..i] then 255 else old(mat[c])
    {
      mat[IntendedCell(validPoints[i])] := 255;
      assert cells[..i + 1] == cells[..i] + [cells[i]];
    }
    assert cells[..|validPoints|] == cells;
  }

  /** cloudToMat exactly as written: each index is stored at at(index, 1),
      so the write is in bounds only while index + 1 < mat.Length. */
  method CloudToMatAsWritten(validPoints: seq<int>, mat: array<byte>)
    requires forall i :: 0 <= i < |validPoints| ==> 0 <= WrittenCell(validPoints[i]) < mat.Length
    modifies mat
    ensures mat[..] == Marked(old(mat[..]), WrittenCells(validPoints))
  {
    ghost var cells := WrittenCells(validPoints);
    for i := 0 to |validPoints|
      invariant forall c :: 0 <= c < mat.Length ==>
        mat[c] == if c in cells[..i] then 255 else old(mat[c])
    {
      mat[WrittenCell(validPoints[i])] := 255;
      assert cells[..i + 1] == cells[..i] + [cells[i]];
    }
    assert cells[..|validPoints|] == cells;
  }

  // ---------------------------------------------------------------------
  // Properties of the mask

  /** Reading back the cells that are on: rasterising a list of valid point
      indices with the intended mapping and collecting the cells set to 255
      gives exactly the listed indices; every cell holds 0 or 255. */
  lemma MaskReadBack(n: nat, validPoints: seq<int>)
    requires InRange(validPoints, n)
    ensures OnCells(MaskOf(n, IntendedCells(validPoints))) == set i | 0 <= i < |validPoints| :: validPoints[i]
    ensures forall c :: 0 <= c < n ==> MaskOf(n, IntendedCells(validPoints))[c] in {0, 255}
  {
    var mask := MaskOf(n, IntendedCells(validPoints));
    var listed := set i | 0 <= i < |validPoints| :: validPoints[i];
    forall c | c in OnCells(mask) ensures c in listed {
      var i :| 0 <= i < |validPoints| && IntendedCells(validPoints)[i] == c;
      assert validPoints[i] == c;
    }
    forall c | c in listed ensures c in OnCells(mask) {
      var i :| 0 <= i < |validPoints| && validPoints[i] == c;
      assert IntendedCells(validPoints)[i] == c;
    }
  }

  /** Marking cells of the zeroed mask yields the mask of those cells. */
  lemma MarkedZeroMask(n: nat, cells: seq<int>)
    ensures Marked(MaskOf(n, []), cells) == MaskOf(n, cells)
  {
  }

  /** An empty index list leaves the zeroed mask all zero. */
  lemma EmptyMaskIsZero(n: nat)
    ensures OnCells(MaskOf(n, IntendedCells([]))) == {}
    ensures forall c :: 0 <= c < n ==> MaskOf(n, IntendedCells([]))[c] == 0
  {
  }

  /** The two mappings differ by one cell for every index: the intended
      cell of a point of an n-point cloud is inside the mask, and the written
      one is inside exactly when the point is not the last. */
  lemma CellMappings(n: nat, index: int)
    ensures WrittenCell(index) == IntendedCell(index) + 1
    ensures 0 <= index < n ==> 0 <= IntendedCell(index) < n
    ensures 0 <= index < n ==> (WrittenCell(index) < n <==> index < n - 1)
  {
  }

  /** As written, the last point of the cloud is stored one past the end of
      the mask: whenever index n - 1 is an inlier the write is out of bounds. */
  lemma AsWrittenLastIndexOutOfBounds(n: nat)
    requires n > 0
    ensures WrittenCell(n - 1) == n
  {
  }

  /** As written, every mark lands one cell late: marking point 0 of a
      two-point cloud leaves cell 0 off and turns cell 1 on, whereas the
      intended mask has cell 0 on and cell 1 off. */
  lemma AsWrittenShiftsMarks()
    ensures MaskOf(2, WrittenCells([0])) == [0, 255]
    ensures MaskOf(2, IntendedCells([0])) == [255, 0]
  {
    assert WrittenCells([0]) == [1];
    assert IntendedCells([0]) == [0];
  }
}
