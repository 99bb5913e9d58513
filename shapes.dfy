/** The seven tetromino shape matrices and the clockwise rotation of a matrix. */
module Shapes {

  /** A shape matrix: rows of cells, each 0 (empty) or the id of the shape that owns it. */
  type Shape = seq<seq<int>>

  /** The seven tetrominoes; every occupied cell of entry k holds the id k + 1. */
  const SHAPES: seq<Shape> := [
    [[1, 1, 1], [0, 1, 0]],
    [[2, 2], [2, 2]],
    [[3, 3, 0], [0, 3, 3]],
    [[0, 4, 4], [4, 4, 0]],
    [[5, 5, 5, 5]],
    [[6, 6, 6], [6, 0, 0]],
    [[7, 7, 7], [0, 0, 7]]
  ]

  /** s has h rows, each w cells wide. */
  predicate Rectangular(s: Shape, h: nat, w: nat) {
    |s| == h && forall r :: 0 <= r < h ==> |s[r]| == w
  }

  /** Every cell of s is either empty or holds v. */
  predicate CellsAre(s: Shape, v: int) {
    forall r, c :: 0 <= r < |s| && 0 <= c < |s[r]| ==> s[r][c] == 0 || s[r][c] == v
  }

  /** Every cell of s is empty or a shape id 1..7. */
  predicate CellsInRange(s: Shape) {
    forall r, c :: 0 <= r < |s| && 0 <= c < |s[r]| ==> 0 <= s[r][c] <= 7
  }

  /** Number of cells among the first n of a row holding v. */
  function RowCount(row: seq<int>, v: int, n: nat): (count: nat)
    requires n <= |row|
  {
    if n == 0 then 0 else RowCount(row, v, n - 1) + (if row[n - 1] == v then 1 else 0)
  }

  /** Number of cells among the first n rows of a matrix holding v. */
  function CellCount(s: Shape, v: int, n: nat): (count: nat)
    requires n <= |s|
  {
    if n == 0 then 0 else CellCount(s, v, n - 1) + RowCount(s[n - 1], v, |s[n - 1]|)
  }

  /** The table entries are one or two rows of two to four cells, and each has
      exactly four cells, all holding its own id. */
  lemma ShapeTable(k: nat)
    requires k < |SHAPES|
    ensures 1 <= |SHAPES[k]| <= 2 && 2 <= |SHAPES[k][0]| <= 4
    ensures Rectangular(SHAPES[k], |SHAPES[k]|, |SHAPES[k][0]|)
    ensures CellsAre(SHAPES[k], k + 1) && CellCount(SHAPES[k], k + 1, |SHAPES[k]|) == 4
  {
    ShapeCount(k);
    var s := SHAPES[k];
    if k == 0 {
      assert s == [[1, 1, 1], [0, 1, 0]];
    } else if k == 1 {
      assert s == [[2, 2], [2, 2]];
    } else if k == 2 {
      assert s == [[3, 3, 0], [0, 3, 3]];
    } else if k == 3 {
      assert s == [[0, 4, 4], [4, 4, 0]];
    } else if k == 4 {
      assert s == [[5, 5, 5, 5]];
    } else if k == 5 {
      assert s == [[6, 6, 6], [6, 0, 0]];
    } else {
      assert s == [[7, 7, 7], [0, 0, 7]];
    }
  }

  /** Each table entry has four cells holding its id. */
  lemma ShapeCount(k: nat)
    requires k < |SHAPES|
    ensures CellCount(SHAPES[k], k + 1, |SHAPES[k]|) == 4
  {
    var s := SHAPES[k];
    if k == 0 {
      assert RowCount(s[0], 1, 3) == 3 && RowCount(s[1], 1, 3) == 1;
    } else if k == 1 {
      assert RowCount(s[0], 2, 2) == 2 && RowCount(s[1], 2, 2) == 2;
    } else if k == 2 {
      assert RowCount(s[0], 3, 3) == 2 && RowCount(s[1], 3, 3) == 2;
    } else if k == 3 {
      assert RowCount(s[0], 4, 3) == 2 && RowCount(s[1], 4, 3) == 2;
    } else if k == 4 {
      assert RowCount(s[0], 5, 4) == 4;
    } else if k == 5 {
      assert RowCount(s[0], 6, 3) == 3 && RowCount(s[1], 6, 3) == 1;
    } else {
      assert RowCount(s[0], 7, 3) == 3 && RowCount(s[1], 7, 3) == 1;
    }
  }

  /** The length of the shortest row; zip stops at the shortest argument. */
  function MinWidth(s: Shape): (w: nat)
    requires |s| > 0
    ensures forall r :: 0 <= r < |s| ==> w <= |s[r]|
    ensures exists r :: 0 <= r < |s| && w == |s[r]|
  {
    if |s| == 1 then |s[0]|
    else
      var rest := MinWidth(s[1..]);
      assert forall r :: 1 <= r < |s| ==> s[r] == s[1..][r - 1];
      if |s[0]| <= rest then |s[0]| else rest
  }

  /** The clockwise rotation zip(*s[::-1]): row i of the result is column i of s
      read from the bottom row up. */
  function Rotate(s: Shape): (rot: Shape)
    ensures forall i :: 0 <= i < |rot| ==> |rot[i]| == |s|
    ensures forall r :: 0 <= r < |s| ==> |rot| <= |s[r]|
  {
    if |s| == 0 then []
    else
      seq(MinWidth(s), i requires 0 <= i < MinWidth(s) =>
        seq(|s|, j requires 0 <= j < |s| => s[|s| - 1 - j][i]))
  }

  /** Cell (i, j) of the rotation is cell (h - 1 - j, i) of the original, and the
      rotation has as many columns as the original has rows. */
  lemma RotateAt(s: Shape)
    ensures forall i :: 0 <= i < |Rotate(s)| ==> |Rotate(s)[i]| == |s|
    ensures forall i, j :: 0 <= i < |Rotate(s)| && 0 <= j < |s| ==>
      i < |s[|s| - 1 - j]| && Rotate(s)[i][j] == s[|s| - 1 - j][i]
  {
    if |s| > 0 {
      var w := MinWidth(s);
      var rot := Rotate(s);
      assert |rot| == w;
      forall i, j | 0 <= i < w && 0 <= j < |s|
        ensures i < |s[|s| - 1 - j]| && rot[i][j] == s[|s| - 1 - j][i]
      {
        assert w <= |s[|s| - 1 - j]|;
      }
    }
  }

  lemma {:induction false} MinWidthRectangular(s: Shape, h: nat, w: nat)
    requires Rectangular(s, h, w) && h > 0
    ensures MinWidth(s) == w
  {
  }

  /** Rotating an h-by-w matrix gives a w-by-h matrix with rot[i][j] == s[h-1-j][i]. */
  lemma RotateDims(s: Shape, h: nat, w: nat)
    requires Rectangular(s, h, w) && h > 0
    ensures Rectangular(Rotate(s), w, h)
    ensures forall i, j :: 0 <= i < w && 0 <= j < h ==> Rotate(s)[i][j] == s[h - 1 - j][i]
  {
    MinWidthRectangular(s, h, w);
    RotateAt(s);
  }

  /** Four clockwise rotations give back the original matrix, cell for cell. */
  lemma RotateFourTimes(s: Shape, h: nat, w: nat)
    requires Rectangular(s, h, w) && h > 0 && w > 0
    ensures Rotate(Rotate(Rotate(Rotate(s)))) == s
  {
    var r1 := Rotate(s);
    RotateDims(s, h, w);
    var r2 := Rotate(r1);
    RotateDims(r1, w, h);
    var r3 := Rotate(r2);
    RotateDims(r2, h, w);
    var r4 := Rotate(r3);
    RotateDims(r3, w, h);
    assert forall i, j :: 0 <= i < h && 0 <= j < w ==> r2[i][j] == s[h - 1 - i][w - 1 - j];
    forall i | 0 <= i < h
      ensures r4[i] == s[i]
    {
      assert forall j :: 0 <= j < w ==> r4[i][j] == r2[h - 1 - i][w - 1 - j];
    }
  }

  /** Rotation only moves cells: a matrix whose cells are all empty or v rotates
      to one with the same property, and likewise for the 0..7 range. */
  lemma RotateKeepsCells(s: Shape, v: int)
    ensures CellsAre(s, v) ==> CellsAre(Rotate(s), v)
    ensures CellsInRange(s) ==> CellsInRange(Rotate(s))
  {
    RotateAt(s);
  }
}
