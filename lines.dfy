/** What one line-clearing pass does to the board.

    The pass walks the row indices from the bottom row up, once each. When the
    row at the current index is full it is deleted and an empty row is inserted
    at the top; the row that slides down into that index is NOT looked at again,
    since the walk moves on to the next index up. Read against the original
    rows, a full row is deleted exactly when the row directly below it was not
    deleted in the same pass: of a stack of adjacent full rows only every other
    one, starting from the lowest, goes. */
module Lines {
  import opened Shapes
  import opened Board

  /** Every cell of the row is occupied. */
  predicate Full(row: seq<int>) {
    forall k :: 0 <= k < |row| ==> row[k] != 0
  }

  /** Row j of g is deleted by one pass. */
  predicate Deleted(g: Grid, j: nat)
    decreases |g| - j
  {
    j < |g| && Full(g[j]) && !Deleted(g, j + 1)
  }

  /** The rows of g from index m down, those the pass keeps, in their order. */
  function KeptFrom(g: Grid, m: nat): (kept: seq<seq<int>>)
    decreases |g| - m
  {
    if m >= |g| then []
    else (if Deleted(g, m) then [] else [g[m]]) + KeptFrom(g, m + 1)
  }

  /** The number of rows of g from index m down that the pass deletes. */
  function CountFrom(g: Grid, m: nat): (count: nat)
    decreases |g| - m
  {
    if m >= |g| then 0
    else (if Deleted(g, m) then 1 else 0) + CountFrom(g, m + 1)
  }

  /** k empty rows. */
  function Zeros(k: nat): (z: Grid) {
    seq(k, _ => ZeroRow)
  }

  // Sequence facts used by the line-clearing proofs.

  /** One more empty row is an empty row on top. */
  lemma ZerosCons(k: nat)
    ensures Zeros(k + 1) == [ZeroRow] + Zeros(k)
  {
  }

  /** A prefix one longer ends with the next element. */
  lemma TakeSnoc<T>(s: seq<T>, n: nat)
    requires n < |s|
    ensures s[..n + 1] == s[..n] + [s[n]]
  {
  }

  /** Cutting y out of zs + (pre + [x] + [y]) + kept and putting top in front
      gives ([top] + zs) + pre + ([x] + kept). */
  lemma DeleteLayout<T>(zs: seq<T>, top: T, pre: seq<T>, x: T, y: T, kept: seq<T>, s: seq<T>, i: int)
    requires s == zs + (pre + [x] + [y]) + kept && i == |zs| + |pre| + 1
    ensures [top] + (s[..i] + s[i + 1..]) == [top] + zs + pre + ([x] + kept)
  {
    assert s[..i] == zs + pre + [x];
    assert s[i + 1..] == kept;
  }

  /** Cutting y out of zs + ([] + [y]) + kept and putting top in front gives
      ([top] + zs) + [] + kept. */
  lemma DeleteLayoutLast<T>(zs: seq<T>, top: T, y: T, kept: seq<T>, s: seq<T>, i: int)
    requires s == zs + ([] + [y]) + kept && i == |zs|
    ensures [top] + (s[..i] + s[i + 1..]) == [top] + zs + [] + kept
  {
    assert s[..i] == zs;
    assert s[i + 1..] == kept;
  }

  /** Moving an element from the end of the middle part to the front of the last. */
  lemma Regroup<T>(a: seq<T>, b: seq<T>, x: T, c: seq<T>)
    ensures a + (b + [x]) + c == a + b + ([x] + c)
  {
  }

  /** Splitting off the first element of a slice. */
  lemma SliceCons<T>(s: seq<T>, m: nat, k: nat)
    requires m < k <= |s|
    ensures s[m..k] == [s[m]] + s[m + 1..k]
  {
  }

  /** The board after one pass: as many empty rows as were deleted, then the kept
      rows in their original order. */
  function Cleared(g: Grid): (c: Grid)
    ensures |c| == |g|
    ensures forall r, k :: 0 <= r < CountFrom(g, 0) && r < |c| && 0 <= k < |c[r]| ==> c[r][k] == 0
  {
    KeptLength(g, 0);
    Zeros(CountFrom(g, 0)) + KeptFrom(g, 0)
  }

  /** The pass deletes only full rows; kept and deleted rows together are all rows. */
  lemma {:induction false} KeptLength(g: Grid, m: nat)
    requires m <= |g|
    ensures |KeptFrom(g, m)| + CountFrom(g, m) == |g| - m
    decreases |g| - m
  {
    if m < |g| {
      KeptLength(g, m + 1);
    }
  }

  /** Every kept row is a row of g at or below index m that was not deleted. */
  lemma KeptRowsAreOriginal(g: Grid, m: nat)
    ensures forall row :: row in KeptFrom(g, m) ==>
      exists j :: m <= j < |g| && g[j] == row && !Deleted(g, j)
  {
    KeptInOrder(g, m);
    forall row | row in KeptFrom(g, m)
      ensures exists j :: m <= j < |g| && g[j] == row && !Deleted(g, j)
    {
      var t :| 0 <= t < |KeptFrom(g, m)| && KeptFrom(g, m)[t] == row;
      var j := KeptIndices(g, m)[t];
      assert m <= j < |g| && g[j] == row && !Deleted(g, j);
    }
  }

  /** The indices j >= m of the rows the pass keeps, in increasing order. */
  function KeptIndices(g: Grid, m: nat): (idx: seq<nat>)
    decreases |g| - m
  {
    if m >= |g| then []
    else (if Deleted(g, m) then [] else [m]) + KeptIndices(g, m + 1)
  }

  /** The kept rows are exactly the rows of g at or below index m that the pass
      does not delete, listed in their original top-to-bottom order. */
  lemma {:induction false} KeptInOrder(g: Grid, m: nat)
    ensures |KeptIndices(g, m)| == |KeptFrom(g, m)|
    ensures forall t :: 0 <= t < |KeptIndices(g, m)| ==>
      m <= KeptIndices(g, m)[t] < |g| && !Deleted(g, KeptIndices(g, m)[t]) &&
      KeptFrom(g, m)[t] == g[KeptIndices(g, m)[t]]
    ensures forall t, u :: 0 <= t < u < |KeptIndices(g, m)| ==> KeptIndices(g, m)[t] < KeptIndices(g, m)[u]
    ensures forall j :: m <= j < |g| && !Deleted(g, j) ==> j in KeptIndices(g, m)
    decreases |g| - m
  {
    if m < |g| {
      KeptInOrder(g, m + 1);
    }
  }

  /** A pass keeps the board 20 rows of 10 cells and every cell in 0..7: each
      deleted row is replaced by an empty one at the top. */
  lemma ClearedShape(g: Grid)
    requires IsGrid(g)
    ensures IsGrid(Cleared(g))
    ensures CellsInRange(g) ==> CellsInRange(Cleared(g))
  {
    KeptLength(g, 0);
    KeptRowsAreOriginal(g, 0);
    var z := Zeros(CountFrom(g, 0));
    var c := Cleared(g);
    forall r | 0 <= r < |c|
      ensures |c[r]| == COLS
      ensures CellsInRange(g) ==> forall k :: 0 <= k < |c[r]| ==> 0 <= c[r][k] <= 7
    {
      if r >= |z| {
        assert c[r] in KeptFrom(g, 0);
      }
    }
  }

  /** Rows [m, k) of g hold no full row. */
  predicate NoFullBetween(g: Grid, m: nat, k: nat) {
    forall j :: m <= j < k && j < |g| ==> !Full(g[j])
  }

  /** Over a stretch without full rows the pass deletes nothing and keeps every row. */
  lemma {:induction false} NoFullStretch(g: Grid, m: nat, k: nat)
    requires m <= k <= |g| && NoFullBetween(g, m, k)
    ensures CountFrom(g, m) == CountFrom(g, k)
    ensures KeptFrom(g, m) == g[m..k] + KeptFrom(g, k)
    decreases k - m
  {
    if m < k {
      assert NoFullBetween(g, m + 1, k);
      NoFullStretch(g, m + 1, k);
      assert !Deleted(g, m) by { assert !Full(g[m]); }
      assert KeptFrom(g, m) == [g[m]] + KeptFrom(g, m + 1);
      SliceCons(g, m, k);
    }
  }

  /** A board without full rows is left as it is. */
  lemma NoFullRowsUnchanged(g: Grid)
    requires NoFullBetween(g, 0, |g|)
    ensures CountFrom(g, 0) == 0 && Cleared(g) == g
  {
    NoFullStretch(g, 0, |g|);
    assert KeptFrom(g, 0) == g by { assert g[0..|g|] == g; }
    assert Zeros(0) == [];
  }

  /** When no two full rows are adjacent the pass deletes exactly the full rows. */
  lemma DeletedIffFullWhenApart(g: Grid)
    requires forall j :: 0 <= j < |g| - 1 ==> !(Full(g[j]) && Full(g[j + 1]))
    ensures forall j :: 0 <= j < |g| ==> (Deleted(g, j) <==> Full(g[j]))
  {
    forall j | 0 <= j < |g|
      ensures Deleted(g, j) <==> Full(g[j])
    {
      if Full(g[j]) && j + 1 < |g| {
        assert !Full(g[j + 1]);
      }
    }
  }

  /** A full row survives a pass only when it sat directly above a deleted row. */
  lemma SurvivingFullRows(g: Grid)
    ensures forall row :: row in KeptFrom(g, 0) && Full(row) ==>
      exists j :: 0 <= j < |g| - 1 && g[j] == row && Deleted(g, j + 1)
  {
    KeptRowsAreOriginal(g, 0);
    forall row | row in KeptFrom(g, 0) && Full(row)
      ensures exists j :: 0 <= j < |g| - 1 && g[j] == row && Deleted(g, j + 1)
    {
      var j :| 0 <= j < |g| && g[j] == row && !Deleted(g, j);
      assert Deleted(g, j + 1);
    }
  }

  /** When no two full rows are adjacent, no full row is left after a pass. */
  lemma NoFullRowLeftWhenApart(g: Grid)
    requires IsGrid(g)
    requires forall j :: 0 <= j < |g| - 1 ==> !(Full(g[j]) && Full(g[j + 1]))
    ensures forall r :: 0 <= r < |Cleared(g)| ==> !Full(Cleared(g)[r])
  {
    KeptRowsAreOriginal(g, 0);
    DeletedIffFullWhenApart(g);
    assert !Full(ZeroRow) by { assert ZeroRow[0] == 0; }
    var z := Zeros(CountFrom(g, 0));
    forall r | 0 <= r < |Cleared(g)|
      ensures !Full(Cleared(g)[r])
    {
      if r >= |z| {
        var row := Cleared(g)[r];
        assert row in KeptFrom(g, 0);
        var j :| 0 <= j < |g| && g[j] == row && !Deleted(g, j);
      } else {
        assert Cleared(g)[r] == ZeroRow;
      }
    }
  }

  /** A full row: every cell holds 1. */
  const FullRow: seq<int> := seq(COLS, _ => 1)

  /** Two adjacent full rows at the bottom: one pass deletes only the lower one,
      and the upper one drops to the bottom row and stays full. */
  lemma StackedFullRowsOneCleared()
    ensures var g := Zeros(ROWS - 2) + [FullRow, FullRow];
      IsGrid(g) && Full(g[ROWS - 2]) && Full(g[ROWS - 1]) &&
      CountFrom(g, 0) == 1 && |Cleared(g)| == ROWS && Full(Cleared(g)[ROWS - 1])
  {
    var g := Zeros(ROWS - 2) + [FullRow, FullRow];
    assert Full(FullRow);
    assert !Full(ZeroRow) by { assert ZeroRow[0] == 0; }
    assert Deleted(g, ROWS - 1);
    assert !Deleted(g, ROWS - 2);
    NoFullStretch(g, 0, ROWS - 2);
    assert g[0..ROWS - 2] == Zeros(ROWS - 2);
    assert KeptFrom(g, ROWS) == [];
    assert KeptFrom(g, ROWS - 1) == [];
    assert KeptFrom(g, ROWS - 2) == [FullRow];
    assert CountFrom(g, ROWS - 1) == 1 + CountFrom(g, ROWS);
    assert CountFrom(g, ROWS - 2) == 1;
    assert Cleared(g) == Zeros(1) + Zeros(ROWS - 2) + [FullRow];
  }
}
