/** rotate(matrix, dir): quarter turns of a square piece matrix. */
module Rotation {
  import opened Grids
  import opened Pieces

  /**
   * The quarter turn rotate(m, dir) produces: clockwise when dir > 0
   * (cell (i, j) takes m[n-1-j][i]), counter-clockwise otherwise
   * (cell (i, j) takes m[j][n-1-i]).
   */
  function Rotated(m: Grid, dir: int): (r: Grid)
    requires IsSquare(m)
    ensures IsSquare(r) && |r| == |m|
  {
    seq(|m|, i requires 0 <= i < |m| => RotatedRow(m, dir, i))
  }

  /** Row i of the quarter turn: column i read bottom-up (dir > 0) or column n-1-i read top-down. */
  function RotatedRow(m: Grid, dir: int, i: int): (row: seq<int>)
    requires IsSquare(m) && 0 <= i < |m|
    ensures |row| == |m|
  {
    var n := |m|;
    seq(n, j requires 0 <= j < n => if dir > 0 then m[n - 1 - j][i] else m[j][n - 1 - i])
  }

  /** The transpose of an h-by-w grid: column c becomes row c. */
  function Transpose(g: Grid, w: nat): (t: Grid)
    requires IsRect(g, |g|, w)
    ensures IsRect(t, w, |g|)
  {
    seq(w, c requires 0 <= c < w => seq(|g|, r requires 0 <= r < |g| => g[r][c]))
  }

  /**
   * rotate(matrix, dir) as the source runs it: swap each cell below the
   * diagonal with its mirror, then reverse every row (dir > 0) or the order
   * of the rows (otherwise).
   */
  method Rotate(m: Grid, dir: int) returns (r: Grid)
    requires IsSquare(m)
    ensures r == Rotated(m, dir)
  {
    var n := |m|;
    r := m;
    for y := 0 to n
      invariant IsRect(r, n, n)
      invariant forall i, j {:trigger r[i][j]} :: 0 <= i < n && 0 <= j < n ==>
        r[i][j] == if i < y && j < y then m[j][i] else m[i][j]
    {
      for x := 0 to y
        invariant IsRect(r, n, n)
        invariant forall i, j {:trigger r[i][j]} :: 0 <= i < n && 0 <= j < n ==>
          r[i][j] == if (i < y && j < y) || (i == y && j < x) || (j == y && i < x) then m[j][i] else m[i][j]
      {
        var t := r[x][y];
        r := r[x := r[x][y := r[y][x]]];
        r := r[y := r[y][x := t]];
      }
      assert forall i, j {:trigger r[i][j]} :: 0 <= i < n && 0 <= j < n ==>
        r[i][j] == if i < y + 1 && j < y + 1 then m[j][i] else m[i][j];
    }
    if dir > 0 {
      for y := 0 to n
        invariant IsRect(r, n, n)
        invariant forall i, j {:trigger r[i][j]} :: 0 <= i < n && 0 <= j < n ==>
          r[i][j] == if i < y then m[n - 1 - j][i] else m[j][i]
      {
        ghost var before := r;
        r := r[y := Reverse(r[y])];
        assert forall j :: 0 <= j < n ==> r[y][j] == before[y][n - 1 - j];
      }
    } else {
      r := Reverse(r);
    }
    assert forall i :: 0 <= i < n ==> r[i] == Rotated(m, dir)[i];
  }

  /** rotate(m, -dir) undoes rotate(m, dir) for every non-zero dir. */
  lemma RotateUndo(m: Grid, dir: int)
    requires IsSquare(m) && dir != 0
    ensures Rotated(Rotated(m, dir), -dir) == m
  {
    var n := |m|;
    var back := Rotated(Rotated(m, dir), -dir);
    forall i | 0 <= i < n
      ensures back[i] == m[i]
    {
      assert forall j :: 0 <= j < n ==> back[i][j] == m[i][j];
    }
  }

  /** The half turn: two quarter turns in the same direction. */
  function HalfTurn(m: Grid): (h: Grid)
    requires IsSquare(m)
    ensures IsSquare(h) && |h| == |m|
  {
    var n := |m|;
    seq(n, i requires 0 <= i < n => seq(n, j requires 0 <= j < n => m[n - 1 - i][n - 1 - j]))
  }

  lemma RotateTwice(m: Grid, dir: int)
    requires IsSquare(m)
    ensures Rotated(Rotated(m, dir), dir) == HalfTurn(m)
  {
    var n := |m|;
    var two := Rotated(Rotated(m, dir), dir);
    forall i | 0 <= i < n
      ensures two[i] == HalfTurn(m)[i]
    {
      assert forall j :: 0 <= j < n ==> two[i][j] == HalfTurn(m)[i][j];
    }
  }

  lemma HalfTurnTwice(m: Grid)
    requires IsSquare(m)
    ensures HalfTurn(HalfTurn(m)) == m
  {
    var n := |m|;
    forall i | 0 <= i < n
      ensures HalfTurn(HalfTurn(m))[i] == m[i]
    {
      assert forall j :: 0 <= j < n ==> HalfTurn(HalfTurn(m))[i][j] == m[i][j];
    }
  }

  /** Four quarter turns in the same direction give back the original matrix. */
  lemma RotateFour(m: Grid, dir: int)
    requires IsSquare(m)
    ensures Rotated(Rotated(Rotated(Rotated(m, dir), dir), dir), dir) == m
  {
    RotateTwice(m, dir);
    RotateTwice(Rotated(Rotated(m, dir), dir), dir);
    HalfTurnTwice(m);
  }

  lemma {:induction false} CellsTranspose(g: Grid, w: nat)
    requires IsRect(g, |g|, w)
    ensures Cells(Transpose(g, w)) == Cells(g)
  {
    var t := Transpose(g, w);
    if g == [] {
      CellsEmptyRows(t);
    } else {
      var h := |g| - 1;
      var t' := Transpose(g[..h], w);
      CellsTranspose(g[..h], w);
      forall c | 0 <= c < w
        ensures t[c] == t'[c] + [g[h][c]]
      {
        assert |t[c]| == |t'[c] + [g[h][c]]|;
      }
      CellsAddColumn(t', t, g[h]);
    }
  }

  /** A quarter turn keeps the multiset of cell values. */
  lemma RotatedCells(m: Grid, dir: int)
    requires IsSquare(m)
    ensures Cells(Rotated(m, dir)) == Cells(m)
  {
    var n := |m|;
    var t := Transpose(m, n);
    CellsTranspose(m, n);
    if dir > 0 {
      RowsReversedCells(t, Rotated(m, dir));
    } else {
      var r := Rotated(m, dir);
      forall i | 0 <= i < n
        ensures r[i] == Reverse(t)[i]
      {
        assert forall j :: 0 <= j < n ==> r[i][j] == Reverse(t)[i][j];
      }
      assert r == Reverse(t);
      CellsReverse(t);
    }
  }

  /** Reversing every row of a grid keeps its cells. */
  lemma RowsReversedCells(t: Grid, r: Grid)
    requires |r| == |t|
    requires forall i :: 0 <= i < |t| ==> r[i] == Reverse(t[i])
    ensures Cells(r) == Cells(t)
  {
    forall i | 0 <= i < |t|
      ensures multiset(r[i]) == multiset(t[i])
    {
      MultisetReverse(t[i]);
    }
    CellsRowwise(r, t);
  }

  /** A quarter turn of a piece is a piece with the same id. */
  lemma RotatedPiece(m: Grid, dir: int, id: int)
    requires IsPieceOf(m, id)
    ensures IsPieceOf(Rotated(m, dir), id)
  {
    RotatedCells(m, dir);
  }

  /** A quarter turn of a well-formed piece is a well-formed piece. */
  lemma RotatedIsPiece(m: Grid, dir: int)
    requires IsPiece(m)
    ensures IsPiece(Rotated(m, dir))
  {
    var id :| 1 <= id <= 7 && IsPieceOf(m, id);
    RotatedPiece(m, dir, id);
  }
}
