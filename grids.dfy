/** Cell grids shared by the arena, the pieces and the rotation code. */
module Grids {

  /** A grid of cell values stored row by row; 0 is an empty cell, 1..7 the id of the piece that filled it. */
  type Grid = seq<seq<int>>

  /** Board size: COLS = 10, ROWS = 20. */
  const COLS: nat := 10
  const ROWS: nat := 20

  datatype Option<T> = None | Some(value: T)

  /** h rows, each of width w. */
  predicate IsRect(g: Grid, h: nat, w: nat)
  {
    |g| == h && forall r :: 0 <= r < h ==> |g[r]| == w
  }

  predicate IsSquare(g: Grid)
  {
    IsRect(g, |g|, |g|)
  }

  /** The arena: ROWS rows of COLS cells. */
  predicate IsBoard(g: Grid)
  {
    IsRect(g, ROWS, COLS)
  }

  /** Every cell holds a cell value: 0 for empty or a piece id 1..7. */
  predicate ValidCells(g: Grid)
  {
    forall r, c :: 0 <= r < |g| && 0 <= c < |g[r]| ==> 0 <= g[r][c] <= 7
  }

  /** createMatrix(w, h): h fresh rows of w zeros. */
  function CreateMatrix(w: nat, h: nat): (g: Grid)
    ensures IsRect(g, h, w)
    ensures forall r, c :: 0 <= r < h && 0 <= c < w ==> g[r][c] == 0
  {
    seq(h, _ => ZeroRow(w))
  }

  /** A row of w empty cells. */
  function ZeroRow(w: nat): seq<int>
  {
    seq(w, _ => 0)
  }

  /** arena.forEach(row => row.fill(0)): every row keeps its length and holds only zeros. */
  method FillZero(a: Grid, w: nat) returns (b: Grid)
    requires IsRect(a, |a|, w)
    ensures b == CreateMatrix(w, |a|)
  {
    b := a;
    for r := 0 to |b|
      invariant |b| == |a|
      invariant forall i :: 0 <= i < r ==> b[i] == seq(w, _ => 0)
      invariant forall i :: r <= i < |b| ==> |b[i]| == w
    {
      b := b[r := seq(|b[r]|, _ => 0)];
    }
    assert forall i :: 0 <= i < |b| ==> b[i] == CreateMatrix(w, |a|)[i];
  }

  /** Array.prototype.reverse, as a value. */
  function Reverse<T>(s: seq<T>): seq<T>
  {
    seq(|s|, i requires 0 <= i < |s| => s[|s| - 1 - i])
  }

  /** The multiset of all cell values of a grid. */
  function Cells(g: Grid): multiset<int>
  {
    if g == [] then multiset{} else Cells(g[..|g| - 1]) + multiset(g[|g| - 1])
  }

  lemma {:induction false} MultisetReverse<T>(s: seq<T>)
    ensures multiset(Reverse(s)) == multiset(s)
  {
    if s != [] {
      var k := |s| - 1;
      MultisetReverse(s[..k]);
      assert Reverse(s) == [s[k]] + Reverse(s[..k]);
      assert s == s[..k] + [s[k]];
    }
  }

  lemma {:induction false} CellsPrepend(row: seq<int>, g: Grid)
    ensures Cells([row] + g) == multiset(row) + Cells(g)
  {
    if g == [] {
      assert ([row] + g)[..0] == [];
    } else {
      var k := |g| - 1;
      CellsPrepend(row, g[..k]);
      assert ([row] + g)[..|g|] == [row] + g[..k];
    }
  }

  /** Reordering the rows of a grid back to front keeps its cells. */
  lemma {:induction false} CellsReverse(g: Grid)
    ensures Cells(Reverse(g)) == Cells(g)
  {
    if g != [] {
      var k := |g| - 1;
      CellsReverse(g[..k]);
      assert Reverse(g) == [g[k]] + Reverse(g[..k]);
      CellsPrepend(g[k], Reverse(g[..k]));
    }
  }

  /** Two grids whose rows pairwise hold the same values hold the same cells. */
  lemma {:induction false} CellsRowwise(a: Grid, b: Grid)
    requires |a| == |b|
    requires forall i :: 0 <= i < |a| ==> multiset(a[i]) == multiset(b[i])
    ensures Cells(a) == Cells(b)
  {
    if a != [] {
      var k := |a| - 1;
      CellsRowwise(a[..k], b[..k]);
    }
  }

  /** A grid whose rows are all empty has no cells. */
  lemma {:induction false} CellsEmptyRows(g: Grid)
    requires forall i :: 0 <= i < |g| ==> g[i] == []
    ensures Cells(g) == multiset{}
  {
    if g != [] {
      CellsEmptyRows(g[..|g| - 1]);
    }
  }

  /** Appending one value to the end of every row adds exactly those values to the cells. */
  lemma {:induction false} CellsAddColumn(g: Grid, g': Grid, col: seq<int>)
    requires |g| == |g'| == |col|
    requires forall i :: 0 <= i < |g| ==> g'[i] == g[i] + [col[i]]
    ensures Cells(g') == Cells(g) + multiset(col)
  {
    if g != [] {
      var k := |g| - 1;
      CellsAddColumn(g[..k], g'[..k], col[..k]);
      assert col == col[..k] + [col[k]];
    }
  }

  /** A value counted by Cells sits in some cell of the grid. */
  lemma {:induction false} CellsHas(g: Grid, v: int)
    requires Cells(g)[v] > 0
    ensures exists r, c :: 0 <= r < |g| && 0 <= c < |g[r]| && g[r][c] == v
  {
    var k := |g| - 1;
    if multiset(g[k])[v] > 0 {
      assert v in g[k];
      var c :| 0 <= c < |g[k]| && g[k][c] == v;
      assert g[k][c] == v;
    } else {
      CellsHas(g[..k], v);
      var r, c :| 0 <= r < |g[..k]| && 0 <= c < |g[..k][r]| && g[..k][r][c] == v;
      assert g[r][c] == v;
    }
  }
}
