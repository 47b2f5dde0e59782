/** collide and merge: the active piece against the arena. */
module Collision {
  import opened Grids
  import opened Pieces

  /**
   * arena[r][c] as the game reads it: a missing row or column gives no value
   * (undefined in the source), which is never equal to 0.
   */
  function At(arena: Grid, r: int, c: int): (v: Option<int>)
    ensures v.Some? <==> 0 <= r < |arena| && 0 <= c < |arena[r]|
    ensures v.Some? ==> v.value == arena[r][c]
  {
    if 0 <= r < |arena| && 0 <= c < |arena[r]| then Some(arena[r][c]) else None
  }

  /** The target cell is not a free cell of the arena: off the board or non-zero. */
  predicate Blocked(arena: Grid, r: int, c: int): (blocked: bool)
    ensures blocked <==> !(0 <= r < |arena| && 0 <= c < |arena[r]|) || arena[r][c] != 0
  {
    At(arena, r, c) != Some(0)
  }

  /** collide: some non-zero cell of the piece lands on a blocked cell. */
  predicate Collides(arena: Grid, m: Grid, px: int, py: int)
  {
    exists y, x :: 0 <= y < |m| && 0 <= x < |m[y]| && m[y][x] != 0 && Blocked(arena, py + y, px + x)
  }

  /** Every non-zero cell of the piece lands inside the arena. */
  predicate Fits(arena: Grid, m: Grid, px: int, py: int)
  {
    forall y, x :: 0 <= y < |m| && 0 <= x < |m[y]| && m[y][x] != 0 ==>
      0 <= py + y < |arena| && 0 <= px + x < |arena[py + y]|
  }

  /**
   * On the 20-by-10 arena a piece collides exactly when one of its non-zero
   * cells falls outside rows 0..19 or columns 0..9 (above row 0 included) or
   * on a non-zero arena cell.
   */
  lemma CollidesOnBoard(arena: Grid, m: Grid, px: int, py: int)
    requires IsBoard(arena)
    ensures Collides(arena, m, px, py) <==>
      exists y, x :: 0 <= y < |m| && 0 <= x < |m[y]| && m[y][x] != 0 &&
        (py + y < 0 || py + y >= ROWS || px + x < 0 || px + x >= COLS || arena[py + y][px + x] != 0)
  {
  }

  /** A piece that does not collide lies inside the arena. */
  lemma FreeFits(arena: Grid, m: Grid, px: int, py: int)
    requires !Collides(arena, m, px, py)
    ensures Fits(arena, m, px, py)
  {
    forall y, x | 0 <= y < |m| && 0 <= x < |m[y]| && m[y][x] != 0
      ensures 0 <= py + y < |arena| && 0 <= px + x < |arena[py + y]|
    {
      assert !Blocked(arena, py + y, px + x);
    }
  }

  /** collide(arena, player), scanning the piece row by row and stopping at the first hit. */
  method Collide(arena: Grid, m: Grid, px: int, py: int) returns (hit: bool)
    ensures hit == Collides(arena, m, px, py)
  {
    for y := 0 to |m|
      invariant forall i, j :: 0 <= i < y && 0 <= j < |m[i]| && m[i][j] != 0 ==> !Blocked(arena, py + i, px + j)
    {
      for x := 0 to |m[y]|
        invariant forall j :: 0 <= j < x && m[y][j] != 0 ==> !Blocked(arena, py + y, px + j)
      {
        var cell := At(arena, py + y, px + x);
        if m[y][x] != 0 && cell != Some(0) {
          assert Blocked(arena, py + y, px + x);
          return true;
        }
      }
    }
    return false;
  }

  /** The arena cell (r, c) is covered by a non-zero cell of the piece at (px, py). */
  predicate Covers(m: Grid, px: int, py: int, r: int, c: int)
  {
    0 <= r - py < |m| && 0 <= c - px < |m[r - py]| && m[r - py][c - px] != 0
  }

  /**
   * merge(arena, player): the arena with every non-zero piece cell written
   * into it; nothing else changes.
   */
  function Merged(arena: Grid, m: Grid, px: int, py: int): (a: Grid)
    requires Fits(arena, m, px, py)
    ensures |a| == |arena| && forall r :: 0 <= r < |a| ==> |a[r]| == |arena[r]|
    ensures forall y, x :: 0 <= y < |m| && 0 <= x < |m[y]| && m[y][x] != 0 ==> a[py + y][px + x] == m[y][x]
    ensures forall r, c :: 0 <= r < |a| && 0 <= c < |a[r]| && !Covers(m, px, py, r, c) ==> a[r][c] == arena[r][c]
  {
    seq(|arena|, r requires 0 <= r < |arena| => MergedRow(arena, m, px, py, r))
  }

  /** Row r of the merged arena. */
  function MergedRow(arena: Grid, m: Grid, px: int, py: int, r: int): (row: seq<int>)
    requires 0 <= r < |arena|
    ensures |row| == |arena[r]|
  {
    seq(|arena[r]|, c requires 0 <= c < |arena[r]| =>
      if Covers(m, px, py, r, c) then m[r - py][c - px] else arena[r][c])
  }

  /** merge, writing the piece cells one by one in the order the source visits them. */
  method Merge(arena: Grid, m: Grid, px: int, py: int) returns (a: Grid)
    requires Fits(arena, m, px, py)
    ensures a == Merged(arena, m, px, py)
  {
    a := arena;
    for y := 0 to |m|
      invariant |a| == |arena| && forall r :: 0 <= r < |a| ==> |a[r]| == |arena[r]|
      invariant forall r, c {:trigger a[r][c]} :: 0 <= r < |a| && 0 <= c < |a[r]| ==>
        a[r][c] == if Covers(m, px, py, r, c) && r - py < y then m[r - py][c - px] else arena[r][c]
    {
      for x := 0 to |m[y]|
        invariant |a| == |arena| && forall r :: 0 <= r < |a| ==> |a[r]| == |arena[r]|
        invariant forall r, c {:trigger a[r][c]} :: 0 <= r < |a| && 0 <= c < |a[r]| ==>
          a[r][c] == if Covers(m, px, py, r, c) && (r - py < y || (r - py == y && c - px < x))
                     then m[r - py][c - px] else arena[r][c]
      {
        if m[y][x] != 0 {
          a := a[py + y := a[py + y][px + x := m[y][x]]];
        }
      }
    }
    forall r | 0 <= r < |a|
      ensures a[r] == Merged(arena, m, px, py)[r]
    {
      assert forall c :: 0 <= c < |a[r]| ==> a[r][c] == Merged(arena, m, px, py)[r][c];
    }
  }

  /** A merged piece occupies its own cells: the same piece collides at the same place afterwards. */
  lemma MergedOccupies(arena: Grid, m: Grid, px: int, py: int)
    requires IsPiece(m) && Fits(arena, m, px, py)
    ensures Collides(Merged(arena, m, px, py), m, px, py)
  {
    var id :| 1 <= id <= 7 && IsPieceOf(m, id);
    CellsHas(m, id);
    var y, x :| 0 <= y < |m| && 0 <= x < |m[y]| && m[y][x] == id;
    assert Blocked(Merged(arena, m, px, py), py + y, px + x);
  }

  /** merge writes only cells of the piece, which hold its id, so every arena cell stays 0 or an id in 1..7. */
  lemma MergedKeepsCells(arena: Grid, m: Grid, px: int, py: int)
    requires IsPiece(m) && Fits(arena, m, px, py) && ValidCells(arena)
    ensures ValidCells(Merged(arena, m, px, py))
  {
    var id :| 1 <= id <= 7 && IsPieceOf(m, id);
  }

  /** Where the piece does not collide, merging only fills empty cells. */
  lemma MergedFillsEmpty(arena: Grid, m: Grid, px: int, py: int)
    requires !Collides(arena, m, px, py)
    ensures Fits(arena, m, px, py)
    ensures forall r, c :: 0 <= r < |arena| && 0 <= c < |arena[r]| && arena[r][c] != 0 ==>
      Merged(arena, m, px, py)[r][c] == arena[r][c]
  {
    FreeFits(arena, m, px, py);
    var a := Merged(arena, m, px, py);
    forall r, c | 0 <= r < |arena| && 0 <= c < |arena[r]| && arena[r][c] != 0
      ensures a[r][c] == arena[r][c]
    {
      if Covers(m, px, py, r, c) {
        assert false;
      }
    }
  }
}
