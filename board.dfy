/** arenaSweep: clearing full rows and scoring them. */
module Board {
  import opened Grids

  /** arena[y].every(value => value !== 0): the row holds no empty cell. */
  predicate Full(row: seq<int>): (full: bool)
    ensures full <==> 0 !in row
  {
    forall c :: 0 <= c < |row| ==> row[c] != 0
  }

  /** The rows of `a` that are not full, in their original order. */
  function NonFull(a: Grid): (rest: Grid)
    ensures |rest| + FullCount(a) == |a|
  {
    if a == [] then []
    else if Full(a[0]) then NonFull(a[1..])
    else [a[0]] + NonFull(a[1..])
  }

  /** The number of full rows of `a`. */
  function FullCount(a: Grid): nat
  {
    if a == [] then 0 else (if Full(a[0]) then 1 else 0) + FullCount(a[1..])
  }

  /** k fresh all-zero rows of width COLS. */
  function ZeroRows(k: nat): Grid
  {
    seq(k, _ => ZeroRow(COLS))
  }

  /**
   * The arena after arenaSweep: as many all-zero rows as there were full
   * rows, above the rows that were not full, kept in order.
   */
  function Swept(a: Grid): Grid
  {
    ZeroRows(FullCount(a)) + NonFull(a)
  }

  function Pow2(k: nat): nat
  {
    if k == 0 then 1 else 2 * Pow2(k - 1)
  }

  /** The points of one sweep clearing k rows: 10, then 20, then 40, ... per row (rowCount doubles). */
  function SweepPoints(k: nat): nat
  {
    if k == 0 then 0 else SweepPoints(k - 1) + 10 * Pow2(k - 1)
  }

  /** Clearing k rows in one sweep earns 10 * (2^k - 1) points. */
  lemma {:induction false} SweepPointsClosedForm(k: nat)
    ensures SweepPoints(k) == 10 * (Pow2(k) - 1)
  {
    if k > 0 {
      SweepPointsClosedForm(k - 1);
    }
  }

  lemma {:induction false} NonFullAppend(x: Grid, y: Grid)
    ensures NonFull(x + y) == NonFull(x) + NonFull(y)
    ensures FullCount(x + y) == FullCount(x) + FullCount(y)
  {
    if x != [] {
      assert (x + y)[1..] == x[1..] + y;
      NonFullAppend(x[1..], y);
    } else {
      assert x + y == y;
    }
  }

  /** Peeling the top row off a suffix of the arena. */
  lemma NonFullCons(a: Grid, i: nat)
    requires 0 < i <= |a|
    ensures NonFull(a[i - 1..]) == (if Full(a[i - 1]) then [] else [a[i - 1]]) + NonFull(a[i..])
    ensures FullCount(a[i - 1..]) == (if Full(a[i - 1]) then 1 else 0) + FullCount(a[i..])
  {
    assert a[i - 1..][1..] == a[i..];
  }

  /** No row kept by a sweep is full. */
  lemma {:induction false} NonFullNotFull(a: Grid)
    ensures forall i :: 0 <= i < |NonFull(a)| ==> !Full(NonFull(a)[i])
  {
    if a != [] {
      NonFullNotFull(a[1..]);
    }
  }

  /** The rows kept by a sweep are exactly the rows of `a` that are not full. */
  lemma {:induction false} NonFullRows(a: Grid)
    ensures forall row :: row in NonFull(a) <==> row in a && !Full(row)
  {
    if a != [] {
      NonFullRows(a[1..]);
      assert forall row :: row in a <==> row == a[0] || row in a[1..];
    }
  }

  /** A grid without full rows is left as it is. */
  lemma {:induction false} NoFullRows(a: Grid)
    requires forall i :: 0 <= i < |a| ==> !Full(a[i])
    ensures NonFull(a) == a && FullCount(a) == 0
  {
    if a != [] {
      NoFullRows(a[1..]);
      assert !Full(a[0]);
      assert [a[0]] + a[1..] == a;
    }
  }

  lemma {:induction false} NonFullWidth(a: Grid, w: nat)
    requires forall i :: 0 <= i < |a| ==> |a[i]| == w
    ensures forall i :: 0 <= i < |NonFull(a)| ==> |NonFull(a)[i]| == w
  {
    if a != [] {
      NonFullWidth(a[1..], w);
    }
  }

  /** The swept arena keeps the arena's 20 rows of 10 cells and has no full row left. */
  lemma SweptShape(a: Grid)
    requires IsBoard(a)
    ensures IsBoard(Swept(a))
    ensures forall i :: 0 <= i < ROWS ==> !Full(Swept(a)[i])
  {
    var s := Swept(a);
    var k := FullCount(a);
    NonFullWidth(a, COLS);
    NonFullNotFull(a);
    forall i | 0 <= i < ROWS
      ensures |s[i]| == COLS && !Full(s[i])
    {
      if i < k {
        assert s[i][0] == 0;
      } else {
        assert s[i] == NonFull(a)[i - k];
      }
    }
  }

  /** A sweep keeps the cells of the rows it keeps and adds only empty rows, so every cell stays 0 or an id in 1..7. */
  lemma SweptKeepsCells(a: Grid)
    requires ValidCells(a)
    ensures ValidCells(Swept(a))
  {
    var s := Swept(a);
    var k := FullCount(a);
    NonFullRows(a);
    forall i, c | 0 <= i < |s| && 0 <= c < |s[i]|
      ensures 0 <= s[i][c] <= 7
    {
      if i >= k {
        assert s[i] == NonFull(a)[i - k];
        assert s[i] in a;
      }
    }
  }

  /** Sweeping a swept arena changes nothing. */
  lemma SweptIdempotent(a: Grid)
    requires IsBoard(a)
    ensures Swept(Swept(a)) == Swept(a)
  {
    SweptShape(a);
    NoFullRows(Swept(a));
  }

  /** An empty arena has no full row, so a sweep leaves it as it is and earns nothing. */
  lemma SweptEmpty()
    ensures FullCount(CreateMatrix(COLS, ROWS)) == 0
    ensures Swept(CreateMatrix(COLS, ROWS)) == CreateMatrix(COLS, ROWS)
  {
    var e := CreateMatrix(COLS, ROWS);
    forall i | 0 <= i < |e|
      ensures !Full(e[i])
    {
      assert e[i][0] == 0;
    }
    NoFullRows(e);
    assert ZeroRows(0) + e == e;
  }

  /**
   * With exactly one full row i, the sweep removes row i, moves every row
   * above it down by one and puts an empty row on top.
   */
  lemma SweepOneRow(a: Grid, i: nat)
    requires IsBoard(a) && i < ROWS && Full(a[i])
    requires forall j :: 0 <= j < ROWS && j != i ==> !Full(a[j])
    ensures Swept(a) == [ZeroRow(COLS)] + (a[..i] + a[i + 1..])
    ensures FullCount(a) == 1
  {
    NonFullSplit(a, i);
    NoFullAbove(a, i);
    NoFullBelow(a, i + 1);
    assert NonFull(a) == a[..i] + a[i + 1..] by {
      assert a[..i] + [] == a[..i];
    }
    assert ZeroRows(1) == [ZeroRow(COLS)];
  }

  /** The rows kept by a sweep, split around row i. */
  lemma NonFullSplit(a: Grid, i: nat)
    requires i < |a|
    ensures NonFull(a) == NonFull(a[..i]) + (if Full(a[i]) then [] else [a[i]]) + NonFull(a[i + 1..])
    ensures FullCount(a) == FullCount(a[..i]) + (if Full(a[i]) then 1 else 0) + FullCount(a[i + 1..])
  {
    var above, below := a[..i], a[i + 1..];
    assert a == above + [a[i]] + below;
    NonFullAppend(above + [a[i]], below);
    NonFullAppend(above, [a[i]]);
    NonFullSingle(a[i]);
  }

  lemma NonFullSingle(row: seq<int>)
    ensures NonFull([row]) == (if Full(row) then [] else [row])
    ensures FullCount([row]) == (if Full(row) then 1 else 0)
  {
    assert [row][1..] == [];
  }

  lemma NoFullAbove(a: Grid, i: nat)
    requires i <= |a| && forall j :: 0 <= j < i ==> !Full(a[j])
    ensures NonFull(a[..i]) == a[..i] && FullCount(a[..i]) == 0
  {
    NoFullRows(a[..i]);
  }

  lemma NoFullBelow(a: Grid, i: nat)
    requires i <= |a| && forall j :: i <= j < |a| ==> !Full(a[j])
    ensures NonFull(a[i..]) == a[i..] && FullCount(a[i..]) == 0
  {
    NoFullRows(a[i..]);
  }

  /**
   * The row the sweep looks at: while rows of `a` remain, row y = k + i - 1 of
   * b is the next unscanned row a[i - 1]; afterwards y points into the zero
   * rows on top, which are never full.
   */
  lemma SweepRowAt(a: Grid, b: Grid, i: nat, k: nat, y: int)
    requires IsBoard(a) && i <= |a|
    requires b == ZeroRows(k) + a[..i] + NonFull(a[i..])
    requires 0 <= y && (i > 0 ==> y == k + i - 1) && (i == 0 ==> y < k)
    ensures y < |b| && |b[y]| == COLS
    ensures Full(b[y]) <==> i > 0 && Full(a[i - 1])
  {
    if i > 0 {
      assert b[y] == a[i - 1];
    } else {
      assert b[y] == ZeroRow(COLS);
      assert b[y][0] == 0;
    }
  }

  /** A full row at index y = k + i - 1 is taken out and an empty row is put on top. */
  lemma SweepStepFull(a: Grid, b: Grid, i: nat, k: nat, y: nat)
    requires 0 < i <= |a| && Full(a[i - 1]) && y == k + i - 1
    requires k == FullCount(a[i..]) && b == ZeroRows(k) + a[..i] + NonFull(a[i..])
    ensures y < |b|
    ensures [ZeroRow(COLS)] + (b[..y] + b[y + 1..]) == ZeroRows(k + 1) + a[..i - 1] + NonFull(a[i - 1..])
    ensures k + 1 == FullCount(a[i - 1..])
  {
    assert NonFull(a[i - 1..]) == NonFull(a[i..]) && FullCount(a[i - 1..]) == k + 1 by {
      NonFullCons(a, i);
    }
    assert a[..i] == a[..i - 1] + [a[i - 1]];
    MoveToTop(b, ZeroRows(k), a[..i - 1], a[i - 1], NonFull(a[i..]), ZeroRow(COLS));
    ZeroRowsCons(k);
  }

  lemma ZeroRowsCons(k: nat)
    ensures [ZeroRow(COLS)] + ZeroRows(k) == ZeroRows(k + 1)
  {
  }

  /**
   * Taking x out of z + top + [x] + rest and putting row in front gives
   * [row] + z + top + rest.
   */
  lemma MoveToTop<T>(b: seq<T>, z: seq<T>, top: seq<T>, x: T, rest: seq<T>, row: T)
    requires b == z + (top + [x]) + rest
    ensures |z| + |top| < |b| && b[|z| + |top|] == x
    ensures [row] + (b[..|z| + |top|] + b[|z| + |top| + 1..]) == ([row] + z) + top + rest
  {
    assert b[..|z| + |top|] == z + top;
    assert b[|z| + |top| + 1..] == rest;
  }

  /** A row at index y = k + i - 1 that is not full stays where it is and joins the kept rows. */
  lemma SweepStepKeep(a: Grid, b: Grid, i: nat, k: nat)
    requires 0 < i <= |a| && !Full(a[i - 1])
    requires k == FullCount(a[i..]) && b == ZeroRows(k) + a[..i] + NonFull(a[i..])
    ensures b == ZeroRows(k) + a[..i - 1] + NonFull(a[i - 1..])
    ensures k == FullCount(a[i - 1..])
  {
    NonFullCons(a, i);
    assert a[..i] == a[..i - 1] + [a[i - 1]];
  }

  /** Once every row of `a` has been scanned, b is the swept arena. */
  lemma SweepDone(a: Grid, b: Grid, k: nat)
    requires k == FullCount(a[0..]) && b == ZeroRows(k) + a[..0] + NonFull(a[0..])
    ensures b == Swept(a) && k == FullCount(a)
  {
    assert a[0..] == a;
    assert a[..0] == [];
  }

  /** arena.splice(y, 1)[0].fill(0), then arena.unshift(row): row y, emptied, moves to the top. */
  method MoveRowToTop(b: Grid, y: nat) returns (b': Grid)
    requires y < |b| && |b[y]| == COLS
    ensures b' == [ZeroRow(COLS)] + (b[..y] + b[y + 1..])
  {
    var row := b[y];
    b' := b[..y] + b[y + 1..];
    row := seq(|row|, _ => 0);
    b' := [row] + b';
  }

  /** One more cleared row doubles rowCount and adds its old value, times 10, to the points. */
  lemma SweepPointsStep(k: nat)
    ensures SweepPoints(k + 1) == SweepPoints(k) + Pow2(k) * 10
    ensures Pow2(k + 1) == Pow2(k) * 2
  {
  }

  /**
   * arenaSweep: scan from the bottom row up; a full row is spliced out,
   * zero-filled and put back on top, and the same index is checked again.
   * Returns the new arena and the points earned.
   */
  method Sweep(a: Grid) returns (b: Grid, points: nat)
    requires IsBoard(a)
    ensures b == Swept(a)
    ensures points == SweepPoints(FullCount(a))
  {
    b := a;
    points := 0;
    var rowCount := 1;
    var y := |b| - 1;
    ghost var i := |a|;  // rows a[i..] have been scanned
    ghost var k := 0;    // full rows found among them
    while y >= 0
      invariant 0 <= i <= |a| && -1 <= y
      invariant i > 0 ==> y == k + i - 1
      invariant i == 0 ==> y < k
      invariant k == FullCount(a[i..])
      invariant b == ZeroRows(k) + a[..i] + NonFull(a[i..])
      invariant rowCount == Pow2(k) && points == SweepPoints(k)
      decreases i, y + 1
    {
      SweepRowAt(a, b, i, k, y);
      if Full(b[y]) {
        SweepStepFull(a, b, i, k, y);
        b := MoveRowToTop(b, y);
        y := y + 1;
        SweepPointsStep(k);
        points := points + rowCount * 10;
        rowCount := rowCount * 2;
        i, k := i - 1, k + 1;
      } else if i > 0 {
        SweepStepKeep(a, b, i, k);
        i := i - 1;
      }
      y := y - 1;
    }
    SweepDone(a, b, k);
  }
}
