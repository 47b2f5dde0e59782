/** The game state (arena, player, score, next piece) and the player operations. */
module Tetris {
  import opened Grids
  import opened Pieces
  import opened Rotation
  import opened Collision
  import opened Board

  /**
   * The column where playerReset puts a piece: (COLS / 2 | 0) - (width / 2 | 0).
   * The piece is centred, with the odd column, if any, on its left.
   */
  function SpawnX(m: Grid): (x: int)
    requires |m| > 0
    ensures 0 <= 2 * x + |m[0]| - COLS <= 1
    ensures (|m[0]| == 2 || |m[0]| == 3 ==> x == 4) && (|m[0]| == 4 ==> x == 3)
  {
    COLS / 2 - |m[0]| / 2
  }

  /** A fresh piece at its spawn place on an empty arena is inside the arena and free. */
  lemma SpawnFree(m: Grid)
    requires IsPiece(m)
    ensures Fits(CreateMatrix(COLS, ROWS), m, SpawnX(m), 0)
    ensures !Collides(CreateMatrix(COLS, ROWS), m, SpawnX(m), 0)
  {
    var empty := CreateMatrix(COLS, ROWS);
    var x0 := SpawnX(m);
    forall y, x | 0 <= y < |m| && 0 <= x < |m[y]| && m[y][x] != 0
      ensures 0 <= y < ROWS && 0 <= x0 + x < COLS && !Blocked(empty, y, x0 + x)
    {
      assert 3 <= x0 <= 4 && x0 + |m| <= 7;
    }
  }

  /** The total shift after k failed tries in playerRotate: offsets +1, -2, +3, ... add up to 0, 1, -1, 2, -2, ... */
  function KickOffset(k: nat): int
  {
    if k % 2 == 0 then -(k / 2) else (k + 1) / 2
  }

  /**
   * The number of x positions playerRotate tests for a matrix of width w:
   * it gives up as soon as the next positive offset exceeds w, so the smallest
   * even number that is at least 2 and at least w.
   */
  function KickTries(w: nat): nat
  {
    if w <= 2 then 2 else if w % 2 == 0 then w else w + 1
  }

  /** The x positions playerRotate tests, in order, starting from pos. */
  function KickPositions(pos: int, w: nat): (xs: seq<int>)
  {
    seq(KickTries(w), k requires 0 <= k => pos + KickOffset(k))
  }

  /**
   * For the pieces of the game: a 2-wide piece tries pos and pos+1 only; a
   * 3- or 4-wide piece tries pos, pos+1, pos-1, pos+2 (the shift to pos-2 is
   * applied and undone without being tested).
   */
  lemma KickPositionsBySize(pos: int)
    ensures KickPositions(pos, 2) == [pos, pos + 1]
    ensures KickPositions(pos, 3) == [pos, pos + 1, pos - 1, pos + 2]
    ensures KickPositions(pos, 4) == [pos, pos + 1, pos - 1, pos + 2]
  {
    assert KickOffset(1) == 1 && KickOffset(2) == -1 && KickOffset(3) == 2;
  }

  /** The index of the first position in xs where the piece does not collide. */
  function FirstFree(arena: Grid, m: Grid, py: int, xs: seq<int>): (r: Option<nat>)
    ensures r.Some? ==> r.value < |xs|
  {
    if xs == [] then None
    else if !Collides(arena, m, xs[0], py) then Some(0)
    else match FirstFree(arena, m, py, xs[1..])
      case Some(i) => Some(i + 1)
      case None => None
  }

  /**
   * FirstFree finds a free position with every earlier one colliding, and
   * finds none exactly when every position collides.
   */
  lemma {:induction false} FirstFreeSpec(arena: Grid, m: Grid, py: int, xs: seq<int>)
    ensures var r := FirstFree(arena, m, py, xs);
            r.Some? ==> r.value < |xs| && !Collides(arena, m, xs[r.value], py) &&
                        forall j :: 0 <= j < r.value ==> Collides(arena, m, xs[j], py)
    ensures FirstFree(arena, m, py, xs).None? <==> forall j :: 0 <= j < |xs| ==> Collides(arena, m, xs[j], py)
  {
    if xs != [] {
      FirstFreeSpec(arena, m, py, xs[1..]);
      assert forall j :: 0 < j < |xs| ==> xs[j] == xs[1..][j - 1];
    }
  }

  /**
   * One failed try at step k: x moves on to the next position, and the
   * search stops exactly when all KickTries(w) positions have been tried.
   */
  lemma KickStep(k: nat, w: nat)
    requires k < KickTries(w)
    ensures KickOffset(k + 1) == KickOffset(k) + (if k % 2 == 0 then k + 1 else -(k + 1))
    ensures var next := if k % 2 == 0 then -(k + 2) else k + 2;
            (next > w <==> k + 1 == KickTries(w)) && next == (if (k + 1) % 2 == 0 then k + 2 else -(k + 2))
  {
    var q := k / 2;
    if k % 2 == 0 {
      assert k == 2 * q && (k + 1) % 2 == 1 && (k + 2) / 2 == q + 1;
    } else {
      assert k == 2 * q + 1 && (k + 1) % 2 == 0 && (k + 1) / 2 == q + 1;
    }
  }

  lemma FirstFreeAt(arena: Grid, m: Grid, py: int, xs: seq<int>, k: nat)
    requires k < |xs| && !Collides(arena, m, xs[k], py)
    requires forall j :: 0 <= j < k ==> Collides(arena, m, xs[j], py)
    ensures FirstFree(arena, m, py, xs) == Some(k)
  {
    FirstFreeSpec(arena, m, py, xs);
  }

  lemma FirstFreeNone(arena: Grid, m: Grid, py: int, xs: seq<int>)
    requires forall j :: 0 <= j < |xs| ==> Collides(arena, m, xs[j], py)
    ensures FirstFree(arena, m, py, xs) == None
  {
    FirstFreeSpec(arena, m, py, xs);
  }

  /**
   * What playerRotate(dir) leaves: the rotated piece at the first free
   * position among KickPositions, or the old piece at its old column when
   * every tried position collides.
   */
  function Kicked(arena: Grid, m: Grid, px: int, py: int, dir: int): (Grid, int)
    requires IsSquare(m)
  {
    var turned := Rotated(m, dir);
    var tries := KickPositions(px, |m|);
    match FirstFree(arena, turned, py, tries)
    case Some(i) => (turned, tries[i])
    case None => (m, px)
  }

  /** playerRotate either turns the piece into a free place or changes nothing. */
  lemma KickedFree(arena: Grid, m: Grid, px: int, py: int, dir: int)
    requires IsSquare(m)
    ensures var (r, x) := Kicked(arena, m, px, py, dir);
            (r == Rotated(m, dir) && x in KickPositions(px, |m|) && !Collides(arena, r, x, py)) ||
            (r == m && x == px)
  {
    FirstFreeSpec(arena, Rotated(m, dir), py, KickPositions(px, |m|));
  }

  /**
   * The search loop of playerRotate for an already rotated matrix m: shift x
   * by +1, -2, +3, ... while the piece collides, and give up once the next
   * positive offset exceeds the width. The column found is the first free one
   * among KickPositions; None when every tried column collides.
   */
  method KickSearch(arena: Grid, m: Grid, px: int, py: int) returns (found: Option<int>)
    requires |m| > 0
    ensures var tries := KickPositions(px, |m[0]|);
            match FirstFree(arena, m, py, tries)
            case Some(i) => found == Some(tries[i])
            case None => found == None
    ensures found.Some? ==> !Collides(arena, m, found.value, py)
  {
    var offset := 1;
    ghost var w := |m[0]|;
    ghost var tries := KickPositions(px, w);
    ghost var k := 0;
    var x := px;
    var hit := Collide(arena, m, x, py);
    while hit
      invariant 0 <= k < KickTries(w) && x == tries[k]
      invariant offset == if k % 2 == 0 then k + 1 else -(k + 1)
      invariant hit == Collides(arena, m, x, py)
      invariant forall j :: 0 <= j < k ==> Collides(arena, m, tries[j], py)
      decreases KickTries(w) - k
    {
      KickStep(k, w);
      assert forall j :: 0 <= j < k + 1 ==> Collides(arena, m, tries[j], py) by {
        assert tries[k] == x;
      }
      x := x + offset;
      offset := -(offset + (if offset > 0 then 1 else -1));
      k := k + 1;
      if offset > |m[0]| {
        FirstFreeNone(arena, m, py, tries);
        return None;
      }
      hit := Collide(arena, m, x, py);
    }
    FirstFreeAt(arena, m, py, tries, k);
    return Some(x);
  }

  /**
   * playerRotate(dir) on values: rotate the matrix and search for a free
   * column; when there is none, rotate back and restore x. The outcome is the
   * rotated piece at the first free position among KickPositions, or the
   * unchanged piece at its old column.
   */
  method RotateWithKick(arena: Grid, m: Grid, px: int, py: int, dir: int) returns (r: Grid, x: int)
    requires IsSquare(m) && |m| > 0 && dir != 0
    ensures (r, x) == Kicked(arena, m, px, py, dir)
  {
    r := Rotate(m, dir);
    var found := KickSearch(arena, r, px, py);
    if found.Some? {
      x := found.value;
    } else {
      r := Rotate(r, -dir);
      RotateUndo(m, dir);
      x := px;
    }
  }

  /** A rotation attempt keeps a well-formed piece, and keeps it inside the arena. */
  lemma KickedKeepsPiece(arena: Grid, m: Grid, px: int, py: int, dir: int)
    requires IsPiece(m) && Fits(arena, m, px, py)
    ensures var (r, x) := Kicked(arena, m, px, py, dir);
            IsPiece(r) && Fits(arena, r, x, py)
  {
    KickedFree(arena, m, px, py, dir);
    var (r, x) := Kicked(arena, m, px, py, dir);
    if r == Rotated(m, dir) && !Collides(arena, r, x, py) {
      RotatedIsPiece(m, dir);
      FreeFits(arena, r, x, py);
    }
  }

  /**
   * The arena and score after a piece lands at (px, py): the piece is merged;
   * if the next piece then collides at its spawn place the game restarts
   * (empty arena, score 0, and the sweep finds nothing); otherwise the full
   * rows are swept and scored.
   */
  ghost predicate Landed(arena: Grid, m: Grid, px: int, py: int, next: Grid, score: int, arena': Grid, score': int)
    requires Fits(arena, m, px, py) && |next| > 0
  {
    var landed := Merged(arena, m, px, py);
    if Collides(landed, next, SpawnX(next), 0) then
      arena' == CreateMatrix(COLS, ROWS) && score' == 0
    else
      arena' == Swept(landed) && score' == score + SweepPoints(FullCount(landed))
  }

  /**
   * The game-over check of playerReset: a new piece that collides at its
   * spawn place empties the whole arena and resets the score; otherwise
   * both stay. Either way the new piece then lies inside the arena.
   */
  method ResetArena(arena: Grid, score: nat, m: Grid) returns (arena': Grid, score': nat)
    requires IsBoard(arena) && IsPiece(m)
    ensures IsBoard(arena') && Fits(arena', m, SpawnX(m), 0)
    ensures ValidCells(arena) ==> ValidCells(arena')
    ensures Collides(arena, m, SpawnX(m), 0) ==> arena' == CreateMatrix(COLS, ROWS) && score' == 0
    ensures !Collides(arena, m, SpawnX(m), 0) ==> arena' == arena && score' == score
  {
    var hit := Collide(arena, m, SpawnX(m), 0);
    if hit {
      arena' := FillZero(arena, COLS);
      score' := 0;
      SpawnFree(m);
    } else {
      arena', score' := arena, score;
      FreeFits(arena, m, SpawnX(m), 0);
    }
  }

  class Game {
    var arena: Grid
    /** player.matrix and player.pos */
    var matrix: Grid
    var px: int
    var py: int
    var score: nat
    /** nextPiece, shown as the preview */
    var next: Grid
    var dropCounter: int

    /**
     * The 20-by-10 arena, every cell 0 or a piece id 1..7; the active and the
     * next piece are well-formed pieces; every cell of the active piece is
     * inside the arena.
     */
    ghost predicate Valid()
      reads this
    {
      IsBoard(arena) && ValidCells(arena) && IsPiece(matrix) && IsPiece(next) && Fits(arena, matrix, px, py)
    }

    /**
     * Start of a session: an empty arena, score 0, a first next piece, then
     * playerReset. `first` and `second` stand for the two random piece choices.
     */
    constructor (first: nat, second: nat)
      requires first < |PIECE_TYPES| && second < |PIECE_TYPES|
      ensures Valid()
      ensures arena == CreateMatrix(COLS, ROWS) && score == 0 && dropCounter == 0
      ensures matrix == PickPiece(first) && px == SpawnX(PickPiece(first)) && py == 0
      ensures next == PickPiece(second)
    {
      arena := CreateMatrix(COLS, ROWS);
      score := 0;
      dropCounter := 0;
      px, py := 0, 0;
      next := PickPiece(first);
      matrix := next;
      new;
      SpawnFree(next);
      PlayerReset(second);
    }

    /**
     * playerReset: the next piece becomes the active piece at row 0, centred;
     * a new next piece is chosen. If the new piece collides at once, the whole
     * arena is emptied and the score goes back to 0.
     */
    method PlayerReset(choice: nat)
      requires Valid() && choice < |PIECE_TYPES|
      modifies this
      ensures Valid()
      ensures matrix == old(next) && py == 0 && px == SpawnX(old(next))
      ensures next == PickPiece(choice) && dropCounter == old(dropCounter)
      ensures Collides(old(arena), matrix, px, py) ==> arena == CreateMatrix(COLS, ROWS) && score == 0
      ensures !Collides(old(arena), matrix, px, py) ==> arena == old(arena) && score == old(score)
    {
      var incoming := next;
      var a, s := ResetArena(arena, score, incoming);
      arena, score := a, s;
      matrix, px, py := incoming, SpawnX(incoming), 0;
      next := PickPiece(choice);
    }

    /** playerMove(dir): shift one column; undo the shift if the piece then collides. */
    method PlayerMove(dir: int)
      requires Valid()
      modifies this
      ensures Valid()
      ensures arena == old(arena) && matrix == old(matrix) && py == old(py)
      ensures next == old(next) && score == old(score) && dropCounter == old(dropCounter)
      ensures !Collides(arena, matrix, old(px) + dir, py) ==> px == old(px) + dir
      ensures Collides(arena, matrix, old(px) + dir, py) ==> px == old(px)
    {
      px := px + dir;
      var hit := Collide(arena, matrix, px, py);
      if hit {
        px := px - dir;
      } else {
        FreeFits(arena, matrix, px, py);
      }
    }

    /** playerRotate(dir) on the game: the piece and its column become those RotateWithKick finds. */
    method PlayerRotate(dir: int)
      requires Valid() && dir != 0
      modifies this
      ensures Valid()
      ensures arena == old(arena) && py == old(py)
      ensures next == old(next) && score == old(score) && dropCounter == old(dropCounter)
      ensures (matrix, px) == Kicked(old(arena), old(matrix), old(px), old(py), dir)
    {
      KickedKeepsPiece(arena, matrix, px, py, dir);
      matrix, px := RotateWithKick(arena, matrix, px, py, dir);
    }

    /**
     * playerDrop: move down one row if the piece is free there; otherwise it
     * stays and lands (Land). dropCounter is reset in every case.
     */
    method PlayerDrop(choice: nat)
      requires Valid() && choice < |PIECE_TYPES|
      modifies this
      ensures Valid() && dropCounter == 0
      ensures !Collides(old(arena), old(matrix), old(px), old(py) + 1) ==>
        py == old(py) + 1 && px == old(px) && matrix == old(matrix) &&
        arena == old(arena) && next == old(next) && score == old(score)
      ensures Collides(old(arena), old(matrix), old(px), old(py) + 1) ==>
        matrix == old(next) && px == SpawnX(old(next)) && py == 0 && next == PickPiece(choice) &&
        Landed(old(arena), old(matrix), old(px), old(py), old(next), old(score), arena, score)
    {
      var hit := Collide(arena, matrix, px, py + 1);
      if hit {
        Land(choice);
      } else {
        FreeFits(arena, matrix, px, py + 1);
        py := py + 1;
      }
      dropCounter := 0;
    }

    /**
     * The landing half of playerDrop: merge the piece where it stands, let
     * playerReset install the next piece, and only then sweep.
     */
    method Land(choice: nat)
      requires Valid() && choice < |PIECE_TYPES|
      modifies this
      ensures Valid() && dropCounter == old(dropCounter)
      ensures matrix == old(next) && px == SpawnX(old(next)) && py == 0 && next == PickPiece(choice)
      ensures Landed(old(arena), old(matrix), old(px), old(py), old(next), old(score), arena, score)
    {
      ghost var before, active, x0, y0, incoming, kept := arena, matrix, px, py, next, score;
      MergedKeepsCells(arena, matrix, px, py);
      arena := Merge(arena, matrix, px, py);
      ghost var landed := arena;
      PlayerReset(choice);
      ghost var over := Collides(landed, incoming, SpawnX(incoming), 0);
      if over {
        SweptEmpty();
      }
      ArenaSweep();
    }

    /** arenaSweep on the game's arena and score. */
    method ArenaSweep()
      requires Valid()
      modifies this
      ensures Valid()
      ensures arena == Swept(old(arena)) && score == old(score) + SweepPoints(FullCount(old(arena)))
      ensures matrix == old(matrix) && px == old(px) && py == old(py)
      ensures next == old(next) && dropCounter == old(dropCounter)
    {
      var swept, points := Sweep(arena);
      SweptShape(arena);
      SweptKeepsCells(arena);
      arena := swept;
      score := score + points;
    }
  }
}
