/** The seven tetromino shapes (createPiece) and the invariant every active or next piece keeps. */
module Pieces {
  import opened Grids

  /** The piece letters, in the order the random choice indexes them. */
  const PIECE_TYPES: seq<char> := "TJLOSZI"

  const T_SHAPE: Grid := [[0, 1, 0], [1, 1, 1], [0, 0, 0]]
  const O_SHAPE: Grid := [[2, 2], [2, 2]]
  const L_SHAPE: Grid := [[0, 3, 0], [0, 3, 0], [0, 3, 3]]
  const J_SHAPE: Grid := [[0, 4, 0], [0, 4, 0], [4, 4, 0]]
  const I_SHAPE: Grid := [[0, 5, 0, 0], [0, 5, 0, 0], [0, 5, 0, 0], [0, 5, 0, 0]]
  const S_SHAPE: Grid := [[0, 6, 6], [6, 6, 0], [0, 0, 0]]
  const Z_SHAPE: Grid := [[7, 7, 0], [0, 7, 7], [0, 0, 0]]

  /**
   * A well-formed piece with id `id`: a square of side 2, 3 or 4 whose cells
   * are 0 or `id`, with exactly four cells equal to `id`.
   */
  predicate IsPieceOf(m: Grid, id: int)
  {
    1 <= id <= 7 && 2 <= |m| <= 4 && IsSquare(m) &&
    (forall r, c :: 0 <= r < |m| && 0 <= c < |m| ==> m[r][c] == 0 || m[r][c] == id) &&
    Cells(m)[id] == 4
  }

  predicate IsPiece(m: Grid)
  {
    exists id :: 1 <= id <= 7 && IsPieceOf(m, id)
  }

  lemma CellsOfRows(g: Grid)
    requires 2 <= |g| <= 4
    ensures |g| == 2 ==> Cells(g) == multiset(g[0]) + multiset(g[1])
    ensures |g| == 3 ==> Cells(g) == multiset(g[0]) + multiset(g[1]) + multiset(g[2])
    ensures |g| == 4 ==> Cells(g) == multiset(g[0]) + multiset(g[1]) + multiset(g[2]) + multiset(g[3])
  {
    assert g[..1][..0] == [];
    assert Cells(g[..1]) == multiset(g[0]);
    CellsGrow(g, 1);
    if |g| >= 3 { CellsGrow(g, 2); }
    if |g| >= 4 { CellsGrow(g, 3); }
    assert g[..|g|] == g;
  }

  lemma CellsGrow(g: Grid, k: nat)
    requires k < |g|
    ensures Cells(g[..k + 1]) == Cells(g[..k]) + multiset(g[k])
  {
    assert g[..k + 1][..k] == g[..k];
  }

  /** Every shape of the catalogue is a well-formed piece carrying its own id. */
  lemma TIsPiece() ensures IsPieceOf(T_SHAPE, 1) { ShapeIsPiece(T_SHAPE, 1); }
  lemma OIsPiece() ensures IsPieceOf(O_SHAPE, 2) { ShapeIsPiece(O_SHAPE, 2); }
  lemma LIsPiece() ensures IsPieceOf(L_SHAPE, 3) { ShapeIsPiece(L_SHAPE, 3); }
  lemma JIsPiece() ensures IsPieceOf(J_SHAPE, 4) { ShapeIsPiece(J_SHAPE, 4); }
  lemma IIsPiece() ensures IsPieceOf(I_SHAPE, 5) { ShapeIsPiece(I_SHAPE, 5); }
  lemma SIsPiece() ensures IsPieceOf(S_SHAPE, 6) { ShapeIsPiece(S_SHAPE, 6); }
  lemma ZIsPiece() ensures IsPieceOf(Z_SHAPE, 7) { ShapeIsPiece(Z_SHAPE, 7); }

  /** A small square whose rows together hold `id` four times and otherwise zeros is a piece. */
  lemma ShapeIsPiece(m: Grid, id: int)
    requires 1 <= id <= 7 && 2 <= |m| <= 4 && IsSquare(m)
    requires forall r, c :: 0 <= r < |m| && 0 <= c < |m| ==> m[r][c] == 0 || m[r][c] == id
    requires RowCount(m, id) == 4
    ensures IsPieceOf(m, id)
  {
    CellsOfRows(m);
  }

  function RowCount(m: Grid, v: int): nat
    requires 2 <= |m| <= 4
  {
    multiset(m[0])[v] + multiset(m[1])[v] +
    (if |m| > 2 then multiset(m[2])[v] else 0) + (if |m| > 3 then multiset(m[3])[v] else 0)
  }

  /**
   * createPiece(type): the shape for a piece letter; any other letter gives
   * no shape (the source returns undefined).
   */
  function CreatePiece(t: char): (p: Option<Grid>)
    ensures p.Some? <==> t in PIECE_TYPES
    ensures p.Some? ==> IsPiece(p.value)
  {
    assert PIECE_TYPES == ['T', 'J', 'L', 'O', 'S', 'Z', 'I'];
    if t == 'T' then TIsPiece(); Some(T_SHAPE)
    else if t == 'O' then OIsPiece(); Some(O_SHAPE)
    else if t == 'L' then LIsPiece(); Some(L_SHAPE)
    else if t == 'J' then JIsPiece(); Some(J_SHAPE)
    else if t == 'I' then IIsPiece(); Some(I_SHAPE)
    else if t == 'S' then SIsPiece(); Some(S_SHAPE)
    else if t == 'Z' then ZIsPiece(); Some(Z_SHAPE)
    else None
  }

  /** createPiece(pieces[choice]), where `choice` stands for the random index into 'TJLOSZI'. */
  function PickPiece(choice: nat): (m: Grid)
    requires choice < |PIECE_TYPES|
    ensures IsPiece(m)
  {
    CreatePiece(PIECE_TYPES[choice]).value
  }
}
