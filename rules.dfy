/** The move rule of the service: a man of the side to move steps one row forward
    and one column sideways onto an empty cell. There are no captures, no kings'
    moves and no promotion. */
module Rules {
  import opened Board

  /** The two sides, named as the service names them: 'blanc' (white) and 'noir' (black). */
  datatype Color = Blanc | Noir

  /** The side that moves next. */
  function Other(c: Color): (o: Color)
    ensures o != c
  {
    if c == Blanc then Noir else Blanc
  }

  function Abs(x: int): nat {
    if x < 0 then -x else x
  }

  /** Whether `color` may move the piece at `from` to `to`: both cells on the board,
      the destination empty, and either a white man of 'blanc' going up one row
      (towards row 0) or a black man of 'noir' going down one row (towards row 7),
      in both cases one column to the left or to the right. */
  function IsValidMove(g: Grid, from: Pos, to: Pos, color: Color): bool
    requires IsGrid(g)
  {
    if !IsInside(from.row, from.col) || !IsInside(to.row, to.col) then false
    else
      var piece := At(g, from);
      if At(g, to) != Empty then false
      else if piece == WhiteMan && color == Blanc && from.row - to.row == 1 && Abs(to.col - from.col) == 1 then true
      else if piece == BlackMan && color == Noir && to.row - from.row == 1 && Abs(to.col - from.col) == 1 then true
      else false
  }

  /** The man that belongs to a side. */
  function ManOf(c: Color): Cell {
    if c == Blanc then WhiteMan else BlackMan
  }

  /** The row step of a forward move: white goes towards row 0, black towards row 7. */
  function Forward(c: Color): int {
    if c == Blanc then -1 else 1
  }

  /** The rule stated the same way for both sides: a legal move takes the mover's own
      man one row forward and one column sideways, onto an empty cell of the board. */
  lemma ValidMoveIff(g: Grid, from: Pos, to: Pos, color: Color)
    requires IsGrid(g)
    ensures IsValidMove(g, from, to, color) <==>
              && IsInside(from.row, from.col) && IsInside(to.row, to.col)
              && At(g, from) == ManOf(color)
              && At(g, to) == Empty
              && to.row == from.row + Forward(color)
              && (to.col == from.col - 1 || to.col == from.col + 1)
  {
  }

  /** What the rule refuses: an occupied destination whatever the distance or
      direction, an empty origin, a king, the other side's man, and every move that
      is not one row forward or not one column sideways (backward, straight,
      several squares). */
  lemma RefusedMoves(g: Grid, from: Pos, to: Pos, color: Color)
    requires IsGrid(g) && IsInside(from.row, from.col) && IsInside(to.row, to.col)
    ensures At(g, to) != Empty ==> !IsValidMove(g, from, to, color)
    ensures At(g, from) in {Empty, WhiteKing, BlackKing} ==> !IsValidMove(g, from, to, color)
    ensures At(g, from) == ManOf(Other(color)) ==> !IsValidMove(g, from, to, color)
    ensures to.row - from.row != Forward(color) ==> !IsValidMove(g, from, to, color)
    ensures Abs(to.col - from.col) != 1 ==> !IsValidMove(g, from, to, color)
  {
    ValidMoveIff(g, from, to, color);
  }

  /** The update of an accepted move, in the order the service performs it: the piece
      at `from` is written to `to`, then `from` is emptied. */
  function ApplyMove(g: Grid, from: Pos, to: Pos): (r: Grid)
    requires IsGrid(g) && IsInside(from.row, from.col) && IsInside(to.row, to.col)
    ensures IsGrid(r)
  {
    Put(Put(g, to, At(g, from)), from, Empty)
  }

  /** After a legal move the destination holds the moved piece, the origin is empty
      and every other cell is as it was. */
  lemma ApplyMoveCells(g: Grid, from: Pos, to: Pos, color: Color)
    requires IsGrid(g) && IsValidMove(g, from, to, color)
    ensures At(ApplyMove(g, from, to), to) == At(g, from)
    ensures At(ApplyMove(g, from, to), from) == Empty
    ensures forall i, j :: 0 <= i < Size && 0 <= j < Size && (i, j) != (from.row, from.col) && (i, j) != (to.row, to.col) ==>
              ApplyMove(g, from, to)[i][j] == g[i][j]
  {
    assert from != to;
  }

  lemma ReplaceAndRestore(m: multiset<Cell>, a: Cell, b: Cell)
    requires a in m
    ensures m - multiset{a} + multiset{b} - multiset{b} + multiset{a} == m
  {
    var m1 := m - multiset{a} + multiset{b};
    assert m1 - multiset{b} == m - multiset{a};
  }

  /** A legal move only relocates a piece: the board holds the same number of pieces
      of every kind before and after. */
  lemma ApplyMovePieces(g: Grid, from: Pos, to: Pos, color: Color)
    requires IsGrid(g) && IsValidMove(g, from, to, color)
    ensures Pieces(ApplyMove(g, from, to)) == Pieces(g)
  {
    var piece := At(g, from);
    var h := Put(g, to, piece);
    assert from != to;
    assert At(h, from) == piece;
    PiecesPut(g, to, piece);
    PiecesPut(h, from, Empty);
    CellInPieces(g, to.row, to.col);
    ReplaceAndRestore(Pieces(g), Empty, piece);
  }

  /** On the starting board, white's e3-d4 (row 5, column 4 to row 4, column 3) is
      legal; e3-e5 (two rows, straight) is not, and black may not move white's man. */
  lemma OpeningExamples()
    ensures IsGrid(InitialGrid())
    ensures IsValidMove(InitialGrid(), Pos(5, 4), Pos(4, 3), Blanc)
    ensures !IsValidMove(InitialGrid(), Pos(5, 4), Pos(3, 4), Blanc)
    ensures !IsValidMove(InitialGrid(), Pos(5, 4), Pos(4, 3), Noir)
  {
    InitialGridCells();
  }
}
