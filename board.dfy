/** The draughts board of the checkers service: the five cell states, the 8x8 grid,
    the starting position, the count of pieces on a board and the text rendering. */
module Board {

  /** The five cell states. The two kings are reserved symbols: no operation of the
      service ever places one on a board. */
  datatype Cell = Empty | WhiteMan | BlackMan | WhiteKing | BlackKing

  /** Number of rows and of columns. */
  const Size: nat := 8

  /** A board as a value: row 0 is black's side, row 7 white's side, column 0 is file 'a'. */
  type Grid = seq<seq<Cell>>

  predicate IsGrid(g: Grid) {
    |g| == Size && forall i :: 0 <= i < |g| ==> |g[i]| == Size
  }

  /** A board coordinate; the components are unbounded so that the bounds check means something. */
  datatype Pos = Pos(row: int, col: int)

  /** The bounds check applied to both ends of a move. */
  predicate IsInside(x: int, y: int) {
    x >= 0 && x < Size && y >= 0 && y < Size
  }

  function At(g: Grid, p: Pos): Cell
    requires IsGrid(g) && IsInside(p.row, p.col)
  {
    g[p.row][p.col]
  }

  /** The board `g` with cell `p` replaced by `v`. */
  function Put(g: Grid, p: Pos, v: Cell): (r: Grid)
    requires IsGrid(g) && IsInside(p.row, p.col)
    ensures IsGrid(r) && At(r, p) == v
    ensures forall i, j :: 0 <= i < Size && 0 <= j < Size && (i, j) != (p.row, p.col) ==> r[i][j] == g[i][j]
  {
    g[p.row := g[p.row][p.col := v]]
  }

  /** Two boards are equal when they agree on every cell. */
  lemma GridsEqual(g: Grid, h: Grid)
    requires IsGrid(g) && IsGrid(h)
    requires forall i, j :: 0 <= i < Size && 0 <= j < Size ==> g[i][j] == h[i][j]
    ensures g == h
  {
    forall i | 0 <= i < Size ensures g[i] == h[i] {
      assert forall j :: 0 <= j < Size ==> g[i][j] == h[i][j];
    }
  }

  // ---------------------------------------------------------------------------
  // The starting position

  /** The starting content of cell (i, j): black men on the dark squares ((i + j) odd)
      of rows 0 to 2, white men on the dark squares of rows 5 to 7, every other cell empty. */
  function InitialCell(i: nat, j: nat): Cell {
    if i < 3 && (i + j) % 2 == 1 then BlackMan
    else if 5 <= i < Size && (i + j) % 2 == 1 then WhiteMan
    else Empty
  }

  function InitialRow(i: nat): seq<Cell> {
    seq(Size, j requires 0 <= j < Size => InitialCell(i, j))
  }

  /** The first n rows of the starting position. */
  function InitialRows(n: nat): seq<seq<Cell>> {
    seq(n, i requires 0 <= i < n => InitialRow(i))
  }

  function InitialGrid(): Grid {
    InitialRows(Size)
  }

  /** The starting grid is a board, and its cells are those of InitialCell. */
  lemma InitialGridCells()
    ensures IsGrid(InitialGrid())
    ensures forall i, j :: 0 <= i < Size && 0 <= j < Size ==> InitialGrid()[i][j] == InitialCell(i, j)
  {
  }

  /** Builds the starting position in a fresh 8x8 array: every cell empty, then the
      two nested loops that place the black men and the white men. */
  method CreateBoard() returns (board: array2<Cell>)
    ensures fresh(board)
    ensures board.Length0 == Size && board.Length1 == Size
    ensures forall i, j :: 0 <= i < Size && 0 <= j < Size ==> board[i, j] == InitialCell(i, j)
  {
    board := new Cell[Size, Size]((i, j) => Empty);
    for i := 0 to 3
      invariant forall r, c :: 0 <= r < i && 0 <= c < Size ==> board[r, c] == InitialCell(r, c)
      invariant forall r, c :: i <= r < Size && 0 <= c < Size ==> board[r, c] == Empty
    {
      for j := 0 to Size
        invariant forall r, c :: 0 <= r < i && 0 <= c < Size ==> board[r, c] == InitialCell(r, c)
        invariant forall c :: 0 <= c < j ==> board[i, c] == InitialCell(i, c)
        invariant forall c :: j <= c < Size ==> board[i, c] == Empty
        invariant forall r, c :: i < r < Size && 0 <= c < Size ==> board[r, c] == Empty
      {
        if (i + j) % 2 == 1 {
          board[i, j] := BlackMan;
        }
      }
    }
    for i := 5 to Size
      invariant forall r, c :: 0 <= r < i && 0 <= c < Size ==> board[r, c] == InitialCell(r, c)
      invariant forall r, c :: i <= r < Size && 0 <= c < Size ==> board[r, c] == Empty
    {
      for j := 0 to Size
        invariant forall r, c :: 0 <= r < i && 0 <= c < Size ==> board[r, c] == InitialCell(r, c)
        invariant forall c :: 0 <= c < j ==> board[i, c] == InitialCell(i, c)
        invariant forall c :: j <= c < Size ==> board[i, c] == Empty
        invariant forall r, c :: i < r < Size && 0 <= c < Size ==> board[r, c] == Empty
      {
        if (i + j) % 2 == 1 {
          board[i, j] := WhiteMan;
        }
      }
    }
  }

  /** The value of an 8x8 array, row by row. */
  function Snapshot(board: array2<Cell>): (g: Grid)
    requires board.Length0 == Size && board.Length1 == Size
    reads board
    ensures IsGrid(g)
    ensures forall i, j :: 0 <= i < Size && 0 <= j < Size ==> g[i][j] == board[i, j]
  {
    seq(Size, i requires 0 <= i < Size reads board =>
      seq(Size, j requires 0 <= j < Size reads board => board[i, j]))
  }

  // ---------------------------------------------------------------------------
  // Pieces on a board

  /** The multiset of all cells of a board (empty cells included). */
  function Pieces(g: seq<seq<Cell>>): multiset<Cell> {
    if |g| == 0 then multiset{} else Pieces(g[..|g| - 1]) + multiset(g[|g| - 1])
  }

  lemma MultisetUpdate(s: seq<Cell>, k: nat, v: Cell)
    requires k < |s|
    ensures multiset(s[k := v]) == multiset(s) - multiset{s[k]} + multiset{v}
  {
    assert s == s[..k] + [s[k]] + s[k + 1..];
    assert s[k := v] == s[..k] + [v] + s[k + 1..];
  }

  lemma {:induction false} PiecesUpdate(g: seq<seq<Cell>>, r: nat, c: nat, v: Cell)
    requires r < |g| && c < |g[r]|
    ensures Pieces(g[r := g[r][c := v]]) == Pieces(g) - multiset{g[r][c]} + multiset{v}
    decreases |g|
  {
    var h := g[r := g[r][c := v]];
    var n := |g| - 1;
    assert h[..n] == if r == n then g[..n] else g[..n][r := g[r][c := v]];
    if r == n {
      MultisetUpdate(g[n], c, v);
    } else {
      PiecesUpdate(g[..n], r, c, v);
      CellInPieces(g[..n], r, c);
    }
  }

  /** Replacing one cell takes that cell's old content out of the count and puts the new one in. */
  lemma PiecesPut(g: Grid, p: Pos, v: Cell)
    requires IsGrid(g) && IsInside(p.row, p.col)
    ensures Pieces(Put(g, p, v)) == Pieces(g) - multiset{At(g, p)} + multiset{v}
  {
    PiecesUpdate(g, p.row, p.col, v);
  }

  /** Every cell of a board is in its count. */
  lemma {:induction false} CellInPieces(g: seq<seq<Cell>>, r: nat, c: nat)
    requires r < |g| && c < |g[r]|
    ensures g[r][c] in Pieces(g)
    decreases |g|
  {
    var n := |g| - 1;
    if r < n {
      CellInPieces(g[..n], r, c);
    }
  }

  /** How many cells of starting row i hold c: four men on the dark squares of
      rows 0 to 2 and 5 to 7, empty cells elsewhere. */
  function InitialRowCount(i: nat, c: Cell): nat {
    if c == Empty then (if i == 3 || i == 4 then 8 else 4)
    else if c == BlackMan then (if i < 3 then 4 else 0)
    else if c == WhiteMan then (if 5 <= i then 4 else 0)
    else 0
  }

  /** A row with x on alternate cells, starting with a cell holding x or with an empty one. */
  function Alternating(x: Cell, xFirst: bool): seq<Cell> {
    seq(Size, j requires 0 <= j < Size => if (j % 2 == 0) == xFirst then x else Empty)
  }

  lemma AlternatingCells(x: Cell, xFirst: bool)
    ensures Alternating(x, xFirst) ==
              if xFirst then [x, Empty, x, Empty, x, Empty, x, Empty]
              else [Empty, x, Empty, x, Empty, x, Empty, x]
  {
  }

  lemma PatternCount(x: Cell, c: Cell)
    ensures multiset([x, Empty, x, Empty, x, Empty, x, Empty])[c] == (if c == Empty then 4 else 0) + (if c == x then 4 else 0)
    ensures multiset([Empty, x, Empty, x, Empty, x, Empty, x])[c] == (if c == Empty then 4 else 0) + (if c == x then 4 else 0)
  {
  }

  lemma AlternatingCount(x: Cell, xFirst: bool, c: Cell)
    ensures multiset(Alternating(x, xFirst))[c] == (if c == Empty then 4 else 0) + (if c == x then 4 else 0)
  {
    AlternatingCells(x, xFirst);
    PatternCount(x, c);
  }

  lemma InitialRowCounted(i: nat, c: Cell)
    requires i < Size
    ensures multiset(InitialRow(i))[c] == InitialRowCount(i, c)
  {
    var x := if i < 3 then BlackMan else if i < 5 then Empty else WhiteMan;
    var xFirst := i % 2 == 1;
    forall j | 0 <= j < Size ensures InitialRow(i)[j] == Alternating(x, xFirst)[j] {
      assert ((i + j) % 2 == 1) == ((j % 2 == 0) == xFirst);
    }
    assert InitialRow(i) == Alternating(x, xFirst);
    AlternatingCount(x, xFirst, c);
  }

  /** How many cells of the first n starting rows hold c. */
  function InitialRowsCount(n: nat, c: Cell): nat {
    if n == 0 then 0 else InitialRowsCount(n - 1, c) + InitialRowCount(n - 1, c)
  }

  lemma {:induction false} InitialRowsCounted(n: nat, c: Cell)
    requires n <= Size
    ensures Pieces(InitialRows(n))[c] == InitialRowsCount(n, c)
  {
    if n > 0 {
      var g := InitialRows(n);
      assert g[..n - 1] == InitialRows(n - 1);
      assert g[n - 1] == InitialRow(n - 1);
      assert Pieces(g) == Pieces(InitialRows(n - 1)) + multiset(InitialRow(n - 1));
      InitialRowsCounted(n - 1, c);
      InitialRowCounted(n - 1, c);
    }
  }

  /** The 64 cells of the starting position: 12 black men, 12 white men, 40 empty cells, no king. */
  lemma InitialPieces()
    ensures Pieces(InitialGrid())[BlackMan] == 12
    ensures Pieces(InitialGrid())[WhiteMan] == 12
    ensures Pieces(InitialGrid())[Empty] == 40
    ensures Pieces(InitialGrid())[WhiteKing] == 0 && Pieces(InitialGrid())[BlackKing] == 0
  {
    InitialRowsCounted(Size, BlackMan);
    InitialRowsCounted(Size, WhiteMan);
    InitialRowsCounted(Size, Empty);
    InitialRowsCounted(Size, WhiteKing);
    InitialRowsCounted(Size, BlackKing);
  }

  // ---------------------------------------------------------------------------
  // Rendering

  /** The symbol of each cell. The service prints coloured glyphs; only their
      distinctness matters here, so each state gets a distinct letter. */
  function Symbol(c: Cell): char {
    match c
    case Empty => '.'
    case WhiteMan => 'w'
    case BlackMan => 'b'
    case WhiteKing => 'W'
    case BlackKing => 'B'
  }

  const Header: string := "  a b c d e f g h\n"

  /** The rank label of row i: the digit of 8 - i. */
  function RankLabel(i: nat): char
    requires i < Size
  {
    ('0' as int + (Size - i)) as char
  }

  /** Each cell's symbol followed by a space. */
  function RowText(row: seq<Cell>): string {
    if |row| == 0 then "" else RowText(row[..|row| - 1]) + [Symbol(row[|row| - 1]), ' ']
  }

  /** The line of row i: its rank label, a space, the cells, a line break. */
  function RankLine(g: Grid, i: nat): string
    requires IsGrid(g) && i < Size
  {
    [RankLabel(i), ' '] + RowText(g[i]) + "\n"
  }

  /** The lines of the first n rows. */
  function RankLines(g: Grid, n: nat): string
    requires IsGrid(g) && n <= Size
  {
    if n == 0 then "" else RankLines(g, n - 1) + RankLine(g, n - 1)
  }

  /** The text of a board: the file header, then rows 0 to 7, labelled 8 down to 1. */
  function Display(g: Grid): string
    requires IsGrid(g)
  {
    Header + RankLines(g, Size)
  }

  /** Renders an 8x8 array by appending to a string, row by row and cell by cell. */
  method Render(board: array2<Cell>) returns (s: string)
    requires board.Length0 == Size && board.Length1 == Size
    ensures s == Display(Snapshot(board))
  {
    ghost var g := Snapshot(board);
    s := Header;
    for i := 0 to Size
      invariant s == Header + RankLines(g, i)
    {
      s := s + [RankLabel(i), ' '];
      for j := 0 to Size
        invariant s == Header + RankLines(g, i) + [RankLabel(i), ' '] + RowText(g[i][..j])
      {
        assert g[i][..j + 1][..j] == g[i][..j];
        s := s + [Symbol(board[i, j]), ' '];
      }
      assert g[i][..Size] == g[i];
      s := s + "\n";
    }
  }

  lemma {:induction false} RowTextLayout(row: seq<Cell>)
    ensures |RowText(row)| == 2 * |row|
    ensures forall j :: 0 <= j < |row| ==> RowText(row)[2 * j] == Symbol(row[j]) && RowText(row)[2 * j + 1] == ' '
  {
    if |row| > 0 {
      RowTextLayout(row[..|row| - 1]);
    }
  }

  /** A rank line is 19 characters: label, space, eight symbol-space pairs, one line break at the end. */
  lemma RankLineLayout(g: Grid, i: nat)
    requires IsGrid(g) && i < Size
    ensures |RankLine(g, i)| == 19
    ensures RankLine(g, i)[0] == RankLabel(i) && RankLine(g, i)[1] == ' '
    ensures forall j :: 0 <= j < Size ==> RankLine(g, i)[2 + 2 * j] == Symbol(g[i][j]) && RankLine(g, i)[3 + 2 * j] == ' '
    ensures forall k :: 0 <= k < 19 ==> (RankLine(g, i)[k] == '\n' <==> k == 18)
  {
    RowTextLayout(g[i]);
    var line := RankLine(g, i);
    forall k | 0 <= k < 18 ensures line[k] != '\n' {
      if k >= 2 {
        var j := (k - 2) / 2;
        assert k == 2 + 2 * j || k == 3 + 2 * j;
      }
    }
  }

  lemma {:induction false} RankLinesLayout(g: Grid, n: nat)
    requires IsGrid(g) && n <= Size
    ensures |RankLines(g, n)| == 19 * n
    ensures forall i :: 0 <= i < n ==> RankLines(g, n)[19 * i .. 19 * i + 19] == RankLine(g, i)
  {
    if n > 0 {
      RankLinesLayout(g, n - 1);
      RankLineLayout(g, n - 1);
    }
  }

  /** The text of a board is 170 characters: the 18-character header line, then for each
      row i the 19-character line of RankLine (see RankLineLayout) at offset 18 + 19 * i,
      which starts with the label 8 - i and holds the symbol of cell (i, j) at 2 + 2 * j. */
  lemma DisplayLayout(g: Grid)
    requires IsGrid(g)
    ensures |Display(g)| == 18 + 19 * Size
    ensures Display(g)[..18] == Header
    ensures forall k :: 0 <= k < 18 ==> (Header[k] == '\n' <==> k == 17)
    ensures forall i :: 0 <= i < Size ==> Display(g)[18 + 19 * i .. 18 + 19 * i + 19] == RankLine(g, i)
    ensures forall i :: 0 <= i < Size ==> Display(g)[18 + 19 * i] == RankLabel(i)
    ensures forall i, j :: 0 <= i < Size && 0 <= j < Size ==> Display(g)[18 + 19 * i + 2 + 2 * j] == Symbol(g[i][j])
  {
    RankLinesLayout(g, Size);
    var d := Display(g);
    forall i | 0 <= i < Size
      ensures d[18 + 19 * i .. 18 + 19 * i + 19] == RankLine(g, i)
      ensures d[18 + 19 * i] == RankLabel(i)
      ensures forall j :: 0 <= j < Size ==> d[18 + 19 * i + 2 + 2 * j] == Symbol(g[i][j])
    {
      RankLineLayout(g, i);
      assert d[18 + 19 * i .. 18 + 19 * i + 19] == RankLines(g, Size)[19 * i .. 19 * i + 19];
      forall j | 0 <= j < Size ensures d[18 + 19 * i + 2 + 2 * j] == Symbol(g[i][j]) {
        assert d[18 + 19 * i + 2 + 2 * j] == RankLine(g, i)[2 + 2 * j];
      }
      assert d[18 + 19 * i] == RankLine(g, i)[0];
    }
  }

  /** The text determines the board: two boards with the same text are the same board. */
  lemma DisplayInjective(g: Grid, h: Grid)
    requires IsGrid(g) && IsGrid(h)
    requires Display(g) == Display(h)
    ensures g == h
  {
    DisplayLayout(g);
    DisplayLayout(h);
    forall i, j | 0 <= i < Size && 0 <= j < Size ensures g[i][j] == h[i][j] {
      assert Display(g)[18 + 19 * i + 2 + 2 * j] == Display(h)[18 + 19 * i + 2 + 2 * j];
    }
    GridsEqual(g, h);
  }
}
