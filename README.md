# Checkers service: board, move notation, move rule and move handler

The service in `index.js` keeps draughts games in memory and plays them through
HTTP requests. This project models the part of it that decides things:

- **Board** (`board.dfy`) holds the five cell states, with the two kings declared but
  never placed. It has:
  - the 8x8 board, both as an `array2<Cell>` and as a value (`Grid`);
  - the construction of the starting position by nested loops (`CreateBoard`);
  - the count of the cells of each kind (`Pieces`);
  - the text rendering, built by appending to a string (`Render`, specified by
    `Display`).
- **Notation** (`notation.dfy`) reads move text such as `e3 d4` into two board
  coordinates. The grammar of the anchored, case-insensitive pattern is written out
  over characters (`ParseMove`), and `\s` is the ECMAScript whitespace class.
- **Rules** (`rules.dfy`) holds the two sides, the bounds check, the move rule
  (`IsValidMove`) and the board update of an accepted move (`ApplyMove`).
- **Server** (`server.dfy`) holds the games and counters the service keeps:
  - the value-level handler `Decide`/`Next`, which makes the four checks in their
    order and then gives the next state;
  - `Game`, a class whose board array and turn are updated in place;
  - `Registry`, the map from game id to game, with its create and move handlers;
  - `PlayerStats`, the map from player id to win/loss counters, with lookup and reset.

The methods that change state are proved against the value-level functions. The
properties are lemmas about those functions:

- the starting position and its 12 + 12 men;
- the exact grammar of move text, and its round trip with square names;
- the rule table in both directions;
- the update of a move: only two cells change, and the pieces are kept;
- the order of the checks;
- the text layout, and that the text determines the board;
- the pieces and the in-progress flag of every reachable game.

Two behaviours of the code are worth stating on their own:

- **Move separator.** The pattern is `\s+`, so the squares may be separated by one
  or more whitespace characters, and `e3  d4` (two spaces) is accepted
  (`Notation.ParseExamples`).
- **Stats lookup.** Reading the counters of an unknown player gives zero wins and
  zero losses and stores nothing (`index.js:123`).

Text is counted in code points: each `char` of a Dafny string is one Unicode scalar
value, and each cell glyph of the service is a single code point. JavaScript's own
string length counts UTF-16 code units, in which three of the glyphs take two units,
so the lengths and offsets stated here are code-point lengths and offsets.

## Model

| member | source | states |
|---|---|---|
| Board.CreateBoard | index.js:32-39 | the new array is fresh and 8x8. Cell (i, j) is a black man when i < 3 and i + j is odd, a white man when 5 <= i < 8 and i + j is odd, and empty otherwise; so rows 3 and 4 are all empty |
| Board.InitialGridCells | index.js:32-39 | the value of the starting position is an 8x8 grid whose cells are those of InitialCell |
| Board.InitialPieces | index.js:32-39 | the starting position holds 12 black men, 12 white men, 40 empty cells and no king |
| Board.InitialRowCounted | index.js:35-37 | starting row i holds four men of its side on its dark squares and empty cells elsewhere; rows 3 and 4 hold eight empty cells |
| Board.InitialRowsCounted | index.js:34-37 | the cells of each kind in the first n starting rows add up row by row |
| Board.AlternatingCount | index.js:35 | proof step for InitialRowCounted: a row with a piece on every other cell holds four of that piece and four empty cells |
| Board.Put | index.js:112-113 | writing a cell sets that cell and leaves every other cell of the board as it was |
| Board.GridsEqual | index.js:32-33 | proof step: two 8x8 boards that agree on every cell are equal; used by DisplayInjective, Game.constructor and Game.Apply to equate an array's value with a grid |
| Board.PiecesPut | index.js:112-113 | writing one cell takes its old content out of the piece count and adds the new one |
| Board.PiecesUpdate | index.js:112-113 | the same as PiecesPut, for any sequence of rows |
| Board.MultisetUpdate | index.js:112 | proof step for PiecesUpdate: replacing one element of a row changes the row's count by that element only |
| Board.CellInPieces | index.js:111 | proof step for PiecesUpdate and ApplyMovePieces: every cell of a board is in its count, so a move's origin piece is there to be moved |
| Board.Render | index.js:41-49 | the string the nested loops build is exactly Display of the array's contents |
| Board.RowTextLayout | index.js:45 | a row's text is twice the row's length (16 for a board row): each cell's symbol followed by a space |
| Board.RankLineLayout | index.js:44-46 | a rank line is 19 characters: the rank label 8 - i, a space, the eight symbol/space pairs, and one line break, at the end only |
| Board.RankLinesLayout | index.js:43-47 | the text of the first n rows is n rank lines of 19 characters, in row order |
| Board.DisplayLayout | index.js:41-49 | the text is 170 code points. It opens with the single-line file header, then has exactly 8 rank lines, row i at offset 18 + 19i, labelled 8 down to 1 and listing the cell symbols in column order |
| Board.DisplayInjective | index.js:41-49 | two boards with the same text are the same board, so the text loses nothing |
| Notation.SkipWhitespace | index.js:52 | the `\s+` run that starts at i ends at the first character that is not whitespace, or at the end of the text |
| Notation.ParseMoveSpec | index.js:51-56 | the parse succeeds exactly on text of at least five characters that is a file and a rank, whitespace only, then a file and a rank at the end. On success it gives (8 - digit, letter - 'a') for both squares; on any other text it gives None |
| Notation.ParsedInside | index.js:55-61 | both coordinates of a parsed move lie inside the board |
| Notation.LowerChar | index.js:52-56 | lower-casing keeps a character's class (whitespace, file, rank) and is idempotent |
| Notation.ParseIgnoresCase | index.js:52-56 | a text and its lower-cased spelling parse to the same result |
| Notation.SquareName | index.js:55 | the name of a square is a file letter in the chosen case and a rank digit, and it reads back as that square |
| Notation.SquareNameRoundTrip | index.js:55 | every square read from two characters is on the board, and naming it again gives those two characters back |
| Notation.ParseMoveText | index.js:51-56 | two square names around any non-empty whitespace run parse to the move between those squares |
| Notation.ParsedMoveText | index.js:51-56 | a text that parses is exactly the two square names, in the case they were written, around a whitespace run |
| Notation.ParseExamples | index.js:51-56 | `e3 d4`, `E3 D4`, `e3  d4` and `e3 e5` parse to the expected coordinates; `e3-d4`, `i3 d4`, `e9 d4`, `e3d4`, and text with a leading or trailing space are refused |
| Rules.Other | index.js:114 | the turn flip always gives the other side |
| Rules.ValidMoveIff | index.js:63-76 | a move is legal exactly when both squares are inside, the origin holds the mover's man, the destination is empty, the row advances one step forward for that side (white towards row 0, black towards row 7), and the column changes by one |
| Rules.RefusedMoves | index.js:63-76 | an occupied destination, whatever the distance or direction, makes a move illegal. So do an empty origin, a king, the other side's man, a row change that is not one step forward, and a column change other than one |
| Rules.OpeningExamples | index.js:63-76 | on the starting board white's e3-d4 is legal; e3-e5 is not, and black may not move white's man |
| Rules.ApplyMoveCells | index.js:111-113 | after a legal move the destination holds the origin's former piece, the origin is empty, and every other cell is unchanged |
| Rules.ApplyMovePieces | index.js:111-113 | a legal move keeps the number of pieces of every kind |
| Rules.ApplyMove | index.js:111-113 | the updated board is again an 8x8 board |
| Rules.ReplaceAndRestore | index.js:111-113 | proof step for ApplyMovePieces: taking a piece out of the count and putting it back restores the count |
| Server.CheckOrder | index.js:98-109 | the checks come in a fixed order. A missing or finished game is refused whoever asks and whatever the text. A player other than the side to move is refused whatever the text. Unreadable text is refused before the board is looked at. Readable text naming a move the rule forbids is refused as illegal. An accepted move was read from the text, satisfies IsValidMove for the side to move, and was asked for by that side's player |
| Server.AcceptedMove | index.js:111-114 | an accepted move flips the turn, keeps the players and the in-progress flag, and keeps the pieces of every kind |
| Server.Run | index.js:96-114 | a game after a series of move requests is still an 8x8 board |
| Server.RunKeeps | index.js:96-114 | any series of requests keeps a game's players, its in-progress flag and its pieces |
| Server.ReachableGames | index.js:82-87 | every game reached from a new one is in progress and holds 12 white men, 12 black men and no king |
| Server.Game.constructor | index.js:82-87 | a new game record has a fresh starting board, player 1 as white and player 2 as black, white to move, and is in progress |
| Server.Game.Apply | index.js:111-114 | the in-place update of a legal move changes the board array and the turn to exactly Next of the old state, keeps the same array, and keeps the piece count |
| Server.Game.Play | index.js:98-117 | the handler on a stored game makes the checks in order. A refused request is answered with the reason of the first failed check and changes nothing. An accepted one leaves the game in Next of the old state and answers with the text of the new board |
| Server.Registry.constructor | index.js:26 | the service starts with no game |
| Server.Registry.Create | index.js:79-88 | the id now holds a new game, whose record and board are newly allocated and whose value is NewGameState; every other id keeps the same game record and the same value |
| Server.Registry.Move | index.js:93-117 | a missing id is refused first; otherwise the reply and the new state are those of Decide and Next on the stored game, which keeps its board array; every other game is unchanged |
| Server.OpeningDecisions | index.js:98-114 | for a new game of alice (white) and bob, alice's e3 d4 is accepted as the move from (5, 4) to (4, 3), and her second e3 d4 is then refused as out of turn |
| Server.Session | index.js:79-117 | a client that creates a game, sends a move for an unknown id, then two moves of the same player gets NotFound, the exact text of the board after e3-d4, and NotYourTurn |
| Server.CreateThenMove | index.js:79-117 | creating a game leaves the games already stored in place: a move sent to an older game after another is created is decided and applied exactly as Registry.Move promises, and the new id holds a new game |
| Server.Registry.Find | index.js:96 | a stored game's value has an 8x8 board |
| Server.PlayerStats.constructor | index.js:27 | the service starts with no counters |
| Server.PlayerStats.Get | index.js:123 | a known player's counters are the stored ones; an unknown player's counters are zero wins and zero losses, and nothing is stored |
| Server.PlayerStats.Reset | index.js:130 | the player's entry becomes zero wins and zero losses, created if missing; every other entry is unchanged |

## Left out

- HTTP transport is not modelled: the Express setup, routes, request parsing, status
  codes, response messages and `app.listen`. A refusal is returned as a `Refusal`
  value, and an accepted move as the rendered board.
- Persistence to JSON files is not modelled: `loadFromFile`, `saveToFile` and the save
  directory are file I/O. The game and counter stores start empty.
- Game ids are not generated from player names and `Date.now()`, because that depends
  on the clock. The id is a parameter of `Server.Registry.Create`, which replaces any
  game stored under that id.
- There is no regular-expression engine. The grammar of the pattern is written out
  directly over characters.
- The emoji cell glyphs are not modelled. Each cell state is shown by a distinct
  letter. Since each glyph is one code point, the layout in code points does not
  depend on which glyph is used; JavaScript's UTF-16 length and indices are not
  modelled.
- Request bodies that are not strings are not modelled, and neither are ids that name
  inherited JavaScript object properties. Move text, player names and ids are strings,
  and the maps hold only what was stored.
- Concurrent requests are not modelled: the handlers run one at a time.
- The game-view and game-list routes (`index.js:136-152`) are not modelled. They only
  read and reformat state.
- Win/loss increments, win detection, captures and king promotion are not modelled,
  because the code has none. The kings are cell states that no operation produces
  (`Server.ReachableGames`).
