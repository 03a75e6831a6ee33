/** The state the service keeps in memory and the request handlers that change it:
    creating a game, playing a move in a game, reading and resetting a player's
    win/loss counters. */
module Server {
  import opened Board
  import opened Notation
  import opened Rules

  /** The player registered for each side. */
  datatype Players = Players(blanc: string, noir: string) {
    function For(c: Color): string {
      if c == Blanc then blanc else noir
    }
  }

  /** One game as a value: its board, its players, the side to move and whether it
      is still being played. */
  datatype GameState = GameState(grid: Grid, players: Players, turn: Color, inProgress: bool)

  /** A new game: the starting board, player 1 with white, white to move, in progress. */
  function NewGameState(player1: string, player2: string): GameState {
    GameState(InitialGrid(), Players(player1, player2), Blanc, true)
  }

  /** Why a move request is refused: no such game or a finished one, a player who is
      not the one to move, unreadable move text, a move the rule forbids. */
  datatype Refusal = NotFound | NotYourTurn | BadFormat | IllegalMove

  /** The outcome of the checks on a move request. */
  datatype Verdict = Refused(why: Refusal) | Accepted(move: Move)

  /** The checks of a move request, in the order the handler makes them: the game
      exists and is in progress, the player is the one registered for the side to
      move, the text reads as a move, the rule allows the move. */
  function Decide(game: Option<GameState>, text: string, player: string): Verdict
    requires game.Some? ==> IsGrid(game.value.grid)
  {
    if game.None? || !game.value.inProgress then Refused(NotFound)
    else if game.value.players.For(game.value.turn) != player then Refused(NotYourTurn)
    else
      match ParseMove(text)
      case None => Refused(BadFormat)
      case Some(m) =>
        if IsValidMove(game.value.grid, m.from, m.to, game.value.turn) then Accepted(m)
        else Refused(IllegalMove)
  }

  /** The game after an accepted move: the move applied to the board, the turn passed on. */
  function Next(st: GameState, m: Move): GameState
    requires IsGrid(st.grid) && IsInside(m.from.row, m.from.col) && IsInside(m.to.row, m.to.col)
  {
    st.(grid := ApplyMove(st.grid, m.from, m.to), turn := Other(st.turn))
  }

  /** Each check decides before the next one is looked at: a missing or finished game
      is refused whoever asks and whatever the text; a player out of turn is refused
      whatever the text; unreadable text is refused before any look at the board; a
      move the rule forbids is refused last. An accepted move was read from the text
      and is legal for the side to move, whose registered player made the request. */
  lemma CheckOrder(game: Option<GameState>, text: string, player: string)
    requires game.Some? ==> IsGrid(game.value.grid)
    ensures game.None? || !game.value.inProgress ==> Decide(game, text, player) == Refused(NotFound)
    ensures game.Some? && game.value.inProgress && game.value.players.For(game.value.turn) != player ==>
              Decide(game, text, player) == Refused(NotYourTurn)
    ensures game.Some? && game.value.inProgress && game.value.players.For(game.value.turn) == player && ParseMove(text).None? ==>
              Decide(game, text, player) == Refused(BadFormat)
    ensures Decide(game, text, player).Accepted? ==>
              var m := Decide(game, text, player).move;
              && game.Some? && game.value.inProgress
              && game.value.players.For(game.value.turn) == player
              && ParseMove(text) == Some(m)
              && IsValidMove(game.value.grid, m.from, m.to, game.value.turn)
    ensures game.Some? && game.value.inProgress && game.value.players.For(game.value.turn) == player && ParseMove(text).Some? &&
            !IsValidMove(game.value.grid, ParseMove(text).value.from, ParseMove(text).value.to, game.value.turn) ==>
              Decide(game, text, player) == Refused(IllegalMove)
  {
  }

  /** An accepted move passes the turn to the other side, keeps the players and the
      in-progress flag, and keeps the number of pieces of every kind. */
  lemma AcceptedMove(st: GameState, text: string, player: string)
    requires IsGrid(st.grid)
    requires Decide(Some(st), text, player).Accepted?
    ensures var m := Decide(Some(st), text, player).move;
            && IsInside(m.from.row, m.from.col) && IsInside(m.to.row, m.to.col)
            && Next(st, m).turn == Other(st.turn)
            && Next(st, m).players == st.players && Next(st, m).inProgress == st.inProgress
            && Pieces(Next(st, m).grid) == Pieces(st.grid)
  {
    var m := Decide(Some(st), text, player).move;
    ApplyMovePieces(st.grid, m.from, m.to, st.turn);
  }

  /** A move request, as the handler receives it. */
  datatype Request = Request(text: string, player: string)

  /** A game after a series of move requests: refused ones leave it as it is, accepted
      ones move it on. */
  function Run(st: GameState, requests: seq<Request>): (r: GameState)
    requires IsGrid(st.grid)
    ensures IsGrid(r.grid)
    decreases |requests|
  {
    if |requests| == 0 then st
    else
      match Decide(Some(st), requests[0].text, requests[0].player)
      case Refused(_) => Run(st, requests[1..])
      case Accepted(m) => Run(Next(st, m), requests[1..])
  }

  /** Whatever requests come in, a game keeps its players, stays in progress once
      started, and keeps its pieces. */
  lemma {:induction false} RunKeeps(st: GameState, requests: seq<Request>)
    requires IsGrid(st.grid)
    ensures Run(st, requests).players == st.players
    ensures Run(st, requests).inProgress == st.inProgress
    ensures Pieces(Run(st, requests).grid) == Pieces(st.grid)
    decreases |requests|
  {
    if |requests| > 0 {
      var req := requests[0];
      match Decide(Some(st), req.text, req.player)
      case Refused(_) =>
        RunKeeps(st, requests[1..]);
      case Accepted(m) =>
        AcceptedMove(st, req.text, req.player);
        RunKeeps(Next(st, m), requests[1..]);
    }
  }

  /** Every game the service can reach from a new one is still in progress and holds
      its 12 white men and 12 black men and no king: nothing captures, nothing
      promotes, nothing ends a game. */
  lemma ReachableGames(player1: string, player2: string, requests: seq<Request>)
    ensures IsGrid(NewGameState(player1, player2).grid)
    ensures Run(NewGameState(player1, player2), requests).inProgress
    ensures Pieces(Run(NewGameState(player1, player2), requests).grid)[WhiteMan] == 12
    ensures Pieces(Run(NewGameState(player1, player2), requests).grid)[BlackMan] == 12
    ensures Pieces(Run(NewGameState(player1, player2), requests).grid)[WhiteKing] == 0
    ensures Pieces(Run(NewGameState(player1, player2), requests).grid)[BlackKing] == 0
  {
    InitialGridCells();
    InitialPieces();
    RunKeeps(NewGameState(player1, player2), requests);
  }

  /** The answer of the move handler: a refusal, or the text of the board after the move. */
  datatype Reply = Rejected(why: Refusal) | Played(board: string)

  /** A game the service keeps: its board array, updated in place by each move. */
  class Game {
    var board: array2<Cell>
    var players: Players
    var turn: Color
    var inProgress: bool

    /** The board is 8x8. */
    ghost predicate Valid()
      reads this
    {
      board.Length0 == Size && board.Length1 == Size
    }

    function State(): GameState
      requires board.Length0 == Size && board.Length1 == Size
      reads this, board
    {
      GameState(Snapshot(board), players, turn, inProgress)
    }

    /** The record of a new game, with player 1 as white. */
    constructor (player1: string, player2: string)
      ensures Valid() && fresh(board)
      ensures State() == NewGameState(player1, player2)
    {
      var b := CreateBoard();
      board := b;
      players := Players(player1, player2);
      turn := Blanc;
      inProgress := true;
      new;
      InitialGridCells();
      GridsEqual(Snapshot(board), InitialGrid());
    }

    /** Applies an accepted move in place: the piece at the origin is copied to the
        destination, the origin is emptied, the turn passes to the other side. */
    method Apply(m: Move)
      requires Valid() && IsValidMove(State().grid, m.from, m.to, turn)
      modifies this, board
      ensures Valid() && board == old(board)
      ensures State() == Next(old(State()), m)
      ensures Pieces(State().grid) == Pieces(old(State()).grid)
    {
      ghost var before := State();
      var piece := board[m.from.row, m.from.col];
      board[m.to.row, m.to.col] := piece;
      board[m.from.row, m.from.col] := Empty;
      turn := Other(turn);
      ApplyMoveCells(before.grid, m.from, m.to, before.turn);
      GridsEqual(Snapshot(board), ApplyMove(before.grid, m.from, m.to));
      ApplyMovePieces(before.grid, m.from, m.to, before.turn);
    }

    /** The move handler on a game that exists: the checks in their order, then the
        move applied in place. A refused request changes nothing. */
    method Play(text: string, player: string) returns (reply: Reply)
      requires Valid()
      modifies this, board
      ensures Valid() && board == old(board)
      ensures match Decide(Some(old(State())), text, player)
              case Refused(why) => reply == Rejected(why) && State() == old(State())
              case Accepted(m) =>
                && IsInside(m.from.row, m.from.col) && IsInside(m.to.row, m.to.col)
                && State() == Next(old(State()), m)
                && reply == Played(Display(State().grid))
    {
      if !inProgress {
        return Rejected(NotFound);
      }
      if players.For(turn) != player {
        return Rejected(NotYourTurn);
      }
      var parsed := ParseMove(text);
      if parsed.None? {
        return Rejected(BadFormat);
      }
      var m := parsed.value;
      var valid := IsValidMove(Snapshot(board), m.from, m.to, turn);
      if !valid {
        return Rejected(IllegalMove);
      }
      Apply(m);
      var shown := Render(board);
      reply := Played(shown);
    }
  }

  /** The games the service keeps, by game id. */
  class Registry {
    var games: map<string, Game>

    ghost function Boards(): set<array2<Cell>>
      reads this, games.Values
    {
      set g | g in games.Values :: g.board
    }

    /** Every game is valid, and no two ids share a game record or a board. */
    ghost predicate Valid()
      reads this, games.Values
    {
      && (forall id :: id in games ==> games[id].Valid())
      && (forall a, b :: a in games && b in games && a != b ==> games[a] != games[b] && games[a].board != games[b].board)
    }

    /** The game stored under an id, as a value. */
    ghost function Find(id: string): (r: Option<GameState>)
      requires Valid()
      reads this, games.Values, Boards()
      ensures r.Some? ==> IsGrid(r.value.grid)
    {
      if id in games then Some(games[id].State()) else None
    }

    /** The service starts with no game (what it loads from its save file is not modelled). */
    constructor ()
      ensures Valid() && games == map[]
    {
      games := map[];
    }

    /** Stores a new game under `id`, replacing any game stored there before. */
    method Create(id: string, player1: string, player2: string)
      requires Valid()
      modifies this
      ensures Valid()
      ensures games.Keys == old(games.Keys) + {id}
      ensures fresh(games[id]) && fresh(games[id].board)
      ensures forall k :: k in old(games) && k != id ==> games[k] == old(games[k])
      ensures Find(id) == Some(NewGameState(player1, player2))
      ensures forall k :: k != id ==> Find(k) == old(Find(k))
    {
      var g := new Game(player1, player2);
      games := games[id := g];
    }

    /** The move handler: a game id with no game is refused before anything else;
        a stored game answers the request as Game.Play does. No request changes
        another game. */
    method Move(id: string, text: string, player: string) returns (reply: Reply)
      requires Valid()
      modifies if id in games then {games[id] as object, games[id].board as object} else {}
      ensures Valid() && games == old(games)
      ensures id in games ==> games[id].board == old(games[id].board)
      ensures match Decide(old(Find(id)), text, player)
              case Refused(why) => reply == Rejected(why) && Find(id) == old(Find(id))
              case Accepted(m) =>
                && IsInside(m.from.row, m.from.col) && IsInside(m.to.row, m.to.col)
                && Find(id) == Some(Next(old(Find(id)).value, m))
                && reply == Played(Display(Find(id).value.grid))
      ensures forall k :: k != id ==> Find(k) == old(Find(k))
    {
      if id !in games {
        return Rejected(NotFound);
      }
      reply := games[id].Play(text, player);
    }
  }

  /** The decisions on the opening of a game between alice (white) and bob (black):
      white's e3-d4 is accepted, and white may not then play a second time. */
  lemma OpeningDecisions()
    ensures IsGrid(NewGameState("alice", "bob").grid)
    ensures Decide(Some(NewGameState("alice", "bob")), "e3 d4", "alice") == Accepted(Move(Pos(5, 4), Pos(4, 3)))
    ensures Decide(Some(Next(NewGameState("alice", "bob"), Move(Pos(5, 4), Pos(4, 3)))), "e3 d4", "alice") == Refused(NotYourTurn)
  {
    ParseExamples();
    OpeningExamples();
  }

  /** A session with the service: a game is created, a move sent for another game id
      is refused, alice plays e3-d4 and is answered with the new board, and her second
      move in a row is refused. */
  method Session() returns (missing: Reply, first: Reply, again: Reply)
    ensures missing == Rejected(NotFound)
    ensures first == Played(Display(Next(NewGameState("alice", "bob"), Move(Pos(5, 4), Pos(4, 3))).grid))
    ensures again == Rejected(NotYourTurn)
  {
    var registry := new Registry();
    registry.Create("g1", "alice", "bob");
    assert "g2"[1] != "g1"[1];
    missing := registry.Move("g2", "e3 d4", "bob");
    assert missing == Rejected(NotFound);
    OpeningDecisions();
    first := registry.Move("g1", "e3 d4", "alice");
    assert first == Played(Display(Next(NewGameState("alice", "bob"), Move(Pos(5, 4), Pos(4, 3))).grid));
    again := registry.Move("g1", "e3 d4", "alice");
  }

  /** Creating a game does not disturb the games already stored: a move sent to an
      older game after a new one is created is answered as it would have been before. */
  method CreateThenMove(registry: Registry, older: string, id: string, player1: string, player2: string,
                        text: string, player: string) returns (reply: Reply)
    requires registry.Valid() && older in registry.games && older != id
    modifies registry, registry.games[older], registry.games[older].board
    ensures registry.Valid()
    ensures match Decide(old(registry.Find(older)), text, player)
            case Refused(why) => reply == Rejected(why) && registry.Find(older) == old(registry.Find(older))
            case Accepted(m) =>
              && IsInside(m.from.row, m.from.col) && IsInside(m.to.row, m.to.col)
              && registry.Find(older) == Some(Next(old(registry.Find(older)).value, m))
              && reply == Played(Display(registry.Find(older).value.grid))
    ensures registry.Find(id) == Some(NewGameState(player1, player2))
  {
    registry.Create(id, player1, player2);
    reply := registry.Move(older, text, player);
  }

  /** A player's counters. */
  datatype Stats = Stats(wins: nat, losses: nat)

  const NoStats := Stats(0, 0)

  /** The win/loss counters the service keeps, by player id. */
  class PlayerStats {
    var stats: map<string, Stats>

    constructor ()
      ensures stats == map[]
    {
      stats := map[];
    }

    /** The counters of a player; a player never seen has zero wins and zero losses. */
    function Get(id: string): (s: Stats)
      reads this
      ensures id in stats ==> s == stats[id]
      ensures id !in stats ==> s == NoStats
    {
      if id in stats then stats[id] else NoStats
    }

    /** Sets a player's counters to zero, creating the entry when there is none. */
    method Reset(id: string)
      modifies this
      ensures stats == old(stats)[id := NoStats]
      ensures Get(id) == NoStats
      ensures forall k :: k != id ==> Get(k) == old(Get(k))
    {
      stats := stats[id := NoStats];
    }
  }
}
