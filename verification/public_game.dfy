/**
 * The deployed tic-tac-toe of public/assets/js/game.js. It plays like the
 * local copy (module LocalGame) but adds an online mode that forwards moves
 * and resets to the relay, mirrors the relay's broadcast state, and clears
 * the board automatically two seconds after a win or a draw. The class
 * declares `makeMove` and `resetGame` twice; the later declarations (lines
 * 691 and 750) are the ones in force and the ones modelled. The multiplayer
 * manager's `isMyTurn()` answer is an input.
 */
module PublicGame {
  import opened Util
  import opened TicTacToe
  import LocalGame
  import Relay

  /** `gameMode`: 'human', 'ai' or 'multiplayer'. */
  datatype Mode = Human | AI | Multiplayer

  /** The global `multiplayerManager`: absent, or present together with what its `isMyTurn()` answers now. */
  datatype Link = NoLink | Linked(myTurn: bool)

  datatype State = State(game: LocalGame.Game, mode: Mode)

  /** `this.gameMode === 'multiplayer' && multiplayerManager`. */
  predicate Delegates(s: State, link: Link) {
    s.mode == Multiplayer && link.Linked?
  }

  /**
   * The effective `makeMove` (line 691). The second component is the index
   * sent to the relay, if any. In online mode the local board never changes.
   */
  function MakeMove(s: State, index: int, link: Link): (res: (State, Option<int>))
    ensures !LocalGame.CanPlay(s.game, index) ==> res == (s, None)
    ensures Delegates(s, link) ==> res.0 == s
    ensures Delegates(s, link) ==> (res.1 == Some(index) <==> LocalGame.CanPlay(s.game, index) && link.myTurn)
    ensures res.1.Some? ==> Delegates(s, link) && res.1.value == index
    ensures !Delegates(s, link) ==> res.1 == None && res.0.mode == s.mode
  {
    if !LocalGame.CanPlay(s.game, index) then (s, None)
    else if Delegates(s, link) then (s, if link.myTurn then Some(index) else None)
    else (s.(game := LocalGame.Play(s.game, index)), None)
  }

  /** Offline, the effective `makeMove` plays exactly as the local copy's `makeMove` does. */
  lemma OfflineMoveMatchesLocalCopy(s: State, index: int, link: Link)
    requires !Delegates(s, link)
    ensures MakeMove(s, index, link).0.game == LocalGame.MakeMove(s.game, index)
  {
  }

  /**
   * The timer body that `handleWin` and `handleDraw` arm: a fresh round with
   * X to move, keeping the scores. It does not consult the mode, so it also
   * clears the board of an online game locally.
   */
  function AutoReset(s: State): (r: State)
    ensures r.mode == s.mode
    ensures r.game.board == EmptyBoard && r.game.currentPlayer == X && r.game.gameActive
    ensures r.game.moveCount == 0 && r.game.history == []
    ensures r.game.scores == s.game.scores
    ensures LocalGame.Consistent(r.game)
  {
    s.(game := LocalGame.ResetGame(s.game))
  }

  /** The effective `resetGame` (line 750); the flag says whether the reset went to the relay instead. */
  function ResetGame(s: State, link: Link): (res: (State, bool))
    ensures res.1 <==> Delegates(s, link)
    ensures Delegates(s, link) ==> res.0 == s
    ensures !Delegates(s, link) ==>
      && res.0.game.board == EmptyBoard && res.0.game.currentPlayer == X && res.0.game.gameActive
      && res.0.game.moveCount == 0 && res.0.game.history == []
      && res.0.game.scores == s.game.scores && res.0.mode == s.mode
  {
    if Delegates(s, link) then (s, true) else (AutoReset(s), false)
  }

  /** `resetScore`: zero the scores locally, then the effective `resetGame`. */
  function ResetScore(s: State, link: Link): (res: (State, bool))
    ensures res.0.game.scores == ZeroScores
    ensures res.1 <==> Delegates(s, link)
    ensures Delegates(s, link) ==> res.0.game == s.game.(scores := ZeroScores)
    ensures !Delegates(s, link) ==> res.0.game == LocalGame.NewGame
  {
    ResetGame(s.(game := s.game.(scores := ZeroScores)), link)
  }

  /**
   * `updateFromServer`: board, turn, active flag and scores are copied
   * verbatim; a copied finished game with a winning line then runs
   * `handleWin`, which credits `currentPlayer` once more.
   */
  function UpdateFromServer(s: State, gs: Relay.GameState): (r: State)
    ensures r.mode == s.mode
    ensures r.game.board == gs.board && r.game.currentPlayer == gs.currentPlayer
    ensures r.game.gameActive == gs.gameActive
    ensures r.game.moveCount == s.game.moveCount && r.game.history == s.game.history
    ensures !gs.gameActive && CheckWin(gs.board) ==>
      r.game.scores.Get(gs.currentPlayer) == gs.scores.Get(gs.currentPlayer) + 1
      && r.game.scores.Get(Other(gs.currentPlayer)) == gs.scores.Get(Other(gs.currentPlayer))
    ensures gs.gameActive || !CheckWin(gs.board) ==> r.game.scores == gs.scores
  {
    var copied := s.game.(board := gs.board, currentPlayer := gs.currentPlayer,
                          gameActive := gs.gameActive, scores := gs.scores);
    if !copied.gameActive && CheckWin(copied.board) then s.(game := LocalGame.HandleWin(copied))
    else if !copied.gameActive && IsFull(copied.board) then s.(game := LocalGame.HandleDraw(copied))
    else s.(game := copied)
  }

  /**
   * Mirroring the broadcast after a winning move on the relay counts the win
   * twice on the client: the relay already credited the mover, and
   * `handleWin` credits the mover again, so the client shows the mover two
   * points above the score the room had before the move.
   */
  lemma MirroredWinCountsTwice(srv: Relay.Server, conn: string, roomId: string, position: int, c: State)
    requires Relay.Valid(srv)
    requires Relay.MoveAccepted(srv, conn, roomId, position)
    requires CheckWin(Relay.Move(srv, conn, roomId, position).0.rooms[roomId].gameState.board)
    ensures var before := srv.rooms[roomId].gameState;
      var after := Relay.Move(srv, conn, roomId, position).0.rooms[roomId].gameState;
      var mover := before.currentPlayer;
      && after.scores.Get(mover) == before.scores.Get(mover) + 1
      && UpdateFromServer(c, after).game.scores.Get(mover) == before.scores.Get(mover) + 2
  {
    Relay.AcceptedMoveEffect(srv, conn, roomId, position);
  }

  /**
   * `makeAIMove`: only on an active game with O to move. It plays the chosen
   * cell if it is in range and empty, and otherwise falls back to a fresh
   * random empty cell; both go through the effective `makeMove`.
   */
  function MakeAIMove(s: State, d: LocalGame.Difficulty, useStrategy: bool, pick: nat, cornerPick: nat,
                      edgePick: nat, fallbackPick: nat, link: Link): (res: (State, Option<int>))
    ensures !s.game.gameActive || s.game.currentPlayer != O ==> res == (s, None)
  {
    if !s.game.gameActive || s.game.currentPlayer != O then (s, None)
    else
      var m := LocalGame.AIChoice(s.game.board, d, useStrategy, pick, cornerPick, edgePick);
      if m != -1 && 0 <= m <= 8 && s.game.board[m] == Empty then MakeMove(s, m, link)
      else
        var fallback := LocalGame.RandomMove(s.game.board, fallbackPick);
        if fallback != -1 then MakeMove(s, fallback, link) else (s, None)
  }

  /**
   * The fallback never plays: the chosen cell is always valid unless the
   * board is full, and then the random fallback finds nothing either. On a
   * consistent offline game with O to move, the AI places exactly one O.
   */
  lemma AIMoveNeverFallsBack(s: State, d: LocalGame.Difficulty, useStrategy: bool, pick: nat, cornerPick: nat,
                             edgePick: nat, fallbackPick: nat, link: Link)
    requires s.game.gameActive && s.game.currentPlayer == O
    ensures var m := LocalGame.AIChoice(s.game.board, d, useStrategy, pick, cornerPick, edgePick);
      var res := MakeAIMove(s, d, useStrategy, pick, cornerPick, edgePick, fallbackPick, link);
      && (IsFull(s.game.board) ==> res == (s, None))
      && (!IsFull(s.game.board) ==> res == MakeMove(s, m, link))
    ensures LocalGame.Consistent(s.game) && !Delegates(s, link) ==>
      var g' := MakeAIMove(s, d, useStrategy, pick, cornerPick, edgePick, fallbackPick, link).0.game;
      && g'.moveCount == s.game.moveCount + 1
      && exists m :: 0 <= m < 9 && s.game.board[m] == Empty && g'.board == Place(s.game.board, m, O)
  {
    var m := LocalGame.AIChoice(s.game.board, d, useStrategy, pick, cornerPick, edgePick);
    if LocalGame.Consistent(s.game) && !Delegates(s, link) {
      assert !IsFull(s.game.board);
      assert 0 <= m < 9 && s.game.board[m] == Empty;
    }
  }
}
