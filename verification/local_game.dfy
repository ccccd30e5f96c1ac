/**
 * The single-browser tic-tac-toe of assets/js/game.js: local two-player or
 * against the heuristic AI. The random draws the AI makes are parameters.
 * The public copy (module PublicGame) reuses the move, reset and AI rules
 * defined here, which the two files spell identically.
 */
module LocalGame {
  import opened TicTacToe

  /** One `gameHistory` entry. */
  datatype MoveRecord = MoveRecord(player: Mark, position: int, moveNumber: nat)

  datatype Game = Game(
    board: Board,
    currentPlayer: Mark,
    gameActive: bool,
    scores: Scores,
    moveCount: nat,
    history: seq<MoveRecord>)

  /** The `aiDifficulty` select: 'easy', 'medium' or 'hard'. */
  datatype Difficulty = Easy | Medium | Hard

  const NewGame: Game := Game(EmptyBoard, X, true, ZeroScores, 0, [])

  /**
   * The state invariant: an active game can go on, every move is counted
   * and recorded, and the count equals the number of marks on the board.
   */
  predicate Consistent(g: Game) {
    && (g.gameActive ==> InPlay(g.board))
    && g.moveCount == |g.history|
    && g.moveCount + CountEmpty(g.board) == 9
  }

  lemma NewGameConsistent()
    ensures Consistent(NewGame)
  {
    EmptyBoardFresh();
  }

  /** The empty board has no winner, is not full and has nine empty cells. */
  lemma EmptyBoardFresh()
    ensures InPlay(EmptyBoard) && CountEmpty(EmptyBoard) == 9
  {
    ScanUnfolds(EmptyBoard);
    assert EmptyBoard[0] == Empty;
    CountsOfEmptyBoard(9);
    assert seq(9, _ => Empty) == EmptyBoard;
  }

  // ------------------------------------------------------------------ moves

  /** The guard of `makeMove`: the game is on and the cell reads ''. An index outside 0..8 reads undefined, which is not ''. */
  predicate CanPlay(g: Game, index: int) {
    g.gameActive && 0 <= index < 9 && g.board[index] == Empty
  }

  /** `handleWin`: the game stops and the current player scores one. */
  function HandleWin(g: Game): (r: Game)
    ensures !r.gameActive
    ensures r.scores.Get(g.currentPlayer) == g.scores.Get(g.currentPlayer) + 1
    ensures r.scores.Get(Other(g.currentPlayer)) == g.scores.Get(Other(g.currentPlayer))
    ensures r == g.(gameActive := false, scores := r.scores)
  {
    g.(gameActive := false, scores := g.scores.Bump(g.currentPlayer))
  }

  /** `handleDraw`: the game stops, scores untouched. */
  function HandleDraw(g: Game): (r: Game)
    ensures !r.gameActive && r.scores == g.scores
    ensures r == g.(gameActive := r.gameActive)
  {
    g.(gameActive := false)
  }

  function SwitchPlayer(g: Game): (r: Game)
    ensures r.currentPlayer != g.currentPlayer
    ensures r == g.(currentPlayer := r.currentPlayer)
  {
    g.(currentPlayer := Other(g.currentPlayer))
  }

  /**
   * The accepted branch of `makeMove`: mark the cell, count and record the
   * move, then a win, else a draw, else the other player's turn.
   */
  function Play(g: Game, index: int): (r: Game)
    requires CanPlay(g, index)
    ensures r.board == Place(g.board, index, g.currentPlayer)
    ensures r.moveCount == g.moveCount + 1
    ensures r.history == g.history + [MoveRecord(g.currentPlayer, index, g.moveCount + 1)]
    ensures CheckWin(r.board) ==>
      !r.gameActive && r.currentPlayer == g.currentPlayer
      && r.scores.Get(g.currentPlayer) == g.scores.Get(g.currentPlayer) + 1
      && r.scores.Get(Other(g.currentPlayer)) == g.scores.Get(Other(g.currentPlayer))
    ensures !CheckWin(r.board) ==> r.scores == g.scores
    ensures !CheckWin(r.board) && IsFull(r.board) ==> !r.gameActive && r.currentPlayer == g.currentPlayer
    ensures InPlay(r.board) ==> r.gameActive && r.currentPlayer == Other(g.currentPlayer)
  {
    var board := Place(g.board, index, g.currentPlayer);
    var placed := g.(board := board, moveCount := g.moveCount + 1,
                     history := g.history + [MoveRecord(g.currentPlayer, index, g.moveCount + 1)]);
    if CheckWin(board) then HandleWin(placed)
    else if IsFull(board) then HandleDraw(placed)
    else SwitchPlayer(placed)
  }

  /** `makeMove(index)`: a no-op unless the guard holds. */
  function MakeMove(g: Game, index: int): (r: Game)
    ensures !CanPlay(g, index) ==> r == g
    ensures CanPlay(g, index) ==> r == Play(g, index)
  {
    if CanPlay(g, index) then Play(g, index) else g
  }

  /**
   * A move keeps the invariant, and a winning move completes a line of the
   * mover's mark only: the point goes to the right player.
   */
  lemma MakeMoveKeepsConsistent(g: Game, index: int)
    requires Consistent(g)
    ensures Consistent(MakeMove(g, index))
    ensures CanPlay(g, index) && CheckWin(MakeMove(g, index).board) ==>
      ThreeInARow(MakeMove(g, index).board, g.currentPlayer)
      && !ThreeInARow(MakeMove(g, index).board, Other(g.currentPlayer))
  {
    if CanPlay(g, index) {
      PlaceCounts(g.board, index, g.currentPlayer);
      if CheckWin(Place(g.board, index, g.currentPlayer)) {
        WinnerIsMover(g.board, index, g.currentPlayer);
      }
    }
  }

  /** Every accepted move changes exactly one cell, from empty to the mover's mark. */
  lemma MoveTouchesOneCell(g: Game, index: int, j: int)
    requires CanPlay(g, index) && 0 <= j < 9
    ensures MakeMove(g, index).board[j] == if j == index then Marked(g.currentPlayer) else g.board[j]
  {
  }

  // ------------------------------------------------------------------ resets

  /** `resetGame`: a fresh round with the scores carried over. */
  function ResetGame(g: Game): (r: Game)
    ensures r.scores == g.scores
    ensures r.board == EmptyBoard && r.currentPlayer == X && r.gameActive
    ensures r.moveCount == 0 && r.history == []
    ensures Consistent(r)
  {
    EmptyBoardFresh();
    Game(EmptyBoard, X, true, g.scores, 0, [])
  }

  /** `resetScore`: zero both scores, then reset the round. */
  function ResetScore(g: Game): (r: Game)
    ensures r == NewGame
  {
    ResetGame(g.(scores := ZeroScores))
  }

  /** A score reset differs from a game reset only in the scores. */
  lemma ResetScoreVersusResetGame(g: Game)
    ensures ResetScore(g) == ResetGame(g).(scores := Scores(0, 0))
    ensures ResetGame(ResetScore(g)) == ResetScore(g)
  {
  }

  // ---------------------------------------------------------------------- AI

  const AllCells: seq<int> := [0, 1, 2, 3, 4, 5, 6, 7, 8]
  const Corners: seq<int> := [0, 2, 6, 8]
  const Edges: seq<int> := [1, 3, 5, 7]

  predicate AreCells(cells: seq<int>) {
    forall i :: 0 <= i < |cells| ==> 0 <= cells[i] < 9
  }

  /** `cells.filter(i => board[i] === '')`. */
  function FreeAmong(b: Board, cells: seq<int>): (r: seq<int>)
    requires AreCells(cells)
    ensures AreCells(r)
    ensures forall x :: x in r <==> x in cells && 0 <= x < 9 && b[x] == Empty
    ensures |r| <= |cells|
  {
    if |cells| == 0 then []
    else
      var rest := FreeAmong(b, cells[1..]);
      if b[cells[0]] == Empty then [cells[0]] + rest else rest
  }

  lemma EveryCellListed(i: int)
    requires 0 <= i < 9
    ensures i in AllCells
    ensures i == 4 || i in Corners || i in Edges
  {
    assert AllCells[i] == i;
    if i == 0 { assert Corners[0] == 0; }
    if i == 2 { assert Corners[1] == 2; }
    if i == 6 { assert Corners[2] == 6; }
    if i == 8 { assert Corners[3] == 8; }
    if i == 1 { assert Edges[0] == 1; }
    if i == 3 { assert Edges[1] == 3; }
    if i == 5 { assert Edges[2] == 5; }
    if i == 7 { assert Edges[3] == 7; }
  }

  /** The number `Math.floor(Math.random() * n)` picks among n choices, from an arbitrary draw. */
  function Choose(choices: seq<int>, pick: nat): (r: int)
    requires |choices| > 0
    ensures r in choices
  {
    choices[pick % |choices|]
  }

  /** `getRandomMove`: a uniformly drawn empty cell, or -1 when there is none. */
  function RandomMove(b: Board, pick: nat): (r: int)
    ensures r == -1 <==> IsFull(b)
    ensures r != -1 ==> 0 <= r < 9 && b[r] == Empty
  {
    var free := FreeAmong(b, AllCells);
    SomeFreeCell(b);
    if |free| > 0 then Choose(free, pick) else -1
  }

  lemma SomeFreeCell(b: Board)
    ensures |FreeAmong(b, AllCells)| > 0 <==> !IsFull(b)
  {
    var free := FreeAmong(b, AllCells);
    if !IsFull(b) {
      var i :| 0 <= i < 9 && b[i] == Empty;
      EveryCellListed(i);
      assert i in free;
    }
    if |free| > 0 {
      assert free[0] in free;
    }
  }

  /** The draw under which `Choose` returns `x`. */
  lemma ChosenAt(choices: seq<int>, x: int) returns (k: nat)
    requires x in choices
    ensures k < |choices| && Choose(choices, k) == x
  {
    k :| 0 <= k < |choices| && choices[k] == x;
    assert k % |choices| == k;
  }

  /** Every empty cell is the random move for some draw. */
  lemma RandomMoveReachesEveryCell(b: Board, i: int)
    requires 0 <= i < 9 && b[i] == Empty
    ensures exists pick: nat :: pick < 9 && RandomMove(b, pick) == i
  {
    EveryCellListed(i);
    var free := FreeAmong(b, AllCells);
    assert i in free;
    var k := ChosenAt(free, i);
    assert RandomMove(b, k) == Choose(free, k);
  }

  /** Placing `m` in empty cell `j` produces some winning line. */
  predicate Completes(b: Board, j: int, m: Mark) {
    0 <= j < 9 && b[j] == Empty && CheckWin(Place(b, j, m))
  }

  /** The trial-placement loop of `getBestMove`: the first cell from `from` on whose trial placement of `m` wins, or -1. */
  function FirstCompleting(b: Board, m: Mark, from: nat): (r: int)
    requires from <= 9
    ensures r == -1 || (from <= r < 9 && Completes(b, r, m))
    ensures forall j :: from <= j < 9 && (r == -1 || j < r) ==> !Completes(b, j, m)
    decreases 9 - from
  {
    if from == 9 then -1
    else if Completes(b, from, m) then from
    else FirstCompleting(b, m, from + 1)
  }

  /** `getBestMove`: win as O, else block X, else the centre, else a corner, else an edge. */
  function BestMove(b: Board, cornerPick: nat, edgePick: nat): (r: int)
    ensures r == -1 <==> IsFull(b)
    ensures r != -1 ==> 0 <= r < 9 && b[r] == Empty
  {
    var win := FirstCompleting(b, O, 0);
    var block := FirstCompleting(b, X, 0);
    var corners := FreeAmong(b, Corners);
    var edges := FreeAmong(b, Edges);
    if win != -1 then win
    else if block != -1 then block
    else if b[4] == Empty then 4
    else if |corners| > 0 then Choose(corners, cornerPick)
    else if |edges| > 0 then Choose(edges, edgePick)
    else
      assert IsFull(b) by {
        forall i | 0 <= i < 9 ensures b[i] != Empty {
          EveryCellListed(i);
        }
      }
      -1
  }

  /**
   * The preference order of `getBestMove`, stated against the cells
   * themselves: the lowest O-winning cell, else the lowest X-winning cell,
   * else the centre, else a free corner, else a free edge.
   */
  lemma BestMovePreference(b: Board, cornerPick: nat, edgePick: nat)
    ensures var r := BestMove(b, cornerPick, edgePick);
      && ((exists i :: Completes(b, i, O)) ==>
            Completes(b, r, O) && forall j :: 0 <= j < r ==> !Completes(b, j, O))
      && ((forall i :: !Completes(b, i, O)) && (exists i :: Completes(b, i, X)) ==>
            Completes(b, r, X) && forall j :: 0 <= j < r ==> !Completes(b, j, X))
      && ((forall i :: !Completes(b, i, O) && !Completes(b, i, X)) ==>
            (b[4] == Empty ==> r == 4)
            && (b[4] != Empty && (exists c :: c in Corners && b[c] == Empty) ==> r in Corners)
            && (b[4] != Empty && (forall c :: c in Corners ==> b[c] != Empty) && !IsFull(b) ==> r in Edges))
  {
    if exists i :: Completes(b, i, O) {
      BestMoveTakesWin(b, cornerPick, edgePick);
    } else if exists i :: Completes(b, i, X) {
      BestMoveBlocks(b, cornerPick, edgePick);
    } else {
      BestMoveFallback(b, cornerPick, edgePick);
    }
  }

  lemma BestMoveTakesWin(b: Board, cornerPick: nat, edgePick: nat)
    requires exists i :: Completes(b, i, O)
    ensures var r := BestMove(b, cornerPick, edgePick);
      Completes(b, r, O) && forall j :: 0 <= j < r ==> !Completes(b, j, O)
  {
    var i :| Completes(b, i, O);
    assert FirstCompleting(b, O, 0) != -1;
  }

  lemma BestMoveBlocks(b: Board, cornerPick: nat, edgePick: nat)
    requires forall i :: !Completes(b, i, O)
    requires exists i :: Completes(b, i, X)
    ensures var r := BestMove(b, cornerPick, edgePick);
      Completes(b, r, X) && forall j :: 0 <= j < r ==> !Completes(b, j, X)
  {
    var i :| Completes(b, i, X);
    assert FirstCompleting(b, O, 0) == -1;
    assert FirstCompleting(b, X, 0) != -1;
  }

  lemma BestMoveFallback(b: Board, cornerPick: nat, edgePick: nat)
    requires forall i :: !Completes(b, i, O) && !Completes(b, i, X)
    ensures var r := BestMove(b, cornerPick, edgePick);
      && (b[4] == Empty ==> r == 4)
      && (b[4] != Empty && (exists c :: c in Corners && b[c] == Empty) ==> r in Corners)
      && (b[4] != Empty && (forall c :: c in Corners ==> b[c] != Empty) && !IsFull(b) ==> r in Edges)
  {
    assert FirstCompleting(b, O, 0) == -1 && FirstCompleting(b, X, 0) == -1;
    if b[4] != Empty && exists c :: c in Corners && b[c] == Empty {
      var c :| c in Corners && b[c] == Empty;
      assert c in FreeAmong(b, Corners);
    }
  }

  /** On a board nobody has won yet, the AI's "winning" cell really completes a line of O's. */
  lemma BestMoveWinIsForO(b: Board, cornerPick: nat, edgePick: nat)
    requires !CheckWin(b)
    requires exists i :: Completes(b, i, O)
    ensures var r := BestMove(b, cornerPick, edgePick);
      ThreeInARow(Place(b, r, O), O)
  {
    BestMovePreference(b, cornerPick, edgePick);
    WinnerIsMover(b, BestMove(b, cornerPick, edgePick), O);
  }

  /** The move `makeAIMove` chooses for a difficulty and its random draws. */
  function AIChoice(b: Board, d: Difficulty, useStrategy: bool, pick: nat, cornerPick: nat, edgePick: nat): (r: int)
    ensures r == -1 <==> IsFull(b)
    ensures r != -1 ==> 0 <= r < 9 && b[r] == Empty
  {
    match d
    case Easy => RandomMove(b, pick)
    case Medium => if useStrategy then BestMove(b, cornerPick, edgePick) else RandomMove(b, pick)
    case Hard => BestMove(b, cornerPick, edgePick)
  }

  /**
   * `makeAIMove`: nothing on a finished game, otherwise play the chosen
   * cell for the current player. `useStrategy` is the medium level's
   * `Math.random() < 0.7`.
   */
  function MakeAIMove(g: Game, d: Difficulty, useStrategy: bool, pick: nat, cornerPick: nat, edgePick: nat): (r: Game)
    ensures !g.gameActive ==> r == g
    ensures Consistent(g) && g.gameActive ==>
      var m := AIChoice(g.board, d, useStrategy, pick, cornerPick, edgePick);
      && 0 <= m < 9 && g.board[m] == Empty
      && r == Play(g, m)
      && r.moveCount == g.moveCount + 1
  {
    if !g.gameActive then g
    else
      var m := AIChoice(g.board, d, useStrategy, pick, cornerPick, edgePick);
      if m != -1 then MakeMove(g, m) else g
  }
}
