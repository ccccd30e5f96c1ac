/**
 * The deployed checkers of public/assets/js/checkers.js: the click handler
 * with its AI-turn guard and the computer opponent playing black. The rules
 * of play, the move and the win check are those of module CheckersRules.
 * The AI's random draws are inputs: `greedy` stands for the 70% draw of
 * the medium level and `pick` for the random index into the move list.
 */
module PublicCheckers {
  import opened Util
  import opened CheckersRules

  /** `aiDifficulty`. */
  datatype Difficulty = Easy | Medium | Hard

  /**
   * `handleCellClick`: nothing happens on a finished game, nor in AI mode
   * while black (the computer) is to move; otherwise the click is played.
   */
  function HandleCellClick(g: Game, mode: Mode, p: Pos): (r: Game)
    ensures !g.active || (mode == AIMode && g.current == Black) ==> r == g
    ensures g.active && !(mode == AIMode && g.current == Black) ==> r == Click(g, p)
  {
    if !g.active then g
    else if mode == AIMode && g.current == Black then g
    else Click(g, p)
  }

  /** In AI mode a click never moves a black piece: any board change happens with red to move. */
  lemma HumanPlaysOnlyRedAgainstAI(g: Game, p: Pos)
    requires Coherent(g)
    requires HandleCellClick(g, AIMode, p).board != g.board
    ensures g.active && g.current == Red
    ensures g.selected.Some? && Owns(g.board[g.selected.value.row][g.selected.value.col], Red)
  {
    var m := FindMove(g.validMoves, p);
    assert g.selected.Some? && m.Some?;
    MakeMoveIsLegal(g, p);
  }

  /** The `getBestAIMove` score of one candidate, doubled so that the half-unit centre bonus is an integer. */
  function Score2(b: Board, x: Candidate): int {
    var king := b[x.from.row][x.from.col].Occupied? && b[x.from.row][x.from.col].piece.king;
    if x.move.kind.Jump? then 200 + (if king then 40 else 0)
    else
      2 + (if !king && x.move.row > x.from.row then 6 else 0)
        + (8 - Abs(2 * x.move.col - 7))
        + (if king then 4 else 0)
  }

  function Abs(n: int): nat {
    if n < 0 then -n else n
  }

  function Scores(b: Board, xs: seq<Candidate>): (s: seq<int>)
    ensures |s| == |xs| && forall i :: 0 <= i < |xs| ==> s[i] == Score2(b, xs[i])
  {
    seq(|xs|, i requires 0 <= i < |xs| => Score2(b, xs[i]))
  }

  /** Which entry of the move list the AI plays: the best for hard and for a greedy medium draw, else the random one. */
  function Choice(b: Board, xs: seq<Candidate>, d: Difficulty, greedy: bool, pick: nat): (i: nat)
    requires |xs| > 0
    ensures i < |xs|
  {
    if d == Hard || (d == Medium && greedy) then FirstBest(Scores(b, xs)) else pick % |xs|
  }

  /**
   * `makeAIMove`: only on an active game with black to move. With no move
   * the game ends through `handleWin`; otherwise the chosen piece is
   * selected with fresh highlights and moved, and a target that is not
   * highlighted (which cannot happen) falls back to a random move.
   */
  function MakeAIMove(g: Game, d: Difficulty, greedy: bool, pick: nat, fallbackPick: nat): (r: Game)
    ensures !g.active || g.current != Black ==> r == g
    ensures g.active && g.current == Black && !HasMove(g.board, Black) ==> r == HandleWin(g)
  {
    if !g.active || g.current != Black then g
    else
      var xs := AllMoves(g.board, Black);
      AllMovesEmptyIff(g.board, Black);
      if |xs| == 0 then HandleWin(g)
      else
        var x := xs[Choice(g.board, xs, d, greedy, pick)];
        var g1 := SelectPiece(g, x.from);
        if FindMove(g1.validMoves, Dest(x.move)).Some? then MakeMoveAsWritten(g1, Dest(x.move))
        else
          var y := xs[fallbackPick % |xs|];
          MakeMoveAsWritten(SelectPiece(g1.(selected := None), y.from), Dest(y.move))
  }

  /**
   * When black can move, the AI plays exactly the move it chose, that move
   * is legal, and the fallback never runs. As in every move, the win check
   * then asks about black: the turn passes to red while the game goes on,
   * and stays with black when the move ends it.
   */
  lemma AIPlaysItsChoice(g: Game, d: Difficulty, greedy: bool, pick: nat, fallbackPick: nat)
    requires g.active && g.current == Black && HasMove(g.board, Black)
    ensures var xs := AllMoves(g.board, Black);
      && |xs| > 0
      && var x := xs[Choice(g.board, xs, d, greedy, pick)];
      var r := MakeAIMove(g, d, greedy, pick, fallbackPick);
      && LegalMove(g.board, Black, x.from.row, x.from.col, x.move)
      && r.board == ApplyMove(g.board, x.from, x.move)
      && r.moveCount == g.moveCount + 1 && r.selected == None && Coherent(r)
      && (r.active <==> CheckWin(r.board, Black).None?)
      && (r.active ==> r.current == Red)
      && (!r.active ==> r.current == Black)
  {
    var xs := AllMoves(g.board, Black);
    AllMovesEmptyIff(g.board, Black);
    var x := xs[Choice(g.board, xs, d, greedy, pick)];
    AllMovesIff(g.board, Black, x);
    ValidMovesIff(g.board, Black, x.from.row, x.from.col, x.move);
    FindGenerated(g.board, Black, x.from, x.move);
  }

  /** Every capture outscores every plain move, so the best move is a capture whenever one exists. */
  lemma BestMoveCaptures(b: Board, xs: seq<Candidate>)
    requires |xs| > 0
    requires exists i :: 0 <= i < |xs| && xs[i].move.kind.Jump?
    ensures xs[FirstBest(Scores(b, xs))].move.kind.Jump?
  {
    var s := Scores(b, xs);
    var k := FirstBest(s);
    var i :| 0 <= i < |xs| && xs[i].move.kind.Jump?;
    assert s[i] >= 200;
    assert s[k] >= 200;
  }

  /** The hard AI captures whenever black has a capture. */
  lemma HardAICaptures(g: Game, p: Pos, m: Move, pick: nat, fallbackPick: nat)
    requires g.active && g.current == Black
    requires LegalMove(g.board, Black, p.row, p.col, m) && m.kind.Jump?
    ensures var xs := AllMoves(g.board, Black);
      && |xs| > 0
      && var x := xs[Choice(g.board, xs, Hard, false, pick)];
      && x.move.kind.Jump?
      && MakeAIMove(g, Hard, false, pick, fallbackPick).board == ApplyMove(g.board, x.from, x.move)
  {
    var xs := AllMoves(g.board, Black);
    AllMovesIff(g.board, Black, Candidate(p, m));
    assert xs[IndexOf(xs, Candidate(p, m))].move.kind.Jump?;
    BestMoveCaptures(g.board, xs);
    assert Choice(g.board, xs, Hard, false, pick) == FirstBest(Scores(g.board, xs));
    LegalToHasMove(g.board, Black, p, m);
    AIPlaysItsChoice(g, Hard, false, pick, fallbackPick);
  }

  /** The position of an entry in a list that holds it. */
  function IndexOf(xs: seq<Candidate>, x: Candidate): (i: nat)
    requires x in xs
    ensures i < |xs| && xs[i] == x
  {
    if xs[0] == x then 0 else 1 + IndexOf(xs[1..], x)
  }
}
