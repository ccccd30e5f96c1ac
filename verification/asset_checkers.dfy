/**
 * The older checkers of assets/js/checkers.js. Its click handler has only
 * the finished-game guard, and its computer opponent differs from the
 * deployed one: it forces `currentPlayer` to black, scores a capture 10 and
 * a plain move 1, moves without refreshing the highlighted destinations,
 * credits the winner twice when the best-move search finds nothing, and
 * ends with a forward-step fallback and a hand-back of the turn. The AI's
 * random draws are inputs as in module PublicCheckers.
 */
module AssetCheckers {
  import opened Util
  import opened CheckersRules

  datatype Difficulty = Easy | Medium | Hard

  /** `handleCellClick`: only a finished game is guarded, so a human may also move black's pieces in AI mode. */
  function HandleCellClick(g: Game, p: Pos): (r: Game)
    ensures !g.active ==> r == g
    ensures g.active ==> r == Click(g, p)
  {
    if !g.active then g else Click(g, p)
  }

  /** With black to move, a human click can select a black piece: nothing keeps the human off the AI's side. */
  lemma HumanCanSelectBlack(g: Game, p: Pos)
    requires g.active && g.current == Black && Owns(g.board[p.row][p.col], Black)
    ensures HandleCellClick(g, p).selected == Some(p)
    ensures Coherent(HandleCellClick(g, p))
  {
  }

  /** The `getBestAIMove` score: 10 for a capture, 1 for a plain move. */
  function Scores(xs: seq<Candidate>): (s: seq<int>)
    ensures |s| == |xs| && forall i :: 0 <= i < |xs| ==> s[i] == (if xs[i].move.kind.Jump? then 10 else 1)
  {
    seq(|xs|, i requires 0 <= i < |xs| => if xs[i].move.kind.Jump? then 10 else 1)
  }

  /** The best move is the first capture in the list, or the first move when there is none. */
  lemma BestIsFirstCapture(xs: seq<Candidate>)
    requires |xs| > 0
    ensures var k := FirstBest(Scores(xs));
      && (forall j :: 0 <= j < k ==> !xs[j].move.kind.Jump?)
      && (xs[k].move.kind.Jump? || k == 0)
      && ((exists j :: 0 <= j < |xs| && xs[j].move.kind.Jump?) ==> xs[k].move.kind.Jump?)
  {
    var s := Scores(xs);
    var k := FirstBest(s);
    if k > 0 {
      assert s[0] < s[k];
      assert s[k] == 10;
    }
    forall j | 0 <= j < |xs| && xs[j].move.kind.Jump? ensures xs[k].move.kind.Jump? {
      assert s[j] <= s[k];
    }
  }

  /** Whether the level asks `getBestAIMove` rather than `getRandomAIMove`. */
  predicate UsesBest(d: Difficulty, greedy: bool) {
    d == Hard || (d == Medium && greedy)
  }

  function Choice(xs: seq<Candidate>, d: Difficulty, greedy: bool, pick: nat): (i: nat)
    requires |xs| > 0
    ensures i < |xs|
  {
    if UsesBest(d, greedy) then FirstBest(Scores(xs)) else pick % |xs|
  }

  /** The fallback scan: the first listed piece with an empty square one row down and one column aside, left first. */
  function ForwardStep(b: Board, ps: seq<Pos>): (r: Option<(Pos, Pos)>)
    ensures r.Some? ==> && r.value.0 in ps
                        && r.value.1.row == r.value.0.row + 1 && Unit(r.value.1.col - r.value.0.col)
                        && b[r.value.1.row][r.value.1.col].Empty?
    ensures r.None? ==> forall i, dc :: 0 <= i < |ps| && Unit(dc) && ps[i].row + 1 < 8 && 0 <= ps[i].col + dc < 8 ==>
                          b[ps[i].row + 1][ps[i].col + dc].Occupied?
  {
    if |ps| == 0 then None
    else
      var p := ps[0];
      if p.row + 1 < 8 && p.col - 1 >= 0 && b[p.row + 1][p.col - 1].Empty? then Some((p, Pos(p.row + 1, p.col - 1)))
      else if p.row + 1 < 8 && p.col + 1 < 8 && b[p.row + 1][p.col + 1].Empty? then Some((p, Pos(p.row + 1, p.col + 1)))
      else
        var rest := ForwardStep(b, ps[1..]);
        if rest.Some? then Some(rest.value) else None
  }

  /** A square the fallback finds is a legal step of a black piece, so the fallback finds nothing exactly when it runs. */
  lemma ForwardStepNeedsAMove(b: Board)
    ensures ForwardStep(b, AllPieces(b, Black)).Some? ==> HasMove(b, Black)
  {
    var r := ForwardStep(b, AllPieces(b, Black));
    if r.Some? {
      var p, q := r.value.0, r.value.1;
      AllPiecesIff(b, Black, p);
      BlackStepIsLegal(b, p, q);
      LegalToHasMove(b, Black, p, Move(q.row, q.col, Step));
    }
  }

  /** One row down and one column aside onto an empty square is a legal step for any black piece. */
  lemma BlackStepIsLegal(b: Board, p: Pos, q: Pos)
    requires Owns(b[p.row][p.col], Black)
    requires q.row == p.row + 1 && Unit(q.col - p.col) && b[q.row][q.col].Empty?
    ensures LegalMove(b, Black, p.row, p.col, Move(q.row, q.col, Step))
  {
    assert 1 in Directions(b[p.row][p.col].piece);
  }

  /**
   * `makeAIMove` as written. With a move, it selects the piece but keeps
   * the old `validMoves`, so `makeMove` only moves if the destination
   * happens to be highlighted already. With none, `getRandomAIMove` runs
   * `handleWin` and, when the level asked for the best move, the search
   * runs `handleWin` a second time; the fallback then hands the turn back.
   */
  function AIMoveAsWritten(g: Game, d: Difficulty, greedy: bool, pick: nat): (r: Game)
    ensures !g.active ==> r == g
    ensures g.active && HasMove(g.board, Black) ==>
      var xs := AllMoves(g.board, Black);
      && |xs| > 0
      && var x := xs[Choice(xs, d, greedy, pick)];
      var found := FindMove(g.validMoves, Dest(x.move));
      && (found.None? ==> r == g.(current := Black, selected := Some(x.from)))
      && (found.Some? ==>
            (r.board == ApplyMove(g.board, x.from, found.value) && r.moveCount == g.moveCount + 1 && r.selected == None))
    ensures g.active && !HasMove(g.board, Black) ==>
      !r.active && r.board == g.board && r.current == Opponent(g.current)
  {
    if !g.active then g
    else
      var black := g.(current := Black);
      var xs := AllMoves(black.board, Black);
      AllMovesEmptyIff(g.board, Black);
      if |xs| > 0 then
        var x := xs[Choice(xs, d, greedy, pick)];
        MakeMoveAsWritten(black.(selected := Some(x.from)), Dest(x.move))
      else
        var ended := if UsesBest(d, greedy) then HandleWin(HandleWin(black)) else HandleWin(black);
        FallbackHandsBack(ended, g.current);
        Fallback(ended, g.current)
  }

  /**
   * The forward-step fallback, then `currentPlayer` restored and switched.
   * A step it finds is played through `makeMove` with the selection set but
   * the highlights left as they were.
   */
  function Fallback(g: Game, original: Color): (r: Game)
    ensures ForwardStep(g.board, AllPieces(g.board, Black)).None? ==> r == g.(current := Opponent(original))
    ensures ForwardStep(g.board, AllPieces(g.board, Black)).Some? ==>
      var (from, to) := ForwardStep(g.board, AllPieces(g.board, Black)).value;
      && (FindMove(g.validMoves, to).None? ==> r == g.(selected := Some(from)))
      && (FindMove(g.validMoves, to).Some? ==>
            (r.board == ApplyMove(g.board, from, FindMove(g.validMoves, to).value) && r.moveCount == g.moveCount + 1))
  {
    match ForwardStep(g.board, AllPieces(g.board, Black))
    case Some((from, to)) => MakeMoveAsWritten(g.(selected := Some(from)), to)
    case None => SwitchPlayer(g.(current := original))
  }

  /**
   * `makeAIMove` with the two defects repaired: the chosen piece is
   * selected through `selectPiece`, which recomputes its destinations, and
   * a side without moves is credited once.
   */
  function AIMove(g: Game, d: Difficulty, greedy: bool, pick: nat): (r: Game)
    ensures !g.active ==> r == g
  {
    if !g.active then g
    else
      var black := g.(current := Black);
      var xs := AllMoves(black.board, Black);
      if |xs| > 0 then
        var x := xs[Choice(xs, d, greedy, pick)];
        MakeMoveAsWritten(SelectPiece(black, x.from), Dest(x.move))
      else Fallback(HandleWin(black), g.current)
  }

  /**
   * As written, the AI's move is lost whenever no destinations are
   * highlighted, which is the state `makeMove` leaves behind when it
   * schedules the AI: the board, the move count and the turn stay as they
   * were although black has a move.
   */
  lemma AsWrittenDropsMove(g: Game, d: Difficulty, greedy: bool, pick: nat)
    requires g.active && g.current == Black && g.validMoves == []
    requires HasMove(g.board, Black)
    ensures var r := AIMoveAsWritten(g, d, greedy, pick);
      && r.board == g.board && r.moveCount == g.moveCount
      && r.active && r.current == Black
  {
    AllMovesEmptyIff(g.board, Black);
  }

  /**
   * The repaired AI plays its chosen move, which is legal; through the
   * as-written move, the turn passes to red while the game goes on and stays
   * with black when the move ends it.
   */
  lemma AIMovePlays(g: Game, d: Difficulty, greedy: bool, pick: nat)
    requires g.active && HasMove(g.board, Black)
    ensures var xs := AllMoves(g.board, Black);
      && |xs| > 0
      && var x := xs[Choice(xs, d, greedy, pick)];
      var r := AIMove(g, d, greedy, pick);
      && LegalMove(g.board, Black, x.from.row, x.from.col, x.move)
      && r.board == ApplyMove(g.board, x.from, x.move)
      && r.moveCount == g.moveCount + 1
      && (r.active <==> CheckWin(r.board, Black).None?)
      && (r.active ==> r.current == Red)
      && (!r.active ==> r.current == Black)
  {
    var xs := AllMoves(g.board, Black);
    AllMovesEmptyIff(g.board, Black);
    var x := xs[Choice(xs, d, greedy, pick)];
    AllMovesIff(g.board, Black, x);
    ValidMovesIff(g.board, Black, x.from.row, x.from.col, x.move);
    FindGenerated(g.board, Black, x.from, x.move);
    var sel := SelectPiece(g.(current := Black), x.from);
    assert sel.validMoves == ValidMoves(g.board, Black, x.from.row, x.from.col);
    BlackPlays(sel, x.from, x.move);
    assert AIMove(g, d, greedy, pick) == MakeMoveAsWritten(sel, Dest(x.move));
  }

  /** A move black finds among its highlights is played through `makeMove` as written. */
  lemma BlackPlays(g: Game, from: Pos, m: Move)
    requires g.active && g.current == Black && g.selected == Some(from) && FindMove(g.validMoves, Dest(m)) == Some(m)
    ensures var r := MakeMoveAsWritten(g, Dest(m));
      && r.board == ApplyMove(g.board, from, m) && r.moveCount == g.moveCount + 1
      && (r.active <==> CheckWin(r.board, Black).None?)
      && (r.active ==> r.current == Red)
      && (!r.active ==> r.current == Black)
  {
  }

  /**
   * When black is stuck and the best move was asked for, the as-written AI
   * ends the game and gives red two points; the repaired AI gives one. Both
   * hand the turn to the opponent of the side that was to move.
   */
  lemma StuckBlackCredit(g: Game, d: Difficulty, greedy: bool, pick: nat)
    requires g.active && !HasMove(g.board, Black) && CountPieces(g.board, Red) > 0
    ensures var r := AIMoveAsWritten(g, d, greedy, pick);
      && !r.active && r.board == g.board && r.current == Opponent(g.current)
      && r.redScore == g.redScore + (if UsesBest(d, greedy) then 2 else 1) && r.blackScore == g.blackScore
    ensures var r := AIMove(g, d, greedy, pick);
      && !r.active && r.board == g.board && r.current == Opponent(g.current)
      && r.redScore == g.redScore + 1 && r.blackScore == g.blackScore
  {
    AllMovesEmptyIff(g.board, Black);
    var black := g.(current := Black);
    assert CheckWin(g.board, Black) == Some(Red);
    var once := HandleWin(black);
    var twice := HandleWin(once);
    assert once.redScore == g.redScore + 1 && once.blackScore == g.blackScore && once.board == g.board;
    assert twice.redScore == g.redScore + 2 && twice.blackScore == g.blackScore && twice.board == g.board;
    ForwardStepNeedsAMove(g.board);
    FallbackHandsBack(once, g.current);
    FallbackHandsBack(twice, g.current);
  }

  lemma FallbackHandsBack(g: Game, original: Color)
    requires !HasMove(g.board, Black)
    ensures Fallback(g, original) == g.(current := Opponent(original))
  {
    ForwardStepNeedsAMove(g.board);
  }
}
