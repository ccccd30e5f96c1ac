/**
 * The tic-tac-toe rules shared by the relay server (api/socket.js) and both
 * browser copies of the game (assets/js/game.js, public/assets/js/game.js):
 * a 9-cell board read row by row, the 8 fixed winning lines, the draw test,
 * turn toggling and the per-mark score table.
 */
module TicTacToe {

  datatype Mark = X | O

  /** A cell holds '' (Empty) or one of the two marks. */
  datatype Cell = Empty | Marked(mark: Mark)

  const EmptyBoard: seq<Cell> := [Empty, Empty, Empty, Empty, Empty, Empty, Empty, Empty, Empty]

  type Board = b: seq<Cell> | |b| == 9 witness EmptyBoard

  /** Cumulative wins per mark: the source's `scores = { X: n, O: n }`. */
  datatype Scores = Scores(x: nat, o: nat) {
    function Get(m: Mark): nat {
      if m == X then x else o
    }

    /** `scores[m]++`. */
    function Bump(m: Mark): (r: Scores)
      ensures r.Get(m) == Get(m) + 1
      ensures r.Get(Other(m)) == Get(Other(m))
    {
      if m == X then Scores(x + 1, o) else Scores(x, o + 1)
    }
  }

  const ZeroScores := Scores(0, 0)

  /** `currentPlayer === 'X' ? 'O' : 'X'`. */
  function Other(m: Mark): Mark {
    if m == X then O else X
  }

  /** The 8 winning combinations, in the source's order: rows, columns, diagonals. */
  const Lines: seq<(int, int, int)> :=
    [(0, 1, 2), (3, 4, 5), (6, 7, 8),
     (0, 3, 6), (1, 4, 7), (2, 5, 8),
     (0, 4, 8), (2, 4, 6)]

  predicate LineIn(l: (int, int, int)) {
    0 <= l.0 < 9 && 0 <= l.1 < 9 && 0 <= l.2 < 9
  }

  /** `board[a] && board[a] === board[b] && board[a] === board[c]`. */
  predicate LineWon(b: Board, l: (int, int, int))
    requires LineIn(l)
  {
    b[l.0] != Empty && b[l.0] == b[l.1] && b[l.0] == b[l.2]
  }

  /** The source's `checkWin`: `winningCombinations.some(...)`, scanning from line `k` on. */
  predicate AnyLineWonFrom(b: Board, k: nat)
    requires k <= |Lines|
    decreases |Lines| - k
  {
    k < |Lines| && (LineWon(b, Lines[k]) || AnyLineWonFrom(b, k + 1))
  }

  predicate CheckWin(b: Board) {
    AnyLineWonFrom(b, 0)
  }

  /** The source's `checkDraw`: `board.every(cell => cell !== '')`. */
  predicate IsFull(b: Board) {
    forall i :: 0 <= i < 9 ==> b[i] != Empty
  }

  /** Neither a winning line nor a full board: the game can go on. */
  predicate InPlay(b: Board) {
    !CheckWin(b) && !IsFull(b)
  }

  /** Independent, geometric statement of a win for mark `m`: a full row, a full column or a full diagonal. */
  predicate ThreeInARow(b: Board, m: Mark) {
    var c := Marked(m);
    (exists r :: 0 <= r < 3 && b[3 * r] == c && b[3 * r + 1] == c && b[3 * r + 2] == c)
    || (exists k :: 0 <= k < 3 && b[k] == c && b[k + 3] == c && b[k + 6] == c)
    || (b[0] == c && b[4] == c && b[8] == c)
    || (b[2] == c && b[4] == c && b[6] == c)
  }

  /** All three cells of a line hold `m`. */
  predicate Triple(b: Board, a: int, c: int, d: int, m: Mark)
    requires 0 <= a < 9 && 0 <= c < 9 && 0 <= d < 9
  {
    b[a] == Marked(m) && b[c] == Marked(m) && b[d] == Marked(m)
  }

  lemma ScanUnfolds(b: Board)
    ensures CheckWin(b) <==>
      LineWon(b, (0, 1, 2)) || LineWon(b, (3, 4, 5)) || LineWon(b, (6, 7, 8))
      || LineWon(b, (0, 3, 6)) || LineWon(b, (1, 4, 7)) || LineWon(b, (2, 5, 8))
      || LineWon(b, (0, 4, 8)) || LineWon(b, (2, 4, 6))
  {
    assert AnyLineWonFrom(b, 0) == (LineWon(b, Lines[0]) || AnyLineWonFrom(b, 1));
    assert AnyLineWonFrom(b, 1) == (LineWon(b, Lines[1]) || AnyLineWonFrom(b, 2));
    assert AnyLineWonFrom(b, 2) == (LineWon(b, Lines[2]) || AnyLineWonFrom(b, 3));
    assert AnyLineWonFrom(b, 3) == (LineWon(b, Lines[3]) || AnyLineWonFrom(b, 4));
    assert AnyLineWonFrom(b, 4) == (LineWon(b, Lines[4]) || AnyLineWonFrom(b, 5));
    assert AnyLineWonFrom(b, 5) == (LineWon(b, Lines[5]) || AnyLineWonFrom(b, 6));
    assert AnyLineWonFrom(b, 6) == (LineWon(b, Lines[6]) || AnyLineWonFrom(b, 7));
    assert AnyLineWonFrom(b, 7) == (LineWon(b, Lines[7]) || AnyLineWonFrom(b, 8));
    assert !AnyLineWonFrom(b, 8);
  }

  lemma RowsUnfold(b: Board, m: Mark)
    ensures (exists r :: 0 <= r < 3 && b[3 * r] == Marked(m) && b[3 * r + 1] == Marked(m) && b[3 * r + 2] == Marked(m))
      <==> Triple(b, 0, 1, 2, m) || Triple(b, 3, 4, 5, m) || Triple(b, 6, 7, 8, m)
  {
    var c := Marked(m);
    if Triple(b, 0, 1, 2, m) { assert b[3 * 0] == c && b[3 * 0 + 1] == c && b[3 * 0 + 2] == c; }
    if Triple(b, 3, 4, 5, m) { assert b[3 * 1] == c && b[3 * 1 + 1] == c && b[3 * 1 + 2] == c; }
    if Triple(b, 6, 7, 8, m) { assert b[3 * 2] == c && b[3 * 2 + 1] == c && b[3 * 2 + 2] == c; }
  }

  lemma ColumnsUnfold(b: Board, m: Mark)
    ensures (exists k :: 0 <= k < 3 && b[k] == Marked(m) && b[k + 3] == Marked(m) && b[k + 6] == Marked(m))
      <==> Triple(b, 0, 3, 6, m) || Triple(b, 1, 4, 7, m) || Triple(b, 2, 5, 8, m)
  {
    var c := Marked(m);
    if Triple(b, 0, 3, 6, m) { assert b[0] == c && b[0 + 3] == c && b[0 + 6] == c; }
    if Triple(b, 1, 4, 7, m) { assert b[1] == c && b[1 + 3] == c && b[1 + 6] == c; }
    if Triple(b, 2, 5, 8, m) { assert b[2] == c && b[2 + 3] == c && b[2 + 6] == c; }
  }

  lemma GeometryUnfolds(b: Board, m: Mark)
    ensures ThreeInARow(b, m) <==>
      Triple(b, 0, 1, 2, m) || Triple(b, 3, 4, 5, m) || Triple(b, 6, 7, 8, m)
      || Triple(b, 0, 3, 6, m) || Triple(b, 1, 4, 7, m) || Triple(b, 2, 5, 8, m)
      || Triple(b, 0, 4, 8, m) || Triple(b, 2, 4, 6, m)
  {
    RowsUnfold(b, m);
    ColumnsUnfold(b, m);
  }

  lemma LineWonIffTriple(b: Board, a: int, c: int, d: int)
    requires 0 <= a < 9 && 0 <= c < 9 && 0 <= d < 9
    ensures LineWon(b, (a, c, d)) <==> Triple(b, a, c, d, X) || Triple(b, a, c, d, O)
  {
    var l := (a, c, d);
    assert l.0 == a && l.1 == c && l.2 == d;
    match b[a]
    case Empty =>
    case Marked(m) => assert m == X || m == O;
  }

  /** The source's line scan agrees with the geometric definition, in both directions. */
  lemma CheckWinIffThreeInARow(b: Board)
    ensures CheckWin(b) <==> (ThreeInARow(b, X) || ThreeInARow(b, O))
  {
    ScanUnfolds(b);
    GeometryUnfolds(b, X);
    GeometryUnfolds(b, O);
    LineWonIffTriple(b, 0, 1, 2);
    LineWonIffTriple(b, 3, 4, 5);
    LineWonIffTriple(b, 6, 7, 8);
    LineWonIffTriple(b, 0, 3, 6);
    LineWonIffTriple(b, 1, 4, 7);
    LineWonIffTriple(b, 2, 5, 8);
    LineWonIffTriple(b, 0, 4, 8);
    LineWonIffTriple(b, 2, 4, 6);
  }

  /** Writes `m` into cell `i`. */
  function Place(b: Board, i: int, m: Mark): (r: Board)
    requires 0 <= i < 9
    ensures r[i] == Marked(m)
    ensures forall j :: 0 <= j < 9 && j != i ==> r[j] == b[j]
  {
    b[i := Marked(m)]
  }

  /**
   * Placing a mark on a board with no winning line can only complete a line
   * of the mover's own mark: the winner is always the mover.
   */
  lemma WinnerIsMover(b: Board, i: int, m: Mark)
    requires 0 <= i < 9 && b[i] == Empty
    requires !CheckWin(b)
    requires CheckWin(Place(b, i, m))
    ensures ThreeInARow(Place(b, i, m), m)
    ensures !ThreeInARow(Place(b, i, m), Other(m))
  {
    var b' := Place(b, i, m);
    CheckWinIffThreeInARow(b);
    CheckWinIffThreeInARow(b');
    NewLineThroughMove(b, i, m, Other(m));
    assert m == X || m == O;
  }

  /** A line of mark `n` on the new board that was not there before must run through cell `i`, so `n` is the placed mark. */
  lemma NewLineThroughMove(b: Board, i: int, m: Mark, n: Mark)
    requires 0 <= i < 9 && b[i] == Empty
    requires !ThreeInARow(b, n)
    requires n != m
    ensures !ThreeInARow(Place(b, i, m), n)
  {
    var b' := Place(b, i, m);
    var c := Marked(n);
    forall j | 0 <= j < 9 && b'[j] == c ensures b[j] == c {
      assert j != i;
    }
  }

  /** Number of cells holding `m`. */
  function CountMark(b: seq<Cell>, m: Mark): nat
    ensures CountMark(b, m) <= |b|
  {
    if |b| == 0 then 0 else (if b[0] == Marked(m) then 1 else 0) + CountMark(b[1..], m)
  }

  /** Number of empty cells. */
  function CountEmpty(b: seq<Cell>): nat
  {
    if |b| == 0 then 0 else (if b[0] == Empty then 1 else 0) + CountEmpty(b[1..])
  }

  /** Filling an empty cell with `m` adds one `m`, removes one empty cell and leaves the other mark's count alone. */
  lemma {:induction false} PlaceCounts(b: seq<Cell>, i: int, m: Mark)
    requires 0 <= i < |b| && b[i] == Empty
    ensures CountMark(b[i := Marked(m)], m) == CountMark(b, m) + 1
    ensures CountMark(b[i := Marked(m)], Other(m)) == CountMark(b, Other(m))
    ensures CountEmpty(b[i := Marked(m)]) + 1 == CountEmpty(b)
  {
    if i > 0 {
      PlaceCounts(b[1..], i - 1, m);
      assert b[i := Marked(m)][1..] == b[1..][i - 1 := Marked(m)];
    } else {
      assert b[i := Marked(m)][1..] == b[1..];
    }
  }

  /** A board is full exactly when no cell is empty. */
  lemma {:induction false} FullIffNoEmpty(b: seq<Cell>)
    ensures (forall i :: 0 <= i < |b| ==> b[i] != Empty) <==> CountEmpty(b) == 0
  {
    if |b| > 0 {
      FullIffNoEmpty(b[1..]);
      if CountEmpty(b) == 0 {
        forall i | 0 <= i < |b| ensures b[i] != Empty {
          if i > 0 { assert b[i] == b[1..][i - 1]; }
        }
      }
      if forall i :: 0 <= i < |b| ==> b[i] != Empty {
        assert forall i :: 0 <= i < |b[1..]| ==> b[1..][i] == b[i + 1];
      }
    }
  }

  lemma {:induction false} CountsOfEmptyBoard(k: nat)
    ensures CountMark(seq(k, _ => Empty), X) == 0
    ensures CountMark(seq(k, _ => Empty), O) == 0
    ensures CountEmpty(seq(k, _ => Empty)) == k
  {
    if k > 0 {
      CountsOfEmptyBoard(k - 1);
      assert seq(k, _ => Empty)[1..] == seq(k - 1, _ => Empty);
    }
  }
}
