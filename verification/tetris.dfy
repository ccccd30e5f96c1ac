/**
 * The Tetris engine of assets/js/tetris.js: a 20x10 well, the seven
 * tetrominoes, collision, rotation, stamping a piece into the well, line
 * clearing with its score, level and speed rules, and the hard drop. The
 * random choice of the next tetromino is a parameter.
 */
module Tetris {
  /** A tetromino's colour tag, which also names it. */
  datatype Kind = I | O | T | S | Z | J | L

  /** A well cell: 0 in the source, or the colour of the piece that landed there. */
  datatype Cell = Free | Filled(kind: Kind)

  const Width: int := 10
  const Height: int := 20
  const BaseSpeed: int := 1000

  const EmptyRow: seq<Cell> := [Free, Free, Free, Free, Free, Free, Free, Free, Free, Free]

  predicate IsWell(b: seq<seq<Cell>>) {
    |b| == Height && forall r :: 0 <= r < |b| ==> |b[r]| == Width
  }

  /** The well is always 20 rows of 10 cells. */
  type Board = b: seq<seq<Cell>> | IsWell(b)
    witness [EmptyRow, EmptyRow, EmptyRow, EmptyRow, EmptyRow, EmptyRow, EmptyRow, EmptyRow, EmptyRow, EmptyRow,
             EmptyRow, EmptyRow, EmptyRow, EmptyRow, EmptyRow, EmptyRow, EmptyRow, EmptyRow, EmptyRow, EmptyRow]

  const EmptyBoard: Board :=
    [EmptyRow, EmptyRow, EmptyRow, EmptyRow, EmptyRow, EmptyRow, EmptyRow, EmptyRow, EmptyRow, EmptyRow,
     EmptyRow, EmptyRow, EmptyRow, EmptyRow, EmptyRow, EmptyRow, EmptyRow, EmptyRow, EmptyRow, EmptyRow]

  // ---------------------------------------------------------------- shapes

  /** A shape matrix: 1 cells are true. */
  type Shape = seq<seq<bool>>

  /** A non-empty rectangle, as every shape the game builds is. */
  predicate Rect(s: Shape) {
    |s| > 0 && |s[0]| > 0 && forall y :: 0 <= y < |s| ==> |s[y]| == |s[0]|
  }

  predicate HasBlock(s: Shape) {
    exists y, x :: 0 <= y < |s| && 0 <= x < |s[y]| && s[y][x]
  }

  /** The shape table of the constructor. */
  function ShapeOf(k: Kind): (s: Shape)
    ensures Rect(s) && HasBlock(s)
  {
    match k
    case I => var s := [[true, true, true, true]]; assert s[0][0]; s
    case O => var s := [[true, true], [true, true]]; assert s[0][0]; s
    case T => var s := [[false, true, false], [true, true, true]]; assert s[0][1]; s
    case S => var s := [[false, true, true], [true, true, false]]; assert s[0][1]; s
    case Z => var s := [[true, true, false], [false, true, true]]; assert s[0][0]; s
    case J => var s := [[true, false, false], [true, true, true]]; assert s[0][0]; s
    case L => var s := [[false, false, true], [true, true, true]]; assert s[0][2]; s
  }

  /**
   * `rotatePiece`: an r x c shape becomes c x r, with `shape[y][x]` moving
   * to `[x][r - 1 - y]` (a quarter turn clockwise).
   */
  function Rotate(s: Shape): (r: Shape)
    requires Rect(s)
    ensures Rect(r) && |r| == |s[0]| && |r[0]| == |s|
    ensures forall y, x :: 0 <= y < |s| && 0 <= x < |s[0]| ==> r[x][|s| - 1 - y] == s[y][x]
  {
    var rows := |s|;
    var cols := |s[0]|;
    seq(cols, i requires 0 <= i < cols => seq(rows, j requires 0 <= j < rows => s[rows - 1 - j][i]))
  }

  lemma RotateTwice(s: Shape)
    requires Rect(s)
    ensures Rect(Rotate(Rotate(s))) && |Rotate(Rotate(s))| == |s| && |Rotate(Rotate(s))[0]| == |s[0]|
    ensures forall y, x :: 0 <= y < |s| && 0 <= x < |s[0]| ==> Rotate(Rotate(s))[y][x] == s[|s| - 1 - y][|s[0]| - 1 - x]
  {
    var r := Rotate(s);
    var rr := Rotate(r);
    forall y, x | 0 <= y < |s| && 0 <= x < |s[0]|
      ensures rr[y][x] == s[|s| - 1 - y][|s[0]| - 1 - x]
    {
      var y', x' := |s[0]| - 1 - x, y;
      assert rr[x'][|r| - 1 - y'] == r[y'][x'];
      assert r[y'][x'] == s[|s| - 1 - x'][y'];
    }
  }

  /** Four quarter turns give back the original shape. */
  lemma RotateFourTimes(s: Shape)
    requires Rect(s)
    ensures Rotate(Rotate(Rotate(Rotate(s)))) == s
  {
    var h := Rotate(Rotate(s));
    RotateTwice(s);
    RotateTwice(h);
    HalfTurnsCancel(s, h, Rotate(Rotate(h)));
  }

  /** Two half turns, stated pointwise, cancel. */
  lemma HalfTurnsCancel(s: Shape, h: Shape, f: Shape)
    requires Rect(s) && Rect(h) && Rect(f)
    requires |h| == |s| && |h[0]| == |s[0]| && |f| == |s| && |f[0]| == |s[0]|
    requires forall y, x :: 0 <= y < |s| && 0 <= x < |s[0]| ==> h[y][x] == s[|s| - 1 - y][|s[0]| - 1 - x]
    requires forall y, x :: 0 <= y < |h| && 0 <= x < |h[0]| ==> f[y][x] == h[|h| - 1 - y][|h[0]| - 1 - x]
    ensures f == s
  {
    forall y | 0 <= y < |s| ensures f[y] == s[y] {
      forall x | 0 <= x < |s[0]| ensures f[y][x] == s[y][x] {
        assert f[y][x] == h[|s| - 1 - y][|s[0]| - 1 - x];
      }
    }
  }

  // ---------------------------------------------------------------- pieces

  datatype Piece = Piece(shape: Shape, color: Kind, x: int, y: int)

  predicate WellFormed(p: Piece) {
    Rect(p.shape) && HasBlock(p.shape)
  }

  /** `getRandomPiece` once the random index has been drawn: centred on the top row. */
  function Spawn(k: Kind): (p: Piece)
    ensures WellFormed(p) && p.color == k && p.y == 0 && p.shape == ShapeOf(k)
    ensures p.x == Width / 2 - |ShapeOf(k)[0]| / 2
  {
    Piece(ShapeOf(k), k, Width / 2 - |ShapeOf(k)[0]| / 2, 0)
  }

  // ------------------------------------------------------------- collision

  /** May a filled shape cell land on column `cx`, row `cy`? Rows above the top are allowed. */
  predicate CellOk(b: Board, cx: int, cy: int) {
    0 <= cx < Width && cy < Height && (cy >= 0 ==> b[cy][cx] == Free)
  }

  /** Every filled cell of `s`, placed with its corner at (nx, ny), is acceptable. */
  predicate Fits(b: Board, s: Shape, nx: int, ny: int) {
    forall y, x :: 0 <= y < |s| && 0 <= x < |s[y]| && s[y][x] ==> CellOk(b, nx + x, ny + y)
  }

  /** The inner loop of `isValidMove`: row cells from `x` on. */
  function RowScan(b: Board, row: seq<bool>, nx: int, cy: int, x: nat): bool
    requires x <= |row|
    decreases |row| - x
  {
    if x == |row| then true
    else if row[x] && !CellOk(b, nx + x, cy) then false
    else RowScan(b, row, nx, cy, x + 1)
  }

  /** The outer loop of `isValidMove`: shape rows from `y` on. */
  function ShapeScan(b: Board, s: Shape, nx: int, ny: int, y: nat): bool
    requires y <= |s|
    decreases |s| - y
  {
    if y == |s| then true
    else if !RowScan(b, s[y], nx, ny + y, 0) then false
    else ShapeScan(b, s, nx, ny, y + 1)
  }

  /** `isValidMove(piece, dx, dy, rotation)`; `rotate` stands for a non-zero rotation. */
  function IsValidMove(b: Board, p: Piece, dx: int, dy: int, rotate: bool): bool
    requires Rect(p.shape)
  {
    var s := if rotate then Rotate(p.shape) else p.shape;
    ShapeScan(b, s, p.x + dx, p.y + dy, 0)
  }

  lemma {:induction false} RowScanIff(b: Board, row: seq<bool>, nx: int, cy: int, x: nat)
    requires x <= |row|
    ensures RowScan(b, row, nx, cy, x) <==> forall i :: x <= i < |row| && row[i] ==> CellOk(b, nx + i, cy)
    decreases |row| - x
  {
    if x < |row| {
      RowScanIff(b, row, nx, cy, x + 1);
    }
  }

  lemma {:induction false} ShapeScanIff(b: Board, s: Shape, nx: int, ny: int, y: nat)
    requires y <= |s|
    ensures ShapeScan(b, s, nx, ny, y) <==>
      forall j, i :: y <= j < |s| && 0 <= i < |s[j]| && s[j][i] ==> CellOk(b, nx + i, ny + j)
    decreases |s| - y
  {
    if y < |s| {
      RowScanIff(b, s[y], nx, ny + y, 0);
      ShapeScanIff(b, s, nx, ny, y + 1);
    }
  }

  /**
   * The scan is false exactly when some filled cell would leave the well
   * sideways or through the floor, or land on an occupied cell inside it.
   */
  lemma IsValidMoveIff(b: Board, p: Piece, dx: int, dy: int, rotate: bool)
    requires Rect(p.shape)
    ensures IsValidMove(b, p, dx, dy, rotate) <==>
      Fits(b, if rotate then Rotate(p.shape) else p.shape, p.x + dx, p.y + dy)
  {
    ShapeScanIff(b, if rotate then Rotate(p.shape) else p.shape, p.x + dx, p.y + dy, 0);
  }

  /** A shape with a filled cell that fits one row lower is not yet on the floor. */
  lemma ValidDropAboveFloor(b: Board, p: Piece)
    requires WellFormed(p) && IsValidMove(b, p, 0, 1, false)
    ensures p.y + 1 < Height
  {
    IsValidMoveIff(b, p, 0, 1, false);
    var y, x :| 0 <= y < |p.shape| && 0 <= x < |p.shape[y]| && p.shape[y][x];
    assert CellOk(b, p.x + x, p.y + 1 + y);
  }

  /** A shape lying wholly inside an empty well fits it. */
  lemma FitsEmptyInside(s: Shape, nx: int, ny: int)
    requires Rect(s) && 0 <= nx && nx + |s[0]| <= Width && 0 <= ny && ny + |s| <= Height
    ensures Fits(EmptyBoard, s, nx, ny)
  {
    forall y, x | 0 <= y < |s| && 0 <= x < |s[y]| && s[y][x]
      ensures CellOk(EmptyBoard, nx + x, ny + y)
    {
      assert EmptyBoard[ny + y] == EmptyRow;
    }
  }

  /** Every tetromino is at most two rows high and two to four columns wide. */
  lemma ShapeSize(k: Kind)
    ensures |ShapeOf(k)| <= 2 && 2 <= |ShapeOf(k)[0]| <= 4
  {
    match k
    case I => case O => case T => case S => case Z => case J => case L =>
  }

  /** Every freshly spawned tetromino fits an empty well. */
  lemma SpawnFitsEmptyBoard(k: Kind)
    ensures IsValidMove(EmptyBoard, Spawn(k), 0, 0, false)
  {
    ShapeSize(k);
    InsideEmptyIsValid(Spawn(k));
  }

  /** A piece lying wholly inside an empty well may stay where it is. */
  lemma InsideEmptyIsValid(p: Piece)
    requires Rect(p.shape) && 0 <= p.x && p.x + |p.shape[0]| <= Width && 0 <= p.y && p.y + |p.shape| <= Height
    ensures IsValidMove(EmptyBoard, p, 0, 0, false)
  {
    FitsEmptyInside(p.shape, p.x, p.y);
    IsValidMoveIff(EmptyBoard, p, 0, 0, false);
  }

  // -------------------------------------------------------------- stamping

  /** Does a filled cell of `p` sit on row `r`, column `c`? */
  predicate Covers(p: Piece, r: int, c: int)
    requires Rect(p.shape)
  {
    0 <= r - p.y < |p.shape| && 0 <= c - p.x < |p.shape[0]| && p.shape[r - p.y][c - p.x]
  }

  /** The well with one cell set, if the cell is inside it. */
  function Put(b: Board, r: int, c: int, k: Kind): (nb: Board)
    ensures forall r', c' :: 0 <= r' < Height && 0 <= c' < Width ==>
      nb[r'][c'] == if (r', c') == (r, c) then Filled(k) else b[r'][c']
  {
    if 0 <= r < Height && 0 <= c < Width then
      var row: seq<Cell> := b[r][c := Filled(k)];
      b[r := row]
    else b
  }

  /** The inner `forEach` of `placePiece`: cells of shape row `y` from `x` on. */
  function StampRow(b: Board, p: Piece, y: nat, x: nat): Board
    requires Rect(p.shape) && y < |p.shape| && x <= |p.shape[0]|
    decreases |p.shape[0]| - x
  {
    if x == |p.shape[0]| then b
    else StampRow(if p.shape[y][x] then Put(b, p.y + y, p.x + x, p.color) else b, p, y, x + 1)
  }

  /** The outer `forEach` of `placePiece`: shape rows from `y` on. */
  function StampRows(b: Board, p: Piece, y: nat): Board
    requires Rect(p.shape) && y <= |p.shape|
    decreases |p.shape| - y
  {
    if y == |p.shape| then b else StampRows(StampRow(b, p, y, 0), p, y + 1)
  }

  /** Writing the piece's colour into the well. */
  function Stamp(b: Board, p: Piece): Board
    requires Rect(p.shape)
  {
    StampRows(b, p, 0)
  }

  lemma {:induction false} StampRowEffect(b: Board, p: Piece, y: nat, x: nat)
    requires Rect(p.shape) && y < |p.shape| && x <= |p.shape[0]|
    ensures forall r, c :: 0 <= r < Height && 0 <= c < Width ==>
      StampRow(b, p, y, x)[r][c] ==
        if r - p.y == y && x <= c - p.x < |p.shape[0]| && p.shape[y][c - p.x] then Filled(p.color) else b[r][c]
    decreases |p.shape[0]| - x
  {
    if x < |p.shape[0]| {
      StampRowEffect(if p.shape[y][x] then Put(b, p.y + y, p.x + x, p.color) else b, p, y, x + 1);
    }
  }

  lemma {:induction false} StampRowsEffect(b: Board, p: Piece, y: nat)
    requires Rect(p.shape) && y <= |p.shape|
    ensures forall r, c :: 0 <= r < Height && 0 <= c < Width ==>
      StampRows(b, p, y)[r][c] == if Covers(p, r, c) && r - p.y >= y then Filled(p.color) else b[r][c]
    decreases |p.shape| - y
  {
    if y < |p.shape| {
      StampRowEffect(b, p, y, 0);
      StampRowsEffect(StampRow(b, p, y, 0), p, y + 1);
    }
  }

  /**
   * Stamping paints exactly the in-well cells under the piece's filled
   * cells with its colour; parts above the top are dropped.
   */
  lemma StampEffect(b: Board, p: Piece)
    requires Rect(p.shape)
    ensures forall r, c :: 0 <= r < Height && 0 <= c < Width ==>
      Stamp(b, p)[r][c] == if Covers(p, r, c) then Filled(p.color) else b[r][c]
  {
    StampRowsEffect(b, p, 0);
  }

  // ---------------------------------------------------------- line clearing

  predicate Full(row: seq<Cell>) {
    forall c :: 0 <= c < |row| ==> row[c] != Free
  }

  /** The rows that are not full, in order. */
  function Kept(rows: seq<seq<Cell>>): (k: seq<seq<Cell>>)
    ensures |k| <= |rows|
    ensures forall i :: 0 <= i < |k| ==> !Full(k[i]) && k[i] in rows
  {
    if |rows| == 0 then []
    else if Full(rows[0]) then Kept(rows[1..])
    else [rows[0]] + Kept(rows[1..])
  }

  function CountFull(rows: seq<seq<Cell>>): nat {
    if |rows| == 0 then 0
    else (if Full(rows[0]) then 1 else 0) + CountFull(rows[1..])
  }

  lemma {:induction false} KeptCount(rows: seq<seq<Cell>>)
    ensures |Kept(rows)| + CountFull(rows) == |rows|
  {
    if |rows| > 0 {
      KeptCount(rows[1..]);
    }
  }

  function EmptyRows(n: nat): (e: seq<seq<Cell>>)
    ensures |e| == n && forall i :: 0 <= i < n ==> e[i] == EmptyRow
  {
    if n == 0 then [] else [EmptyRow] + EmptyRows(n - 1)
  }

  /**
   * `checkLines` on the well: the full rows are gone, the others keep their
   * order, and one empty row per cleared line is added on top. The second
   * component is the number of cleared lines.
   */
  function ClearLines(b: Board): (res: (Board, nat))
    ensures res.1 == CountFull(b) && res.1 <= Height
    ensures forall r :: 0 <= r < Height ==> !Full(res.0[r])
    ensures res.0[res.1..] == Kept(b)
    ensures forall r :: 0 <= r < res.1 ==> res.0[r] == EmptyRow
  {
    KeptCount(b);
    RefillIsWell(b);
    var nb := EmptyRows(CountFull(b)) + Kept(b);
    RefillHasNoFullRow(b, nb);
    assert nb[CountFull(b)..] == Kept(b);
    (nb, CountFull(b))
  }

  /** The kept rows under one empty row per cleared line make a well of the same size. */
  lemma RefillIsWell(b: Board)
    ensures IsWell(EmptyRows(CountFull(b)) + Kept(b))
  {
    KeptCount(b);
    var k := Kept(b);
    var nb := EmptyRows(CountFull(b)) + k;
    forall r | 0 <= r < |nb| ensures |nb[r]| == Width {
      if r >= CountFull(b) { assert nb[r] == k[r - CountFull(b)] && k[r - CountFull(b)] in b; }
    }
  }

  /** Neither the new empty rows nor the kept ones are full. */
  lemma RefillHasNoFullRow(b: Board, nb: seq<seq<Cell>>)
    requires nb == EmptyRows(CountFull(b)) + Kept(b)
    ensures forall r :: 0 <= r < |nb| ==> !Full(nb[r])
  {
    var k := Kept(b);
    forall r | 0 <= r < |nb| ensures !Full(nb[r]) {
      if r < CountFull(b) { assert nb[r] == EmptyRow && EmptyRow[0] == Free; }
      else { assert nb[r] == k[r - CountFull(b)]; }
    }
  }

  /** Clearing a well without full rows changes nothing. */
  lemma ClearNothing(b: Board)
    requires forall r :: 0 <= r < Height ==> !Full(b[r])
    ensures ClearLines(b) == (b, 0)
  {
    KeptAllIff(b);
    CountFullZero(b);
  }

  lemma {:induction false} KeptAllIff(rows: seq<seq<Cell>>)
    requires forall r :: 0 <= r < |rows| ==> !Full(rows[r])
    ensures Kept(rows) == rows
  {
    if |rows| > 0 {
      KeptAllIff(rows[1..]);
      assert rows == [rows[0]] + rows[1..];
    }
  }

  lemma {:induction false} CountFullZero(rows: seq<seq<Cell>>)
    requires forall r :: 0 <= r < |rows| ==> !Full(rows[r])
    ensures CountFull(rows) == 0
  {
    if |rows| > 0 {
      CountFullZero(rows[1..]);
    }
  }

  /**
   * The source's loop: scan from the bottom row up; a full row is spliced
   * out, an empty row is pushed on top, and the same index is examined
   * again (`y++` before the loop's `y--`). It computes `ClearLines`.
   */
  method CheckLinesLoop(b: Board) returns (nb: Board, cleared: nat)
    ensures (nb, cleared) == ClearLines(b)
  {
    var board: seq<seq<Cell>> := b;
    cleared := 0;
    var y := Height - 1;
    ghost var j := Height;
    assert b[j..] == [];
    assert b[..j] == b;
    while y >= 0
      invariant -1 <= y < Height && 0 <= j <= Height
      invariant board == EmptyRows(cleared) + b[..j] + Kept(b[j..])
      invariant cleared == CountFull(b[j..])
      invariant y + 1 == cleared + j || (j == 0 && y + 1 < cleared)
      decreases y + 1 + j
    {
      if y >= cleared {
        ClearStep(b, j, cleared, board, y);
        if Full(board[y]) {
          board := [EmptyRow] + (board[..y] + board[y + 1..]);
          cleared := cleared + 1;
        } else {
          y := y - 1;
        }
        j := j - 1;
      } else {
        EmptyRowsAt(cleared, board, y);
        y := y - 1;
      }
    }
    assert b[..0] == [] && b[0..] == b;
    assert board == ClearLines(b).0;
    nb := board;
  }

  /** Below the pushed-in empty rows, the loop sees the next original row from the bottom and updates soundly. */
  lemma ClearStep(b: seq<seq<Cell>>, j: int, cleared: nat, board: seq<seq<Cell>>, y: int)
    requires cleared <= y && 0 <= j <= |b| && y + 1 == cleared + j
    requires board == EmptyRows(cleared) + b[..j] + Kept(b[j..])
    requires cleared == CountFull(b[j..])
    ensures j > 0 && y < |board| && board[y] == b[j - 1]
    ensures Full(board[y]) ==>
      && [EmptyRow] + (board[..y] + board[y + 1..]) == EmptyRows(cleared + 1) + b[..j - 1] + Kept(b[j - 1..])
      && cleared + 1 == CountFull(b[j - 1..])
    ensures !Full(board[y]) ==>
      && board == EmptyRows(cleared) + b[..j - 1] + Kept(b[j - 1..])
      && cleared == CountFull(b[j - 1..])
  {
    var pre, x, rest := b[..j - 1], b[j - 1], b[j..];
    SuffixUnfold(b, j - 1);
    assert b[..j] == pre + [x];
    var e := EmptyRows(cleared);
    var k := Kept(rest);
    SplitAt(e, pre, x, k, board);
    assert y == |e| + |pre|;
    if Full(x) {
      assert EmptyRows(cleared + 1) == [EmptyRow] + e;
      DropRow(e, pre, k, board, y);
    } else {
      assert Kept(b[j - 1..]) == [x] + k;
    }
  }

  /** Taking out the row between `e + pre` and `k` and pushing an empty row on top. */
  lemma DropRow(e: seq<seq<Cell>>, pre: seq<seq<Cell>>, k: seq<seq<Cell>>, board: seq<seq<Cell>>, y: int)
    requires 0 <= y < |board| && board[..y] == e + pre && board[y + 1..] == k
    ensures [EmptyRow] + (board[..y] + board[y + 1..]) == ([EmptyRow] + e) + pre + k
  {
  }

  lemma SuffixUnfold(b: seq<seq<Cell>>, i: int)
    requires 0 <= i < |b|
    ensures b[i..] == [b[i]] + b[i + 1..]
    ensures Kept(b[i..]) == (if Full(b[i]) then [] else [b[i]]) + Kept(b[i + 1..])
    ensures CountFull(b[i..]) == (if Full(b[i]) then 1 else 0) + CountFull(b[i + 1..])
  {
    assert b[i..][1..] == b[i + 1..];
  }

  lemma SplitAt(e: seq<seq<Cell>>, pre: seq<seq<Cell>>, x: seq<Cell>, k: seq<seq<Cell>>, board: seq<seq<Cell>>)
    requires board == e + (pre + [x]) + k
    ensures board[|e| + |pre|] == x
    ensures board[..|e| + |pre|] == e + pre
    ensures board[|e| + |pre| + 1..] == k
    ensures board == e + pre + ([x] + k)
  {
  }

  lemma EmptyRowsAt(cleared: nat, board: seq<seq<Cell>>, y: int)
    requires 0 <= y < cleared <= |board|
    requires board[..cleared] == EmptyRows(cleared)
    ensures !Full(board[y])
  {
    assert board[y] == board[..cleared][y] == EmptyRow;
    assert EmptyRow[0] == Free;
  }

  // -------------------------------------------------------------- the game

  function Max(a: int, b: int): int {
    if a >= b then a else b
  }

  /** The drop interval after a level-up: 50 ms faster per level, never under 100 ms. */
  function LevelSpeed(level: int): (ms: int)
    ensures ms >= 100
    ensures ms <= BaseSpeed || level < 1
  {
    Max(100, BaseSpeed - (level - 1) * 50)
  }

  datatype Game = Game(
    board: Board,
    current: Piece,
    next: Piece,
    score: nat,
    bestScore: nat,
    level: nat,
    highestLevel: nat,
    lines: nat,
    pieces: nat,
    running: bool,
    paused: bool,
    speed: int)

  /** What every reachable game keeps: well-formed pieces, the level tied to the lines, the speed tied to the level. */
  predicate Consistent(g: Game) {
    && WellFormed(g.current) && WellFormed(g.next)
    && g.level == g.lines / 10 + 1
    && g.speed == LevelSpeed(g.level)
  }

  /** `initializeGame` (with the speed multiplier at its default of 1). */
  function NewGame(first: Kind, second: Kind, bestScore: nat, highestLevel: nat): (g: Game)
    ensures Consistent(g) && g.board == EmptyBoard && g.score == 0 && g.lines == 0 && g.pieces == 0
    ensures !g.running && !g.paused
  {
    Game(EmptyBoard, Spawn(first), Spawn(second), 0, bestScore, 1, highestLevel, 0, 0, false, false, BaseSpeed * 1)
  }

  /** `resetGame`: a fresh game that keeps the best score and highest level. */
  function Reset(g: Game, first: Kind, second: Kind): (r: Game)
    ensures Consistent(r) && r.board == EmptyBoard && r.score == 0 && r.level == 1 && r.lines == 0
    ensures r.bestScore == g.bestScore && r.highestLevel == g.highestLevel
    ensures IsValidMove(r.board, r.current, 0, 0, false)
  {
    SpawnFitsEmptyBoard(first);
    NewGame(first, second, g.bestScore, g.highestLevel)
  }

  /** `resetScore`: forget the records. */
  function ResetScore(g: Game): (r: Game)
    ensures r.bestScore == 0 && r.highestLevel == 1
    ensures r.(bestScore := g.bestScore, highestLevel := g.highestLevel) == g
  {
    g.(bestScore := 0, highestLevel := 1)
  }

  /**
   * The scoring part of `checkLines` for `n` cleared lines: lines and score
   * (100 per line times the level before the clear) go up, and the level
   * and speed follow the line count when it reaches a higher level.
   */
  function Award(g: Game, n: nat): (r: Game)
    ensures n == 0 ==> r == g
    ensures r.lines == g.lines + n && r.score == g.score + n * 100 * g.level
    ensures n > 0 ==> r.level == Max(g.level, r.lines / 10 + 1)
    ensures r.level > g.level ==> r.speed == LevelSpeed(r.level)
    ensures r.level == g.level ==> r.speed == g.speed
    ensures r == g.(lines := r.lines, score := r.score, level := r.level, speed := r.speed)
    ensures Consistent(g) ==> Consistent(r)
  {
    if n == 0 then g
    else
      var lines := g.lines + n;
      var score := g.score + n * 100 * g.level;
      var newLevel := lines / 10 + 1;
      if newLevel > g.level then g.(lines := lines, score := score, level := newLevel, speed := LevelSpeed(newLevel))
      else g.(lines := lines, score := score)
  }

  /** `gameOver`: stop, and raise the records. */
  function GameOver(g: Game): (r: Game)
    ensures !r.running && !r.paused
    ensures r.bestScore == Max(g.bestScore, g.score) && r.highestLevel == Max(g.highestLevel, g.level)
    ensures r == g.(running := false, paused := false, bestScore := r.bestScore, highestLevel := r.highestLevel)
  {
    g.(running := false, paused := false, bestScore := Max(g.bestScore, g.score),
       highestLevel := Max(g.highestLevel, g.level))
  }

  /**
   * `placePiece`: stamp the current piece, clear lines, promote the next
   * piece, draw a new next piece of kind `k`, count the piece, and end the
   * game if the promoted piece does not fit where it spawned.
   */
  function Place(g: Game, k: Kind): (r: Game)
    requires WellFormed(g.current)
    ensures r.pieces == g.pieces + 1 && r.current == g.next && r.next == Spawn(k)
    ensures forall row :: 0 <= row < Height ==> !Full(r.board[row])
    ensures Rect(g.next.shape) && !IsValidMove(r.board, r.current, 0, 0, false) ==>
      !r.running && r.bestScore >= r.score && r.highestLevel >= r.level
    ensures Rect(g.next.shape) && IsValidMove(r.board, r.current, 0, 0, false) ==> r.running == g.running
    ensures var (cleared, n) := ClearLines(Stamp(g.board, g.current));
      && r.board == cleared
      && r.lines == g.lines + n && r.score == g.score + n * 100 * g.level
      && r.level == (if n > 0 then Max(g.level, r.lines / 10 + 1) else g.level)
      && (r.level > g.level ==> r.speed == LevelSpeed(r.level))
      && (r.level == g.level ==> r.speed == g.speed)
  {
    var (cleared, n) := ClearLines(Stamp(g.board, g.current));
    var awarded := Award(g.(board := cleared), n);
    var promoted := awarded.(current := g.next, next := Spawn(k), pieces := g.pieces + 1);
    if Rect(promoted.current.shape) && !IsValidMove(promoted.board, promoted.current, 0, 0, false) then GameOver(promoted)
    else promoted
  }

  /** Placing keeps every reachable-state invariant, and the game ends exactly when the promoted piece collides at spawn. */
  lemma PlaceKeepsConsistent(g: Game, k: Kind)
    requires Consistent(g)
    ensures Consistent(Place(g, k))
    ensures var r := Place(g, k);
      && (!IsValidMove(r.board, r.current, 0, 0, false) ==> !r.running && r.bestScore >= r.score)
      && (IsValidMove(r.board, r.current, 0, 0, false) ==> r.running == g.running)
  {
  }

  /** `movePiece(dx, dy)`: shift the piece only when the target is valid; the flag is the returned result. */
  function MovePiece(g: Game, dx: int, dy: int): (res: (Game, bool))
    requires WellFormed(g.current)
    ensures res.1 <==> Fits(g.board, g.current.shape, g.current.x + dx, g.current.y + dy)
    ensures res.1 ==> res.0 == g.(current := g.current.(x := g.current.x + dx, y := g.current.y + dy))
    ensures !res.1 ==> res.0 == g
  {
    IsValidMoveIff(g.board, g.current, dx, dy, false);
    if IsValidMove(g.board, g.current, dx, dy, false) then
      (g.(current := g.current.(x := g.current.x + dx, y := g.current.y + dy)), true)
    else (g, false)
  }

  /** `rotateCurrentPiece`: turn the piece only when the turned piece is valid where it stands. */
  function RotateCurrent(g: Game): (res: (Game, bool))
    requires WellFormed(g.current)
    ensures res.1 <==> Fits(g.board, Rotate(g.current.shape), g.current.x, g.current.y)
    ensures res.1 ==> res.0 == g.(current := g.current.(shape := Rotate(g.current.shape)))
    ensures !res.1 ==> res.0 == g
    ensures WellFormed(res.0.current)
  {
    var rotated := g.current.(shape := Rotate(g.current.shape));
    RotatedPiece(g.board, g.current);
    if IsValidMove(g.board, rotated, 0, 0, false) then (g.(current := rotated), true)
    else (g, false)
  }

  /** The turned piece is well formed, and it is valid in place exactly when the turned shape fits there. */
  lemma RotatedPiece(b: Board, p: Piece)
    requires WellFormed(p)
    ensures WellFormed(p.(shape := Rotate(p.shape)))
    ensures IsValidMove(b, p.(shape := Rotate(p.shape)), 0, 0, false) <==> Fits(b, Rotate(p.shape), p.x, p.y)
  {
    var rotated := p.(shape := Rotate(p.shape));
    IsValidMoveIff(b, rotated, 0, 0, false);
    assert rotated.x + 0 == p.x && rotated.y + 0 == p.y;
    RotateKeepsBlock(p.shape);
  }

  lemma RotateKeepsBlock(s: Shape)
    requires Rect(s) && HasBlock(s)
    ensures HasBlock(Rotate(s))
  {
    var y, x :| 0 <= y < |s| && 0 <= x < |s[y]| && s[y][x];
    assert Rotate(s)[x][|s| - 1 - y];
  }

  /** A piece that fits keeps fitting after any move or turn attempt. */
  lemma MovesKeepFit(g: Game, dx: int, dy: int)
    requires WellFormed(g.current) && Fits(g.board, g.current.shape, g.current.x, g.current.y)
    ensures var m := MovePiece(g, dx, dy).0.current; Fits(g.board, m.shape, m.x, m.y)
    ensures var t := RotateCurrent(g).0.current; Fits(g.board, t.shape, t.x, t.y)
  {
  }

  /** After falling `d` rows, the piece still fits one row further down. */
  predicate CanFall(b: Board, p: Piece, d: int)
    requires Rect(p.shape)
  {
    IsValidMove(b, p.(y := p.y + d), 0, 1, false)
  }

  /**
   * `hardDrop`: lower the piece while it fits one row further down, score 2
   * per row, then place it. `dropped` is the distance.
   */
  method HardDrop(g: Game, k: Kind) returns (r: Game, dropped: nat)
    requires WellFormed(g.current)
    ensures var rest := g.current.(y := g.current.y + dropped);
      && !IsValidMove(g.board, rest, 0, 1, false)
      && (forall d :: 0 <= d < dropped ==> CanFall(g.board, g.current, d))
      && r == Place(g.(current := rest, score := g.score + 2 * dropped), k)
  {
    dropped := DropDistance(g.board, g.current);
    r := Place(g.(current := g.current.(y := g.current.y + dropped), score := g.score + 2 * dropped), k);
  }

  /** How far `p` falls before the next row down no longer fits. */
  method DropDistance(b: Board, p: Piece) returns (dropped: nat)
    requires WellFormed(p)
    ensures !IsValidMove(b, p.(y := p.y + dropped), 0, 1, false)
    ensures forall d :: 0 <= d < dropped ==> CanFall(b, p, d)
  {
    var q := p;
    dropped := 0;
    while IsValidMove(b, q, 0, 1, false)
      invariant q == p.(y := p.y + dropped)
      invariant forall d :: 0 <= d < dropped ==> CanFall(b, p, d)
      decreases Height - q.y
    {
      ValidDropAboveFloor(b, q);
      q := q.(y := q.y + 1);
      dropped := dropped + 1;
    }
  }

  /**
   * One due tick of `gameStep`: nothing when stopped or paused; otherwise
   * fall one row, or place the piece when it cannot fall.
   */
  function Tick(g: Game, k: Kind): (r: Game)
    requires WellFormed(g.current)
    ensures !g.running || g.paused ==> r == g
    ensures g.running && !g.paused && Fits(g.board, g.current.shape, g.current.x, g.current.y + 1) ==>
      r == g.(current := g.current.(y := g.current.y + 1))
    ensures g.running && !g.paused && !Fits(g.board, g.current.shape, g.current.x, g.current.y + 1) ==>
      r == Place(g, k)
  {
    if !g.running || g.paused then g
    else
      var (moved, ok) := MovePiece(g, 0, 1);
      if ok then moved else Place(g, k)
  }

  /** A fallen piece, once stamped, sits on an occupied or floor cell below at least one of its blocks. */
  lemma TickPlacesOnlyResting(g: Game, k: Kind)
    requires WellFormed(g.current) && g.running && !g.paused
    requires Tick(g, k).pieces == g.pieces + 1
    ensures exists y, x :: (0 <= y < |g.current.shape| && 0 <= x < |g.current.shape[y]| && g.current.shape[y][x]
      && !CellOk(g.board, g.current.x + x, g.current.y + 1 + y))
  {
  }
}
