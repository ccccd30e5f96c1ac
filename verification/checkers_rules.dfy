/**
 * The rules both checkers copies share (public/assets/js/checkers.js and
 * assets/js/checkers.js declare them identically): the initial layout,
 * move and jump generation, applying a move with promotion, counting
 * pieces, the win check, and the click-driven game state.
 */
module CheckersRules {
  import opened Util

  datatype Color = Red | Black

  function Opponent(c: Color): Color {
    if c == Red then Black else Red
  }

  datatype Piece = Piece(color: Color, king: bool)

  /** A board square: `null` or a piece object. */
  datatype Square = Empty | Occupied(piece: Piece)

  predicate Owns(s: Square, c: Color) {
    s.Occupied? && s.piece.color == c
  }

  /** `isValidPosition`. */
  predicate InBounds(r: int, c: int) {
    0 <= r < 8 && 0 <= c < 8
  }

  type Coord = x: int | 0 <= x < 8

  datatype Pos = Pos(row: Coord, col: Coord)

  datatype MoveKind = Step | Jump(captured: Pos)

  /** An entry of `validMoves`: the destination and, for a jump, the captured square. */
  datatype Move = Move(row: Coord, col: Coord, kind: MoveKind)

  predicate IsBoard(b: seq<seq<Square>>) {
    |b| == 8 && forall r :: 0 <= r < 8 ==> |b[r]| == 8
  }

  const Blank: seq<Square> := [Empty, Empty, Empty, Empty, Empty, Empty, Empty, Empty]

  type Board = b: seq<seq<Square>> | IsBoard(b)
    witness [Blank, Blank, Blank, Blank, Blank, Blank, Blank, Blank]

  const EmptyBoard: Board := [Blank, Blank, Blank, Blank, Blank, Blank, Blank, Blank]

  // --------------------------------------------------------------- layout

  /** `createBoard`'s rule for one square: men on the dark squares of the first and last three rows. */
  function InitialSquare(r: int, c: int): Square {
    if (r + c) % 2 == 1 then
      if r < 3 then Occupied(Piece(Black, false))
      else if r > 4 then Occupied(Piece(Red, false))
      else Empty
    else Empty
  }

  const B: Square := Occupied(Piece(Black, false))
  const R: Square := Occupied(Piece(Red, false))

  /** `createBoard`, row by row. */
  function InitialBoard(): (b: Board)
    ensures forall r, c :: 0 <= r < 8 && 0 <= c < 8 ==> b[r][c] == InitialSquare(r, c)
  {
    var b := [[Empty, B, Empty, B, Empty, B, Empty, B],
              [B, Empty, B, Empty, B, Empty, B, Empty],
              [Empty, B, Empty, B, Empty, B, Empty, B],
              Blank, Blank,
              [R, Empty, R, Empty, R, Empty, R, Empty],
              [Empty, R, Empty, R, Empty, R, Empty, R],
              [R, Empty, R, Empty, R, Empty, R, Empty]];
    assert forall c :: 0 <= c < 8 ==> b[0][c] == InitialSquare(0, c);
    assert forall c :: 0 <= c < 8 ==> b[1][c] == InitialSquare(1, c);
    assert forall c :: 0 <= c < 8 ==> b[2][c] == InitialSquare(2, c);
    assert forall c :: 0 <= c < 8 ==> b[3][c] == InitialSquare(3, c);
    assert forall c :: 0 <= c < 8 ==> b[4][c] == InitialSquare(4, c);
    assert forall c :: 0 <= c < 8 ==> b[5][c] == InitialSquare(5, c);
    assert forall c :: 0 <= c < 8 ==> b[6][c] == InitialSquare(6, c);
    assert forall c :: 0 <= c < 8 ==> b[7][c] == InitialSquare(7, c);
    b
  }

  // --------------------------------------------------------------- counting

  function Mark(s: Square, c: Color): nat {
    if Owns(s, c) then 1 else 0
  }

  function CountRow(row: seq<Square>, c: Color): nat {
    if |row| == 0 then 0 else Mark(row[0], c) + CountRow(row[1..], c)
  }

  /** `countPieces`. */
  function CountPieces(rows: seq<seq<Square>>, c: Color): nat {
    if |rows| == 0 then 0 else CountRow(rows[0], c) + CountPieces(rows[1..], c)
  }

  /** The opening position has twelve men a side. */
  lemma InitialCounts(c: Color)
    ensures CountPieces(InitialBoard(), c) == 12
  {
    var b := InitialBoard();
    CountRows8(b, c);
    InitialRowCount(0, c); InitialRowCount(1, c); InitialRowCount(2, c); InitialRowCount(3, c);
    InitialRowCount(4, c); InitialRowCount(5, c); InitialRowCount(6, c); InitialRowCount(7, c);
  }

  /** Each of the colour's three home rows opens with four men; the other rows hold none of its pieces. */
  lemma InitialRowCount(r: int, c: Color)
    requires 0 <= r < 8
    ensures CountRow(InitialBoard()[r], c) == if (c == Black && r < 3) || (c == Red && r > 4) then 4 else 0
  {
    var row := InitialBoard()[r];
    CountRow8(row, c);
    assert forall k :: 0 <= k < 8 ==> row[k] == InitialSquare(r, k);
  }

  /** Opening pieces are men on dark squares, black on rows 0-2 and red on rows 5-7. */
  lemma InitialLayout()
    ensures forall r, c :: 0 <= r < 8 && 0 <= c < 8 && InitialBoard()[r][c].Occupied? ==>
      !InitialBoard()[r][c].piece.king && (r + c) % 2 == 1
    ensures forall r, c :: 0 <= r < 8 && 0 <= c < 8 ==>
      (Owns(InitialBoard()[r][c], Black) ==> r < 3) && (Owns(InitialBoard()[r][c], Red) ==> r > 4)
  {
  }

  lemma CountSuffix(row: seq<Square>, k: int, c: Color)
    requires 0 <= k < |row|
    ensures CountRow(row[k..], c) == Mark(row[k], c) + CountRow(row[k + 1..], c)
  {
    assert row[k..][0] == row[k] && row[k..][1..] == row[k + 1..];
  }

  lemma CountRow8(row: seq<Square>, c: Color)
    requires |row| == 8
    ensures CountRow(row, c) == Mark(row[0], c) + Mark(row[1], c) + Mark(row[2], c) + Mark(row[3], c)
                              + Mark(row[4], c) + Mark(row[5], c) + Mark(row[6], c) + Mark(row[7], c)
  {
    assert row[0..] == row;
    CountSuffix(row, 0, c); CountSuffix(row, 1, c); CountSuffix(row, 2, c); CountSuffix(row, 3, c);
    CountSuffix(row, 4, c); CountSuffix(row, 5, c); CountSuffix(row, 6, c); CountSuffix(row, 7, c);
    assert row[8..] == [];
  }

  lemma RowsSuffix(rows: seq<seq<Square>>, k: int, c: Color)
    requires 0 <= k < |rows|
    ensures CountPieces(rows[k..], c) == CountRow(rows[k], c) + CountPieces(rows[k + 1..], c)
  {
    assert rows[k..][0] == rows[k] && rows[k..][1..] == rows[k + 1..];
  }

  lemma CountRows8(rows: seq<seq<Square>>, c: Color)
    requires |rows| == 8
    ensures CountPieces(rows, c) == CountRow(rows[0], c) + CountRow(rows[1], c) + CountRow(rows[2], c) + CountRow(rows[3], c)
                                  + CountRow(rows[4], c) + CountRow(rows[5], c) + CountRow(rows[6], c) + CountRow(rows[7], c)
  {
    assert rows[0..] == rows;
    RowsSuffix(rows, 0, c); RowsSuffix(rows, 1, c); RowsSuffix(rows, 2, c); RowsSuffix(rows, 3, c);
    RowsSuffix(rows, 4, c); RowsSuffix(rows, 5, c); RowsSuffix(rows, 6, c); RowsSuffix(rows, 7, c);
    assert rows[8..] == [];
  }

  lemma {:induction false} CountRowUpdate(row: seq<Square>, i: int, v: Square, c: Color)
    requires 0 <= i < |row|
    ensures CountRow(row[i := v], c) + Mark(row[i], c) == CountRow(row, c) + Mark(v, c)
  {
    if i > 0 {
      CountRowUpdate(row[1..], i - 1, v, c);
      assert row[i := v][1..] == row[1..][i - 1 := v];
    } else {
      assert row[i := v][1..] == row[1..];
    }
  }

  lemma {:induction false} CountPiecesUpdate(rows: seq<seq<Square>>, r: int, row: seq<Square>, c: Color)
    requires 0 <= r < |rows|
    ensures CountPieces(rows[r := row], c) + CountRow(rows[r], c) == CountPieces(rows, c) + CountRow(row, c)
  {
    if r > 0 {
      CountPiecesUpdate(rows[1..], r - 1, row, c);
      assert rows[r := row][1..] == rows[1..][r - 1 := row];
    } else {
      assert rows[r := row][1..] == rows[1..];
    }
  }

  function Set(b: Board, p: Pos, v: Square): (r: Board)
    ensures r[p.row][p.col] == v
    ensures forall i, j :: 0 <= i < 8 && 0 <= j < 8 && (i != p.row || j != p.col) ==> r[i][j] == b[i][j]
  {
    b[p.row := b[p.row][p.col := v]]
  }

  /** Writing one square changes each colour's count by what left and what arrived. */
  lemma SetCount(b: Board, p: Pos, v: Square, c: Color)
    ensures CountPieces(Set(b, p, v), c) + Mark(b[p.row][p.col], c) == CountPieces(b, c) + Mark(v, c)
  {
    CountRowUpdate(b[p.row], p.col, v, c);
    CountPiecesUpdate(b, p.row, b[p.row][p.col := v], c);
  }

  // ----------------------------------------------------------------- moves

  /** Row directions a piece may move in: kings both ways, red men up the board, black men down. */
  function Directions(p: Piece): (ds: seq<int>)
    ensures forall i :: 0 <= i < |ds| ==> ds[i] == 1 || ds[i] == -1
  {
    if p.king then [-1, 1] else if p.color == Red then [-1] else [1]
  }

  predicate Unit(d: int) {
    d == 1 || d == -1
  }

  function StepTo(b: Board, r: Coord, c: Coord, dr: int, dc: int): seq<Move> {
    if InBounds(r + dr, c + dc) && b[r + dr][c + dc].Empty? then [Move(r + dr, c + dc, Step)] else []
  }

  function JumpTo(b: Board, r: Coord, c: Coord, dr: int, dc: int, mover: Color): seq<Move>
    requires Unit(dr) && Unit(dc)
  {
    if InBounds(r + 2 * dr, c + 2 * dc) && b[r + 2 * dr][c + 2 * dc].Empty? && Owns(b[r + dr][c + dc], Opponent(mover))
    then [Move(r + 2 * dr, c + 2 * dc, Jump(Pos(r + dr, c + dc)))]
    else []
  }

  function Steps(b: Board, r: Coord, c: Coord, ds: seq<int>): seq<Move> {
    if |ds| == 0 then [] else StepTo(b, r, c, ds[0], -1) + StepTo(b, r, c, ds[0], 1) + Steps(b, r, c, ds[1..])
  }

  function Jumps(b: Board, r: Coord, c: Coord, ds: seq<int>, mover: Color): seq<Move>
    requires forall i :: 0 <= i < |ds| ==> Unit(ds[i])
  {
    if |ds| == 0 then []
    else JumpTo(b, r, c, ds[0], -1, mover) + JumpTo(b, r, c, ds[0], 1, mover) + Jumps(b, r, c, ds[1..], mover)
  }

  /** `getValidMoves`: nothing unless the square holds the player's piece; all steps first, then all jumps. */
  function ValidMoves(b: Board, player: Color, r: Coord, c: Coord): seq<Move> {
    match b[r][c]
    case Empty => []
    case Occupied(p) =>
      if p.color != player then []
      else Steps(b, r, c, Directions(p)) + Jumps(b, r, c, Directions(p), p.color)
  }

  /** A diagonal step onto an empty square in one of the piece's directions. */
  predicate LegalStep(b: Board, r: Coord, c: Coord, ds: seq<int>, m: Move) {
    m.kind == Step && (m.row - r) in ds && Unit(m.col - c) && b[m.row][m.col].Empty?
  }

  /** A jump over an adjacent opponent onto the empty square beyond it. */
  predicate LegalJump(b: Board, r: Coord, c: Coord, ds: seq<int>, mover: Color, m: Move) {
    && m.kind.Jump?
    && (m.kind.captured.row - r) in ds && Unit(m.kind.captured.col - c)
    && m.row == 2 * m.kind.captured.row - r && m.col == 2 * m.kind.captured.col - c
    && b[m.row][m.col].Empty?
    && Owns(b[m.kind.captured.row][m.kind.captured.col], Opponent(mover))
  }

  /** The rules of a single checkers move, stated without reference to the generation order. */
  predicate LegalMove(b: Board, player: Color, r: Coord, c: Coord, m: Move) {
    && Owns(b[r][c], player)
    && (LegalStep(b, r, c, Directions(b[r][c].piece), m) || LegalJump(b, r, c, Directions(b[r][c].piece), player, m))
  }

  lemma {:induction false} StepsIff(b: Board, r: Coord, c: Coord, ds: seq<int>, m: Move)
    ensures m in Steps(b, r, c, ds) <==> LegalStep(b, r, c, ds, m)
  {
    if |ds| > 0 {
      StepsIff(b, r, c, ds[1..], m);
      assert ds == [ds[0]] + ds[1..];
      if m in Steps(b, r, c, ds) {
        if m in StepTo(b, r, c, ds[0], -1) || m in StepTo(b, r, c, ds[0], 1) {
          assert (m.row - r) == ds[0];
        }
      }
      if LegalStep(b, r, c, ds, m) && m.row - r == ds[0] {
        if m.col - c == -1 {
          assert m == Move(r + ds[0], c - 1, Step);
        } else {
          assert m == Move(r + ds[0], c + 1, Step);
        }
      }
    }
  }

  lemma JumpToIff(b: Board, r: Coord, c: Coord, dr: int, dc: int, mover: Color, m: Move)
    requires Unit(dr) && Unit(dc)
    ensures m in JumpTo(b, r, c, dr, dc, mover) <==>
      LegalJump(b, r, c, [dr], mover, m) && m.kind.captured.col - c == dc
  {
    if LegalJump(b, r, c, [dr], mover, m) && m.kind.captured.col - c == dc {
      assert m == Move(r + 2 * dr, c + 2 * dc, Jump(Pos(r + dr, c + dc)));
    }
  }

  lemma {:induction false} JumpsIff(b: Board, r: Coord, c: Coord, ds: seq<int>, mover: Color, m: Move)
    requires forall i :: 0 <= i < |ds| ==> Unit(ds[i])
    ensures m in Jumps(b, r, c, ds, mover) <==> LegalJump(b, r, c, ds, mover, m)
  {
    if |ds| > 0 {
      JumpsIff(b, r, c, ds[1..], mover, m);
      JumpToIff(b, r, c, ds[0], -1, mover, m);
      JumpToIff(b, r, c, ds[0], 1, mover, m);
      assert ds == [ds[0]] + ds[1..];
    }
  }

  /** Generation is exactly the rules: every listed move is legal and every legal move is listed. */
  lemma ValidMovesIff(b: Board, player: Color, r: Coord, c: Coord, m: Move)
    ensures m in ValidMoves(b, player, r, c) <==> LegalMove(b, player, r, c, m)
  {
    if Owns(b[r][c], player) {
      var ds := Directions(b[r][c].piece);
      StepsIff(b, r, c, ds, m);
      JumpsIff(b, r, c, ds, player, m);
    }
  }

  /** A legal move never lands on its own square, and a capture lies strictly between start and end. */
  predicate Apart(from: Pos, m: Move) {
    && m.row != from.row
    && (m.kind.Jump? ==> m.kind.captured.row != from.row && m.kind.captured.row != m.row)
  }

  lemma LegalIsApart(b: Board, player: Color, from: Pos, m: Move)
    requires LegalMove(b, player, from.row, from.col, m)
    ensures Apart(from, m)
  {
  }

  /** Red reaching row 0 or black reaching row 7 is crowned. */
  function Promote(s: Square, row: int): Square {
    if s.Occupied? && ((s.piece.color == Red && row == 0) || (s.piece.color == Black && row == 7))
    then Occupied(s.piece.(king := true))
    else s
  }

  function Dest(m: Move): Pos {
    Pos(m.row, m.col)
  }

  /** The board half of `makeMove`: copy the piece, empty its square, remove a captured piece, crown. */
  function ApplyMove(b: Board, from: Pos, m: Move): (r: Board)
    ensures Apart(from, m) ==>
      && r[m.row][m.col] == Promote(b[from.row][from.col], m.row)
      && r[from.row][from.col] == Empty
      && (m.kind.Jump? ==> r[m.kind.captured.row][m.kind.captured.col] == Empty)
      && (forall i, j :: (0 <= i < 8 && 0 <= j < 8 && Pos(i, j) != from && Pos(i, j) != Dest(m)
            && (m.kind.Jump? ==> Pos(i, j) != m.kind.captured)) ==> r[i][j] == b[i][j])
  {
    var piece := b[from.row][from.col];
    var b1 := Set(b, Dest(m), piece);
    var b2 := Set(b1, from, Empty);
    var b3 := if m.kind.Jump? then Set(b2, m.kind.captured, Empty) else b2;
    if Promote(piece, m.row) != piece then Set(b3, Dest(m), Promote(piece, m.row)) else b3
  }

  lemma PromoteMark(s: Square, row: int, c: Color)
    ensures Mark(Promote(s, row), c) == Mark(s, c)
  {
  }

  /** A step keeps both counts; a jump removes exactly one opposing piece. */
  lemma ApplyMoveCounts(b: Board, player: Color, from: Pos, m: Move)
    requires LegalMove(b, player, from.row, from.col, m)
    ensures CountPieces(ApplyMove(b, from, m), player) == CountPieces(b, player)
    ensures CountPieces(ApplyMove(b, from, m), Opponent(player)) ==
      CountPieces(b, Opponent(player)) - (if m.kind.Jump? then 1 else 0)
  {
    var piece := b[from.row][from.col];
    var b2 := Set(Set(b, Dest(m), piece), from, Empty);
    var b3 := if m.kind.Jump? then Set(b2, m.kind.captured, Empty) else b2;
    var r := if Promote(piece, m.row) != piece then Set(b3, Dest(m), Promote(piece, m.row)) else b3;
    assert ApplyMove(b, from, m) == r;
    LegalIsApart(b, player, from, m);
    MovedCount(b, player, from, m, b2, b3, r, player);
    MovedCount(b, player, from, m, b2, b3, r, Opponent(player));
  }

  /** The count of colour `c` across the three updates `ApplyMove` makes. */
  lemma MovedCount(b: Board, player: Color, from: Pos, m: Move, b2: Board, b3: Board, r: Board, c: Color)
    requires Owns(b[from.row][from.col], player) && b[m.row][m.col].Empty? && Apart(from, m)
    requires m.kind.Jump? ==> Owns(b[m.kind.captured.row][m.kind.captured.col], Opponent(player))
    requires b2 == Set(Set(b, Dest(m), b[from.row][from.col]), from, Empty)
    requires b3 == if m.kind.Jump? then Set(b2, m.kind.captured, Empty) else b2
    requires r == if Promote(b[from.row][from.col], m.row) != b[from.row][from.col]
      then Set(b3, Dest(m), Promote(b[from.row][from.col], m.row)) else b3
    ensures CountPieces(r, c) == CountPieces(b, c) - (if m.kind.Jump? && c == Opponent(player) then 1 else 0)
  {
    var piece := b[from.row][from.col];
    StepKeepsCount(b, from, m, b2, c);
    if m.kind.Jump? {
      CaptureCount(b2, m.kind.captured, player, c);
    }
    assert b3[m.row][m.col] == piece;
    if Promote(piece, m.row) != piece {
      CrownKeepsCount(b3, Dest(m), m.row, c);
    }
  }

  /** Moving a piece onto an empty square keeps every count. */
  lemma StepKeepsCount(b: Board, from: Pos, m: Move, b2: Board, c: Color)
    requires b[m.row][m.col].Empty? && m.row != from.row
    requires b2 == Set(Set(b, Dest(m), b[from.row][from.col]), from, Empty)
    ensures CountPieces(b2, c) == CountPieces(b, c)
  {
    var b1 := Set(b, Dest(m), b[from.row][from.col]);
    SetCount(b, Dest(m), b[from.row][from.col], c);
    SetCount(b1, from, Empty, c);
  }

  /** Emptying an opponent's square takes one from the opponent's count only. */
  lemma CaptureCount(b: Board, p: Pos, player: Color, c: Color)
    requires Owns(b[p.row][p.col], Opponent(player))
    ensures CountPieces(Set(b, p, Empty), c) == CountPieces(b, c) - (if c == Opponent(player) then 1 else 0)
  {
    SetCount(b, p, Empty, c);
  }

  /** Crowning the piece on a square keeps every count. */
  lemma CrownKeepsCount(b: Board, p: Pos, row: int, c: Color)
    ensures CountPieces(Set(b, p, Promote(b[p.row][p.col], row)), c) == CountPieces(b, c)
  {
    SetCount(b, p, Promote(b[p.row][p.col], row), c);
    PromoteMark(b[p.row][p.col], row, c);
  }

  // ------------------------------------------------------------ all pieces

  function RowPieces(b: Board, c: Color, r: Coord, from: nat): seq<Pos>
    requires from <= 8
    decreases 8 - from
  {
    if from == 8 then []
    else (if Owns(b[r][from], c) then [Pos(r, from)] else []) + RowPieces(b, c, r, from + 1)
  }

  function PiecesFrom(b: Board, c: Color, from: nat): seq<Pos>
    requires from <= 8
    decreases 8 - from
  {
    if from == 8 then [] else RowPieces(b, c, from, 0) + PiecesFrom(b, c, from + 1)
  }

  /** `getAllPieces`: the squares holding the colour's pieces, row by row. */
  function AllPieces(b: Board, c: Color): seq<Pos> {
    PiecesFrom(b, c, 0)
  }

  lemma {:induction false} RowPiecesIff(b: Board, c: Color, r: Coord, from: nat, p: Pos)
    requires from <= 8
    ensures p in RowPieces(b, c, r, from) <==> p.row == r && p.col >= from && Owns(b[r][p.col], c)
    decreases 8 - from
  {
    if from < 8 {
      RowPiecesIff(b, c, r, from + 1, p);
      var head := if Owns(b[r][from], c) then [Pos(r, from)] else [];
      assert RowPieces(b, c, r, from) == head + RowPieces(b, c, r, from + 1);
      assert p in head <==> p.row == r && p.col == from && Owns(b[r][from], c);
    }
  }

  lemma {:induction false} PiecesFromIff(b: Board, c: Color, from: nat, p: Pos)
    requires from <= 8
    ensures p in PiecesFrom(b, c, from) <==> p.row >= from && Owns(b[p.row][p.col], c)
    decreases 8 - from
  {
    if from < 8 {
      PiecesFromIff(b, c, from + 1, p);
      RowPiecesIff(b, c, from, 0, p);
    }
  }

  lemma AllPiecesIff(b: Board, c: Color, p: Pos)
    ensures p in AllPieces(b, c) <==> Owns(b[p.row][p.col], c)
  {
    PiecesFromIff(b, c, 0, p);
  }

  /** `currentPlayerPieces.some(p => getValidMoves(p).length > 0)`. */
  function AnyMovable(b: Board, player: Color, ps: seq<Pos>): bool {
    if |ps| == 0 then false
    else |ValidMoves(b, player, ps[0].row, ps[0].col)| > 0 || AnyMovable(b, player, ps[1..])
  }

  predicate HasMove(b: Board, player: Color) {
    AnyMovable(b, player, AllPieces(b, player))
  }

  lemma {:induction false} AnyMovableIff(b: Board, player: Color, ps: seq<Pos>)
    ensures AnyMovable(b, player, ps) <==> exists i :: 0 <= i < |ps| && |ValidMoves(b, player, ps[i].row, ps[i].col)| > 0
  {
    if |ps| > 0 {
      AnyMovableIff(b, player, ps[1..]);
      if AnyMovable(b, player, ps[1..]) {
        var i :| 0 <= i < |ps[1..]| && |ValidMoves(b, player, ps[1..][i].row, ps[1..][i].col)| > 0;
        assert ps[1..][i] == ps[i + 1];
      }
      if exists i :: 0 <= i < |ps| && |ValidMoves(b, player, ps[i].row, ps[i].col)| > 0 {
        var i :| 0 <= i < |ps| && |ValidMoves(b, player, ps[i].row, ps[i].col)| > 0;
        if i > 0 {
          assert ps[1..][i - 1] == ps[i];
        }
      }
    }
  }

  lemma HasMoveToLegal(b: Board, player: Color)
    ensures HasMove(b, player) ==> exists p: Pos, m: Move :: LegalMove(b, player, p.row, p.col, m)
  {
    var ps := AllPieces(b, player);
    AnyMovableIff(b, player, ps);
    if HasMove(b, player) {
      var i :| 0 <= i < |ps| && |ValidMoves(b, player, ps[i].row, ps[i].col)| > 0;
      var m := ValidMoves(b, player, ps[i].row, ps[i].col)[0];
      ValidMovesIff(b, player, ps[i].row, ps[i].col, m);
    }
  }

  lemma LegalToHasMove(b: Board, player: Color, p: Pos, m: Move)
    requires LegalMove(b, player, p.row, p.col, m)
    ensures HasMove(b, player)
  {
    var ps := AllPieces(b, player);
    ValidMovesIff(b, player, p.row, p.col, m);
    AllPiecesIff(b, player, p);
    var i :| 0 <= i < |ps| && ps[i] == p;
    AnyMovableIff(b, player, ps);
  }

  /** The player has a move exactly when some square of theirs has a legal move under the rules. */
  lemma HasMoveIff(b: Board, player: Color)
    ensures HasMove(b, player) <==> exists p: Pos, m: Move :: LegalMove(b, player, p.row, p.col, m)
  {
    HasMoveToLegal(b, player);
    if exists p: Pos, m: Move :: LegalMove(b, player, p.row, p.col, m) {
      var p: Pos, m: Move :| LegalMove(b, player, p.row, p.col, m);
      LegalToHasMove(b, player, p, m);
    }
  }

  /** Two legal moves of one piece with the same destination are the same move. */
  lemma UniqueDestination(b: Board, player: Color, p: Pos, m1: Move, m2: Move)
    requires LegalMove(b, player, p.row, p.col, m1) && LegalMove(b, player, p.row, p.col, m2)
    requires Dest(m1) == Dest(m2)
    ensures m1 == m2
  {
  }

  /** Looking up a generated move by its destination finds that very move. */
  lemma FindGenerated(b: Board, player: Color, p: Pos, m: Move)
    requires m in ValidMoves(b, player, p.row, p.col)
    ensures FindMove(ValidMoves(b, player, p.row, p.col), Dest(m)) == Some(m)
  {
    var ms := ValidMoves(b, player, p.row, p.col);
    var i :| 0 <= i < |ms| && ms[i] == m;
    var found := FindMove(ms, Dest(m));
    assert found.Some?;
    ValidMovesIff(b, player, p.row, p.col, m);
    ValidMovesIff(b, player, p.row, p.col, found.value);
    UniqueDestination(b, player, p, m, found.value);
  }

  /** One entry of the AI's move list: the piece and where it goes. */
  datatype Candidate = Candidate(from: Pos, move: Move)

  function Tag(p: Pos, ms: seq<Move>): (r: seq<Candidate>)
    ensures |r| == |ms| && forall i :: 0 <= i < |ms| ==> r[i] == Candidate(p, ms[i])
  {
    if |ms| == 0 then [] else [Candidate(p, ms[0])] + Tag(p, ms[1..])
  }

  function CandidatesOf(b: Board, player: Color, ps: seq<Pos>): seq<Candidate> {
    if |ps| == 0 then []
    else Tag(ps[0], ValidMoves(b, player, ps[0].row, ps[0].col)) + CandidatesOf(b, player, ps[1..])
  }

  /** The move list the AI draws from: each piece of `getAllPieces` with each of its `getValidMoves`. */
  function AllMoves(b: Board, player: Color): seq<Candidate> {
    CandidatesOf(b, player, AllPieces(b, player))
  }

  lemma {:induction false} CandidatesIff(b: Board, player: Color, ps: seq<Pos>, x: Candidate)
    ensures x in CandidatesOf(b, player, ps) <==> x.from in ps && x.move in ValidMoves(b, player, x.from.row, x.from.col)
  {
    if |ps| > 0 {
      CandidatesIff(b, player, ps[1..], x);
      CandidatesCons(b, player, ps, x);
      assert x.from in ps <==> x.from == ps[0] || x.from in ps[1..] by {
        assert ps == [ps[0]] + ps[1..];
      }
    }
  }

  lemma CandidatesCons(b: Board, player: Color, ps: seq<Pos>, x: Candidate)
    requires |ps| > 0
    ensures x in CandidatesOf(b, player, ps) <==>
      (x.from == ps[0] && x.move in ValidMoves(b, player, ps[0].row, ps[0].col)) || x in CandidatesOf(b, player, ps[1..])
  {
    var ms := ValidMoves(b, player, ps[0].row, ps[0].col);
    TagIff(ps[0], ms, x);
    assert CandidatesOf(b, player, ps) == Tag(ps[0], ms) + CandidatesOf(b, player, ps[1..]);
  }

  lemma TagIff(p: Pos, ms: seq<Move>, x: Candidate)
    ensures x in Tag(p, ms) <==> x.from == p && x.move in ms
  {
    var t := Tag(p, ms);
    if x in t {
      var i :| 0 <= i < |t| && t[i] == x;
    }
    if x.from == p && x.move in ms {
      var i :| 0 <= i < |ms| && ms[i] == x.move;
      assert t[i] == x;
    }
  }

  /** The AI's list holds exactly the legal moves of the side. */
  lemma AllMovesIff(b: Board, player: Color, x: Candidate)
    ensures x in AllMoves(b, player) <==> LegalMove(b, player, x.from.row, x.from.col, x.move)
  {
    CandidatesIff(b, player, AllPieces(b, player), x);
    ValidMovesIff(b, player, x.from.row, x.from.col, x.move);
    AllPiecesIff(b, player, x.from);
  }

  /** The list is empty exactly when the side has no move. */
  lemma AllMovesEmptyIff(b: Board, player: Color)
    ensures |AllMoves(b, player)| > 0 <==> HasMove(b, player)
  {
    var xs := AllMoves(b, player);
    HasMoveToLegal(b, player);
    if |xs| > 0 {
      AllMovesIff(b, player, xs[0]);
      LegalToHasMove(b, player, xs[0].from, xs[0].move);
    }
    if HasMove(b, player) {
      var p: Pos, m: Move :| LegalMove(b, player, p.row, p.col, m);
      AllMovesIff(b, player, Candidate(p, m));
    }
  }

  /**
   * The scan both AIs use to pick their best move: walk the list keeping the
   * first entry whose score is strictly above everything before it, so the
   * result is the first entry of highest score.
   */
  function FirstBest(scores: seq<int>): (i: nat)
    requires |scores| > 0
    ensures i < |scores|
    ensures forall j :: 0 <= j < |scores| ==> scores[j] <= scores[i]
    ensures forall j :: 0 <= j < i ==> scores[j] < scores[i]
  {
    if |scores| == 1 then 0
    else
      var k := FirstBest(scores[..|scores| - 1]);
      if scores[|scores| - 1] > scores[k] then |scores| - 1 else k
  }

  /** `checkWin`: a side with no pieces loses; otherwise the player named loses if they cannot move. */
  function CheckWin(b: Board, player: Color): (w: Option<Color>)
    ensures CountPieces(b, Red) == 0 ==> w == Some(Black)
    ensures CountPieces(b, Red) > 0 && CountPieces(b, Black) == 0 ==> w == Some(Red)
    ensures CountPieces(b, Red) > 0 && CountPieces(b, Black) > 0 ==>
      (w == None <==> HasMove(b, player)) && (w != None ==> w == Some(Opponent(player)))
  {
    if CountPieces(b, Red) == 0 then Some(Black)
    else if CountPieces(b, Black) == 0 then Some(Red)
    else if !HasMove(b, player) then Some(Opponent(player))
    else None
  }

  // ------------------------------------------------------------------ game

  datatype Mode = HumanMode | AIMode

  datatype Game = Game(
    board: Board,
    current: Color,
    active: bool,
    redScore: nat,
    blackScore: nat,
    selected: Option<Pos>,
    validMoves: seq<Move>,
    moveCount: nat)

  function Score(g: Game, c: Color): nat {
    if c == Red then g.redScore else g.blackScore
  }

  /** The selection and the highlighted destinations agree: what `selectPiece` and `deselectPiece` maintain. */
  predicate Coherent(g: Game) {
    match g.selected
    case None => g.validMoves == []
    case Some(p) => g.validMoves == ValidMoves(g.board, g.current, p.row, p.col)
  }

  /** The constructor and `resetGame`: the opening position, red to move, scores kept. */
  function ResetGame(g: Game): (r: Game)
    ensures r.board == InitialBoard() && r.current == Red && r.active && r.moveCount == 0
    ensures r.selected == None && Coherent(r)
    ensures r.redScore == g.redScore && r.blackScore == g.blackScore
  {
    g.(board := InitialBoard(), current := Red, active := true, selected := None, validMoves := [], moveCount := 0)
  }

  /** `resetScore`: zero both scores, then a fresh game. */
  function ResetScore(g: Game): (r: Game)
    ensures r.redScore == 0 && r.blackScore == 0
    ensures r == ResetGame(g).(redScore := 0, blackScore := 0)
  {
    ResetGame(g.(redScore := 0, blackScore := 0))
  }

  const NewGame: Game := Game(InitialBoard(), Red, true, 0, 0, None, [], 0)

  /** `switchPlayer`. */
  function SwitchPlayer(g: Game): (r: Game)
    ensures r.current == Opponent(g.current) && r == g.(current := r.current)
  {
    g.(current := Opponent(g.current))
  }

  /** `handleWin`: stop the game and credit the side `checkWin` names. */
  function HandleWin(g: Game): (r: Game)
    ensures !r.active && r.board == g.board && r.current == g.current
    ensures CheckWin(g.board, g.current) == Some(Red) ==> r.redScore == g.redScore + 1 && r.blackScore == g.blackScore
    ensures CheckWin(g.board, g.current) == Some(Black) ==> r.blackScore == g.blackScore + 1 && r.redScore == g.redScore
  {
    match CheckWin(g.board, g.current)
    case None => g.(active := false)
    case Some(w) => if w == Red then g.(active := false, redScore := g.redScore + 1)
                    else g.(active := false, blackScore := g.blackScore + 1)
  }

  /** `selectPiece`. */
  function SelectPiece(g: Game, p: Pos): (r: Game)
    ensures Coherent(r) && r.selected == Some(p) && r.board == g.board
  {
    g.(selected := Some(p), validMoves := ValidMoves(g.board, g.current, p.row, p.col))
  }

  /** `deselectPiece`. */
  function Deselect(g: Game): (r: Game)
    ensures Coherent(r) && r.selected == None
  {
    g.(selected := None, validMoves := [])
  }

  /** `validMoves.find(m => m.row === row && m.col === col)`. */
  function FindMove(ms: seq<Move>, p: Pos): (r: Option<Move>)
    ensures r.Some? ==> r.value in ms && Dest(r.value) == p
    ensures r.None? ==> forall i :: 0 <= i < |ms| ==> Dest(ms[i]) != p
  {
    if |ms| == 0 then None else if Dest(ms[0]) == p then Some(ms[0]) else FindMove(ms[1..], p)
  }

  /**
   * `makeMove` as written: after moving, `checkWin` runs while
   * `currentPlayer` is still the mover, so it asks whether the player who
   * just moved could move again. A found winner ends the game with the
   * turn unchanged; otherwise the turn passes. This is the move the game
   * flows use.
   */
  function MakeMoveAsWritten(g: Game, to: Pos): (r: Game)
    ensures g.selected.None? || FindMove(g.validMoves, to).None? ==> r == g
    ensures g.selected.Some? && FindMove(g.validMoves, to).Some? ==>
      && r.board == ApplyMove(g.board, g.selected.value, FindMove(g.validMoves, to).value)
      && r.moveCount == g.moveCount + 1 && r.selected == None && Coherent(r)
      && (r.active <==> g.active && CheckWin(r.board, g.current).None?)
      && (CheckWin(r.board, g.current).None? ==> r.current == Opponent(g.current) && Score(r, Red) == Score(g, Red) && Score(r, Black) == Score(g, Black))
      && (CheckWin(r.board, g.current).Some? ==> r.current == g.current && Credited(g, r, CheckWin(r.board, g.current).value))
  {
    if g.selected.None? then g
    else match FindMove(g.validMoves, to)
      case None => g
      case Some(m) => PlayAsWritten(g, g.selected.value, m)
  }

  /** The winner `w` gained one point and the other side none. */
  predicate Credited(g: Game, r: Game, w: Color) {
    Score(r, w) == Score(g, w) + 1 && Score(r, Opponent(w)) == Score(g, Opponent(w))
  }

  /** The effect of `makeMove` as written once the clicked destination was found among the highlighted moves. */
  function PlayAsWritten(g: Game, from: Pos, m: Move): (r: Game)
    ensures r.board == ApplyMove(g.board, from, m)
    ensures r.moveCount == g.moveCount + 1 && r.selected == None && Coherent(r)
    ensures r.active <==> g.active && CheckWin(r.board, g.current).None?
    ensures CheckWin(r.board, g.current).None? ==> r.current == Opponent(g.current) && Score(r, Red) == Score(g, Red) && Score(r, Black) == Score(g, Black)
    ensures CheckWin(r.board, g.current).Some? ==> r.current == g.current && Credited(g, r, CheckWin(r.board, g.current).value)
  {
    var moved := Deselect(g.(board := ApplyMove(g.board, from, m), moveCount := g.moveCount + 1));
    if CheckWin(moved.board, moved.current).Some? then HandleWin(moved) else SwitchPlayer(moved)
  }

  /**
   * What the as-written move guarantees: a game that goes on leaves both
   * sides with pieces and the MOVER (not the side now to move) with a move;
   * a game it ends adds exactly one point in total and keeps the turn.
   */
  lemma MakeMoveAsWrittenOutcome(g: Game, to: Pos)
    requires g.active && g.selected.Some? && FindMove(g.validMoves, to).Some?
    ensures var r := MakeMoveAsWritten(g, to);
      r.active ==> (CountPieces(r.board, Red) > 0 && CountPieces(r.board, Black) > 0
                    && HasMove(r.board, g.current) && r.current == Opponent(g.current))
    ensures var r := MakeMoveAsWritten(g, to);
      !r.active ==> Score(r, Red) + Score(r, Black) == Score(g, Red) + Score(g, Black) + 1 && r.current == g.current
  {
  }

  /** When neither side is stuck after the move, the as-written and the corrected move agree. */
  lemma AsWrittenAgreesWhenNoneStuck(g: Game, to: Pos)
    requires g.selected.Some? && FindMove(g.validMoves, to).Some?
    requires var b := ApplyMove(g.board, g.selected.value, FindMove(g.validMoves, to).value);
      CheckWin(b, g.current).None? && CheckWin(b, Opponent(g.current)).None?
    ensures MakeMoveAsWritten(g, to) == MakeMove(g, to)
  {
  }

  /**
   * The repaired `makeMove`: the turn passes before the win check, so that
   * a side loses when it has to move and cannot. No game flow calls it; it
   * is the corrected half that the comparison lemmas set against
   * `MakeMoveAsWritten`.
   */
  function MakeMove(g: Game, to: Pos): (r: Game)
    ensures g.selected.None? || FindMove(g.validMoves, to).None? ==> r == g
    ensures g.selected.Some? && FindMove(g.validMoves, to).Some? ==>
      && r.board == ApplyMove(g.board, g.selected.value, FindMove(g.validMoves, to).value)
      && r.moveCount == g.moveCount + 1 && r.current == Opponent(g.current)
      && r.selected == None && Coherent(r)
      && (r.active <==> g.active && CheckWin(r.board, r.current).None?)
  {
    if g.selected.None? then g
    else match FindMove(g.validMoves, to)
      case None => g
      case Some(m) => Play(g, g.selected.value, m)
  }

  /** The effect of the repaired move once the clicked destination was found among the highlighted moves. */
  function Play(g: Game, from: Pos, m: Move): (r: Game)
    ensures r.board == ApplyMove(g.board, from, m)
    ensures r.moveCount == g.moveCount + 1 && r.current == Opponent(g.current)
    ensures r.selected == None && Coherent(r)
    ensures r.active <==> g.active && CheckWin(r.board, r.current).None?
  {
    var moved := SwitchPlayer(Deselect(g.(board := ApplyMove(g.board, from, m), moveCount := g.moveCount + 1)));
    if CheckWin(moved.board, moved.current).Some? then HandleWin(moved) else moved
  }

  /**
   * Selecting a piece and clicking one of its generated destinations plays
   * that move through `makeMove` as written: the turn passes unless the win
   * check on the mover finds a winner, and then it stays.
   */
  lemma SelectAndMove(g: Game, p: Pos, m: Move)
    requires m in ValidMoves(g.board, g.current, p.row, p.col)
    ensures var r := MakeMoveAsWritten(SelectPiece(g, p), Dest(m));
      && r.board == ApplyMove(g.board, p, m)
      && r.moveCount == g.moveCount + 1
      && (r.active <==> g.active && CheckWin(r.board, g.current).None?)
      && (CheckWin(r.board, g.current).None? ==> r.current == Opponent(g.current))
      && (CheckWin(r.board, g.current).Some? ==> r.current == g.current)
  {
    FindGenerated(g.board, g.current, p, m);
  }

  /** On a coherent game, a move that happens is a legal move of the player to move. */
  lemma MakeMoveIsLegal(g: Game, to: Pos)
    requires Coherent(g) && g.selected.Some? && FindMove(g.validMoves, to).Some?
    ensures LegalMove(g.board, g.current, g.selected.value.row, g.selected.value.col, FindMove(g.validMoves, to).value)
  {
    ValidMovesIff(g.board, g.current, g.selected.value.row, g.selected.value.col, FindMove(g.validMoves, to).value);
  }

  /** After a move that does not end the game, both sides still have pieces and the side to move can move. */
  lemma MakeMoveLeavesAMove(g: Game, to: Pos)
    requires g.active && g.selected.Some? && FindMove(g.validMoves, to).Some?
    ensures var r := MakeMove(g, to);
      r.active ==> CountPieces(r.board, Red) > 0 && CountPieces(r.board, Black) > 0 && HasMove(r.board, r.current)
    ensures var r := MakeMove(g, to);
      !r.active ==> Score(r, Red) + Score(r, Black) == Score(g, Red) + Score(g, Black) + 1
  {
  }

  /**
   * The as-written check ends a game that is not over: red steps to (1,0)
   * beside a black man on (0,1), has no follow-up move itself, and black is
   * declared the winner although black can still move. The intended check
   * passes the turn to black.
   */
  lemma MoverStuckEndsGame()
    ensures var b := Set(Set(EmptyBoard, Pos(2, 1), R), Pos(0, 1), B);
      var g := SelectPiece(NewGame.(board := b), Pos(2, 1));
      && Pos(1, 0) == Dest(FindMove(g.validMoves, Pos(1, 0)).value)
      && !MakeMoveAsWritten(g, Pos(1, 0)).active && MakeMoveAsWritten(g, Pos(1, 0)).blackScore == 1
      && MakeMove(g, Pos(1, 0)).active && MakeMove(g, Pos(1, 0)).current == Black
  {
    var b := Set(Set(EmptyBoard, Pos(2, 1), R), Pos(0, 1), B);
    var g := SelectPiece(NewGame.(board := b), Pos(2, 1));
    var m := Move(1, 0, Step);
    StuckExampleFinds(b, g);
    var after := ApplyMove(b, Pos(2, 1), m);
    StuckExampleAfter(b, after);
    NoRedMove(after);
    BlackCanMove(after);
    assert CheckWin(after, Red) == Some(Black);
    assert MakeMove(g, Pos(1, 0)).board == after;
  }

  lemma StuckExampleFinds(b: Board, g: Game)
    requires b == Set(Set(EmptyBoard, Pos(2, 1), R), Pos(0, 1), B)
    requires g == SelectPiece(NewGame.(board := b), Pos(2, 1))
    ensures FindMove(g.validMoves, Pos(1, 0)) == Some(Move(1, 0, Step))
  {
    var m := Move(1, 0, Step);
    assert StepTo(b, 2, 1, -1, -1) == [m];
    assert g.validMoves[0] == m;
  }

  lemma StuckExampleAfter(b: Board, after: Board)
    requires b == Set(Set(EmptyBoard, Pos(2, 1), R), Pos(0, 1), B)
    requires after == ApplyMove(b, Pos(2, 1), Move(1, 0, Step))
    ensures after[1][0] == R && after[0][1] == B
    ensures forall i, j :: 0 <= i < 8 && 0 <= j < 8 && Pos(i, j) != Pos(1, 0) && Pos(i, j) != Pos(0, 1) ==> after[i][j] == Empty
  {
  }

  lemma NoRedMove(b: Board)
    requires b[1][0] == R && b[0][1] == B
    requires forall i, j :: 0 <= i < 8 && 0 <= j < 8 && Pos(i, j) != Pos(1, 0) && Pos(i, j) != Pos(0, 1) ==> b[i][j] == Empty
    ensures CountPieces(b, Red) > 0 && CountPieces(b, Black) > 0
    ensures !HasMove(b, Red)
  {
    SingleCounts(b);
    HasMoveToLegal(b, Red);
    forall p: Pos, m: Move ensures !LegalMove(b, Red, p.row, p.col, m) {
      if p != Pos(1, 0) {
        assert !Owns(b[p.row][p.col], Red);
      } else {
        RedManStuck(b, m);
      }
    }
  }

  lemma RedManStuck(b: Board, m: Move)
    requires b[1][0] == R && b[0][1] == B
    ensures !LegalMove(b, Red, 1, 0, m)
  {
    assert Directions(b[1][0].piece) == [-1];
    if m.kind.Step? && m.row == 0 {
      assert m.col - 0 == 1 ==> !b[m.row][m.col].Empty?;
    }
  }

  lemma BlackCanMove(b: Board)
    requires b[1][0] == R && b[0][1] == B
    requires forall i, j :: 0 <= i < 8 && 0 <= j < 8 && Pos(i, j) != Pos(1, 0) && Pos(i, j) != Pos(0, 1) ==> b[i][j] == Empty
    ensures HasMove(b, Black)
  {
    assert b[1][2] == Empty;
    assert Directions(b[0][1].piece) == [1];
    LegalToHasMove(b, Black, Pos(0, 1), Move(1, 2, Step));
  }

  lemma SingleCounts(b: Board)
    requires b[1][0] == R && b[0][1] == B
    ensures CountPieces(b, Red) > 0 && CountPieces(b, Black) > 0
  {
    assert CountRow(b[0], Black) > 0 by { assert b[0] == [b[0][0]] + b[0][1..]; assert b[0][1..][0] == B; }
    assert CountRow(b[1], Red) > 0;
  }

  /**
   * The body of `handleCellClick` after its guards: select one of the
   * mover's pieces, move to a highlighted square, or deselect on an empty
   * square; a click on an opposing piece does nothing.
   */
  function Click(g: Game, p: Pos): (r: Game)
    ensures Owns(g.board[p.row][p.col], g.current) ==> r == SelectPiece(g, p)
    ensures (!Owns(g.board[p.row][p.col], g.current) && g.board[p.row][p.col].Occupied?
            && (g.selected.None? || FindMove(g.validMoves, p).None?)) ==> r == g
    ensures (!Owns(g.board[p.row][p.col], g.current) && g.selected.Some? && FindMove(g.validMoves, p).Some?) ==>
      r == MakeMoveAsWritten(g, p)
    ensures (g.board[p.row][p.col].Empty? && (g.selected.None? || FindMove(g.validMoves, p).None?)) ==>
      r.board == g.board && r.selected == None && r.validMoves == [] && r.current == g.current
  {
    if Owns(g.board[p.row][p.col], g.current) then SelectPiece(g, p)
    else if g.selected.Some? && FindMove(g.validMoves, p).Some? then MakeMoveAsWritten(g, p)
    else if g.board[p.row][p.col].Empty? then Deselect(g)
    else g
  }

  /** Clicking keeps the selection and its highlights in agreement. */
  lemma ClickKeepsCoherent(g: Game, p: Pos)
    requires Coherent(g)
    ensures Coherent(Click(g, p))
  {
  }
}
