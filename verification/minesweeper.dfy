/**
 * Minesweeper after public/assets/js/minesweeper.js. The board is a grid
 * of `height` rows of `width` numbers, `-1` for a mine and otherwise the
 * number of mines among the eight neighbours; the revealed and flagged
 * cells are kept as sets of positions rather than boolean grids. Mines are
 * laid on the first left click of a running game, away from the clicked
 * cell, from a stream of random draws that is an input here; the clock is
 * an explicit `Tick`.
 */
module Minesweeper {
  import Util

  datatype Pos = Pos(x: int, y: int)

  datatype Difficulty = Easy | Medium | Hard

  /** The `-1` of the board. */
  const MineValue := -1

  predicate Shaped(cells: seq<seq<int>>, w: nat, h: nat) {
    |cells| == h && forall y :: 0 <= y < h ==> |cells[y]| == w
  }

  predicate InBounds(w: nat, h: nat, p: Pos) {
    0 <= p.x < w && 0 <= p.y < h
  }

  function Value(cells: seq<seq<int>>, w: nat, h: nat, p: Pos): int
    requires Shaped(cells, w, h) && InBounds(w, h, p)
  {
    cells[p.y][p.x]
  }

  predicate IsMine(cells: seq<seq<int>>, w: nat, h: nat, p: Pos)
    requires Shaped(cells, w, h)
  {
    InBounds(w, h, p) && Value(cells, w, h, p) == MineValue
  }

  /** Every position of the board. */
  function Universe(w: nat, h: nat): set<Pos> {
    set x: int, y: int | 0 <= x < w && 0 <= y < h :: Pos(x, y)
  }

  function Mines(cells: seq<seq<int>>, w: nat, h: nat): set<Pos>
    requires Shaped(cells, w, h)
  {
    set x: int, y: int | 0 <= x < w && 0 <= y < h && cells[y][x] == MineValue :: Pos(x, y)
  }

  function Safe(cells: seq<seq<int>>, w: nat, h: nat): set<Pos>
    requires Shaped(cells, w, h)
  {
    set x: int, y: int | 0 <= x < w && 0 <= y < h && cells[y][x] != MineValue :: Pos(x, y)
  }

  lemma UniverseIff(w: nat, h: nat, p: Pos)
    ensures p in Universe(w, h) <==> InBounds(w, h, p)
  {
    if InBounds(w, h, p) {
      assert p == Pos(p.x, p.y);
    }
  }

  lemma MinesIff(cells: seq<seq<int>>, w: nat, h: nat, p: Pos)
    requires Shaped(cells, w, h)
    ensures p in Mines(cells, w, h) <==> IsMine(cells, w, h, p)
    ensures p in Safe(cells, w, h) <==> InBounds(w, h, p) && !IsMine(cells, w, h, p)
  {
    if InBounds(w, h, p) {
      assert p == Pos(p.x, p.y);
    }
  }

  function Row(w: nat, y: int): set<Pos> {
    set x: int | 0 <= x < w :: Pos(x, y)
  }

  lemma {:induction false} RowSize(w: nat, y: int)
    ensures |Row(w, y)| == w
  {
    if w > 0 {
      RowSize(w - 1, y);
      assert Row(w, y) == Row(w - 1, y) + {Pos(w - 1, y)};
    }
  }

  lemma UniverseSplit(w: nat, h: nat)
    requires h > 0
    ensures Universe(w, h) == Universe(w, h - 1) + Row(w, h - 1)
    ensures Universe(w, h - 1) * Row(w, h - 1) == {}
  {
    forall p ensures p in Universe(w, h) <==> p in Universe(w, h - 1) + Row(w, h - 1) {
      UniverseIff(w, h, p);
      UniverseIff(w, h - 1, p);
    }
    forall p | p in Universe(w, h - 1) ensures p.y < h - 1 {
      UniverseIff(w, h - 1, p);
    }
  }

  /** The board has `w * h` positions. */
  lemma {:induction false} UniverseSize(w: nat, h: nat)
    ensures |Universe(w, h)| == w * h
  {
    if h > 0 {
      UniverseSize(w, h - 1);
      RowSize(w, h - 1);
      UniverseSplit(w, h);
      assert w * h == w * (h - 1) + w;
    }
  }

  /** Mines and safe cells split the board. */
  lemma SafeSize(cells: seq<seq<int>>, w: nat, h: nat)
    requires Shaped(cells, w, h)
    ensures |Safe(cells, w, h)| == w * h - |Mines(cells, w, h)|
  {
    UniverseSize(w, h);
    forall p ensures p in Universe(w, h) <==> p in Mines(cells, w, h) + Safe(cells, w, h) {
      UniverseIff(w, h, p);
      MinesIff(cells, w, h, p);
    }
    assert Universe(w, h) == Mines(cells, w, h) + Safe(cells, w, h);
    forall p | p in Mines(cells, w, h) ensures p !in Safe(cells, w, h) {
      MinesIff(cells, w, h, p);
    }
    assert Mines(cells, w, h) * Safe(cells, w, h) == {};
  }

  // ----- counting neighbours -----

  /** The `j`th cell of the 3x3 block around `p`, row by row from the top left, `p` itself included. */
  function Neighbour(p: Pos, j: nat): Pos {
    Pos(p.x + j % 3 - 1, p.y + j / 3 - 1)
  }

  function CountFrom(cells: seq<seq<int>>, w: nat, h: nat, p: Pos, j: nat): (n: nat)
    requires Shaped(cells, w, h) && j <= 9
    ensures n <= 9 - j
    decreases 9 - j
  {
    if j == 9 then 0
    else (if IsMine(cells, w, h, Neighbour(p, j)) then 1 else 0) + CountFrom(cells, w, h, p, j + 1)
  }

  /** `countAdjacentMines`: the mines in the 3x3 block around `p` that lie on the board. */
  function CountAdjacentMines(cells: seq<seq<int>>, w: nat, h: nat, p: Pos): nat
    requires Shaped(cells, w, h)
  {
    CountFrom(cells, w, h, p, 0)
  }

  lemma {:induction false} CountFromZeroIff(cells: seq<seq<int>>, w: nat, h: nat, p: Pos, j: nat)
    requires Shaped(cells, w, h) && j <= 9
    ensures CountFrom(cells, w, h, p, j) == 0 <==> forall i :: j <= i < 9 ==> !IsMine(cells, w, h, Neighbour(p, i))
    decreases 9 - j
  {
    if j < 9 {
      CountFromZeroIff(cells, w, h, p, j + 1);
      var here := IsMine(cells, w, h, Neighbour(p, j));
      assert CountFrom(cells, w, h, p, j) == (if here then 1 else 0) + CountFrom(cells, w, h, p, j + 1);
      assert (forall i :: j <= i < 9 ==> !IsMine(cells, w, h, Neighbour(p, i)))
        <==> !here && forall i :: j + 1 <= i < 9 ==> !IsMine(cells, w, h, Neighbour(p, i));
    }
  }

  /** The count is zero exactly when no cell of the block is a mine. */
  lemma CountZeroIff(cells: seq<seq<int>>, w: nat, h: nat, p: Pos)
    requires Shaped(cells, w, h)
    ensures CountAdjacentMines(cells, w, h, p) == 0 <==> forall i :: 0 <= i < 9 ==> !IsMine(cells, w, h, Neighbour(p, i))
  {
    CountFromZeroIff(cells, w, h, p, 0);
  }

  /** Boards with the same mines have the same counts. */
  lemma {:induction false} SameMinesSameCount(a: seq<seq<int>>, b: seq<seq<int>>, w: nat, h: nat, p: Pos, j: nat)
    requires Shaped(a, w, h) && Shaped(b, w, h) && j <= 9
    requires forall q :: IsMine(a, w, h, q) <==> IsMine(b, w, h, q)
    ensures CountFrom(a, w, h, p, j) == CountFrom(b, w, h, p, j)
    decreases 9 - j
  {
    if j < 9 {
      SameMinesSameCount(a, b, w, h, p, j + 1);
    }
  }

  /** Every safe cell shows the number of mines around it. */
  predicate Numbered(cells: seq<seq<int>>, w: nat, h: nat)
    requires Shaped(cells, w, h)
  {
    forall y, x :: 0 <= y < h && 0 <= x < w && cells[y][x] != MineValue ==>
      cells[y][x] == CountAdjacentMines(cells, w, h, Pos(x, y))
  }

  /** The second pass of `placeMines`: each safe cell gets its count, mines stay. */
  function Annotate(cells: seq<seq<int>>, w: nat, h: nat): (r: seq<seq<int>>)
    requires Shaped(cells, w, h)
    ensures Shaped(r, w, h)
    ensures forall q :: IsMine(r, w, h, q) <==> IsMine(cells, w, h, q)
  {
    seq(h, y requires 0 <= y < h =>
      seq(w, x requires 0 <= x < w =>
        if cells[y][x] == MineValue then MineValue else CountAdjacentMines(cells, w, h, Pos(x, y))))
  }

  /** After the second pass the board is numbered. */
  lemma AnnotateNumbers(cells: seq<seq<int>>, w: nat, h: nat)
    requires Shaped(cells, w, h)
    ensures Numbered(Annotate(cells, w, h), w, h)
  {
    var r := Annotate(cells, w, h);
    forall y, x | 0 <= y < h && 0 <= x < w && r[y][x] != MineValue
      ensures r[y][x] == CountAdjacentMines(r, w, h, Pos(x, y))
    {
      SameMinesSameCount(r, cells, w, h, Pos(x, y), 0);
    }
  }

  lemma AnnotateKeepsMines(cells: seq<seq<int>>, w: nat, h: nat)
    requires Shaped(cells, w, h)
    ensures Mines(Annotate(cells, w, h), w, h) == Mines(cells, w, h)
  {
    forall p ensures p in Mines(Annotate(cells, w, h), w, h) <==> p in Mines(cells, w, h) {
      MinesIff(Annotate(cells, w, h), w, h, p);
      MinesIff(cells, w, h, p);
    }
  }

  // ----- laying mines -----

  function SetMine(cells: seq<seq<int>>, w: nat, h: nat, p: Pos): (r: seq<seq<int>>)
    requires Shaped(cells, w, h) && InBounds(w, h, p)
    ensures Shaped(r, w, h)
    ensures forall q :: IsMine(r, w, h, q) <==> q == p || IsMine(cells, w, h, q)
  {
    cells[p.y := cells[p.y][p.x := MineValue]]
  }

  /**
   * The first pass of `placeMines`: each draw not on the first click and
   * not already a mine becomes one, until `target` mines are down or the
   * draws run out. The result carries the number placed.
   */
  function PlaceFrom(cells: seq<seq<int>>, w: nat, h: nat, first: Pos, draws: seq<Pos>, placed: nat, target: nat): (r: (seq<seq<int>>, nat))
    requires Shaped(cells, w, h)
    requires forall i :: 0 <= i < |draws| ==> InBounds(w, h, draws[i])
    ensures Shaped(r.0, w, h)
    ensures placed <= target ==> r.1 <= target
    ensures r.1 >= placed
    ensures !IsMine(cells, w, h, first) ==> !IsMine(r.0, w, h, first)
    ensures forall q :: IsMine(cells, w, h, q) ==> IsMine(r.0, w, h, q)
    ensures forall y, x :: 0 <= y < h && 0 <= x < w && r.0[y][x] != MineValue ==> r.0[y][x] == cells[y][x]
    decreases |draws|
  {
    if placed >= target || |draws| == 0 then (cells, placed)
    else
      var d := draws[0];
      if d != first && Value(cells, w, h, d) != MineValue then
        PlaceFrom(SetMine(cells, w, h, d), w, h, first, draws[1..], placed + 1, target)
      else PlaceFrom(cells, w, h, first, draws[1..], placed, target)
  }

  /** Each mine placed is a new one: the mine count grows by exactly the number placed. */
  lemma {:induction false} PlaceFromCount(cells: seq<seq<int>>, w: nat, h: nat, first: Pos, draws: seq<Pos>, placed: nat, target: nat)
    requires Shaped(cells, w, h)
    requires forall i :: 0 <= i < |draws| ==> InBounds(w, h, draws[i])
    ensures var r := PlaceFrom(cells, w, h, first, draws, placed, target);
      |Mines(r.0, w, h)| == |Mines(cells, w, h)| + (r.1 - placed)
    decreases |draws|
  {
    if placed < target && |draws| > 0 {
      var d := draws[0];
      if d != first && Value(cells, w, h, d) != MineValue {
        var next := SetMine(cells, w, h, d);
        PlaceFromCount(next, w, h, first, draws[1..], placed + 1, target);
        forall q ensures q in Mines(next, w, h) <==> q in Mines(cells, w, h) + {d} {
          MinesIff(next, w, h, q);
          MinesIff(cells, w, h, q);
        }
        assert Mines(next, w, h) == Mines(cells, w, h) + {d};
        MinesIff(cells, w, h, d);
        assert d !in Mines(cells, w, h);
      } else {
        PlaceFromCount(cells, w, h, first, draws[1..], placed, target);
      }
    }
  }

  /** `placeMines`: lay the mines, then number the safe cells. */
  function PlaceMines(cells: seq<seq<int>>, w: nat, h: nat, mines: nat, first: Pos, draws: seq<Pos>): (r: seq<seq<int>>)
    requires Shaped(cells, w, h)
    requires forall i :: 0 <= i < |draws| ==> InBounds(w, h, draws[i])
    ensures Shaped(r, w, h)
  {
    Annotate(PlaceFrom(cells, w, h, first, draws, 0, mines).0, w, h)
  }

  /**
   * On a board without mines, `placeMines` never mines the first click,
   * lays at most `mines` distinct mines (exactly `mines` when the draws
   * suffice) and numbers every safe cell.
   */
  lemma PlaceMinesSpec(cells: seq<seq<int>>, w: nat, h: nat, mines: nat, first: Pos, draws: seq<Pos>)
    requires Shaped(cells, w, h) && Mines(cells, w, h) == {}
    requires forall i :: 0 <= i < |draws| ==> InBounds(w, h, draws[i])
    ensures var r := PlaceMines(cells, w, h, mines, first, draws);
      && !IsMine(r, w, h, first)
      && |Mines(r, w, h)| == PlaceFrom(cells, w, h, first, draws, 0, mines).1 <= mines
      && Numbered(r, w, h)
  {
    var laid := PlaceFrom(cells, w, h, first, draws, 0, mines);
    MinesIff(cells, w, h, first);
    PlaceFromCount(cells, w, h, first, draws, 0, mines);
    AnnotateKeepsMines(laid.0, w, h);
    AnnotateNumbers(laid.0, w, h);
  }

  // ----- revealing -----

  /** A cell `revealCell` would open: on the board, not yet revealed, not flagged. */
  predicate Closed(w: nat, h: nat, flagged: set<Pos>, revealed: set<Pos>, p: Pos) {
    InBounds(w, h, p) && p !in revealed && p !in flagged
  }

  /**
   * `revealCell`: open the cell unless it is off the board, open or
   * flagged, and when it shows 0 open its whole 3x3 block in turn.
   */
  function Reveal(cells: seq<seq<int>>, w: nat, h: nat, flagged: set<Pos>, revealed: set<Pos>, p: Pos): (r: set<Pos>)
    requires Shaped(cells, w, h)
    ensures revealed <= r
    ensures Closed(w, h, flagged, revealed, p) ==> p in r
    ensures !Closed(w, h, flagged, revealed, p) ==> r == revealed
    ensures forall c :: c in r - revealed ==> InBounds(w, h, c) && c !in flagged
    ensures forall c :: c in r - revealed && InBounds(w, h, c) && Value(cells, w, h, c) == 0 ==>
      forall j :: 0 <= j < 9 && InBounds(w, h, Neighbour(c, j)) && Neighbour(c, j) !in flagged ==> Neighbour(c, j) in r
    ensures Numbered(cells, w, h) && !IsMine(cells, w, h, p) ==> forall c :: c in r - revealed ==> !IsMine(cells, w, h, c)
    decreases Universe(w, h) - revealed, 1
  {
    if !Closed(w, h, flagged, revealed, p) then revealed
    else
      var grown := revealed + {p};
      assert p in Universe(w, h) by { UniverseIff(w, h, p); }
      if Value(cells, w, h, p) == 0 then RevealBlock(cells, w, h, flagged, grown, p, 0) else grown
  }

  /** The loop of `revealCell` over the 3x3 block of an grown 0 cell, from block index `k` on. */
  function RevealBlock(cells: seq<seq<int>>, w: nat, h: nat, flagged: set<Pos>, revealed: set<Pos>, p: Pos, k: nat): (r: set<Pos>)
    requires Shaped(cells, w, h) && k <= 9
    ensures revealed <= r
    ensures forall j :: k <= j < 9 && InBounds(w, h, Neighbour(p, j)) && Neighbour(p, j) !in flagged ==> Neighbour(p, j) in r
    ensures forall c :: c in r - revealed ==> InBounds(w, h, c) && c !in flagged
    ensures forall c :: c in r - revealed && InBounds(w, h, c) && Value(cells, w, h, c) == 0 ==>
      forall j :: 0 <= j < 9 && InBounds(w, h, Neighbour(c, j)) && Neighbour(c, j) !in flagged ==> Neighbour(c, j) in r
    ensures Numbered(cells, w, h) && CountAdjacentMines(cells, w, h, p) == 0 ==>
      forall c :: c in r - revealed ==> !IsMine(cells, w, h, c)
    decreases Universe(w, h) - revealed, 2, 9 - k
  {
    if k == 9 then revealed
    else
      var after := Reveal(cells, w, h, flagged, revealed, Neighbour(p, k));
      CountZeroIff(cells, w, h, p);
      var r := RevealBlock(cells, w, h, flagged, after, p, k + 1);
      assert forall c :: c in r - revealed ==> c in r - after || c in after - revealed;
      r
  }

  /**
   * On a numbered board, opening a cell that is not a mine opens no mine,
   * and every 0 cell it opens has its whole unflagged block open.
   */
  lemma RevealIsSafeAndClosed(cells: seq<seq<int>>, w: nat, h: nat, flagged: set<Pos>, revealed: set<Pos>, p: Pos)
    requires Shaped(cells, w, h) && Numbered(cells, w, h) && !IsMine(cells, w, h, p)
    ensures var r := Reveal(cells, w, h, flagged, revealed, p);
      && (forall c :: c in r && c !in revealed ==> !IsMine(cells, w, h, c) && c !in flagged)
      && (Closed(w, h, flagged, revealed, p) ==> p in r)
  {
  }

  // ----- the game -----

  datatype Game = Game(
    difficulty: Difficulty,
    width: nat,
    height: nat,
    mines: nat,
    cells: seq<seq<int>>,
    revealed: set<Pos>,
    flagged: set<Pos>,
    firstClick: bool,
    running: bool,
    won: bool,
    lost: bool,
    score: int,
    bestScore: int,
    time: nat,
    bestTime: int)

  predicate Ok(g: Game) {
    Shaped(g.cells, g.width, g.height)
  }

  /** `createBoard`: an all-zero board with nothing revealed or flagged, waiting for the first click, clock at 0. */
  function CreateBoard(g: Game): (r: Game)
    ensures Ok(r) && r.width == g.width && r.height == g.height && r.mines == g.mines
    ensures forall y, x :: 0 <= y < r.height && 0 <= x < r.width ==> r.cells[y][x] == 0
    ensures r.revealed == {} && r.flagged == {} && r.firstClick
    ensures !r.running && !r.won && !r.lost && r.time == 0
    ensures r.score == g.score && r.bestScore == g.bestScore && r.bestTime == g.bestTime && r.difficulty == g.difficulty
  {
    g.(cells := seq(g.height, y => seq(g.width, x => 0)), revealed := {}, flagged := {},
       firstClick := true, running := false, won := false, lost := false, time := 0)
  }

  lemma FreshBoardHasNoMines(g: Game)
    ensures Mines(CreateBoard(g).cells, g.width, g.height) == {}
  {
    var r := CreateBoard(g);
    forall p ensures p !in Mines(r.cells, g.width, g.height) {
      MinesIff(r.cells, g.width, g.height, p);
    }
  }

  /** The width, height and mine count of each level. */
  function Dimensions(d: Difficulty): (r: (nat, nat, nat))
    ensures d == Easy ==> r == (9, 9, 10)
    ensures d == Medium ==> r == (16, 16, 40)
    ensures d == Hard ==> r == (30, 16, 99)
  {
    match d
    case Easy => (9, 9, 10)
    case Medium => (16, 16, 40)
    case Hard => (30, 16, 99)
  }

  /** `setDifficulty`: adopt the level's dimensions, then `resetGame`. */
  function SetDifficulty(g: Game, d: Difficulty): (r: Game)
    ensures r.difficulty == d && (r.width, r.height, r.mines) == Dimensions(d)
    ensures Ok(r) && r.revealed == {} && r.flagged == {} && r.firstClick && !r.running
  {
    var (w, h, m) := Dimensions(d);
    CreateBoard(g.(difficulty := d, width := w, height := h, mines := m))
  }

  /** Every level leaves room for its mines with the first click kept clear. */
  lemma LevelsFit(d: Difficulty)
    ensures var (w, h, m) := Dimensions(d); m < w * h
  {
  }

  /** The constructor: a medium board, best score and best time as stored (0 and 999 when nothing is). */
  function NewGame(storedBest: int, storedBestTime: int): Game {
    CreateBoard(Game(Medium, 16, 16, 40, [], {}, {}, true, false, false, false, 0, storedBest, 0, storedBestTime))
  }

  function StartGame(g: Game): (r: Game)
    ensures r == g.(running := true)
  {
    g.(running := true)
  }

  /** One second of the timer: the clock runs only in a live game. */
  function Tick(g: Game): (r: Game)
    ensures g.running && !g.won && !g.lost ==> r == g.(time := g.time + 1)
    ensures !(g.running && !g.won && !g.lost) ==> r == g
  {
    if g.running && !g.won && !g.lost then g.(time := g.time + 1) else g
  }

  /** A game accepts clicks only while running and neither won nor lost. */
  predicate Live(g: Game) {
    g.running && !g.won && !g.lost
  }

  /** `calculateScore`: a time bonus of 1000 less 10 a second, never negative, plus the level bonus. */
  function CalculateScore(g: Game): (r: Game)
    ensures r.score == (if 1000 - 10 * g.time > 0 then 1000 - 10 * g.time else 0) + LevelBonus(g.difficulty)
    ensures r.bestScore == (if r.score > g.bestScore then r.score else g.bestScore)
    ensures r.bestTime == (if g.time < g.bestTime then g.time else g.bestTime)
  {
    var timeBonus := if 1000 - 10 * g.time > 0 then 1000 - 10 * g.time else 0;
    var score := timeBonus + LevelBonus(g.difficulty);
    g.(score := score,
       bestScore := if score > g.bestScore then score else g.bestScore,
       bestTime := if g.time < g.bestTime then g.time else g.bestTime)
  }

  function LevelBonus(d: Difficulty): int {
    match d
    case Easy => 100
    case Medium => 500
    case Hard => 1000
  }

  /** Scores lie between the level bonus and the bonus plus 1000, a slower win never scores more, and the records only improve. */
  lemma ScoreBounds(g: Game, later: nat)
    requires later >= g.time
    ensures var r := CalculateScore(g);
      && LevelBonus(g.difficulty) <= r.score <= LevelBonus(g.difficulty) + 1000
      && CalculateScore(g.(time := later)).score <= r.score
      && r.bestScore >= g.bestScore && r.bestScore >= r.score
      && r.bestTime <= g.bestTime && r.bestTime <= g.time
  {
  }

  /** The revealed cells that are not mines, which `checkWin` counts. */
  function RevealedSafe(g: Game): set<Pos>
    requires Ok(g)
  {
    g.revealed * Safe(g.cells, g.width, g.height)
  }

  /** `checkWin`: won when the revealed safe cells number `width * height - mines`. */
  function CheckWin(g: Game): (r: Game)
    requires Ok(g)
    ensures Ok(r) && r.cells == g.cells && r.revealed == g.revealed && r.flagged == g.flagged
    ensures |RevealedSafe(g)| == g.width * g.height - g.mines ==> r == CalculateScore(g.(won := true))
    ensures |RevealedSafe(g)| != g.width * g.height - g.mines ==> r == g
  {
    if |RevealedSafe(g)| == g.width * g.height - g.mines then CalculateScore(g.(won := true)) else g
  }

  /** With exactly `mines` mines on the board, the win test holds exactly when every safe cell is revealed. */
  lemma WinIffAllSafeRevealed(g: Game)
    requires Ok(g) && |Mines(g.cells, g.width, g.height)| == g.mines
    ensures |RevealedSafe(g)| == g.width * g.height - g.mines <==> Safe(g.cells, g.width, g.height) <= g.revealed
  {
    var s := Safe(g.cells, g.width, g.height);
    SafeSize(g.cells, g.width, g.height);
    var rs := RevealedSafe(g);
    if s <= g.revealed {
      assert rs == s;
    } else {
      var c :| c in s && c !in g.revealed;
      assert rs <= s - {c};
      Util.SubsetSize(rs, s - {c});
      assert |rs| < |s|;
    }
  }

  /**
   * `handleLeftClick`: ignored unless the game is live and the cell is not
   * flagged. The first click lays the mines around it. A mine loses the
   * game and reveals the board; anything else is revealed and checked for a win.
   */
  function LeftClick(g: Game, p: Pos, draws: seq<Pos>): (r: Game)
    requires Ok(g) && InBounds(g.width, g.height, p)
    requires forall i :: 0 <= i < |draws| ==> InBounds(g.width, g.height, draws[i])
    ensures Ok(r)
    ensures !Live(g) || p in g.flagged ==> r == g
    ensures Live(g) && p !in g.flagged && !g.firstClick && IsMine(g.cells, g.width, g.height, p) ==>
      r == g.(lost := true, revealed := Universe(g.width, g.height))
    ensures Live(g) && p !in g.flagged && !g.firstClick && !IsMine(g.cells, g.width, g.height, p) ==>
      r == CheckWin(g.(revealed := Reveal(g.cells, g.width, g.height, g.flagged, g.revealed, p)))
  {
    if !Live(g) || p in g.flagged then g
    else
      var armed := if g.firstClick
        then StartGame(g.(cells := PlaceMines(g.cells, g.width, g.height, g.mines, p, draws), firstClick := false))
        else g;
      if Value(armed.cells, armed.width, armed.height, p) == MineValue then
        armed.(lost := true, revealed := Universe(g.width, g.height))
      else CheckWin(armed.(revealed := Reveal(armed.cells, armed.width, armed.height, armed.flagged, armed.revealed, p)))
  }

  /** The first click never loses: the mines are laid around it. */
  lemma FirstClickIsSafe(g: Game, p: Pos, draws: seq<Pos>)
    requires Ok(g) && InBounds(g.width, g.height, p) && Live(g) && p !in g.flagged && g.firstClick
    requires Mines(g.cells, g.width, g.height) == {}
    requires forall i :: 0 <= i < |draws| ==> InBounds(g.width, g.height, draws[i])
    ensures var r := LeftClick(g, p, draws);
      && !r.lost && !r.firstClick && p in r.revealed
      && Numbered(r.cells, r.width, r.height)
      && |Mines(r.cells, r.width, r.height)| <= g.mines
  {
    PlaceMinesSpec(g.cells, g.width, g.height, g.mines, p, draws);
  }

  /** `handleRightClick`: on a live game, toggle the flag of a cell not yet revealed. */
  function RightClick(g: Game, p: Pos): (r: Game)
    ensures !Live(g) || p in g.revealed ==> r == g
    ensures Live(g) && p !in g.revealed ==>
      r == g.(flagged := if p in g.flagged then g.flagged - {p} else g.flagged + {p})
  {
    if !Live(g) || p in g.revealed then g
    else g.(flagged := if p in g.flagged then g.flagged - {p} else g.flagged + {p})
  }

  /** `getMinesLeft`: the mine count less the flags placed, which goes negative with too many flags. */
  function MinesLeft(g: Game): int {
    g.mines - |g.flagged|
  }

  /** A right click that changes anything moves the counter by exactly one: down for a new flag, up for a removed one. */
  lemma RightClickCounter(g: Game, p: Pos)
    requires Live(g) && p !in g.revealed
    ensures p !in g.flagged ==> MinesLeft(RightClick(g, p)) == MinesLeft(g) - 1
    ensures p in g.flagged ==> MinesLeft(RightClick(g, p)) == MinesLeft(g) + 1
    ensures RightClick(RightClick(g, p), p) == g
  {
  }

  /** `resetGame`: a fresh board of the same level; best score and time are kept. */
  function ResetGame(g: Game): (r: Game)
    ensures r == CreateBoard(g)
  {
    CreateBoard(g)
  }
}
