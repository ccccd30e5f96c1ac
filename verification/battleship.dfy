/**
 * Battleship against the computer, after public/assets/js/battleship.js.
 * Each side has a 10x10 grid of waters; the player places the fleet
 * (5, 4, 3, 3 and 2 cells) ship by ship, the computer's fleet is placed by
 * random attempts, and then the two sides take turns firing until one has
 * hit all 17 ship cells. The random numbers are inputs: placement attempts
 * for the computer's fleet and the stream of shots the computer draws.
 *
 * The source writes `'ship'` into a grid cell without saying which ship it
 * belongs to; here a ship cell carries the index of its ship, which the
 * as-written sinking rule ignores and the repaired one uses.
 */
module BattleshipGame {
  import opened Util

  const Size := 10
  /** `boardSize * boardSize`: how many draws the computer makes before giving up. */
  const MaxAttempts := 100
  /** The number of ship cells in a fleet, the hit count that ends the game. */
  const TotalShipCells := 17

  type Coord = x: int | 0 <= x < 10

  datatype Pos = Pos(x: Coord, y: Coord)

  /** A grid cell: `0`, `'ship'`, `'hit'` or `'miss'`; ship and hit cells name their ship. */
  datatype Cell = Water | ShipPart(id: nat) | HitPart(id: nat) | Miss

  predicate IsGrid(g: seq<seq<Cell>>) {
    |g| == Size && forall y :: 0 <= y < Size ==> |g[y]| == Size
  }

  const WaterRow: seq<Cell> := [Water, Water, Water, Water, Water, Water, Water, Water, Water, Water]

  type Grid = g: seq<seq<Cell>> | IsGrid(g)
    witness [WaterRow, WaterRow, WaterRow, WaterRow, WaterRow, WaterRow, WaterRow, WaterRow, WaterRow, WaterRow]

  /** The grid `initializeGame` fills with `0`. */
  const EmptyGrid: Grid := [WaterRow, WaterRow, WaterRow, WaterRow, WaterRow, WaterRow, WaterRow, WaterRow, WaterRow, WaterRow]

  function At(b: Grid, p: Pos): Cell {
    b[p.y][p.x]
  }

  function SetCell(b: Grid, p: Pos, c: Cell): (r: Grid)
    ensures forall q :: At(r, q) == if q == p then c else At(b, q)
  {
    b[p.y := b[p.y][p.x := c]]
  }

  /** Which cells a census counts. */
  datatype Kind = Exactly(cell: Cell) | AnyAfloat | AnyStruck

  predicate Is(c: Cell, k: Kind) {
    match k
    case Exactly(e) => c == e
    case AnyAfloat => c.ShipPart?
    case AnyStruck => c.HitPart?
  }

  /** The positions whose cell is of the given kind. */
  function Cells(b: Grid, k: Kind): set<Pos> {
    set x: int, y: int | 0 <= x < Size && 0 <= y < Size && Is(b[y][x], k) :: Pos(x, y)
  }

  lemma CellsIff(b: Grid, k: Kind, p: Pos)
    ensures p in Cells(b, k) <==> Is(At(b, p), k)
  {
    if Is(At(b, p), k) {
      assert p == Pos(p.x, p.y);
    }
  }

  /** Changing one cell moves that position in or out of each census and leaves the rest alone. */
  lemma SetCellCells(b: Grid, p: Pos, c: Cell, k: Kind)
    ensures Cells(SetCell(b, p, c), k) == Cells(b, k) - {p} + (if Is(c, k) then {p} else {})
  {
    var r := SetCell(b, p, c);
    forall q ensures q in Cells(r, k) <==> q in Cells(b, k) - {p} + (if Is(c, k) then {p} else {}) {
      CellsIff(r, k, q);
      CellsIff(b, k, q);
    }
  }

  lemma NoCells(b: Grid, k: Kind)
    requires forall q :: !Is(At(b, q), k)
    ensures Cells(b, k) == {}
  {
    forall q ensures q !in Cells(b, k) {
      CellsIff(b, k, q);
    }
  }

  // ----- placing a ship -----

  datatype Orientation = Horizontal | Vertical

  /** The ship stays inside the grid along its orientation. */
  predicate Fits(x: Coord, y: Coord, n: nat, o: Orientation) {
    if o == Horizontal then x + n <= Size else y + n <= Size
  }

  /** The `i`th cell of a ship starting at `(x, y)`. */
  function Along(x: Coord, y: Coord, n: nat, o: Orientation, i: nat): Pos
    requires Fits(x, y, n, o) && i < n
  {
    if o == Horizontal then Pos(x + i, y) else Pos(x, y + i)
  }

  /** The cells a ship of `n` cells covers. */
  function Footprint(x: Coord, y: Coord, n: nat, o: Orientation): set<Pos>
    requires Fits(x, y, n, o)
  {
    if n == 0 then {} else Footprint(x, y, n - 1, o) + {Along(x, y, n, o, n - 1)}
  }

  /** A footprint is the run of `n` cells from the start along the orientation. */
  lemma {:induction false} FootprintIff(x: Coord, y: Coord, n: nat, o: Orientation, q: Pos)
    requires Fits(x, y, n, o)
    ensures q in Footprint(x, y, n, o) <==>
      if o == Horizontal then q.y == y && x <= q.x < x + n else q.x == x && y <= q.y < y + n
  {
    if n > 0 {
      FootprintIff(x, y, n - 1, o, q);
    }
  }

  lemma {:induction false} FootprintSize(x: Coord, y: Coord, n: nat, o: Orientation)
    requires Fits(x, y, n, o)
    ensures |Footprint(x, y, n, o)| == n
  {
    if n > 0 {
      FootprintSize(x, y, n - 1, o);
      FootprintIff(x, y, n - 1, o, Along(x, y, n, o, n - 1));
    }
  }

  function WaterFrom(b: Grid, x: Coord, y: Coord, n: nat, o: Orientation, i: nat): bool
    requires Fits(x, y, n, o) && i <= n
    decreases n - i
  {
    i == n || (At(b, Along(x, y, n, o, i)) == Water && WaterFrom(b, x, y, n, o, i + 1))
  }

  /** `canPlaceShip`: the ship must fit, then every cell it covers is scanned for water. */
  function CanPlaceShip(b: Grid, x: Coord, y: Coord, n: nat, o: Orientation): bool {
    Fits(x, y, n, o) && WaterFrom(b, x, y, n, o, 0)
  }

  lemma {:induction false} WaterFromIff(b: Grid, x: Coord, y: Coord, n: nat, o: Orientation, i: nat)
    requires Fits(x, y, n, o) && i <= n
    ensures WaterFrom(b, x, y, n, o, i) <==> forall j :: i <= j < n ==> At(b, Along(x, y, n, o, j)) == Water
    decreases n - i
  {
    if i < n {
      WaterFromIff(b, x, y, n, o, i + 1);
    }
  }

  lemma WaterFootprint(b: Grid, x: Coord, y: Coord, n: nat, o: Orientation)
    requires Fits(x, y, n, o)
    requires forall j :: 0 <= j < n ==> At(b, Along(x, y, n, o, j)) == Water
    ensures forall q :: q in Footprint(x, y, n, o) ==> At(b, q) == Water
  {
    forall q | q in Footprint(x, y, n, o) ensures At(b, q) == Water {
      FootprintIff(x, y, n, o, q);
      var i := if o == Horizontal then q.x - x else q.y - y;
      assert Along(x, y, n, o, i) == q;
    }
  }

  /** A ship can be placed exactly when it fits and all the cells it would cover are water. */
  lemma CanPlaceIff(b: Grid, x: Coord, y: Coord, n: nat, o: Orientation)
    ensures CanPlaceShip(b, x, y, n, o) <==>
      Fits(x, y, n, o) && forall q :: q in Footprint(x, y, n, o) ==> At(b, q) == Water
  {
    if Fits(x, y, n, o) {
      WaterFromIff(b, x, y, n, o, 0);
      if CanPlaceShip(b, x, y, n, o) {
        WaterFootprint(b, x, y, n, o);
      } else {
        var j :| 0 <= j < n && At(b, Along(x, y, n, o, j)) != Water;
        FootprintIff(x, y, n, o, Along(x, y, n, o, j));
      }
    }
  }

  /** `placeShip`: the covered cells become part of ship `id`; nothing else changes. */
  function PlaceShip(b: Grid, x: Coord, y: Coord, n: nat, o: Orientation, id: nat): (r: Grid)
    requires Fits(x, y, n, o)
    ensures forall q :: At(r, q) == if q in Footprint(x, y, n, o) then ShipPart(id) else At(b, q)
  {
    if n == 0 then b
    else SetCell(PlaceShip(b, x, y, n - 1, o, id), Along(x, y, n, o, n - 1), ShipPart(id))
  }

  // ----- the fleet -----

  /** The names of the fleet, in placement order. */
  datatype ShipName = Carrier | Battleship | Cruiser | Submarine | Destroyer

  /** One entry of `playerShips` or `computerShips`. */
  datatype ShipState = ShipState(name: ShipName, size: nat, hits: nat, sunk: bool)

  const FleetNames: seq<ShipName> := [Carrier, Battleship, Cruiser, Submarine, Destroyer]
  const FleetSizes: seq<nat> := [5, 4, 3, 3, 2]

  /** The record pushed when the `k`th ship of the fleet is placed. */
  function Record(k: nat): ShipState
    requires k < 5
  {
    ShipState(FleetNames[k], FleetSizes[k], 0, false)
  }

  /** The cells of the first `k` ships of the fleet. */
  function SumSizes(k: nat): nat
    requires k <= 5
  {
    if k == 0 then 0 else SumSizes(k - 1) + FleetSizes[k - 1]
  }

  /** Place the next ship of the fleet and record it. */
  function AddShip(b: Grid, ships: seq<ShipState>, x: Coord, y: Coord, o: Orientation): (r: (Grid, seq<ShipState>))
    requires |ships| < 5 && CanPlaceShip(b, x, y, FleetSizes[|ships|], o)
    ensures r.1 == ships + [Record(|ships|)]
  {
    (PlaceShip(b, x, y, FleetSizes[|ships|], o, |ships|), ships + [Record(|ships|)])
  }

  /**
   * What a grid being filled holds: the first ships of the fleet in order,
   * each covering as many cells as its size, and only water around them.
   */
  ghost predicate SetupOK(b: Grid, ships: seq<ShipState>) {
    && |ships| <= 5
    && (forall k :: 0 <= k < |ships| ==> ships[k] == Record(k))
    && (forall q :: At(b, q) == Water || (At(b, q).ShipPart? && At(b, q).id < |ships|))
    && (forall k :: 0 <= k < |ships| ==> |Cells(b, Exactly(ShipPart(k)))| == FleetSizes[k])
    && |Cells(b, AnyAfloat)| == SumSizes(|ships|)
  }

  lemma EmptySetup()
    ensures SetupOK(EmptyGrid, [])
  {
    NoCells(EmptyGrid, AnyAfloat);
  }

  /** Placing the next ship keeps the grid in order, and the new ship occupies exactly its size in cells. */
  lemma AddShipKeepsSetup(b: Grid, ships: seq<ShipState>, x: Coord, y: Coord, o: Orientation)
    requires SetupOK(b, ships) && |ships| < 5 && CanPlaceShip(b, x, y, FleetSizes[|ships|], o)
    ensures SetupOK(AddShip(b, ships, x, y, o).0, AddShip(b, ships, x, y, o).1)
  {
    var r := PlaceShip(b, x, y, FleetSizes[|ships|], o, |ships|);
    var s := ships + [Record(|ships|)];
    assert AddShip(b, ships, x, y, o) == (r, s);
    PlacedSetup(b, ships, x, y, o, r, s);
  }

  lemma PlacedSetup(b: Grid, ships: seq<ShipState>, x: Coord, y: Coord, o: Orientation, r: Grid, s: seq<ShipState>)
    requires SetupOK(b, ships) && |ships| < 5 && CanPlaceShip(b, x, y, FleetSizes[|ships|], o)
    requires r == PlaceShip(b, x, y, FleetSizes[|ships|], o, |ships|) && s == ships + [Record(|ships|)]
    ensures SetupOK(r, s)
  {
    var id := |ships|;
    var n := FleetSizes[id];
    assert forall k :: 0 <= k < |s| ==> s[k] == Record(k) by {
      RecordsExtend(ships);
    }
    assert forall q :: At(r, q) == Water || (At(r, q).ShipPart? && At(r, q).id < |s|) by {
      CanPlaceIff(b, x, y, n, o);
      PlacedIds(b, x, y, n, o, id);
    }
    assert forall k :: 0 <= k < |s| ==> |Cells(r, Exactly(ShipPart(k)))| == FleetSizes[k] by {
      PlacedCounts(b, ships, x, y, o);
    }
    PlacedCensus(b, ships, x, y, o, r, s);
  }

  lemma PlacedCensus(b: Grid, ships: seq<ShipState>, x: Coord, y: Coord, o: Orientation, r: Grid, s: seq<ShipState>)
    requires |ships| < 5 && |Cells(b, AnyAfloat)| == SumSizes(|ships|) && CanPlaceShip(b, x, y, FleetSizes[|ships|], o)
    requires r == PlaceShip(b, x, y, FleetSizes[|ships|], o, |ships|) && s == ships + [Record(|ships|)]
    ensures |Cells(r, AnyAfloat)| == SumSizes(|s|)
  {
    AfloatCount(b, x, y, o, |ships|);
  }

  /** The afloat census after placing ship `id` is the sizes of the first `id + 1` ships. */
  lemma AfloatCount(b: Grid, x: Coord, y: Coord, o: Orientation, id: nat)
    requires id < 5 && |Cells(b, AnyAfloat)| == SumSizes(id)
    requires CanPlaceShip(b, x, y, FleetSizes[id], o)
    ensures |Cells(PlaceShip(b, x, y, FleetSizes[id], o, id), AnyAfloat)| == SumSizes(id + 1)
  {
    CanPlaceIff(b, x, y, FleetSizes[id], o);
    AfloatGrows(b, x, y, FleetSizes[id], o, id);
    FootprintSize(x, y, FleetSizes[id], o);
  }

  lemma RecordsExtend(ships: seq<ShipState>)
    requires |ships| < 5 && forall k :: 0 <= k < |ships| ==> ships[k] == Record(k)
    ensures var s := ships + [Record(|ships|)]; forall k :: 0 <= k < |s| ==> s[k] == Record(k)
  {
  }

  lemma PlacedIds(b: Grid, x: Coord, y: Coord, n: nat, o: Orientation, id: nat)
    requires Fits(x, y, n, o)
    requires forall q :: At(b, q) == Water || (At(b, q).ShipPart? && At(b, q).id < id)
    ensures var r := PlaceShip(b, x, y, n, o, id);
      forall q :: At(r, q) == Water || (At(r, q).ShipPart? && At(r, q).id < id + 1)
  {
  }

  lemma PlacedCounts(b: Grid, ships: seq<ShipState>, x: Coord, y: Coord, o: Orientation)
    requires SetupOK(b, ships) && |ships| < 5 && CanPlaceShip(b, x, y, FleetSizes[|ships|], o)
    ensures var r := PlaceShip(b, x, y, FleetSizes[|ships|], o, |ships|);
      forall k :: 0 <= k <= |ships| ==> |Cells(r, Exactly(ShipPart(k)))| == FleetSizes[k]
  {
    var id := |ships|;
    var n := FleetSizes[id];
    var r := PlaceShip(b, x, y, n, o, id);
    CanPlaceIff(b, x, y, n, o);
    FootprintSize(x, y, n, o);
    NewShipCells(b, x, y, n, o, id);
    forall k | 0 <= k < id
      ensures Cells(r, Exactly(ShipPart(k))) == Cells(b, Exactly(ShipPart(k)))
    {
      OtherShipCells(b, x, y, n, o, id, k);
    }
  }

  lemma NewShipCells(b: Grid, x: Coord, y: Coord, n: nat, o: Orientation, id: nat)
    requires Fits(x, y, n, o)
    requires forall q :: At(b, q) != ShipPart(id)
    ensures Cells(PlaceShip(b, x, y, n, o, id), Exactly(ShipPart(id))) == Footprint(x, y, n, o)
  {
    var r := PlaceShip(b, x, y, n, o, id);
    forall q ensures q in Cells(r, Exactly(ShipPart(id))) <==> q in Footprint(x, y, n, o) {
      CellsIff(r, Exactly(ShipPart(id)), q);
    }
  }

  lemma OtherShipCells(b: Grid, x: Coord, y: Coord, n: nat, o: Orientation, id: nat, k: nat)
    requires Fits(x, y, n, o) && k != id
    requires forall q :: q in Footprint(x, y, n, o) ==> At(b, q) == Water
    ensures Cells(PlaceShip(b, x, y, n, o, id), Exactly(ShipPart(k))) == Cells(b, Exactly(ShipPart(k)))
  {
    var r := PlaceShip(b, x, y, n, o, id);
    forall q ensures q in Cells(r, Exactly(ShipPart(k))) <==> q in Cells(b, Exactly(ShipPart(k))) {
      CellsIff(r, Exactly(ShipPart(k)), q);
      CellsIff(b, Exactly(ShipPart(k)), q);
    }
  }

  lemma AfloatGrows(b: Grid, x: Coord, y: Coord, n: nat, o: Orientation, id: nat)
    requires Fits(x, y, n, o)
    requires forall q :: q in Footprint(x, y, n, o) ==> At(b, q) == Water
    ensures |Cells(PlaceShip(b, x, y, n, o, id), AnyAfloat)| == |Cells(b, AnyAfloat)| + |Footprint(x, y, n, o)|
  {
    var r := PlaceShip(b, x, y, n, o, id);
    var fp := Footprint(x, y, n, o);
    assert Cells(r, AnyAfloat) == Cells(b, AnyAfloat) + fp by {
      forall q ensures q in Cells(r, AnyAfloat) <==> q in Cells(b, AnyAfloat) + fp {
        CellsIff(r, AnyAfloat, q);
        CellsIff(b, AnyAfloat, q);
      }
    }
    assert Cells(b, AnyAfloat) * fp == {} by {
      forall q | q in fp ensures q !in Cells(b, AnyAfloat) {
        CellsIff(b, AnyAfloat, q);
      }
    }
  }

  /**
   * `placeComputerShips`: each ship in turn takes the first random attempt
   * (column, row, orientation) at which it can be placed. `None` means the
   * supplied attempts ran out before the fleet was complete; the source
   * keeps drawing.
   */
  function PlaceComputerShips(b: Grid, ships: seq<ShipState>, attempts: seq<(Coord, Coord, Orientation)>): (r: Option<(Grid, seq<ShipState>)>)
    requires |ships| <= 5
    ensures r.Some? ==> |r.value.1| == 5 && r.value.1[..|ships|] == ships
    ensures r.None? ==> |ships| < 5
    ensures |ships| == 5 ==> r == Some((b, ships))
    decreases |attempts|
  {
    if |ships| == 5 then Some((b, ships))
    else if |attempts| == 0 then None
    else
      var (x, y, o) := attempts[0];
      if CanPlaceShip(b, x, y, FleetSizes[|ships|], o) then
        var (b', ships') := AddShip(b, ships, x, y, o);
        PlaceComputerShips(b', ships', attempts[1..])
      else PlaceComputerShips(b, ships, attempts[1..])
  }

  /** A completed placement holds the whole fleet in order, without overlap: 17 ship cells and nothing else. */
  lemma {:induction false} ComputerFleetPlaced(b: Grid, ships: seq<ShipState>, attempts: seq<(Coord, Coord, Orientation)>)
    requires SetupOK(b, ships)
    ensures var r := PlaceComputerShips(b, ships, attempts);
      r.Some? ==> SetupOK(r.value.0, r.value.1) && |r.value.1| == 5 && |Cells(r.value.0, AnyAfloat)| == TotalShipCells
    decreases |attempts|
  {
    if |ships| < 5 && |attempts| > 0 {
      var (x, y, o) := attempts[0];
      if CanPlaceShip(b, x, y, FleetSizes[|ships|], o) {
        AddShipKeepsSetup(b, ships, x, y, o);
        var (b', ships') := AddShip(b, ships, x, y, o);
        ComputerFleetPlaced(b', ships', attempts[1..]);
      } else {
        ComputerFleetPlaced(b, ships, attempts[1..]);
      }
    }
  }

  // ----- firing -----

  /**
   * One side's waters: its grid and ships, together with the opponent's
   * record of shots at them and the opponent's hit counter. The player's
   * waters hold `playerBoard`, `playerShips`, `computerShots` and
   * `computerHits`.
   */
  datatype Waters = Waters(board: Grid, ships: seq<ShipState>, shots: seq<Pos>, hits: nat)

  /**
   * The invariant of waters under fire: shots are exactly the hit and
   * missed cells, the counter is the number of hit cells, hit and intact
   * ship cells together are the 17 of the fleet, and each ship covers as
   * many cells, hit or intact, as its size.
   */
  ghost predicate SideOK(w: Waters) {
    && (forall q :: (At(w.board, q).ShipPart? || At(w.board, q).HitPart?) ==> At(w.board, q).id < |w.ships|)
    && (forall q :: q in w.shots <==> At(w.board, q).HitPart? || At(w.board, q) == Miss)
    && |Cells(w.board, AnyStruck)| == w.hits
    && |Cells(w.board, AnyAfloat)| + w.hits == TotalShipCells
    && (forall k :: 0 <= k < |w.ships| ==> PartsOK(w, k))
  }

  ghost predicate PartsOK(w: Waters, k: nat)
    requires k < |w.ships|
  {
    && 0 < w.ships[k].size
    && |Cells(w.board, Exactly(ShipPart(k)))| + |Cells(w.board, Exactly(HitPart(k)))| == w.ships[k].size
  }

  /**
   * What the records hold under `checkShipSunk` as written: every hit on
   * the waters counts against every ship still afloat, so a record holds
   * the waters' hit total capped at its size, and says sunk once that
   * total reaches its size.
   */
  predicate RecordOK(w: Waters, k: nat)
    requires k < |w.ships|
  {
    && w.ships[k].hits == (if w.hits < w.ships[k].size then w.hits else w.ships[k].size)
    && w.ships[k].sunk == (w.hits >= w.ships[k].size)
  }

  predicate RecordsOK(w: Waters) {
    forall k :: 0 <= k < |w.ships| ==> RecordOK(w, k)
  }

  /** What a per-ship count would keep: the hits on this ship alone, and sunk once they reach its size. */
  ghost predicate ExactRecordOK(w: Waters, k: nat)
    requires k < |w.ships|
  {
    && w.ships[k].hits == |Cells(w.board, Exactly(HitPart(k)))|
    && w.ships[k].sunk == (w.ships[k].hits >= w.ships[k].size)
  }

  ghost predicate ExactRecordsOK(w: Waters) {
    forall k :: 0 <= k < |w.ships| ==> ExactRecordOK(w, k)
  }

  /** A completed fleet, before any shot, is waters in order. */
  lemma SetupDone(b: Grid, ships: seq<ShipState>)
    requires SetupOK(b, ships) && |ships| == 5
    ensures SideOK(Waters(b, ships, [], 0))
    ensures RecordsOK(Waters(b, ships, [], 0)) && ExactRecordsOK(Waters(b, ships, [], 0))
  {
    var w := Waters(b, ships, [], 0);
    NoCells(b, AnyStruck);
    forall k | 0 <= k < 5 ensures PartsOK(w, k) && ExactRecordOK(w, k) {
      NoCells(b, Exactly(HitPart(k)));
    }
  }

  /** Waters in order are fully sunk exactly when the opponent has made 17 hits. */
  lemma AllHitIffNoneAfloat(w: Waters)
    requires SideOK(w)
    ensures w.hits >= TotalShipCells <==> Cells(w.board, AnyAfloat) == {}
  {
  }

  /** Under the per-ship count, a record says sunk exactly when none of the ship's cells is left intact. */
  lemma SunkIffNoPartLeft(w: Waters, k: nat)
    requires SideOK(w) && k < |w.ships| && ExactRecordOK(w, k)
    ensures w.ships[k].sunk <==> Cells(w.board, Exactly(ShipPart(k))) == {}
  {
    assert PartsOK(w, k);
  }

  /**
   * As written, a ship with every cell hit is reported sunk, but so may be
   * a ship never touched (see `DestroyerSunkByCarrierHits`): only the
   * waters' hit total decides.
   */
  lemma SunkOnceAllPartsHit(w: Waters, k: nat)
    requires SideOK(w) && k < |w.ships| && RecordOK(w, k)
    ensures Cells(w.board, Exactly(ShipPart(k))) == {} ==> w.ships[k].sunk
    ensures w.ships[k].sunk <==> w.hits >= w.ships[k].size
  {
    assert PartsOK(w, k);
    HitsWithinStruck(w.board, k);
  }

  /** The hits on one ship are among all the struck cells. */
  lemma HitsWithinStruck(b: Grid, k: nat)
    ensures |Cells(b, Exactly(HitPart(k)))| <= |Cells(b, AnyStruck)|
  {
    forall q | q in Cells(b, Exactly(HitPart(k))) ensures q in Cells(b, AnyStruck) {
      CellsIff(b, Exactly(HitPart(k)), q);
      CellsIff(b, AnyStruck, q);
    }
    SubsetSize(Cells(b, Exactly(HitPart(k))), Cells(b, AnyStruck));
  }

  /**
   * `checkShipSunk` as written: every ship not yet sunk gains a hit, not
   * just the one struck, and is marked sunk once its count reaches its size.
   */
  function CheckShipSunkAsWritten(ships: seq<ShipState>): (r: seq<ShipState>)
    ensures |r| == |ships|
    ensures forall k :: 0 <= k < |ships| && ships[k].sunk ==> r[k] == ships[k]
    ensures forall k :: 0 <= k < |ships| && !ships[k].sunk ==>
      r[k] == ships[k].(hits := ships[k].hits + 1, sunk := ships[k].hits + 1 >= ships[k].size)
  {
    seq(|ships|, k requires 0 <= k < |ships| =>
      if ships[k].sunk then ships[k]
      else ships[k].(hits := ships[k].hits + 1, sunk := ships[k].hits + 1 >= ships[k].size))
  }

  /** `checkShipSunk` counting the hit against the ship struck only: the corrected rule, used by `FireRepaired`. */
  function CheckShipSunk(ships: seq<ShipState>, id: nat): (r: seq<ShipState>)
    ensures |r| == |ships|
    ensures forall k :: 0 <= k < |ships| && k != id ==> r[k] == ships[k]
    ensures id < |ships| && !ships[id].sunk ==>
      r[id] == ships[id].(hits := ships[id].hits + 1, sunk := ships[id].hits + 1 >= ships[id].size)
    ensures id < |ships| && ships[id].sunk ==> r[id] == ships[id]
  {
    if id < |ships| && !ships[id].sunk then
      ships[id := ships[id].(hits := ships[id].hits + 1, sunk := ships[id].hits + 1 >= ships[id].size)]
    else ships
  }

  /**
   * Two hits on the carrier of a fresh fleet: as written, the destroyer
   * (two cells, untouched) is then reported sunk; counting per ship, it is not.
   */
  lemma DestroyerSunkByCarrierHits()
    ensures var fleet := [Record(0), Record(1), Record(2), Record(3), Record(4)];
      && CheckShipSunkAsWritten(CheckShipSunkAsWritten(fleet))[4].sunk
      && !CheckShipSunk(CheckShipSunk(fleet, 0), 0)[4].sunk
      && CheckShipSunk(CheckShipSunk(fleet, 0), 0)[0].hits == 2
  {
  }

  /**
   * One shot at a position not shot before: a ship cell becomes a hit of
   * that ship and every ship still afloat counts it (`checkShipSunk` as
   * written); anything else becomes a miss.
   */
  function Fire(w: Waters, p: Pos): (r: Waters)
    ensures r.shots == w.shots + [p]
    ensures forall q :: q != p ==> At(r.board, q) == At(w.board, q)
    ensures At(w.board, p).ShipPart? ==>
      At(r.board, p) == HitPart(At(w.board, p).id) && r.hits == w.hits + 1 && r.ships == CheckShipSunkAsWritten(w.ships)
    ensures !At(w.board, p).ShipPart? ==> At(r.board, p) == Miss && r.hits == w.hits && r.ships == w.ships
  {
    match At(w.board, p)
    case ShipPart(id) => Waters(SetCell(w.board, p, HitPart(id)), CheckShipSunkAsWritten(w.ships), w.shots + [p], w.hits + 1)
    case _ => Waters(SetCell(w.board, p, Miss), w.ships, w.shots + [p], w.hits)
  }

  /** The shot with the hit counted against the ship struck only (`CheckShipSunk`). */
  function FireRepaired(w: Waters, p: Pos): (r: Waters)
    ensures r == Fire(w, p).(ships := r.ships)
    ensures At(w.board, p).ShipPart? ==> r.ships == CheckShipSunk(w.ships, At(w.board, p).id)
    ensures !At(w.board, p).ShipPart? ==> r.ships == w.ships
  {
    match At(w.board, p)
    case ShipPart(id) => Waters(SetCell(w.board, p, HitPart(id)), CheckShipSunk(w.ships, id), w.shots + [p], w.hits + 1)
    case _ => Waters(SetCell(w.board, p, Miss), w.ships, w.shots + [p], w.hits)
  }

  /** A census after changing one cell. */
  lemma CountAfterSet(b: Grid, p: Pos, c: Cell, k: Kind)
    ensures |Cells(SetCell(b, p, c), k)| ==
      |Cells(b, k)| - (if Is(At(b, p), k) then 1 else 0) + (if Is(c, k) then 1 else 0)
  {
    SetCellCells(b, p, c, k);
    CellsIff(b, k, p);
  }

  /** Firing at a fresh position keeps the waters in order, whichever sinking rule keeps the records. */
  lemma FireKeepsSideOK(w: Waters, p: Pos)
    requires SideOK(w) && p !in w.shots
    ensures SideOK(Fire(w, p)) && SideOK(FireRepaired(w, p))
  {
    var c := At(w.board, p);
    assert c == Water || c.ShipPart?;
    var after := if c.ShipPart? then HitPart(c.id) else Miss;
    assert Fire(w, p).board == SetCell(w.board, p, after);
    CountAfterSet(w.board, p, after, AnyStruck);
    CountAfterSet(w.board, p, after, AnyAfloat);
    forall k | 0 <= k < |w.ships| ensures PartsOK(Fire(w, p), k) && PartsOK(FireRepaired(w, p), k) {
      assert PartsOK(w, k);
      FireKeepsParts(w, p, k);
    }
  }

  lemma FireKeepsParts(w: Waters, p: Pos, k: nat)
    requires k < |w.ships| && PartsOK(w, k)
    requires At(w.board, p) == Water || At(w.board, p).ShipPart?
    ensures k < |Fire(w, p).ships| && PartsOK(Fire(w, p), k)
    ensures k < |FireRepaired(w, p).ships| && PartsOK(FireRepaired(w, p), k)
  {
    var c := At(w.board, p);
    var after := if c.ShipPart? then HitPart(c.id) else Miss;
    assert Fire(w, p).board == SetCell(w.board, p, after);
    CountAfterSet(w.board, p, after, Exactly(HitPart(k)));
    CountAfterSet(w.board, p, after, Exactly(ShipPart(k)));
  }

  /** A shot keeps the records to the as-written law: capped hit total, sunk at the ship's size. */
  lemma {:induction false} FireKeepsRecords(w: Waters, p: Pos)
    requires RecordsOK(w)
    ensures RecordsOK(Fire(w, p))
  {
    var r := Fire(w, p);
    forall k | 0 <= k < |r.ships| ensures RecordOK(r, k) {
      assert RecordOK(w, k);
    }
  }

  /** The corrected shot keeps each record equal to the hits on its own ship. */
  lemma RepairedFireKeepsExact(w: Waters, p: Pos)
    requires SideOK(w) && ExactRecordsOK(w) && p !in w.shots
    ensures ExactRecordsOK(FireRepaired(w, p))
  {
    var c := At(w.board, p);
    assert c == Water || c.ShipPart?;
    var after := if c.ShipPart? then HitPart(c.id) else Miss;
    var r := FireRepaired(w, p);
    assert r.board == SetCell(w.board, p, after);
    if c.ShipPart? {
      // the struck ship still has a cell intact, so its record is not yet sunk
      CellsIff(w.board, Exactly(ShipPart(c.id)), p);
      assert PartsOK(w, c.id) && ExactRecordOK(w, c.id);
    }
    forall k | 0 <= k < |r.ships| ensures ExactRecordOK(r, k) {
      assert ExactRecordOK(w, k);
      CountAfterSet(w.board, p, after, Exactly(HitPart(k)));
    }
  }

  // ----- the game -----

  datatype Phase = Setup | Playing | GameOver

  datatype Side = PlayerSide | ComputerSide

  /** The player's waters are shot at by the computer and the computer's by the player. */
  datatype Game = Game(player: Waters, computer: Waters, current: Side, phase: Phase, orientation: Orientation)

  /** What every reachable game satisfies. */
  ghost predicate Valid(g: Game) {
    && SideOK(g.computer) && RecordsOK(g.computer) && |g.computer.ships| == 5
    && (g.phase == Setup ==>
          SetupOK(g.player.board, g.player.ships) && |g.player.ships| < 5
          && g.player.shots == [] && g.player.hits == 0
          && g.computer.shots == [] && g.computer.hits == 0 && g.current == PlayerSide)
    && (g.phase != Setup ==> SideOK(g.player) && RecordsOK(g.player) && |g.player.ships| == 5)
    && (g.phase == Playing ==> g.player.hits < TotalShipCells && g.computer.hits < TotalShipCells)
  }

  /**
   * `initializeGame`: empty waters for the player, a random fleet for the
   * computer, placement of the player's first ship next, horizontally.
   */
  function InitializeGame(attempts: seq<(Coord, Coord, Orientation)>): (r: Option<Game>)
    ensures r.Some? ==> && r.value.phase == Setup && r.value.current == PlayerSide
                        && r.value.orientation == Horizontal
                        && r.value.player == Waters(EmptyGrid, [], [], 0)
                        && r.value.computer.shots == [] && r.value.computer.hits == 0
  {
    var fleet := PlaceComputerShips(EmptyGrid, [], attempts);
    if fleet.None? then None
    else Some(Game(Waters(EmptyGrid, [], [], 0), Waters(fleet.value.0, fleet.value.1, [], 0), PlayerSide, Setup, Horizontal))
  }

  lemma InitialGameValid(attempts: seq<(Coord, Coord, Orientation)>)
    ensures InitializeGame(attempts).Some? ==> Valid(InitializeGame(attempts).value)
  {
    EmptySetup();
    ComputerFleetPlaced(EmptyGrid, [], attempts);
    var r := PlaceComputerShips(EmptyGrid, [], attempts);
    if r.Some? {
      SetupDone(r.value.0, r.value.1);
    }
  }

  /** `toggleOrientation`. */
  function ToggleOrientation(g: Game): (r: Game)
    ensures r.orientation != g.orientation && r == g.(orientation := r.orientation)
  {
    g.(orientation := if g.orientation == Horizontal then Vertical else Horizontal)
  }

  lemma ToggleTwice(g: Game)
    ensures ToggleOrientation(ToggleOrientation(g)) == g
  {
  }

  /**
   * `handlePlayerBoardClick`: during setup, the next unplaced ship goes to
   * the clicked cell in the selected orientation if it can; after the fifth
   * ship, `startGame` opens play with the player to fire.
   */
  function HandlePlayerBoardClick(g: Game, p: Pos): (r: Game)
    ensures g.phase != Setup || |g.player.ships| >= 5 ==> r == g
    ensures g.phase == Setup && |g.player.ships| < 5 && !CanPlaceShip(g.player.board, p.x, p.y, FleetSizes[|g.player.ships|], g.orientation) ==> r == g
    ensures g.phase == Setup && |g.player.ships| < 5 && CanPlaceShip(g.player.board, p.x, p.y, FleetSizes[|g.player.ships|], g.orientation) ==>
      var n := |g.player.ships|;
      && r.player == g.player.(board := PlaceShip(g.player.board, p.x, p.y, FleetSizes[n], g.orientation, n),
                               ships := g.player.ships + [Record(n)])
      && (n == 4 ==> r.phase == Playing && r.current == PlayerSide)
      && (n < 4 ==> r.phase == Setup && r.current == g.current)
    ensures r.computer == g.computer && r.orientation == g.orientation
  {
    if g.phase != Setup || |g.player.ships| >= 5 then g
    else if !CanPlaceShip(g.player.board, p.x, p.y, FleetSizes[|g.player.ships|], g.orientation) then g
    else
      var (b, ships) := AddShip(g.player.board, g.player.ships, p.x, p.y, g.orientation);
      var placed := g.(player := g.player.(board := b, ships := ships));
      if |ships| == 5 then placed.(phase := Playing, current := PlayerSide) else placed
  }

  /** Placement fills the fleet in order, and play begins exactly when the fifth ship is down. */
  lemma PlayerPlacementKeepsValid(g: Game, p: Pos)
    requires Valid(g)
    ensures Valid(HandlePlayerBoardClick(g, p))
    ensures var r := HandlePlayerBoardClick(g, p);
      g.phase == Setup && r != g ==>
        && r.player.ships == g.player.ships + [Record(|g.player.ships|)]
        && (r.phase == Playing <==> |r.player.ships| == 5)
        && r.current == PlayerSide
  {
    if g.phase == Setup && CanPlaceShip(g.player.board, p.x, p.y, FleetSizes[|g.player.ships|], g.orientation) {
      AddShipKeepsSetup(g.player.board, g.player.ships, p.x, p.y, g.orientation);
      var (b, ships) := AddShip(g.player.board, g.player.ships, p.x, p.y, g.orientation);
      if |ships| == 5 {
        SetupDone(b, ships);
      }
    }
  }

  /**
   * `handleComputerBoardClick`: a shot counts only during play on the
   * player's turn and at a cell not shot before; the 17th hit ends the
   * game, any other shot passes the turn to the computer.
   */
  function HandleComputerBoardClick(g: Game, p: Pos): (r: Game)
    ensures g.phase != Playing || g.current != PlayerSide || p in g.computer.shots ==> r == g
    ensures g.phase == Playing && g.current == PlayerSide && p !in g.computer.shots ==>
      && r.computer == Fire(g.computer, p) && r.player == g.player
      && (r.phase == GameOver <==> At(g.computer.board, p).ShipPart? && r.computer.hits >= TotalShipCells)
      && (r.phase != GameOver ==> r.phase == Playing && r.current == ComputerSide)
  {
    if g.phase != Playing || g.current != PlayerSide then g
    else if p in g.computer.shots then g
    else
      var w := Fire(g.computer, p);
      if At(g.computer.board, p).ShipPart? && w.hits >= TotalShipCells then g.(computer := w, phase := GameOver)
      else g.(computer := w, current := ComputerSide)
  }

  /** A player's shot keeps the game valid, and it ends the game exactly when it hits the computer's last intact ship cell. */
  lemma PlayerShotKeepsValid(g: Game, p: Pos)
    requires Valid(g)
    ensures Valid(HandleComputerBoardClick(g, p))
    ensures var r := HandleComputerBoardClick(g, p);
      g.phase == Playing && r.phase == GameOver ==> Cells(r.computer.board, AnyAfloat) == {}
    ensures var r := HandleComputerBoardClick(g, p);
      r.phase == Playing ==> Cells(r.computer.board, AnyAfloat) != {}
  {
    var r := HandleComputerBoardClick(g, p);
    if g.phase == Playing && g.current == PlayerSide && p !in g.computer.shots {
      FireKeepsSideOK(g.computer, p);
      FireKeepsRecords(g.computer, p);
      AllHitIffNoneAfloat(r.computer);
    } else if r.phase == Playing {
      AllHitIffNoneAfloat(r.computer);
    }
  }

  /**
   * The draw loop of `computerTurn`: random cells are drawn until one has
   * not been shot or `MaxAttempts` draws have been made. The result is the
   * index of the last draw, so `attempts` is one more.
   */
  function LastDraw(shots: seq<Pos>, draws: seq<Pos>, k: nat): (last: nat)
    requires k < MaxAttempts <= |draws|
    ensures k <= last < MaxAttempts
    ensures forall i :: k <= i < last ==> draws[i] in shots
    ensures last < MaxAttempts - 1 ==> draws[last] !in shots
    decreases MaxAttempts - k
  {
    if draws[k] in shots && k + 1 < MaxAttempts then LastDraw(shots, draws, k + 1) else k
  }

  /** The computer's shot at `p`: the mirror image of the player's. */
  function ComputerShot(g: Game, p: Pos): (r: Game)
    ensures r.player == Fire(g.player, p) && r.computer == g.computer
  {
    var w := Fire(g.player, p);
    if At(g.player.board, p).ShipPart? && w.hits >= TotalShipCells then g.(player := w, phase := GameOver)
    else g.(player := w, current := PlayerSide)
  }

  /**
   * `computerTurn` as written: it gives up as soon as `attempts` reaches
   * `MaxAttempts`, even when the last draw found a cell not shot before.
   * Giving up ends the game only when every cell has been shot, and
   * otherwise leaves the turn with the computer. This is the turn the game
   * takes.
   */
  function ComputerTurnAsWritten(g: Game, draws: seq<Pos>): (r: Game)
    requires MaxAttempts <= |draws|
    ensures g.phase != Playing || g.current != ComputerSide ==> r == g
    ensures g.phase == Playing && g.current == ComputerSide ==>
      var last := LastDraw(g.player.shots, draws, 0);
      && (forall i :: 0 <= i < last ==> draws[i] in g.player.shots)
      && (last < MaxAttempts - 1 ==> draws[last] !in g.player.shots && r == ComputerShot(g, draws[last]))
      && (last == MaxAttempts - 1 ==> r == g.(phase := if |g.player.shots| >= Size * Size then GameOver else g.phase))
  {
    if g.phase != Playing || g.current != ComputerSide then g
    else
      var last := LastDraw(g.player.shots, draws, 0);
      if last + 1 >= MaxAttempts then
        if |g.player.shots| >= Size * Size then g.(phase := GameOver) else g
      else ComputerShot(g, draws[last])
  }

  /**
   * `computerTurn` giving up only when the last draw, too, was a cell
   * already shot: the corrected turn.
   */
  function ComputerTurn(g: Game, draws: seq<Pos>): (r: Game)
    requires MaxAttempts <= |draws|
    ensures g.phase != Playing || g.current != ComputerSide ==> r == g
    ensures g.phase == Playing && g.current == ComputerSide ==>
      var last := LastDraw(g.player.shots, draws, 0);
      && (forall i :: 0 <= i < last ==> draws[i] in g.player.shots)
      && (draws[last] !in g.player.shots ==> r == ComputerShot(g, draws[last]))
      && (draws[last] in g.player.shots ==> r == g.(phase := if |g.player.shots| >= Size * Size then GameOver else g.phase))
  {
    if g.phase != Playing || g.current != ComputerSide then g
    else
      var last := LastDraw(g.player.shots, draws, 0);
      if draws[last] in g.player.shots then
        if |g.player.shots| >= Size * Size then g.(phase := GameOver) else g
      else ComputerShot(g, draws[last])
  }

  /** The two turns differ only when the hundredth draw is the first fresh cell. */
  lemma TurnsAgreeUnlessLastDrawFresh(g: Game, draws: seq<Pos>)
    requires MaxAttempts <= |draws|
    ensures ComputerTurnAsWritten(g, draws) != ComputerTurn(g, draws) ==>
      && g.phase == Playing && g.current == ComputerSide
      && (forall i :: 0 <= i < MaxAttempts - 1 ==> draws[i] in g.player.shots)
      && draws[MaxAttempts - 1] !in g.player.shots
  {
  }

  /**
   * When the first 99 draws repeat earlier shots and the 100th does not,
   * the as-written turn fires nothing and the game is stuck: the computer
   * keeps the turn and every click of the player is ignored. The repaired
   * turn fires at the 100th draw.
   */
  lemma HundredthDrawDiscarded(g: Game, draws: seq<Pos>)
    requires MaxAttempts <= |draws|
    requires g.phase == Playing && g.current == ComputerSide && |g.player.shots| < Size * Size
    requires forall i :: 0 <= i < MaxAttempts - 1 ==> draws[i] in g.player.shots
    requires draws[MaxAttempts - 1] !in g.player.shots
    ensures ComputerTurnAsWritten(g, draws) == g
    ensures forall p :: HandleComputerBoardClick(ComputerTurnAsWritten(g, draws), p) == g
    ensures ComputerTurn(g, draws) == ComputerShot(g, draws[MaxAttempts - 1])
  {
    var last := LastDraw(g.player.shots, draws, 0);
    assert last == MaxAttempts - 1;
  }

  /** A shot by the computer at a fresh cell keeps the game valid and ends it exactly when no ship cell of the player is left intact. */
  lemma ComputerShotKeepsValid(g: Game, p: Pos)
    requires Valid(g) && g.phase == Playing && p !in g.player.shots
    ensures Valid(ComputerShot(g, p))
    ensures ComputerShot(g, p).phase == GameOver <==> Cells(ComputerShot(g, p).player.board, AnyAfloat) == {}
  {
    FireKeepsSideOK(g.player, p);
    FireKeepsRecords(g.player, p);
    AllHitIffNoneAfloat(ComputerShot(g, p).player);
  }

  /** The computer's turn keeps the game valid; if it fires, it ends the game exactly when it hits the player's last intact ship cell. */
  lemma ComputerTurnKeepsValid(g: Game, draws: seq<Pos>)
    requires Valid(g) && MaxAttempts <= |draws|
    ensures Valid(ComputerTurnAsWritten(g, draws))
    ensures var r := ComputerTurnAsWritten(g, draws);
      r.phase == Playing ==> Cells(r.player.board, AnyAfloat) != {}
    ensures var r := ComputerTurnAsWritten(g, draws);
      g.phase == Playing && r.player != g.player ==>
        (r.phase == GameOver <==> Cells(r.player.board, AnyAfloat) == {})
  {
    var r := ComputerTurnAsWritten(g, draws);
    if g.phase == Playing && g.current == ComputerSide {
      var last := LastDraw(g.player.shots, draws, 0);
      if last < MaxAttempts - 1 {
        ComputerShotKeepsValid(g, draws[last]);
      }
    }
    if r.phase != Setup {
      AllHitIffNoneAfloat(r.player);
    }
  }

  /** The corrected turn keeps the game valid in the same way. */
  lemma RepairedTurnKeepsValid(g: Game, draws: seq<Pos>)
    requires Valid(g) && MaxAttempts <= |draws|
    ensures Valid(ComputerTurn(g, draws))
    ensures var r := ComputerTurn(g, draws);
      r.phase == Playing ==> Cells(r.player.board, AnyAfloat) != {}
    ensures var r := ComputerTurn(g, draws);
      g.phase == Playing && r.player != g.player ==>
        (r.phase == GameOver <==> Cells(r.player.board, AnyAfloat) == {})
  {
    var r := ComputerTurn(g, draws);
    if g.phase == Playing && g.current == ComputerSide {
      var last := LastDraw(g.player.shots, draws, 0);
      if draws[last] !in g.player.shots {
        ComputerShotKeepsValid(g, draws[last]);
      }
    }
    if r.phase != Setup {
      AllHitIffNoneAfloat(r.player);
    }
  }

  /** `resetGame` starts over through `initializeGame`. */
  function ResetGame(g: Game, attempts: seq<(Coord, Coord, Orientation)>): (r: Option<Game>)
    ensures r.Some? ==> r.value.phase == Setup && r.value.player.ships == [] && r.value.computer.hits == 0
  {
    InitializeGame(attempts)
  }
}
