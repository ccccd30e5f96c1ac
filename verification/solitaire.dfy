/**
 * Klondike solitaire from assets/js/solitaire.js: the deck, the deal, the
 * stock and waste, foundation and tableau moves with their difficulty
 * rules and bonuses, the win check and the bound on the undo stack. The
 * shuffle's random draws are a parameter.
 */
module Solitaire {
  import opened Util

  datatype Suit = Hearts | Diamonds | Clubs | Spades

  /** `this.suits`, which is also the foundation order very hard mode insists on. */
  const Suits: seq<Suit> := [Hearts, Diamonds, Clubs, Spades]

  datatype Color = Red | Black

  function ColorOf(s: Suit): Color {
    if s == Hearts || s == Diamonds then Red else Black
  }

  /** The identity of a card, ignoring which way up it lies. */
  datatype Face = Face(suit: Suit, value: int)

  /** A card: `value` is the rank index plus one, so rank 'A' is 1 and 'K' is 13. */
  datatype Card = Card(suit: Suit, value: int, faceUp: bool) {
    function Color(): Color { ColorOf(suit) }
    function Id(): Face { Face(suit, value) }
  }

  // ------------------------------------------------------------------ deck

  function SuitCards(s: Suit, from: nat): (cs: seq<Card>)
    requires from <= 13
    ensures |cs| == 13 - from
    ensures forall i :: 0 <= i < |cs| ==> cs[i] == Card(s, from + i + 1, false)
    decreases 13 - from
  {
    if from == 13 then [] else [Card(s, from + 1, false)] + SuitCards(s, from + 1)
  }

  /** `createDeck`: thirteen face-down cards of each suit in `this.suits` order, ace first. */
  function CreateDeck(): (d: seq<Card>)
    ensures |d| == 52
  {
    SuitCards(Hearts, 0) + SuitCards(Diamonds, 0) + SuitCards(Clubs, 0) + SuitCards(Spades, 0)
  }

  /** Card k of the fresh deck is rank k % 13 of suit k / 13. */
  lemma DeckLayout()
    ensures forall k :: 0 <= k < 52 ==> CreateDeck()[k] == Card(Suits[k / 13], k % 13 + 1, false)
  {
    forall k | 0 <= k < 52 ensures CreateDeck()[k] == Card(Suits[k / 13], k % 13 + 1, false) {
      var q, r := k / 13, k % 13;
      assert k == 13 * q + r && 0 <= q < 4;
      DeckCardAt(q, r);
    }
  }


  function SuitIndex(s: Suit): (i: nat)
    ensures i < 4 && Suits[i] == s
  {
    match s
    case Hearts => 0
    case Diamonds => 1
    case Clubs => 2
    case Spades => 3
  }

  /** Where a card lies in a fresh deck. */
  function Slot(s: Suit, v: int): int {
    13 * SuitIndex(s) + v - 1
  }

  /** Card `13 * q + r` of the fresh deck is rank `r + 1` of the `q`th suit. */
  lemma DeckCardAt(q: int, r: int)
    requires 0 <= q < 4 && 0 <= r < 13
    ensures CreateDeck()[13 * q + r] == Card(Suits[q], r + 1, false)
  {
    var d := CreateDeck();
    if q == 0 {
      assert d[r] == SuitCards(Hearts, 0)[r];
    } else if q == 1 {
      assert d[13 + r] == SuitCards(Diamonds, 0)[r];
    } else if q == 2 {
      assert d[26 + r] == SuitCards(Clubs, 0)[r];
    } else {
      assert d[39 + r] == SuitCards(Spades, 0)[r];
    }
  }

  lemma SlotOfDeckCard(k: int)
    requires 0 <= k < 52
    ensures Slot(CreateDeck()[k].suit, CreateDeck()[k].value) == k
  {
    var q, r := k / 13, k % 13;
    assert k == 13 * q + r && 0 <= q < 4;
    DeckCardAt(q, r);
    assert SuitIndex(Suits[q]) == q;
  }

  lemma CardOfSlot(s: Suit, v: int)
    requires 1 <= v <= 13
    ensures 0 <= Slot(s, v) < 52 && CreateDeck()[Slot(s, v)] == Card(s, v, false)
  {
    DeckCardAt(SuitIndex(s), v - 1);
  }

  /** The deck holds every suit and rank exactly once: slot and card determine each other. */
  lemma DeckIsComplete()
    ensures forall s: Suit, v :: 1 <= v <= 13 ==> 0 <= Slot(s, v) < 52 && CreateDeck()[Slot(s, v)] == Card(s, v, false)
    ensures forall k :: 0 <= k < 52 ==> Slot(CreateDeck()[k].suit, CreateDeck()[k].value) == k
    ensures forall k1, k2 :: 0 <= k1 < k2 < 52 ==> CreateDeck()[k1].Id() != CreateDeck()[k2].Id()
  {
    assert forall s: Suit, v :: 1 <= v <= 13 ==> 0 <= Slot(s, v) < 52 && CreateDeck()[Slot(s, v)] == Card(s, v, false) by {
      DeckCards();
    }
    assert forall k :: 0 <= k < 52 ==> Slot(CreateDeck()[k].suit, CreateDeck()[k].value) == k by {
      DeckSlots();
    }
    DeckIdsDistinct();
  }

  lemma DeckSlots()
    ensures forall k :: 0 <= k < 52 ==> Slot(CreateDeck()[k].suit, CreateDeck()[k].value) == k
  {
    forall k | 0 <= k < 52 ensures Slot(CreateDeck()[k].suit, CreateDeck()[k].value) == k {
      SlotOfDeckCard(k);
    }
  }

  lemma DeckCards()
    ensures forall s: Suit, v :: 1 <= v <= 13 ==> 0 <= Slot(s, v) < 52 && CreateDeck()[Slot(s, v)] == Card(s, v, false)
  {
    forall s: Suit, v | 1 <= v <= 13 ensures 0 <= Slot(s, v) < 52 && CreateDeck()[Slot(s, v)] == Card(s, v, false) {
      CardOfSlot(s, v);
    }
  }

  lemma DeckIdsDistinct()
    ensures forall k1, k2 :: 0 <= k1 < k2 < 52 ==> CreateDeck()[k1].Id() != CreateDeck()[k2].Id()
  {
    forall k1, k2 | 0 <= k1 < k2 < 52 ensures CreateDeck()[k1].Id() != CreateDeck()[k2].Id() {
      SlotOfDeckCard(k1);
      SlotOfDeckCard(k2);
    }
  }


  /**
   * `shuffleDeck`: Fisher-Yates from the top index down, swapping slot `i`
   * with slot `draws[i] % (i + 1)` (the source's `Math.floor(Math.random() * (i + 1))`).
   */
  method Shuffle(deck: seq<Card>, draws: seq<nat>) returns (r: seq<Card>)
    requires |draws| == |deck|
    ensures |r| == |deck| && multiset(r) == multiset(deck)
  {
    r := deck;
    var i := |r| - 1;
    while i > 0
      invariant -1 <= i < |r| && |r| == |deck|
      invariant multiset(r) == multiset(deck)
    {
      var j := draws[i] % (i + 1);
      var a, b := r[i], r[j];
      r := r[i := b][j := a];
      i := i - 1;
    }
  }

  // ----------------------------------------------------------------- faces

  /** The faces of a pile, in order. */
  function Ids(s: seq<Card>): (r: seq<Face>)
    ensures |r| == |s| && forall i :: 0 <= i < |s| ==> r[i] == s[i].Id()
  {
    seq(|s|, i requires 0 <= i < |s| => s[i].Id())
  }

  function Faces(s: seq<Card>): multiset<Face> {
    multiset(Ids(s))
  }

  function PilesFaces(ps: seq<seq<Card>>): multiset<Face> {
    if |ps| == 0 then multiset{} else Faces(ps[0]) + PilesFaces(ps[1..])
  }

  lemma FacesAppend(a: seq<Card>, b: seq<Card>)
    ensures Faces(a + b) == Faces(a) + Faces(b)
  {
    assert Ids(a + b) == Ids(a) + Ids(b);
  }

  lemma FacesOfMultiset(s: seq<Card>)
    ensures |Faces(s)| == |s|
    ensures forall c :: c in multiset(s) ==> c.Id() in Faces(s)
  {
    forall c | c in multiset(s) ensures c.Id() in Faces(s) {
      var i :| 0 <= i < |s| && s[i] == c;
      assert Ids(s)[i] == c.Id();
    }
  }

  lemma RemoveMatching(a: seq<Card>, b: seq<Card>, i: int)
    requires multiset(a) == multiset(b) && |a| > 0 && 0 <= i < |b| && b[i] == a[0]
    ensures multiset(a[1..]) == multiset(b[..i] + b[i + 1..])
  {
    var m := b[..i] + b[i + 1..];
    assert a == [a[0]] + a[1..];
    assert multiset(a) == multiset{a[0]} + multiset(a[1..]);
    assert b == b[..i] + [b[i]] + b[i + 1..];
    assert multiset(b) == multiset(m) + multiset{b[i]};
    forall o ensures multiset(a[1..])[o] == multiset(m)[o] {
      assert multiset(a)[o] == multiset(b)[o];
    }
  }

  /** Faces only depend on the multiset of cards, so a shuffle keeps them. */
  lemma {:induction false} FacesPermutation(a: seq<Card>, b: seq<Card>)
    requires multiset(a) == multiset(b)
    ensures Faces(a) == Faces(b)
    decreases |a|
  {
    if |a| > 0 {
      var x := a[0];
      assert x in multiset(b);
      var i :| 0 <= i < |b| && b[i] == x;
      RemoveMatching(a, b, i);
      FacesPermutation(a[1..], b[..i] + b[i + 1..]);
      RemoveAtFaces(b, i);
      assert a == [x] + a[1..];
      FacesAppend([x], a[1..]);
      assert Ids([x]) == [x.Id()];
    } else {
      assert b == [];
    }
  }

  /** Removing the card at `i` removes exactly its face. */
  lemma RemoveAtFaces(s: seq<Card>, i: int)
    requires 0 <= i < |s|
    ensures Faces(s[..i] + s[i + 1..]) + multiset{s[i].Id()} == Faces(s)
  {
    var l, r := s[..i], s[i + 1..];
    assert s == (l + [s[i]]) + r;
    FacesAppend(l + [s[i]], r);
    FacesAppend(l, [s[i]]);
    FacesAppend(l, r);
    assert Ids([s[i]]) == [s[i].Id()];
  }

  lemma SplitFaces(s: seq<Card>, i: int)
    requires 0 <= i <= |s|
    ensures Faces(s[..i]) + Faces(s[i..]) == Faces(s)
  {
    assert s == s[..i] + s[i..];
    FacesAppend(s[..i], s[i..]);
  }

  lemma {:induction false} PilesUpdate(ps: seq<seq<Card>>, k: int, p: seq<Card>)
    requires 0 <= k < |ps|
    ensures PilesFaces(ps[k := p]) + Faces(ps[k]) == PilesFaces(ps) + Faces(p)
  {
    if k > 0 {
      PilesUpdate(ps[1..], k - 1, p);
      assert ps[k := p][1..] == ps[1..][k - 1 := p];
      assert ps[k := p][0] == ps[0] && ps[1..][k - 1] == ps[k];
      calc {
        PilesFaces(ps[k := p]) + Faces(ps[k]);
        Faces(ps[0]) + PilesFaces(ps[1..][k - 1 := p]) + Faces(ps[1..][k - 1]);
        Faces(ps[0]) + (PilesFaces(ps[1..][k - 1 := p]) + Faces(ps[1..][k - 1]));
        Faces(ps[0]) + (PilesFaces(ps[1..]) + Faces(p));
        PilesFaces(ps) + Faces(p);
      }
    } else {
      assert ps[k := p][1..] == ps[1..];
    }
  }

  lemma {:induction false} PilesSize(ps: seq<seq<Card>>)
    ensures |PilesFaces(ps)| == TotalSize(ps)
  {
    if |ps| > 0 {
      PilesSize(ps[1..]);
      FacesOfMultiset(ps[0]);
    }
  }

  /** The number of cards in a row of piles: `reduce((sum, p) => sum + p.length, 0)`. */
  function TotalSize(ps: seq<seq<Card>>): nat {
    if |ps| == 0 then 0 else |ps[0]| + TotalSize(ps[1..])
  }

  // ------------------------------------------------------------------ game

  datatype Difficulty = Easy | Normal | Hard | VeryHard

  /** `setupDifficulty`. */
  function MaxUndos(d: Difficulty): nat {
    match d
    case Easy => 10
    case Normal => 5
    case Hard => 2
    case VeryHard => 0
  }

  /** The foundation bonus of `moveToFoundation`. */
  function FoundationBonus(d: Difficulty): nat {
    match d
    case Easy => 15
    case Normal => 10
    case Hard => 8
    case VeryHard => 5
  }

  datatype MoveKind = StockDraw | CardMove

  /** What `saveMoveForUndo` pushes, as far as the bound on the stack is concerned. */
  datatype UndoEntry = UndoEntry(kind: MoveKind, score: int)

  datatype Game = Game(
    stock: seq<Card>,
    waste: seq<Card>,
    foundations: seq<seq<Card>>,
    tableau: seq<seq<Card>>,
    moves: nat,
    score: int,
    won: bool,
    difficulty: Difficulty,
    undoStack: seq<UndoEntry>,
    maxUndos: nat)

  /** Four foundations and seven tableau columns, as the constructor builds them. */
  predicate Shaped(g: Game) {
    |g.foundations| == 4 && |g.tableau| == 7
  }

  function TotalFaces(g: Game): multiset<Face> {
    Faces(g.stock) + Faces(g.waste) + PilesFaces(g.foundations) + PilesFaces(g.tableau)
  }

  /** Where column `c` starts in the deck; entry 7 is where the stock starts. */
  const ColumnStarts: seq<nat> := [0, 1, 3, 6, 10, 15, 21, 28]

  function ColumnStart(c: nat): (s: nat)
    requires c < 7
    ensures s == ColumnStarts[c] && s + c < 28 && s + c + 1 == ColumnStarts[c + 1]
  {
    if c == 0 then 0 else if c == 1 then 1 else if c == 2 then 3 else if c == 3 then 6
    else if c == 4 then 10 else if c == 5 then 15 else 21
  }

  function DealColumn(deck: seq<Card>, c: nat): (col: seq<Card>)
    requires c < 7 && |deck| == 52
    ensures |col| == c + 1
  {
    var s := ColumnStart(c);
    deck[s..s + c] + [deck[s + c].(faceUp := true)]
  }

  /** `dealCards`: column c takes the next c+1 cards with the last turned up; the other 24 form the stock. */
  function Deal(deck: seq<Card>): (g: (seq<seq<Card>>, seq<Card>))
    requires |deck| == 52
    ensures |g.0| == 7 && |g.1| == 24
    ensures forall c :: 0 <= c < 7 ==> |g.0[c]| == c + 1 && g.0[c][c].faceUp
    ensures (forall k :: 0 <= k < 52 ==> !deck[k].faceUp) ==>
      (forall c, r :: 0 <= c < 7 && 0 <= r < c ==> !g.0[c][r].faceUp) && (forall k :: 0 <= k < 24 ==> !g.1[k].faceUp)
  {
    ([DealColumn(deck, 0), DealColumn(deck, 1), DealColumn(deck, 2), DealColumn(deck, 3),
      DealColumn(deck, 4), DealColumn(deck, 5), DealColumn(deck, 6)], deck[28..])
  }

  lemma DealColumnFaces(deck: seq<Card>, c: nat)
    requires c < 7 && |deck| == 52
    ensures Faces(DealColumn(deck, c)) == Faces(deck[ColumnStart(c)..ColumnStart(c) + c + 1])
  {
    var s := ColumnStart(c);
    var part := deck[s..s + c + 1];
    assert part == deck[s..s + c] + [deck[s + c]];
    FacesAppend(deck[s..s + c], [deck[s + c]]);
    FacesAppend(deck[s..s + c], [deck[s + c].(faceUp := true)]);
  }

  lemma PilesFrom(ps: seq<seq<Card>>, k: int)
    requires 0 <= k < |ps|
    ensures PilesFaces(ps[k..]) == Faces(ps[k]) + PilesFaces(ps[k + 1..])
  {
    assert ps[k..][0] == ps[k] && ps[k..][1..] == ps[k + 1..];
  }

  lemma DealStep(deck: seq<Card>, k: nat)
    requires |deck| == 52 && k < 7
    ensures Faces(deck[..ColumnStarts[k + 1]]) == Faces(deck[..ColumnStarts[k]]) + Faces(DealColumn(deck, k))
  {
    var s := ColumnStart(k);
    DealColumnFaces(deck, k);
    assert deck[..s + k + 1] == deck[..s] + deck[s..s + k + 1];
    FacesAppend(deck[..s], deck[s..s + k + 1]);
  }

  /** The deal puts every card of the deck somewhere. */
  lemma DealKeepsFaces(deck: seq<Card>)
    requires |deck| == 52
    ensures PilesFaces(Deal(deck).0) + Faces(Deal(deck).1) == Faces(deck)
  {
    var cols := Deal(deck).0;
    assert forall c :: 0 <= c < 7 ==> cols[c] == DealColumn(deck, c);
    ColumnsFaces(deck, cols);
    SplitFaces(deck, 28);
  }

  /** The seven dealt columns hold exactly the first 28 cards. */
  lemma ColumnsFaces(deck: seq<Card>, cols: seq<seq<Card>>)
    requires |deck| == 52 && |cols| == 7
    requires forall c :: 0 <= c < 7 ==> cols[c] == DealColumn(deck, c)
    ensures PilesFaces(cols) == Faces(deck[..28])
  {
    var k := 0;
    while k < 7
      invariant 0 <= k <= 7
      invariant PilesFaces(cols) == Faces(deck[..ColumnStarts[k]]) + PilesFaces(cols[k..])
    {
      ColumnsStep(deck, cols, k);
      k := k + 1;
    }
    assert cols[7..] == [];
  }

  lemma ColumnsStep(deck: seq<Card>, cols: seq<seq<Card>>, k: nat)
    requires |deck| == 52 && |cols| == 7 && k < 7 && cols[k] == DealColumn(deck, k)
    ensures Faces(deck[..ColumnStarts[k]]) + PilesFaces(cols[k..]) == Faces(deck[..ColumnStarts[k + 1]]) + PilesFaces(cols[k + 1..])
  {
    PilesFrom(cols, k);
    DealStep(deck, k);
  }

  /**
   * `newGame` (and `initializeGame`, and `setDifficulty` after storing the
   * level): a fresh deal of the shuffled deck and zeroed counters.
   */
  function NewGame(d: Difficulty, shuffled: seq<Card>): (g: Game)
    requires |shuffled| == 52
    ensures Shaped(g) && g.waste == [] && |g.stock| == 24
    ensures forall f :: 0 <= f < 4 ==> g.foundations[f] == []
    ensures forall c :: 0 <= c < 7 ==> |g.tableau[c]| == c + 1
    ensures g.maxUndos == MaxUndos(d) && g.undoStack == [] && g.moves == 0 && g.score == 0 && !g.won
  {
    var dealt := Deal(shuffled);
    Game(dealt.1, [], [[], [], [], []], dealt.0, 0, 0, false, d, [], MaxUndos(d))
  }

  /** A new game holds the 52 distinct cards of the deck. */
  lemma NewGameHoldsDeck(d: Difficulty, shuffled: seq<Card>)
    requires |shuffled| == 52 && multiset(shuffled) == multiset(CreateDeck())
    ensures TotalFaces(NewGame(d, shuffled)) == Faces(CreateDeck())
    ensures |TotalFaces(NewGame(d, shuffled))| == 52
  {
    NewGameFaces(d, shuffled);
    FacesPermutation(shuffled, CreateDeck());
    FacesOfMultiset(CreateDeck());
  }

  lemma NewGameFaces(d: Difficulty, shuffled: seq<Card>)
    requires |shuffled| == 52
    ensures TotalFaces(NewGame(d, shuffled)) == Faces(shuffled)
  {
    var g := NewGame(d, shuffled);
    var dealt := Deal(shuffled);
    assert g.stock == dealt.1 && g.tableau == dealt.0 && g.waste == [] && g.foundations == [[], [], [], []];
    assert PilesFaces(g.foundations) == multiset{} by {
      assert g.foundations[1..][1..][1..][1..] == [];
    }
    assert Faces(g.waste) == multiset{};
    DealKeepsFaces(shuffled);
  }

  // --------------------------------------------------------------- undo cap

  /** `saveMoveForUndo`: push unless undo is off, then drop the oldest entry above the cap. */
  function SaveMoveForUndo(g: Game, kind: MoveKind): (r: Game)
    ensures |g.undoStack| <= g.maxUndos ==> |r.undoStack| <= r.maxUndos
    ensures g.maxUndos == 0 ==> r == g
    ensures g.maxUndos > 0 ==> |r.undoStack| > 0 && r.undoStack[|r.undoStack| - 1] == UndoEntry(kind, g.score)
    ensures r == g.(undoStack := r.undoStack)
  {
    if g.maxUndos == 0 then g
    else
      var pushed := g.undoStack + [UndoEntry(kind, g.score)];
      if |pushed| > g.maxUndos then g.(undoStack := pushed[1..]) else g.(undoStack := pushed)
  }

  // ------------------------------------------------------------ stock/waste

  function Last<T>(s: seq<T>): T
    requires |s| > 0
  {
    s[|s| - 1]
  }

  function DropLast<T>(s: seq<T>): seq<T> {
    if |s| == 0 then s else s[..|s| - 1]
  }

  /** The waste returned to the stock: popped one by one, so reversed, and turned down. */
  function Recycle(waste: seq<Card>): (stock: seq<Card>)
    ensures |stock| == |waste|
    ensures forall i :: 0 <= i < |waste| ==> stock[i] == waste[|waste| - 1 - i].(faceUp := false)
  {
    if |waste| == 0 then [] else [Last(waste).(faceUp := false)] + Recycle(DropLast(waste))
  }

  lemma {:induction false} RecycleFaces(waste: seq<Card>)
    ensures Faces(Recycle(waste)) == Faces(waste)
    decreases |waste|
  {
    if |waste| > 0 {
      var w := DropLast(waste);
      var top := Last(waste);
      RecycleFaces(w);
      assert waste == w + [top];
      FacesAppend(w, [top]);
      FacesAppend([top.(faceUp := false)], Recycle(w));
      assert Ids([top]) == Ids([top.(faceUp := false)]);
    }
  }

  /** Moving the stock's top card onto the waste keeps the two piles' faces together. */
  lemma DrawKeepsFaces(stock: seq<Card>, waste: seq<Card>)
    requires |stock| > 0
    ensures Faces(DropLast(stock)) + Faces(waste + [Last(stock).(faceUp := true)]) == Faces(stock) + Faces(waste)
  {
    var card := Last(stock);
    assert stock == DropLast(stock) + [card];
    FacesAppend(DropLast(stock), [card]);
    FacesAppend(waste, [card.(faceUp := true)]);
  }

  /**
   * `clickStock`: draw the stock's top card face up onto the waste and
   * count a move (recorded for undo); with an empty stock, turn the whole
   * waste back over into the stock.
   */
  function ClickStock(g: Game): (r: Game)
    ensures |g.stock| > 0 ==>
      && r.stock == DropLast(g.stock) && r.waste == g.waste + [Last(g.stock).(faceUp := true)]
      && r.moves == g.moves + 1
    ensures |g.stock| == 0 ==> r.moves == g.moves && r.waste == [] && r.stock == Recycle(g.waste)
    ensures r.foundations == g.foundations && r.tableau == g.tableau && r.score == g.score
    ensures TotalFaces(r) == TotalFaces(g)
    ensures |g.undoStack| <= g.maxUndos ==> |r.undoStack| <= r.maxUndos
  {
    if |g.stock| > 0 then DrawFromStock(g)
    else if |g.waste| > 0 then
      RecycleFaces(g.waste);
      g.(stock := Recycle(g.waste), waste := [])
    else g
  }

  /** The drawing half of `handleStockClick`: the top stock card turns face up onto the waste. */
  function DrawFromStock(g: Game): (r: Game)
    requires |g.stock| > 0
    ensures r.stock == DropLast(g.stock) && r.waste == g.waste + [Last(g.stock).(faceUp := true)]
    ensures r.moves == g.moves + 1
    ensures r.foundations == g.foundations && r.tableau == g.tableau && r.score == g.score
    ensures TotalFaces(r) == TotalFaces(g)
    ensures |g.undoStack| <= g.maxUndos ==> |r.undoStack| <= r.maxUndos
  {
    var card := Last(g.stock);
    DrawKeepsFaces(g.stock, g.waste);
    SaveMoveForUndo(g.(stock := DropLast(g.stock), waste := g.waste + [card.(faceUp := true)], moves := g.moves + 1), StockDraw)
  }

  // ------------------------------------------------------------ card moves

  /** The pile a selection comes from. */
  datatype Source = WastePile | FoundationPile(f: int) | TableauPile(t: int)

  /** The pile a selected card is dropped on. */
  datatype Target = ToFoundation(f: int) | ToTableau(t: int)

  predicate ValidSource(src: Source) {
    match src
    case WastePile => true
    case FoundationPile(f) => 0 <= f < 4
    case TableauPile(t) => 0 <= t < 7
  }

  predicate ValidTarget(dst: Target) {
    match dst
    case ToFoundation(f) => 0 <= f < 4
    case ToTableau(t) => 0 <= t < 7
  }

  /** `getCardFromPile`: the waste's top whatever the index, or the indexed card of a pile. */
  function CardAt(g: Game, src: Source, index: nat): Option<Card>
    requires Shaped(g) && ValidSource(src)
  {
    match src
    case WastePile => if |g.waste| > 0 then Some(Last(g.waste)) else None
    case FoundationPile(f) => if index < |g.foundations[f]| then Some(g.foundations[f][index]) else None
    case TableauPile(t) => if index < |g.tableau[t]| then Some(g.tableau[t][index]) else None
  }

  /** `selectCard`'s guard: a face-up card that `canSelectCard` allows (tops of waste and foundations, any face-up tableau card). */
  predicate CanSelect(g: Game, src: Source, index: nat)
    requires Shaped(g) && ValidSource(src)
  {
    && CardAt(g, src, index).Some? && CardAt(g, src, index).value.faceUp
    && match src
       case WastePile => index == |g.waste| - 1
       case FoundationPile(f) => index == |g.foundations[f]| - 1
       case TableauPile(t) => index < |g.tableau[t]|
  }

  /** `canMoveToFoundation`: an ace on an empty foundation, else the same suit one higher. */
  predicate CanMoveToFoundation(foundation: seq<Card>, card: Card) {
    if |foundation| == 0 then card.value == 1
    else card.suit == Last(foundation).suit && card.value == Last(foundation).value + 1
  }

  /** An empty column takes only a king; otherwise the opposite colour, one lower. */
  predicate CanMoveToTableau(column: seq<Card>, bottom: Card) {
    if |column| == 0 then bottom.value == 13
    else bottom.Color() != Last(column).Color() && bottom.value == Last(column).value - 1
  }

  /** The column with its top card turned face up. */
  function TurnTopUp(column: seq<Card>): (c: seq<Card>)
    requires |column| > 0
    ensures |c| == |column| && Faces(c) == Faces(column) && Last(c).faceUp
    ensures forall i :: 0 <= i < |column| - 1 ==> c[i] == column[i]
  {
    var n := |column| - 1;
    assert column == column[..n] + [column[n]];
    FacesAppend(column[..n], [column[n]]);
    FacesAppend(column[..n], [column[n].(faceUp := true)]);
    column[..n] + [column[n].(faceUp := true)]
  }

  /** Turn a face-down card that became a column's top up, for 5 points. */
  function RevealTop(g: Game, t: int, column: seq<Card>): (r: Game)
    requires Shaped(g) && 0 <= t < 7
    ensures Shaped(r) && |r.tableau[t]| == |column| && Faces(r.tableau[t]) == Faces(column)
    ensures |column| > 0 && !Last(column).faceUp ==> r.score == g.score + 5 && Last(r.tableau[t]).faceUp
    ensures !(|column| > 0 && !Last(column).faceUp) ==> r.score == g.score && r.tableau[t] == column
    ensures forall i :: 0 <= i < |column| - 1 ==> r.tableau[t][i] == column[i]
    ensures r == g.(tableau := g.tableau[t := r.tableau[t]], score := r.score)
  {
    if |column| > 0 && !Last(column).faceUp then
      g.(tableau := g.tableau[t := TurnTopUp(column)], score := g.score + 5)
    else g.(tableau := g.tableau[t := column])
  }

  /** The column left after `splice(index, 1)`: the card at the index taken out, or the column unchanged past its end. */
  function Spliced(column: seq<Card>, index: nat): (c: seq<Card>)
    ensures index < |column| ==> |c| == |column| - 1 && c[..index] == column[..index] && c[index..] == column[index + 1..]
    ensures index >= |column| ==> c == column
  {
    if index < |column| then column[..index] + column[index + 1..] else column
  }

  /** The column left after `splice(index)`: everything below the index. */
  function Cut(column: seq<Card>, index: nat): (c: seq<Card>)
    ensures index < |column| ==> |c| == index && column == c + column[index..]
    ensures index >= |column| ==> c == column
  {
    if index < |column| then column[..index] else column
  }

  /** The points for turning up a column's new top: 5 when it lies face down. */
  function RevealBonus(rest: seq<Card>): (n: nat)
    ensures n == 5 || n == 0
    ensures n == 5 <==> |rest| > 0 && !Last(rest).faceUp
  {
    if |rest| > 0 && !Last(rest).faceUp then 5 else 0
  }

  /**
   * Column `t` of `r` holds exactly the cards `rest` (same cards, same order),
   * its top face up, with the reveal's points added; nothing else differs.
   */
  predicate LeftBehind(g: Game, r: Game, t: int, rest: seq<Card>)
    requires 0 <= t < |g.tableau| && 0 <= t < |r.tableau|
  {
    && r == g.(tableau := g.tableau[t := r.tableau[t]], score := r.score)
    && |r.tableau[t]| == |rest| && Faces(r.tableau[t]) == Faces(rest)
    && (forall i :: 0 <= i < |rest| - 1 ==> r.tableau[t][i] == rest[i])
    && (|rest| > 0 ==> Last(r.tableau[t]).faceUp)
    && r.score == g.score + RevealBonus(rest)
  }

  /** `removeCardFromPile`: pop the waste or a foundation, or splice one card out of a column and reveal its new top. */
  function RemoveCardFromPile(g: Game, src: Source, index: nat): (r: Game)
    requires Shaped(g) && ValidSource(src)
    ensures Shaped(r) && r.stock == g.stock && r.moves == g.moves && r.undoStack == g.undoStack
    ensures src == WastePile ==> r == g.(waste := DropLast(g.waste))
    ensures src.FoundationPile? ==> r == g.(foundations := g.foundations[src.f := DropLast(g.foundations[src.f])])
    ensures src.TableauPile? ==> LeftBehind(g, r, src.t, Spliced(g.tableau[src.t], index))
  {
    match src
    case WastePile => g.(waste := DropLast(g.waste))
    case FoundationPile(f) => g.(foundations := g.foundations[f := DropLast(g.foundations[f])])
    case TableauPile(t) => RevealTop(g, t, Spliced(g.tableau[t], index))
  }

  /** `removeCardsFromPile`: cut a column at the index and reveal its new top; other piles as above. */
  function RemoveCardsFromPile(g: Game, src: Source, index: nat): (r: Game)
    requires Shaped(g) && ValidSource(src)
    ensures Shaped(r) && r.stock == g.stock && r.moves == g.moves && r.undoStack == g.undoStack
    ensures !src.TableauPile? ==> r == RemoveCardFromPile(g, src, index)
    ensures src.TableauPile? ==> LeftBehind(g, r, src.t, Cut(g.tableau[src.t], index))
  {
    match src
    case TableauPile(t) => RevealTop(g, t, Cut(g.tableau[t], index))
    case _ => RemoveCardFromPile(g, src, index)
  }

  /** The reveal points a single-card removal earns: only a column can reveal a card. */
  function SourceRevealBonus(g: Game, src: Source, index: nat): (n: nat)
    requires Shaped(g) && ValidSource(src)
    ensures n == RemoveCardFromPile(g, src, index).score - g.score
  {
    if src.TableauPile? then RevealBonus(Spliced(g.tableau[src.t], index)) else 0
  }

  /** `getCardsToMove`: one card from the waste or a foundation, the rest of the column from a tableau index. */
  function CardsToMove(g: Game, src: Source, index: nat): seq<Card>
    requires Shaped(g) && ValidSource(src)
  {
    match src
    case WastePile => if |g.waste| > 0 then [Last(g.waste)] else []
    case FoundationPile(f) => if index < |g.foundations[f]| then [g.foundations[f][index]] else []
    case TableauPile(t) => if index < |g.tableau[t]| then g.tableau[t][index..] else []
  }

  /** Whether `moveToFoundation` accepts the card under the difficulty rules. */
  predicate FoundationAllows(g: Game, src: Source, f: int, card: Card)
    requires Shaped(g) && 0 <= f < 4
  {
    && CanMoveToFoundation(g.foundations[f], card)
    && !((g.difficulty == Hard || g.difficulty == VeryHard) && src == WastePile)
    && !(g.difficulty == VeryHard && card.suit != Suits[f])
  }

  /**
   * `moveToFoundation`: check the rules, take the card off its pile, put it
   * on the foundation and add the difficulty's bonus.
   */
  function MoveToFoundation(g: Game, src: Source, index: nat, f: int): (res: (Game, bool))
    requires Shaped(g) && ValidSource(src) && 0 <= f < 4
    ensures res.1 <==> CardAt(g, src, index).Some? && FoundationAllows(g, src, f, CardAt(g, src, index).value)
    ensures !res.1 ==> res.0 == g
    ensures res.1 ==> Shaped(res.0) && |res.0.foundations[f]| > 0 && Last(res.0.foundations[f]) == CardAt(g, src, index).value
    ensures res.1 ==> res.0.score == g.score + FoundationBonus(g.difficulty) + SourceRevealBonus(g, src, index)
    ensures res.1 ==> var removed := RemoveCardFromPile(g, src, index);
      && res.0.stock == g.stock && res.0.waste == removed.waste && res.0.tableau == removed.tableau
      && res.0.foundations[f] == removed.foundations[f] + [CardAt(g, src, index).value]
      && (forall k :: 0 <= k < 4 && k != f ==> res.0.foundations[k] == removed.foundations[k])
  {
    match CardAt(g, src, index)
    case None => (g, false)
    case Some(card) =>
      if !FoundationAllows(g, src, f, card) then (g, false)
      else
        var removed := RemoveCardFromPile(g, src, index);
        (removed.(foundations := removed.foundations[f := removed.foundations[f] + [card]],
                  score := removed.score + FoundationBonus(g.difficulty)), true)
  }

  /**
   * `moveToTableau`: the run starting at the selected card must fit the
   * column; it leaves its pile and is appended to the column.
   */
  function MoveToTableau(g: Game, src: Source, index: nat, t: int): (res: (Game, bool))
    requires Shaped(g) && ValidSource(src) && 0 <= t < 7
    ensures res.1 <==> CardAt(g, src, index).Some? && CanMoveToTableau(g.tableau[t], CardsToMove(g, src, index)[0])
    ensures !res.1 ==> res.0 == g
    ensures res.1 ==> (Shaped(res.0) && |res.0.tableau[t]| >= |CardsToMove(g, src, index)|
      && res.0.tableau[t][|res.0.tableau[t]| - |CardsToMove(g, src, index)|..] == CardsToMove(g, src, index))
    ensures res.1 ==> res.0.score == g.score + (if src.TableauPile? then RevealBonus(Cut(g.tableau[src.t], index)) else 0)
    ensures res.1 ==> var removed := RemoveCardsFromPile(g, src, index);
      && res.0.score == removed.score && res.0.stock == g.stock && res.0.waste == removed.waste
      && res.0.foundations == removed.foundations
      && res.0.tableau[t] == removed.tableau[t] + CardsToMove(g, src, index)
      && (forall k :: 0 <= k < 7 && k != t ==> res.0.tableau[k] == removed.tableau[k])
  {
    if CardAt(g, src, index).None? then (g, false)
    else
      var cards := CardsToMove(g, src, index);
      if !CanMoveToTableau(g.tableau[t], cards[0]) then (g, false)
      else
        var removed := RemoveCardsFromPile(g, src, index);
        var column := removed.tableau[t] + cards;
        assert column[|column| - |cards|..] == cards;
        (removed.(tableau := removed.tableau[t := column]), true)
  }

  /** `tryMove`: no card, no move; otherwise the foundation or column move by the target's kind. */
  function TryMove(g: Game, src: Source, index: nat, dst: Target): (res: (Game, bool))
    requires Shaped(g) && ValidSource(src) && ValidTarget(dst)
    ensures CardAt(g, src, index).None? ==> res == (g, false)
    ensures !res.1 ==> res.0 == g
    ensures res.1 && dst.ToFoundation? ==> res == MoveToFoundation(g, src, index, dst.f)
    ensures res.1 && dst.ToTableau? ==> res == MoveToTableau(g, src, index, dst.t)
  {
    if CardAt(g, src, index).None? then (g, false)
    else
      match dst
      case ToFoundation(f) => MoveToFoundation(g, src, index, f)
      case ToTableau(t) => MoveToTableau(g, src, index, t)
  }

  lemma WasteSwap(g: Game, w: seq<Card>, a: multiset<Face>, b: multiset<Face>)
    requires Faces(w) + a == Faces(g.waste) + b
    ensures TotalFaces(g.(waste := w)) + a == TotalFaces(g) + b
  {
    var g' := g.(waste := w);
    forall o ensures (TotalFaces(g') + a)[o] == (TotalFaces(g) + b)[o] {
      assert (Faces(w) + a)[o] == (Faces(g.waste) + b)[o];
    }
  }

  lemma FoundationSwap(g: Game, f: int, p: seq<Card>, a: multiset<Face>, b: multiset<Face>)
    requires 0 <= f < |g.foundations| && Faces(p) + a == Faces(g.foundations[f]) + b
    ensures TotalFaces(g.(foundations := g.foundations[f := p])) + a == TotalFaces(g) + b
  {
    var g' := g.(foundations := g.foundations[f := p]);
    PilesUpdate(g.foundations, f, p);
    forall o ensures (TotalFaces(g') + a)[o] == (TotalFaces(g) + b)[o] {
      assert (Faces(p) + a)[o] == (Faces(g.foundations[f]) + b)[o];
      assert (PilesFaces(g'.foundations) + Faces(g.foundations[f]))[o] == (PilesFaces(g.foundations) + Faces(p))[o];
    }
  }

  lemma TableauSwap(g: Game, r: Game, t: int, a: multiset<Face>, b: multiset<Face>)
    requires 0 <= t < |g.tableau| == |r.tableau| && r == g.(tableau := g.tableau[t := r.tableau[t]], score := r.score)
    requires Faces(r.tableau[t]) + a == Faces(g.tableau[t]) + b
    ensures TotalFaces(r) + a == TotalFaces(g) + b
  {
    PilesUpdate(g.tableau, t, r.tableau[t]);
    forall o ensures (TotalFaces(r) + a)[o] == (TotalFaces(g) + b)[o] {
      assert (Faces(r.tableau[t]) + a)[o] == (Faces(g.tableau[t]) + b)[o];
      assert (PilesFaces(r.tableau) + Faces(g.tableau[t]))[o] == (PilesFaces(g.tableau) + Faces(r.tableau[t]))[o];
    }
  }

  lemma DropLastFaces(s: seq<Card>)
    requires |s| > 0
    ensures Faces(DropLast(s)) + multiset{Last(s).Id()} == Faces(s)
  {
    RemoveAtFaces(s, |s| - 1);
    assert s[..|s| - 1] + s[|s|..] == DropLast(s);
  }

  lemma RemoveCardFaces(g: Game, src: Source, index: nat)
    requires Shaped(g) && ValidSource(src) && CanSelect(g, src, index)
    ensures TotalFaces(RemoveCardFromPile(g, src, index)) + multiset{CardAt(g, src, index).value.Id()} == TotalFaces(g)
  {
    var r := RemoveCardFromPile(g, src, index);
    var x := multiset{CardAt(g, src, index).value.Id()};
    match src
    case WastePile =>
      DropLastFaces(g.waste);
      WasteSwap(g, DropLast(g.waste), x, multiset{});
    case FoundationPile(f) =>
      DropLastFaces(g.foundations[f]);
      FoundationSwap(g, f, DropLast(g.foundations[f]), x, multiset{});
    case TableauPile(t) =>
      RemoveAtFaces(g.tableau[t], index);
      TableauSwap(g, r, t, x, multiset{});
  }

  lemma SingletonFaces(c: Card)
    ensures Faces([c]) == multiset{c.Id()}
  {
    assert Ids([c]) == [c.Id()];
  }

  /** A move to a foundation, from any card a player can select, neither creates nor loses a card. */
  lemma MoveToFoundationKeepsCards(g: Game, src: Source, index: nat, f: int)
    requires Shaped(g) && ValidSource(src) && 0 <= f < 4 && CanSelect(g, src, index)
    ensures TotalFaces(MoveToFoundation(g, src, index, f).0) == TotalFaces(g)
  {
    var res := MoveToFoundation(g, src, index, f);
    if res.1 {
      var card := CardAt(g, src, index).value;
      var x := multiset{card.Id()};
      RemoveCardFaces(g, src, index);
      var removed := RemoveCardFromPile(g, src, index);
      FacesAppend(removed.foundations[f], [card]);
      SingletonFaces(card);
      FoundationSwap(removed, f, removed.foundations[f] + [card], multiset{}, x);
      assert res.0 == removed.(foundations := removed.foundations[f := removed.foundations[f] + [card]],
                               score := res.0.score);
    }
  }

  lemma RemoveCardsFaces(g: Game, src: Source, index: nat)
    requires Shaped(g) && ValidSource(src) && CanSelect(g, src, index)
    ensures TotalFaces(RemoveCardsFromPile(g, src, index)) + Faces(CardsToMove(g, src, index)) == TotalFaces(g)
  {
    match src
    case TableauPile(t) =>
      SplitFaces(g.tableau[t], index);
      TableauSwap(g, RemoveCardsFromPile(g, src, index), t, Faces(CardsToMove(g, src, index)), multiset{});
    case _ =>
      RemoveCardFaces(g, src, index);
      SingletonFaces(CardAt(g, src, index).value);
  }

  /** A move to a column, from any card a player can select, neither creates nor loses a card. */
  lemma MoveToTableauKeepsCards(g: Game, src: Source, index: nat, t: int)
    requires Shaped(g) && ValidSource(src) && 0 <= t < 7 && CanSelect(g, src, index)
    ensures TotalFaces(MoveToTableau(g, src, index, t).0) == TotalFaces(g)
  {
    var res := MoveToTableau(g, src, index, t);
    if res.1 {
      var cards := CardsToMove(g, src, index);
      RemoveCardsFaces(g, src, index);
      var removed := RemoveCardsFromPile(g, src, index);
      FacesAppend(removed.tableau[t], cards);
      TableauSwap(removed, res.0, t, multiset{}, Faces(cards));
    }
  }

  // ------------------------------------------------------------------- win

  /** `checkWin`: all 52 cards on the foundations wins, with a 1000 point bonus. */
  function CheckWin(g: Game): (r: Game)
    ensures TotalSize(g.foundations) == 52 ==> r.won && r.score == g.score + 1000
    ensures TotalSize(g.foundations) != 52 ==> r == g
    ensures r == g.(won := r.won, score := r.score)
  {
    if TotalSize(g.foundations) == 52 then g.(won := true, score := g.score + 1000) else g
  }

  /** In a game holding the 52 distinct cards, the win check fires exactly when stock, waste and tableau are empty. */
  lemma WinMeansEverythingHome(g: Game)
    requires |TotalFaces(g)| == 52
    ensures TotalSize(g.foundations) == 52 <==> |g.stock| + |g.waste| + TotalSize(g.tableau) == 0
  {
    PilesSize(g.foundations);
    PilesSize(g.tableau);
    FacesOfMultiset(g.stock);
    FacesOfMultiset(g.waste);
  }

  // -------------------------------------------------------------- finding

  /**
   * The move to a foundation as intended by Klondike rules: from a column
   * only its top card may go up. The waste and foundation sources already
   * use their top card.
   */
  function MoveToFoundationTopOnly(g: Game, src: Source, index: nat, f: int): (res: (Game, bool))
    requires Shaped(g) && ValidSource(src) && 0 <= f < 4
    ensures res.1 && src.TableauPile? ==> index == |g.tableau[src.t]| - 1
    ensures res.1 ==> res == MoveToFoundation(g, src, index, f)
  {
    if src.TableauPile? && index != |g.tableau[src.t]| - 1 then (g, false)
    else MoveToFoundation(g, src, index, f)
  }

  /** `tryMove` under the intended rule: a foundation takes only a column's top card. */
  function TryMoveTopOnly(g: Game, src: Source, index: nat, dst: Target): (res: (Game, bool))
    requires Shaped(g) && ValidSource(src) && ValidTarget(dst)
    ensures !res.1 ==> res.0 == g
    ensures res.1 ==> res == TryMove(g, src, index, dst)
    ensures res.1 && dst.ToFoundation? && src.TableauPile? ==> index == |g.tableau[src.t]| - 1
    ensures dst.ToTableau? || !src.TableauPile? ==> res == TryMove(g, src, index, dst)
  {
    if CardAt(g, src, index).None? then (g, false)
    else
      match dst
      case ToFoundation(f) => MoveToFoundationTopOnly(g, src, index, f)
      case ToTableau(t) => MoveToTableau(g, src, index, t)
  }

  /** Under the intended rule a successful move from a column removes exactly its top card and keeps every card. */
  lemma TopOnlyTakesTheTop(g: Game, t: int, index: nat, f: int)
    requires Shaped(g) && 0 <= t < 7 && 0 <= f < 4 && CanSelect(g, TableauPile(t), index)
    requires MoveToFoundationTopOnly(g, TableauPile(t), index, f).1
    ensures var r := MoveToFoundationTopOnly(g, TableauPile(t), index, f).0;
      && |r.tableau[t]| == |g.tableau[t]| - 1
      && (forall i :: 0 <= i < |r.tableau[t]| - 1 ==> r.tableau[t][i] == g.tableau[t][i])
      && TotalFaces(r) == TotalFaces(g)
  {
    MoveToFoundationKeepsCards(g, TableauPile(t), index, f);
    var column := g.tableau[t];
    assert column[..index] + column[index + 1..] == column[..index];
  }

  /**
   * As written, any face-up column card can go to a foundation: a 2 of
   * spades with an ace of hearts on it goes up and leaves the ace behind.
   */
  lemma BuriedCardReachesFoundation()
    ensures var column := [Card(Spades, 2, true), Card(Hearts, 1, true)];
      var g := Game([], [], [[Card(Spades, 1, true)], [], [], []], [column, [], [], [], [], [], []],
                    0, 0, false, Normal, [], 5);
      var r := MoveToFoundation(g, TableauPile(0), 0, 0);
      && CanSelect(g, TableauPile(0), 0)
      && r.1
      && r.0.foundations[0] == [Card(Spades, 1, true), Card(Spades, 2, true)]
      && r.0.tableau[0] == [Card(Hearts, 1, true)]
      && !MoveToFoundationTopOnly(g, TableauPile(0), 0, 0).1
      && TryMove(g, TableauPile(0), 0, ToFoundation(0)) == r
      && !TryMoveTopOnly(g, TableauPile(0), 0, ToFoundation(0)).1
  {
    var column := [Card(Spades, 2, true), Card(Hearts, 1, true)];
    assert column[..0] + column[1..] == [Card(Hearts, 1, true)];
  }
}
