/**
 * The 2048 engine of public/assets/js/2048.js: the line merge, the four
 * slides, tile spawning, game-over detection and the one-step undo. The
 * random cell and the 2-or-4 draw of `addRandomTile` are parameters.
 */
module Game2048 {
  import opened Util

  // ------------------------------------------------------------- line merge

  function Max(a: nat, b: nat): nat {
    if a >= b then a else b
  }

  function Sum(s: seq<nat>): nat {
    if |s| == 0 then 0 else s[0] + Sum(s[1..])
  }

  predicate AllNonzero(s: seq<nat>) {
    forall i :: 0 <= i < |s| ==> s[i] != 0
  }

  /** Every empty slot comes after every tile. */
  predicate Packed(s: seq<nat>) {
    forall i, j :: 0 <= i < j < |s| && s[i] == 0 ==> s[j] == 0
  }

  predicate NoAdjacentEqual(s: seq<nat>) {
    forall i :: 0 <= i < |s| - 1 ==> s[i] != s[i + 1]
  }

  /** `line.filter(val => val !== 0)`. */
  function Compact(line: seq<nat>): (r: seq<nat>)
    ensures AllNonzero(r)
    ensures |r| <= |line|
  {
    if |line| == 0 then []
    else if line[0] == 0 then Compact(line[1..])
    else [line[0]] + Compact(line[1..])
  }

  /**
   * The merge pass over the compacted tiles: equal neighbours fuse left to
   * right and a fused tile takes no part in a second fusion.
   */
  function Pairwise(f: seq<nat>): seq<nat> {
    if |f| < 2 then f
    else if f[0] == f[1] then [2 * f[0]] + Pairwise(f[2..])
    else [f[0]] + Pairwise(f[1..])
  }

  /** The score the merge pass earns: the sum of the fused values. */
  function PairGain(f: seq<nat>): nat {
    if |f| < 2 then 0
    else if f[0] == f[1] then 2 * f[0] + PairGain(f[2..])
    else PairGain(f[1..])
  }

  /** The largest fused value, 0 when nothing fuses. */
  function PairMax(f: seq<nat>): nat {
    if |f| < 2 then 0
    else if f[0] == f[1] then Max(2 * f[0], PairMax(f[2..]))
    else PairMax(f[1..])
  }

  function Zeros(n: nat): (r: seq<nat>)
    ensures |r| == n && forall i :: 0 <= i < n ==> r[i] == 0
  {
    if n == 0 then [] else [0] + Zeros(n - 1)
  }

  /** The outcome of merging one line, or sliding the whole board. */
  datatype Merge = Merge(line: seq<nat>, gained: nat, highest: nat)

  /**
   * `mergeLine`: compact, merge, pad back to four. `highest` is the
   * `highestTile` before the call.
   */
  function MergeLine(line: seq<nat>, highest: nat): (r: Merge)
    requires |line| == 4
    ensures |r.line| == 4
    ensures Packed(r.line)
    ensures Sum(r.line) == Sum(line)
    ensures r.highest >= highest
  {
    var f := Compact(line);
    var p := Pairwise(f);
    PairwiseShape(f);
    PairwiseSum(f);
    CompactSum(line);
    SumAppend(p, Zeros(4 - |p|));
    SumZeros(4 - |p|);
    Merge(p + Zeros(4 - |p|), PairGain(f), Max(highest, PairMax(f)))
  }

  /**
   * The source's loop, splice and all: walk the compacted tiles, double a
   * tile equal to its right neighbour, add it to the score, raise the
   * highest tile, and delete the neighbour. It computes what `MergeLine`
   * says.
   */
  method MergeLineLoop(line: seq<nat>, score: nat, highest: nat) returns (r: seq<nat>, score': nat, highest': nat)
    requires |line| == 4
    ensures r == MergeLine(line, highest).line
    ensures score' == score + MergeLine(line, highest).gained
    ensures highest' == MergeLine(line, highest).highest
  {
    var filtered;
    filtered, score', highest' := MergePass(Compact(line), score, highest);
    PairwiseShape(Compact(line));
    r := PadLine(filtered);
  }

  /** The fusing loop of `mergeLine`, splicing out each absorbed neighbour. */
  method MergePass(f0: seq<nat>, score: nat, highest: nat) returns (filtered: seq<nat>, score': nat, highest': nat)
    ensures filtered == Pairwise(f0)
    ensures score' == score + PairGain(f0)
    ensures highest' == Max(highest, PairMax(f0))
  {
    filtered := f0;
    score', highest' := score, highest;
    var i := 0;
    ghost var done: seq<nat> := [];
    ghost var rest := f0;
    while i < |filtered| - 1
      invariant filtered == done + rest && |done| == i
      invariant Pairwise(f0) == done + Pairwise(rest)
      invariant score' + PairGain(rest) == score + PairGain(f0)
      invariant Max(highest', PairMax(rest)) == Max(highest, PairMax(f0))
      decreases |filtered| - i
    {
      if filtered[i] == filtered[i + 1] {
        var doubled := 2 * filtered[i];
        SpliceMerge(done, rest, doubled);
        filtered := filtered[..i] + [doubled] + filtered[i + 2..];
        score' := score' + doubled;
        highest' := Max(highest', doubled);
        done, rest := done + [doubled], rest[2..];
      } else {
        SpliceKeep(done, rest);
        done, rest := done + [rest[0]], rest[1..];
      }
      i := i + 1;
    }
    assert Pairwise(rest) == rest;
    assert PairGain(rest) == 0 && PairMax(rest) == 0;
  }

  /** The padding loop of `mergeLine`: append zeros up to four cells. */
  method PadLine(p: seq<nat>) returns (r: seq<nat>)
    requires |p| <= 4
    ensures r == p + Zeros(4 - |p|)
  {
    r := p;
    while |r| < 4
      invariant |p| <= |r| <= 4
      invariant r == p + Zeros(|r| - |p|)
      decreases 4 - |r|
    {
      ZerosSnoc(|r| - |p|);
      r := r + [0];
    }
  }

  /** One fusing step of the loop: the splice matches the recursive definition. */
  lemma SpliceMerge(done: seq<nat>, rest: seq<nat>, doubled: nat)
    requires |rest| >= 2 && rest[0] == rest[1] && doubled == 2 * rest[0]
    ensures var filtered := done + rest; var i := |done|;
      filtered[..i] + [doubled] + filtered[i + 2..] == (done + [doubled]) + rest[2..]
    ensures done + Pairwise(rest) == (done + [doubled]) + Pairwise(rest[2..])
    ensures PairGain(rest) == doubled + PairGain(rest[2..])
    ensures PairMax(rest) == Max(doubled, PairMax(rest[2..]))
  {
    var filtered := done + rest;
    var i := |done|;
    assert filtered[..i] == done;
    assert filtered[i + 2..] == rest[2..];
  }

  /** One non-fusing step of the loop. */
  lemma SpliceKeep(done: seq<nat>, rest: seq<nat>)
    requires |rest| >= 2 && rest[0] != rest[1]
    ensures done + rest == (done + [rest[0]]) + rest[1..]
    ensures done + Pairwise(rest) == (done + [rest[0]]) + Pairwise(rest[1..])
    ensures PairGain(rest) == PairGain(rest[1..])
    ensures PairMax(rest) == PairMax(rest[1..])
  {
    assert rest == [rest[0]] + rest[1..];
  }

  lemma ZerosSnoc(n: nat)
    ensures Zeros(n) + [0] == Zeros(n + 1)
  {
    assert forall i :: 0 <= i < n + 1 ==> (Zeros(n) + [0])[i] == 0;
  }

  lemma {:induction false} SumAppend(a: seq<nat>, b: seq<nat>)
    ensures Sum(a + b) == Sum(a) + Sum(b)
  {
    if |a| > 0 {
      SumAppend(a[1..], b);
      assert (a + b)[1..] == a[1..] + b;
    } else {
      assert a + b == b;
    }
  }

  lemma {:induction false} SumZeros(n: nat)
    ensures Sum(Zeros(n)) == 0
  {
    if n > 0 {
      SumZeros(n - 1);
      assert Zeros(n)[1..] == Zeros(n - 1);
    }
  }

  lemma {:induction false} CompactSum(line: seq<nat>)
    ensures Sum(Compact(line)) == Sum(line)
  {
    if |line| > 0 {
      CompactSum(line[1..]);
    }
  }

  /** Merging conserves the tile total. */
  lemma {:induction false} PairwiseSum(f: seq<nat>)
    ensures Sum(Pairwise(f)) == Sum(f)
  {
    if |f| >= 2 {
      if f[0] == f[1] {
        PairwiseSum(f[2..]);
        assert f[1..][1..] == f[2..];
      } else {
        PairwiseSum(f[1..]);
      }
    }
  }

  /** Merging never lengthens, keeps tiles non-zero, and is the identity exactly when it keeps the length. */
  lemma {:induction false} PairwiseShape(f: seq<nat>)
    ensures |Pairwise(f)| <= |f|
    ensures AllNonzero(f) ==> AllNonzero(Pairwise(f))
    ensures |Pairwise(f)| == |f| ==> Pairwise(f) == f
  {
    if |f| >= 2 {
      if f[0] == f[1] {
        PairwiseShape(f[2..]);
        if AllNonzero(f) {
          assert AllNonzero(f[2..]) by {
            forall i | 0 <= i < |f[2..]| ensures f[2..][i] != 0 { assert f[2..][i] == f[i + 2]; }
          }
        }
      } else {
        PairwiseShape(f[1..]);
        if AllNonzero(f) {
          assert AllNonzero(f[1..]) by {
            forall i | 0 <= i < |f[1..]| ensures f[1..][i] != 0 { assert f[1..][i] == f[i + 1]; }
          }
        }
        if |Pairwise(f)| == |f| {
          assert f == [f[0]] + f[1..];
        }
      }
    }
  }

  /**
   * On non-zero tiles the merge pass leaves the line alone exactly when no
   * two neighbours are equal, and then it earns nothing and fuses nothing.
   */
  lemma {:induction false} PairwiseIdentity(f: seq<nat>)
    requires AllNonzero(f)
    ensures Pairwise(f) == f <==> NoAdjacentEqual(f)
    ensures NoAdjacentEqual(f) <==> PairGain(f) == 0
    ensures NoAdjacentEqual(f) ==> PairMax(f) == 0
  {
    if |f| >= 2 {
      var t := f[1..];
      assert AllNonzero(t) by {
        forall i | 0 <= i < |t| ensures t[i] != 0 { assert t[i] == f[i + 1]; }
      }
      if f[0] == f[1] {
        PairwiseShape(f[2..]);
        assert !NoAdjacentEqual(f) by { assert f[0] == f[1]; }
      } else {
        PairwiseIdentity(t);
        assert NoAdjacentEqual(f) <==> NoAdjacentEqual(t) by {
          if NoAdjacentEqual(t) {
            forall i | 0 <= i < |f| - 1 ensures f[i] != f[i + 1] {
              if i > 0 { assert f[i] == t[i - 1] && f[i + 1] == t[i]; }
            }
          }
          if NoAdjacentEqual(f) {
            forall i | 0 <= i < |t| - 1 ensures t[i] != t[i + 1] {
              assert t[i] == f[i + 1] && t[i + 1] == f[i + 2];
            }
          }
        }
        assert Pairwise(f) == [f[0]] + Pairwise(t);
        assert f == [f[0]] + t;
      }
    }
  }

  lemma {:induction false} CompactOfNonzero(s: seq<nat>)
    requires AllNonzero(s)
    ensures Compact(s) == s
  {
    if |s| > 0 {
      assert AllNonzero(s[1..]) by {
        forall i | 0 <= i < |s[1..]| ensures s[1..][i] != 0 { assert s[1..][i] == s[i + 1]; }
      }
      CompactOfNonzero(s[1..]);
      assert s == [s[0]] + s[1..];
    }
  }

  lemma {:induction false} CompactKeepsLength(s: seq<nat>)
    requires |Compact(s)| == |s|
    ensures AllNonzero(s) && Compact(s) == s
  {
    if |s| > 0 {
      if s[0] == 0 {
        assert false;
      } else {
        CompactKeepsLength(s[1..]);
        assert s == [s[0]] + s[1..];
      }
    }
  }

  lemma {:induction false} CompactAppend(a: seq<nat>, b: seq<nat>)
    ensures Compact(a + b) == Compact(a) + Compact(b)
  {
    if |a| > 0 {
      CompactAppend(a[1..], b);
      assert (a + b)[1..] == a[1..] + b;
    } else {
      assert a + b == b;
    }
  }

  lemma {:induction false} CompactZeros(n: nat)
    ensures Compact(Zeros(n)) == []
  {
    if n > 0 {
      CompactZeros(n - 1);
      assert Zeros(n)[1..] == Zeros(n - 1);
    }
  }

  /**
   * A line the merge changes ends with a free slot (so a tile can spawn),
   * and a line it leaves alone earns no score and raises no tile.
   */
  lemma MergeLineChange(line: seq<nat>, highest: nat)
    requires |line| == 4
    ensures var m := MergeLine(line, highest);
      && (m.line != line ==> m.line[3] == 0)
      && (m.line == line ==> m.gained == 0 && m.highest == highest)
  {
    var f := Compact(line);
    var p := Pairwise(f);
    var m := MergeLine(line, highest);
    PairwiseShape(f);
    if |p| == 4 {
      CompactKeepsLength(line);
      assert m.line == p;
    }
    if m.line == line {
      CompactAppend(p, Zeros(4 - |p|));
      CompactZeros(4 - |p|);
      PairwiseShape(f);
      CompactOfNonzero(p);
      assert Compact(line) == p;
      PairwiseIdentity(f);
    }
  }

  // ----------------------------------------------------------------- board

  type Grid = b: seq<seq<nat>> | |b| == 4 && forall r :: 0 <= r < |b| ==> |b[r]| == 4
    witness [[0, 0, 0, 0], [0, 0, 0, 0], [0, 0, 0, 0], [0, 0, 0, 0]]

  const EmptyGrid: Grid := [[0, 0, 0, 0], [0, 0, 0, 0], [0, 0, 0, 0], [0, 0, 0, 0]]

  function SumGrid(b: Grid): nat {
    Sum(b[0]) + Sum(b[1]) + Sum(b[2]) + Sum(b[3])
  }

  function Column(b: Grid, c: int): (col: seq<nat>)
    requires 0 <= c < 4
    ensures |col| == 4 && forall r :: 0 <= r < 4 ==> col[r] == b[r][c]
  {
    [b[0][c], b[1][c], b[2][c], b[3][c]]
  }

  function Reverse(s: seq<nat>): (r: seq<nat>)
    ensures |r| == |s| && forall i :: 0 <= i < |s| ==> r[i] == s[|s| - 1 - i]
  {
    if |s| == 0 then [] else Reverse(s[1..]) + [s[0]]
  }

  /** The grid whose columns are the four given lines. */
  function FromColumns(c0: seq<nat>, c1: seq<nat>, c2: seq<nat>, c3: seq<nat>): (b: Grid)
    requires |c0| == 4 && |c1| == 4 && |c2| == 4 && |c3| == 4
    ensures Column(b, 0) == c0 && Column(b, 1) == c1 && Column(b, 2) == c2 && Column(b, 3) == c3
  {
    [[c0[0], c1[0], c2[0], c3[0]],
     [c0[1], c1[1], c2[1], c3[1]],
     [c0[2], c1[2], c2[2], c3[2]],
     [c0[3], c1[3], c2[3], c3[3]]]
  }

  function Transpose(b: Grid): (t: Grid)
    ensures forall r, c :: 0 <= r < 4 && 0 <= c < 4 ==> t[r][c] == b[c][r]
  {
    [Column(b, 0), Column(b, 1), Column(b, 2), Column(b, 3)]
  }

  /** Every row reversed. */
  function Mirror(b: Grid): (m: Grid)
    ensures forall r, c :: 0 <= r < 4 && 0 <= c < 4 ==> m[r][c] == b[r][3 - c]
  {
    [Reverse(b[0]), Reverse(b[1]), Reverse(b[2]), Reverse(b[3])]
  }

  /** A board-wide slide: the new board, the score earned and the new highest tile. */
  datatype Slide = Slide(board: Grid, gained: nat, highest: nat)

  /** `moveLeft`: merge each row, top to bottom. */
  function MoveLeft(b: Grid, h: nat): (r: Slide)
    ensures SumGrid(r.board) == SumGrid(b)
    ensures forall i :: 0 <= i < 4 ==> Packed(r.board[i])
  {
    var m0 := MergeLine(b[0], h);
    var m1 := MergeLine(b[1], m0.highest);
    var m2 := MergeLine(b[2], m1.highest);
    var m3 := MergeLine(b[3], m2.highest);
    Slide([m0.line, m1.line, m2.line, m3.line], m0.gained + m1.gained + m2.gained + m3.gained, m3.highest)
  }

  /** `moveRight`: reverse each row, merge it, reverse it back. */
  function MoveRight(b: Grid, h: nat): (r: Slide)
  {
    var m0 := MergeLine(Reverse(b[0]), h);
    var m1 := MergeLine(Reverse(b[1]), m0.highest);
    var m2 := MergeLine(Reverse(b[2]), m1.highest);
    var m3 := MergeLine(Reverse(b[3]), m2.highest);
    Slide([Reverse(m0.line), Reverse(m1.line), Reverse(m2.line), Reverse(m3.line)],
          m0.gained + m1.gained + m2.gained + m3.gained, m3.highest)
  }

  /** `moveUp`: merge each column read top-down and write it back. */
  function MoveUp(b: Grid, h: nat): (r: Slide)
  {
    var m0 := MergeLine(Column(b, 0), h);
    var m1 := MergeLine(Column(b, 1), m0.highest);
    var m2 := MergeLine(Column(b, 2), m1.highest);
    var m3 := MergeLine(Column(b, 3), m2.highest);
    Slide(FromColumns(m0.line, m1.line, m2.line, m3.line), m0.gained + m1.gained + m2.gained + m3.gained, m3.highest)
  }

  /** `moveDown`: reverse each column, merge it, reverse it back. */
  function MoveDown(b: Grid, h: nat): (r: Slide)
  {
    var m0 := MergeLine(Reverse(Column(b, 0)), h);
    var m1 := MergeLine(Reverse(Column(b, 1)), m0.highest);
    var m2 := MergeLine(Reverse(Column(b, 2)), m1.highest);
    var m3 := MergeLine(Reverse(Column(b, 3)), m2.highest);
    Slide(FromColumns(Reverse(m0.line), Reverse(m1.line), Reverse(m2.line), Reverse(m3.line)),
          m0.gained + m1.gained + m2.gained + m3.gained, m3.highest)
  }

  /** A right slide is a left slide of the mirrored board, mirrored back. */
  lemma RightIsMirroredLeft(b: Grid, h: nat)
    ensures MoveRight(b, h) == MoveLeft(Mirror(b), h).(board := Mirror(MoveLeft(Mirror(b), h).board))
  {
    var mb := Mirror(b);
    assert mb[0] == Reverse(b[0]) && mb[1] == Reverse(b[1]) && mb[2] == Reverse(b[2]) && mb[3] == Reverse(b[3]);
    var l := MoveLeft(mb, h).board;
    assert Mirror(l) == MoveRight(b, h).board;
  }

  /** An up slide is a left slide of the transposed board, transposed back. */
  lemma UpIsTransposedLeft(b: Grid, h: nat)
    ensures MoveUp(b, h) == MoveLeft(Transpose(b), h).(board := Transpose(MoveLeft(Transpose(b), h).board))
  {
    var tb := Transpose(b);
    assert tb[0] == Column(b, 0) && tb[1] == Column(b, 1) && tb[2] == Column(b, 2) && tb[3] == Column(b, 3);
    var m0 := MergeLine(Column(b, 0), h);
    var m1 := MergeLine(Column(b, 1), m0.highest);
    var m2 := MergeLine(Column(b, 2), m1.highest);
    var m3 := MergeLine(Column(b, 3), m2.highest);
    assert MoveLeft(tb, h).board == [m0.line, m1.line, m2.line, m3.line];
    TransposeOfRows(m0.line, m1.line, m2.line, m3.line);
  }

  /** Transposing a board given by its rows gives the board with those rows as columns. */
  lemma TransposeOfRows(c0: seq<nat>, c1: seq<nat>, c2: seq<nat>, c3: seq<nat>)
    requires |c0| == 4 && |c1| == 4 && |c2| == 4 && |c3| == 4
    ensures Transpose([c0, c1, c2, c3]) == FromColumns(c0, c1, c2, c3)
  {
  }

  /** A down slide is a right slide of the transposed board, transposed back. */
  lemma DownIsTransposedRight(b: Grid, h: nat)
    ensures MoveDown(b, h) == MoveRight(Transpose(b), h).(board := Transpose(MoveRight(Transpose(b), h).board))
  {
    var tb := Transpose(b);
    assert tb[0] == Column(b, 0) && tb[1] == Column(b, 1) && tb[2] == Column(b, 2) && tb[3] == Column(b, 3);
    var m0 := MergeLine(Reverse(Column(b, 0)), h);
    var m1 := MergeLine(Reverse(Column(b, 1)), m0.highest);
    var m2 := MergeLine(Reverse(Column(b, 2)), m1.highest);
    var m3 := MergeLine(Reverse(Column(b, 3)), m2.highest);
    assert MoveRight(tb, h).board == [Reverse(m0.line), Reverse(m1.line), Reverse(m2.line), Reverse(m3.line)];
    TransposeOfRows(Reverse(m0.line), Reverse(m1.line), Reverse(m2.line), Reverse(m3.line));
  }

  lemma {:induction false} SumReverse(s: seq<nat>)
    ensures Sum(Reverse(s)) == Sum(s)
  {
    if |s| > 0 {
      SumReverse(s[1..]);
      SumAppend(Reverse(s[1..]), [s[0]]);
    }
  }

  lemma Sum4(s: seq<nat>)
    requires |s| == 4
    ensures Sum(s) == s[0] + s[1] + s[2] + s[3]
  {
    var t := s[1..];
    var u := t[1..];
    var w := u[1..];
    assert Sum(w[1..]) == 0;
    assert Sum(w) == s[3];
    assert Sum(u) == s[2] + s[3];
    assert Sum(t) == s[1] + s[2] + s[3];
  }

  lemma SumGridCells(b: Grid)
    ensures SumGrid(b) == b[0][0] + b[0][1] + b[0][2] + b[0][3] + b[1][0] + b[1][1] + b[1][2] + b[1][3]
      + b[2][0] + b[2][1] + b[2][2] + b[2][3] + b[3][0] + b[3][1] + b[3][2] + b[3][3]
  {
    Sum4(b[0]); Sum4(b[1]); Sum4(b[2]); Sum4(b[3]);
  }

  lemma TransposeMirrorSum(b: Grid)
    ensures SumGrid(Transpose(b)) == SumGrid(b)
    ensures SumGrid(Mirror(b)) == SumGrid(b)
  {
    SumGridCells(b);
    SumGridCells(Transpose(b));
    SumGridCells(Mirror(b));
  }

  /** The direction pressed: arrow keys, WASD or a swipe. */
  datatype Direction = Up | Down | Left | Right

  function SlideIn(b: Grid, d: Direction, h: nat): Slide {
    match d
    case Up => MoveUp(b, h)
    case Down => MoveDown(b, h)
    case Left => MoveLeft(b, h)
    case Right => MoveRight(b, h)
  }

  lemma RightConservesSum(b: Grid, h: nat)
    ensures SumGrid(MoveRight(b, h).board) == SumGrid(b)
  {
    RightIsMirroredLeft(b, h);
    TransposeMirrorSum(b);
    TransposeMirrorSum(MoveLeft(Mirror(b), h).board);
  }

  /** Every slide conserves the total of the tile values. */
  lemma SlideConservesSum(b: Grid, d: Direction, h: nat)
    ensures SumGrid(SlideIn(b, d, h).board) == SumGrid(b)
  {
    match d
    case Left =>
    case Right => RightConservesSum(b, h);
    case Up =>
      UpIsTransposedLeft(b, h);
      TransposeMirrorSum(b);
      TransposeMirrorSum(MoveLeft(Transpose(b), h).board);
    case Down =>
      DownIsTransposedRight(b, h);
      TransposeMirrorSum(b);
      RightConservesSum(Transpose(b), h);
      TransposeMirrorSum(MoveRight(Transpose(b), h).board);
  }

  predicate HasZero(b: Grid) {
    exists r, c :: 0 <= r < 4 && 0 <= c < 4 && b[r][c] == 0
  }

  /** A left slide that changes the board leaves a free cell, and one that changes nothing earns nothing. */
  lemma MoveLeftChange(b: Grid, h: nat)
    ensures var s := MoveLeft(b, h);
      && (s.board != b ==> HasZero(s.board))
      && (s.board == b ==> s.gained == 0 && s.highest == h)
  {
    var m0 := MergeLine(b[0], h);
    var m1 := MergeLine(b[1], m0.highest);
    var m2 := MergeLine(b[2], m1.highest);
    var m3 := MergeLine(b[3], m2.highest);
    var s := MoveLeft(b, h);
    assert s == Slide([m0.line, m1.line, m2.line, m3.line], m0.gained + m1.gained + m2.gained + m3.gained, m3.highest);
    LeftRowsChange(b, h, m0, m1, m2, m3, s);
  }

  lemma LeftRowsChange(b: Grid, h: nat, m0: Merge, m1: Merge, m2: Merge, m3: Merge, s: Slide)
    requires m0 == MergeLine(b[0], h) && m1 == MergeLine(b[1], m0.highest)
    requires m2 == MergeLine(b[2], m1.highest) && m3 == MergeLine(b[3], m2.highest)
    requires s == Slide([m0.line, m1.line, m2.line, m3.line], m0.gained + m1.gained + m2.gained + m3.gained, m3.highest)
    ensures s.board != b ==> HasZero(s.board)
    ensures s.board == b ==> s.gained == 0 && s.highest == h
  {
    MergeLineChange(b[0], h);
    MergeLineChange(b[1], m0.highest);
    MergeLineChange(b[2], m1.highest);
    MergeLineChange(b[3], m2.highest);
    StackChange(b, h, m0, m1, m2, m3, s);
  }

  /** The row-by-row facts of `MergeLineChange`, lifted to the four rows of a slide. */
  lemma StackChange(b: Grid, h: nat, m0: Merge, m1: Merge, m2: Merge, m3: Merge, s: Slide)
    requires |m0.line| == 4 && |m1.line| == 4 && |m2.line| == 4 && |m3.line| == 4
    requires s == Slide([m0.line, m1.line, m2.line, m3.line], m0.gained + m1.gained + m2.gained + m3.gained, m3.highest)
    requires (m0.line != b[0] ==> m0.line[3] == 0) && (m0.line == b[0] ==> m0.gained == 0 && m0.highest == h)
    requires (m1.line != b[1] ==> m1.line[3] == 0) && (m1.line == b[1] ==> m1.gained == 0 && m1.highest == m0.highest)
    requires (m2.line != b[2] ==> m2.line[3] == 0) && (m2.line == b[2] ==> m2.gained == 0 && m2.highest == m1.highest)
    requires (m3.line != b[3] ==> m3.line[3] == 0) && (m3.line == b[3] ==> m3.gained == 0 && m3.highest == m2.highest)
    ensures s.board != b ==> HasZero(s.board)
    ensures s.board == b ==> s.gained == 0 && s.highest == h
  {
    assert s.board[0] == m0.line && s.board[1] == m1.line && s.board[2] == m2.line && s.board[3] == m3.line;
    RowsChange(b, s.board);
  }

  /** Boards whose changed rows all end in a free cell: a changed board has a free cell. */
  lemma RowsChange(b: Grid, nb: Grid)
    requires forall k :: 0 <= k < 4 && nb[k] != b[k] ==> nb[k][3] == 0
    ensures nb != b ==> HasZero(nb)
  {
    if nb != b {
      var k :| 0 <= k < 4 && nb[k] != b[k];
      assert nb[k][3] == 0;
    }
  }

  lemma MirrorInvolution(b: Grid)
    ensures Mirror(Mirror(b)) == b
  {
    var m := Mirror(Mirror(b));
    forall r | 0 <= r < 4 ensures m[r] == b[r] {
      assert forall c :: 0 <= c < 4 ==> m[r][c] == b[r][c];
    }
  }

  lemma TransposeInvolution(b: Grid)
    ensures Transpose(Transpose(b)) == b
  {
    var t := Transpose(Transpose(b));
    forall r | 0 <= r < 4 ensures t[r] == b[r] {
      assert forall c :: 0 <= c < 4 ==> t[r][c] == b[r][c];
    }
  }

  lemma HasZeroTransformed(b: Grid)
    requires HasZero(b)
    ensures HasZero(Mirror(b)) && HasZero(Transpose(b))
  {
    var r, c :| 0 <= r < 4 && 0 <= c < 4 && b[r][c] == 0;
    assert Mirror(b)[r][3 - c] == 0;
    assert Transpose(b)[c][r] == 0;
  }

  lemma RightChange(b: Grid, h: nat)
    ensures var s := MoveRight(b, h);
      && (s.board != b ==> HasZero(s.board))
      && (s.board == b ==> s.gained == 0 && s.highest == h)
  {
    RightIsMirroredLeft(b, h);
    MirrorInvolution(b);
    var mb := Mirror(b);
    MoveLeftChange(mb, h);
    var l := MoveLeft(mb, h).board;
    if Mirror(l) != b {
      assert l != mb;
      HasZeroTransformed(l);
    } else {
      MirrorInvolution(l);
    }
  }

  /** In every direction: a slide that changes the board leaves a free cell, and one that changes nothing earns nothing. */
  lemma SlideChange(b: Grid, d: Direction, h: nat)
    ensures var s := SlideIn(b, d, h);
      && (s.board != b ==> HasZero(s.board))
      && (s.board == b ==> s.gained == 0 && s.highest == h)
  {
    match d
    case Left => MoveLeftChange(b, h);
    case Right => RightChange(b, h);
    case Up =>
      UpIsTransposedLeft(b, h);
      TransposeInvolution(b);
      var tb := Transpose(b);
      MoveLeftChange(tb, h);
      var l := MoveLeft(tb, h).board;
      if Transpose(l) != b {
        assert l != tb;
        HasZeroTransformed(l);
      } else {
        TransposeInvolution(l);
      }
    case Down =>
      DownIsTransposedRight(b, h);
      TransposeInvolution(b);
      var tb := Transpose(b);
      RightChange(tb, h);
      var l := MoveRight(tb, h).board;
      if Transpose(l) != b {
        assert l != tb;
        HasZeroTransformed(l);
      } else {
        TransposeInvolution(l);
      }
  }

  // ----------------------------------------------------------- random tile

  /** Cells `k..15` in row-major order that hold 0, as (row, col). */
  function EmptyCellsFrom(b: Grid, k: nat): (r: seq<(int, int)>)
    requires k <= 16
    ensures forall p :: p in r <==> 0 <= p.0 < 4 && 0 <= p.1 < 4 && 4 * p.0 + p.1 >= k && b[p.0][p.1] == 0
    decreases 16 - k
  {
    if k == 16 then []
    else
      var rest := EmptyCellsFrom(b, k + 1);
      if b[k / 4][k % 4] == 0 then [(k / 4, k % 4)] + rest else rest
  }

  /** Exactly one cell differs: it held 0 and now holds 2 or 4. */
  predicate OneNewTile(before: Grid, after: Grid) {
    exists r, c :: 0 <= r < 4 && 0 <= c < 4 && before[r][c] == 0
      && (after[r][c] == 2 || after[r][c] == 4)
      && forall r', c' :: 0 <= r' < 4 && 0 <= c' < 4 && (r', c') != (r, c) ==> after[r'][c'] == before[r'][c']
  }

  /**
   * `addRandomTile`: put a 2 (or a 4 when `four`, the source's
   * `Math.random() >= 0.9`) on the `pick`-th empty cell in row-major order.
   */
  function AddRandomTile(b: Grid, pick: nat, four: bool): (r: Grid)
    ensures !HasZero(b) ==> r == b
    ensures HasZero(b) ==> OneNewTile(b, r)
    ensures SumGrid(r) == SumGrid(b) + (if HasZero(b) then (if four then 4 else 2) else 0)
  {
    var cells := EmptyCellsFrom(b, 0);
    if |cells| == 0 then
      assert !HasZero(b) by {
        forall x, y | 0 <= x < 4 && 0 <= y < 4 ensures b[x][y] != 0 {
          assert (x, y) !in cells;
        }
      }
      b
    else
      var (row, col) := cells[pick % |cells|];
      assert (row, col) in cells;
      var v: nat := if four then 4 else 2;
      SetCellSum(b, row, col, v);
      SetCell(b, row, col, v)
  }

  /** The board with one cell replaced. */
  function SetCell(b: Grid, row: int, col: int, v: nat): (r: Grid)
    requires 0 <= row < 4 && 0 <= col < 4
    ensures r[row][col] == v
    ensures forall x, y :: 0 <= x < 4 && 0 <= y < 4 && (x, y) != (row, col) ==> r[x][y] == b[x][y]
  {
    var line: seq<nat> := b[row][col := v];
    b[row := line]
  }

  lemma SetCellSum(b: Grid, row: int, col: int, v: nat)
    requires 0 <= row < 4 && 0 <= col < 4 && b[row][col] == 0
    ensures SumGrid(SetCell(b, row, col, v)) == SumGrid(b) + v
  {
    SumGridCells(b);
    SumGridCells(SetCell(b, row, col, v));
  }

  // ------------------------------------------------------------- game over

  /** `checkGameOver`: no empty cell and no equal horizontal or vertical neighbours. */
  predicate NoMoves(b: Grid) {
    && (forall r :: 0 <= r < 4 ==> AllNonzero(b[r]) && NoAdjacentEqual(b[r]))
    && (forall c :: 0 <= c < 4 ==> NoAdjacentEqual(Column(b, c)))
  }

  lemma StuckLine(line: seq<nat>, h: nat)
    requires |line| == 4 && AllNonzero(line) && NoAdjacentEqual(line)
    ensures MergeLine(line, h).line == line
  {
    CompactOfNonzero(line);
    PairwiseIdentity(line);
    assert Zeros(0) == [];
    assert line + [] == line;
  }

  lemma StuckReverse(line: seq<nat>, h: nat)
    requires |line| == 4 && AllNonzero(line) && NoAdjacentEqual(line)
    ensures Reverse(MergeLine(Reverse(line), h).line) == line
  {
    var rl := Reverse(line);
    assert AllNonzero(rl) && NoAdjacentEqual(rl);
    StuckLine(rl, h);
    assert Reverse(rl) == line;
  }

  lemma ColumnsRebuild(b: Grid)
    ensures FromColumns(Column(b, 0), Column(b, 1), Column(b, 2), Column(b, 3)) == b
  {
    var f := FromColumns(Column(b, 0), Column(b, 1), Column(b, 2), Column(b, 3));
    forall r | 0 <= r < 4 ensures f[r] == b[r] {
      assert forall c :: 0 <= c < 4 ==> f[r][c] == b[r][c];
    }
  }

  /** When the game-over test fires, no direction changes the board. */
  lemma GameOverMeansStuck(b: Grid, d: Direction, h: nat)
    requires NoMoves(b)
    ensures SlideIn(b, d, h).board == b
  {
    match d
    case Left => RowsStuck(b, h);
    case Right => RowsStuckReversed(b, h);
    case Up => ColumnsOfStuck(b); ColumnsStuck(b, h);
    case Down => ColumnsOfStuck(b); ColumnsStuckReversed(b, h);
  }

  lemma RowsStuck(b: Grid, h: nat)
    requires forall r :: 0 <= r < 4 ==> AllNonzero(b[r]) && NoAdjacentEqual(b[r])
    ensures MoveLeft(b, h).board == b
  {
    var m0 := MergeLine(b[0], h);
    var m1 := MergeLine(b[1], m0.highest);
    var m2 := MergeLine(b[2], m1.highest);
    StuckLine(b[0], h); StuckLine(b[1], m0.highest); StuckLine(b[2], m1.highest); StuckLine(b[3], m2.highest);
  }

  lemma RowsStuckReversed(b: Grid, h: nat)
    requires forall r :: 0 <= r < 4 ==> AllNonzero(b[r]) && NoAdjacentEqual(b[r])
    ensures MoveRight(b, h).board == b
  {
    var m0 := MergeLine(Reverse(b[0]), h);
    var m1 := MergeLine(Reverse(b[1]), m0.highest);
    var m2 := MergeLine(Reverse(b[2]), m1.highest);
    StuckReverse(b[0], h); StuckReverse(b[1], m0.highest); StuckReverse(b[2], m1.highest); StuckReverse(b[3], m2.highest);
  }

  /** A board without empty cells has none in its columns either. */
  lemma ColumnsOfStuck(b: Grid)
    requires forall r :: 0 <= r < 4 ==> AllNonzero(b[r])
    ensures forall c :: 0 <= c < 4 ==> AllNonzero(Column(b, c))
  {
    forall c | 0 <= c < 4 ensures AllNonzero(Column(b, c)) {
      assert forall r :: 0 <= r < 4 ==> b[r][c] != 0;
    }
  }

  lemma ColumnsStuck(b: Grid, h: nat)
    requires forall c :: 0 <= c < 4 ==> AllNonzero(Column(b, c)) && NoAdjacentEqual(Column(b, c))
    ensures MoveUp(b, h).board == b
  {
    var m0 := MergeLine(Column(b, 0), h);
    var m1 := MergeLine(Column(b, 1), m0.highest);
    var m2 := MergeLine(Column(b, 2), m1.highest);
    StuckLine(Column(b, 0), h); StuckLine(Column(b, 1), m0.highest);
    StuckLine(Column(b, 2), m1.highest); StuckLine(Column(b, 3), m2.highest);
    ColumnsRebuild(b);
  }

  lemma ColumnsStuckReversed(b: Grid, h: nat)
    requires forall c :: 0 <= c < 4 ==> AllNonzero(Column(b, c)) && NoAdjacentEqual(Column(b, c))
    ensures MoveDown(b, h).board == b
  {
    var m0 := MergeLine(Reverse(Column(b, 0)), h);
    var m1 := MergeLine(Reverse(Column(b, 1)), m0.highest);
    var m2 := MergeLine(Reverse(Column(b, 2)), m1.highest);
    StuckReverse(Column(b, 0), h); StuckReverse(Column(b, 1), m0.highest);
    StuckReverse(Column(b, 2), m1.highest); StuckReverse(Column(b, 3), m2.highest);
    ColumnsRebuild(b);
  }

  // ------------------------------------------------------------------ game

  /** What `savePreviousState` keeps. */
  datatype Snapshot = Snapshot(board: Grid, score: nat, moves: nat)

  datatype Game = Game(
    board: Grid,
    score: nat,
    bestScore: nat,
    moves: nat,
    highestTile: nat,
    gameOver: bool,
    previous: Option<Snapshot>)

  /** `updateDisplay`'s side effect: the best score follows the score upward. */
  function ShowScore(g: Game): (r: Game)
    ensures r.bestScore >= g.bestScore && r.bestScore >= r.score
    ensures r.bestScore == g.bestScore || r.bestScore == g.score
    ensures r == g.(bestScore := r.bestScore)
  {
    g.(bestScore := Max(g.bestScore, g.score))
  }

  /**
   * `move(direction)`: refused once the game is over; otherwise save the
   * state for undo (even if nothing moves), slide, and only if the board
   * changed count the move, spawn one tile and test for game over. The
   * second component is the returned `moved`.
   */
  function Move(g: Game, d: Direction, pick: nat, four: bool): (res: (Game, bool))
    ensures g.gameOver ==> res == (g, false)
    ensures !g.gameOver ==> res.0.previous == Some(Snapshot(g.board, g.score, g.moves))
    ensures !g.gameOver && !res.1 ==>
      res.0.board == g.board && res.0.score == g.score && res.0.moves == g.moves
      && res.0.highestTile == g.highestTile && !res.0.gameOver
    ensures res.1 ==>
      && res.0.moves == g.moves + 1
      && OneNewTile(SlideIn(g.board, d, g.highestTile).board, res.0.board)
      && res.0.score == g.score + SlideIn(g.board, d, g.highestTile).gained
      && (res.0.gameOver <==> NoMoves(res.0.board))
  {
    if g.gameOver then (g, false)
    else
      var s := SlideIn(g.board, d, g.highestTile);
      SlideChange(g.board, d, g.highestTile);
      var slid := g.(board := s.board, score := g.score + s.gained, highestTile := s.highest,
                     previous := Some(Snapshot(g.board, g.score, g.moves)));
      if s.board != g.board then
        var placed := ShowScore(slid.(moves := g.moves + 1, board := AddRandomTile(s.board, pick, four)));
        (placed.(gameOver := NoMoves(placed.board)), true)
      else (slid, false)
  }

  /** A move changes the tile total by exactly the spawned tile. */
  lemma MoveSum(g: Game, d: Direction, pick: nat, four: bool)
    requires Move(g, d, pick, four).1
    ensures SumGrid(Move(g, d, pick, four).0.board) == SumGrid(g.board) + (if four then 4 else 2)
  {
    SlideConservesSum(g.board, d, g.highestTile);
    SlideChange(g.board, d, g.highestTile);
  }

  /**
   * `undo`: restore the board, score and move count saved before the last
   * move attempt, clear game over and disable undo. `highestTile` is not
   * part of the snapshot and stays as it is.
   */
  function Undo(g: Game): (r: Game)
    ensures g.previous.None? ==> r == g
    ensures g.previous.Some? ==>
      && r.board == g.previous.value.board && r.score == g.previous.value.score
      && r.moves == g.previous.value.moves && !r.gameOver && r.previous.None?
      && r.highestTile == g.highestTile
  {
    match g.previous
    case None => g
    case Some(p) =>
      ShowScore(g.(board := p.board, score := p.score, moves := p.moves, previous := None, gameOver := false))
  }

  /** Undo after any accepted move attempt gives back the board, score and move count from before it, once. */
  lemma UndoReversesMove(g: Game, d: Direction, pick: nat, four: bool)
    requires !g.gameOver
    ensures var u := Undo(Move(g, d, pick, four).0);
      && u.board == g.board && u.score == g.score && u.moves == g.moves
      && !u.gameOver && u.previous.None?
      && u.bestScore >= g.bestScore
      && Undo(u) == u
  {
  }

  /**
   * `resetGame` (`initializeGame` plus a display update): a cleared board
   * with two spawned tiles, zeroed counters, highest tile 2, no undo; the
   * best score survives.
   */
  function Reset(g: Game, pick1: nat, four1: bool, pick2: nat, four2: bool): (r: Game)
    ensures r.score == 0 && r.moves == 0 && r.highestTile == 2 && !r.gameOver && r.previous.None?
    ensures r.bestScore == g.bestScore
    ensures 4 <= SumGrid(r.board) <= 8
    ensures TwoTiles(r.board)
  {
    var b2 := AddRandomTile(AddRandomTile(EmptyGrid, pick1, four1), pick2, four2);
    StartBoard(pick1, four1, pick2, four2);
    ShowScore(Game(b2, 0, g.bestScore, 0, 2, false, None))
  }

  /** The board of a new game: two spawns on the empty grid. */
  lemma StartBoard(pick1: nat, four1: bool, pick2: nat, four2: bool)
    ensures var b2 := AddRandomTile(AddRandomTile(EmptyGrid, pick1, four1), pick2, four2);
      4 <= SumGrid(b2) <= 8 && TwoTiles(b2)
  {
    var b1 := AddRandomTile(EmptyGrid, pick1, four1);
    assert EmptyGrid[0][0] == 0;
    SumGridCells(EmptyGrid);
    var b2 := AddRandomTile(b1, pick2, four2);
    assert b1[0][0] == 0 || b1[0][1] == 0;
    forall r, c | 0 <= r < 4 && 0 <= c < 4 ensures EmptyGrid[r][c] == 0 {
      assert EmptyGrid[r] == [0, 0, 0, 0] by { assert r == 0 || r == 1 || r == 2 || r == 3; }
      assert c == 0 || c == 1 || c == 2 || c == 3;
    }
    StartHasTwoTiles(EmptyGrid, b1, b2);
  }

  /** Exactly two cells hold a tile, each a 2 or a 4; the rest are empty. */
  predicate TwoTiles(b: Grid) {
    exists r1, c1, r2, c2 ::
      && 0 <= r1 < 4 && 0 <= c1 < 4 && 0 <= r2 < 4 && 0 <= c2 < 4 && (r1, c1) != (r2, c2)
      && (b[r1][c1] == 2 || b[r1][c1] == 4) && (b[r2][c2] == 2 || b[r2][c2] == 4)
      && forall r, c :: 0 <= r < 4 && 0 <= c < 4 && (r, c) != (r1, c1) && (r, c) != (r2, c2) ==> b[r][c] == 0
  }

  /** Two tiles spawned one after the other on an empty grid land on two different cells. */
  lemma StartHasTwoTiles(b0: Grid, b1: Grid, b2: Grid)
    requires forall r, c :: 0 <= r < 4 && 0 <= c < 4 ==> b0[r][c] == 0
    requires OneNewTile(b0, b1) && OneNewTile(b1, b2)
    ensures TwoTiles(b2)
  {
    var r1, c1 :| 0 <= r1 < 4 && 0 <= c1 < 4 && b0[r1][c1] == 0
      && (b1[r1][c1] == 2 || b1[r1][c1] == 4)
      && forall r', c' :: 0 <= r' < 4 && 0 <= c' < 4 && (r', c') != (r1, c1) ==> b1[r'][c'] == b0[r'][c'];
    var r2, c2 :| 0 <= r2 < 4 && 0 <= c2 < 4 && b1[r2][c2] == 0
      && (b2[r2][c2] == 2 || b2[r2][c2] == 4)
      && forall r', c' :: 0 <= r' < 4 && 0 <= c' < 4 && (r', c') != (r2, c2) ==> b2[r'][c'] == b1[r'][c'];
    assert (r1, c1) != (r2, c2);
    assert b2[r1][c1] == b1[r1][c1];
    forall r, c | 0 <= r < 4 && 0 <= c < 4 && (r, c) != (r1, c1) && (r, c) != (r2, c2) ensures b2[r][c] == 0 {
      assert b2[r][c] == b1[r][c] == b0[r][c];
    }
  }

  /** `resetScore`: forget the best score only. */
  function ResetScore(g: Game): (r: Game)
    ensures r.bestScore == 0
    ensures r.(bestScore := g.bestScore) == g
  {
    g.(bestScore := 0)
  }

  // ------------------------------------------------------------ examples

  /** A freshly merged tile does not merge again in the same pass. */
  lemma NoDoubleMerge()
    ensures MergeLine([2, 2, 2, 2], 2) == Merge([4, 4, 0, 0], 8, 4)
    ensures MergeLine([2, 2, 4, 0], 2) == Merge([4, 4, 0, 0], 4, 4)
  {
    assert Compact([2, 2, 2, 2]) == [2, 2, 2, 2];
    assert Pairwise([2, 2, 2, 2]) == [4, 4] by { assert [2, 2, 2, 2][2..] == [2, 2]; }
    assert Zeros(2) == [0, 0];
    assert Compact([2, 2, 4, 0]) == [2, 2, 4];
    assert Pairwise([2, 2, 4]) == [4, 4] by { assert [2, 2, 4][2..] == [4]; }
  }

  /** Tiles slide over gaps to fuse, and unequal neighbours never fuse. */
  lemma SlideExamples()
    ensures MergeLine([0, 2, 0, 2], 2) == Merge([4, 0, 0, 0], 4, 4)
    ensures MergeLine([2, 4, 2, 4], 4) == Merge([2, 4, 2, 4], 0, 4)
  {
    assert Compact([0, 2, 0, 2]) == [2, 2];
    assert Pairwise([2, 2]) == [4] by { assert [2, 2][2..] == []; }
    assert Zeros(3) == [0, 0, 0];
    assert Compact([2, 4, 2, 4]) == [2, 4, 2, 4];
    PairwiseIdentity([2, 4, 2, 4]);
    assert Zeros(0) == [];
  }
}
