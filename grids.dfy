/** The game grid as a value: the lines a move pulls out in each direction, the grid
    a move produces, the score it earns, the cells a new tile can land on, and the
    game-over test. The class in module GameEngine is proved against these. */
module Grids {
  import opened Lines

  /** A grid of cells, row by row; 0 is an empty cell. */
  type Grid = seq<seq<int>>

  datatype Direction = Left | Right | Up | Down

  /** A position in the grid: row `x`, column `y`. */
  datatype Cell = Cell(x: nat, y: nat)

  predicate Square(g: Grid)
  {
    forall r :: 0 <= r < |g| ==> |g[r]| == |g|
  }

  predicate NonNegativeGrid(g: Grid)
  {
    forall r :: 0 <= r < |g| ==> NonNegative(g[r])
  }

  /** The grid `init` starts from: `n` rows of `n` empty cells. */
  function EmptyGrid(n: nat): (g: Grid)
    ensures |g| == n && Square(g) && NonNegativeGrid(g)
    ensures forall r, c :: 0 <= r < n && 0 <= c < n ==> g[r][c] == 0
  {
    seq(n, _ => Zeros(n))
  }

  function Column(g: Grid, c: nat): (col: seq<int>)
    requires Square(g) && c < |g|
    ensures |col| == |g| && forall r :: 0 <= r < |g| ==> col[r] == g[r][c]
  {
    seq(|g|, r requires 0 <= r < |g| => g[r][c])
  }

  /** Line `i` pulled out of the grid in the order of travel: row `i` for left and
      right, column `i` for up and down, reversed for right and down. */
  function LineOf(g: Grid, d: Direction, i: nat): (line: seq<int>)
    requires Square(g) && i < |g|
    ensures |line| == |g|
  {
    match d
    case Left => g[i]
    case Right => Reverse(g[i])
    case Up => Column(g, i)
    case Down => Reverse(Column(g, i))
  }

  /** All lines of the grid for direction `d`. */
  function AllLines(g: Grid, d: Direction): (ls: seq<seq<int>>)
    requires Square(g)
    ensures |ls| == |g| && forall i :: 0 <= i < |g| ==> ls[i] == LineOf(g, d, i)
  {
    seq(|g|, i requires 0 <= i < |g| => LineOf(g, d, i))
  }

  /** The grid position (row, column) of cell `j` of line `i`. */
  function Origin(d: Direction, n: nat, i: nat, j: nat): (p: (nat, nat))
    requires i < n && j < n
  {
    match d
    case Left => (i, j)
    case Right => (i, n - 1 - j)
    case Up => (j, i)
    case Down => (n - 1 - j, i)
  }

  /** The line, and the place in it, that grid position (`r`, `c`) belongs to. */
  function Slot(d: Direction, n: nat, r: nat, c: nat): (q: (nat, nat))
    requires r < n && c < n
    ensures q.0 < n && q.1 < n
  {
    match d
    case Left => (r, c)
    case Right => (r, n - 1 - c)
    case Up => (c, r)
    case Down => (c, n - 1 - r)
  }

  /** Origin and Slot are inverse to each other: every cell lies on exactly one line
      of each direction. */
  lemma SlotOrigin(d: Direction, n: nat, a: nat, b: nat)
    requires a < n && b < n
    ensures var p := Origin(d, n, a, b); p.0 < n && p.1 < n && Slot(d, n, p.0, p.1) == (a, b)
    ensures var q := Slot(d, n, a, b); q.0 < n && q.1 < n && Origin(d, n, q.0, q.1) == (a, b)
  {
  }

  lemma LineOfAt(g: Grid, d: Direction, i: nat, j: nat)
    requires Square(g) && i < |g| && j < |g|
    ensures var p := Origin(d, |g|, i, j); p.0 < |g| && p.1 < |g| && LineOf(g, d, i)[j] == g[p.0][p.1]
  {
  }

  /** `move`: every line goes through the line transform and is written back where it
      came from, un-reversed for right and down. */
  function MoveGrid(g: Grid, d: Direction): (m: Grid)
    requires Square(g)
    ensures |m| == |g| && Square(m)
  {
    var n := |g|;
    var lines := MovedLines(g, d);
    seq(n, r requires 0 <= r < n => seq(n, c requires 0 <= c < n =>
      var q := Slot(d, n, r, c);
      lines[q.0][q.1]))
  }

  /** Every line of the grid after the line transform, in the order of travel. */
  function MovedLines(g: Grid, d: Direction): (ls: seq<seq<int>>)
    requires Square(g)
    ensures |ls| == |g|
    ensures forall i :: 0 <= i < |g| ==> ls[i] == Slide(LineOf(g, d, i), |g|)
  {
    seq(|g|, i requires 0 <= i < |g| => Slide(LineOf(g, d, i), |g|))
  }

  /** What moving the lines `ls` adds to the score, taken in order. */
  function TotalGain(ls: seq<seq<int>>): int
  {
    if ls == [] then 0 else TotalGain(ls[..|ls| - 1]) + LineGain(ls[|ls| - 1])
  }

  /** The score a move earns: the merge gains of all its lines. */
  function MoveGain(g: Grid, d: Direction): int
    requires Square(g)
  {
    TotalGain(AllLines(g, d))
  }

  /** Total tile value of a grid, or of any list of lines. */
  function GridSum(g: seq<seq<int>>): int
  {
    if g == [] then 0 else Sum(g[0]) + GridSum(g[1..])
  }

  // ---------------------------------------------------------------------------
  // The shape of a move

  lemma GridExt(a: Grid, b: Grid)
    requires Square(a) && Square(b) && |a| == |b|
    requires forall r, c :: 0 <= r < |a| && 0 <= c < |a| ==> a[r][c] == b[r][c]
    ensures a == b
  {
    forall r | 0 <= r < |a|
      ensures a[r] == b[r]
    {
    }
  }

  lemma MoveGridAt(g: Grid, d: Direction, r: nat, c: nat)
    requires Square(g) && r < |g| && c < |g|
    ensures var q := Slot(d, |g|, r, c);
      (q.0 < |g| && q.1 < |g| && MoveGrid(g, d)[r][c] == Slide(LineOf(g, d, q.0), |g|)[q.1])
  {
  }

  /** Read back in the order of travel, line `i` of the moved grid is line `i` of the
      old grid after the line transform. */
  lemma MoveLines(g: Grid, d: Direction, i: nat)
    requires Square(g) && i < |g|
    ensures LineOf(MoveGrid(g, d), d, i) == Slide(LineOf(g, d, i), |g|)
  {
    var n := |g|;
    var m := MoveGrid(g, d);
    forall j | 0 <= j < n
      ensures LineOf(m, d, i)[j] == Slide(LineOf(g, d, i), n)[j]
    {
      var p := Origin(d, n, i, j);
      SlotOrigin(d, n, i, j);
      LineOfAt(m, d, i, j);
      MoveGridAt(g, d, p.0, p.1);
    }
  }

  /** The first `i` lines of `h` are the moved lines of `g`, the others those of `g`. */
  predicate MovedUpTo(g: Grid, h: Grid, d: Direction, i: nat)
    requires Square(g) && Square(h) && |g| == |h|
  {
    forall k :: 0 <= k < |g| ==>
      LineOf(h, d, k) == if k < i then Slide(LineOf(g, d, k), |g|) else LineOf(g, d, k)
  }

  /** Moving line `i` next extends the moved prefix by one line. */
  lemma MovedStep(g: Grid, h0: Grid, h: Grid, d: Direction, i: nat)
    requires Square(g) && Square(h0) && Square(h) && |g| == |h0| == |h| && i < |g|
    requires MovedUpTo(g, h0, d, i)
    requires LineOf(h, d, i) == Slide(LineOf(g, d, i), |g|)
    requires forall k :: 0 <= k < |g| && k != i ==> LineOf(h, d, k) == LineOf(h0, d, k)
    ensures MovedUpTo(g, h, d, i + 1)
  {
    forall k | 0 <= k < |g|
      ensures LineOf(h, d, k) ==
        if k < i + 1 then Slide(LineOf(g, d, k), |g|) else LineOf(g, d, k)
    {
      if k < i {
        assert LineOf(h, d, k) == LineOf(h0, d, k) == Slide(LineOf(g, d, k), |g|);
      } else if k > i {
        assert LineOf(h, d, k) == LineOf(h0, d, k) == LineOf(g, d, k);
      }
    }
  }

  /** A grid whose every line is the moved line of `g` is the moved grid. */
  lemma MovedByLines(g: Grid, h: Grid, d: Direction)
    requires Square(g) && Square(h) && |g| == |h|
    requires MovedUpTo(g, h, d, |g|)
    ensures h == MoveGrid(g, d)
  {
    forall k | 0 <= k < |g|
      ensures LineOf(h, d, k) == LineOf(MoveGrid(g, d), d, k)
    {
      MoveLines(g, d, k);
    }
    LinesDetermineGrid(h, MoveGrid(g, d), d);
  }

  /** The lines of one direction determine the grid. */
  lemma LinesDetermineGrid(a: Grid, b: Grid, d: Direction)
    requires Square(a) && Square(b) && |a| == |b|
    requires forall i :: 0 <= i < |a| ==> LineOf(a, d, i) == LineOf(b, d, i)
    ensures a == b
  {
    var n := |a|;
    forall r, c | 0 <= r < n && 0 <= c < n
      ensures a[r][c] == b[r][c]
    {
      var q := Slot(d, n, r, c);
      SlotOrigin(d, n, r, c);
      LineOfAt(a, d, q.0, q.1);
      LineOfAt(b, d, q.0, q.1);
    }
    GridExt(a, b);
  }

  // ---------------------------------------------------------------------------
  // Right and down are left and up on the mirrored grid

  /** Every row in the opposite order. */
  function MirrorRows(g: Grid): (h: Grid)
    requires Square(g)
    ensures |h| == |g| && Square(h)
  {
    seq(|g|, r requires 0 <= r < |g| => Reverse(g[r]))
  }

  /** The rows in the opposite order. */
  function FlipRows(g: Grid): (h: Grid)
    requires Square(g)
    ensures |h| == |g| && Square(h)
  {
    Reverse(g)
  }

  function Transpose(g: Grid): (h: Grid)
    requires Square(g)
    ensures |h| == |g| && Square(h)
  {
    seq(|g|, c requires 0 <= c < |g| => Column(g, c))
  }

  /** Moving right is moving left on the grid with every row reversed. */
  lemma MoveRightMirrorsLeft(g: Grid)
    requires Square(g)
    ensures MoveGrid(g, Right) == MirrorRows(MoveGrid(MirrorRows(g), Left))
  {
    var n := |g|;
    var h := MirrorRows(g);
    var m := MoveGrid(h, Left);
    var b := MirrorRows(m);
    forall k | 0 <= k < n
      ensures LineOf(b, Right, k) == Slide(LineOf(g, Right, k), n)
    {
      MoveLines(h, Left, k);
      ReverseReverse(m[k]);
    }
    MovedByLines(g, b, Right);
  }

  lemma ColumnOfTransposed(g: Grid, c: nat)
    requires Square(g) && c < |g|
    ensures Column(Transpose(g), c) == g[c]
  {
  }

  /** Moving up is moving left on the transposed grid. */
  lemma MoveUpTransposesLeft(g: Grid)
    requires Square(g)
    ensures MoveGrid(g, Up) == Transpose(MoveGrid(Transpose(g), Left))
  {
    var n := |g|;
    var h := Transpose(g);
    var m := MoveGrid(h, Left);
    var b := Transpose(m);
    forall k | 0 <= k < n
      ensures LineOf(b, Up, k) == Slide(LineOf(g, Up, k), n)
    {
      MoveLines(h, Left, k);
      ColumnOfTransposed(m, k);
    }
    MovedByLines(g, b, Up);
  }

  lemma ColumnOfFlipped(g: Grid, c: nat)
    requires Square(g) && c < |g|
    ensures Column(FlipRows(g), c) == Reverse(Column(g, c))
  {
  }

  /** Moving down is moving up on the grid with its rows in the opposite order. */
  lemma MoveDownMirrorsUp(g: Grid)
    requires Square(g)
    ensures MoveGrid(g, Down) == FlipRows(MoveGrid(FlipRows(g), Up))
  {
    var n := |g|;
    var h := FlipRows(g);
    var m := MoveGrid(h, Up);
    var b := FlipRows(m);
    forall k | 0 <= k < n
      ensures LineOf(b, Down, k) == Slide(LineOf(g, Down, k), n)
    {
      MoveLines(h, Up, k);
      ColumnOfFlipped(m, k);
      ColumnOfFlipped(g, k);
      ReverseReverse(Column(m, k));
    }
    MovedByLines(g, b, Down);
  }

  // ---------------------------------------------------------------------------
  // Conservation of the total tile value

  lemma {:induction false} GridSumPointwise(ls: seq<seq<int>>, ms: seq<seq<int>>)
    requires |ls| == |ms| && forall i :: 0 <= i < |ls| ==> Sum(ls[i]) == Sum(ms[i])
    ensures GridSum(ls) == GridSum(ms)
  {
    if ls != [] {
      assert forall i :: 0 <= i < |ls[1..]| ==> ls[1..][i] == ls[i + 1] && ms[1..][i] == ms[i + 1];
      GridSumPointwise(ls[1..], ms[1..]);
    }
  }

  /** The columns of a list of rows that all have width `w`. */
  function Columns(g: seq<seq<int>>, w: nat): (t: seq<seq<int>>)
    requires forall r :: 0 <= r < |g| ==> |g[r]| == w
    ensures |t| == w
    ensures forall c :: 0 <= c < w ==> |t[c]| == |g| && forall r :: 0 <= r < |g| ==> t[c][r] == g[r][c]
  {
    seq(w, c requires 0 <= c < w => seq(|g|, r requires 0 <= r < |g| => g[r][c]))
  }

  lemma {:induction false} GridSumNoCells(ls: seq<seq<int>>)
    requires forall i :: 0 <= i < |ls| ==> ls[i] == []
    ensures GridSum(ls) == 0
  {
    if ls != [] {
      GridSumNoCells(ls[1..]);
    }
  }

  /** Putting one more cell in front of every line adds that cell's value. */
  lemma {:induction false} GridSumPrepend(xs: seq<int>, ls: seq<seq<int>>, t: seq<seq<int>>)
    requires |xs| == |ls| == |t| && forall c :: 0 <= c < |t| ==> t[c] == [xs[c]] + ls[c]
    ensures GridSum(t) == Sum(xs) + GridSum(ls)
  {
    if xs != [] {
      GridSumPrepend(xs[1..], ls[1..], t[1..]);
      SumAppend([xs[0]], ls[0]);
      assert [xs[0]][1..] == [];
    }
  }

  /** Summing by columns gives the same total as summing by rows. */
  lemma {:induction false} ColumnsSum(g: seq<seq<int>>, w: nat)
    requires forall r :: 0 <= r < |g| ==> |g[r]| == w
    ensures GridSum(Columns(g, w)) == GridSum(g)
  {
    if g == [] {
      GridSumNoCells(Columns(g, w));
    } else {
      var t := Columns(g, w);
      var rest := Columns(g[1..], w);
      ColumnsSum(g[1..], w);
      forall c | 0 <= c < w
        ensures t[c] == [g[0][c]] + rest[c]
      {
      }
      GridSumPrepend(g[0], rest, t);
    }
  }

  /** The lines of any direction hold the whole grid's tile value. */
  lemma LinesSum(g: Grid, d: Direction)
    requires Square(g)
    ensures GridSum(AllLines(g, d)) == GridSum(g)
  {
    var n := |g|;
    var ls := AllLines(g, d);
    match d {
      case Left =>
        assert ls == g;
      case Right =>
        forall i | 0 <= i < n
          ensures Sum(ls[i]) == Sum(g[i])
        {
          SumReverse(g[i]);
        }
        GridSumPointwise(ls, g);
      case Up =>
        assert ls == Columns(g, n);
        ColumnsSum(g, n);
      case Down =>
        var t := Columns(g, n);
        forall i | 0 <= i < n
          ensures Sum(ls[i]) == Sum(t[i])
        {
          assert Column(g, i) == t[i];
          SumReverse(t[i]);
        }
        GridSumPointwise(ls, t);
        ColumnsSum(g, n);
    }
  }

  /** A move conserves the total tile value of the grid. */
  lemma MovePreservesSum(g: Grid, d: Direction)
    requires Square(g)
    ensures GridSum(MoveGrid(g, d)) == GridSum(g)
  {
    var n := |g|;
    var m := MoveGrid(g, d);
    forall i | 0 <= i < n
      ensures Sum(AllLines(m, d)[i]) == Sum(AllLines(g, d)[i])
    {
      MoveLines(g, d, i);
      SlideSum(LineOf(g, d, i), n);
    }
    GridSumPointwise(AllLines(m, d), AllLines(g, d));
    LinesSum(m, d);
    LinesSum(g, d);
  }

  // ---------------------------------------------------------------------------
  // Score and the range of cell values

  lemma {:induction false} TotalGainNonNegative(ls: seq<seq<int>>)
    requires forall i :: 0 <= i < |ls| ==> NonNegative(ls[i])
    ensures TotalGain(ls) >= 0
  {
    if ls != [] {
      TotalGainNonNegative(ls[..|ls| - 1]);
      SlideNonNegative(ls[|ls| - 1], 0);
    }
  }

  lemma LineNonNegative(g: Grid, d: Direction, i: nat)
    requires Square(g) && NonNegativeGrid(g) && i < |g|
    ensures NonNegative(LineOf(g, d, i))
  {
    forall j | 0 <= j < |g|
      ensures LineOf(g, d, i)[j] >= 0
    {
      LineOfAt(g, d, i, j);
    }
  }

  /** Cells never become negative, and a move never lowers the score. */
  lemma MoveKeepsNonNegative(g: Grid, d: Direction)
    requires Square(g) && NonNegativeGrid(g)
    ensures NonNegativeGrid(MoveGrid(g, d)) && MoveGain(g, d) >= 0
  {
    var n := |g|;
    var m := MoveGrid(g, d);
    forall r, c | 0 <= r < n && 0 <= c < n
      ensures m[r][c] >= 0
    {
      var q := Slot(d, n, r, c);
      MoveGridAt(g, d, r, c);
      LineNonNegative(g, d, q.0);
      SlideNonNegative(LineOf(g, d, q.0), n);
    }
    forall i | 0 <= i < n
      ensures NonNegative(AllLines(g, d)[i])
    {
      LineNonNegative(g, d, i);
    }
    TotalGainNonNegative(AllLines(g, d));
  }

  /** Moving one more line adds that line's gain. */
  lemma TotalGainStep(ls: seq<seq<int>>, i: nat)
    requires i < |ls|
    ensures TotalGain(ls[..i + 1]) == TotalGain(ls[..i]) + LineGain(ls[i])
  {
    assert ls[..i + 1][..i] == ls[..i];
  }

  lemma {:induction false} TotalGainZero(ls: seq<seq<int>>)
    requires forall i :: 0 <= i < |ls| ==> LineGain(ls[i]) == 0
    ensures TotalGain(ls) == 0
  {
    if ls != [] {
      TotalGainZero(ls[..|ls| - 1]);
    }
  }

  /** A move that leaves the grid as it was merged nothing, so it scores nothing. */
  lemma UnchangedMoveScoresNothing(g: Grid, d: Direction)
    requires Square(g) && MoveGrid(g, d) == g
    ensures MoveGain(g, d) == 0
  {
    var n := |g|;
    forall i | 0 <= i < n
      ensures LineGain(AllLines(g, d)[i]) == 0
    {
      MoveLines(g, d, i);
      SlideFixedScoresNothing(LineOf(g, d, i), n);
    }
    TotalGainZero(AllLines(g, d));
  }

  /** A move leaves the grid unchanged exactly when every line, read in the direction
      of travel, is already settled; such a move scores nothing. */
  lemma MoveFixedIff(g: Grid, d: Direction)
    requires Square(g)
    ensures MoveGrid(g, d) == g <==> forall i :: 0 <= i < |g| ==> Settled(LineOf(g, d, i))
    ensures (forall i :: 0 <= i < |g| ==> Settled(LineOf(g, d, i))) ==> MoveGain(g, d) == 0
  {
    if MoveGrid(g, d) == g {
      forall i | 0 <= i < |g|
        ensures Settled(LineOf(g, d, i))
      {
        MoveLines(g, d, i);
        SlideFixedIff(LineOf(g, d, i), |g|);
      }
    }
    if (forall i :: 0 <= i < |g| ==> Settled(LineOf(g, d, i))) {
      forall i | 0 <= i < |g|
        ensures LineOf(g, d, i) == Slide(LineOf(g, d, i), |g|)
      {
        SlideFixedIff(LineOf(g, d, i), |g|);
      }
      assert MovedUpTo(g, g, d, |g|);
      MovedByLines(g, g, d);
      UnchangedMoveScoresNothing(g, d);
    }
  }


  // ---------------------------------------------------------------------------
  // Game over

  /** The pair test of `isGameOver`: equal, or one twice the other. */
  function Joinable(x: int, y: int): (j: bool)
    ensures j ==> Mergeable(x, y) && Mergeable(y, x)
  {
    x == y || x * 2 == y || x == y * 2
  }

  /** No two neighbours of `s` pass the pair test of `isGameOver`. */
  predicate NoJoinablePair(s: seq<int>)
  {
    forall i :: 0 <= i < |s| - 1 ==> !Joinable(s[i], s[i + 1])
  }

  predicate Full(g: Grid)
    requires Square(g)
  {
    forall r, c :: 0 <= r < |g| && 0 <= c < |g| ==> g[r][c] != 0
  }

  /** The two pair tests `isGameOver` makes at cell (`r`, `c`): with the cell to its
      right and with the cell below it, where there is one. */
  predicate PairsOk(g: Grid, r: nat, c: nat)
    requires Square(g) && r < |g| && c < |g|
  {
    (c < |g| - 1 ==> !Joinable(g[r][c], g[r][c + 1])) &&
    (r < |g| - 1 ==> !Joinable(g[r][c], g[r + 1][c]))
  }

  /** No horizontally or vertically adjacent cells pass the pair test. */
  predicate NoJoinableNeighbours(g: Grid)
    requires Square(g)
  {
    forall r, c :: 0 <= r < |g| && 0 <= c < |g| ==> PairsOk(g, r, c)
  }

  /** What `isGameOver` reports: no empty cell and no joinable neighbours. */
  predicate Stuck(g: Grid)
    requires Square(g)
  {
    Full(g) && NoJoinableNeighbours(g)
  }

  /** No horizontally or vertically adjacent cells satisfy the merge rule. */
  predicate NoMergeableNeighbours(g: Grid)
    requires Square(g)
  {
    (forall r :: 0 <= r < |g| ==> NoMergeablePair(g[r])) &&
    (forall c :: 0 <= c < |g| ==> NoMergeablePair(Column(g, c)))
  }

  /** No move in any direction changes the grid. */
  ghost predicate Frozen(g: Grid)
    requires Square(g)
  {
    forall d :: MoveGrid(g, d) == g
  }

  lemma NoMergeablePairReverse(s: seq<int>)
    requires NoMergeablePair(s)
    ensures NoMergeablePair(Reverse(s))
  {
    var n := |s|;
    forall j | 0 <= j < n - 1
      ensures !Mergeable(Reverse(s)[j], Reverse(s)[j + 1])
    {
      var k := n - 1 - (j + 1);
      assert Reverse(s)[j] == s[k + 1] && Reverse(s)[j + 1] == s[k];
    }
  }

  lemma LineNeighbours(g: Grid, d: Direction, i: nat)
    requires Square(g) && i < |g|
    ensures Full(g) ==> ZeroFree(LineOf(g, d, i))
    ensures NoMergeableNeighbours(g) ==> NoMergeablePair(LineOf(g, d, i))
  {
    var n := |g|;
    var line := LineOf(g, d, i);
    if Full(g) {
      forall j | 0 <= j < n
        ensures line[j] != 0
      {
        LineOfAt(g, d, i, j);
      }
    }
    if NoMergeableNeighbours(g) {
      match d {
        case Left =>
        case Right =>
          NoMergeablePairReverse(g[i]);
        case Up =>
        case Down =>
          NoMergeablePairReverse(Column(g, i));
      }
    }
  }

  /** A full grid can still be moved exactly when two neighbours satisfy the merge rule. */
  lemma FullGridFrozenIff(g: Grid)
    requires Square(g) && Full(g)
    ensures Frozen(g) <==> NoMergeableNeighbours(g)
  {
    var n := |g|;
    if NoMergeableNeighbours(g) {
      forall d
        ensures MoveGrid(g, d) == g
      {
        forall i | 0 <= i < n
          ensures LineOf(MoveGrid(g, d), d, i) == LineOf(g, d, i)
        {
          LineNeighbours(g, d, i);
          SlideKeepsStableLine(LineOf(g, d, i), n);
          MoveLines(g, d, i);
        }
        LinesDetermineGrid(MoveGrid(g, d), g, d);
      }
    } else if exists r :: 0 <= r < n && !NoMergeablePair(g[r]) {
      var r :| 0 <= r < n && !NoMergeablePair(g[r]);
      LineNeighbours(g, Left, r);
      SlideChangesMergeableLine(g[r], n);
      MoveLines(g, Left, r);
      assert MoveGrid(g, Left) != g;
    } else {
      var c :| 0 <= c < n && !NoMergeablePair(Column(g, c));
      LineNeighbours(g, Up, c);
      SlideChangesMergeableLine(Column(g, c), n);
      MoveLines(g, Up, c);
      assert MoveGrid(g, Up) != g;
    }
  }

  /** The pair test holds nowhere in the grid if it holds nowhere along any row or column. */
  lemma NeighboursByLines(g: Grid)
    requires Square(g)
    requires forall r :: 0 <= r < |g| ==> NoJoinablePair(g[r])
    requires forall c :: 0 <= c < |g| ==> NoJoinablePair(Column(g, c))
    ensures NoJoinableNeighbours(g)
  {
    forall r, c | 0 <= r < |g| && 0 <= c < |g|
      ensures PairsOk(g, r, c)
    {
      assert NoJoinablePair(g[r]);
      assert NoJoinablePair(Column(g, c));
      if r < |g| - 1 {
        assert Column(g, c)[r] == g[r][c] && Column(g, c)[r + 1] == g[r + 1][c];
      }
    }
  }

  /** The game-over test never misses a dead end: a full grid that no move changes
      is reported as over. */
  lemma FrozenFullGridIsStuck(g: Grid)
    requires Square(g) && Full(g) && Frozen(g)
    ensures Stuck(g)
  {
    FullGridFrozenIff(g);
    forall r | 0 <= r < |g|
      ensures NoJoinablePair(g[r])
    {
      assert NoMergeablePair(g[r]);
    }
    forall c | 0 <= c < |g|
      ensures NoJoinablePair(Column(g, c))
    {
      assert NoMergeablePair(Column(g, c));
    }
    NeighboursByLines(g);
  }

  /** A full 6x6 checkerboard of 5 and 7 with a 21 in the corner. */
  function TripleBoard(): (g: Grid)
    ensures |g| == 6 && Square(g)
  {
    [[21, 7, 5, 7, 5, 7],
     [7, 5, 7, 5, 7, 5],
     [5, 7, 5, 7, 5, 7],
     [7, 5, 7, 5, 7, 5],
     [5, 7, 5, 7, 5, 7],
     [7, 5, 7, 5, 7, 5]]
  }

  /** A line of non-empty tiles alternating between `x` and `y`, which fail the pair test. */
  lemma AlternatingLine(s: seq<int>, x: int, y: int)
    requires x != 0 && y != 0 && !Joinable(x, y) && !Joinable(y, x)
    requires s == [x, y, x, y, x, y]
    ensures ZeroFree(s) && NoJoinablePair(s)
  {
    forall i | 0 <= i < |s| - 1
      ensures !Joinable(s[i], s[i + 1])
    {
      if i % 2 == 0 {
        assert s[i] == x && s[i + 1] == y;
      } else {
        assert s[i] == y && s[i + 1] == x;
      }
    }
  }

  lemma TopLine()
    ensures ZeroFree([21, 7, 5, 7, 5, 7]) && NoJoinablePair([21, 7, 5, 7, 5, 7])
  {
    var t, a := [21, 7, 5, 7, 5, 7], [7, 5, 7, 5, 7, 5];
    AlternatingLine(a, 7, 5);
    forall i | 0 <= i < |t| - 1
      ensures !Joinable(t[i], t[i + 1])
    {
      if i > 0 {
        assert t[i] == a[i - 1] && t[i + 1] == a[i];
      }
    }
  }

  lemma TripleLines()
    ensures var t, a, b := [21, 7, 5, 7, 5, 7], [7, 5, 7, 5, 7, 5], [5, 7, 5, 7, 5, 7];
      ZeroFree(t) && ZeroFree(a) && ZeroFree(b) &&
      NoJoinablePair(t) && NoJoinablePair(a) && NoJoinablePair(b)
  {
    AlternatingLine([7, 5, 7, 5, 7, 5], 7, 5);
    AlternatingLine([5, 7, 5, 7, 5, 7], 5, 7);
    TopLine();
  }

  lemma TripleBoardIsStuck()
    ensures Stuck(TripleBoard())
  {
    var g := TripleBoard();
    var t, a, b := [21, 7, 5, 7, 5, 7], [7, 5, 7, 5, 7, 5], [5, 7, 5, 7, 5, 7];
    TripleLines();
    assert g == [t, a, b, a, b, a];
    forall r | 0 <= r < 6
      ensures ZeroFree(g[r]) && NoJoinablePair(g[r])
    {
      if r == 0 {
      } else if r % 2 == 1 {
        assert g[r] == a;
      } else {
        assert g[r] == b;
      }
    }
    forall c | 0 <= c < 6
      ensures NoJoinablePair(Column(g, c))
    {
      if c == 0 {
        assert Column(g, c) == t;
      } else if c == 1 || c == 3 || c == 5 {
        assert Column(g, c) == a;
      } else {
        assert Column(g, c) == b;
      }
    }
    NeighboursByLines(g);
    forall r, c | 0 <= r < 6 && 0 <= c < 6
      ensures g[r][c] != 0
    {
      assert ZeroFree(g[r]);
    }
  }

  /** The game-over test is narrower than the merge rule: on this full grid no two
      neighbours are equal or in ratio 2, so the game is reported as over, yet 21 is
      three times its neighbour 7 and moving left still merges them. */
  lemma StuckMissesTripleMerge()
    ensures Stuck(TripleBoard()) && !Frozen(TripleBoard()) && MoveGrid(TripleBoard(), Left) != TripleBoard()
  {
    var g := TripleBoard();
    TripleBoardIsStuck();
    assert !NoMergeablePair(g[0]) by {
      assert Mergeable(g[0][0], g[0][0 + 1]);
    }
    FullGridFrozenIff(g);
    LineNeighbours(g, Left, 0);
    SlideChangesMergeableLine(g[0], 6);
    MoveLines(g, Left, 0);
  }

  // ---------------------------------------------------------------------------
  // Spawning a tile

  /** The empty cells of row `x` left of column `k`, left to right. */
  function EmptyInRow(g: Grid, x: nat, k: nat): (e: seq<Cell>)
    requires Square(g) && x < |g| && k <= |g|
    ensures forall t :: 0 <= t < |e| ==> e[t].x == x && e[t].y < k && g[x][e[t].y] == 0
  {
    if k == 0 then []
    else EmptyInRow(g, x, k - 1) + (if g[x][k - 1] == 0 then [Cell(x, k - 1)] else [])
  }

  /** The empty cells of the rows above row `k`, row by row. */
  function EmptyBefore(g: Grid, k: nat): (e: seq<Cell>)
    requires Square(g) && k <= |g|
    ensures forall t :: 0 <= t < |e| ==> e[t].x < k && e[t].y < |g| && g[e[t].x][e[t].y] == 0
  {
    if k == 0 then [] else EmptyBefore(g, k - 1) + EmptyInRow(g, k - 1, |g|)
  }

  /** The `emptyCells` list of `addNewTile`: every empty cell, in row-major order. */
  function EmptyCells(g: Grid): (e: seq<Cell>)
    requires Square(g)
    ensures forall t :: 0 <= t < |e| ==> e[t].x < |g| && e[t].y < |g| && g[e[t].x][e[t].y] == 0
  {
    EmptyBefore(g, |g|)
  }

  lemma {:induction false} EmptyInRowComplete(g: Grid, x: nat, y: nat, k: nat)
    requires Square(g) && x < |g| && y < k <= |g| && g[x][y] == 0
    ensures Cell(x, y) in EmptyInRow(g, x, k)
  {
    var last := if g[x][k - 1] == 0 then [Cell(x, k - 1)] else [];
    assert EmptyInRow(g, x, k) == EmptyInRow(g, x, k - 1) + last;
    if y < k - 1 {
      EmptyInRowComplete(g, x, y, k - 1);
    } else {
      assert Cell(x, y) in last;
    }
  }

  lemma {:induction false} EmptyBeforeComplete(g: Grid, x: nat, y: nat, k: nat)
    requires Square(g) && x < k <= |g| && y < |g| && g[x][y] == 0
    ensures Cell(x, y) in EmptyBefore(g, k)
  {
    if x < k - 1 {
      EmptyBeforeComplete(g, x, y, k - 1);
      EmptyBeforeGrows(g, k, Cell(x, y));
    } else {
      EmptyRowInBefore(g, x, y, k);
    }
  }

  lemma EmptyBeforeGrows(g: Grid, k: nat, p: Cell)
    requires Square(g) && 0 < k <= |g| && p in EmptyBefore(g, k - 1)
    ensures p in EmptyBefore(g, k)
  {
    assert EmptyBefore(g, k) == EmptyBefore(g, k - 1) + EmptyInRow(g, k - 1, |g|);
  }

  lemma EmptyRowInBefore(g: Grid, x: nat, y: nat, k: nat)
    requires Square(g) && k == x + 1 <= |g| && y < |g| && g[x][y] == 0
    ensures Cell(x, y) in EmptyBefore(g, k)
  {
    EmptyInRowComplete(g, x, y, |g|);
    assert EmptyBefore(g, k) == EmptyBefore(g, x) + EmptyInRow(g, x, |g|);
  }

  /** The list holds every empty cell and nothing else. */
  lemma EmptyCellsExact(g: Grid, p: Cell)
    requires Square(g)
    ensures p in EmptyCells(g) <==> p.x < |g| && p.y < |g| && g[p.x][p.y] == 0
  {
    if p.x < |g| && p.y < |g| && g[p.x][p.y] == 0 {
      EmptyBeforeComplete(g, p.x, p.y, |g|);
    }
  }

  /** The list is empty exactly when the grid is full. */
  lemma NoEmptyCellsIffFull(g: Grid)
    requires Square(g)
    ensures |EmptyCells(g)| == 0 <==> Full(g)
  {
    if |EmptyCells(g)| > 0 {
      var p := EmptyCells(g)[0];
      assert g[p.x][p.y] == 0;
    }
    if !Full(g) {
      var r, c :| 0 <= r < |g| && 0 <= c < |g| && g[r][c] == 0;
      EmptyCellsExact(g, Cell(r, c));
    }
  }

  /** The tile `addNewTile` places: 2 when the coin comes up, 1 otherwise. */
  function SpawnValue(coin: bool): int
  {
    if coin then 2 else 1
  }

  /** `addNewTile` with its two random draws as parameters: the cell is entry
      `draw % |emptyCells|` of the empty-cell list, the value comes from `coin`. */
  function Spawn(g: Grid, draw: nat, coin: bool): (h: Grid)
    requires Square(g)
    ensures |h| == |g| && Square(h)
  {
    var e := EmptyCells(g);
    if |e| == 0 then g
    else
      var p := e[draw % |e|];
      g[p.x := g[p.x][p.y := SpawnValue(coin)]]
  }

  /** A full grid is left as it is; otherwise exactly one cell changes, from empty to
      1 or 2. */
  lemma SpawnChangesOneEmptyCell(g: Grid, draw: nat, coin: bool)
    requires Square(g)
    ensures Full(g) ==> Spawn(g, draw, coin) == g
    ensures !Full(g) ==> |EmptyCells(g)| > 0
    ensures |EmptyCells(g)| > 0 ==>
      var p := EmptyCells(g)[draw % |EmptyCells(g)|];
      var h := Spawn(g, draw, coin);
      g[p.x][p.y] == 0 && (h[p.x][p.y] == 1 || h[p.x][p.y] == 2) &&
      forall r, c :: 0 <= r < |g| && 0 <= c < |g| && (r != p.x || c != p.y) ==> h[r][c] == g[r][c]
  {
    NoEmptyCellsIffFull(g);
  }

  lemma SpawnKeepsNonNegative(g: Grid, draw: nat, coin: bool)
    requires Square(g) && NonNegativeGrid(g)
    ensures NonNegativeGrid(Spawn(g, draw, coin))
  {
    var h := Spawn(g, draw, coin);
    forall r | 0 <= r < |g|
      ensures NonNegative(h[r])
    {
    }
  }
}
