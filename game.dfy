/** The `Game` class of game.js: a `size` x `size` grid of tiles, a running score and
    the game-over flag, changed step by step by its methods. The grid, an array of
    rows in the program, is a field holding a sequence of rows that the methods
    reassign. Every method is proved against the grid functions of module Grids and
    the line functions of module Lines. */
module GameEngine {
  import opened Lines
  import opened Grids
  import opened Factors

  /** The up and down cases of the second switch of `move`: cell `r` of `line` goes
      to row `r` of column `c`, the other cells stay. */
  method PutColumn(g: Grid, c: nat, line: seq<int>) returns (h: Grid)
    requires Square(g) && c < |g| && |line| == |g|
    ensures |h| == |g| && Square(h)
    ensures forall r, k :: 0 <= r < |g| && 0 <= k < |g| ==>
      h[r][k] == if k == c then line[r] else g[r][k]
  {
    h := g;
    var j := 0;
    while j < |g|
      invariant 0 <= j <= |g| && |h| == |g| && Square(h)
      invariant forall r, k :: 0 <= r < |g| && 0 <= k < |g| ==>
        h[r][k] == if k == c && r < j then line[r] else g[r][k]
    {
      h := h[j := h[j][c := line[j]]];
      j := j + 1;
    }
  }

  /** The second switch of `move`: the moved line `line` goes back to where line `i`
      came from, reversed again for right and down; the other lines stay. */
  method PutLine(g: Grid, d: Direction, i: nat, line: seq<int>) returns (h: Grid)
    requires Square(g) && i < |g| && |line| == |g|
    ensures |h| == |g| && Square(h)
    ensures LineOf(h, d, i) == line
    ensures forall k :: 0 <= k < |g| && k != i ==> LineOf(h, d, k) == LineOf(g, d, k)
  {
    match d {
      case Left =>
        h := g[i := line];
      case Right =>
        h := g[i := Reverse(line)];
        ReverseReverse(line);
      case Up =>
        h := PutColumn(g, i, line);
        SameColumns(g, h, i);
        assert Column(h, i) == line;
      case Down =>
        h := PutColumn(g, i, Reverse(line));
        SameColumns(g, h, i);
        assert Column(h, i) == Reverse(line);
        ReverseReverse(line);
    }
    forall k | 0 <= k < |g| && k != i
      ensures LineOf(h, d, k) == LineOf(g, d, k)
    {
      if d == Left || d == Right {
        assert h[k] == g[k];
      } else {
        assert Column(h, k) == Column(g, k);
      }
    }
  }

  /** Columns other than `i` that agree cell by cell are the same column. */
  lemma SameColumns(g: Grid, h: Grid, i: nat)
    requires Square(g) && Square(h) && |g| == |h| && i < |g|
    requires forall r, k :: 0 <= r < |g| && 0 <= k < |g| && k != i ==> h[r][k] == g[r][k]
    ensures forall k :: 0 <= k < |g| && k != i ==> Column(h, k) == Column(g, k)
  {
  }

  /** The last loop of `moveAndMerge`: empty cells appended until the line is `n` long. */
  method PadZeros(s: seq<int>, n: nat) returns (line: seq<int>)
    ensures line == Pad(s, n)
  {
    line := s;
    while |line| < n
      invariant |s| <= |line|
      invariant line == s + Zeros(|line| - |s|)
      invariant |line| <= n || line == s
    {
      line := line + [0];
    }
  }

  /** One merge in `moveAndMerge`: the pair at `i` becomes its sum and the line
      shrinks by one, as the first step of `Merged` on the rest of the line. */
  lemma JoinStep(line: seq<int>, i: nat, next: seq<int>)
    requires i + 1 < |line| && Mergeable(line[i], line[i + 1])
    requires next == line[..i] + [line[i] + line[i + 1]] + line[i + 2..]
    ensures next[..i + 1] + Merged(next[i + 1..]) == line[..i] + Merged(line[i..])
    ensures MergeGain(line[i..]) == next[i] + MergeGain(next[i + 1..])
  {
    var rest, tail := line[i..], line[i + 2..];
    var sum := line[i] + line[i + 1];
    assert rest[0] == line[i] && rest[1] == line[i + 1] && rest[2..] == tail;
    assert Merged(rest) == [sum] + Merged(tail);
    assert MergeGain(rest) == sum + MergeGain(tail);
    assert next[i + 1..] == tail && next[..i + 1] == line[..i] + [sum];
    assert line[..i] + [sum] + Merged(tail) == line[..i] + ([sum] + Merged(tail));
  }

  /** A pair that does not merge: the tile at `i` stays, as in `Merged`. */
  lemma KeepStep(line: seq<int>, i: nat)
    requires i + 1 < |line| && !Mergeable(line[i], line[i + 1])
    ensures line[..i + 1] + Merged(line[i + 1..]) == line[..i] + Merged(line[i..])
    ensures MergeGain(line[i..]) == MergeGain(line[i + 1..])
  {
    assert line[i..][1..] == line[i + 1..];
    assert line[..i + 1] == line[..i] + [line[i]];
  }

  /** Dividing a factor `p` out of `x` and into `q`. */
  lemma DivideOut(q: int, x: int, p: int)
    requires p > 0 && x % p == 0
    ensures q * x == (p * q) * (x / p)
  {
    var k := x / p;
    assert x == p * k;
    MulAssoc(q, p, k);
    MulAssoc(p, q, k);
  }

  /** An odd multiple of 3 divided by 3 is still odd. */
  lemma OddThird(n: int)
    requires n % 3 == 0 && n % 2 != 0
    ensures (n / 3) % 2 != 0
  {
    var k := n / 3;
    var h, r := k / 2, k % 2;
    assert n == 3 * k && k == 2 * h + r;
    assert n == 2 * (3 * h + r) + r;
  }

  class Game {
    const size: nat
    var grid: Grid
    var score: int
    var gameOver: bool

    /** The grid is `size` x `size` with no negative cell, and the score is not negative. */
    ghost predicate Valid()
      reads this`grid, this`score
    {
      |grid| == size && Square(grid) && NonNegativeGrid(grid) && score >= 0
    }

    /** `new Game()`: a 6 x 6 game started by `init`; the four parameters are the
        random draws of its two `addNewTile` calls. */
    constructor (draw1: nat, coin1: bool, draw2: nat, coin2: bool)
      ensures Valid() && size == 6
      ensures grid == Spawn(Spawn(EmptyGrid(6), draw1, coin1), draw2, coin2)
      ensures score == 0 && !gameOver
    {
      size := 6;
      grid := [];
      score := 0;
      gameOver := false;
      new;
      Init(draw1, coin1, draw2, coin2);
    }

    /** `init`: an empty grid, score 0, the game running, then two new tiles. */
    method Init(draw1: nat, coin1: bool, draw2: nat, coin2: bool)
      modifies this
      ensures Valid()
      ensures grid == Spawn(Spawn(EmptyGrid(size), draw1, coin1), draw2, coin2)
      ensures score == 0 && !gameOver
    {
      grid := EmptyGrid(size);
      score := 0;
      gameOver := false;
      AddNewTile(draw1, coin1);
      AddNewTile(draw2, coin2);
    }

    /** `addNewTile`: collects the empty cells row by row and puts a 1 or a 2 into
        entry `draw % |emptyCells|`; a full grid is left as it is. */
    method AddNewTile(draw: nat, coin: bool)
      requires Valid()
      modifies this`grid
      ensures Valid()
      ensures grid == Spawn(old(grid), draw, coin)
    {
      var emptyCells: seq<Cell> := [];
      var i := 0;
      while i < size
        invariant 0 <= i <= size
        invariant emptyCells == EmptyBefore(grid, i)
      {
        var j := 0;
        while j < size
          invariant 0 <= j <= size
          invariant emptyCells == EmptyBefore(grid, i) + EmptyInRow(grid, i, j)
        {
          if grid[i][j] == 0 {
            emptyCells := emptyCells + [Cell(i, j)];
          }
          j := j + 1;
        }
        i := i + 1;
      }
      SpawnKeepsNonNegative(grid, draw, coin);
      if |emptyCells| > 0 {
        var cell := emptyCells[draw % |emptyCells|];
        var value := SpawnValue(coin);
        grid := grid[cell.x := grid[cell.x][cell.y := value]];
      }
    }

    /** `moveAndMerge`: drops the empty cells, makes one left-to-right merge pass that
        adds every merged value to the score, and pads the line with empty cells. */
    method MoveAndMerge(input: seq<int>) returns (line: seq<int>)
      modifies this`score
      ensures line == Slide(input, size)
      ensures score == old(score) + LineGain(input)
    {
      line := Compact(input);
      ghost var tiles := line;
      var i := 0;
      while i < |line| - 1
        invariant 0 <= i <= |line|
        invariant line[..i] + Merged(line[i..]) == Merged(tiles)
        invariant score + MergeGain(line[i..]) == old(score) + MergeGain(tiles)
        decreases |line| - i
      {
        if Mergeable(line[i], line[i + 1]) {
          ghost var before := line;
          line := line[i := line[i] + line[i + 1]];
          score := score + line[i];
          line := line[..i + 1] + line[i + 2..];
          assert line == before[..i] + [before[i] + before[i + 1]] + before[i + 2..];
          JoinStep(before, i, line);
        } else {
          KeepStep(line, i);
        }
        i := i + 1;
      }
      assert line[..i] + line[i..] == line;
      line := PadZeros(line, size);
    }

    /** `move(direction)`: the moved grid is built in a copy of the grid; the copy
        replaces the grid only when it differs, and the result says whether it did. */
    method Move(d: Direction) returns (moved: bool)
      requires Valid()
      modifies this`grid, this`score
      ensures Valid()
      ensures moved <==> MoveGrid(old(grid), d) != old(grid)
      ensures grid == if moved then MoveGrid(old(grid), d) else old(grid)
      ensures score == old(score) + MoveGain(old(grid), d)
      ensures !moved ==> score == old(score)
    {
      ghost var g := grid;
      var newGrid := MoveAllLines(d);
      MoveKeepsNonNegative(g, d);
      moved := grid != newGrid;
      if moved {
        grid := newGrid;
      } else {
        UnchangedMoveScoresNothing(g, d);
      }
    }

    /** The loop of `move`: every line `i`, pulled out of the grid in the order of
        travel, is moved by `moveAndMerge` and written back into the copy `newGrid`;
        the score rises by the merges of all lines. */
    method MoveAllLines(d: Direction) returns (newGrid: Grid)
      requires Valid()
      modifies this`score
      ensures newGrid == MoveGrid(grid, d)
      ensures score == old(score) + MoveGain(grid, d)
    {
      ghost var g := grid;
      ghost var ls := AllLines(g, d);
      newGrid := grid;
      var i := 0;
      while i < size
        invariant 0 <= i <= size
        invariant |newGrid| == size && Square(newGrid)
        invariant score == old(score) + TotalGain(ls[..i])
        invariant MovedUpTo(g, newGrid, d, i)
      {
        ghost var before := newGrid;
        newGrid := MoveLine(newGrid, d, i);
        MovedStep(g, before, newGrid, d, i);
        TotalGainStep(ls, i);
        i := i + 1;
      }
      assert ls[..size] == ls;
      MovedByLines(g, newGrid, d);
    }

    /** One turn of the loop of `move`: line `i` of the grid is pulled out, moved by
        `moveAndMerge`, and put into the copy `newGrid`. */
    method MoveLine(newGrid: Grid, d: Direction, i: nat) returns (h: Grid)
      requires |grid| == size && Square(grid) && i < size
      requires |newGrid| == size && Square(newGrid)
      modifies this`score
      ensures |h| == size && Square(h)
      ensures LineOf(h, d, i) == Slide(LineOf(grid, d, i), size)
      ensures forall k :: 0 <= k < size && k != i ==> LineOf(h, d, k) == LineOf(newGrid, d, k)
      ensures score == old(score) + LineGain(LineOf(grid, d, i))
    {
      var line := LineOf(grid, d, i);
      var merged := MoveAndMerge(line);
      h := PutLine(newGrid, d, i, merged);
    }

    /** `isGameOver`: false at the first empty cell, then false at the first cell that
        is equal to, twice, or half the cell to its right or below it; true otherwise. */
    method IsGameOver() returns (over: bool)
      requires Valid()
      ensures over == Stuck(grid)
    {
      ghost var g := grid;
      for i := 0 to size
        invariant forall r, c :: 0 <= r < i && 0 <= c < size ==> g[r][c] != 0
      {
        for j := 0 to size
          invariant forall r, c :: 0 <= r < i && 0 <= c < size ==> g[r][c] != 0
          invariant forall c :: 0 <= c < j ==> g[i][c] != 0
        {
          if grid[i][j] == 0 {
            return false;
          }
        }
      }
      for i := 0 to size
        invariant forall r, c :: 0 <= r < i && 0 <= c < size ==> PairsOk(g, r, c)
      {
        for j := 0 to size
          invariant forall r, c :: 0 <= r < i && 0 <= c < size ==> PairsOk(g, r, c)
          invariant forall c :: 0 <= c < j ==> PairsOk(g, i, c)
        {
          var current := grid[i][j];
          if j < size - 1 {
            var right := grid[i][j + 1];
            if current == right || current * 2 == right || current == right * 2 {
              assert !PairsOk(g, i, j);
              return false;
            }
          }
          if i < size - 1 {
            var down := grid[i + 1][j];
            if current == down || current * 2 == down || current == down * 2 {
              assert !PairsOk(g, i, j);
              return false;
            }
          }
        }
      }
      return true;
    }

    /** The keydown handler: nothing once the game is over; otherwise a move, and
        after a move that changed the grid a new tile and the game-over test. */
    method HandleKey(d: Direction, draw: nat, coin: bool)
      requires Valid()
      modifies this
      ensures Valid()
      ensures old(gameOver) ==> gameOver && grid == old(grid) && score == old(score)
      ensures !old(gameOver) ==> score == old(score) + MoveGain(old(grid), d)
      ensures !old(gameOver) && MoveGrid(old(grid), d) == old(grid) ==>
        grid == old(grid) && !gameOver
      ensures !old(gameOver) && MoveGrid(old(grid), d) != old(grid) ==>
        grid == Spawn(MoveGrid(old(grid), d), draw, coin) && gameOver == Stuck(grid)
    {
      if gameOver {
        return;
      }
      ghost var g := grid;
      var moved := Move(d);
      if moved {
        ghost var m := grid;
        AfterMove(draw, coin);
        assert m == MoveGrid(g, d) != g;
      } else {
        assert grid == g == MoveGrid(g, d);
      }
    }

    /** What the keydown handler does after a move that changed the grid: a new tile,
        then `showGameOver` if `isGameOver` holds. */
    method AfterMove(draw: nat, coin: bool)
      requires Valid() && !gameOver
      modifies this`grid, this`gameOver
      ensures Valid()
      ensures grid == Spawn(old(grid), draw, coin) && gameOver == Stuck(grid)
    {
      AddNewTile(draw, coin);
      var over := IsGameOver();
      if over {
        ShowGameOver();
      }
    }

    /** `showGameOver`: the game is over from now on. */
    method ShowGameOver()
      modifies this`gameOver
      ensures gameOver
    {
      gameOver := true;
    }

    /** `getPrimeFactors(num)`: the number of factors 2 and then of factors 3 divided
        out of `num`; (0, 0) for `num <= 1`. */
    method GetPrimeFactors(num: int) returns (twos: nat, threes: nat)
      ensures num <= 1 ==> twos == 0 && threes == 0
      ensures num > 1 ==>
        var d := Pow(2, twos) * Pow(3, threes);
        d > 0 && num % d == 0 && (num / d) % 2 != 0 && (num / d) % 3 != 0
    {
      if num <= 1 {
        return 0, 0;
      }
      twos, threes := 0, 0;
      var n := num;
      while n % 2 == 0
        invariant n >= 1 && num == Pow(2, twos) * n
        decreases n
      {
        DivideOut(Pow(2, twos), n, 2);
        twos := twos + 1;
        n := n / 2;
      }
      while n % 3 == 0
        invariant n >= 1 && n % 2 != 0 && num == Pow(2, twos) * (Pow(3, threes) * n)
        decreases n
      {
        DivideOut(Pow(3, threes), n, 3);
        OddThird(n);
        threes := threes + 1;
        n := n / 3;
      }
      MulAssoc(Pow(2, twos), Pow(3, threes), n);
      MulBounds(Pow(2, twos), Pow(3, threes));
      MulDiv(Pow(2, twos) * Pow(3, threes), n);
    }
  }
}
