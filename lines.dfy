/** The line transform of a move (the inner `moveAndMerge` of `Game.move`): a line of
    cells, read in the direction of travel, loses its empty cells, goes through one
    greedy left-to-right merge pass, and is padded with empty cells back to the grid
    size. An empty cell is the value 0. */
module Lines {

  /** Total tile value of a line. */
  function Sum(s: seq<int>): int
  {
    if s == [] then 0 else s[0] + Sum(s[1..])
  }

  /** `k` empty cells. */
  function Zeros(k: nat): (z: seq<int>)
    ensures |z| == k && forall i :: 0 <= i < k ==> z[i] == 0
  {
    seq(k, _ => 0)
  }

  /** The cells of `s` in the opposite order. */
  function Reverse<T>(s: seq<T>): (r: seq<T>)
    ensures |r| == |s| && forall i :: 0 <= i < |s| ==> r[i] == s[|s| - 1 - i]
  {
    seq(|s|, i requires 0 <= i < |s| => s[|s| - 1 - i])
  }

  predicate ZeroFree(s: seq<int>)
  {
    forall i :: 0 <= i < |s| ==> s[i] != 0
  }

  predicate NonNegative(s: seq<int>)
  {
    forall i :: 0 <= i < |s| ==> s[i] >= 0
  }

  predicate Positive(s: seq<int>)
  {
    forall i :: 0 <= i < |s| ==> s[i] > 0
  }

  /** `line.filter((cell) => cell !== 0)`: the tiles of the line in their order. */
  function Compact(s: seq<int>): (c: seq<int>)
    ensures |c| <= |s| && ZeroFree(c)
    ensures NonNegative(s) ==> Positive(c)
  {
    if s == [] then []
    else if s[0] == 0 then Compact(s[1..])
    else [s[0]] + Compact(s[1..])
  }

  /** The merge rule: one of two adjacent tiles equals the other, or is twice,
      three times or eight times the other. */
  function Mergeable(a: int, b: int): (m: bool)
    ensures m ==> (a == 0 <==> b == 0)
  {
    a == b || a == 2 * b || a * 2 == b || a == 3 * b || a * 3 == b || a == 8 * b || a * 8 == b
  }

  /** No two neighbours of `s` satisfy the merge rule. */
  predicate NoMergeablePair(s: seq<int>)
  {
    forall i :: 0 <= i < |s| - 1 ==> !Mergeable(s[i], s[i + 1])
  }

  /** The single greedy merge pass over compacted tiles: a pair that merges becomes
      its sum, and the scan resumes after the pair, so a merged tile never takes
      part in a second merge of the same pass. */
  function Merged(s: seq<int>): (r: seq<int>)
    ensures |r| <= |s| <= 2 * |r|
  {
    if |s| < 2 then s
    else if Mergeable(s[0], s[1]) then [s[0] + s[1]] + Merged(s[2..])
    else [s[0]] + Merged(s[1..])
  }

  /** What the merge pass adds to the score: the sum of the merged values. */
  function MergeGain(s: seq<int>): int
  {
    if |s| < 2 then 0
    else if Mergeable(s[0], s[1]) then (s[0] + s[1]) + MergeGain(s[2..])
    else MergeGain(s[1..])
  }

  /** Pads `s` with empty cells up to length `n`. */
  function Pad(s: seq<int>, n: nat): (r: seq<int>)
    ensures |s| <= n ==> |r| == n
  {
    if |s| < n then s + Zeros(n - |s|) else s
  }

  /** The whole line transform for a grid of size `n`. */
  function Slide(line: seq<int>, n: nat): (r: seq<int>)
    ensures |line| <= n ==> |r| == n
  {
    Pad(Merged(Compact(line)), n)
  }

  /** What moving one line adds to the score. */
  function LineGain(line: seq<int>): int
  {
    MergeGain(Compact(line))
  }

  // ---------------------------------------------------------------------------
  // Sums

  lemma {:induction false} SumAppend(s: seq<int>, t: seq<int>)
    ensures Sum(s + t) == Sum(s) + Sum(t)
  {
    if s == [] {
      assert s + t == t;
    } else {
      assert (s + t)[1..] == s[1..] + t;
      SumAppend(s[1..], t);
    }
  }

  lemma {:induction false} SumZeros(k: nat)
    ensures Sum(Zeros(k)) == 0
  {
    if k > 0 {
      assert Zeros(k)[1..] == Zeros(k - 1);
      SumZeros(k - 1);
    }
  }

  lemma ReverseReverse<T>(s: seq<T>)
    ensures Reverse(Reverse(s)) == s
  {
  }

  lemma {:induction false} SumReverse(s: seq<int>)
    ensures Sum(Reverse(s)) == Sum(s)
  {
    if s != [] {
      assert Reverse(s) == Reverse(s[1..]) + [s[0]];
      SumAppend(Reverse(s[1..]), [s[0]]);
      SumReverse(s[1..]);
    }
  }

  // ---------------------------------------------------------------------------
  // Compaction

  /** Compaction is a filter: it distributes over concatenation, drops empty
      cells and keeps tiles. */
  lemma {:induction false} CompactAppend(s: seq<int>, t: seq<int>)
    ensures Compact(s + t) == Compact(s) + Compact(t)
  {
    if s == [] {
      assert s + t == t;
    } else {
      assert (s + t)[0] == s[0];
      assert (s + t)[1..] == s[1..] + t;
      CompactAppend(s[1..], t);
    }
  }

  lemma {:induction false} CompactKeepsTiles(s: seq<int>)
    requires ZeroFree(s)
    ensures Compact(s) == s
  {
    if s != [] {
      CompactKeepsTiles(s[1..]);
    }
  }

  lemma {:induction false} CompactZeros(k: nat)
    ensures Compact(Zeros(k)) == []
  {
    if k > 0 {
      assert Zeros(k)[1..] == Zeros(k - 1);
      CompactZeros(k - 1);
    }
  }

  lemma {:induction false} CompactSum(s: seq<int>)
    ensures Sum(Compact(s)) == Sum(s)
  {
    if s != [] {
      CompactSum(s[1..]);
      if s[0] != 0 {
        assert ([s[0]] + Compact(s[1..]))[1..] == Compact(s[1..]);
      }
    }
  }

  // ---------------------------------------------------------------------------
  // The merge pass

  /** Merging conserves the total tile value: every merged tile is the sum of the pair. */
  lemma {:induction false} MergedSum(s: seq<int>)
    ensures Sum(Merged(s)) == Sum(s)
  {
    if |s| >= 2 {
      if Mergeable(s[0], s[1]) {
        MergedSum(s[2..]);
        assert s[1..][1..] == s[2..];
        assert ([s[0] + s[1]] + Merged(s[2..]))[1..] == Merged(s[2..]);
      } else {
        MergedSum(s[1..]);
        assert ([s[0]] + Merged(s[1..]))[1..] == Merged(s[1..]);
      }
    }
  }

  /** A merge of two tiles is never empty, and of two positive tiles is positive. */
  lemma MergedTileNonZero(a: int, b: int)
    requires a != 0 && b != 0 && Mergeable(a, b)
    ensures a + b != 0
    ensures a > 0 && b > 0 ==> a + b > 0
  {
  }

  /** Merging zero-free tiles gives zero-free tiles; merging positive tiles gives
      positive tiles and a score gain that is not negative. */
  lemma {:induction false} MergedTiles(s: seq<int>)
    ensures ZeroFree(s) ==> ZeroFree(Merged(s))
    ensures Positive(s) ==> Positive(Merged(s)) && MergeGain(s) >= 0
  {
    if |s| >= 2 {
      if Mergeable(s[0], s[1]) {
        MergedTiles(s[2..]);
        if ZeroFree(s) {
          MergedTileNonZero(s[0], s[1]);
        }
      } else {
        MergedTiles(s[1..]);
      }
    }
  }

  /** A pass that does not shorten the tiles merged nothing and scored nothing. */
  lemma {:induction false} MergedSameLength(s: seq<int>)
    requires |Merged(s)| == |s|
    ensures Merged(s) == s && MergeGain(s) == 0
  {
    if |s| >= 2 {
      if Mergeable(s[0], s[1]) {
        assert false;
      } else {
        MergedSameLength(s[1..]);
        assert s == [s[0]] + s[1..];
      }
    }
  }

  /** The greedy pass leaves the tiles as they are exactly when no two neighbours
      satisfy the merge rule: as long as nothing has merged, the scan reaches every
      pair, so the first mergeable pair does merge. */
  lemma {:induction false} MergedUnchangedIff(s: seq<int>)
    ensures Merged(s) == s <==> NoMergeablePair(s)
  {
    if |s| >= 2 {
      MergedUnchangedIff(s[1..]);
      if Mergeable(s[0], s[1]) {
        assert |Merged(s)| == 1 + |Merged(s[2..])| <= |s| - 1;
        assert !NoMergeablePair(s) by {
          assert !Mergeable(s[0], s[0 + 1]) ==> false;
        }
      } else {
        assert s == [s[0]] + s[1..];
        assert Merged(s) == s <==> Merged(s[1..]) == s[1..];
        if NoMergeablePair(s) {
          assert NoMergeablePair(s[1..]) by {
            forall i | 0 <= i < |s[1..]| - 1
              ensures !Mergeable(s[1..][i], s[1..][i + 1])
            {
              assert s[1..][i] == s[i + 1] && s[1..][i + 1] == s[i + 1 + 1];
            }
          }
        }
        if NoMergeablePair(s[1..]) {
          forall i | 0 <= i < |s| - 1
            ensures !Mergeable(s[i], s[i + 1])
          {
            if i > 0 {
              assert s[i] == s[1..][i - 1] && s[i + 1] == s[1..][i];
            }
          }
        }
      }
    }
  }

  /** On positive tiles the pass scores nothing exactly when it merges nothing. */
  lemma {:induction false} GainZeroIffNoMerge(s: seq<int>)
    requires Positive(s)
    ensures MergeGain(s) == 0 <==> Merged(s) == s
  {
    if |s| >= 2 {
      if Mergeable(s[0], s[1]) {
        MergedTiles(s[2..]);
        assert MergeGain(s) > 0;
      } else {
        GainZeroIffNoMerge(s[1..]);
        assert s == [s[0]] + s[1..];
        assert Merged(s) == s <==> Merged(s[1..]) == s[1..];
      }
    }
  }

  // ---------------------------------------------------------------------------
  // The line transform

  /** A moved line has the grid's length and is a zero-free prefix, the merged tiles
      of the line, followed only by empty cells. */
  lemma SlideShape(line: seq<int>, n: nat)
    requires |line| <= n
    ensures var p := Merged(Compact(line));
      var r := Slide(line, n);
      ZeroFree(p) && |p| <= |line| && |r| == n && r[..|p|] == p &&
      forall i :: |p| <= i < n ==> r[i] == 0
  {
    MergedTiles(Compact(line));
  }

  /** Padding a zero-free line adds only empty cells. */
  lemma CompactPad(p: seq<int>, n: nat)
    requires ZeroFree(p)
    ensures Compact(Pad(p, n)) == p
  {
    CompactKeepsTiles(p);
    if |p| < n {
      CompactAppend(p, Zeros(n - |p|));
      CompactZeros(n - |p|);
      assert p + [] == p;
    }
  }

  /** The tiles left after moving a line are exactly the merged tiles, in order. */
  lemma SlideTiles(line: seq<int>, n: nat)
    ensures Compact(Slide(line, n)) == Merged(Compact(line))
  {
    MergedTiles(Compact(line));
    CompactPad(Merged(Compact(line)), n);
  }

  /** Moving a line conserves its total tile value. */
  lemma SlideSum(line: seq<int>, n: nat)
    ensures Sum(Slide(line, n)) == Sum(line)
  {
    var p := Merged(Compact(line));
    MergedSum(Compact(line));
    CompactSum(line);
    if |p| < n {
      SumAppend(p, Zeros(n - |p|));
      SumZeros(n - |p|);
    }
  }

  /** Moving a line of non-negative cells gives non-negative cells and does not lower
      the score. */
  lemma SlideNonNegative(line: seq<int>, n: nat)
    requires NonNegative(line)
    ensures NonNegative(Slide(line, n)) && LineGain(line) >= 0
  {
    MergedTiles(Compact(line));
  }

  /** A line that the move leaves as it was scored nothing. */
  lemma SlideFixedScoresNothing(line: seq<int>, n: nat)
    requires |line| == n && Slide(line, n) == line
    ensures LineGain(line) == 0
  {
    var c := Compact(line);
    SlideTiles(line, n);
    assert Merged(c) == c;
    MergedSameLength(c);
  }

  /** A full line with no mergeable neighbours is left as it is. */
  lemma SlideKeepsStableLine(line: seq<int>, n: nat)
    requires |line| == n && ZeroFree(line) && NoMergeablePair(line)
    ensures Slide(line, n) == line
  {
    CompactKeepsTiles(line);
    MergedUnchangedIff(line);
  }

  /** A full line with a mergeable pair of neighbours is changed by the move: it
      ends in an empty cell. */
  lemma SlideChangesMergeableLine(line: seq<int>, n: nat)
    requires |line| == n && ZeroFree(line) && !NoMergeablePair(line)
    ensures Slide(line, n) != line && Slide(line, n)[n - 1] == 0
  {
    CompactKeepsTiles(line);
    MergedUnchangedIff(line);
    if |Merged(line)| == |line| {
      MergedSameLength(line);
    }
    var p := Merged(line);
    assert |p| < n;
    assert Slide(line, n) == p + Zeros(n - |p|);
    assert (p + Zeros(n - |p|))[n - 1] == Zeros(n - |p|)[n - 1 - |p|];
    assert line[n - 1] != 0;
  }

  /** A line already in its moved form: its tiles come first, then only empty
      cells, and no two neighbouring tiles satisfy the merge rule. */
  predicate Settled(line: seq<int>)
  {
    line == Pad(Compact(line), |line|) && NoMergeablePair(Compact(line))
  }

  /** A move leaves a line unchanged exactly when the line is already settled, and
      then it scores nothing. */
  lemma SlideFixedIff(line: seq<int>, n: nat)
    requires |line| == n
    ensures Slide(line, n) == line <==> Settled(line)
    ensures Settled(line) ==> LineGain(line) == 0
  {
    var c := Compact(line);
    MergedUnchangedIff(c);
    if Slide(line, n) == line {
      SlideTiles(line, n);
      assert Merged(c) == c;
    }
    if Settled(line) {
      assert Slide(line, n) == line;
      SlideFixedScoresNothing(line, n);
    }
  }

  /** Two tiles alone in a line: they end up as one tile, their sum, exactly when the
      merge rule holds, and the sum is what the move scores. */
  /** Three equal tiles: the first two merge and the third stays as it is. */
  lemma SlideThreeEqual(a: int, n: nat)
    requires a != 0 && n >= 3
    ensures Slide([a, a, a] + Zeros(n - 3), n) == [a + a, a] + Zeros(n - 2)
    ensures LineGain([a, a, a] + Zeros(n - 3)) == a + a
  {
    CompactAppend([a, a, a], Zeros(n - 3));
    CompactZeros(n - 3);
    CompactKeepsTiles([a, a, a]);
    assert Compact([a, a, a] + Zeros(n - 3)) == [a, a, a];
    assert [a, a, a][2..] == [a];
    assert Merged([a, a, a]) == [a + a, a];
    assert MergeGain([a, a, a]) == a + a;
  }

  lemma SlideTwoTiles(a: int, b: int, n: nat)
    requires a != 0 && b != 0 && n >= 2
    ensures Slide([a, b] + Zeros(n - 2), n) ==
      (if Mergeable(a, b) then [a + b] + Zeros(n - 1) else [a, b] + Zeros(n - 2))
    ensures LineGain([a, b] + Zeros(n - 2)) == (if Mergeable(a, b) then a + b else 0)
  {
    CompactAppend([a, b], Zeros(n - 2));
    CompactZeros(n - 2);
    assert Compact([a, b]) == [a, b] by {
      assert [a, b][1..] == [b];
    }
    assert Compact([a, b] + Zeros(n - 2)) == [a, b];
    assert [a, b][2..] == [];
    assert [a, b][1..] == [b];
    if Mergeable(a, b) {
      assert Merged([a, b]) == [a + b];
      assert MergeGain([a, b]) == a + b + MergeGain([]);
      assert [a + b] + Zeros(n - 1 - 1) + [0] == [a + b] + Zeros(n - 1);
    } else {
      assert Merged([a, b]) == [a, b];
      assert MergeGain([a, b]) == MergeGain([b]);
    }
  }

  /** A settled line with empty cells: 2, 5 moved left stays where it is. */
  lemma SettledExample()
    ensures Settled([2, 5, 0, 0, 0, 0]) && Slide([2, 5, 0, 0, 0, 0], 6) == [2, 5, 0, 0, 0, 0]
  {
    SlideTwoTiles(2, 5, 6);
    assert [2, 5, 0, 0, 0, 0] == [2, 5] + Zeros(4);
    SlideFixedIff([2, 5, 0, 0, 0, 0], 6);
  }

  /** On positive tiles the score of the merge pass is between 0 and the line's
      total: it adds only tiles that were merged. */
  lemma {:induction false} MergeGainBounds(s: seq<int>)
    requires Positive(s)
    ensures 0 <= MergeGain(s) <= Sum(s)
  {
    if |s| >= 2 {
      assert s[1..][1..] == s[2..];
      if Mergeable(s[0], s[1]) {
        MergeGainBounds(s[2..]);
      } else {
        MergeGainBounds(s[1..]);
      }
    } else if |s| == 1 {
      assert s[1..] == [];
    }
  }

  /** The merge pass is single-pass: in 2,2,2 the first pair merges into 4 and that 4
      does not merge again with the last 2 in the same move. */
  lemma SinglePassExample()
    ensures Slide([2, 2, 2, 0, 0, 0], 6) == [4, 2, 0, 0, 0, 0]
    ensures LineGain([2, 2, 2, 0, 0, 0]) == 4
  {
    SlideThreeEqual(2, 6);
    assert [2, 2, 2, 0, 0, 0] == [2, 2, 2] + Zeros(3);
    assert [4, 2, 0, 0, 0, 0] == [4, 2] + Zeros(4);
  }

  lemma RepeatedMoveMergesAgain()
    ensures Slide([4, 2, 0, 0, 0, 0], 6) == [6, 0, 0, 0, 0, 0]
    ensures Slide(Slide([2, 2, 2, 0, 0, 0], 6), 6) != Slide([2, 2, 2, 0, 0, 0], 6)
  {
    SinglePassExample();
    SlideTwoTiles(4, 2, 6);
    assert [4, 2, 0, 0, 0, 0] == [4, 2] + Zeros(4);
    assert [6, 0, 0, 0, 0, 0] == [6] + Zeros(5);
  }
}
