/**
 * The 4×4 board of the 2048 engine as a value: a sequence of four rows of four
 * cells, where 0 is an empty cell and every other value is a tile.
 *
 * `Slid` is the deterministic part of a move (every row or column slid and
 * merged), `EmptyCells` and `Spawned` describe the random tile spawn, and
 * `Terminal` is the game-over test. The lemmas relate them: a slide keeps the
 * total value, a spawn fills exactly one empty cell, a move that changes the
 * board always leaves room for the spawn, directions are mirror images or
 * transposes of one another, slides and spawns keep every cell empty or a
 * power of two (`BoardOk`) and keep a tile on a board that has one, and a
 * board holding a tile is terminal exactly when no move changes it.
 */
module Grid {
  import opened Line

  /** The board is always Size × Size. */
  const Size := 4

  datatype Direction = Up | Down | Left | Right

  predicate IsGrid(g: seq<seq<int>>)
  {
    |g| == Size && forall i :: 0 <= i < Size ==> |g[i]| == Size
  }

  predicate InRange(c: (int, int))
  {
    0 <= c.0 < Size && 0 <= c.1 < Size
  }

  /** Column `j`, read from the top row to the bottom row. */
  function Column(g: seq<seq<int>>, j: int): (col: seq<int>)
    requires IsGrid(g) && 0 <= j < Size
  {
    seq(Size, i requires 0 <= i < Size => g[i][j])
  }

  /** Right and down slide toward the far end of their lines. */
  predicate Backward(dir: Direction)
  {
    dir == Right || dir == Down
  }

  /** One line slid in the direction of the move. */
  function SlideAlong(dir: Direction, line: seq<int>): (r: seq<int>)
    ensures |r| == |line|
  {
    if Backward(dir) then SlideRight(line) else SlideLeft(line)
  }

  /** The board after every row (left, right) or column (up, down) has been slid. */
  function Slid(g: seq<seq<int>>, dir: Direction): (r: seq<seq<int>>)
    requires IsGrid(g)
    ensures IsGrid(r)
  {
    if dir == Left || dir == Right then
      seq(Size, i requires 0 <= i < Size => SlideAlong(dir, g[i]))
    else
      seq(Size, i requires 0 <= i < Size =>
        seq(Size, j requires 0 <= j < Size => SlideAlong(dir, Column(g, j))[i]))
  }

  /**
   * The empty cells from cell (i, j) on, in row-major order: the rest of row
   * `i` from column `j`, then every later row.
   */
  function EmptyFrom(g: seq<seq<int>>, i: nat, j: nat): (cells: seq<(int, int)>)
    requires IsGrid(g) && i <= Size && j <= Size
    ensures forall c :: c in cells ==> InRange(c) && g[c.0][c.1] == 0
    decreases Size - i, Size - j
  {
    if i == Size then []
    else if j == Size then EmptyFrom(g, i + 1, 0)
    else (if g[i][j] == 0 then [(i, j)] else []) + EmptyFrom(g, i, j + 1)
  }

  /** The candidate cells of a spawn, in row-major order. */
  function EmptyCells(g: seq<seq<int>>): (cells: seq<(int, int)>)
    requires IsGrid(g)
    ensures forall c :: c in cells ==> InRange(c) && g[c.0][c.1] == 0
  {
    EmptyFrom(g, 0, 0)
  }

  /** The board with cell `c` set to `v`. */
  function Place(g: seq<seq<int>>, c: (int, int), v: int): (r: seq<seq<int>>)
    requires IsGrid(g) && InRange(c)
    ensures IsGrid(r)
  {
    g[c.0 := g[c.0][c.1 := v]]
  }

  /**
   * `after` is a possible outcome of spawning a tile on `before`: unchanged
   * when there is no empty cell, otherwise one of the empty cells holds a 2
   * or a 4.
   */
  ghost predicate Spawned(before: seq<seq<int>>, after: seq<seq<int>>)
    requires IsGrid(before)
  {
    if !HasEmpty(before) then after == before
    else exists c :: IsEmptyCell(before, c) && (after == Place(before, c, 2) || after == Place(before, c, 4))
  }

  predicate IsEmptyCell(g: seq<seq<int>>, c: (int, int))
    requires IsGrid(g)
  {
    InRange(c) && g[c.0][c.1] == 0
  }

  predicate HasEmpty(g: seq<seq<int>>)
    requires IsGrid(g)
  {
    exists i, j :: 0 <= i < Size && 0 <= j < Size && g[i][j] == 0
  }

  predicate HasTile(g: seq<seq<int>>)
    requires IsGrid(g)
  {
    exists i, j :: 0 <= i < Size && 0 <= j < Size && g[i][j] != 0
  }

  /** Every cell is empty or holds a power of two. */
  predicate BoardOk(g: seq<seq<int>>)
    requires IsGrid(g)
  {
    forall i :: 0 <= i < Size ==> LineOk(g[i])
  }

  /** Cell (i, j) equals its right or its down neighbour. */
  predicate Mergeable(g: seq<seq<int>>, i: int, j: int)
    requires IsGrid(g) && 0 <= i < Size && 0 <= j < Size
  {
    (j < Size - 1 && g[i][j + 1] == g[i][j]) || (i < Size - 1 && g[i + 1][j] == g[i][j])
  }

  /** Game over: no empty cell and no cell equal to its right or down neighbour. */
  predicate Terminal(g: seq<seq<int>>)
    requires IsGrid(g)
  {
    (forall i, j :: 0 <= i < Size && 0 <= j < Size ==> g[i][j] != 0) &&
    (forall i, j :: 0 <= i < Size && 0 <= j < Size ==> !Mergeable(g, i, j))
  }

  /** The cells holding a tile. */
  function NonZeroCells(g: seq<seq<int>>): (cells: set<(int, int)>)
    requires IsGrid(g)
  {
    set i, j | 0 <= i < Size && 0 <= j < Size && g[i][j] != 0 :: (i, j)
  }

  function RowSums(g: seq<seq<int>>): (sums: seq<int>)
    requires IsGrid(g)
  {
    seq(Size, i requires 0 <= i < Size => Sum(g[i]))
  }

  /** The total value of all tiles on the board. */
  function GridSum(g: seq<seq<int>>): (total: int)
    requires IsGrid(g)
  {
    Sum(RowSums(g))
  }

  /** Every row reversed. */
  function MirrorRows(g: seq<seq<int>>): (r: seq<seq<int>>)
    requires IsGrid(g)
    ensures IsGrid(r)
  {
    seq(Size, i requires 0 <= i < Size => Reverse(g[i]))
  }

  /** The board turned upside down: the order of the rows reversed. */
  function FlipRows(g: seq<seq<int>>): (r: seq<seq<int>>)
    requires IsGrid(g)
    ensures IsGrid(r)
  {
    seq(Size, i requires 0 <= i < Size => g[Size - 1 - i])
  }

  /** Rows and columns exchanged. */
  function Transpose(g: seq<seq<int>>): (r: seq<seq<int>>)
    requires IsGrid(g)
    ensures IsGrid(r)
  {
    seq(Size, i requires 0 <= i < Size => Column(g, i))
  }

  // ---------------------------------------------------------------------------
  // Spawning

  /** `EmptyFrom(g, i, j)` lists exactly the empty cells from cell (i, j) on. */
  ghost predicate ExactFrom(g: seq<seq<int>>, i: nat, j: nat)
    requires IsGrid(g) && i <= Size && j <= Size
  {
    forall c :: c in EmptyFrom(g, i, j) <==>
      InRange(c) && g[c.0][c.1] == 0 && (i < c.0 || (i == c.0 && j <= c.1))
  }

  lemma {:induction false} EmptyFromExact(g: seq<seq<int>>, i: nat, j: nat)
    requires IsGrid(g) && i <= Size && j <= Size
    ensures ExactFrom(g, i, j)
    decreases Size - i, Size - j
  {
    if i < Size {
      if j == Size {
        EmptyFromExact(g, i + 1, 0);
        ExactWrap(g, i);
      } else {
        EmptyFromExact(g, i, j + 1);
        ExactStep(g, i, j);
      }
    }
  }

  lemma ExactWrap(g: seq<seq<int>>, i: nat)
    requires IsGrid(g) && i < Size && ExactFrom(g, i + 1, 0)
    ensures ExactFrom(g, i, Size)
  {
    assert EmptyFrom(g, i, Size) == EmptyFrom(g, i + 1, 0);
  }

  lemma ExactStep(g: seq<seq<int>>, i: nat, j: nat)
    requires IsGrid(g) && i < Size && j < Size && ExactFrom(g, i, j + 1)
    ensures ExactFrom(g, i, j)
  {
    var head := if g[i][j] == 0 then [(i, j)] else [];
    var rest := EmptyFrom(g, i, j + 1);
    assert EmptyFrom(g, i, j) == head + rest;
    forall c
      ensures c in head + rest <==>
        InRange(c) && g[c.0][c.1] == 0 && (i < c.0 || (i == c.0 && j <= c.1))
    {
      assert c in head + rest <==> c in head || c in rest;
    }
  }

  lemma EmptyCellsMembers(g: seq<seq<int>>)
    requires IsGrid(g)
    ensures forall c :: c in EmptyCells(g) <==> InRange(c) && g[c.0][c.1] == 0
  {
    EmptyFromExact(g, 0, 0);
  }

  lemma HoleIsCandidate(g: seq<seq<int>>, i: int, j: int)
    requires IsGrid(g) && 0 <= i < Size && 0 <= j < Size && g[i][j] == 0
    ensures (i, j) in EmptyCells(g)
  {
    EmptyCellsMembers(g);
  }

  lemma NoCandidatesIffFull(g: seq<seq<int>>)
    requires IsGrid(g)
    ensures EmptyCells(g) == [] <==> !HasEmpty(g)
  {
    if HasEmpty(g) {
      var i, j :| 0 <= i < Size && 0 <= j < Size && g[i][j] == 0;
      HoleIsCandidate(g, i, j);
    }
    if EmptyCells(g) != [] {
      assert EmptyCells(g)[0] in EmptyCells(g);
    }
  }

  /** The candidate list holds every empty cell and nothing else. */
  lemma EmptyCellsExact(g: seq<seq<int>>)
    requires IsGrid(g)
    ensures forall c :: c in EmptyCells(g) <==> InRange(c) && g[c.0][c.1] == 0
    ensures EmptyCells(g) == [] <==> !HasEmpty(g)
  {
    EmptyCellsMembers(g);
    NoCandidatesIffFull(g);
  }

  /**
   * A spawn on a full board changes nothing; otherwise exactly one cell that
   * was empty now holds a 2 or a 4, and every other cell is unchanged.
   */
  lemma SpawnChangesOneCell(before: seq<seq<int>>, after: seq<seq<int>>)
    requires IsGrid(before) && Spawned(before, after)
    ensures IsGrid(after)
    ensures !HasEmpty(before) ==> after == before
    ensures HasEmpty(before) ==>
      exists c :: InRange(c) && before[c.0][c.1] == 0 && (after[c.0][c.1] == 2 || after[c.0][c.1] == 4) &&
        forall d :: InRange(d) && d != c ==> after[d.0][d.1] == before[d.0][d.1]
  {
    if HasEmpty(before) {
      var c :| IsEmptyCell(before, c) && (after == Place(before, c, 2) || after == Place(before, c, 4));
      assert InRange(c) && before[c.0][c.1] == 0;
      assert after[c.0][c.1] == 2 || after[c.0][c.1] == 4;
      forall d | InRange(d) && d != c
        ensures after[d.0][d.1] == before[d.0][d.1]
      {
        if d.0 == c.0 {
          assert d.1 != c.1;
        }
      }
    }
  }

  /** Filling an empty cell with a 2 or a 4 is a spawn. */
  lemma SpawnAt(g: seq<seq<int>>, c: (int, int), v: int)
    requires IsGrid(g) && IsEmptyCell(g, c) && (v == 2 || v == 4)
    ensures Spawned(g, Place(g, c, v))
  {
  }

  /** A board without empty cells spawns nothing. */
  lemma NoRoomNoSpawn(g: seq<seq<int>>)
    requires IsGrid(g) && EmptyCells(g) == []
    ensures Spawned(g, g)
  {
    EmptyCellsExact(g);
  }

  lemma Sum4(s: seq<int>)
    requires |s| == 4
    ensures Sum(s) == s[0] + s[1] + s[2] + s[3]
  {
    assert s[3..][1..] == [];
    assert Sum(s[3..]) == s[3];
    assert s[2..][1..] == s[3..];
    assert Sum(s[2..]) == s[2] + s[3];
    assert s[1..][1..] == s[2..];
    assert Sum(s[1..]) == s[1] + s[2] + s[3];
  }

  lemma GridSumCells(g: seq<seq<int>>)
    requires IsGrid(g)
    ensures GridSum(g) ==
      g[0][0] + g[0][1] + g[0][2] + g[0][3] + g[1][0] + g[1][1] + g[1][2] + g[1][3] +
      g[2][0] + g[2][1] + g[2][2] + g[2][3] + g[3][0] + g[3][1] + g[3][2] + g[3][3]
  {
    Sum4(RowSums(g));
    Sum4(g[0]);
    Sum4(g[1]);
    Sum4(g[2]);
    Sum4(g[3]);
  }

  /** The spawn on a board with an empty cell: which cell it filled. */
  lemma SpawnedCell(before: seq<seq<int>>, after: seq<seq<int>>) returns (c: (int, int), v: int)
    requires IsGrid(before) && HasEmpty(before) && Spawned(before, after)
    ensures InRange(c) && before[c.0][c.1] == 0
    ensures (v == 2 || v == 4) && after == Place(before, c, v)
  {
    c :| IsEmptyCell(before, c) && (after == Place(before, c, 2) || after == Place(before, c, 4));
    v := if after == Place(before, c, 2) then 2 else 4;
  }

  lemma PlaceSum(g: seq<seq<int>>, c: (int, int), v: int)
    requires IsGrid(g) && InRange(c)
    ensures GridSum(Place(g, c, v)) == GridSum(g) + v - g[c.0][c.1]
  {
    var r := Place(g, c, v);
    Sum4(g[c.0]);
    Sum4(r[c.0]);
    assert RowSums(r) == RowSums(g)[c.0 := Sum(g[c.0]) + v - g[c.0][c.1]];
    Sum4(RowSums(g));
    Sum4(RowSums(r));
  }

  /** A spawn on a board with an empty cell adds exactly 2 or 4 to the total. */
  lemma SpawnSum(before: seq<seq<int>>, after: seq<seq<int>>)
    requires IsGrid(before) && Spawned(before, after) && HasEmpty(before)
    ensures IsGrid(after)
    ensures GridSum(after) == GridSum(before) + 2 || GridSum(after) == GridSum(before) + 4
  {
    var c, v := SpawnedCell(before, after);
    PlaceSum(before, c, v);
  }

  lemma PlaceAddsTile(g: seq<seq<int>>, c: (int, int), v: int)
    requires IsGrid(g) && InRange(c) && g[c.0][c.1] == 0 && v != 0
    ensures NonZeroCells(Place(g, c, v)) == NonZeroCells(g) + {c}
    ensures |NonZeroCells(Place(g, c, v))| == |NonZeroCells(g)| + 1
  {
    var r := Place(g, c, v);
    forall d | d in NonZeroCells(r)
      ensures d in NonZeroCells(g) + {c}
    {
      if d != c {
        assert g[d.0][d.1] != 0;
      }
    }
    assert c !in NonZeroCells(g);
  }

  /** No cell holds a tile. */
  predicate Blank(g: seq<seq<int>>)
    requires IsGrid(g)
  {
    forall i, j :: 0 <= i < Size && 0 <= j < Size ==> g[i][j] == 0
  }

  /** One spawn on the empty board leaves one tile, a 2 or a 4, and room for another. */
  lemma OneSpawnFromBlank(g0: seq<seq<int>>, g1: seq<seq<int>>) returns (c1: (int, int), v1: int)
    requires IsGrid(g0) && Blank(g0) && Spawned(g0, g1)
    ensures IsGrid(g1) && HasEmpty(g1)
    ensures NonZeroCells(g1) == {c1} && InRange(c1) && g1[c1.0][c1.1] == v1 && (v1 == 2 || v1 == 4)
  {
    assert NonZeroCells(g0) == {} by {
      forall d | d in NonZeroCells(g0)
        ensures false
      {
      }
    }
    assert g0[0][0] == 0;
    c1, v1 := SpawnedCell(g0, g1);
    PlaceAddsTile(g0, c1, v1);
    var d := if c1 == (0, 0) then (0, 1) else (0, 0);
    assert g1[d.0][d.1] == 0;
  }

  /**
   * Two spawns on the empty board leave exactly two tiles, each a 2 or a 4:
   * the second spawn always finds an empty cell other than the first.
   */
  lemma TwoSpawnsFromBlank(g0: seq<seq<int>>, g1: seq<seq<int>>, g2: seq<seq<int>>)
    requires IsGrid(g0) && Blank(g0) && Spawned(g0, g1) && IsGrid(g1) && Spawned(g1, g2)
    ensures IsGrid(g2)
    ensures |NonZeroCells(g2)| == 2
    ensures forall c :: c in NonZeroCells(g2) ==> g2[c.0][c.1] == 2 || g2[c.0][c.1] == 4
  {
    var c1, v1 := OneSpawnFromBlank(g0, g1);
    var c2, v2 := SpawnedCell(g1, g2);
    PlaceAddsTile(g1, c2, v2);
    assert NonZeroCells(g2) == {c1, c2};
    assert c1 != c2;
    assert g2[c1.0][c1.1] == v1 && g2[c2.0][c2.1] == v2;
  }

  // ---------------------------------------------------------------------------
  // Sliding the whole board

  lemma SumReverse4(s: seq<int>)
    requires |s| == 4
    ensures Sum(Reverse(s)) == Sum(s)
  {
    Sum4(s);
    Sum4(Reverse(s));
  }

  lemma SlideAlongSum(dir: Direction, line: seq<int>)
    requires |line| == Size
    ensures Sum(SlideAlong(dir, line)) == Sum(line)
  {
    if Backward(dir) {
      SlideLeftSum(Reverse(line));
      SumReverse4(line);
      SumReverse4(SlideLeft(Reverse(line)));
    } else {
      SlideLeftSum(line);
    }
  }

  /** The sums of the columns, left to right. */
  function ColumnSums(g: seq<seq<int>>): (sums: seq<int>)
    requires IsGrid(g)
  {
    seq(Size, j requires 0 <= j < Size => Sum(Column(g, j)))
  }

  lemma GridSumByColumns(g: seq<seq<int>>)
    requires IsGrid(g)
    ensures GridSum(g) == Sum(ColumnSums(g))
  {
    GridSumCells(g);
    Sum4(ColumnSums(g));
    Sum4(Column(g, 0)); Sum4(Column(g, 1)); Sum4(Column(g, 2)); Sum4(Column(g, 3));
  }

  /** Sliding keeps the total value of the board: merges only add v + v into 2v. */
  lemma SlidSum(g: seq<seq<int>>, dir: Direction)
    requires IsGrid(g)
    ensures GridSum(Slid(g, dir)) == GridSum(g)
  {
    var s := Slid(g, dir);
    if dir == Left || dir == Right {
      forall i | 0 <= i < Size
        ensures RowSums(s)[i] == RowSums(g)[i]
      {
        SlideAlongSum(dir, g[i]);
      }
      assert RowSums(s) == RowSums(g);
    } else {
      forall j | 0 <= j < Size
        ensures ColumnSums(s)[j] == ColumnSums(g)[j]
      {
        SlideAlongSum(dir, Column(g, j));
        assert Column(s, j) == SlideAlong(dir, Column(g, j));
      }
      assert ColumnSums(s) == ColumnSums(g);
      GridSumByColumns(s);
      GridSumByColumns(g);
    }
  }

  lemma SlideRightFullIsFixed(s: seq<int>)
    requires forall k :: 0 <= k < |s| ==> SlideRight(s)[k] != 0
    ensures SlideRight(s) == s
  {
    var r := Reverse(s);
    var n := |s|;
    forall k | 0 <= k < n
      ensures SlideLeft(r)[k] != 0
    {
      assert SlideRight(s)[n - 1 - k] == SlideLeft(r)[k];
    }
    SlideLeftFullIsFixed(r);
    ReverseReverse(s);
  }

  lemma SlideAlongFullIsFixed(dir: Direction, line: seq<int>)
    requires forall k :: 0 <= k < |line| ==> SlideAlong(dir, line)[k] != 0
    ensures SlideAlong(dir, line) == line
  {
    if Backward(dir) {
      assert SlideAlong(dir, line) == SlideRight(line);
      SlideRightFullIsFixed(line);
    } else {
      assert SlideAlong(dir, line) == SlideLeft(line);
      SlideLeftFullIsFixed(line);
    }
  }

  /** A move that leaves no empty cell changed nothing. */
  lemma FullMoveIsNoOp(g: seq<seq<int>>, dir: Direction)
    requires IsGrid(g) && !HasEmpty(Slid(g, dir))
    ensures Slid(g, dir) == g
  {
    var s := Slid(g, dir);
    if dir == Left || dir == Right {
      forall i | 0 <= i < Size
        ensures s[i] == g[i]
      {
        assert s[i] == SlideAlong(dir, g[i]);
        assert forall k :: 0 <= k < Size ==> s[i][k] != 0;
        SlideAlongFullIsFixed(dir, g[i]);
      }
    } else {
      forall j | 0 <= j < Size
        ensures SlideAlong(dir, Column(g, j)) == Column(g, j)
      {
        var col := Column(g, j);
        forall k | 0 <= k < Size
          ensures SlideAlong(dir, col)[k] != 0
        {
          assert s[k][j] == SlideAlong(dir, col)[k];
        }
        SlideAlongFullIsFixed(dir, col);
      }
      forall i | 0 <= i < Size
        ensures s[i] == g[i]
      {
        forall j | 0 <= j < Size
          ensures s[i][j] == g[i][j]
        {
          assert s[i][j] == SlideAlong(dir, Column(g, j))[i];
        }
      }
    }
  }

  /** So a move that changes the board always leaves an empty cell for the new tile. */
  lemma ChangedMoveLeavesRoom(g: seq<seq<int>>, dir: Direction)
    requires IsGrid(g) && Slid(g, dir) != g
    ensures HasEmpty(Slid(g, dir))
    ensures EmptyCells(Slid(g, dir)) != []
  {
    if !HasEmpty(Slid(g, dir)) {
      FullMoveIsNoOp(g, dir);
    }
    EmptyCellsExact(Slid(g, dir));
  }

  // ---------------------------------------------------------------------------
  // Symmetry of the four directions

  /** Sliding right is sliding left in the mirror. */
  lemma RightMirrorsLeft(g: seq<seq<int>>)
    requires IsGrid(g)
    ensures Slid(MirrorRows(g), Right) == MirrorRows(Slid(g, Left))
  {
    forall i | 0 <= i < Size
      ensures Slid(MirrorRows(g), Right)[i] == MirrorRows(Slid(g, Left))[i]
    {
      ReverseReverse(g[i]);
    }
  }

  lemma SlideDownReversed(c: seq<int>)
    ensures SlideAlong(Down, Reverse(c)) == Reverse(SlideLeft(c))
  {
    ReverseReverse(c);
  }

  /** Sliding down is sliding up on the board turned upside down, turned back. */
  lemma DownMirrorsUp(g: seq<seq<int>>)
    requires IsGrid(g)
    ensures Slid(FlipRows(g), Down) == FlipRows(Slid(g, Up))
  {
    var f, s := FlipRows(g), Slid(g, Up);
    forall i | 0 <= i < Size
      ensures Slid(f, Down)[i] == FlipRows(s)[i]
    {
      forall j | 0 <= j < Size
        ensures Slid(f, Down)[i][j] == FlipRows(s)[i][j]
      {
        var c := Column(g, j);
        assert Column(f, j) == Reverse(c);
        SlideDownReversed(c);
        assert Slid(f, Down)[i][j] == SlideAlong(Down, Column(f, j))[i];
        assert FlipRows(s)[i][j] == SlideLeft(c)[Size - 1 - i];
      }
    }
  }

  /** Sliding up is sliding left on the transposed board. */
  lemma UpIsLeftTransposed(g: seq<seq<int>>)
    requires IsGrid(g)
    ensures Slid(Transpose(g), Left) == Transpose(Slid(g, Up))
  {
    forall i | 0 <= i < Size
      ensures Slid(Transpose(g), Left)[i] == Transpose(Slid(g, Up))[i]
    {
      var t, s := Transpose(g), Slid(g, Up);
      assert Slid(t, Left)[i] == SlideLeft(Column(g, i));
      forall k | 0 <= k < Size
        ensures Transpose(s)[i][k] == SlideLeft(Column(g, i))[k]
      {
        assert Transpose(s)[i][k] == s[k][i];
      }
    }
  }

  /** Sliding down is sliding right on the transposed board. */
  lemma DownIsRightTransposed(g: seq<seq<int>>)
    requires IsGrid(g)
    ensures Slid(Transpose(g), Right) == Transpose(Slid(g, Down))
  {
    forall i | 0 <= i < Size
      ensures Slid(Transpose(g), Right)[i] == Transpose(Slid(g, Down))[i]
    {
      var t, s := Transpose(g), Slid(g, Down);
      assert Slid(t, Right)[i] == SlideRight(Column(g, i));
      forall k | 0 <= k < Size
        ensures Transpose(s)[i][k] == SlideRight(Column(g, i))[k]
      {
        assert Transpose(s)[i][k] == s[k][i];
      }
    }
  }

  // ---------------------------------------------------------------------------
  // What a move keeps: tile values and the presence of a tile

  lemma SlideAlongOk(dir: Direction, line: seq<int>)
    requires LineOk(line)
    ensures LineOk(SlideAlong(dir, line))
  {
    if Backward(dir) {
      SlideLeftOk(Reverse(line));
    } else {
      SlideLeftOk(line);
    }
  }

  /** A slide in any direction keeps every cell empty or a power of two. */
  lemma SlidOk(g: seq<seq<int>>, dir: Direction)
    requires IsGrid(g) && BoardOk(g)
    ensures BoardOk(Slid(g, dir))
  {
    var s := Slid(g, dir);
    if dir == Left || dir == Right {
      forall i | 0 <= i < Size
        ensures LineOk(s[i])
      {
        SlideAlongOk(dir, g[i]);
      }
    } else {
      forall j | 0 <= j < Size
        ensures LineOk(SlideAlong(dir, Column(g, j)))
      {
        assert LineOk(Column(g, j)) by {
          forall k | 0 <= k < Size
            ensures Column(g, j)[k] == 0 || Pow2(Column(g, j)[k])
          {
            assert LineOk(g[k]);
          }
        }
        SlideAlongOk(dir, Column(g, j));
      }
      forall i, j | 0 <= i < Size && 0 <= j < Size
        ensures s[i][j] == 0 || Pow2(s[i][j])
      {
        assert s[i][j] == SlideAlong(dir, Column(g, j))[i];
      }
    }
  }

  /** A spawn keeps every cell empty or a power of two: it writes a 2 or a 4. */
  lemma SpawnedOk(before: seq<seq<int>>, after: seq<seq<int>>)
    requires IsGrid(before) && BoardOk(before) && Spawned(before, after)
    ensures IsGrid(after) && BoardOk(after)
  {
    if HasEmpty(before) {
      var c, v := SpawnedCell(before, after);
      assert Pow2(v);
      forall i | 0 <= i < Size
        ensures LineOk(after[i])
      {
        assert LineOk(before[i]);
      }
    }
  }

  /** A line holding a tile still holds one after a slide in either direction. */
  lemma SlideAlongKeepsTile(dir: Direction, line: seq<int>, k: nat) returns (m: nat)
    requires k < |line| && line[k] != 0
    ensures m < |line| && SlideAlong(dir, line)[m] != 0
  {
    var n := |line| - 1;
    if Backward(dir) {
      SlideLeftKeepsTile(Reverse(line), n - k);
      m := n;
    } else {
      SlideLeftKeepsTile(line, k);
      m := 0;
    }
  }

  /** A board holding a tile still holds one after a slide in any direction. */
  lemma SlidKeepsTile(g: seq<seq<int>>, dir: Direction)
    requires IsGrid(g) && HasTile(g)
    ensures HasTile(Slid(g, dir))
  {
    var i, j :| 0 <= i < Size && 0 <= j < Size && g[i][j] != 0;
    var s := Slid(g, dir);
    if dir == Left || dir == Right {
      var m := SlideAlongKeepsTile(dir, g[i], j);
      assert s[i][m] != 0;
    } else {
      var m := SlideAlongKeepsTile(dir, Column(g, j), i);
      assert s[m][j] == SlideAlong(dir, Column(g, j))[m];
    }
  }

  /** A spawn keeps every tile, so a board holding a tile still holds one. */
  lemma SpawnKeepsTile(before: seq<seq<int>>, after: seq<seq<int>>)
    requires IsGrid(before) && HasTile(before) && Spawned(before, after)
    ensures IsGrid(after) && HasTile(after)
  {
    if HasEmpty(before) {
      var i, j :| 0 <= i < Size && 0 <= j < Size && before[i][j] != 0;
      var c, v := SpawnedCell(before, after);
      assert after[i][j] != 0;
    }
  }

  // ---------------------------------------------------------------------------
  // Game over

  lemma SlideAlongFixed(dir: Direction, line: seq<int>)
    requires forall k :: 0 <= k < |line| ==> line[k] != 0
    requires forall k :: 0 <= k < |line| - 1 ==> line[k] != line[k + 1]
    ensures SlideAlong(dir, line) == line
  {
    if Backward(dir) {
      var r := Reverse(line);
      var n := |line|;
      forall k | 0 <= k < n - 1
        ensures r[k] != r[k + 1]
      {
        assert r[k] == line[n - 1 - k] && r[k + 1] == line[n - 2 - k];
      }
      SlideLeftFixed(r);
      ReverseReverse(line);
    } else {
      SlideLeftFixed(line);
    }
  }

  /** On a terminal board no move changes anything. */
  lemma TerminalIsStuck(g: seq<seq<int>>, dir: Direction)
    requires IsGrid(g) && Terminal(g)
    ensures Slid(g, dir) == g
  {
    var s := Slid(g, dir);
    if dir == Left || dir == Right {
      forall i | 0 <= i < Size
        ensures s[i] == g[i]
      {
        forall k | 0 <= k < Size - 1
          ensures g[i][k] != g[i][k + 1]
        {
          assert !Mergeable(g, i, k);
        }
        forall k | 0 <= k < Size
          ensures g[i][k] != 0
        {
        }
        SlideAlongFixed(dir, g[i]);
        assert s[i] == SlideAlong(dir, g[i]);
      }
      assert s == g;
    } else {
      forall j | 0 <= j < Size
        ensures SlideAlong(dir, Column(g, j)) == Column(g, j)
      {
        var col := Column(g, j);
        forall k | 0 <= k < Size - 1
          ensures col[k] != col[k + 1]
        {
          assert !Mergeable(g, k, j);
        }
        SlideAlongFixed(dir, col);
      }
      forall i | 0 <= i < Size
        ensures s[i] == g[i]
      {
        forall j | 0 <= j < Size
          ensures s[i][j] == g[i][j]
        {
          assert s[i][j] == SlideAlong(dir, Column(g, j))[i];
        }
      }
      assert s == g;
    }
  }

  /** A left or a right move changes a row that holds both an empty cell and a tile. */
  lemma RowCanMove(g: seq<seq<int>>, i: int, hole: int, tile: int) returns (dir: Direction)
    requires IsGrid(g) && 0 <= i < Size && 0 <= hole < Size && 0 <= tile < Size
    requires g[i][hole] == 0 && g[i][tile] != 0
    ensures dir == Left || dir == Right
    ensures Slid(g, dir) != g
  {
    LineCanMove(g[i], hole, tile);
    dir := if SlideLeft(g[i]) != g[i] then Left else Right;
    assert Slid(g, dir)[i] != g[i];
  }

  /** An up or a down move changes a column that holds both an empty cell and a tile. */
  lemma ColumnCanMove(g: seq<seq<int>>, j: int, hole: int, tile: int) returns (dir: Direction)
    requires IsGrid(g) && 0 <= j < Size && 0 <= hole < Size && 0 <= tile < Size
    requires g[hole][j] == 0 && g[tile][j] != 0
    ensures dir == Up || dir == Down
    ensures Slid(g, dir) != g
  {
    var col := Column(g, j);
    LineCanMove(col, hole, tile);
    dir := if SlideLeft(col) != col then Up else Down;
    var k :| 0 <= k < Size && SlideAlong(dir, col)[k] != col[k];
    assert Slid(g, dir)[k][j] != g[k][j];
  }

  /**
   * A board that is not terminal and holds a tile has a move that changes it:
   * into an empty cell, or by merging two equal neighbours.
   */
  lemma NotTerminalCanMove(g: seq<seq<int>>) returns (dir: Direction)
    requires IsGrid(g) && HasTile(g) && !Terminal(g)
    ensures Slid(g, dir) != g
  {
    var ti, tj :| 0 <= ti < Size && 0 <= tj < Size && g[ti][tj] != 0;
    if HasEmpty(g) {
      var i, j :| 0 <= i < Size && 0 <= j < Size && g[i][j] == 0;
      dir := HoleCanMove(g, i, j, ti, tj);
    } else {
      var i, j :| 0 <= i < Size && 0 <= j < Size && Mergeable(g, i, j);
      dir := MergeableCanMove(g, i, j);
    }
  }

  /** An empty cell and a tile somewhere: a move along the hole's row or the tile's column works. */
  lemma HoleCanMove(g: seq<seq<int>>, i: int, j: int, ti: int, tj: int) returns (dir: Direction)
    requires IsGrid(g) && 0 <= i < Size && 0 <= j < Size && 0 <= ti < Size && 0 <= tj < Size
    requires g[i][j] == 0 && g[ti][tj] != 0
    ensures Slid(g, dir) != g
  {
    if exists b :: 0 <= b < Size && g[i][b] != 0 {
      var b :| 0 <= b < Size && g[i][b] != 0;
      dir := RowCanMove(g, i, j, b);
    } else {
      assert g[i][tj] == 0;
      dir := ColumnCanMove(g, tj, i, ti);
    }
  }

  /** Two equal neighbours on a full board: moving left or up merges them. */
  lemma MergeableCanMove(g: seq<seq<int>>, i: int, j: int) returns (dir: Direction)
    requires IsGrid(g) && !HasEmpty(g) && 0 <= i < Size && 0 <= j < Size && Mergeable(g, i, j)
    ensures Slid(g, dir) != g
  {
    assert g[i][j] != 0;
    if j < Size - 1 && g[i][j + 1] == g[i][j] {
      SlideLeftMergeFrees(g[i], j);
      dir := Left;
      assert Slid(g, dir)[i] != g[i];
    } else {
      var col := Column(g, j);
      SlideLeftMergeFrees(col, i);
      dir := Up;
      assert Slid(g, dir)[Size - 1][j] == SlideLeft(col)[Size - 1];
    }
  }

  /**
   * For any board with a tile: game over holds exactly when no direction
   * changes the board.
   */
  lemma TerminalIffStuck(g: seq<seq<int>>)
    requires IsGrid(g) && HasTile(g)
    ensures Terminal(g) <==> forall dir :: Slid(g, dir) == g
  {
    if Terminal(g) {
      forall dir
        ensures Slid(g, dir) == g
      {
        TerminalIsStuck(g, dir);
      }
    } else {
      var dir := NotTerminalCanMove(g);
      assert Slid(g, dir) != g;
    }
  }

  lemma {:induction false} TilesOfBlank(s: seq<int>)
    requires forall k :: 0 <= k < |s| ==> s[k] == 0
    ensures Tiles(s) == []
  {
    if s != [] {
      TilesOfBlank(s[..|s| - 1]);
    }
  }

  lemma SlideBlankLine(dir: Direction, s: seq<int>)
    requires forall k :: 0 <= k < |s| ==> s[k] == 0
    ensures SlideAlong(dir, s) == s
  {
    TilesOfBlank(s);
    assert SlideLeft(s) == s;
    var r := Reverse(s);
    TilesOfBlank(r);
    assert SlideLeft(r) == r;
    ReverseReverse(s);
  }

  /**
   * The tile requirement above is needed: the empty board is not game over,
   * yet no move changes it. Play never reaches it, since a new game starts
   * with two tiles.
   */
  lemma BlankBoardIsStuck(g: seq<seq<int>>, dir: Direction)
    requires IsGrid(g) && Blank(g)
    ensures !Terminal(g)
    ensures Slid(g, dir) == g
  {
    assert g[0][0] == 0;
    var s := Slid(g, dir);
    forall i | 0 <= i < Size
      ensures s[i] == g[i]
    {
      if dir == Left || dir == Right {
        SlideBlankLine(dir, g[i]);
      } else {
        forall j | 0 <= j < Size
          ensures s[i][j] == g[i][j]
        {
          SlideBlankLine(dir, Column(g, j));
          assert s[i][j] == SlideAlong(dir, Column(g, j))[i];
        }
      }
    }
  }
}
