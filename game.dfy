/**
 * The game engine proper: one board object whose cells are updated in place.
 *
 * `Init` builds a new board with two tiles, `AddNewTile` drops a tile into a
 * free cell, `Move` slides every row or column (one `SlideLine` pass per line)
 * and spawns a tile when the board changed, and `GameOver` scans the cells.
 * Each method is proved against the reference functions of `Grid`: `Slid`
 * for the slide, `Spawned` for the new tile, `Terminal` for game over. A
 * new board is in play (`InPlay`) and every move keeps it in play.
 *
 * The random choices of the engine (which empty cell, 2 or 4) are left
 * open: the methods pick any admissible value with `:|`.
 */
module Game {
  import opened Line
  import opened Grid

  /**
   * How `Move` reads its direction name: "left", "right" and "down" mean
   * those moves, and every other name takes the up-or-down branch without
   * reversing, that is, it moves up.
   */
  function DirectionOf(name: string): (d: Direction)
    ensures d == Left <==> name == "left"
    ensures d == Right <==> name == "right"
    ensures d == Down <==> name == "down"
    ensures d == Up <==> name != "left" && name != "right" && name != "down"
  {
    if name == "left" then Left
    else if name == "right" then Right
    else if name == "down" then Down
    else Up
  }

  class Board {
    /** The 4 x 4 cells, row by row; 0 is an empty cell. */
    var rows: seq<seq<int>>

    ghost predicate Valid()
      reads this
    {
      IsGrid(rows)
    }

    /**
     * A board in play: every cell is empty or a power of two, and at least
     * one cell holds a tile. A new game starts in play and every move keeps it.
     */
    ghost predicate InPlay()
      reads this
    {
      Valid() && BoardOk(rows) && HasTile(rows)
    }

    /** A new game: an empty board with two tiles added, each a 2 or a 4. */
    constructor Init()
      ensures Valid()
      ensures |NonZeroCells(rows)| == 2
      ensures forall c :: c in NonZeroCells(rows) ==> rows[c.0][c.1] == 2 || rows[c.0][c.1] == 4
      ensures InPlay()
    {
      rows := seq(Size, _ => seq(Size, _ => 0));
      new;
      ghost var g0 := rows;
      AddNewTile();
      ghost var g1 := rows;
      AddNewTile();
      TwoSpawnsFromBlank(g0, g1, rows);
      var c :| c in NonZeroCells(rows);
      assert rows[c.0][c.1] != 0;
      forall i | 0 <= i < Size
        ensures LineOk(rows[i])
      {
        forall j | 0 <= j < Size
          ensures rows[i][j] == 0 || Pow2(rows[i][j])
        {
          if rows[i][j] != 0 {
            assert (i, j) in NonZeroCells(rows);
          }
        }
      }
    }

    /**
     * Puts a 2 or a 4 into one of the empty cells; a full board is left as
     * it is.
     */
    method AddNewTile()
      requires Valid()
      modifies this
      ensures Valid()
      ensures Spawned(old(rows), rows)
      ensures old(BoardOk(rows)) ==> BoardOk(rows)
      ensures old(HasTile(rows)) ==> HasTile(rows)
    {
      var emptyCells := EmptyCells(rows);
      if emptyCells != [] {
        var k :| 0 <= k < |emptyCells|;
        var v :| v in {2, 4};
        var (i, j) := emptyCells[k];
        assert emptyCells[k] in emptyCells;
        assert 0 <= i < Size && 0 <= j < Size && rows[i][j] == 0;
        SpawnAt(rows, (i, j), v);
        ghost var before := rows;
        rows := rows[i := rows[i][j := v]];
        if BoardOk(before) {
          SpawnedOk(before, rows);
        }
        if HasTile(before) {
          SpawnKeepsTile(before, rows);
        }
      } else {
        NoRoomNoSpawn(rows);
      }
    }

    /**
     * Slides the board in the named direction. When that changed the board a
     * new tile is added to the slid board; otherwise the board stays as it
     * was.
     */
    method Move(direction: string)
      requires Valid()
      modifies this
      ensures Valid()
      ensures var s := Slid(old(rows), DirectionOf(direction));
        if s == old(rows) then rows == s else Spawned(s, rows)
      ensures old(InPlay()) ==> InPlay()
    {
      var dir := DirectionOf(direction);
      var boardCopy := rows;
      if direction == "left" || direction == "right" {
        SlideRows(direction == "right");
      } else {
        SlideColumns(direction == "down");
      }
      if BoardOk(boardCopy) {
        SlidOk(boardCopy, dir);
      }
      if HasTile(boardCopy) {
        SlidKeepsTile(boardCopy, dir);
      }
      if rows != boardCopy {
        ChangedMoveLeavesRoom(boardCopy, dir);
        AddNewTile();
      }
    }

    /** The row pass of `Move`: each row slid left, or right when `reversed`. */
    method SlideRows(reversed: bool)
      requires Valid()
      modifies this
      ensures Valid()
      ensures rows == Slid(old(rows), if reversed then Right else Left)
    {
      ghost var dir := if reversed then Right else Left;
      ghost var boardCopy := rows;
      for i := 0 to Size
        invariant IsGrid(rows)
        invariant forall a :: 0 <= a < i ==> rows[a] == SlideAlong(dir, boardCopy[a])
        invariant forall a :: i <= a < Size ==> rows[a] == boardCopy[a]
      {
        var row := rows[i];
        if reversed {
          row := Reverse(row);
        }
        var newRow, _ := SlideLine(row);
        if reversed {
          newRow := Reverse(newRow);
        }
        rows := rows[i := newRow];
      }
      assert rows == Slid(boardCopy, dir);
    }

    /** The column pass of `Move`: each column slid up, or down when `reversed`. */
    method SlideColumns(reversed: bool)
      requires Valid()
      modifies this
      ensures Valid()
      ensures rows == Slid(old(rows), if reversed then Down else Up)
    {
      ghost var dir := if reversed then Down else Up;
      ghost var boardCopy := rows;
      for j := 0 to Size
        invariant IsGrid(rows)
        invariant forall a, b :: 0 <= a < Size && 0 <= b < j ==>
          rows[a][b] == SlideAlong(dir, Column(boardCopy, b))[a]
        invariant forall a, b :: 0 <= a < Size && j <= b < Size ==> rows[a][b] == boardCopy[a][b]
      {
        var col := Column(rows, j);
        assert col == Column(boardCopy, j);
        if reversed {
          col := Reverse(col);
        }
        var newCol, _ := SlideLine(col);
        if reversed {
          newCol := Reverse(newCol);
        }
        assert newCol == SlideAlong(dir, Column(boardCopy, j));
        WriteColumn(j, newCol);
      }
      SlidByColumns(boardCopy, dir, rows);
    }

    /** Copies `col` into column `j`, top to bottom; the other columns stay. */
    method WriteColumn(j: int, col: seq<int>)
      requires Valid() && 0 <= j < Size && |col| == Size
      modifies this
      ensures Valid()
      ensures forall a, b :: 0 <= a < Size && 0 <= b < Size ==>
        rows[a][b] == if b == j then col[a] else old(rows)[a][b]
    {
      for i := 0 to Size
        invariant IsGrid(rows)
        invariant forall a, b :: 0 <= a < Size && 0 <= b < Size ==>
          rows[a][b] == if b == j && a < i then col[a] else old(rows)[a][b]
      {
        rows := rows[i := rows[i][j := col[i]]];
      }
    }

    /**
     * Game over: first any empty cell says no, then any cell equal to its
     * right or down neighbour says no; otherwise yes. On a board in play that
     * is exactly when no move changes the board.
     */
    method GameOver() returns (over: bool)
      requires Valid()
      ensures over == Terminal(rows)
      ensures InPlay() ==> (over <==> forall dir :: Slid(rows, dir) == rows)
    {
      if HasTile(rows) {
        TerminalIffStuck(rows);
      }
      for i := 0 to Size
        invariant forall a, b :: 0 <= a < i && 0 <= b < Size ==> rows[a][b] != 0
      {
        for j := 0 to Size
          invariant forall a, b :: 0 <= a < i && 0 <= b < Size ==> rows[a][b] != 0
          invariant forall b :: 0 <= b < j ==> rows[i][b] != 0
        {
          if rows[i][j] == 0 {
            return false;
          }
        }
      }
      for i := 0 to Size
        invariant forall a, b :: 0 <= a < i && 0 <= b < Size ==> !Mergeable(rows, a, b)
      {
        for j := 0 to Size
          invariant forall a, b :: 0 <= a < i && 0 <= b < Size ==> !Mergeable(rows, a, b)
          invariant forall b :: 0 <= b < j ==> !Mergeable(rows, i, b)
        {
          var val := rows[i][j];
          if (j < 3 && rows[i][j + 1] == val) || (i < 3 && rows[i + 1][j] == val) {
            assert Mergeable(rows, i, j);
            return false;
          }
        }
      }
      return true;
    }
  }

  /** A board whose cells agree column by column with `Slid` is `Slid`. */
  lemma SlidByColumns(g: seq<seq<int>>, dir: Direction, r: seq<seq<int>>)
    requires IsGrid(g) && IsGrid(r) && (dir == Up || dir == Down)
    requires forall a, b :: 0 <= a < Size && 0 <= b < Size ==> r[a][b] == SlideAlong(dir, Column(g, b))[a]
    ensures r == Slid(g, dir)
  {
    var s := Slid(g, dir);
    forall a | 0 <= a < Size
      ensures r[a] == s[a]
    {
      forall b | 0 <= b < Size
        ensures r[a][b] == s[a][b]
      {
      }
    }
  }
}
