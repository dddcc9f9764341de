/** The board: a grid of tile types that a tap clears in groups, after which every
    column falls and is refilled from above. Each call into the presentation layer
    (a tile's clear, invalid-move or falling animation) schedules exactly one later
    callback; the model counts the callbacks that are due, and the callbacks are
    methods the environment may call while one is due. */
module Board {
  import opened Grid
  import opened Game
  import opened Matching
  import opened Gravity

  /** The value `RowOfTileAbove` returns when no tile is above. */
  const NotFound: int := -1

  /** Every empty cell of `before` (a compacted column) holds a tile type in `after`,
      column by column. */
  ghost predicate AllRefilled(before: seq<seq<int>>, after: seq<seq<int>>, blocks: int)
  {
    && |after| == |before|
    && forall k :: 0 <= k < |before| ==> Refilled(Packed(before[k]), after[k], blocks)
  }

  class Board {
    const rows: int
    const columns: int
    const numberOfBlocks: int
    const minTilesToMatch: int
    const grid: array2<int>
    const matchCollector: MatchCollector

    var matches: seq<GridPosition>
    var newTileCount: int
    var tileFallingCount: int
    var tileClearedCount: int
    /** The game phase, a single global in the game and a field here. */
    var state: State

    /** Every falling animation started, in order. */
    ghost var falls: seq<Fall>
    /** Landing callbacks due: one per falling animation not yet landed. */
    ghost var landingsPending: nat
    /** Clear callbacks due: one per cleared tile whose animation has not ended. */
    ghost var clearsPending: nat
    /** Clear animations started since the board was made. */
    ghost var clearsRequested: nat
    /** Invalid-move callbacks due. */
    ghost var invalidPending: nat

    /** The board and its match collector agree on the grid and its size, every
        cell is empty or a tile type, the landing counter counts exactly the
        landings due, and the clear counter counts every clear animation that has
        ended since the board was made. */
    ghost predicate Valid()
      reads this, grid, matchCollector, matchCollector.checkedTiles
    {
      && 0 <= rows && 0 <= columns && 1 <= numberOfBlocks
      && grid.Length0 == rows && grid.Length1 == columns
      && matchCollector.grid == grid
      && matchCollector.rowCount == rows && matchCollector.columnCount == columns
      && matchCollector.Valid()
      && matches == matchCollector.matches
      && (forall r, c :: 0 <= r < rows && 0 <= c < columns ==>
            grid[r, c] == Empty || 0 <= grid[r, c] < numberOfBlocks)
      && tileFallingCount == landingsPending
      && tileClearedCount + clearsPending == clearsRequested
    }

    /** The grid as a value. */
    ghost function Cells(): Cells
      reads grid
    {
      Snapshot(grid, grid.Length0, grid.Length1)
    }

    /** Column `c`, top row first. */
    ghost function Column(c: int): (col: seq<int>)
      reads grid
      requires 0 <= c < grid.Length1
      ensures |col| == grid.Length0
      ensures forall r :: 0 <= r < |col| ==> col[r] == grid[r, c]
    {
      seq(grid.Length0, r requires 0 <= r < grid.Length0 reads grid => grid[r, c])
    }

    /** All columns, left to right. */
    ghost function Columns(): (cols: seq<seq<int>>)
      reads grid
      ensures |cols| == grid.Length1
      ensures forall c :: 0 <= c < |cols| ==> cols[c] == Column(c)
    {
      seq(grid.Length1, c requires 0 <= c < grid.Length1 reads grid => Column(c))
    }

    /** Makes a board of the given size whose every cell holds a tile type drawn
        from [0, numberOfBlocks), in the phase a new game starts in. */
    constructor Initialise(rows: int, columns: int, numberOfBlocks: int, minTilesToMatch: int)
      requires 0 <= rows && 0 <= columns && 1 <= numberOfBlocks
      ensures Valid() && fresh(grid) && fresh(matchCollector)
      ensures this.rows == rows && this.columns == columns
      ensures this.numberOfBlocks == numberOfBlocks && this.minTilesToMatch == minTilesToMatch
      ensures forall r, c :: 0 <= r < rows && 0 <= c < columns ==> 0 <= grid[r, c] < numberOfBlocks
      ensures state == InitialState && matches == []
      ensures newTileCount == 0 && tileFallingCount == 0 && tileClearedCount == 0
      ensures falls == [] && landingsPending == 0 && clearsPending == 0 && clearsRequested == 0
      ensures invalidPending == 0
    {
      this.rows := rows;
      this.columns := columns;
      this.numberOfBlocks := numberOfBlocks;
      this.minTilesToMatch := minTilesToMatch;
      var g := new int[rows, columns]((_, _) => 0);
      grid := g;
      var collector := new MatchCollector(g);
      collector.Init(rows, columns);
      matchCollector := collector;
      matches := [];
      newTileCount, tileFallingCount, tileClearedCount := 0, 0, 0;
      state := InitialState;
      falls := [];
      landingsPending, clearsPending, clearsRequested, invalidPending := 0, 0, 0, 0;
      new;
      var r := 0;
      while r < rows
        invariant 0 <= r <= rows
        modifies grid
        invariant forall i, j :: 0 <= i < rows && 0 <= j < columns ==> 0 <= grid[i, j] < numberOfBlocks
      {
        var c := 0;
        while c < columns
          invariant 0 <= c <= columns
          modifies grid
          invariant forall i, j :: 0 <= i < rows && 0 <= j < columns ==> 0 <= grid[i, j] < numberOfBlocks
        {
          grid[r, c] := GetRandomBlockIndex();
          c := c + 1;
        }
        r := r + 1;
      }
    }

    /** A tap on cell `pos`. It is acted on only while the game waits for input
        and only inside the board (the input layer passes no negative row or
        column); otherwise nothing changes. An accepted tap is handed to
        `DetectMatches`. */
    method ProcessTap(pos: GridPosition)
      requires Valid() && 0 <= pos.row && 0 <= pos.col
      modifies grid, this`state, this`matches, matchCollector`matches, matchCollector.checkedTiles
      modifies this`clearsPending, this`clearsRequested, this`invalidPending
      ensures Valid()
      ensures old(state) != WaitingForInput || pos.row >= rows || pos.col >= columns ==>
                && unchanged(grid) && state == old(state) && matches == old(matches)
                && clearsPending == old(clearsPending) && clearsRequested == old(clearsRequested)
                && invalidPending == old(invalidPending)
      ensures old(state) == WaitingForInput && pos.row < rows && pos.col < columns ==>
                && matches == FillFrom(old(Cells()), rows, columns, old(grid[pos.row, pos.col]), [], pos)
                && state == (if |matches| >= minTilesToMatch then ClearingMatches else ProcessingInput)
      ensures old(state) == WaitingForInput && pos.row < rows && pos.col < columns && |matches| >= minTilesToMatch ==>
                && (forall r, c :: 0 <= r < rows && 0 <= c < columns ==>
                      grid[r, c] == if GridPosition(r, c) in matches then Empty else old(grid[r, c]))
                && clearsPending == old(clearsPending) + |matches| && invalidPending == old(invalidPending)
      ensures old(state) == WaitingForInput && pos.row < rows && pos.col < columns && |matches| < minTilesToMatch ==>
                && unchanged(grid) && clearsPending == old(clearsPending) && invalidPending == old(invalidPending) + 1
      ensures clearsRequested - old(clearsRequested) == clearsPending - old(clearsPending)
    {
      if state == WaitingForInput {
        if pos.row < rows && pos.col < columns {
          DetectMatches(pos.row, pos.col);
        }
      }
    }

    /** Collects the match of the tapped cell. A match of at least
        `minTilesToMatch` cells is cleared; a smaller one leaves the grid as it
        was and starts the invalid-move animation, whose callback is then due. */
    method DetectMatches(row: int, column: int)
      requires Valid() && 0 <= row < rows && 0 <= column < columns
      modifies grid, this`state, this`matches, matchCollector`matches, matchCollector.checkedTiles
      modifies this`clearsPending, this`clearsRequested, this`invalidPending
      ensures Valid()
      ensures matches == FillFrom(old(Cells()), rows, columns, old(grid[row, column]), [], GridPosition(row, column))
      ensures |matches| >= minTilesToMatch ==>
                && state == ClearingMatches
                && (forall r, c :: 0 <= r < rows && 0 <= c < columns ==>
                      grid[r, c] == if GridPosition(r, c) in matches then Empty else old(grid[r, c]))
                && clearsPending == old(clearsPending) + |matches| && invalidPending == old(invalidPending)
      ensures |matches| < minTilesToMatch ==>
                && state == ProcessingInput && unchanged(grid)
                && clearsPending == old(clearsPending) && invalidPending == old(invalidPending) + 1
      ensures clearsRequested - old(clearsRequested) == clearsPending - old(clearsPending)
    {
      state := ProcessingInput;
      matches := matchCollector.DetectMatches(row, column);
      if |matches| >= minTilesToMatch {
        ClearMatches();
      } else {
        invalidPending := invalidPending + 1;
      }
    }

    /** The invalid-move callback: the game waits for input again. */
    method WaitForInput()
      requires Valid() && invalidPending > 0
      modifies this`state, this`invalidPending
      ensures Valid() && state == WaitingForInput && invalidPending == old(invalidPending) - 1
    {
      state := WaitingForInput;
      invalidPending := invalidPending - 1;
    }

    /** Empties every matched cell, last match first, and starts each cell's clear
        animation, whose callback is then due. */
    method ClearMatches()
      requires Valid()
      modifies grid, this`state, this`clearsPending, this`clearsRequested
      ensures Valid() && state == ClearingMatches
      ensures forall r, c :: 0 <= r < rows && 0 <= c < columns ==>
                grid[r, c] == if GridPosition(r, c) in matches then Empty else old(grid[r, c])
      ensures clearsPending == old(clearsPending) + |matches|
      ensures clearsRequested == old(clearsRequested) + |matches|
    {
      state := ClearingMatches;
      var i := |matches| - 1;
      while i >= 0
        invariant -1 <= i < |matches|
        invariant Valid() && state == ClearingMatches
        invariant forall r, c :: 0 <= r < rows && 0 <= c < columns && GridPosition(r, c) !in matches ==>
                    grid[r, c] == old(grid[r, c])
        invariant forall j :: i < j < |matches| ==> grid[matches[j].row, matches[j].col] == Empty
        invariant clearsPending == old(clearsPending) + |matches| - (i + 1)
        invariant clearsRequested == old(clearsRequested) + |matches| - (i + 1)
      {
        var pos := matches[i];
        grid[pos.row, pos.col] := Empty;
        clearsPending := clearsPending + 1;
        clearsRequested := clearsRequested + 1;
        i := i - 1;
      }
      forall r, c | 0 <= r < rows && 0 <= c < columns && GridPosition(r, c) in matches
        ensures grid[r, c] == Empty
      {
        var j :| 0 <= j < |matches| && matches[j] == GridPosition(r, c);
      }
    }

    /** The clear callback of one tile. Once as many clears have ended as the
        last match has cells, the columns fall and are refilled. The counter is
        never reset, so from the second clear on the test can pass before the
        current match has finished clearing, and again on later callbacks. */
    method OnTileCleared()
      requires Valid() && clearsPending > 0
      modifies grid, this`state, this`newTileCount, this`tileFallingCount, this`landingsPending, this`falls
      modifies this`tileClearedCount, this`clearsPending
      ensures Valid()
      ensures tileClearedCount == old(tileClearedCount) + 1 && clearsPending == old(clearsPending) - 1
      ensures tileClearedCount >= |matches| ==>
                && state == TilesFalling
                && AllRefilled(old(Columns()), Columns(), numberOfBlocks)
                && tileFallingCount == old(tileFallingCount) + TotalFalls(old(Columns()))
                && old(falls) <= falls && |falls| == |old(falls)| + TotalFalls(old(Columns()))
                && DownwardFrom(falls, |old(falls)|, rows, columns)
                && (columns > 0 ==> newTileCount == CountEmpty(old(Columns())[0]))
      ensures tileClearedCount < |matches| ==>
                && unchanged(grid) && state == old(state) && newTileCount == old(newTileCount)
                && tileFallingCount == old(tileFallingCount) && falls == old(falls)
    {
      tileClearedCount := tileClearedCount + 1;
      clearsPending := clearsPending - 1;
      if tileClearedCount >= |matches| {
        HandleEmptyTiles();
      }
    }

    /** Because the clear counter is never reset, a clear callback that arrives
        after its group was already refilled, and after every fall has landed,
        refills a full grid: no fall is issued, yet the phase becomes
        `TilesFalling`. No landing or invalid-move callback is then due to bring
        the phase back to `WaitingForInput`, so every later tap is ignored. */
    method LateClearStalls()
      requires Valid() && clearsPending > 0 && invalidPending == 0
      requires tileClearedCount + 1 >= |matches| && tileFallingCount == 0
      requires forall r, c :: 0 <= r < rows && 0 <= c < columns ==> grid[r, c] != Empty
      modifies grid, this`state, this`newTileCount, this`tileFallingCount, this`landingsPending, this`falls
      modifies this`tileClearedCount, this`clearsPending
      ensures Valid() && state == TilesFalling
      ensures tileFallingCount == 0 && landingsPending == 0 && invalidPending == 0
    {
      FullNoFalls(Columns());
      OnTileCleared();
    }

    /** The landing callback of one falling tile. When no fall is left in
        flight the game waits for input again. */
    method UpdateLanded()
      requires Valid() && landingsPending > 0
      modifies this`tileFallingCount, this`landingsPending, this`state
      ensures Valid()
      ensures tileFallingCount == old(tileFallingCount) - 1 && landingsPending == old(landingsPending) - 1
      ensures state == if tileFallingCount <= 0 then WaitingForInput else old(state)
    {
      tileFallingCount := tileFallingCount - 1;
      landingsPending := landingsPending - 1;
      if tileFallingCount <= 0 {
        state := WaitingForInput;
      }
    }

    /** Lets every column fall and refills it, from the rightmost column to the
        leftmost. Afterwards each column is its old compacted self with every empty
        cell given a tile type, so the grid is full, and one falling animation was
        started per moved tile and per new tile. */
    method HandleEmptyTiles()
      requires Valid()
      modifies grid, this`state, this`newTileCount, this`tileFallingCount, this`landingsPending, this`falls
      ensures Valid() && state == TilesFalling
      ensures AllRefilled(old(Columns()), Columns(), numberOfBlocks)
      ensures forall r, k :: 0 <= r < rows && 0 <= k < columns ==> grid[r, k] != Empty
      ensures tileFallingCount == old(tileFallingCount) + TotalFalls(old(Columns()))
      ensures old(falls) <= falls && |falls| == |old(falls)| + TotalFalls(old(Columns()))
      ensures DownwardFrom(falls, |old(falls)|, rows, columns)
      ensures columns > 0 ==> newTileCount == CountEmpty(old(Columns())[0])
    {
      ghost var cols := Columns();
      state := TilesFalling;
      var c := columns - 1;
      while c >= 0
        invariant -1 <= c < columns
        invariant Valid() && state == TilesFalling
        invariant Refilling(c, cols, old(falls), old(tileFallingCount), old(newTileCount))
      {
        RefillNextColumn(c, cols, old(falls), old(tileFallingCount), old(newTileCount));
        c := c - 1;
      }
      assert cols[0..] == cols;
      RefilledByCells(cols);
    }

    /** The state of `HandleEmptyTiles` once the columns right of `c` are done:
        they are refilled from their compacted selves in `cols`, the others are still
        as in `cols`, and the counters and fall instructions cover the columns done. */
    ghost predicate Refilling(c: int, cols: seq<seq<int>>, base: seq<Fall>, count0: int, tiles0: int)
      reads this, grid
    {
      && -1 <= c < columns && grid.Length0 == rows && grid.Length1 == columns && |cols| == columns
      && (forall k :: 0 <= k < columns ==> |cols[k]| == rows)
      && (forall r, k :: 0 <= r < rows && 0 <= k <= c ==> grid[r, k] == cols[k][r])
      && (forall r, k :: 0 <= r < rows && c < k < columns ==> RefilledAt(Packed(cols[k]), r, grid[r, k], numberOfBlocks))
      && tileFallingCount == count0 + TotalFalls(cols[c + 1..])
      && base <= falls && |falls| == |base| + TotalFalls(cols[c + 1..])
      && DownwardFrom(falls, |base|, rows, columns)
      && newTileCount == if c == columns - 1 then tiles0 else CountEmpty(cols[c + 1])
    }

    /** Refills column `c`, the next one of the loop of `HandleEmptyTiles`, and so
        extends `Refilling` by that column. */
    method RefillNextColumn(c: int, ghost cols: seq<seq<int>>, ghost base: seq<Fall>, ghost count0: int, ghost tiles0: int)
      requires Valid() && 0 <= c && Refilling(c, cols, base, count0, tiles0)
      modifies grid, this`newTileCount, this`tileFallingCount, this`landingsPending, this`falls
      ensures Valid() && Refilling(c - 1, cols, base, count0, tiles0)
    {
      ghost var f0 := falls;
      ghost var moved, spawned := HandleEmptyTilesInColumn(c, cols[c]);
      ColumnFallsStep(base, f0, falls, moved, spawned, cols, c, rows);
      assert cols[c..][1..] == cols[c + 1..];
    }

    /** One round of the loop of `HandleEmptyTiles`: counts the empty cells of
        column `c`, lets its tiles fall and refills its top. Afterwards the column
        is its old compacted self with every empty cell given a tile type. */
    method HandleEmptyTilesInColumn(c: int, ghost before: seq<int>) returns (ghost moved: seq<Fall>, ghost spawned: seq<Fall>)
      requires Valid() && 0 <= c < columns
      requires |before| == rows && forall r :: 0 <= r < rows ==> grid[r, c] == before[r]
      modifies grid, this`newTileCount, this`tileFallingCount, this`landingsPending, this`falls
      ensures Valid()
      ensures forall r :: 0 <= r < rows ==> RefilledAt(Packed(before), r, grid[r, c], numberOfBlocks)
      ensures forall r, k :: 0 <= r < rows && 0 <= k < columns && k != c ==> grid[r, k] == old(grid[r, k])
      ensures tileFallingCount == old(tileFallingCount) + ColumnFalls(before)
      ensures falls == old(falls) + (moved + spawned)
      ensures |moved| == Fallers(before) && DropsIn(moved, c, rows)
      ensures spawned == Spawns(c, CountEmpty(before))
      ensures newTileCount == CountEmpty(before)
    {
      assert Column(c) == before;
      ghost var f0 := falls;
      CountEmptyTilesInColumn(c);
      moved := DropExistingTilesInColumn(c);
      assert forall r :: 0 <= r < rows ==> grid[r, c] == Packed(before)[r];
      DropNewTilesInColumn(c);
      spawned := Spawns(c, CountEmpty(before));
      AppendAssoc(f0, moved, spawned);
    }

    /** Column by column refill, stated cell by cell, is `AllRefilled`. */
    lemma RefilledByCells(cols: seq<seq<int>>)
      requires 0 <= rows == grid.Length0 && columns == grid.Length1 && |cols| == columns
      requires forall k :: 0 <= k < columns ==> |cols[k]| == rows
      requires forall r, k :: 0 <= r < rows && 0 <= k < columns ==> RefilledAt(Packed(cols[k]), r, grid[r, k], numberOfBlocks)
      ensures AllRefilled(cols, Columns(), numberOfBlocks)
    {
      forall k | 0 <= k < columns
        ensures Refilled(Packed(cols[k]), Columns()[k], numberOfBlocks)
      {
        var col := Columns()[k];
        assert col == Column(k);
        forall i | 0 <= i < rows
          ensures RefilledAt(Packed(cols[k]), i, col[i], numberOfBlocks)
        {
          assert col[i] == grid[i, k];
        }
      }
    }

    /** Counts the empty cells of column `c` into `newTileCount`. */
    method CountEmptyTilesInColumn(c: int)
      requires Valid() && 0 <= c < columns
      modifies this`newTileCount
      ensures Valid()
      ensures newTileCount == CountEmpty(Column(c))
    {
      ghost var col := Column(c);
      var count := 0;
      var r := rows - 1;
      while r >= 0
        invariant -1 <= r < rows
        invariant count == CountEmpty(col[r + 1..])
      {
        assert col[r..][1..] == col[r + 1..];
        if grid[r, c] == Empty {
          count := count + 1;
        }
        r := r - 1;
      }
      assert col[0..] == col;
      newTileCount := count;
    }

    /** Lets the tiles of column `c` fall: scanning from the bottom row up, every
        empty cell with a tile somewhere above it takes the nearest such tile.
        Afterwards the column is compacted, one falling animation was started per
        tile that had an empty cell below it, and no other column changed. */
    method DropExistingTilesInColumn(c: int) returns (ghost moved: seq<Fall>)
      requires Valid() && 0 <= c < columns
      modifies grid, this`tileFallingCount, this`landingsPending, this`falls
      ensures Valid()
      ensures Column(c) == Packed(old(Column(c)))
      ensures forall r, k :: 0 <= r < rows && 0 <= k < columns && k != c ==> grid[r, k] == old(grid[r, k])
      ensures tileFallingCount == old(tileFallingCount) + Fallers(old(Column(c)))
      ensures falls == old(falls) + moved && |moved| == Fallers(old(Column(c))) && DropsIn(moved, c, rows)
    {
      ghost var orig, cur := Column(c), Column(c);
      moved := [];
      var r := rows - 1;
      while r >= 0
        invariant -1 <= r < rows
        invariant Valid()
        invariant forall i, k :: 0 <= i < rows && 0 <= k < columns && k != c ==> grid[i, k] == old(grid[i, k])
        invariant cur == Column(c)
        invariant Tiles(cur) == Tiles(orig) && SettledBelow(cur, r)
        invariant tileFallingCount - old(tileFallingCount) == Run(cur) - Run(orig)
        invariant falls == old(falls) + moved && |moved| == Run(cur) - Run(orig) && DropsIn(moved, c, rows)
      {
        if grid[r, c] == Empty {
          var rowAbove := RowOfTileAbove(r, c);
          if rowAbove != NotFound {
            ghost var f := Fall(c, rowAbove, r);
            DropTile(r, c, rowAbove);
            SettleMove(cur, rowAbove, r);
            cur := cur[r := cur[rowAbove]][rowAbove := Empty];
            DropsInAppend(moved, f, c, rows);
            AppendAssoc(old(falls), moved, [f]);
            moved := moved + [f];
          } else {
            SettleStep(cur, r);
          }
        } else {
          SettleStep(cur, r);
        }
        r := r - 1;
      }
      SettledIsPacked(cur);
      PackedByTiles(cur, orig);
      RunPacked(orig);
    }

    /** The nearest row above row `r` whose cell in column `c` holds a tile, or
        `NotFound` when every cell above is empty. */
    method RowOfTileAbove(r: int, c: int) returns (rowAbove: int)
      requires Valid() && 0 <= r < rows && 0 <= c < columns
      ensures NotFound <= rowAbove < r
      ensures rowAbove != NotFound ==> grid[rowAbove, c] != Empty
      ensures forall k :: rowAbove < k < r ==> grid[k, c] == Empty
    {
      var rAbove := r - 1;
      while rAbove >= 0
        invariant -1 <= rAbove < r
        invariant forall k :: rAbove < k < r ==> grid[k, c] == Empty
      {
        if grid[rAbove, c] != Empty {
          return rAbove;
        }
        rAbove := rAbove - 1;
      }
      return NotFound;
    }

    /** Moves the tile at (`rAbove`, `c`) down to (`r`, `c`), empties its old cell,
        and starts its falling animation, whose landing is then due. */
    method DropTile(r: int, c: int, rAbove: int)
      requires Valid() && 0 <= rAbove < r < rows && 0 <= c < columns
      modifies grid, this`tileFallingCount, this`landingsPending, this`falls
      ensures Valid()
      ensures grid[r, c] == old(grid[rAbove, c]) && grid[rAbove, c] == Empty
      ensures forall i, k :: 0 <= i < rows && 0 <= k < columns && (k != c || (i != r && i != rAbove)) ==>
                grid[i, k] == old(grid[i, k])
      ensures Column(c) == old(Column(c))[r := old(grid[rAbove, c])][rAbove := Empty]
      ensures tileFallingCount == old(tileFallingCount) + 1
      ensures falls == old(falls) + [Fall(c, rAbove, r)]
    {
      grid[r, c] := grid[rAbove, c];
      grid[rAbove, c] := Empty;
      falls := falls + [Fall(c, rAbove, r)];
      landingsPending := landingsPending + 1;
      tileFallingCount := tileFallingCount + 1;
    }

    /** Refills the top `newTileCount` rows of column `c`, the top row first: each
        gets a random tile type and the falling animation of a new tile from above
        the board, whose landing is then due. */
    method DropNewTilesInColumn(c: int)
      requires Valid() && 0 <= c < columns && 0 <= newTileCount <= rows
      modifies grid, this`tileFallingCount, this`landingsPending, this`falls
      ensures Valid()
      ensures forall r :: 0 <= r < rows ==>
                if r < newTileCount then 0 <= grid[r, c] < numberOfBlocks else grid[r, c] == old(grid[r, c])
      ensures forall r, k :: 0 <= r < rows && 0 <= k < columns && k != c ==> grid[r, k] == old(grid[r, k])
      ensures tileFallingCount == old(tileFallingCount) + newTileCount
      ensures falls == old(falls) + Spawns(c, newTileCount)
    {
      var i := newTileCount - 1;
      while i >= 0
        invariant -1 <= i < newTileCount
        invariant Valid()
        invariant forall r :: 0 <= r < rows ==>
                    if r < newTileCount - (i + 1) then 0 <= grid[r, c] < numberOfBlocks else grid[r, c] == old(grid[r, c])
        invariant forall r, k :: 0 <= r < rows && 0 <= k < columns && k != c ==> grid[r, k] == old(grid[r, k])
        invariant tileFallingCount == old(tileFallingCount) + newTileCount - (i + 1)
        invariant falls == old(falls) + Spawns(c, newTileCount)[..newTileCount - (i + 1)]
      {
        ghost var done := Spawns(c, newTileCount)[..newTileCount - (i + 1)];
        DropNewTile(c, i);
        assert Spawns(c, newTileCount)[..newTileCount - i] == done + [Fall(c, -(i + 1), newTileCount - (i + 1))];
        AppendAssoc(old(falls), done, [Fall(c, -(i + 1), newTileCount - (i + 1))]);
        i := i - 1;
      }
      assert Spawns(c, newTileCount)[..newTileCount] == Spawns(c, newTileCount);
    }

    /** Gives the cell of new tile number `tileNumber` (counted from the bottom of
        the gap) a random tile type and starts its fall from `tileNumber + 1` rows
        above the board; its landing is then due. */
    method DropNewTile(c: int, tileNumber: int)
      requires Valid() && 0 <= c < columns && 0 <= tileNumber < newTileCount <= rows
      modifies grid, this`tileFallingCount, this`landingsPending, this`falls
      ensures Valid()
      ensures 0 <= grid[newTileCount - (tileNumber + 1), c] < numberOfBlocks
      ensures forall r, k :: 0 <= r < rows && 0 <= k < columns && (k != c || r != newTileCount - (tileNumber + 1)) ==>
                grid[r, k] == old(grid[r, k])
      ensures tileFallingCount == old(tileFallingCount) + 1
      ensures falls == old(falls) + [Fall(c, -(tileNumber + 1), newTileCount - (tileNumber + 1))]
    {
      var destinationRow := newTileCount - (tileNumber + 1);
      var originRow := -(tileNumber + 1);
      grid[destinationRow, c] := GetRandomBlockIndex();
      falls := falls + [Fall(c, originRow, destinationRow)];
      landingsPending := landingsPending + 1;
      tileFallingCount := tileFallingCount + 1;
    }

    /** A tile type drawn at random: any value of [0, numberOfBlocks). */
    method GetRandomBlockIndex() returns (index: int)
      requires 1 <= numberOfBlocks
      ensures 0 <= index < numberOfBlocks
    {
      index :| 0 <= index < numberOfBlocks;
    }
  }
}
