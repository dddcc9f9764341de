/** What compaction and refill do to one column, stated on values. A column is read
    top to bottom: index 0 is the top row. */
module Gravity {
  import opened Grid

  /** One instruction to the presentation: the tile that now sits at
      (`destination`, `column`) falls there from row `origin`. A negative origin is
      a row above the board. */
  datatype Fall = Fall(column: int, origin: int, destination: int)

  /** The tiles of a column, top to bottom, without its empty cells. */
  function Tiles(col: seq<int>): (t: seq<int>)
    ensures |t| <= |col|
    ensures forall i :: 0 <= i < |t| ==> t[i] != Empty
  {
    if col == [] then []
    else if col[0] == Empty then Tiles(col[1..])
    else [col[0]] + Tiles(col[1..])
  }

  /** The number of empty cells of a column: those that are not tiles. */
  function CountEmpty(col: seq<int>): (n: nat)
    ensures n + |Tiles(col)| == |col|
    ensures n == 0 ==> Tiles(col) == col
  {
    if col == [] then 0
    else if col[0] == Empty then 1 + CountEmpty(col[1..])
    else CountEmpty(col[1..])
  }

  /** `n` empty cells. */
  function Gap(n: nat): (s: seq<int>)
    ensures |s| == n && forall i :: 0 <= i < n ==> s[i] == Empty
  {
    if n == 0 then [] else [Empty] + Gap(n - 1)
  }

  /** The column compaction leaves: every tile kept, in the same top-to-bottom
      order, packed against the bottom, with all the empty cells above them. */
  function Packed(col: seq<int>): (p: seq<int>)
    ensures |p| == |col|
    ensures forall i :: 0 <= i < |p| ==> (p[i] == Empty <==> i < CountEmpty(col))
    ensures p[CountEmpty(col)..] == Tiles(col)
  {
    Gap(CountEmpty(col)) + Tiles(col)
  }

  /** Every empty cell has only empty cells above it: nothing is left to fall. */
  ghost predicate Settled(col: seq<int>)
  {
    forall i, j :: 0 <= j < i < |col| && col[i] == Empty ==> col[j] == Empty
  }

  /** The length of the longest run of tiles at the bottom of a column: the tiles
      that have no empty cell below them. */
  function Run(col: seq<int>): (r: nat)
    ensures r <= |col|
    ensures forall i :: |col| - r <= i < |col| ==> col[i] != Empty
    ensures r < |col| ==> col[|col| - r - 1] == Empty
  {
    if col == [] || col[|col| - 1] == Empty then 0
    else 1 + Run(col[..|col| - 1])
  }

  /** The number of tiles compaction moves: those with an empty cell somewhere
      below them. */
  function Fallers(col: seq<int>): (n: nat)
  {
    RunAreTiles(col);
    |Tiles(col)| - Run(col)
  }

  /** The number of fall instructions one column issues: one per moved tile and
      one per new tile. */
  function ColumnFalls(col: seq<int>): (n: nat)
  {
    Fallers(col) + CountEmpty(col)
  }

  /** The fall instructions of all the given columns together. */
  function TotalFalls(cols: seq<seq<int>>): (n: nat)
  {
    if cols == [] then 0 else ColumnFalls(cols[0]) + TotalFalls(cols[1..])
  }

  /** The fall instructions of refilling the top `k` rows of column `c`, in the
      order they are issued. Each new tile lands in one of the top `k` rows, its
      origin row is its destination row less `k`, so above the board, and the
      origins rise with the distance from the stack, so the new tiles queue up
      instead of overlapping. */
  function Spawns(c: int, k: nat): (fs: seq<Fall>)
    ensures |fs| == k
    ensures forall j :: 0 <= j < k ==>
              fs[j].column == c && fs[j].destination == j && fs[j].origin == fs[j].destination - k < 0
    ensures forall i, j :: 0 <= i < j < k ==> fs[i].origin < fs[j].origin
  {
    seq(k, j => Fall(c, j - k, j))
  }

  /** `after` is `packed` with each empty cell given a tile type in [0, blocks)
      and every tile left where it is. */
  ghost predicate Refilled(packed: seq<int>, after: seq<int>, blocks: int)
  {
    && |after| == |packed|
    && forall i :: 0 <= i < |packed| ==> RefilledAt(packed, i, after[i], blocks)
  }

  /** Row `i` of `packed` holds `x` after the refill: a tile type in [0, blocks)
      where the cell was empty, the same tile otherwise. */
  ghost predicate RefilledAt(packed: seq<int>, i: int, x: int, blocks: int)
  {
    0 <= i < |packed| && if packed[i] == Empty then 0 <= x < blocks else x == packed[i]
  }

  // ---------------------------------------------------------------------------
  // Lemmas

  /** Tiles distributes over concatenation. */
  lemma {:induction false} TilesAppend(s: seq<int>, t: seq<int>)
    ensures Tiles(s + t) == Tiles(s) + Tiles(t)
  {
    if s == [] {
      assert s + t == t;
    } else {
      assert (s + t)[1..] == s[1..] + t;
      TilesAppend(s[1..], t);
    }
  }

  /** A column of empty cells holds no tiles. */
  lemma {:induction false} GapTiles(n: nat)
    ensures Tiles(Gap(n)) == []
  {
    if n > 0 {
      assert Gap(n)[1..] == Gap(n - 1);
      GapTiles(n - 1);
    }
  }

  /** The bottom run is made of tiles, so it is no longer than the column's tiles. */
  lemma RunAreTiles(col: seq<int>)
    ensures Run(col) <= |Tiles(col)|
  {
    var k := |col| - Run(col);
    assert col == col[..k] + col[k..];
    TilesAppend(col[..k], col[k..]);
    assert CountEmpty(col[k..]) == 0 by {
      NoEmptyCount(col[k..]);
    }
  }

  /** A column without empty cells counts none. */
  lemma {:induction false} NoEmptyCount(s: seq<int>)
    requires forall i :: 0 <= i < |s| ==> s[i] != Empty
    ensures CountEmpty(s) == 0
  {
    if s != [] {
      NoEmptyCount(s[1..]);
    }
  }

  /** Compaction keeps the tiles and their order. */
  lemma PackedTiles(col: seq<int>)
    ensures Tiles(Packed(col)) == Tiles(col)
  {
    TilesAppend(Gap(CountEmpty(col)), Tiles(col));
    GapTiles(CountEmpty(col));
    NoEmptyCount(Tiles(col));
  }

  /** A column holds its tiles and its empty cells and nothing else. */
  lemma {:induction false} TilesAndGap(col: seq<int>)
    ensures multiset(col) == multiset(Tiles(col))[Empty := CountEmpty(col)]
  {
    if col != [] {
      var head, rest := col[0], col[1..];
      TilesAndGap(rest);
      assert col == [head] + rest;
      if head == Empty {
        assert Tiles(col) == Tiles(rest);
      } else {
        assert Tiles(col) == [head] + Tiles(rest);
      }
    }
  }

  /** `n` empty cells are `n` copies of the empty value. */
  lemma {:induction false} GapMultiset(n: nat)
    ensures multiset(Gap(n)) == multiset{}[Empty := n]
  {
    if n > 0 {
      GapMultiset(n - 1);
    }
  }

  /** Compaction neither creates nor destroys a value: the column after it is a
      permutation of the column before. */
  lemma PackedConserves(col: seq<int>)
    ensures multiset(Packed(col)) == multiset(col)
  {
    TilesAndGap(col);
    GapMultiset(CountEmpty(col));
    assert multiset(Tiles(col))[Empty] == 0;
  }

  /** Compaction leaves nothing to fall, and a column with nothing to fall is
      already compacted. */
  lemma PackedSettled(col: seq<int>)
    ensures Settled(Packed(col))
    ensures Settled(col) ==> Packed(col) == col
  {
    if Settled(col) {
      SettledIsPacked(col);
    }
  }

  lemma {:induction false} SettledIsPacked(col: seq<int>)
    requires Settled(col)
    ensures Packed(col) == col
  {
    if col != [] {
      var rest := col[1..];
      if col[0] == Empty {
        assert Settled(rest) by {
          forall i, j | 0 <= j < i < |rest| && rest[i] == Empty ensures rest[j] == Empty {
            assert col[i + 1] == Empty;
          }
        }
        SettledIsPacked(rest);
        assert Tiles(col) == Tiles(rest);
        assert Gap(CountEmpty(col)) == [Empty] + Gap(CountEmpty(rest));
        assert col == [Empty] + rest;
      } else {
        assert forall i :: 0 <= i < |col| ==> col[i] != Empty;
        NoEmptyCount(col);
      }
    }
  }

  /** Two columns of one height with the same tiles in the same order compact to
      the same column. */
  lemma PackedByTiles(s: seq<int>, t: seq<int>)
    requires |s| == |t| && Tiles(s) == Tiles(t)
    ensures Packed(s) == Packed(t)
  {
  }

  /** A compacted column moves nothing, and a column that moves nothing is
      compacted. */
  lemma FallersSettled(col: seq<int>)
    ensures Fallers(col) == 0 <==> Settled(col)
  {
    var k := |col| - Run(col);
    assert col == col[..k] + col[k..];
    TilesAppend(col[..k], col[k..]);
    NoEmptyCount(col[k..]);
    if Fallers(col) == 0 {
      assert |Tiles(col[..k])| == 0;
      assert CountEmpty(col[..k]) == k;
      AllEmpty(col[..k]);
    } else {
      assert |Tiles(col[..k])| > 0;
      var i :| 0 <= i < |Tiles(col[..k])|;
      TileWitness(col[..k]);
      var j :| 0 <= j < k && col[j] != Empty;
      assert col[k - 1] == Empty;
    }
  }

  /** A column whose every cell is counted empty is all empty. */
  lemma {:induction false} AllEmpty(s: seq<int>)
    requires CountEmpty(s) == |s|
    ensures forall i :: 0 <= i < |s| ==> s[i] == Empty
  {
    if s != [] {
      AllEmpty(s[1..]);
      assert forall i :: 1 <= i < |s| ==> s[i] == s[1..][i - 1];
    }
  }

  /** A column with a tile has a cell that is not empty. */
  lemma {:induction false} TileWitness(s: seq<int>)
    requires |Tiles(s)| > 0
    ensures exists j :: 0 <= j < |s| && s[j] != Empty
  {
    if s[0] == Empty {
      TileWitness(s[1..]);
      var j :| 0 <= j < |s[1..]| && s[1..][j] != Empty;
      assert s[j + 1] != Empty;
    }
  }

  /** Moving the tile at row `a` down into the empty row `r`, across empty rows
      only, keeps the column's tiles and their order. */
  lemma MoveKeepsTiles(s: seq<int>, a: int, r: int)
    requires 0 <= a < r < |s| && s[a] != Empty
    requires forall k :: a < k <= r ==> s[k] == Empty
    ensures Tiles(s[r := s[a]][a := Empty]) == Tiles(s)
  {
    TilesBeforeMove(s, a, r);
    TilesAfterMove(s, a, r);
  }

  /** The tiles of a column whose tile at row `a` has only empty cells down to row `r`. */
  lemma TilesBeforeMove(s: seq<int>, a: int, r: int)
    requires 0 <= a < r < |s| && s[a] != Empty
    requires forall k :: a < k <= r ==> s[k] == Empty
    ensures Tiles(s) == Tiles(s[..a]) + ([s[a]] + Tiles(s[r + 1..]))
  {
    TilesSplitAt(s, a);
    TileThenGap(s[a..], r - a + 1);
    assert s[a..][r - a + 1..] == s[r + 1..];
  }

  /** A tile followed by `n - 1` empty cells contributes the tile alone. */
  lemma TileThenGap(u: seq<int>, n: int)
    requires 0 < n <= |u| && u[0] != Empty
    requires forall k :: 0 < k < n ==> u[k] == Empty
    ensures Tiles(u) == [u[0]] + Tiles(u[n..])
  {
    assert Tiles(u) == [u[0]] + Tiles(u[1..]);
    assert Tiles(u[1..]) == Tiles(u[n..]) by {
      EmptyTiles(u[1..n]);
      assert u[1..] == u[1..n] + u[n..];
      TilesAppend(u[1..n], u[n..]);
    }
  }

  /** The tiles of the same column once that tile has moved down to row `r`. */
  lemma TilesAfterMove(s: seq<int>, a: int, r: int)
    requires 0 <= a < r < |s| && s[a] != Empty
    requires forall k :: a < k <= r ==> s[k] == Empty
    ensures Tiles(s[r := s[a]][a := Empty]) == Tiles(s[..a]) + ([s[a]] + Tiles(s[r + 1..]))
  {
    var x, gap, back := s[a], s[a + 1..r + 1], s[r + 1..];
    EmptyTiles(gap);
    assert s[r := x][a := Empty] == s[..a] + (gap + ([x] + back));
    TilesAppend(s[..a], gap + ([x] + back));
    TilesAppend(gap, [x] + back);
    assert ([x] + back)[1..] == back;
  }

  /** Tiles of a column split at row `a`. */
  lemma TilesSplitAt(s: seq<int>, a: int)
    requires 0 <= a <= |s|
    ensures Tiles(s) == Tiles(s[..a]) + Tiles(s[a..])
  {
    assert s == s[..a] + s[a..];
    TilesAppend(s[..a], s[a..]);
  }

  /** A column of empty cells holds no tiles. */
  lemma EmptyTiles(s: seq<int>)
    requires forall i :: 0 <= i < |s| ==> s[i] == Empty
    ensures Tiles(s) == []
  {
    GapCount(s);
  }

  /** A column of empty cells counts all of them. */
  lemma {:induction false} GapCount(s: seq<int>)
    requires forall i :: 0 <= i < |s| ==> s[i] == Empty
    ensures CountEmpty(s) == |s|
  {
    if s != [] {
      GapCount(s[1..]);
    }
  }

  /** The rows below row `r` are settled: an empty cell there has only empty cells
      above it, in the whole column. */
  ghost predicate SettledBelow(s: seq<int>, r: int)
  {
    forall i, j :: r < i < |s| && 0 <= j < i && s[i] == Empty ==> s[j] == Empty
  }

  /** One step of the bottom-up scan that moves nothing: row `r` holds a tile, or
      every row above it is empty. */
  lemma SettleStep(s: seq<int>, r: int)
    requires 0 <= r < |s| && SettledBelow(s, r)
    requires s[r] != Empty || forall k :: 0 <= k < r ==> s[k] == Empty
    ensures SettledBelow(s, r - 1)
  {
  }

  /** One step of the bottom-up scan that moves the nearest tile above the empty
      row `r` down into it: the column keeps its tiles, stays settled one row
      higher, and its bottom run grows by that tile. */
  lemma SettleMove(s: seq<int>, a: int, r: int)
    requires 0 <= a < r < |s| && s[a] != Empty && s[r] == Empty
    requires forall k :: a < k < r ==> s[k] == Empty
    requires SettledBelow(s, r)
    ensures SettledBelow(s[r := s[a]][a := Empty], r - 1)
    ensures Tiles(s[r := s[a]][a := Empty]) == Tiles(s)
    ensures Run(s[r := s[a]][a := Empty]) == Run(s) + 1
  {
    forall k | r < k < |s| ensures s[k] != Empty {
      assert 0 <= a < k;
    }
    MoveKeepsTiles(s, a, r);
    RunAfterMove(s, a, r);
  }

  /** Fall instructions of column `c` that each go strictly down to a row of a
      board of `rows` rows, from a row of the board. */
  ghost predicate DropsIn(fs: seq<Fall>, c: int, rows: int)
  {
    forall i :: 0 <= i < |fs| ==> fs[i].column == c && 0 <= fs[i].origin < fs[i].destination < rows
  }

  /** A fall instruction of a board of `rows` rows and `columns` columns: it lands
      in a cell of the board, coming from a higher row (possibly above the board). */
  ghost predicate Downward(f: Fall, rows: int, columns: int)
  {
    0 <= f.column < columns && f.origin < f.destination && 0 <= f.destination < rows
  }

  /** Every fall instruction of `fs` from index `lo` on goes down into the board. */
  ghost predicate DownwardFrom(fs: seq<Fall>, lo: nat, rows: int, columns: int)
  {
    forall i :: lo <= i < |fs| ==> Downward(fs[i], rows, columns)
  }

  /** The fall instructions one column appends to `f0`, the compaction falls
      `moved` and then the new tiles' falls `spawned`, all go down into the board;
      so if those of `f0` from index `lo` on did, all of `fs` from `lo` on do. */
  lemma ColumnFallsDownward(fs: seq<Fall>, f0: seq<Fall>, moved: seq<Fall>, spawned: seq<Fall>, lo: int,
                            c: int, k: nat, rows: int, columns: int)
    requires 0 <= lo && 0 <= c < columns && k <= rows
    requires fs == f0 + (moved + spawned)
    requires forall i :: lo <= i < |f0| ==> Downward(f0[i], rows, columns)
    requires DropsIn(moved, c, rows) && spawned == Spawns(c, k)
    ensures f0 <= fs && |fs| == |f0| + |moved| + |spawned|
    ensures forall i :: lo <= i < |fs| ==> Downward(fs[i], rows, columns)
  {
    forall i | lo <= i < |fs| ensures Downward(fs[i], rows, columns) {
      if i < |f0| {
        assert f0[i] == fs[i];
      } else if i < |f0| + |moved| {
        assert moved[i - |f0|] == fs[i];
      } else {
        assert spawned[i - |f0| - |moved|] == fs[i];
      }
    }
  }

  /** One round of the right-to-left column loop, on the fall instructions: the
      rounds for columns `c + 1` on appended theirs to `base` giving `f0`, and the
      round for column `c` appends its compaction falls and its new tiles' falls.
      Every instruction appended goes down into the board, and there are as many
      as the columns from `c` on issue. */
  lemma ColumnFallsStep(base: seq<Fall>, f0: seq<Fall>, fs: seq<Fall>, moved: seq<Fall>, spawned: seq<Fall>,
                        cols: seq<seq<int>>, c: int, rows: int)
    requires 0 <= c < |cols| && |cols[c]| == rows
    requires base <= f0 && |f0| == |base| + TotalFalls(cols[c + 1..])
    requires DownwardFrom(f0, |base|, rows, |cols|)
    requires fs == f0 + (moved + spawned)
    requires |moved| == Fallers(cols[c]) && DropsIn(moved, c, rows) && spawned == Spawns(c, CountEmpty(cols[c]))
    ensures base <= fs && |fs| == |base| + TotalFalls(cols[c..])
    ensures DownwardFrom(fs, |base|, rows, |cols|)
  {
    ColumnFallsDownward(fs, f0, moved, spawned, |base|, c, CountEmpty(cols[c]), rows, |cols|);
    assert cols[c..][1..] == cols[c + 1..];
    assert forall i :: 0 <= i < |base| ==> base[i] == f0[i] == fs[i];
  }

  /** Columns without an empty cell issue no fall instruction: nothing moves and
      nothing is refilled. */
  lemma {:induction false} FullNoFalls(cols: seq<seq<int>>)
    requires forall k, r :: 0 <= k < |cols| && 0 <= r < |cols[k]| ==> cols[k][r] != Empty
    ensures TotalFalls(cols) == 0
  {
    if cols != [] {
      var col := cols[0];
      NoEmptyCount(col);
      RunExact(col, 0);
      FullNoFalls(cols[1..]);
    }
  }

  /** Concatenation is associative. */
  lemma AppendAssoc<T>(a: seq<T>, b: seq<T>, c: seq<T>)
    ensures (a + b) + c == a + (b + c)
  {
  }

  lemma DropsInAppend(fs: seq<Fall>, f: Fall, c: int, rows: int)
    requires DropsIn(fs, c, rows)
    requires f.column == c && 0 <= f.origin < f.destination < rows
    ensures DropsIn(fs + [f], c, rows)
  {
  }

  /** A column whose cells from row `k` down are tiles, with an empty cell just
      above them, has a bottom run of exactly those tiles. */
  lemma RunExact(s: seq<int>, k: int)
    requires 0 <= k <= |s|
    requires forall i :: k <= i < |s| ==> s[i] != Empty
    requires k > 0 ==> s[k - 1] == Empty
    ensures Run(s) == |s| - k
  {
  }

  /** Moving a tile down onto the top of the bottom run lengthens the run by one. */
  lemma RunAfterMove(s: seq<int>, a: int, r: int)
    requires 0 <= a < r < |s| && s[a] != Empty
    requires forall k :: a < k <= r ==> s[k] == Empty
    requires forall k :: r < k < |s| ==> s[k] != Empty
    ensures Run(s[r := s[a]][a := Empty]) == Run(s) + 1
  {
    var t := s[r := s[a]][a := Empty];
    RunExact(s, r + 1);
    RunExact(t, r);
  }

  /** In a compacted column every tile is in the bottom run. */
  lemma RunPacked(col: seq<int>)
    ensures Run(Packed(col)) == |Tiles(col)|
  {
    RunExact(Packed(col), CountEmpty(col));
  }

  /** After compaction and refill a column is full, and every new tile is a
      valid tile type. */
  lemma RefilledFull(col: seq<int>, after: seq<int>, blocks: int)
    requires Refilled(Packed(col), after, blocks)
    ensures |after| == |col|
    ensures forall i :: 0 <= i < |after| ==> after[i] != Empty
  {
  }

  /** After compaction and refill the old tiles sit at the bottom of the column
      in their old order. */
  lemma RefilledKeepsTiles(col: seq<int>, after: seq<int>, blocks: int)
    requires Refilled(Packed(col), after, blocks)
    ensures after[CountEmpty(col)..] == Tiles(col)
  {
    var p, k := Packed(col), CountEmpty(col);
    forall i | k <= i < |after| ensures after[i] == p[i] {
      assert p[i] != Empty;
    }
  }
}
