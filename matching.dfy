/** Flood-fill match detection: from a tapped cell, the 4-connected group of cells
    that hold the same value. */
module Matching {
  import opened Grid

  /** A walk over cells of `g` that all hold `v`, each step going to a left, right,
      upper or lower neighbour. */
  ghost predicate IsPath(g: Cells, v: int, path: seq<GridPosition>)
  {
    && |path| > 0
    && (forall i :: 0 <= i < |path| ==> InGrid(g, path[i]) && At(g, path[i]) == v)
    && (forall i :: 0 <= i < |path| - 1 ==> Adjacent(path[i], path[i + 1]))
  }

  /** `b` can be reached from `a` by same-valued neighbour steps. */
  ghost predicate Reachable(g: Cells, a: GridPosition, b: GridPosition)
    requires InGrid(g, a)
  {
    exists path :: IsPath(g, At(g, a), path) && path[0] == a && path[|path| - 1] == b
  }

  /** If neighbour `q` of `p` is a cell of `p`'s value, it is in `ms`. */
  ghost predicate SameValuedIn(g: Cells, p: GridPosition, q: GridPosition, ms: seq<GridPosition>)
    requires InGrid(g, p)
  {
    InGrid(g, q) && At(g, q) == At(g, p) ==> q in ms
  }

  /** Each of `p`'s left, right, upper and lower neighbours that holds `p`'s value
      is in `ms`. */
  ghost predicate ClosedAt(g: Cells, ms: seq<GridPosition>, p: GridPosition)
    requires InGrid(g, p)
  {
    && SameValuedIn(g, p, Left(p), ms)
    && SameValuedIn(g, p, Right(p), ms)
    && SameValuedIn(g, p, Up(p), ms)
    && SameValuedIn(g, p, Down(p), ms)
  }

  /** Closure in terms of adjacency: every same-valued neighbour of a closed cell is in `ms`. */
  lemma ClosedAtAdjacent(g: Cells, ms: seq<GridPosition>, p: GridPosition, q: GridPosition)
    requires InGrid(g, p) && ClosedAt(g, ms, p)
    requires Adjacent(p, q) && InGrid(g, q) && At(g, q) == At(g, p)
    ensures q in ms
  {
    AdjacentIsNeighbour(p, q);
  }

  /** The state of a flood fill from `start` that has so far collected `ms`: the
      start comes first, nothing twice, and only cells reachable from the start. */
  ghost predicate Collecting(g: Cells, start: GridPosition, ms: seq<GridPosition>)
    requires InGrid(g, start)
  {
    && (ms != [] ==> ms[0] == start)
    && NoDuplicates(ms)
    && (forall i :: 0 <= i < |ms| ==>
          InGrid(g, ms[i]) && At(g, ms[i]) == At(g, start) && Reachable(g, start, ms[i]))
  }

  /** `ms` is a complete match from `start`: it begins with `start`, holds no position
      twice, holds only cells of `start`'s value reachable from `start`, and is closed
      under same-valued neighbours. */
  ghost predicate IsMatch(g: Cells, start: GridPosition, ms: seq<GridPosition>)
    requires InGrid(g, start)
  {
    && |ms| > 0
    && Collecting(g, start, ms)
    && (forall i :: 0 <= i < |ms| ==> ClosedAt(g, ms, ms[i]))
  }

  /** Every cell reaches itself. */
  lemma ReachSelf(g: Cells, a: GridPosition)
    requires InGrid(g, a)
    ensures Reachable(g, a, a)
  {
    assert IsPath(g, At(g, a), [a]);
  }

  /** A same-valued neighbour of a reachable cell is reachable. */
  lemma ReachStep(g: Cells, start: GridPosition, p: GridPosition, q: GridPosition)
    requires InGrid(g, start) && InGrid(g, q)
    requires Reachable(g, start, p) && Adjacent(p, q)
    ensures At(g, q) == At(g, start) ==> Reachable(g, start, q)
  {
    if At(g, q) == At(g, start) {
      var path :| IsPath(g, At(g, start), path) && path[0] == start && path[|path| - 1] == p;
      var longer := path + [q];
      assert IsPath(g, At(g, start), longer);
      assert longer[0] == start && longer[|longer| - 1] == q;
    }
  }

  /** A walk that starts inside a set closed under same-valued neighbours never
      leaves it. */
  lemma {:induction false} PathStaysInside(g: Cells, v: int, ms: seq<GridPosition>, path: seq<GridPosition>)
    requires forall i :: 0 <= i < |ms| ==> InGrid(g, ms[i]) && At(g, ms[i]) == v && ClosedAt(g, ms, ms[i])
    requires IsPath(g, v, path) && path[0] in ms
    ensures forall i :: 0 <= i < |path| ==> path[i] in ms
  {
    if |path| > 1 {
      var front := path[..|path| - 1];
      assert IsPath(g, v, front);
      PathStaysInside(g, v, ms, front);
      var n := |path| - 1;
      assert path[n - 1] == front[n - 1];
      assert path[n - 1] in ms;
      var j :| 0 <= j < |ms| && ms[j] == path[n - 1];
      ClosedAtAdjacent(g, ms, ms[j], path[n]);
      assert forall i :: 0 <= i < n ==> path[i] == front[i];
    }
  }

  /** A match is exactly the connected component of its start: a cell is in it
      if and only if it is reachable from the start. */
  lemma MatchIsComponent(g: Cells, start: GridPosition, ms: seq<GridPosition>, p: GridPosition)
    requires InGrid(g, start) && IsMatch(g, start, ms)
    ensures p in ms <==> InGrid(g, p) && Reachable(g, start, p)
  {
    if InGrid(g, p) && Reachable(g, start, p) {
      var path :| IsPath(g, At(g, start), path) && path[0] == start && path[|path| - 1] == p;
      PathStaysInside(g, At(g, start), ms, path);
    }
  }

  /** Two matches from the same start on the same grid hold the same positions and
      have the same size. */
  lemma MatchDeterministic(g: Cells, start: GridPosition, ms1: seq<GridPosition>, ms2: seq<GridPosition>)
    requires InGrid(g, start) && IsMatch(g, start, ms1) && IsMatch(g, start, ms2)
    ensures Elements(ms1) == Elements(ms2)
    ensures |ms1| == |ms2|
  {
    forall p ensures p in Elements(ms1) <==> p in Elements(ms2) {
      MatchIsComponent(g, start, ms1, p);
      MatchIsComponent(g, start, ms2, p);
    }
    ElementsCard(ms1);
    ElementsCard(ms2);
  }

  /** A match holds at least the start and at most every cell of the board. */
  lemma MatchSize(g: Cells, rows: nat, columns: nat, start: GridPosition, ms: seq<GridPosition>)
    requires IsRectangle(g, rows, columns) && InGrid(g, start) && IsMatch(g, start, ms)
    ensures 1 <= |ms| <= rows * columns
  {
    CellBound(ms, rows, columns);
  }

  /** A match holds every cell of a same-valued walk that meets it. */
  lemma PathInMatch(g: Cells, v: int, ms: seq<GridPosition>, path: seq<GridPosition>, k: int)
    requires forall i :: 0 <= i < |ms| ==> InGrid(g, ms[i]) && At(g, ms[i]) == v && ClosedAt(g, ms, ms[i])
    requires IsPath(g, v, path) && 0 <= k < |path| && path[k] in ms
    ensures forall i :: 0 <= i < |path| ==> path[i] in ms
  {
    var i := k;
    while i + 1 < |path|
      invariant k <= i < |path| && forall j :: k <= j <= i ==> path[j] in ms
    {
      NeighbourIn(g, v, ms, path[i], path[i + 1]);
      i := i + 1;
    }
    i := k;
    while i > 0
      invariant 0 <= i <= k && forall j :: i <= j < |path| ==> path[j] in ms
    {
      NeighbourIn(g, v, ms, path[i], path[i - 1]);
      i := i - 1;
    }
  }

  /** A same-valued neighbour of a member of a closed collection is a member. */
  lemma NeighbourIn(g: Cells, v: int, ms: seq<GridPosition>, p: GridPosition, q: GridPosition)
    requires forall i :: 0 <= i < |ms| ==> InGrid(g, ms[i]) && At(g, ms[i]) == v && ClosedAt(g, ms, ms[i])
    requires p in ms && (Adjacent(p, q) || Adjacent(q, p)) && InGrid(g, q) && At(g, q) == v
    ensures q in ms
  {
    var n :| 0 <= n < |ms| && ms[n] == p;
    AdjacentIsNeighbour(p, q);
  }

  /** The size of a match is the size of its component, given as a same-valued
      walk through the start that visits each cell once and is closed under
      same-valued neighbours. */
  lemma ComponentSize(g: Cells, start: GridPosition, ms: seq<GridPosition>, comp: seq<GridPosition>)
    requires InGrid(g, start) && IsMatch(g, start, ms)
    requires IsPath(g, At(g, start), comp) && NoDuplicates(comp) && start in comp
    requires forall i :: 0 <= i < |comp| ==> ClosedAt(g, comp, comp[i])
    ensures |ms| == |comp|
  {
    var k :| 0 <= k < |comp| && comp[k] == start;
    PathInMatch(g, At(g, start), ms, comp, k);
    forall i | 0 <= i < |ms| ensures ms[i] in comp {
      var path :| IsPath(g, At(g, start), path) && path[0] == start && path[|path| - 1] == ms[i];
      PathStaysInside(g, At(g, start), comp, path);
    }
    assert Elements(ms) == Elements(comp);
    ElementsCard(ms);
    ElementsCard(comp);
  }

  /** Growing a collection keeps every cell closed that was closed before. */
  lemma ClosedGrows(g: Cells, small: seq<GridPosition>, big: seq<GridPosition>, p: GridPosition)
    requires InGrid(g, p) && ClosedAt(g, small, p) && small <= big
    ensures ClosedAt(g, big, p)
  {
    InPrefix(Left(p), small, big);
    InPrefix(Right(p), small, big);
    InPrefix(Up(p), small, big);
    InPrefix(Down(p), small, big);
  }

  /** A partial fill on a `rows` by `columns` grid: cells of the grid, none twice. */
  ghost predicate Partial(g: Cells, rows: nat, columns: nat, vis: seq<GridPosition>)
  {
    && IsRectangle(g, rows, columns)
    && NoDuplicates(vis)
    && forall i :: 0 <= i < |vis| ==> 0 <= vis[i].row < rows && 0 <= vis[i].col < columns
  }

  /** The list the fill leaves after being asked to start at `p` with `vis` already
      collected: nothing is added if `p` was visited before or holds another value
      than `v`; otherwise `p` is appended and its neighbours are filled from. */
  ghost function FillFrom(g: Cells, rows: nat, columns: nat, v: int, vis: seq<GridPosition>, p: GridPosition): (r: seq<GridPosition>)
    requires Partial(g, rows, columns, vis) && InGrid(g, p)
    decreases rows * columns - |vis|, 2
    ensures vis <= r && Partial(g, rows, columns, r) && |r| <= rows * columns
  {
    CellBound(vis, rows, columns);
    if p in vis || At(g, p) != v then vis
    else
      var more := vis + [p];
      assert Partial(g, rows, columns, more);
      CellBound(more, rows, columns);
      FillAround(g, rows, columns, v, more, p)
  }

  /** The fill from the left, right, upper and lower neighbour of `p`, in that
      order, each starting from the list the previous one left. */
  ghost function FillAround(g: Cells, rows: nat, columns: nat, v: int, vis: seq<GridPosition>, p: GridPosition): (r: seq<GridPosition>)
    requires Partial(g, rows, columns, vis) && |vis| <= rows * columns
    decreases rows * columns - |vis| + 1, 1
    ensures vis <= r && Partial(g, rows, columns, r) && |r| <= rows * columns
  {
    var a := Visit(g, rows, columns, v, vis, Left(p));
    var b := Visit(g, rows, columns, v, a, Right(p));
    var c := Visit(g, rows, columns, v, b, Up(p));
    var d := Visit(g, rows, columns, v, c, Down(p));
    PrefixTrans(vis, a, b);
    PrefixTrans(vis, b, c);
    PrefixTrans(vis, c, d);
    d
  }

  /** The fill from `q` if `q` is a cell of the grid; nothing otherwise. */
  ghost function Visit(g: Cells, rows: nat, columns: nat, v: int, vis: seq<GridPosition>, q: GridPosition): (r: seq<GridPosition>)
    requires Partial(g, rows, columns, vis) && |vis| <= rows * columns
    decreases rows * columns - |vis| + 1, 0
    ensures vis <= r && Partial(g, rows, columns, r) && |r| <= rows * columns
  {
    if InGrid(g, q) then FillFrom(g, rows, columns, v, vis, q) else vis
  }

  /** The flood-fill engine of one board. It shares the board's grid and keeps a
      visited marker per cell and the list of cells collected by the last call. */
  class MatchCollector {
    const grid: array2<int>
    var checkedTiles: array2?<bool>
    var matches: seq<GridPosition>
    var rowCount: int
    var columnCount: int

    /** The grid window the collector searches, as a value. */
    ghost function Cells(): Cells
      reads this`rowCount, this`columnCount, grid
      requires 0 <= rowCount <= grid.Length0 && 0 <= columnCount <= grid.Length1
    {
      Snapshot(grid, rowCount, columnCount)
    }

    /** After `Init`: the marker covers the searched window, the list holds cells
        of the window and none twice, and a cell is marked exactly when it is in
        the list. */
    ghost predicate Valid()
      reads this, checkedTiles
    {
      && checkedTiles != null
      && 0 <= rowCount <= grid.Length0 && 0 <= columnCount <= grid.Length1
      && checkedTiles.Length0 == rowCount && checkedTiles.Length1 == columnCount
      && NoDuplicates(matches)
      && (forall i :: 0 <= i < |matches| ==>
            0 <= matches[i].row < rowCount && 0 <= matches[i].col < columnCount)
      && (forall r, c :: 0 <= r < rowCount && 0 <= c < columnCount ==>
            (checkedTiles[r, c] <==> GridPosition(r, c) in matches))
    }

    constructor (grid: array2<int>)
      ensures this.grid == grid && checkedTiles == null && matches == []
      ensures rowCount == 0 && columnCount == 0
    {
      this.grid := grid;
      checkedTiles := null;
      matches := [];
      rowCount, columnCount := 0, 0;
    }

    /** Sets the searched dimensions and allocates a fresh, all-unmarked marker. */
    method Init(rows: int, columns: int)
      requires 0 <= rows <= grid.Length0 && 0 <= columns <= grid.Length1
      modifies this
      ensures Valid() && fresh(checkedTiles)
      ensures rowCount == rows && columnCount == columns && matches == []
    {
      rowCount := rows;
      columnCount := columns;
      checkedTiles := new bool[rows, columns]((_, _) => false);
      matches := [];
    }

    /** Collects the match of the tapped cell: the visited marker and the list are
        cleared first, so the result depends only on the grid and the start. The
        grid is not modified. */
    method DetectMatches(row: int, column: int) returns (result: seq<GridPosition>)
      requires Valid()
      requires 0 <= row < rowCount && 0 <= column < columnCount
      modifies this`matches, checkedTiles
      ensures Valid()
      ensures result == matches
      ensures result == FillFrom(Cells(), rowCount, columnCount, grid[row, column], [], GridPosition(row, column))
    {
      forall r, c | 0 <= r < rowCount && 0 <= c < columnCount {
        checkedTiles[r, c] := false;
      }
      matches := [];
      var tileType := grid[row, column];
      ghost var g := Cells();
      SnapshotAt(grid, rowCount, columnCount, row, column);
      CheckMatchFrom(row, column, tileType, g);
      result := matches;
    }

    /** The recursive step of the fill: an unvisited cell of the wanted value is
        marked and appended, and its left, right, upper and lower neighbours are
        searched in that order. */
    method CheckMatchFrom(row: int, column: int, tileType: int, ghost g: Cells)
      requires Valid() && g == Cells()
      requires 0 <= row < rowCount && 0 <= column < columnCount
      modifies this`matches, checkedTiles
      decreases rowCount * columnCount - |matches|, 1
      ensures Valid()
      ensures matches == FillFrom(g, rowCount, columnCount, tileType, old(matches), GridPosition(row, column))
    {
      SnapshotAt(grid, rowCount, columnCount, row, column);
      if HasTileAlreadyBeenChecked(row, column) {
        return;
      }
      if grid[row, column] != tileType {
        return;
      }
      checkedTiles[row, column] := true;
      matches := matches + [GridPosition(row, column)];
      CellBound(matches, rowCount, columnCount);
      CheckHorizontalNeighbours(row, column, tileType, g);
      CellBound(matches, rowCount, columnCount);
      CheckVerticalNeighbours(row, column, tileType, g);
    }

    /** The left and then the right neighbour of a collected cell are searched. */
    method CheckHorizontalNeighbours(row: int, column: int, tileType: int, ghost g: Cells)
      requires Valid() && g == Cells() && |matches| <= rowCount * columnCount
      requires 0 <= row < rowCount && 0 <= column < columnCount
      modifies this`matches, checkedTiles
      decreases rowCount * columnCount - |matches| + 1, 0
      ensures Valid()
      ensures matches == Visit(g, rowCount, columnCount, tileType,
                               Visit(g, rowCount, columnCount, tileType, old(matches), Left(GridPosition(row, column))),
                               Right(GridPosition(row, column)))
    {
      ghost var here := GridPosition(row, column);
      if column - 1 >= 0 {
        CheckMatchFrom(row, column - 1, tileType, g);
      }
      assert matches == Visit(g, rowCount, columnCount, tileType, old(matches), Left(here));
      ghost var m1 := matches;
      CellBound(matches, rowCount, columnCount);
      if column + 1 < columnCount {
        CheckMatchFrom(row, column + 1, tileType, g);
      }
      assert matches == Visit(g, rowCount, columnCount, tileType, m1, Right(here));
    }

    /** The upper and then the lower neighbour of a collected cell are searched. */
    method CheckVerticalNeighbours(row: int, column: int, tileType: int, ghost g: Cells)
      requires Valid() && g == Cells() && |matches| <= rowCount * columnCount
      requires 0 <= row < rowCount && 0 <= column < columnCount
      modifies this`matches, checkedTiles
      decreases rowCount * columnCount - |matches| + 1, 0
      ensures Valid()
      ensures matches == Visit(g, rowCount, columnCount, tileType,
                               Visit(g, rowCount, columnCount, tileType, old(matches), Up(GridPosition(row, column))),
                               Down(GridPosition(row, column)))
    {
      ghost var here := GridPosition(row, column);
      if row - 1 >= 0 {
        CheckMatchFrom(row - 1, column, tileType, g);
      }
      assert matches == Visit(g, rowCount, columnCount, tileType, old(matches), Up(here));
      ghost var m1 := matches;
      CellBound(matches, rowCount, columnCount);
      if row + 1 < rowCount {
        CheckMatchFrom(row + 1, column, tileType, g);
      }
      assert matches == Visit(g, rowCount, columnCount, tileType, m1, Down(here));
    }

    /** Whether the fill has already visited a cell: exactly when the cell is already
        in the list. */
    function HasTileAlreadyBeenChecked(row: int, column: int): (checked: bool)
      reads this, checkedTiles
      requires Valid()
      requires 0 <= row < rowCount && 0 <= column < columnCount
      ensures checked <==> GridPosition(row, column) in matches
    {
      checkedTiles[row, column]
    }
  }

  /** The fill grew `before` into `after`: `after` extends `before`, is still a
      valid partial fill from `start`, and every cell it added is closed. */
  ghost predicate Grown(g: Cells, start: GridPosition, before: seq<GridPosition>, after: seq<GridPosition>)
    requires InGrid(g, start)
  {
    && before <= after
    && Collecting(g, start, after)
    && (forall i :: |before| <= i < |after| ==> ClosedAt(g, after, after[i]))
  }

  /** Two growths in a row are one growth. */
  lemma GrownTrans(g: Cells, start: GridPosition, a: seq<GridPosition>, b: seq<GridPosition>, c: seq<GridPosition>)
    requires InGrid(g, start) && Grown(g, start, a, b) && Grown(g, start, b, c)
    ensures Grown(g, start, a, c)
  {
    PrefixTrans(a, b, c);
    forall i | |a| <= i < |b| ensures ClosedAt(g, c, c[i]) {
      assert c[i] == b[i];
      ClosedGrows(g, b, c, c[i]);
    }
  }

  /** The fill from the start of an empty list is a complete match. */
  lemma FillIsMatch(g: Cells, rows: nat, columns: nat, start: GridPosition)
    requires IsRectangle(g, rows, columns) && InGrid(g, start)
    ensures IsMatch(g, start, FillFrom(g, rows, columns, At(g, start), [], start))
  {
    ReachSelf(g, start);
    assert Partial(g, rows, columns, []);
    FillFromGrows(g, rows, columns, start, [], start);
  }

  /** The fill from `p` grows a partial fill from `start` into a larger one whose new
      cells are all closed, and it collects `p` when `p` has the start's value. */
  lemma FillFromGrows(g: Cells, rows: nat, columns: nat, start: GridPosition, vis: seq<GridPosition>, p: GridPosition)
    requires Partial(g, rows, columns, vis) && InGrid(g, p) && InGrid(g, start)
    requires Collecting(g, start, vis) && (vis == [] ==> p == start)
    requires At(g, p) == At(g, start) ==> Reachable(g, start, p)
    decreases rows * columns - |vis|, 2
    ensures Grown(g, start, vis, FillFrom(g, rows, columns, At(g, start), vis, p))
    ensures At(g, p) == At(g, start) ==> p in FillFrom(g, rows, columns, At(g, start), vis, p)
  {
    var v := At(g, start);
    if p !in vis && At(g, p) == v {
      var more := vis + [p];
      assert Partial(g, rows, columns, more);
      CellBound(more, rows, columns);
      assert Collecting(g, start, more);
      FillAroundGrows(g, rows, columns, start, more, p);
      var r := FillAround(g, rows, columns, v, more, p);
      assert r == FillFrom(g, rows, columns, v, vis, p);
      PrefixTrans(vis, more, r);
      assert r[|vis|] == p;
    }
  }

  /** Filling from the four neighbours of a collected cell `p` grows the fill and
      closes `p`. */
  lemma FillAroundGrows(g: Cells, rows: nat, columns: nat, start: GridPosition, vis: seq<GridPosition>, p: GridPosition)
    requires Partial(g, rows, columns, vis) && |vis| <= rows * columns
    requires InGrid(g, p) && InGrid(g, start) && At(g, p) == At(g, start)
    requires Collecting(g, start, vis) && p in vis && Reachable(g, start, p)
    decreases rows * columns - |vis| + 1, 1
    ensures Grown(g, start, vis, FillAround(g, rows, columns, At(g, start), vis, p))
    ensures ClosedAt(g, FillAround(g, rows, columns, At(g, start), vis, p), p)
  {
    var v := At(g, start);
    var a := Visit(g, rows, columns, v, vis, Left(p));
    VisitGrows(g, rows, columns, start, vis, p, Left(p));
    CellBound(a, rows, columns);
    InPrefix(p, vis, a);
    var b := Visit(g, rows, columns, v, a, Right(p));
    VisitGrows(g, rows, columns, start, a, p, Right(p));
    CellBound(b, rows, columns);
    InPrefix(p, a, b);
    var c := Visit(g, rows, columns, v, b, Up(p));
    VisitGrows(g, rows, columns, start, b, p, Up(p));
    CellBound(c, rows, columns);
    InPrefix(p, b, c);
    var d := Visit(g, rows, columns, v, c, Down(p));
    VisitGrows(g, rows, columns, start, c, p, Down(p));
    GrownTrans(g, start, vis, a, b);
    GrownTrans(g, start, vis, b, c);
    GrownTrans(g, start, vis, c, d);
    PrefixTrans(a, b, c);
    PrefixTrans(b, c, d);
    InPrefix(Left(p), a, d);
    InPrefix(Right(p), b, d);
    InPrefix(Up(p), c, d);
  }

  /** Filling from a neighbour `q` of a collected cell `p` grows the fill, and
      collects `q` when `q` has `p`'s value. */
  lemma VisitGrows(g: Cells, rows: nat, columns: nat, start: GridPosition, vis: seq<GridPosition>,
                   p: GridPosition, q: GridPosition)
    requires Partial(g, rows, columns, vis) && |vis| <= rows * columns
    requires InGrid(g, p) && InGrid(g, start) && At(g, p) == At(g, start)
    requires Collecting(g, start, vis) && p in vis && Reachable(g, start, p) && Adjacent(p, q)
    decreases rows * columns - |vis| + 1, 0
    ensures Grown(g, start, vis, Visit(g, rows, columns, At(g, start), vis, q))
    ensures SameValuedIn(g, p, q, Visit(g, rows, columns, At(g, start), vis, q))
  {
    if InGrid(g, q) {
      ReachStep(g, start, p, q);
      FillFromGrows(g, rows, columns, start, vis, q);
    }
  }

  lemma PrefixTrans(a: seq<GridPosition>, b: seq<GridPosition>, c: seq<GridPosition>)
    requires a <= b && b <= c
    ensures a <= c
  {
    assert forall i :: 0 <= i < |a| ==> a[i] == b[i] == c[i];
  }

  lemma InPrefix(q: GridPosition, small: seq<GridPosition>, big: seq<GridPosition>)
    requires small <= big
    ensures q in small ==> q in big
  {
    if q in small {
      var i :| 0 <= i < |small| && small[i] == q;
      assert big[i] == q;
    }
  }
}
