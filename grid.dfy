/** Cell coordinates and value snapshots of the board grid.
    Rows grow downward from 0, columns rightward from 0. */
module Grid {

  /** A (row, column) coordinate on the board. */
  datatype GridPosition = GridPosition(row: int, col: int)

  /** The sentinel value of a cell that holds no tile. */
  const Empty: int := -1

  /** A grid as a value: a sequence of rows, each a sequence of cell values. */
  type Cells = seq<seq<int>>

  /** `p` names a cell of `g`. */
  predicate InGrid(g: Cells, p: GridPosition)
  {
    0 <= p.row < |g| && 0 <= p.col < |g[p.row]|
  }

  /** The value at `p`. */
  function At(g: Cells, p: GridPosition): int
    requires InGrid(g, p)
  {
    g[p.row][p.col]
  }

  /** `g` has `rows` rows of `columns` cells each. */
  predicate IsRectangle(g: Cells, rows: int, columns: int)
  {
    |g| == rows && forall r :: 0 <= r < |g| ==> |g[r]| == columns
  }

  /** `p` and `q` are left/right or up/down neighbours (never diagonal). */
  predicate Adjacent(p: GridPosition, q: GridPosition)
  {
    || (p.row == q.row && (q.col == p.col - 1 || q.col == p.col + 1))
    || (p.col == q.col && (q.row == p.row - 1 || q.row == p.row + 1))
  }

  /** The four neighbours the fill inspects. */
  function Left(p: GridPosition): GridPosition { GridPosition(p.row, p.col - 1) }
  function Right(p: GridPosition): GridPosition { GridPosition(p.row, p.col + 1) }
  function Up(p: GridPosition): GridPosition { GridPosition(p.row - 1, p.col) }
  function Down(p: GridPosition): GridPosition { GridPosition(p.row + 1, p.col) }

  /** Adjacency is exactly the four neighbours. */
  lemma AdjacentIsNeighbour(p: GridPosition, q: GridPosition)
    ensures Adjacent(p, q) <==> q == Left(p) || q == Right(p) || q == Up(p) || q == Down(p)
  {
  }

  /** The top-left `rows` by `columns` window of an `array2`, as a value. */
  ghost function Snapshot(a: array2<int>, rows: nat, columns: nat): (g: Cells)
    reads a
    requires rows <= a.Length0 && columns <= a.Length1
    ensures IsRectangle(g, rows, columns)
  {
    seq(rows, r requires 0 <= r < rows reads a =>
      seq(columns, c requires 0 <= c < columns reads a => a[r, c]))
  }

  /** A cell of the snapshot is the cell of the array. */
  lemma SnapshotAt(a: array2<int>, rows: nat, columns: nat, r: int, c: int)
    requires rows <= a.Length0 && columns <= a.Length1
    requires 0 <= r < rows && 0 <= c < columns
    ensures Snapshot(a, rows, columns)[r][c] == a[r, c]
  {
  }

  /** The set of positions a sequence holds. */
  ghost function Elements(ps: seq<GridPosition>): set<GridPosition>
  {
    set i | 0 <= i < |ps| :: ps[i]
  }

  /** No position occurs twice. */
  ghost predicate NoDuplicates(ps: seq<GridPosition>)
  {
    forall i, j :: 0 <= i < j < |ps| ==> ps[i] != ps[j]
  }

  /** All cells of a `rows` by `columns` board. */
  ghost function AllCells(rows: nat, columns: nat): set<GridPosition>
  {
    set r, c | 0 <= r < rows && 0 <= c < columns :: GridPosition(r, c)
  }

  /** The cells of one row. */
  ghost function RowCells(r: int, columns: nat): set<GridPosition>
  {
    set c | 0 <= c < columns :: GridPosition(r, c)
  }

  lemma {:induction false} RowCellsCard(r: int, columns: nat)
    ensures |RowCells(r, columns)| == columns
  {
    if columns > 0 {
      RowCellsCard(r, columns - 1);
      assert RowCells(r, columns) == RowCells(r, columns - 1) + {GridPosition(r, columns - 1)};
    } else {
      assert RowCells(r, columns) == {};
    }
  }

  /** A board of `rows` by `columns` has exactly rows*columns cells. */
  lemma {:induction false} AllCellsCard(rows: nat, columns: nat)
    ensures |AllCells(rows, columns)| == rows * columns
  {
    if rows > 0 {
      var upper, last := AllCells(rows - 1, columns), RowCells(rows - 1, columns);
      AllCellsCard(rows - 1, columns);
      RowCellsCard(rows - 1, columns);
      assert AllCells(rows, columns) == upper + last by {
        forall p | p in AllCells(rows, columns) ensures p in upper + last {
          if p.row < rows - 1 {
            assert p in upper;
          } else {
            assert p in last;
          }
        }
      }
      assert upper !! last;
      assert |upper + last| == |upper| + |last|;
      assert (rows - 1) * columns + columns == rows * columns by {
        MulStep(rows, columns);
      }
    } else {
      assert AllCells(rows, columns) == {};
    }
  }

  lemma MulStep(a: int, b: int)
    ensures (a - 1) * b + b == a * b
  {
  }

  /** A duplicate-free sequence has as many positions as elements. */
  lemma {:induction false} ElementsCard(ps: seq<GridPosition>)
    requires NoDuplicates(ps)
    ensures |Elements(ps)| == |ps|
  {
    if ps != [] {
      var last := |ps| - 1;
      ElementsCard(ps[..last]);
      assert Elements(ps) == Elements(ps[..last]) + {ps[last]};
      assert ps[last] !in Elements(ps[..last]);
    } else {
      assert Elements(ps) == {};
    }
  }

  /** A duplicate-free sequence of cells of a `rows` by `columns` board is no longer
      than the board has cells. */
  lemma CellBound(ps: seq<GridPosition>, rows: nat, columns: nat)
    requires NoDuplicates(ps)
    requires forall i :: 0 <= i < |ps| ==> 0 <= ps[i].row < rows && 0 <= ps[i].col < columns
    ensures |ps| <= rows * columns
  {
    ElementsCard(ps);
    AllCellsCard(rows, columns);
    assert Elements(ps) <= AllCells(rows, columns) by {
      forall p | p in Elements(ps) ensures p in AllCells(rows, columns) {
        var i :| 0 <= i < |ps| && ps[i] == p;
        assert GridPosition(p.row, p.col) == p;
      }
    }
    SubsetCard(Elements(ps), AllCells(rows, columns));
  }

  lemma SubsetCard<T>(a: set<T>, b: set<T>)
    requires a <= b
    ensures |a| <= |b|
  {
    assert b == a + (b - a);
  }
}
