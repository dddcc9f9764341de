/** The two fixed grids of the match collector's unit tests, and the match size
    every tap on them yields. */
module MatchCollectorTest {
  import opened Grid
  import opened Matching

  /** A grid in which no two neighbours hold the same value. */
  function NoMatchGrid(): Cells
  {
    [[0, 1, 2],
     [3, 0, 5],
     [0, 7, 8]]
  }

  /** A grid with a five-cell group of 0s, a two-cell group of 5s and two single cells. */
  function MatchLengthGrid(): Cells
  {
    [[0, 0, 2],
     [3, 0, 5],
     [0, 0, 5]]
  }

  /** The match a tap at `p` collects on a 3 by 3 grid. */
  ghost function Tap(g: Cells, p: GridPosition): seq<GridPosition>
    requires IsRectangle(g, 3, 3) && InGrid(g, p)
  {
    FillFrom(g, 3, 3, At(g, p), [], p)
  }

  /** The expected match size of each cell of `MatchLengthGrid`, row by row:
      5, 5, 1 / 1, 5, 2 / 5, 5, 2. */
  function ExpectedLength(row: int, col: int): int
  {
    if row == 0 then (if col == 2 then 1 else 5)
    else if row == 1 then (if col == 0 then 1 else if col == 1 then 5 else 2)
    else (if col == 2 then 2 else 5)
  }

  /** The cells of `MatchLengthGrid` that hold 0, as a walk. */
  function Zeros(): seq<GridPosition>
  {
    [GridPosition(0, 0), GridPosition(0, 1), GridPosition(1, 1), GridPosition(2, 1), GridPosition(2, 0)]
  }

  /** The cells of `MatchLengthGrid` that hold 5, as a walk. */
  function Fives(): seq<GridPosition>
  {
    [GridPosition(1, 2), GridPosition(2, 2)]
  }

  /** No cell of `NoMatchGrid` has a neighbour of its own value. */
  lemma Isolated(p: GridPosition)
    requires InGrid(NoMatchGrid(), p)
    ensures ClosedAt(NoMatchGrid(), [p], p)
  {
    var g := NoMatchGrid();
    if p == GridPosition(0, 0) {
      assert ClosedAt(g, [GridPosition(0, 0)], GridPosition(0, 0));
    } else if p == GridPosition(0, 1) {
      assert ClosedAt(g, [GridPosition(0, 1)], GridPosition(0, 1));
    } else if p == GridPosition(0, 2) {
      assert ClosedAt(g, [GridPosition(0, 2)], GridPosition(0, 2));
    } else if p == GridPosition(1, 0) {
      assert ClosedAt(g, [GridPosition(1, 0)], GridPosition(1, 0));
    } else if p == GridPosition(1, 1) {
      assert ClosedAt(g, [GridPosition(1, 1)], GridPosition(1, 1));
    } else if p == GridPosition(1, 2) {
      assert ClosedAt(g, [GridPosition(1, 2)], GridPosition(1, 2));
    } else if p == GridPosition(2, 0) {
      assert ClosedAt(g, [GridPosition(2, 0)], GridPosition(2, 0));
    } else if p == GridPosition(2, 1) {
      assert ClosedAt(g, [GridPosition(2, 1)], GridPosition(2, 1));
    } else {
      assert ClosedAt(g, [GridPosition(2, 2)], GridPosition(2, 2));
    }
  }

  /** The 0s of `MatchLengthGrid` form a walk of 0s that visits each once. */
  lemma ZerosWalk()
    ensures IsPath(MatchLengthGrid(), 0, Zeros())
  {
  }

  /** No cell occurs twice among the 0s of `MatchLengthGrid`. */
  lemma ZerosDistinct()
    ensures NoDuplicates(Zeros())
  {
  }

  /** No same-valued neighbour leaves the 0s of `MatchLengthGrid`. */
  lemma ZerosGroup()
    ensures forall i :: 0 <= i < |Zeros()| ==> ClosedAt(MatchLengthGrid(), Zeros(), Zeros()[i])
  {
    var g := MatchLengthGrid();
    forall i | 0 <= i < |Zeros()| ensures ClosedAt(g, Zeros(), Zeros()[i]) {
      if i == 0 {
        assert ClosedAt(g, Zeros(), GridPosition(0, 0));
      } else if i == 1 {
        assert ClosedAt(g, Zeros(), GridPosition(0, 1));
      } else if i == 2 {
        assert ClosedAt(g, Zeros(), GridPosition(1, 1));
      } else if i == 3 {
        assert ClosedAt(g, Zeros(), GridPosition(2, 1));
      } else {
        assert ClosedAt(g, Zeros(), GridPosition(2, 0));
      }
    }
  }

  /** The 5s of `MatchLengthGrid` form a walk of 5s that visits each once. */
  lemma FivesWalk()
    ensures IsPath(MatchLengthGrid(), 5, Fives()) && NoDuplicates(Fives())
  {
  }

  /** No same-valued neighbour leaves the 5s of `MatchLengthGrid`. */
  lemma FivesGroup()
    ensures forall i :: 0 <= i < |Fives()| ==> ClosedAt(MatchLengthGrid(), Fives(), Fives()[i])
  {
    var g := MatchLengthGrid();
    assert ClosedAt(g, Fives(), GridPosition(1, 2));
    assert ClosedAt(g, Fives(), GridPosition(2, 2));
  }

  /** On `NoMatchGrid` every match is the tapped cell alone. */
  lemma NoMatchSize(p: GridPosition, ms: seq<GridPosition>)
    requires InGrid(NoMatchGrid(), p) && IsMatch(NoMatchGrid(), p, ms)
    ensures |ms| == 1 && ms[0] == p
  {
    var g := NoMatchGrid();
    assert IsPath(g, At(g, p), [p]);
    Isolated(p);
    ComponentSize(g, p, ms, [p]);
  }

  /** A tap on a 0 of `MatchLengthGrid` collects the five 0s. */
  lemma ZerosTap(p: GridPosition, ms: seq<GridPosition>)
    requires InGrid(MatchLengthGrid(), p) && p in Zeros() && IsMatch(MatchLengthGrid(), p, ms)
    ensures |ms| == 5
  {
    ZerosWalk();
    ZerosDistinct();
    ZerosGroup();
    ComponentSize(MatchLengthGrid(), p, ms, Zeros());
  }

  /** A tap on a 5 of `MatchLengthGrid` collects the two 5s. */
  lemma FivesTap(p: GridPosition, ms: seq<GridPosition>)
    requires InGrid(MatchLengthGrid(), p) && p in Fives() && IsMatch(MatchLengthGrid(), p, ms)
    ensures |ms| == 2
  {
    FivesWalk();
    FivesGroup();
    ComponentSize(MatchLengthGrid(), p, ms, Fives());
  }

  /** A tap on the 2 or the 3 of `MatchLengthGrid` collects that cell alone. */
  lemma SingleTap(p: GridPosition, ms: seq<GridPosition>)
    requires p == GridPosition(0, 2) || p == GridPosition(1, 0)
    requires IsMatch(MatchLengthGrid(), p, ms)
    ensures |ms| == 1
  {
    var g := MatchLengthGrid();
    assert IsPath(g, At(g, p), [p]) && ClosedAt(g, [p], p);
    ComponentSize(g, p, ms, [p]);
  }

  /** On `MatchLengthGrid` every match has the size of the tapped cell's group. */
  lemma MatchLengthSize(p: GridPosition, ms: seq<GridPosition>)
    requires InGrid(MatchLengthGrid(), p) && IsMatch(MatchLengthGrid(), p, ms)
    ensures |ms| == ExpectedLength(p.row, p.col)
  {
    if p == GridPosition(0, 0) {
      ZerosTap(GridPosition(0, 0), ms);
    } else if p == GridPosition(0, 1) {
      ZerosTap(GridPosition(0, 1), ms);
    } else if p == GridPosition(0, 2) {
      SingleTap(GridPosition(0, 2), ms);
    } else if p == GridPosition(1, 0) {
      SingleTap(GridPosition(1, 0), ms);
    } else if p == GridPosition(1, 1) {
      ZerosTap(GridPosition(1, 1), ms);
    } else if p == GridPosition(1, 2) {
      FivesTap(GridPosition(1, 2), ms);
    } else if p == GridPosition(2, 0) {
      ZerosTap(GridPosition(2, 0), ms);
    } else if p == GridPosition(2, 1) {
      ZerosTap(GridPosition(2, 1), ms);
    } else {
      FivesTap(GridPosition(2, 2), ms);
    }
  }

  /** Every tap on `NoMatchGrid` collects the tapped cell alone. */
  lemma NoMatch(row: int, col: int)
    requires 0 <= row < 3 && 0 <= col < 3
    ensures |Tap(NoMatchGrid(), GridPosition(row, col))| == 1
    ensures Tap(NoMatchGrid(), GridPosition(row, col))[0] == GridPosition(row, col)
  {
    var g, p := NoMatchGrid(), GridPosition(row, col);
    FillIsMatch(g, 3, 3, p);
    NoMatchSize(p, Tap(g, p));
  }

  /** Every tap on `MatchLengthGrid` collects as many cells as its group has. */
  lemma MatchLength(row: int, col: int)
    requires 0 <= row < 3 && 0 <= col < 3
    ensures |Tap(MatchLengthGrid(), GridPosition(row, col))| == ExpectedLength(row, col)
  {
    var g, p := MatchLengthGrid(), GridPosition(row, col);
    FillIsMatch(g, 3, 3, p);
    MatchLengthSize(p, Tap(g, p));
  }
}
