/** The board of Minesweeper (desktop-metal/src/app.rs:3800-3881): cells by row and column, neighbourhoods, floods. */
module MineField {
  import opened MachineWords

  datatype CellState = Hidden | Revealed | Flagged

  predicate OnBoard(rows: nat, cols: nat, i: int) {
    0 <= i < rows * cols
  }

  function Row(cols: nat, i: nat): nat
    requires cols > 0
  {
    i / cols
  }

  function Col(cols: nat, i: nat): nat
    requires cols > 0
  {
    i % cols
  }

  function CellAt(cols: nat, c: nat, r: nat): nat {
    r * cols + c
  }

  lemma CellAtPlace(rows: nat, cols: nat, c: nat, r: nat)
    requires c < cols && r < rows
    ensures var i := CellAt(cols, c, r); OnBoard(rows, cols, i) && Row(cols, i) == r && Col(cols, i) == c
  {
    var i := r * cols + c;
    RemainderUnique(i, cols, r, c);
    ProductMonotone(r + 1, rows, cols);
    var q := i / cols;
    assert i == q * cols + c;
    if q < r {
      ProductMonotone(q + 1, r, cols);
    } else if r < q {
      ProductMonotone(r + 1, q, cols);
    }
  }

  lemma PlaceOfCell(rows: nat, cols: nat, i: nat)
    requires cols > 0 && OnBoard(rows, cols, i)
    ensures Col(cols, i) < cols && Row(cols, i) < rows && CellAt(cols, Col(cols, i), Row(cols, i)) == i
  {
    if i / cols >= rows {
      ProductMonotone(rows, i / cols, cols);
    }
  }

  /** A different cell at most one row and one column away. */
  predicate Adjacent(rows: nat, cols: nat, i: nat, j: nat)
    requires cols > 0
  {
    && OnBoard(rows, cols, j) && i != j
    && -1 <= Row(cols, j) as int - Row(cols, i) as int <= 1
    && -1 <= Col(cols, j) as int - Col(cols, i) as int <= 1
  }

  /** Adjacent cells found before offset (dc, dr) in the row-by-row scan around `i`. */
  predicate ScannedBefore(rows: nat, cols: nat, i: nat, j: nat, dr: int, dc: int)
    requires cols > 0
  {
    && Adjacent(rows, cols, i, j)
    && var r, c := Row(cols, j) as int - Row(cols, i) as int, Col(cols, j) as int - Col(cols, i) as int;
       r < dr || (r == dr && c < dc)
  }

  predicate Distinct(s: seq<nat>) {
    forall x, y :: 0 <= x < y < |s| ==> s[x] != s[y]
  }

  lemma DistinctEmpty()
    ensures Distinct([])
  {
  }

  lemma AppendDistinct(s: seq<nat>, x: nat)
    requires Distinct(s) && x !in s
    ensures Distinct(s + [x])
  {
  }

  /** The neighbours of a cell, each once; eight slots are enough. */
  method Neighbors(rows: nat, cols: nat, i: nat) returns (nb: seq<nat>)
    requires cols > 0 && OnBoard(rows, cols, i)
    ensures forall j: nat :: j in nb <==> Adjacent(rows, cols, i, j)
    ensures Distinct(nb) && |nb| <= 8
  {
    hide Row, Col, CellAt, OnBoard, Distinct;
    DistinctEmpty();
    PlaceOfCell(rows, cols, i);
    var c, r := Col(cols, i), Row(cols, i);
    nb := [];
    var dr: int := -1;
    while dr <= 1
      invariant -1 <= dr <= 2
      invariant forall j: nat :: j in nb <==> ScannedBefore(rows, cols, i, j, dr, -1)
      invariant Distinct(nb) && |nb| + (if dr > 0 then 1 else 0) <= 3 * (dr + 1)
    {
      var dc: int := -1;
      while dc <= 1
        invariant -1 <= dc <= 2
        invariant forall j: nat :: j in nb <==> ScannedBefore(rows, cols, i, j, dr, dc)
        invariant Distinct(nb)
        invariant |nb| + (if dr > 0 || (dr == 0 && dc > 0) then 1 else 0) <= 3 * (dr + 1) + dc + 1
      {
        ghost var before := nb;
        if !(dr == 0 && dc == 0) {
          var nc, nr := c + dc, r + dr;
          if nc >= 0 && nc < cols && nr >= 0 && nr < rows {
            CellAtPlace(rows, cols, nc, nr);
            assert !ScannedBefore(rows, cols, i, CellAt(cols, nc, nr), dr, dc);
            AppendDistinct(nb, CellAt(cols, nc, nr));
            nb := nb + [CellAt(cols, nc, nr)];
          }
        }
        ScanStep(rows, cols, i, before, nb, dr, dc);
        dc := dc + 1;
      }
      dr := dr + 1;
    }
  }

  /** Exactly the cell at offset (dc, dr), if there is one, is new. */
  lemma ScanStep(rows: nat, cols: nat, i: nat, before: seq<nat>, after: seq<nat>, dr: int, dc: int)
    requires cols > 0 && OnBoard(rows, cols, i) && -1 <= dr <= 1 && -1 <= dc <= 1
    requires forall j: nat :: j in before <==> ScannedBefore(rows, cols, i, j, dr, dc)
    requires var nc, nr := Col(cols, i) + dc, Row(cols, i) + dr;
      after == if (dr == 0 && dc == 0) || nc < 0 || nc >= cols || nr < 0 || nr >= rows then before
               else before + [CellAt(cols, nc, nr)]
    ensures forall j: nat :: j in after <==> ScannedBefore(rows, cols, i, j, dr, dc + 1)
  {
    hide Row, Col, CellAt, OnBoard;
    var nc, nr := Col(cols, i) + dc, Row(cols, i) + dr;
    forall j: nat
      ensures j in after <==> ScannedBefore(rows, cols, i, j, dr, dc + 1)
    {
      if 0 <= nc < cols && 0 <= nr < rows {
        CellAtPlace(rows, cols, nc, nr);
      }
      PlaceOfCell(rows, cols, i);
      if OnBoard(rows, cols, j) {
        PlaceOfCell(rows, cols, j);
      }
      assert j in after <==> j in before || (after != before && j == CellAt(cols, nc, nr));
    }
  }

  // ---- floods ----

  /** A board position as the flood sees it: sizes, counts of adjacent mines, and what was hidden at the start. */
  datatype Field = Field(rows: nat, cols: nat, count: seq<nat>, state: seq<CellState>) {
    predicate Valid() {
      cols > 0 && |count| == |state| == rows * cols
    }
  }

  /** Cell `j` is opened next to `i`: `i` has no mine around it and `j` is hidden. */
  predicate Opens(f: Field, i: nat, j: nat)
    requires f.Valid() && i < |f.state|
  {
    f.count[i] == 0 && Adjacent(f.rows, f.cols, i, j) && f.state[j] == Hidden
  }

  ghost predicate ClosedFrom(f: Field, start: nat, s: set<nat>)
    requires f.Valid()
  {
    && start in s
    && (forall i, j :: i in s && i < |f.state| && j >= 0 && Opens(f, i, j) ==> j in s)
  }

  /** The least set that holds `start` and everything its members open. */
  ghost predicate IsFlood(f: Field, start: nat, s: set<nat>)
    requires f.Valid()
  {
    ClosedFrom(f, start, s) && forall t :: ClosedFrom(f, start, t) ==> s <= t
  }

  ghost predicate OpeningPath(f: Field, path: seq<nat>)
    requires f.Valid()
  {
    && path != [] && (forall k :: 0 <= k < |path| ==> path[k] < |f.state|)
    && (forall k :: 0 <= k < |path| - 1 ==> Opens(f, path[k], path[k + 1]))
  }

  lemma {:induction false} PathStaysInside(f: Field, start: nat, s: set<nat>, path: seq<nat>)
    requires f.Valid() && ClosedFrom(f, start, s) && OpeningPath(f, path) && path[0] == start
    ensures path[|path| - 1] in s
    decreases |path|
  {
    if |path| > 1 {
      var n := |path| - 1;
      assert Opens(f, path[n - 1], path[n]);
      forall k | 0 <= k < n - 1
        ensures Opens(f, path[..n][k], path[..n][k + 1])
      {
        assert Opens(f, path[k], path[k + 1]);
      }
      PathStaysInside(f, start, s, path[..n]);
    }
  }

  ghost predicate Reaches(f: Field, start: nat, i: nat)
    requires f.Valid()
  {
    exists path :: OpeningPath(f, path) && path[0] == start && path[|path| - 1] == i
  }

  /** The flood is what can be reached through cells without adjacent mines. */
  lemma FloodIsReachability(f: Field, start: nat, s: set<nat>, i: nat)
    requires f.Valid() && start < |f.state| && IsFlood(f, start, s)
    ensures i in s <==> Reaches(f, start, i)
  {
    if path :| OpeningPath(f, path) && path[0] == start && path[|path| - 1] == i {
      PathStaysInside(f, start, s, path);
    }
    var t := set j | j in s && Reaches(f, start, j);
    assert OpeningPath(f, [start]);
    assert Reaches(f, start, start);
    forall a, b | a in t && a < |f.state| && b >= 0 && Opens(f, a, b)
      ensures b in t
    {
      var path :| OpeningPath(f, path) && path[0] == start && path[|path| - 1] == a;
      var longer := path + [b];
      assert forall k :: 0 <= k < |path| - 1 ==> Opens(f, path[k], path[k + 1]);
      assert OpeningPath(f, longer);
      assert Reaches(f, start, b);
    }
    assert ClosedFrom(f, start, t);
  }

  // ---- counting cells ----

  /** All cells of a board with `n` cells. */
  ghost function Cells(n: nat): (r: set<nat>)
    ensures forall i: nat :: i in r <==> i < n
    ensures |r| == n
  {
    if n == 0 then {} else Cells(n - 1) + {n - 1}
  }

  lemma SubsetSize(a: set<nat>, b: set<nat>)
    requires a <= b
    ensures |a| <= |b| && (|a| == |b| ==> a == b)
  {
    assert b == a + (b - a);
    assert |b| == |a| + |b - a|;
  }
}
