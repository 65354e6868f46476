/** The Minesweeper engine (desktop-metal/src/app.rs:3807-3945), for any board size, mine count and random draws. */
module MineGame {
  import opened MineField

  ghost function Mines(mine: seq<bool>): (r: set<nat>)
    ensures forall i: nat :: i in r <==> i < |mine| && mine[i]
  {
    set i: nat | i in Cells(|mine|) && mine[i]
  }

  /** The cells in state `s`. */
  ghost function Where(state: seq<CellState>, s: CellState): (r: set<nat>)
    ensures forall i: nat :: i in r <==> i < |state| && state[i] == s
  {
    set i: nat | i in Cells(|state|) && state[i] == s
  }

  ghost function MinesAround(rows: nat, cols: nat, mine: seq<bool>, i: nat): (r: set<nat>)
    requires cols > 0
    ensures forall j: nat :: j in r <==> j in Mines(mine) && Adjacent(rows, cols, i, j)
  {
    set j: nat | j in Mines(mine) && Adjacent(rows, cols, i, j)
  }

  lemma MinesGain(mine: seq<bool>, i: nat)
    requires i < |mine| && !mine[i]
    ensures Mines(mine[i := true]) == Mines(mine) + {i} && |Mines(mine[i := true])| == |Mines(mine)| + 1
  {
    hide Mines;
    var now := Mines(mine[i := true]);
    assert now == Mines(mine) + {i};
  }

  /** A cell the sampling loop accepts: neither the first cell nor next to it. */
  predicate Acceptable(rows: nat, cols: nat, safe: nat, i: nat)
    requires cols > 0
  {
    i != safe && !Adjacent(rows, cols, safe, i)
  }

  ghost function Accepted(rows: nat, cols: nat, safe: nat, draws: seq<nat>): (r: set<nat>)
    requires cols > 0
    ensures forall i: nat :: i in r <==> i in draws && Acceptable(rows, cols, safe, i)
  {
    set i: nat | i in draws && Acceptable(rows, cols, safe, i)
  }

  lemma AcceptStep(rows: nat, cols: nat, safe: nat, seen: seq<nat>, i: nat)
    requires cols > 0
    ensures var r := Accepted(rows, cols, safe, seen);
      Accepted(rows, cols, safe, seen + [i]) == if Acceptable(rows, cols, safe, i) then r + {i} else r
  {
    hide Accepted, Acceptable;
    var now := Accepted(rows, cols, safe, seen + [i]);
    assert now == if Acceptable(rows, cols, safe, i) then Accepted(rows, cols, safe, seen) + {i}
                  else Accepted(rows, cols, safe, seen);
  }

  lemma AcceptedPrefix(rows: nat, cols: nat, safe: nat, draws: seq<nat>, k: nat)
    requires cols > 0 && k <= |draws|
    ensures Accepted(rows, cols, safe, draws[..k]) <= Accepted(rows, cols, safe, draws)
  {
  }

  lemma WhereGains(state: seq<CellState>, i: nat, to: CellState)
    requires i < |state| && state[i] != to
    ensures Where(state[i := to], to) == Where(state, to) + {i}
    ensures |Where(state[i := to], to)| == |Where(state, to)| + 1
  {
    hide Where;
    var now := Where(state[i := to], to);
    assert now == Where(state, to) + {i};
  }

  lemma WhereLoses(state: seq<CellState>, i: nat, to: CellState)
    requires i < |state| && state[i] != to
    ensures Where(state[i := to], state[i]) == Where(state, state[i]) - {i}
    ensures |Where(state[i := to], state[i])| == |Where(state, state[i])| - 1
  {
    hide Where;
    var now := Where(state[i := to], state[i]);
    assert now == Where(state, state[i]) - {i};
  }

  lemma WhereKeeps(state: seq<CellState>, i: nat, to: CellState, s: CellState)
    requires i < |state| && state[i] != s && to != s
    ensures Where(state[i := to], s) == Where(state, s)
  {
    hide Where;
    var now := Where(state[i := to], s);
    assert now == Where(state, s);
  }

  ghost function SafeCount(shown: set<nat>, mined: set<nat>): nat {
    |shown - mined|
  }

  /** From `before` to `shown` no mine was added. */
  ghost predicate OnlySafeAdded(before: set<nat>, shown: set<nat>, mined: set<nat>) {
    before <= shown && (shown - before) * mined == {}
  }

  lemma SafeGains(shown: set<nat>, mined: set<nat>, i: nat)
    requires i !in shown && i !in mined
    ensures SafeCount(shown + {i}, mined) == SafeCount(shown, mined) + 1
  {
    assert (shown + {i}) - mined == (shown - mined) + {i};
  }

  /** A safe cell whose count is zero has no mine next to it. */
  lemma ZeroMeansClear(rows: nat, cols: nat, mine: seq<bool>, i: nat, j: nat)
    requires cols > 0 && Adjacent(rows, cols, i, j) && |MinesAround(rows, cols, mine, i)| == 0
    ensures j !in Mines(mine)
  {
    hide MinesAround, Mines, Adjacent;
    var around := MinesAround(rows, cols, mine, i);
    assert j !in around;
  }

  lemma SafeSize(size: nat, mined: set<nat>)
    requires mined <= Cells(size)
    ensures |Cells(size) - mined| == size - |mined|
  {
    assert Cells(size) == (Cells(size) - mined) + mined;
  }

  /** Counting the revealed safe cells is enough to see that all of them are revealed. */
  lemma AllSafeShown(size: nat, mined: set<nat>, shown: set<nat>)
    requires mined <= Cells(size) && shown <= Cells(size)
    ensures |shown - mined| == size - |mined| <==> shown - mined == Cells(size) - mined
  {
    hide Cells;
    SafeSize(size, mined);
    SubsetSize(shown - mined, Cells(size) - mined);
  }

  /** `dead`: some mine is revealed. `won`: the revealed cells are exactly the safe ones. */
  ghost predicate Outcome(size: nat, mined: set<nat>, shown: set<nat>, placed: bool, dead: bool, won: bool) {
    && (dead <==> exists i :: i in shown && i in mined)
    && (won <==> placed && shown == Cells(size) - mined)
  }

  lemma OutcomesExclude(size: nat, mined: set<nat>, shown: set<nat>, placed: bool, dead: bool, won: bool)
    requires Outcome(size, mined, shown, placed, dead, won)
    ensures !(dead && won)
  {
    hide Cells;
    if won {
      assert forall i :: i in shown ==> i !in mined;
    }
  }

  lemma NotStarted(size: nat, mined: set<nat>, shown: set<nat>, dead: bool, won: bool)
    requires Outcome(size, mined, shown, false, dead, won) && shown == {}
    ensures !dead && !won
  {
  }

  lemma NothingShownYet(size: nat, mined: set<nat>, shown: set<nat>)
    requires mined <= Cells(size) && |mined| < size && shown == {}
    ensures Outcome(size, mined, shown, true, false, false)
  {
    hide Cells;
    SafeSize(size, mined);
    assert |Cells(size) - mined| > 0;
  }

  /** Revealing a mine: dead, not won, and the count of revealed safe cells is kept. */
  lemma Detonated(size: nat, mine: seq<bool>, state: seq<CellState>, i: nat)
    requires i < |state| && i < |mine| && mine[i] && state[i] == Hidden
    ensures var after := state[i := Revealed];
      && Where(after, Flagged) == Where(state, Flagged)
      && Outcome(size, Mines(mine), Where(after, Revealed), true, true, false)
      && SafeCount(Where(after, Revealed), Mines(mine)) == SafeCount(Where(state, Revealed), Mines(mine))
  {
    hide Cells, Mines, Where;
    var now := Where(state[i := Revealed], Revealed);
    WhereGains(state, i, Revealed);
    WhereKeeps(state, i, Revealed, Flagged);
    assert i in now && i in Mines(mine) && i !in Cells(size) - Mines(mine);
    assert now - Mines(mine) == Where(state, Revealed) - Mines(mine);
  }

  lemma Blank(mine: seq<bool>, count: seq<nat>, state: seq<CellState>)
    requires |mine| == |count| == |state|
    requires forall k :: 0 <= k < |mine| ==> !mine[k] && count[k] == 0 && state[k] == Hidden
    ensures Untouched(mine, count, state)
    ensures Where(state, Hidden) == Cells(|mine|) && Where(state, Flagged) == {}
    ensures Mines(mine) == Where(state, Revealed) == {}
  {
    hide Cells, Mines, Where;
    assert Mines(mine) == {};
    assert Where(state, Flagged) == {};
    assert Where(state, Revealed) == {};
    assert Where(state, Hidden) == Cells(|mine|);
  }

  lemma SafeShown(size: nat, mined: set<nat>, before: set<nat>, shown: set<nat>)
    requires mined <= Cells(size) && shown <= Cells(size)
    requires Outcome(size, mined, before, true, false, false) && OnlySafeAdded(before, shown, mined)
    ensures Outcome(size, mined, shown, true, false, SafeCount(shown, mined) == size - |mined|)
  {
    hide Cells;
    AllSafeShown(size, mined, shown);
    forall i | i in shown
      ensures i !in mined
    {
      assert i in before || i in shown - before;
      assert i !in (shown - before) * mined;
    }
    assert shown - mined == shown;
  }

  /** Every cell without a mine counts the mines next to it. */
  ghost predicate Counted(rows: nat, cols: nat, mine: seq<bool>, count: seq<nat>)
    requires cols > 0 && |mine| == |count|
  {
    forall i: nat :: i < |mine| && !mine[i] ==> count[i] == |MinesAround(rows, cols, mine, i)|
  }

  ghost predicate Laid(rows: nat, cols: nat, mines: nat, mine: seq<bool>, count: seq<nat>)
    requires cols > 0 && |mine| == |count|
  {
    |Mines(mine)| == mines && Counted(rows, cols, mine, count)
  }

  lemma LaidCount(rows: nat, cols: nat, mines: nat, mine: seq<bool>, count: seq<nat>)
    requires cols > 0 && |mine| == |count| && Laid(rows, cols, mines, mine, count)
    ensures Mines(mine) <= Cells(|mine|) && |Mines(mine)| == mines
  {
  }

  ghost predicate Untouched(mine: seq<bool>, count: seq<nat>, state: seq<CellState>) {
    && Mines(mine) == {} && (forall i: nat :: i < |count| ==> count[i] == 0)
    && Where(state, Revealed) == {}
  }

  /** The cells revealed from `before` to `after` are the least set that holds `start` and spreads from zero counts. */
  ghost predicate Flooded(rows: nat, cols: nat, count: seq<nat>, before: seq<CellState>, after: seq<CellState>,
                          start: nat)
    requires cols > 0 && |count| == |before| == rows * cols
  {
    && Where(before, Revealed) <= Where(after, Revealed)
    && IsFlood(Field(rows, cols, count, before), start, Where(after, Revealed) - Where(before, Revealed))
  }

  /** Halfway through a flood: `shown` is open, `stack` waits, and nothing else was touched. */
  ghost predicate Flooding(f: Field, mine: seq<bool>, start: nat, state: seq<CellState>, shown: set<nat>,
                           stack: seq<nat>)
    requires f.Valid() && |mine| == |state| == |f.state|
  {
    && (forall i: nat :: i < |state| ==> state[i] == if i in shown then Revealed else f.state[i])
    && (forall i :: i in shown || i in stack ==> i < |f.state| && f.state[i] == Hidden && !mine[i])
    && (start in shown || start in stack)
    && (forall i: nat, j: nat :: i in shown && Opens(f, i, j) ==> j in shown || j in stack)
    && (forall t, i :: ClosedFrom(f, start, t) && (i in shown || i in stack) ==> i in t)
  }

  lemma FloodStarts(f: Field, mine: seq<bool>, start: nat)
    requires f.Valid() && |mine| == |f.state| && start < |mine| && !mine[start] && f.state[start] == Hidden
    ensures Flooding(f, mine, start, f.state, {}, [start])
  {
    hide Opens;
  }

  /** Nothing waits any more: the opened cells are the flood. */
  lemma FloodEnds(f: Field, mine: seq<bool>, start: nat, state: seq<CellState>, shown: set<nat>)
    requires f.Valid() && |mine| == |state| == |f.state| && Flooding(f, mine, start, state, shown, [])
    ensures Flooded(f.rows, f.cols, f.count, f.state, state, start)
    ensures Where(state, Flagged) == Where(f.state, Flagged)
    ensures OnlySafeAdded(Where(f.state, Revealed), Where(state, Revealed), Mines(mine))
  {
    hide Opens, Mines, Where;
    assert Where(state, Revealed) - Where(f.state, Revealed) == shown;
    assert Where(state, Flagged) == Where(f.state, Flagged);
    assert ClosedFrom(f, start, shown);
  }

  /** The top of the stack was opened meanwhile. */
  lemma FloodSkips(f: Field, mine: seq<bool>, start: nat, state: seq<CellState>, shown: set<nat>, rest: seq<nat>,
                   i: nat)
    requires f.Valid() && |mine| == |state| == |f.state| && Flooding(f, mine, start, state, shown, rest + [i])
    requires i < |state| && state[i] != Hidden
    ensures Flooding(f, mine, start, state, shown, rest)
  {
    hide Opens, ClosedFrom;
    assert i in rest + [i];
    assert i in shown;
    assert forall j :: j in rest + [i] <==> j in rest || j == i;
  }

  /** The top of the stack is opened, and what it opens is pushed. */
  lemma FloodOpens(f: Field, mine: seq<bool>, start: nat, state: seq<CellState>, shown: set<nat>, rest: seq<nat>,
                   i: nat, stack: seq<nat>)
    requires f.Valid() && |mine| == |state| == |f.state| && Flooding(f, mine, start, state, shown, rest + [i])
    requires i < |state| && state[i] == Hidden
    requires forall j: nat :: j in stack <==> j in rest || (Opens(f, i, j) && j !in shown && j != i)
    requires forall j: nat :: Opens(f, i, j) ==> j < |mine| && !mine[j]
    ensures Flooding(f, mine, start, state[i := Revealed], shown + {i}, stack)
  {
    hide Opens, ClosedFrom;
    assert i in rest + [i];
    assert forall j :: j in rest + [i] <==> j in rest || j == i;
    forall t, j | ClosedFrom(f, start, t) && (j in shown + {i} || j in stack)
      ensures j in t
    {
      assert i in t;
      if Opens(f, i, j) {
        ClosedStep(f, start, t, i, j);
      }
    }
    forall j: nat | Opens(f, i, j)
      ensures f.state[j] == Hidden
    {
      OpensHidden(f, i, j);
    }
  }

  lemma FloodTop(f: Field, mine: seq<bool>, start: nat, state: seq<CellState>, shown: set<nat>, rest: seq<nat>,
                 i: nat)
    requires f.Valid() && |mine| == |state| == |f.state| && Flooding(f, mine, start, state, shown, rest + [i])
    ensures i < |state| && !mine[i]
  {
    hide Opens, ClosedFrom;
    assert i in rest + [i];
  }

  /** What the inner loop pushes is what cell `i` opens and is still hidden. */
  lemma Pushed(f: Field, mine: seq<bool>, mines: nat, start: nat, state: seq<CellState>, shown: set<nat>,
               rest: seq<nat>, i: nat, stack: seq<nat>)
    requires f.Valid() && |mine| == |state| == |f.state| && Flooding(f, mine, start, state, shown, rest + [i])
    requires Laid(f.rows, f.cols, mines, mine, f.count) && i < |state| && !mine[i] && state[i] == Hidden
    requires f.count[i] != 0 ==> stack == rest
    requires f.count[i] == 0 ==> forall j: nat :: j in stack <==>
      j in rest || (Adjacent(f.rows, f.cols, i, j) && j < |state| && state[i := Revealed][j] == Hidden && !mine[j])
    ensures forall j: nat :: Opens(f, i, j) ==> j < |mine| && !mine[j]
    ensures forall j: nat :: j in stack <==> j in rest || (Opens(f, i, j) && j !in shown && j != i)
  {
    hide MinesAround, ClosedFrom;
    forall j: nat | Opens(f, i, j)
      ensures j < |mine| && !mine[j]
    {
      OpensHidden(f, i, j);
      ZeroMeansClear(f.rows, f.cols, mine, i, j);
    }
  }

  lemma ClosedStep(f: Field, start: nat, t: set<nat>, i: nat, j: nat)
    requires f.Valid() && i < |f.state| && ClosedFrom(f, start, t) && i in t && Opens(f, i, j)
    ensures j in t
  {
  }

  lemma OpensHidden(f: Field, i: nat, j: nat)
    requires f.Valid() && i < |f.state| && Opens(f, i, j)
    ensures j < |f.state| && f.state[j] == Hidden
  {
  }

  class Minesweeper {
    const rows: nat
    const cols: nat
    const mines: nat
    const size: nat
    var mine: seq<bool>
    var count: seq<nat>
    var state: seq<CellState>
    var placed: bool
    var dead: bool
    var won: bool
    var revealed: nat
    var flags: nat

    ghost predicate Sized()
      reads this
    {
      && cols > 0 && size == rows * cols && mines < size
      && |mine| == |count| == |state| == size
    }

    /** What holds between any two calls, in every run. */
    ghost predicate Valid()
      reads this
    {
      && Sized()
      && (if placed then Laid(rows, cols, mines, mine, count) else Untouched(mine, count, state))
      && flags == |Where(state, Flagged)|
      && revealed == SafeCount(Where(state, Revealed), Mines(mine))
      && Outcome(size, Mines(mine), Where(state, Revealed), placed, dead, won)
    }

    method Reset()
      requires Sized()
      modifies this
      ensures Valid() && !placed && !dead && !won && flags == 0 && revealed == 0
      ensures Where(state, Hidden) == Cells(size)
    {
      hide Mines, Where, MinesAround, Cells, OnBoard, Laid, Untouched;
      mine, count, state := [], [], [];
      var i := 0;
      while i < size
        invariant i <= size && |mine| == |count| == |state| == i
        invariant forall k :: 0 <= k < i ==> !mine[k] && count[k] == 0 && state[k] == Hidden
      {
        mine, count, state := mine + [false], count + [0], state + [Hidden];
        i := i + 1;
      }
      placed, dead, won, revealed, flags := false, false, false, 0, 0;
      Blank(mine, count, state);
    }

    constructor (rows: nat, cols: nat, mines: nat)
      requires cols > 0 && mines < rows * cols
      ensures Valid() && !placed && !dead && !won && flags == 0 && revealed == 0
      ensures this.rows == rows && this.cols == cols && this.mines == mines
    {
      this.rows, this.cols, this.mines, this.size := rows, cols, mines, rows * cols;
      mine, count, state := seq(rows * cols, _ => false), seq(rows * cols, _ => 0), seq(rows * cols, _ => Hidden);
      new;
      Reset();
    }

    method Near(i: nat) returns (nb: seq<nat>)
      requires Sized() && i < size
      ensures forall j: nat :: j in nb <==> Adjacent(rows, cols, i, j)
      ensures forall j :: j in nb ==> j < size
      ensures forall k :: 0 <= k < |nb| ==> nb[k] < size
      ensures Distinct(nb)
    {
      nb := Neighbors(rows, cols, i);
      forall k | 0 <= k < |nb|
        ensures nb[k] < size
      {
        assert nb[k] in nb;
      }
    }

    /** Sampling stops once enough different acceptable cells were drawn; `draws` holds at least that many. */
    method PlaceMines(safe: nat, draws: seq<nat>)
      requires Sized() && Untouched(mine, count, state) && safe < size
      requires forall i :: i in draws ==> i < size
      requires |Accepted(rows, cols, safe, draws)| >= mines
      modifies this`mine, this`count, this`placed
      ensures Sized() && Laid(rows, cols, mines, mine, count) && placed
      ensures Mines(mine) <= Accepted(rows, cols, safe, draws)
    {
      hide Mines, Accepted, Counted, MinesAround;
      DrawMines(safe, draws);
      CountMines();
      placed := true;
    }

    /** The sampling loop. */
    method DrawMines(safe: nat, draws: seq<nat>)
      requires Sized() && Mines(mine) == {} && safe < size
      requires forall i :: i in draws ==> i < size
      requires |Accepted(rows, cols, safe, draws)| >= mines
      modifies this`mine
      ensures Sized() && |Mines(mine)| == mines && Mines(mine) <= Accepted(rows, cols, safe, draws)
    {
      hide Mines, Where, MinesAround, Cells, OnBoard, Row, Col, Accepted, Adjacent, Counted;
      var near := Near(safe);
      var done, k := 0, 0;
      while done < mines
        invariant Sized() && k <= |draws| && done == |Mines(mine)| <= mines
        invariant Mines(mine) == Accepted(rows, cols, safe, draws[..k])
        decreases |draws| - k
      {
        assert draws[..|draws|] == draws;
        var i := draws[k];
        assert i in draws && draws[..k + 1] == draws[..k] + [i];
        AcceptStep(rows, cols, safe, draws[..k], i);
        k := k + 1;
        if i == safe || mine[i] || i in near {
          continue;
        }
        MinesGain(mine, i);
        mine := mine[i := true];
        done := done + 1;
      }
      AcceptedPrefix(rows, cols, safe, draws, k);
    }

    method CountMines()
      requires Sized()
      modifies this`count
      ensures |count| == size && Counted(rows, cols, mine, count)
    {
      hide Mines, Where, MinesAround, Cells, OnBoard, Row, Col, Adjacent;
      var i := 0;
      while i < |count|
        invariant 0 <= i <= |count| == size
        invariant forall k: nat :: k < i && !mine[k] ==> count[k] == |MinesAround(rows, cols, mine, k)|
      {
        if !mine[i] {
          var nb := Near(i);
          var c, k := 0, 0;
          ghost var found: set<nat> := {};
          while k < |nb|
            invariant 0 <= k <= |nb| && c == |found|
            invariant forall j: nat :: j in found <==> j in Mines(mine) && j in nb[..k]
          {
            assert nb[k] in nb && nb[..k + 1] == nb[..k] + [nb[k]];
            if mine[nb[k]] {
              c := c + 1;
              found := found + {nb[k]};
            }
            k := k + 1;
          }
          assert nb[..k] == nb;
          assert found == MinesAround(rows, cols, mine, i);
          count := count[i := c];
        }
        i := i + 1;
      }
    }

    /** Opens a cell. `draws` stands for the random generator, read only by the call that places the mines. */
    method Reveal(start: nat, draws: seq<nat>)
      requires Valid() && start < size
      requires forall i :: i in draws ==> i < size
      requires !placed ==> |Accepted(rows, cols, start, draws)| >= mines
      modifies this
      ensures Valid() && flags == old(flags)
      ensures old(dead) || old(won) ==>
        placed == old(placed) && mine == old(mine) && count == old(count) && state == old(state)
        && dead == old(dead) && won == old(won)
      ensures old(placed) ==> placed && mine == old(mine) && count == old(count)
      ensures !old(dead) && !old(won) ==> placed
      ensures !old(placed) ==>
        placed && !dead && forall i: nat :: i == start || Adjacent(rows, cols, start, i) ==> i !in Mines(mine)
      ensures old(state[start]) != Hidden ==> state == old(state)
      ensures old(state[start]) == Hidden && start in Mines(mine) && !old(dead) && !old(won) ==>
        dead && state == old(state)[start := Revealed]
      ensures old(state[start]) == Hidden && start !in Mines(mine) && !old(dead) && !old(won) ==>
        && !dead && Where(state, Flagged) == old(Where(state, Flagged))
        && Flooded(rows, cols, count, old(state), state, start)
    {
      hide Mines, Where, MinesAround, Cells, OnBoard, Row, Col, Accepted, Adjacent, Flooded, Outcome;
      if !placed {
        NotStarted(size, Mines(mine), Where(state, Revealed), dead, won);
      }
      if dead || won {
        return;
      }
      if !placed {
        PlaceMines(start, draws);
        NotYetWon();
      }
      if state[start] != Hidden {
        return;
      }
      Open(start);
    }

    /** Right after the mines were placed the position is valid and not won: a safe cell is still closed. */
    lemma NotYetWon()
      requires Sized() && Laid(rows, cols, mines, mine, count) && Where(state, Revealed) == {}
      requires !dead && !won && revealed == 0
      requires flags == |Where(state, Flagged)| && placed
      ensures Valid()
    {
      hide Mines, Where, Cells, Outcome;
      assert Mines(mine) <= Cells(size);
      NothingShownYet(size, Mines(mine), Where(state, Revealed));
    }

    /** The second half of `Reveal`, on a hidden cell of a board with mines. */
    method Open(start: nat)
      requires Valid() && placed && !dead && !won && start < size && state[start] == Hidden
      modifies this`state, this`dead, this`won, this`revealed
      ensures Valid()
      ensures Where(state, Flagged) == old(Where(state, Flagged))
      ensures mine[start] ==> dead && state == old(state)[start := Revealed]
      ensures !mine[start] ==> !dead && Flooded(rows, cols, count, old(state), state, start)
    {
      hide Mines, Where, MinesAround, Cells, Laid, Flooded, Outcome, Untouched, SafeCount, OnlySafeAdded;
      LaidCount(rows, cols, mines, mine, count);
      ghost var before := Where(state, Revealed);
      if mine[start] {
        Detonated(size, mine, state, start);
        state := state[start := Revealed];
        dead := true;
        return;
      }
      Flood(start);
      ghost var after := Where(state, Revealed);
      SafeShown(size, Mines(mine), before, after);
      if revealed == size - mines {
        won := true;
      }
    }

    /** The stack loop of the flood fill. */
    method Flood(start: nat)
      requires Sized() && Laid(rows, cols, mines, mine, count) && start < size
      requires state[start] == Hidden && !mine[start]
      requires revealed == SafeCount(Where(state, Revealed), Mines(mine))
      modifies this`state, this`revealed
      ensures Sized() && revealed == SafeCount(Where(state, Revealed), Mines(mine))
      ensures Where(state, Flagged) == old(Where(state, Flagged))
      ensures Flooded(rows, cols, count, old(state), state, start)
      ensures OnlySafeAdded(old(Where(state, Revealed)), Where(state, Revealed), Mines(mine))
    {
      hide Mines, Where, MinesAround, Cells, OnBoard, Row, Col, Adjacent, Opens, Flooding, Flooded, Laid, SafeCount,
        OnlySafeAdded;
      ghost var f := Field(rows, cols, count, state);
      var stack: seq<nat> := [start];
      ghost var shown: set<nat> := {};
      FloodStarts(f, mine, start);
      while stack != []
        invariant Sized() && revealed == SafeCount(Where(state, Revealed), Mines(mine))
        invariant Flooding(f, mine, start, state, shown, stack)
        decreases |Where(state, Hidden)|, |stack|
      {
        var i := stack[|stack| - 1];
        ghost var rest := stack[..|stack| - 1];
        assert stack == rest + [i];
        stack := stack[..|stack| - 1];
        FloodTop(f, mine, start, state, shown, rest, i);
        if state[i] != Hidden {
          FloodSkips(f, mine, start, state, shown, rest, i);
          continue;
        }
        WhereLoses(state, i, Revealed);
        WhereGains(state, i, Revealed);
        SafeGains(Where(state, Revealed), Mines(mine), i);
        ghost var before := state;
        state := state[i := Revealed];
        revealed := revealed + 1;
        if count[i] == 0 {
          var nb := Near(i);
          stack := PushHidden(nb, stack);
        }
        Pushed(f, mine, mines, start, before, shown, rest, i, stack);
        FloodOpens(f, mine, start, before, shown, rest, i, stack);
        shown := shown + {i};
      }
      FloodEnds(f, mine, start, state, shown);
    }

    method PushHidden(nb: seq<nat>, stack: seq<nat>) returns (r: seq<nat>)
      requires Sized() && forall j :: j in nb ==> j < size
      ensures forall j :: j in r <==> j in stack || (j in nb && state[j] == Hidden && !mine[j])
    {
      r := stack;
      var k := 0;
      while k < |nb|
        invariant 0 <= k <= |nb|
        invariant forall j :: j in r <==> j in stack || (j in nb[..k] && j < size && state[j] == Hidden && !mine[j])
      {
        assert nb[k] in nb && nb[..k + 1] == nb[..k] + [nb[k]];
        if state[nb[k]] == Hidden && !mine[nb[k]] {
          r := r + [nb[k]];
        }
        k := k + 1;
      }
      assert nb[..k] == nb;
    }

    method ToggleFlag(i: nat)
      requires Valid() && i < size
      modifies this`state, this`flags
      ensures Valid()
      ensures dead || won || old(state[i]) == Revealed ==> state == old(state)
      ensures !dead && !won && old(state[i]) == Hidden ==> state == old(state)[i := Flagged]
      ensures !dead && !won && old(state[i]) == Flagged ==> state == old(state)[i := Hidden]
    {
      hide Mines, Where, MinesAround, Cells, OnBoard, Outcome, Laid;
      if dead || won {
        return;
      }
      match state[i]
      case Hidden =>
        WhereGains(state, i, Flagged);
        WhereKeeps(state, i, Flagged, Revealed);
        state := state[i := Flagged];
        flags := flags + 1;
      case Flagged =>
        assert i in Where(state, Flagged);
        WhereLoses(state, i, Hidden);
        WhereKeeps(state, i, Hidden, Revealed);
        state := state[i := Hidden];
        flags := flags - 1;
      case Revealed =>
    }
  }
}
