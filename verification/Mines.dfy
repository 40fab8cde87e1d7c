// Minesweeper: the counts, and opening a square with an explicit stack
// (user/mines.c:151-251, 272-299).
module Mines {
  import opened Counting

  const COLS: nat := 16
  const ROWS: nat := 12
  const CELLS: nat := 192
  const MINES: nat := 28

  datatype Shown = Covered | Open | Flag

  datatype Outcome = Playing | HitMine | Cleared

  predicate OnBoard(i: int) { 0 <= i < CELLS }

  function Col(i: nat): nat { i % COLS }

  function Row(i: nat): nat { i / COLS }

  predicate Within(a: int, b: int) { -1 <= a - b <= 1 }

  /** Two squares that touch, a square touching itself. */
  predicate Near(i: nat, j: nat) { Within(Col(i), Col(j)) && Within(Row(i), Row(j)) }

  /** A square is its column and its row. */
  lemma Square(col: int, row: int)
    requires 0 <= col < COLS && 0 <= row < ROWS
    ensures OnBoard(row * COLS + col) && Col(row * COLS + col) == col && Row(row * COLS + col) == row
  {
  }

  lemma SameSquare(i: nat, j: nat)
    requires OnBoard(i) && OnBoard(j) && Col(i) == Col(j) && Row(i) == Row(j)
    ensures i == j
  {
  }

  // ----- the counts

  ghost function MinesAround(mined: seq<bool>, i: nat): set<nat>
    requires |mined| == CELLS
  {
    set j: nat | j < CELLS && Near(i, j) && j != i && mined[j]
  }

  ghost predicate Counted(mined: seq<bool>, touching: seq<nat>) {
    |mined| == |touching| == CELLS && forall i {:trigger touching[i]} :: 0 <= i < CELLS ==> touching[i] == |MinesAround(mined, i)|
  }

  /** A square nothing counts has no mine beside it. */
  lemma NoneAround(mined: seq<bool>, touching: seq<nat>, i: nat, j: nat)
    requires Counted(mined, touching) && i < CELLS && j < CELLS && touching[i] == 0 && Near(i, j) && j != i
    ensures !mined[j]
  {
    var around := MinesAround(mined, i);
    assert around == {} && j !in around;
  }

  /** Square (col, row) comes before (c, r) in reading order. */
  predicate Before(i: nat, c: int, r: int) { Row(i) < r || (Row(i) == r && Col(i) < c) }

  ghost function MinesBefore(mined: seq<bool>, i: nat, c: int, r: int): set<nat>
    requires |mined| == CELLS
  {
    set j | j in MinesAround(mined, i) && Before(j, c, r)
  }

  lemma NoMinesYet(mined: seq<bool>, i: nat)
    requires |mined| == CELLS && i < CELLS
    ensures MinesBefore(mined, i, Col(i) - 1, Row(i) - 1) == {}
  {
  }

  /** The count of the next square of the three by three. */
  lemma NextSquare(mined: seq<bool>, i: nat, c: int, r: int)
    requires |mined| == CELLS && i < CELLS && Within(c, Col(i)) && Within(r, Row(i))
    ensures var inside := 0 <= c < COLS && 0 <= r < ROWS && !(c == Col(i) && r == Row(i));
            && (inside ==> OnBoard(r * COLS + c))
            && |MinesBefore(mined, i, c + 1, r)| ==
               |MinesBefore(mined, i, c, r)| + (if inside && mined[r * COLS + c] then 1 else 0)
  {
    var inside := 0 <= c < COLS && 0 <= r < ROWS && !(c == Col(i) && r == Row(i));
    if 0 <= c < COLS && 0 <= r < ROWS { Square(c, r); }
    OneSquareMore(mined, i, c, r);
  }

  /** The mines counted after a square are those before it and the square itself. */
  lemma OneSquareMore(mined: seq<bool>, i: nat, c: int, r: int)
    requires |mined| == CELLS && i < CELLS && Within(c, Col(i)) && Within(r, Row(i))
    requires 0 <= c < COLS && 0 <= r < ROWS ==> OnBoard(r * COLS + c) && Col(r * COLS + c) == c && Row(r * COLS + c) == r
    ensures var inside := 0 <= c < COLS && 0 <= r < ROWS && !(c == Col(i) && r == Row(i));
            var more := if inside && mined[r * COLS + c] then {r * COLS + c} else {};
            MinesBefore(mined, i, c + 1, r) == MinesBefore(mined, i, c, r) + more && MinesBefore(mined, i, c, r) !! more
  {
    var inside := 0 <= c < COLS && 0 <= r < ROWS && !(c == Col(i) && r == Row(i));
    var more := if inside && mined[r * COLS + c] then {r * COLS + c} else {};
    forall j ensures j in MinesBefore(mined, i, c + 1, r) <==> j in MinesBefore(mined, i, c, r) + more {
      if j in MinesBefore(mined, i, c + 1, r) && j !in MinesBefore(mined, i, c, r) {
        assert Col(j) == c && Row(j) == r;
        SameSquare(j, r * COLS + c);
      }
    }
  }

  lemma NextRow(mined: seq<bool>, i: nat, r: int)
    requires |mined| == CELLS && i < CELLS
    ensures MinesBefore(mined, i, Col(i) + 2, r) == MinesBefore(mined, i, Col(i) - 1, r + 1)
  {
  }

  lemma AllSquares(mined: seq<bool>, i: nat)
    requires |mined| == CELLS && i < CELLS
    ensures MinesBefore(mined, i, Col(i) - 1, Row(i) + 2) == MinesAround(mined, i)
  {
  }

  // ----- what opening a square opens

  /** A walk of `n` steps over covered squares, each but the last with nothing
      beside it. */
  ghost predicate ReachedIn(shown: seq<Shown>, touching: seq<nat>, start: nat, i: nat, n: nat)
    requires |shown| == |touching| == CELLS
    decreases n
  {
    && i < CELLS && shown[i] == Covered
    && if n == 0 then i == start
       else
         var m := n - 1;
         exists j: nat {:trigger ReachedIn(shown, touching, start, j, m)} ::
           j < CELLS && ReachedIn(shown, touching, start, j, m) && touching[j] == 0 && Near(j, i)
  }

  /** The squares one click on `start` opens. */
  ghost predicate Reached(shown: seq<Shown>, touching: seq<nat>, start: nat, i: nat)
    requires |shown| == |touching| == CELLS
  {
    exists n: nat {:trigger ReachedIn(shown, touching, start, i, n)} :: ReachedIn(shown, touching, start, i, n)
  }

  lemma ReachedStart(shown: seq<Shown>, touching: seq<nat>, start: nat)
    requires |shown| == |touching| == CELLS && start < CELLS && shown[start] == Covered
    ensures Reached(shown, touching, start, start)
  {
    assert ReachedIn(shown, touching, start, start, 0);
  }

  lemma ReachedNext(shown: seq<Shown>, touching: seq<nat>, start: nat, i: nat, j: nat)
    requires |shown| == |touching| == CELLS && i < CELLS && Reached(shown, touching, start, i) && touching[i] == 0
    requires j < CELLS && Near(i, j) && shown[j] == Covered
    ensures Reached(shown, touching, start, j)
  {
    var n: nat :| ReachedIn(shown, touching, start, i, n);
    assert ReachedIn(shown, touching, start, j, n + 1);
  }

  /** A set of squares that has every covered neighbour of its empty squares. */
  ghost predicate Closed(shown: seq<Shown>, touching: seq<nat>, squares: set<nat>)
    requires |shown| == |touching| == CELLS
  {
    forall i, j: nat {:trigger Near(i, j), i in squares} ::
      i in squares && i < CELLS && j < CELLS && touching[i] == 0 && Near(i, j) && shown[j] == Covered ==> j in squares
  }

  /** Everything reached is in any closed set that has the start. */
  lemma {:induction false} ClosedHasAll(shown: seq<Shown>, touching: seq<nat>, start: nat, squares: set<nat>, i: nat,
                                        n: nat)
    requires |shown| == |touching| == CELLS && start in squares && Closed(shown, touching, squares)
    requires ReachedIn(shown, touching, start, i, n)
    ensures i in squares
    decreases n
  {
    if n > 0 {
      var m := n - 1;
      var j: nat :| j < CELLS && ReachedIn(shown, touching, start, j, m) && touching[j] == 0 && Near(j, i);
      ClosedHasAll(shown, touching, start, squares, j, m);
    }
  }

  /** Nothing reached is a mine, when the start is not one. */
  lemma {:induction false} ReachedIsSafe(mined: seq<bool>, shown: seq<Shown>, touching: seq<nat>, start: nat, i: nat,
                                         n: nat)
    requires |shown| == CELLS && Counted(mined, touching) && start < CELLS && !mined[start] && i < CELLS
    requires ReachedIn(shown, touching, start, i, n)
    ensures !mined[i]
    decreases n
  {
    if n > 0 {
      var m := n - 1;
      var j: nat :| j < CELLS && ReachedIn(shown, touching, start, j, m) && touching[j] == 0 && Near(j, i);
      if j != i { NoneAround(mined, touching, j, i); } else { ReachedIsSafe(mined, shown, touching, start, i, m); }
    }
  }

  // ----- the board

  ghost function Showing(shown: seq<Shown>, what: Shown): set<int> { set i | 0 <= i < |shown| && shown[i] == what }

  ghost function MineSquares(mined: seq<bool>): set<int> { set i | 0 <= i < |mined| && mined[i] }

  /** Every square that is not a mine is open. */
  ghost predicate AllSafeOpen(mined: seq<bool>, shown: seq<Shown>)
    requires |mined| == |shown|
  {
    forall i {:trigger shown[i]} :: 0 <= i < |shown| && !mined[i] ==> shown[i] == Open
  }

  ghost predicate NoMineOpen(mined: seq<bool>, shown: seq<Shown>)
    requires |mined| == |shown|
  {
    forall i {:trigger shown[i]} :: 0 <= i < |shown| && shown[i] == Open ==> !mined[i]
  }

  /** With no mine open, as many open squares as there are safe ones means all of
      them. */
  lemma ClearedExactly(mined: seq<bool>, shown: seq<Shown>)
    requires |mined| == |shown| == CELLS && NoMineOpen(mined, shown) && |MineSquares(mined)| == MINES
    ensures |Showing(shown, Open)| == CELLS - MINES <==> AllSafeOpen(mined, shown)
  {
    var open, mines := Showing(shown, Open), MineSquares(mined);
    var all := Below(|shown|);
    assert open !! mines;
    SubsetSize(open + mines, all);
    if AllSafeOpen(mined, shown) {
      assert open + mines == all;
    } else {
      var i :| 0 <= i < |shown| && !mined[i] && shown[i] != Open;
      assert i in all && i !in open + mines;
    }
  }

  // ----- the fill, on values

  /** Square `i` has no covered neighbour left behind. */
  ghost predicate DoneAt(was: seq<Shown>, now: set<nat>, i: nat)
    requires |was| == CELLS
  {
    forall j: nat {:trigger Near(i, j)} :: j < CELLS && Near(i, j) && was[j] == Covered ==> j in now
  }

  ghost predicate NoneTwice(stack: seq<nat>) {
    forall a, b {:trigger Twice(stack, a, b)} :: !Twice(stack, a, b)
  }

  ghost predicate Twice(stack: seq<nat>, a: int, b: int) { 0 <= a < b < |stack| && stack[a] == stack[b] }

  ghost predicate FreshSquare(was: seq<Shown>, touching: seq<nat>, start: nat, i: nat)
    requires |was| == |touching| == CELLS
  {
    i < CELLS && was[i] == Covered && Reached(was, touching, start, i)
  }

  /** Where the fill stands: `now` is what it has opened, and every square of it
      that is neither waiting on the stack nor being worked on is done with. */
  ghost predicate Filling(was: seq<Shown>, touching: seq<nat>, shown: seq<Shown>, start: nat, now: set<nat>,
                          stack: seq<nat>, working: int)
    requires |was| == |touching| == CELLS
  {
    && |shown| == CELLS && start in now
    && (forall i {:trigger shown[i]} :: 0 <= i < CELLS ==> shown[i] == if i in now then Open else was[i])
    && (forall i {:trigger FreshSquare(was, touching, start, i)} :: i in now ==> FreshSquare(was, touching, start, i))
    && NoneTwice(stack) && (forall a {:trigger stack[a]} :: 0 <= a < |stack| ==> stack[a] in now)
    && (forall i {:trigger DoneAt(was, now, i)} :: i in now && i !in stack && i != working && i < CELLS && touching[i] == 0 ==> DoneAt(was, now, i))
  }

  lemma FillBegins(was: seq<Shown>, touching: seq<nat>, start: nat)
    requires |was| == |touching| == CELLS && start < CELLS && was[start] == Covered
    ensures Filling(was, touching, was[start := Open], start, {start}, [start], -1)
  {
    ReachedStart(was, touching, start);
  }

  /** One square taken off the stack to be worked on. */
  lemma FillPops(was: seq<Shown>, touching: seq<nat>, shown: seq<Shown>, start: nat, now: set<nat>, stack: seq<nat>)
    requires |was| == |touching| == CELLS && stack != [] && Filling(was, touching, shown, start, now, stack, -1)
    ensures var top := stack[|stack| - 1];
            && top < CELLS && top in now
            && Filling(was, touching, shown, start, now, stack[..|stack| - 1], top)
  {
    var n := |stack| - 1;
    var rest := stack[..n];
    assert FreshSquare(was, touching, start, stack[n]);
    forall a, b ensures !Twice(rest, a, b) { assert !Twice(stack, a, b); }
    assert stack == rest + [stack[n]];
    forall i | i in now && i !in rest && i != stack[n] && i < CELLS && touching[i] == 0 ensures DoneAt(was, now, i) {
      assert i !in stack;
    }
  }

  /** One covered neighbour of an empty square opened and put on the stack. */
  lemma FillPushes(was: seq<Shown>, touching: seq<nat>, shown: seq<Shown>, start: nat, now: set<nat>, stack: seq<nat>,
                   working: nat, next: nat)
    requires |was| == |touching| == CELLS && Filling(was, touching, shown, start, now, stack, working)
    requires working < CELLS && working in now && touching[working] == 0 && next < CELLS && Near(working, next)
    requires shown[next] == Covered
    ensures next !in now && Filling(was, touching, shown[next := Open], start, now + {next}, stack + [next], working)
    ensures |stack| < CELLS
  {
    assert FreshSquare(was, touching, start, working);
    ReachedNext(was, touching, start, working, next);
    var now', stack' := now + {next}, stack + [next];
    assert next !in stack;
    forall a, b ensures !Twice(stack', a, b) {
      assert !Twice(stack, a, b);
      if 0 <= a < b == |stack| { assert stack[a] in stack; }
    }
    forall i | i in now' ensures FreshSquare(was, touching, start, i) { assert i in now ==> FreshSquare(was, touching, start, i); }
    forall i | i in now' && i !in stack' && i != working && i < CELLS && touching[i] == 0 ensures DoneAt(was, now', i) {
      assert i in stack ==> i in stack';
      assert DoneAt(was, now, i);
    }
    StackBounded(stack', |was|);
  }

  /** Squares pushed once each never outgrow the board. */
  lemma StackBounded(stack: seq<nat>, n: nat)
    requires NoneTwice(stack) && forall a {:trigger stack[a]} :: 0 <= a < |stack| ==> stack[a] < n
    ensures |stack| <= n
  {
    SquaresCounted(stack);
    SubsetSize((set x: int | x in stack), Below(n));
  }

  lemma {:induction false} SquaresCounted(stack: seq<nat>)
    requires NoneTwice(stack)
    ensures |set x: int | x in stack| == |stack|
  {
    if stack != [] {
      var n := |stack| - 1;
      var rest := stack[..n];
      forall a, b ensures !Twice(rest, a, b) { assert !Twice(stack, a, b); }
      SquaresCounted(rest);
      if stack[n] in rest {
        var k :| 0 <= k < n && rest[k] == stack[n];
        assert Twice(stack, k, n);
      }
      assert (set x: int | x in stack) == (set x: int | x in rest) + {stack[n]};
    }
  }

  /** The square worked on is done with. */
  lemma FillFinishes(was: seq<Shown>, touching: seq<nat>, shown: seq<Shown>, start: nat, now: set<nat>,
                     stack: seq<nat>, working: nat)
    requires |was| == |touching| == CELLS && Filling(was, touching, shown, start, now, stack, working)
    requires working < CELLS && (touching[working] == 0 ==> DoneAt(was, now, working))
    ensures Filling(was, touching, shown, start, now, stack, -1)
  {
  }

  lemma FreshBounded(was: seq<Shown>, touching: seq<nat>, shown: seq<Shown>, start: nat, now: set<nat>, stack: seq<nat>)
    requires |was| == |touching| == CELLS && Filling(was, touching, shown, start, now, stack, -1)
    ensures |now| <= CELLS
  {
    forall i | i in now ensures 0 <= i < |was| { assert FreshSquare(was, touching, start, i); }
    var squares: set<int> := now;
    SubsetSize(squares, Below(|was|));
  }

  /** With nothing left on the stack, exactly what can be reached is open. */
  lemma FillIsReached(was: seq<Shown>, touching: seq<nat>, shown: seq<Shown>, start: nat, now: set<nat>)
    requires |was| == |touching| == CELLS && Filling(was, touching, shown, start, now, [], -1)
    ensures forall i: nat {:trigger Reached(was, touching, start, i)} :: i < CELLS ==> (i in now <==> Reached(was, touching, start, i))
  {
    forall i, j: nat | i in now && i < CELLS && j < CELLS && touching[i] == 0 && Near(i, j) && was[j] == Covered
      ensures j in now
    {
      assert DoneAt(was, now, i);
    }
    forall i: nat | i < CELLS ensures i in now <==> Reached(was, touching, start, i) {
      assert i in now ==> FreshSquare(was, touching, start, i);
      if Reached(was, touching, start, i) {
        var n: nat :| ReachedIn(was, touching, start, i, n);
        ClosedHasAll(was, touching, start, now, i, n);
      }
    }
  }

  // ----- playing

  /** What uncovering a square does: nothing when it is open or flagged; a mine shows every
      mine and ends the game; a safe square opens exactly what can be reached from it. */
  ghost predicate Uncovered(was: seq<Shown>, shown: seq<Shown>, mined: seq<bool>, touching: seq<nat>, start: nat,
                            over: Outcome)
    requires |was| == |shown| == |mined| == |touching| == CELLS && start < CELLS
  {
    if was[start] != Covered then shown == was && over == Playing
    else if mined[start] then over == HitMine && forall i :: 0 <= i < CELLS ==> shown[i] == if mined[i] then Open else was[i]
    else
      && (forall i: nat {:trigger shown[i]} :: i < CELLS ==>
            shown[i] == if Reached(was, touching, start, i) then Open else was[i])
      && (over == Cleared <==> AllSafeOpen(mined, shown)) && over != HitMine
  }

  /** What showing the mines does to the two counts, which are as they were: the open
      squares are as many more as there are mines, and the flags are still counted exactly
      when none stood on a mine. */
  ghost predicate LeftBehind(was: seq<Shown>, shown: seq<Shown>, mined: seq<bool>, openCount: nat, flagged: int)
    requires |was| == |shown| == |mined|
  {
    && openCount == |Showing(was, Open)| && |Showing(shown, Open)| == openCount + MINES
    && flagged == |Showing(was, Flag)| && (flagged == |Showing(shown, Flag)| <==> NoMineFlagged(was, mined))
  }

  ghost predicate NoMineFlagged(shown: seq<Shown>, mined: seq<bool>)
    requires |shown| == |mined|
  {
    forall i {:trigger shown[i]} :: 0 <= i < |shown| && shown[i] == Flag ==> !mined[i]
  }

  /** The game is lost with as many squares open that were not counted as there are mines. */
  lemma OpensUncounted(was: seq<Shown>, shown: seq<Shown>, mined: seq<bool>, openCount: nat)
    requires |was| == |shown| == |mined| && NoMineOpen(mined, was) && |MineSquares(mined)| == MINES
    requires openCount == |Showing(was, Open)|
    requires forall i :: 0 <= i < |shown| ==> shown[i] == if mined[i] then Open else was[i]
    ensures |Showing(shown, Open)| == openCount + MINES
  {
    assert Showing(shown, Open) == Showing(was, Open) + MineSquares(mined);
    assert Showing(was, Open) !! MineSquares(mined);
  }

  /** The flags that stood on mines are gone, and still counted. */
  lemma FlagsUncounted(was: seq<Shown>, shown: seq<Shown>, mined: seq<bool>, flagged: int)
    requires |was| == |shown| == |mined| && flagged == |Showing(was, Flag)|
    requires forall i :: 0 <= i < |shown| ==> shown[i] == if mined[i] then Open else was[i]
    ensures flagged == |Showing(shown, Flag)| <==> NoMineFlagged(was, mined)
  {
    var before, after := Showing(was, Flag), Showing(shown, Flag);
    SubsetSize(after, before);
    if NoMineFlagged(was, mined) {
      assert after == before;
    } else {
      var i :| 0 <= i < |was| && was[i] == Flag && mined[i];
      assert i in before && i !in after;
    }
  }

  class Board {
    const mined: array<bool>
    const touching: array<nat>
    const shown: array<Shown>
    const toOpen: array<nat>
    var openCount: nat
    var flagged: int
    var dealt: bool
    var over: Outcome

    ghost predicate Sized()
      reads this
    {
      && mined.Length == CELLS && touching.Length == CELLS && shown.Length == CELLS && toOpen.Length == CELLS
      && touching != toOpen
    }

    /** What holds between clicks until a mine is hit: no mine is open, the open
        squares and the flags are counted, the numbers are right once the mines
        are laid, and the game is won exactly when every safe square is open. */
    ghost predicate Valid()
      reads this, mined, touching, shown, toOpen
    {
      && Sized()
      && (over != HitMine ==>
            && NoMineOpen(mined[..], shown[..])
            && openCount == |Showing(shown[..], Open)| && flagged == |Showing(shown[..], Flag)|)
      && (dealt ==> Counted(mined[..], touching[..]) && |MineSquares(mined[..])| == MINES)
      && (!dealt ==> over == Playing && openCount == 0 && forall i :: 0 <= i < CELLS ==> !mined[i])
      && (dealt && over != HitMine ==> (over == Cleared <==> AllSafeOpen(mined[..], shown[..])))
    }

    constructor ()
      ensures Valid() && !dealt && over == Playing && openCount == 0 && flagged == 0
      ensures forall i :: 0 <= i < CELLS ==> shown[i] == Covered && !mined[i] && touching[i] == 0
      ensures fresh(mined) && fresh(touching) && fresh(shown) && fresh(toOpen)
    {
      mined, touching := new bool[CELLS](_ => false), new nat[CELLS](_ => 0);
      shown, toOpen := new Shown[CELLS](_ => Covered), new nat[CELLS](_ => 0);
      openCount, flagged, dealt, over := 0, 0, false, Playing;
      new;
      assert Showing(shown[..], Flag) == {} && Showing(shown[..], Open) == {};
    }

    /** The counting half of `deal`. */
    method Count()
      requires Sized()
      modifies touching
      ensures Counted(mined[..], touching[..])
    {
      var row := 0;
      while row < ROWS
        invariant 0 <= row <= ROWS
        invariant forall i: nat :: i < CELLS && Row(i) < row ==> touching[i] == |MinesAround(mined[..], i)|
      {
        var col := 0;
        while col < COLS
          invariant 0 <= col <= COLS
          invariant forall i: nat :: i < CELLS && Before(i, col, row) ==> touching[i] == |MinesAround(mined[..], i)|
        {
          Square(col, row);
          var count := CountAround(col, row);
          touching[row * COLS + col] := count;
          forall i: nat | i < CELLS && Before(i, col + 1, row) ensures touching[i] == |MinesAround(mined[..], i)| {
            if !Before(i, col, row) { SameSquare(i, row * COLS + col); }
          }
          col := col + 1;
        }
        row := row + 1;
      }
    }

    /** The mines in the three by three around one square. */
    method CountAround(col: nat, row: nat) returns (count: nat)
      requires Sized() && col < COLS && row < ROWS && OnBoard(row * COLS + col)
      ensures count == |MinesAround(mined[..], row * COLS + col)|
    {
      Square(col, row);
      ghost var i: nat, all := row * COLS + col, mined[..];
      count := 0;
      NoMinesYet(all, i);
      var dy := -1;
      while dy <= 1
        invariant -1 <= dy <= 2 && count == |MinesBefore(all, i, col - 1, row + dy)|
      {
        count := CountRow(col, row, dy, count);
        NextRow(all, i, row + dy);
        dy := dy + 1;
      }
      AllSquares(all, i);
    }

    /** One row of the three. */
    method CountRow(col: nat, row: nat, dy: int, before: nat) returns (count: nat)
      requires Sized() && col < COLS && row < ROWS && OnBoard(row * COLS + col) && -1 <= dy <= 1
      requires before == |MinesBefore(mined[..], row * COLS + col, col - 1, row + dy)|
      ensures count == |MinesBefore(mined[..], row * COLS + col, col + 2, row + dy)|
    {
      Square(col, row);
      ghost var i: nat, all := row * COLS + col, mined[..];
      count := before;
      var dx := -1;
      while dx <= 1
        invariant -1 <= dx <= 2 && count == |MinesBefore(all, i, col + dx, row + dy)|
      {
        var nx, ny := col + dx, row + dy;
        NextSquare(all, i, nx, ny);
        if !(dx == 0 && dy == 0) && !(nx < 0 || nx >= COLS || ny < 0 || ny >= ROWS) {
          count := count + if mined[ny * COLS + nx] then 1 else 0;
        }
        dx := dx + 1;
      }
    }

    /** `deal`, for a choice of squares: the random placement is the caller's. */
    method Deal(chosen: seq<nat>, safe: nat)
      requires Valid() && !dealt && NoneTwice(chosen) && |chosen| == MINES && safe !in chosen
      requires forall a {:trigger chosen[a]} :: 0 <= a < |chosen| ==> chosen[a] < CELLS
      modifies mined, touching
      ensures Counted(mined[..], touching[..]) && |MineSquares(mined[..])| == MINES
      ensures forall i: nat {:trigger mined[i]} :: i < CELLS ==> (mined[i] <==> i in chosen)
    {
      var placed := 0;
      while placed < |chosen|
        invariant 0 <= placed <= |chosen|
        invariant forall i: nat {:trigger mined[i]} :: i < CELLS ==> (mined[i] <==> i in chosen[..placed])
      {
        mined[chosen[placed]] := true;
        placed := placed + 1;
      }
      SquaresCounted(chosen);
      assert MineSquares(mined[..]) == set x: int | x in chosen;
      Count();
    }

    /** The whole of a lost game: every mine shown. */
    method ShowMines()
      requires Sized()
      modifies shown
      ensures forall i :: 0 <= i < CELLS ==> shown[i] == if mined[i] then Open else old(shown[i])
    {
      var i := 0;
      while i < CELLS
        invariant 0 <= i <= CELLS
        invariant forall j :: 0 <= j < CELLS ==> shown[j] == if j < i && mined[j] then Open else old(shown[j])
      {
        if mined[i] { shown[i] := Open; }
        i := i + 1;
      }
    }

    /** One neighbour of an empty square: opened and put on the stack when it is
        covered. */
    method OpenNext(next: nat, top: nat, ghost was: seq<Shown>, ghost start: nat, ghost now: set<nat>,
                    ghost working: nat)
      returns (top': nat, ghost now': set<nat>)
      requires Sized() && |was| == CELLS && top <= CELLS && next < CELLS && working < CELLS && Near(working, next)
      requires Filling(was, touching[..], shown[..], start, now, toOpen[..top], working)
      requires working in now && touching[working] == 0
      modifies shown, toOpen, this`openCount
      ensures top' <= CELLS && Filling(was, touching[..], shown[..], start, now', toOpen[..top'], working)
      ensures now <= now' && (was[next] == Covered ==> next in now') && openCount == old(openCount) + |now'| - |now|
      ensures top' - top == |now'| - |now| >= 0
    {
      if shown[next] != Covered { return top, now; }
      FillPushes(was, touching[..], shown[..], start, now, toOpen[..top], working, next);
      ghost var after := shown[..][next := Open];
      shown[next] := Open;
      openCount := openCount + 1;
      toOpen[top] := next;
      assert shown[..] == after;
      assert toOpen[..top + 1] == old(toOpen[..top]) + [next];
      top', now' := top + 1, now + {next};
    }

    /** Every neighbour of an empty square. */
    method OpenAround(index: nat, top: nat, ghost was: seq<Shown>, ghost start: nat, ghost now: set<nat>)
      returns (top': nat, ghost now': set<nat>)
      requires Sized() && |was| == CELLS && top <= CELLS && index < CELLS && index in now && touching[index] == 0
      requires Filling(was, touching[..], shown[..], start, now, toOpen[..top], index)
      modifies shown, toOpen, this`openCount
      ensures top' <= CELLS && Filling(was, touching[..], shown[..], start, now', toOpen[..top'], index)
      ensures now <= now' && DoneAt(was, now', index) && openCount == old(openCount) + |now'| - |now|
      ensures top' - top == |now'| - |now| >= 0
    {
      top', now' := top, now;
      var col, row := Col(index), Row(index);
      var dy: int := -1;
      while dy <= 1
        invariant top' - top == |now'| - |now| >= 0
        invariant -1 <= dy <= 2 && top' <= CELLS &&
                  Filling(was, touching[..], shown[..], start, now', toOpen[..top'], index)
        invariant now <= now' && openCount == old(openCount) + |now'| - |now| &&
                  OpenBefore(was, now', index, col - 1, row + dy)
      {
        var dx: int := -1;
        while dx <= 1
          invariant top' - top == |now'| - |now| >= 0
          invariant -1 <= dx <= 2 && top' <= CELLS &&
                    Filling(was, touching[..], shown[..], start, now', toOpen[..top'], index)
          invariant now <= now' && openCount == old(openCount) + |now'| - |now| &&
                    OpenBefore(was, now', index, col + dx, row + dy)
        {
          var nx: int, ny: int := col + dx, row + dy;
          ghost var before := now';
          if !(nx < 0 || nx >= COLS || ny < 0 || ny >= ROWS) {
            Square(nx, ny);
            top', now' := OpenNext(ny * COLS + nx, top', was, start, now', index);
          }
          OneMoreOpen(was, before, now', index, nx, ny);
          dx := dx + 1;
        }
        RowOpen(was, now', index, row + dy);
        dy := dy + 1;
      }
      AllOpen(was, now', index);
    }

    /** The fill itself, until the stack is empty. */
    method Fill(start: nat, ghost was: seq<Shown>) returns (ghost now: set<nat>)
      requires Sized() && |was| == CELLS && start < CELLS && was[start] == Covered && shown[..] == was[start := Open]
      modifies shown, toOpen, this`openCount
      ensures Filling(was, touching[..], shown[..], start, now, [], -1) && openCount == old(openCount) + |now| - 1
    {
      var top := 0;
      toOpen[top] := start;
      top := top + 1;
      now := {start};
      assert toOpen[..1] == [start];
      FillBegins(was, touching[..], start);
      while top > 0
        invariant top <= CELLS && Filling(was, touching[..], shown[..], start, now, toOpen[..top], -1)
        invariant openCount == old(openCount) + |now| - 1
        invariant |now| <= CELLS
        decreases CELLS + CELLS - |now| - |now| + top
      {
        FillPops(was, touching[..], shown[..], start, now, toOpen[..top]);
        top := top - 1;
        var index := toOpen[top];
        assert toOpen[..top + 1][..top] == toOpen[..top];
        if touching[index] == 0 {
          ghost var before := now;
          top, now := OpenAround(index, top, was, start, now);
        }
        FillFinishes(was, touching[..], shown[..], start, now, toOpen[..top], index);
        FreshBounded(was, touching[..], shown[..], start, now, toOpen[..top]);
      }
      assert toOpen[..top] == [];
    }

    /** `uncover`: a covered mine ends the game and shows them all; a covered safe
        square opens exactly the covered squares that can be reached from it
        through squares with nothing beside them, and may win the game. */
    method Uncover(start: nat)
      requires Valid() && dealt && over == Playing && start < CELLS
      modifies this`openCount, this`over, shown, toOpen
      ensures Valid()
      ensures old(shown[start]) != Covered ==> shown[..] == old(shown[..]) && over == Playing && openCount == old(openCount)
      ensures Uncovered(old(shown[..]), shown[..], mined[..], touching[..], start, over)
      ensures over == HitMine ==> openCount == old(openCount) && flagged == old(flagged)
      ensures over == HitMine ==> LeftBehind(old(shown[..]), shown[..], mined[..], openCount, flagged)
    {
      if shown[start] != Covered { return; }
      ghost var was := shown[..];
      if mined[start] {
        over := HitMine;
        ShowMines();
        OpensUncounted(was, shown[..], mined[..], openCount);
        FlagsUncounted(was, shown[..], mined[..], flagged);
        return;
      }
      shown[start] := Open;
      openCount := openCount + 1;
      ghost var now := Fill(start, was);
      Filled(mined[..], was, touching[..], shown[..], start, now);
      ClearedExactly(mined[..], shown[..]);
      if openCount == CELLS - MINES { over := Cleared; }
    }

    /** `click` on a square, the first one dealing a board on which it is safe. */
    method Click(hover: int, chosen: seq<nat>)
      requires Valid() && hover < CELLS
      requires !dealt ==> NoneTwice(chosen) && |chosen| == MINES && (0 <= hover ==> hover !in chosen)
      requires !dealt ==> forall a {:trigger chosen[a]} :: 0 <= a < |chosen| ==> chosen[a] < CELLS
      modifies this`openCount, this`over, this`dealt, shown, toOpen, mined, touching
      ensures Valid()
      ensures !old(dealt) ==> over != HitMine
      ensures old(dealt) ==> mined[..] == old(mined[..]) && touching[..] == old(touching[..])
      ensures !old(dealt) && dealt ==> forall i: nat {:trigger mined[i]} :: i < CELLS ==> (mined[i] <==> i in chosen)
      ensures hover >= 0 && old(over) == Playing && old(shown[hover]) != Flag ==>
                dealt && Uncovered(old(shown[..]), shown[..], mined[..], touching[..], hover, over)
      ensures old(over) == Playing && over == HitMine ==>
                LeftBehind(old(shown[..]), shown[..], mined[..], openCount, flagged)
      ensures hover < 0 || old(over) != Playing || old(shown[hover]) == Flag ==>
                shown[..] == old(shown[..]) && over == old(over) && dealt == old(dealt)
    {
      if hover < 0 || over != Playing || shown[hover] == Flag { return; }
      if !dealt {
        Deal(chosen, hover);
        NothingOpen(shown[..], mined[..], chosen);
        dealt := true;
      }
      Uncover(hover);
    }

    /** `toggle_flag`. */
    method ToggleFlag(hover: int)
      requires Valid() && hover < CELLS
      modifies this`flagged, shown
      ensures Valid()
      ensures forall i {:trigger shown[i]} :: 0 <= i < CELLS ==>
                shown[i] == if i != hover || over != Playing then old(shown[i])
                            else if old(shown[i]) == Flag then Covered
                            else if old(shown[i]) == Covered then Flag else old(shown[i])
    {
      if hover < 0 || over != Playing || shown[hover] == Open { return; }
      ghost var was := shown[..];
      if shown[hover] == Flag {
        shown[hover] := Covered;
        flagged := flagged - 1;
      } else {
        shown[hover] := Flag;
        flagged := flagged + 1;
      }
      OneFlag(mined[..], was, hover);
      assert shown[..] == was[hover := if was[hover] == Flag then Covered else Flag];
    }

    /** `new_board`. */
    method NewBoard()
      requires Valid()
      modifies this`openCount, this`flagged, this`dealt, this`over, mined, touching, shown
      ensures Valid() && !dealt && over == Playing
      ensures forall i :: 0 <= i < CELLS ==> shown[i] == Covered && !mined[i] && touching[i] == 0
      ensures openCount == 0 && flagged == 0
    {
      for i := 0 to CELLS
        invariant forall j :: 0 <= j < i ==> !mined[j] && shown[j] == Covered && touching[j] == 0
      {
        mined[i], touching[i], shown[i] := false, 0, Covered;
      }
      openCount, flagged, dealt, over := 0, 0, false, Playing;
      assert Showing(shown[..], Flag) == {} && Showing(shown[..], Open) == {};
    }
  }

  /** A flag put on or taken off one square. */
  lemma OneFlag(mined: seq<bool>, was: seq<Shown>, i: nat)
    requires i < |was| == |mined| && was[i] != Open
    ensures var now := was[i := if was[i] == Flag then Covered else Flag];
            && Showing(now, Open) == Showing(was, Open)
            && (NoMineOpen(mined, now) <==> NoMineOpen(mined, was)) && (AllSafeOpen(mined, now) <==> AllSafeOpen(mined, was))
            && |Showing(now, Flag)| == |Showing(was, Flag)| + (if was[i] == Flag then -1 else 1)
  {
    var now := was[i := if was[i] == Flag then Covered else Flag];
    if was[i] == Flag {
      assert Showing(was, Flag) == Showing(now, Flag) + {i};
    } else {
      assert Showing(now, Flag) == Showing(was, Flag) + {i};
    }
    assert Showing(now, Open) == Showing(was, Open);
    forall j | 0 <= j < |was| ensures was[j] == Open <==> now[j] == Open { }
  }

  /** Before the mines are laid nothing is open, so the game is not won yet. */
  lemma NothingOpen(shown: seq<Shown>, mined: seq<bool>, chosen: seq<nat>)
    requires |shown| == |mined| == CELLS && |Showing(shown, Open)| == 0 && |MineSquares(mined)| == MINES
    ensures NoMineOpen(mined, shown) && !AllSafeOpen(mined, shown)
  {
    forall i | 0 <= i < CELLS ensures shown[i] != Open {
      assert shown[i] == Open ==> i in Showing(shown, Open);
    }
    ClearedExactly(mined, shown);
  }

  /** What a finished fill has done to the counts. */
  lemma Filled(mined: seq<bool>, was: seq<Shown>, touching: seq<nat>, shown: seq<Shown>, start: nat, now: set<nat>)
    requires |was| == CELLS && Counted(mined, touching) && NoMineOpen(mined, was) && start < CELLS && !mined[start]
    requires Filling(was, touching, shown, start, now, [], -1)
    ensures NoMineOpen(mined, shown) && |Showing(shown, Open)| == |Showing(was, Open)| + |now|
    ensures Showing(shown, Flag) == Showing(was, Flag)
    ensures forall i: nat {:trigger shown[i]} :: i < CELLS ==>
              shown[i] == if Reached(was, touching, start, i) then Open else was[i]
  {
    FillIsReached(was, touching, shown, start, now);
    forall i | 0 <= i < CELLS && shown[i] == Open ensures !mined[i] {
      if i in now {
        assert Reached(was, touching, start, i);
        var n: nat :| ReachedIn(was, touching, start, i, n);
        ReachedIsSafe(mined, was, touching, start, i, n);
      }
    }
    forall i | i in now ensures 0 <= i < CELLS && was[i] == Covered { assert FreshSquare(was, touching, start, i); }
    var squares: set<int> := now;
    assert Showing(shown, Open) == Showing(was, Open) + squares;
    assert Showing(was, Open) !! squares;
    assert Showing(shown, Flag) == Showing(was, Flag) by {
      forall i ensures i in Showing(shown, Flag) <==> i in Showing(was, Flag) { }
    }
  }

  /** The covered neighbours before (c, r) in reading order are open. */
  ghost predicate OpenBefore(was: seq<Shown>, now: set<nat>, i: nat, c: int, r: int)
    requires |was| == CELLS
  {
    forall j: nat {:trigger Near(i, j)} :: j < CELLS && Near(i, j) && was[j] == Covered && Before(j, c, r) ==> j in now
  }

  lemma OneMoreOpen(was: seq<Shown>, now: set<nat>, now': set<nat>, i: nat, c: int, r: int)
    requires |was| == CELLS && i < CELLS && OpenBefore(was, now, i, c, r) && now <= now'
    requires 0 <= c < COLS && 0 <= r < ROWS ==> OnBoard(r * COLS + c) && (was[r * COLS + c] == Covered ==> r * COLS + c in now')
    ensures OpenBefore(was, now', i, c + 1, r)
  {
    forall j: nat | j < CELLS && Near(i, j) && was[j] == Covered && Before(j, c + 1, r) ensures j in now' {
      if !Before(j, c, r) {
        Square(c, r);
        SameSquare(j, r * COLS + c);
      }
    }
  }

  lemma RowOpen(was: seq<Shown>, now: set<nat>, i: nat, r: int)
    requires |was| == CELLS && i < CELLS && OpenBefore(was, now, i, Col(i) + 2, r)
    ensures OpenBefore(was, now, i, Col(i) - 1, r + 1)
  {
  }

  lemma AllOpen(was: seq<Shown>, now: set<nat>, i: nat)
    requires |was| == CELLS && i < CELLS && OpenBefore(was, now, i, Col(i) - 1, Row(i) + 2)
    ensures DoneAt(was, now, i)
  {
  }

  // ----- a lost game

  /** A square with mines beside it opens alone. */
  lemma {:induction false} OpensAlone(was: seq<Shown>, touching: seq<nat>, start: nat, i: nat, n: nat)
    requires |was| == |touching| == CELLS && start < CELLS && touching[start] != 0
    requires ReachedIn(was, touching, start, i, n)
    ensures i == start
    decreases n
  {
    if n > 0 {
      var j: nat :| j < CELLS && ReachedIn(was, touching, start, j, n - 1) && touching[j] == 0 && Near(j, i);
      OpensAlone(was, touching, start, j, n - 1);
    }
  }

  const FIRST: nat := MINES

  /** Square 28 is the first after the mines of a board that has them on squares 0 to 27. */
  lemma FirstIsNumbered(mined: seq<bool>, touching: seq<nat>)
    requires Counted(mined, touching) && mined[MINES - 1]
    ensures touching[FIRST] != 0
  {
    assert Near(MINES - 1, FIRST) && Near(FIRST, MINES - 1);
    assert MINES - 1 in MinesAround(mined, FIRST);
  }

  /** A new board with its mines on squares 0 to 27; a click on square 28, which opens
      alone; a flag on square 0; and a click on square 1. One square is counted open and 29
      are; one flag is counted and none is left. */
  method LoseAGame() returns (b: Board)
    ensures fresh(b) && b.Valid() && b.over == HitMine
    ensures b.openCount == 1 && |Showing(b.shown[..], Open)| == 1 + MINES
    ensures b.flagged == 1 && Showing(b.shown[..], Flag) == {}
  {
    var chosen := seq(MINES, i => i);
    assert chosen[0] == 0 && chosen[1] == 1 && chosen[MINES - 1] == MINES - 1;
    b := new Board();
    ghost var covered := b.shown[..];
    b.Click(FIRST, chosen);
    assert b.mined[0] && b.mined[1] && b.mined[MINES - 1];
    FirstIsNumbered(b.mined[..], b.touching[..]);
    forall i: nat | i < CELLS ensures b.shown[i] == if i == FIRST then Open else Covered {
      if Reached(covered, b.touching[..], FIRST, i) {
        var n: nat :| ReachedIn(covered, b.touching[..], FIRST, i, n);
        OpensAlone(covered, b.touching[..], FIRST, i, n);
      }
      ReachedStart(covered, b.touching[..], FIRST);
    }
    assert !b.mined[FIRST + 1] && b.shown[FIRST + 1] == Covered;
    b.ToggleFlag(0);
    ghost var was := b.shown[..];
    assert Showing(was, Open) == {FIRST} && Showing(was, Flag) == {0};
    b.Click(1, []);
    assert Showing(b.shown[..], Flag) == {};
  }
}
