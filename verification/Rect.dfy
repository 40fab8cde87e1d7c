// A rectangle that moves with time and bounces off both walls, and one moved by
// hand that wraps round (kernel/src/rect.c:5-114).
module Rect {
  import opened Common

  function Abs(v: int): nat { if v < 0 then -v else v }

  // ----- the time that has passed

  /** How many whole pixels are due, and what is left over. */
  function Steps(carried: nat, elapsed: nat, speed: nat, hz: nat): nat
    requires hz > 0
  {
    (carried + elapsed * speed) / hz
  }

  function Left(carried: nat, elapsed: nat, speed: nat, hz: nat): nat
    requires hz > 0
  {
    (carried + elapsed * speed) % hz
  }

  /** Of the time there is, a pixel takes its share of a second for every pixel gone, and
      less than that is carried over: none is lost. */
  lemma TimeKept(carried: nat, elapsed: nat, speed: nat, hz: nat)
    requires hz > 0
    ensures Steps(carried, elapsed, speed, hz) * hz + Left(carried, elapsed, speed, hz) == carried + speed * elapsed
    ensures Left(carried, elapsed, speed, hz) < hz
  {
    assert elapsed * speed == speed * elapsed;
  }

  lemma DivisionUnique(t: nat, hz: nat, q: nat, r: nat)
    requires hz > 0 && t == q * hz + r && r < hz
    ensures t / hz == q && t % hz == r
  {
    var q', r' := t / hz, t % hz;
    assert t == q' * hz + r';
    if q < q' { NextMultiple(q, q', hz); }
    if q' < q { NextMultiple(q', q, hz); }
  }

  /** Multiples of a number are at least that number apart. */
  lemma NextMultiple(q: int, q': int, n: nat)
    requires q < q' && n > 0
    ensures q' * n >= q * n + n
  {
    AtLeastOne(q' - q, n);
    assert (q' - q) * n == q' * n - q * n;
  }

  lemma AtLeastOne(d: nat, hz: nat)
    requires d > 0 && hz > 0
    ensures d * hz >= hz
  {
  }

  lemma Splits(t: nat, hz: nat)
    requires hz > 0
    ensures t == t / hz * hz + t % hz && t % hz < hz
  {
  }

  /** The pixels of two stretches of time are the pixels of both together, and so
      is what is left over. */
  lemma TimeSplits(carried: nat, a: nat, b: nat, speed: nat, hz: nat)
    requires hz > 0
    ensures var left := Left(carried, a, speed, hz);
            && Steps(carried, a, speed, hz) + Steps(left, b, speed, hz) == Steps(carried, a + b, speed, hz)
            && Left(left, b, speed, hz) == Left(carried, a + b, speed, hz)
  {
    var left := Left(carried, a, speed, hz);
    var q1, q2, r2 := Steps(carried, a, speed, hz), Steps(left, b, speed, hz), Left(left, b, speed, hz);
    Splits(carried + a * speed, hz);
    Splits(left + b * speed, hz);
    assert (a + b) * speed == a * speed + b * speed;
    assert (q1 + q2) * hz == q1 * hz + q2 * hz;
    DivisionUnique(carried + (a + b) * speed, hz, q1 + q2, r2);
  }

  // ----- the walk between the walls, unrolled onto a circle

  /** Where the rectangle is on the way there and back: a circle of twice the room
      it has. */
  function Phase(x: int, direction: int, limit: nat): int
    requires limit > 0
  {
    (if direction < 0 then -x else x) % (2 * limit)
  }

  predicate OnScreen(x: int, limit: nat) { 0 <= x <= limit }

  /** The place on the circle says where the rectangle is, and which way it is
      going except at a wall, where both ways are the same place. */
  lemma PhaseSays(x: int, d: int, x': int, d': int, limit: nat)
    requires limit > 0 && OnScreen(x, limit) && OnScreen(x', limit) && Phase(x, d, limit) == Phase(x', d', limit)
    ensures x == x' && (0 < x < limit ==> (d < 0 <==> d' < 0))
  {
    PhaseIs(x, d, limit);
    PhaseIs(x', d', limit);
  }

  lemma PhaseIs(x: int, d: int, limit: nat)
    requires limit > 0 && OnScreen(x, limit)
    ensures Phase(x, d, limit) == if d >= 0 || x == 0 then x else 2 * limit - x
  {
    if d < 0 && x > 0 { ModShift(-x, limit, 1); }
    SmallMod(x, limit);
    if d < 0 && x > 0 { SmallMod(2 * limit - x, limit); }
  }

  lemma SmallMod(x: int, limit: nat)
    requires limit > 0 && 0 <= x < 2 * limit
    ensures x % (2 * limit) == x
  {
    RemainderUnique(x, 2 * limit, 0, x);
  }

  lemma {:induction false} ModShift(x: int, limit: nat, k: nat)
    requires limit > 0
    ensures (x + k * (2 * limit)) % (2 * limit) == x % (2 * limit)
    decreases k
  {
    if k > 0 {
      ModShift(x, limit, k - 1);
      var y := x + (k - 1) * (2 * limit);
      assert x + k * (2 * limit) == y + 2 * limit;
      OneTurn(y, 2 * limit);
    }
  }

  lemma OneTurn(y: int, n: nat)
    requires n > 0
    ensures (y + n) % n == y % n
  {
    var q, r := y / n, y % n;
    assert y == q * n + r;
    assert y + n == (q + 1) * n + r;
    RemainderUnique(y + n, n, q + 1, r);
  }

  lemma RemainderUnique(t: int, n: nat, q: int, r: nat)
    requires n > 0 && t == q * n + r && r < n
    ensures t % n == r
  {
    var q', r' := t / n, t % n;
    assert t == q' * n + r';
    if q < q' { NextMultiple(q, q', n); }
    if q' < q { NextMultiple(q', q, n); }
  }

  lemma AddAfter(y: int, s: int, n: nat)
    requires n > 0
    ensures (y % n + s) % n == (y + s) % n
  {
    var q, r := y / n, y % n;
    assert y == q * n + r;
    var k, m := (r + s) / n, (r + s) % n;
    assert r + s == k * n + m;
    assert y + s == (q + k) * n + m by { assert (q + k) * n == q * n + k * n; }
    RemainderUnique(y + s, n, q + k, m);
  }

  /** Bouncing off a wall is the same place on the circle. */
  lemma Bounces(moved: int, limit: nat)
    requires limit > 0
    ensures Phase(-moved, 1, limit) == Phase(moved, -1, limit)
    ensures Phase(2 * limit - moved, -1, limit) == Phase(moved, 1, limit)
  {
    OneTurn(moved - 2 * limit, 2 * limit);
  }

  // ----- moving

  /** The time there is to spend, which is worked out in 64 bits. */
  function Clock(carried: nat, elapsed: nat, speed: nat): (t: nat)
    ensures carried + elapsed * speed < WORD ==> t == carried + elapsed * speed
  {
    AtLeastNone(elapsed, speed);
    (carried + elapsed * speed) % WORD
  }

  /** The signed sums of a step fit: the step itself, and, when it can cross the far wall,
      twice the room there is. */
  predicate StepFits(x: int, steps: nat, limit: nat) {
    Abs(x) + steps <= INT64_MAX && (Abs(x) + steps > limit ==> 2 * limit <= INT64_MAX)
  }

  /** Those of an advance do, and the time fits in 64 bits. */
  predicate SumsFit(x: int, carried: nat, elapsed: nat, speed: nat, hz: nat, limit: nat)
    requires hz > 0
  {
    carried + elapsed * speed < WORD && StepFits(x, Steps(carried, elapsed, speed, hz), limit)
  }

  class MovingRect {
    var x: int
    var y: int
    var width: nat
    var height: nat
    var speed: nat
    var direction: int
    var carried: nat

    constructor (x: int, y: int, width: nat, height: nat, speed: nat, direction: int)
      ensures this.x == x && this.y == y && this.width == width && this.height == height
      ensures this.speed == speed && this.direction == direction && carried == 0
    {
      this.x, this.y, this.width, this.height := x, y, width, height;
      this.speed, this.direction, carried := speed, direction, 0;
    }

    /** The reflections of `rect_advance`: however many walls the step crosses, the
        place on the circle stays, and the rectangle ends on the screen. */
    method Reflect(moved: int, limit: nat) returns (at: int)
      requires Abs(moved) <= INT64_MAX && (Abs(moved) > limit ==> 2 * limit <= INT64_MAX)
      modifies this`direction
      ensures OnScreen(at, limit) && (direction == old(direction) || direction == 1 || direction == -1)
      ensures limit > 0 && (moved < 0 ==> old(direction) < 0) && (moved > limit ==> old(direction) >= 0) ==>
                Phase(at, direction, limit) == Phase(moved, old(direction), limit)
    {
      ghost var facing := limit > 0 && (moved < 0 ==> direction < 0) && (moved > limit ==> direction >= 0);
      at := moved;
      while at < 0 || at > limit
        invariant Abs(at) <= Abs(moved) && (direction == old(direction) || direction == 1 || direction == -1)
        invariant facing ==> (at < 0 ==> direction < 0) && (at > limit ==> direction >= 0)
        invariant facing ==> Phase(at, direction, limit) == Phase(moved, old(direction), limit)
        decreases Abs(at), at < 0
      {
        if at < 0 {
          if facing { Bounces(at, limit); SameFacing(at, direction, -1, limit); }
          assert Fits(-at);
          at := -at;
          direction := 1;
        }
        if at > limit {
          if facing { Bounces(at, limit); SameFacing(at, direction, 1, limit); }
          assert Fits(2 * limit) && Fits(2 * limit - at);
          at := 2 * limit - at;
          direction := -1;
        }
        if limit == 0 {
          at := 0;
          break;
        }
      }
    }

    /** `rect_advance`, where none of its signed sums overflows. The time is what 64 bits
        leave of it. */
    method Advance(elapsed: nat, hz: nat, screenWidth: nat) returns (changed: bool)
      requires hz > 0 && speed > 0 && elapsed > 0 && 0 < width <= screenWidth ==>
                 screenWidth - width <= INT64_MAX &&
                 StepFits(x, Clock(carried, elapsed, speed) / hz, screenWidth - width)
      modifies this`x, this`direction, this`carried
      ensures changed == (x != old(x)) && (direction == old(direction) || direction == 1 || direction == -1)
      ensures hz == 0 || speed == 0 || elapsed == 0 || width == 0 || width > screenWidth ==>
                x == old(x) && direction == old(direction) && carried == old(carried)
      ensures hz > 0 && speed > 0 && elapsed > 0 && 0 < width <= screenWidth ==>
                Moved(old(x), old(direction), Clock(old(carried), elapsed, speed), x, direction, carried, 0, speed, hz,
                      screenWidth - width)
    {
      if hz == 0 || speed == 0 || elapsed == 0 { return false; }
      if width == 0 || width > screenWidth { return false; }
      var steps := Due(elapsed, hz);
      if steps == 0 {
        if screenWidth - width > 0 { StandsStill(x, direction, screenWidth - width); }
        return false;
      }
      changed := Walk(steps, screenWidth - width);
    }

    /** The pixels due, and the time left over for the next call. */
    method Due(elapsed: nat, hz: nat) returns (steps: nat)
      requires hz > 0
      modifies this`carried
      ensures steps == Clock(old(carried), elapsed, speed) / hz && carried == Clock(old(carried), elapsed, speed) % hz
    {
      carried := Clock(carried, elapsed, speed);
      steps := carried / hz;
      Splits(carried, hz);
      carried := carried - steps * hz;
    }

    /** `rect_nudge`: refused when a span does not fit in 63 bits, and otherwise a
        wrapped step along each axis. */
    method Nudge(dx: int, dy: int, screenWidth: nat, minY: int, maxY: int) returns (changed: bool)
      requires Fits(x) && Fits(y) && Fits(dx) && Fits(dy) && Fits(minY) && Fits(maxY)
      modifies this`x, this`y
      ensures changed == (x != old(x) || y != old(y))
      ensures var refused := width == 0 || width > screenWidth || screenWidth > INT64_MAX || screenWidth - width == INT64_MAX
                             || (maxY >= minY && maxY - minY >= INT64_MAX);
              && (refused ==> !changed)
              && (!refused ==>
                    && x == WrapStep(old(x), dx, 0, screenWidth - width) && y == WrapStep(old(y), dy, minY, maxY)
                    && 0 <= x <= screenWidth - width && (minY <= maxY ==> minY <= y <= maxY))
    {
      if width == 0 || width > screenWidth || screenWidth > INT64_MAX { return false; }
      var beforeX, beforeY := x, y;
      var maxX := screenWidth - width;
      if maxX == INT64_MAX || (maxY >= minY && maxY - minY >= INT64_MAX) { return false; }
      x := WrapStep(x, dx, 0, maxX);
      y := WrapStep(y, dy, minY, maxY);
      changed := x != beforeX || y != beforeY;
    }

    /** That many pixels along, bouncing. */
    method Walk(steps: nat, limit: nat) returns (changed: bool)
      requires steps > 0 && StepFits(x, steps, limit)
      modifies this`x, this`direction
      ensures changed == (x != old(x)) && OnScreen(x, limit)
      ensures direction == old(direction) || direction == 1 || direction == -1
      ensures OnScreen(old(x), limit) && limit > 0 ==>
                Phase(x, direction, limit) == (Phase(old(x), old(direction), limit) + steps) % (2 * limit)
    {
      var before := x;
      var moved := x + steps * (if direction < 0 then -1 else 1);
      if limit > 0 { StepsAlong(x, direction, steps, limit); }
      var at := Reflect(moved, limit);
      x := at;
      changed := x != before;
    }
  }

  lemma SameFacing(x: int, d: int, d': int, limit: nat)
    requires limit > 0 && (d < 0 <==> d' < 0)
    ensures Phase(x, d, limit) == Phase(x, d', limit)
  {
  }

  /** What advancing does: the time left over, and the place on the circle. */
  ghost predicate Moved(x: int, d: int, carried: nat, x': int, d': int, carried': nat, elapsed: nat, speed: nat,
                        hz: nat, limit: nat)
    requires hz > 0
  {
    var steps := Steps(carried, elapsed, speed, hz);
    && carried' == Left(carried, elapsed, speed, hz)
    && (steps == 0 ==> x' == x && d' == d)
    && (steps > 0 ==> OnScreen(x', limit))
    && (OnScreen(x, limit) && limit > 0 ==> Phase(x', d', limit) == (Phase(x, d, limit) + steps) % (2 * limit))
  }

  /** Time that fits is not shortened. */
  lemma ClockKeeps(x: int, d: int, carried: nat, x': int, d': int, carried': nat, elapsed: nat, speed: nat,
                   hz: nat, limit: nat)
    requires hz > 0 && carried + elapsed * speed < WORD
    ensures Moved(x, d, Clock(carried, elapsed, speed), x', d', carried', 0, speed, hz, limit) <==>
            Moved(x, d, carried, x', d', carried', elapsed, speed, hz, limit)
    ensures SumsFit(x, carried, elapsed, speed, hz, limit) <==> StepFits(x, Clock(carried, elapsed, speed) / hz, limit)
  {
    AtLeastNone(elapsed, speed);
    assert Clock(carried, elapsed, speed) + 0 * speed == carried + elapsed * speed;
  }

  lemma StandsStill(x: int, d: int, limit: nat)
    requires limit > 0
    ensures Phase(x, d, limit) == (Phase(x, d, limit) + 0) % (2 * limit)
  {
    AddAfter(if d < 0 then -x else x, 0, 2 * limit);
  }

  lemma StepsAlong(x: int, d: int, steps: nat, limit: nat)
    requires limit > 0
    ensures Phase(x + steps * (if d < 0 then -1 else 1), d, limit) == (Phase(x, d, limit) + steps) % (2 * limit)
  {
    var along := if d < 0 then -x else x;
    AddAfter(along, steps, 2 * limit);
    assert d < 0 ==> -(x + steps * -1) == along + steps;
  }

  /** A step takes the rectangle no further along than its own length. */
  lemma NoFurther(x: int, d: int, x': int, d': int, steps: nat, limit: nat)
    requires limit > 0 && OnScreen(x, limit) && OnScreen(x', limit)
    requires Phase(x', d', limit) == (Phase(x, d, limit) + steps) % (2 * limit)
    ensures x' <= x + steps
  {
    PhaseIs(x, d, limit);
    PhaseIs(x', d', limit);
    if steps < limit {
      var t := Phase(x, d, limit) + steps;
      if t < 2 * limit {
        SmallMod(t, limit);
      } else {
        OneTurn(t - 2 * limit, 2 * limit);
        SmallMod(t - 2 * limit, limit);
      }
    }
  }

  /** What does not overflow in one advance does not in two. */
  lemma SplitFits(x: int, d: int, carried: nat, a: nat, b: nat, speed: nat, hz: nat, limit: nat, x1: int, d1: int,
                  c1: nat)
    requires hz > 0 && OnScreen(x, limit) && Moved(x, d, carried, x1, d1, c1, a, speed, hz, limit)
    ensures SumsFit(x, carried, a + b, speed, hz, limit) ==>
              SumsFit(x, carried, a, speed, hz, limit) && SumsFit(x1, c1, b, speed, hz, limit)
  {
    TimeSplits(carried, a, b, speed, hz);
    Splits(carried + a * speed, hz);
    var s1 := Steps(carried, a, speed, hz);
    assert (a + b) * speed == a * speed + b * speed;
    AtLeastNone(s1, hz);
    AtLeastNone(b, speed);
    if limit > 0 { NoFurther(x, d, x1, d1, s1, limit); }
  }

  lemma AtLeastNone(p: nat, q: nat)
    ensures p * q >= 0
  {
  }

  /** The law: starting on the screen, moving for a and then for b ends where
      moving for a + b does, with the same time left over, and facing the same way
      unless that is at a wall; however many walls are crossed on the way. */
  lemma TimeSplitting(x: int, d: int, carried: nat, a: nat, b: nat, speed: nat, hz: nat, limit: nat,
                      x1: int, d1: int, c1: nat, x2: int, d2: int, c2: nat, x3: int, d3: int, c3: nat)
    requires hz > 0 && OnScreen(x, limit)
    requires Moved(x, d, carried, x1, d1, c1, a, speed, hz, limit)
    requires Moved(x1, d1, c1, x2, d2, c2, b, speed, hz, limit)
    requires Moved(x, d, carried, x3, d3, c3, a + b, speed, hz, limit)
    ensures x2 == x3 && c2 == c3 && OnScreen(x2, limit)
    ensures 0 < x2 < limit ==> (d2 < 0 <==> d3 < 0)
    ensures SumsFit(x, carried, a + b, speed, hz, limit) ==>
              SumsFit(x, carried, a, speed, hz, limit) && SumsFit(x1, c1, b, speed, hz, limit)
  {
    TimeSplits(carried, a, b, speed, hz);
    SplitFits(x, d, carried, a, b, speed, hz, limit, x1, d1, c1);
    if limit > 0 {
      var n := 2 * limit;
      var s1, s2 := Steps(carried, a, speed, hz), Steps(c1, b, speed, hz);
      AddAfter(Phase(x, d, limit) + s1, s2, n);
      PhaseSays(x2, d2, x3, d3, limit);
    }
  }

  /** A stretch of no time is no move, when no whole pixel was due. */
  lemma NoTime(x: int, d: int, carried: nat, speed: nat, hz: nat, limit: nat)
    requires hz > 0 && carried < hz
    ensures Moved(x, d, carried, x, d, carried, 0, speed, hz, limit)
  {
    DivisionUnique(carried, hz, 0, carried);
    if limit > 0 { StandsStill(x, d, limit); }
  }

  // ----- moving by hand

  function Clamp(value: int, low: int, high: int): (r: int)
    ensures low <= high ==> low <= r <= high && (low <= value <= high ==> r == value)
  {
    if high < low then low else if value < low then low else if value > high then high else value
  }

  /** C's remainder, with the sign of the dividend. */
  function Remainder(a: int, n: nat): int
    requires n > 0
  {
    if a >= 0 then a % n else -(-a % n)
  }

  /** `wrap_step`: inside the span, and the whole step away modulo its length. */
  function WrapStep(value: int, delta: int, low: int, high: int): (r: int)
    requires Fits(value) && Fits(delta) && Fits(low) && Fits(high) && high - low < INT64_MAX
    ensures low <= high ==> low <= r <= high
  {
    if high <= low then low
    else
      var at, span := Clamp(value, low, high), high - low + 1;
      var step := Remainder(delta, span);
      StepIs(delta, span);
      if step > 0 then
        var room := high - at;
        assert Fits(room) && Fits(step - room - 1);
        if step <= room then at + step else low + (step - room - 1)
      else if step < 0 then
        var back, room := -(step + 1) + 1, at - low;
        assert Fits(-(step + 1)) && 0 < back <= INT64_MAX;
        if back <= room then at - back else high - (back - room - 1)
      else at
  }

  /** Two places a whole number of spans apart. */
  ghost predicate Wrapped(a: int, b: int, span: int) {
    exists k: int {:trigger Apart(a, b, k, span)} :: Apart(a, b, k, span)
  }

  ghost predicate Apart(a: int, b: int, k: int, span: int) { a - b == k * span }

  /** Crossing an end keeps the remainder of the step. */
  lemma WrapKeepsRemainder(value: int, delta: int, low: int, high: int)
    requires Fits(value) && Fits(delta) && Fits(low) && Fits(high) && high - low < INT64_MAX && low < high
    ensures Wrapped(Clamp(value, low, high) + delta, WrapStep(value, delta, low, high), high - low + 1)
  {
    var at, span, r := Clamp(value, low, high), high - low + 1, WrapStep(value, delta, low, high);
    StepIs(delta, span);
    var step := Remainder(delta, span);
    var q := (delta - step) / span;
    assert r == at + step || r == at + step - span || r == at + step + span;
    Around(q, span);
    if r == at + step { assert Apart(at + delta, r, q, span); }
    else if r == at + step - span { assert Apart(at + delta, r, q + 1, span); }
    else { assert Apart(at + delta, r, q - 1, span); }
  }

  lemma Around(q: int, span: int)
    ensures (q + 1) * span == q * span + span && (q - 1) * span == q * span - span
  {
  }

  lemma StepIs(delta: int, span: int)
    requires span > 0
    ensures -span < Remainder(delta, span) < span
    ensures var q := (delta - Remainder(delta, span)) / span; delta == q * span + Remainder(delta, span)
  {
    var m: nat := if delta >= 0 then delta else -delta;
    Splits(m, span);
    var q := if delta >= 0 then m / span else -(m / span);
    assert delta - Remainder(delta, span) == q * span by {
      if delta < 0 { assert -(m / span) * span == -(m / span * span); }
    }
    ExactDivision(q, span);
  }

  lemma ExactDivision(q: int, n: nat)
    requires n > 0
    ensures q * n / n == q
  {
    var t := q * n;
    assert t == t / n * n + t % n;
    if t / n < q { NextMultiple(t / n, q, n); }
    if t / n > q { NextMultiple(q, t / n, n); }
  }
}
