/** Kinetic scrolling: one axis of a fling, its closed form, and when a tick ends it. */
module Fling {
  import opened Wrappers

  /** What is used of the exponential: its functional equation and its tangent at 0. */
  ghost predicate IsExp(exp: real -> real) {
    && (forall x, y :: exp(x + y) == exp(x) * exp(y))
    && (forall x :: exp(x) >= 1.0 + x)
  }

  const DEFAULT_FRICTION: real := 4.0
  const FRAME: real := 0.004

  /** WEBKIT_KINETIC_DECEL_FRICTION, already converted by atof. */
  function Friction(env: Option<real>): (f: real)
    ensures 0.3 <= f <= 8.0
    ensures env.Some? && 0.3 <= env.value <= 8.0 ==> f == env.value
    ensures !(env.Some? && 0.3 <= env.value <= 8.0) ==> f == 4.0
  {
    if env.Some? && 0.3 <= env.value <= 8.0 then env.value else DEFAULT_FRICTION
  }

  function Abs(x: real): real {
    if x < 0.0 then -x else x
  }

  function Clamp(x: real, lower: real, upper: real): real {
    if x < lower then lower else if x > upper then upper else x
  }

  /** Multiplication under a name, so that a proof can leave it abstract. */
  function Times(x: real, y: real): real {
    x * y
  }

  /** round(): halves away from zero. */
  function Round(x: real): real {
    if x >= 0.0 then (x + 0.5).Floor as real else -((-x + 0.5).Floor as real)
  }

  datatype Axis = Axis(
    lower: real, upper: real, friction: real, coef1: real, coef2: real,
    elapsed: real, offset: real, velocity: real)
  {
    function Position(exp: real -> real, time: real): real {
      coef1 + Times(coef2, exp(Times(-friction, time)))
    }

    function Speed(exp: real -> real, time: real): real {
      Times(Times(-friction, coef2), exp(Times(-friction, time)))
    }
  }

  function Start(lower: real, upper: real, friction: real, offset: real, velocity: real): Axis
    requires friction > 0.0
  {
    Axis(lower, upper, friction, velocity / friction + offset, -velocity / friction,
         0.0, Clamp(offset, lower, upper), if offset < lower || offset > upper then 0.0 else velocity)
  }

  /** The closed form and the bounce at the edges, before the end test. */
  function Advance(a: Axis, exp: real -> real, time: real): Axis {
    var x, v := a.Position(exp, time), a.Speed(exp, time);
    var b := a.(elapsed := time);
    if x < a.lower then b.(velocity := a.lower - x, offset := a.lower)
    else if x > a.upper then b.(velocity := a.upper - x, offset := a.upper)
    else b.(velocity := v, offset := x)
  }

  /** The end test: slow, or moved less than a pixel over a real frame interval. */
  predicate Ends(a: Axis, b: Axis) {
    Abs(b.velocity) < 1.0 ||
    (a.elapsed > 0.0 && b.elapsed - a.elapsed >= FRAME && Abs(b.offset - a.offset) < 1.0)
  }

  function Tick(a: Axis, exp: real -> real, time: real): Axis {
    var b := Advance(a, exp, time);
    if Ends(a, b) then b.(offset := Round(b.offset), velocity := 0.0) else b
  }

  class PerAxisData {
    const lower: real
    const upper: real
    const friction: real
    const coef1: real
    const coef2: real
    var elapsedTime: real
    var offset: real
    var velocity: real

    ghost function Now(): Axis
      reads this
    {
      Axis(lower, upper, friction, coef1, coef2, elapsedTime, offset, velocity)
    }

    constructor (lower: real, upper: real, env: Option<real>, initialOffset: real, initialVelocity: real)
      ensures Now() == Start(lower, upper, Friction(env), initialOffset, initialVelocity)
    {
      var f := Friction(env);
      this.lower, this.upper, friction := lower, upper, f;
      coef1 := initialVelocity / f + initialOffset;
      coef2 := -initialVelocity / f;
      elapsedTime := 0.0;
      offset := Clamp(initialOffset, lower, upper);
      velocity := if initialOffset < lower || initialOffset > upper then 0.0 else initialVelocity;
    }

    method AnimateScroll(exp: real -> real, elapsed: real) returns (ended: bool)
      modifies this
      ensures Now() == Tick(old(Now()), exp, elapsed)
      ensures ended <==> Ends(old(Now()), Advance(old(Now()), exp, elapsed))
    {
      var lastOffset, lastTime := offset, elapsedTime;
      hide Times, Abs, Round;
      elapsedTime := elapsed;
      var exponentialPart := exp(Times(-friction, elapsedTime));
      offset := coef1 + Times(coef2, exponentialPart);
      velocity := Times(Times(-friction, coef2), exponentialPart);
      if offset < lower {
        velocity := lower - offset;
        offset := lower;
      } else if offset > upper {
        velocity := upper - offset;
        offset := upper;
      }
      var tickInterval := elapsedTime - lastTime;
      var movedTooLittle := lastTime > 0.0 && tickInterval >= FRAME && Abs(offset - lastOffset) < 1.0;
      ended := Abs(velocity) < 1.0 || movedTooLittle;
      if ended {
        offset := Round(offset);
        velocity := 0.0;
      }
    }
  }

  // ----- The curve

  lemma ExpPositive(exp: real -> real, x: real)
    requires IsExp(exp)
    ensures exp(x) > 0.0 && exp(0.0) == 1.0
  {
    var h := x / 2.0;
    assert h + h == x;
    assert exp(x) == exp(h) * exp(h);
    NotNegative(exp(h) * exp(h), exp(h));
    assert x + -x == 0.0;
    assert exp(0.0) == exp(x) * exp(-x) && exp(0.0) >= 1.0;
    assert 0.0 + 0.0 == 0.0;
    assert exp(0.0) == exp(0.0) * exp(0.0);
    Cancel(exp(0.0));
  }

  lemma NotNegative(s: real, x: real)
    requires s == x * x
    ensures s >= 0.0
  {
  }

  lemma Cancel(x: real)
    requires x == x * x && x >= 1.0
    ensures x == 1.0
  {
  }

  lemma ExpSum(exp: real -> real, x: real, d: real)
    requires IsExp(exp)
    ensures exp(x) > 0.0 && exp(x + d) == exp(x) * exp(d) && exp(d) >= 1.0 + d
  {
    ExpPositive(exp, x);
  }

  /** Between two times the curve falls at least as much as its tangent at the later one. */
  lemma ExpFalls(exp: real -> real, f: real, t0: real, t1: real)
    requires IsExp(exp) && f > 0.0 && t0 <= t1
    ensures var e0, e1 := exp(Times(-f, t0)), exp(Times(-f, t1));
            0.0 < e1 <= e0 && e0 - e1 >= Times(e1, Times(f, t1 - t0))
  {
    hide IsExp;
    var x, d := Times(-f, t1), Times(f, t1 - t0);
    Shift(f, t0, t1);
    ExpSum(exp, x, d);
    NonNegative(f, t1 - t0);
    Falls(exp(x), exp(d), d);
  }

  lemma Shift(f: real, t0: real, t1: real)
    ensures Times(-f, t1) + Times(f, t1 - t0) == Times(-f, t0)
  {
  }

  lemma NonNegative(a: real, b: real)
    requires a >= 0.0 && b >= 0.0
    ensures Times(a, b) >= 0.0
  {
  }

  lemma Falls(e: real, g: real, d: real)
    requires e > 0.0 && d >= 0.0 && g >= 1.0 + d
    ensures e * g - e >= Times(e, d) && e * g >= e
  {
    NonNegative(e, g - 1.0 - d);
    assert e * (g - 1.0 - d) == e * g - e - e * d;
    NonNegative(e, d);
  }

  lemma Scale(k: real, x: real, y: real)
    requires k >= 0.0 && x >= y
    ensures Times(k, x) >= Times(k, y)
  {
    NonNegative(k, x - y);
    assert k * (x - y) == k * x - k * y;
  }

  /** The axis is on its curve. */
  ghost predicate Coasting(a: Axis, exp: real -> real) {
    && a.friction > 0.0 && a.elapsed >= 0.0
    && a.offset == a.Position(exp, a.elapsed)
    && a.velocity == a.Speed(exp, a.elapsed)
  }

  predicate InRange(a: Axis, exp: real -> real, time: real) {
    a.lower <= a.Position(exp, time) <= a.upper
  }

  lemma StartCoasts(exp: real -> real, lower: real, upper: real, f: real, offset: real, velocity: real)
    requires IsExp(exp) && f > 0.0 && lower <= offset <= upper
    ensures Coasting(Start(lower, upper, f, offset, velocity), exp)
  {
    ExpPositive(exp, 0.0);
    assert Times(-f, 0.0) == 0.0;
    DivideBack(f, velocity);
  }

  lemma DivideBack(f: real, v: real)
    requires f > 0.0
    ensures Times(Times(-f, -v / f), 1.0) == v && v / f + Times(-v / f, 1.0) == 0.0 && -v / f == -(v / f)
  {
    assert -v / f * f == -v && v / f * f == v;
  }

  /** Offset plus velocity over friction never changes while coasting: where the fling would come to rest. */
  lemma RestingPlaceConserved(a: Axis, exp: real -> real)
    requires Coasting(a, exp)
    ensures a.offset + a.velocity / a.friction == a.coef1
  {
    Quotient(a.friction, a.coef2, exp(Times(-a.friction, a.elapsed)));
  }

  lemma Quotient(f: real, c: real, e: real)
    requires f > 0.0
    ensures Times(Times(-f, c), e) / f == -Times(c, e)
  {
    var p := -(c * e);
    assert -f * c * e == p * f;
    assert p * f / f == p;
  }

  /** Over a tick the fling moves at least as far as its speed at the end of the tick would take it. */
  lemma MovesWithItsSpeed(a: Axis, exp: real -> real, time: real)
    requires IsExp(exp) && Coasting(a, exp) && a.elapsed <= time
    ensures Abs(a.Position(exp, time) - a.offset) >= Times(Abs(a.Speed(exp, time)), time - a.elapsed)
  {
    hide IsExp, Abs, Times;
    var e0, e1 := exp(Times(-a.friction, a.elapsed)), exp(Times(-a.friction, time));
    ExpFalls(exp, a.friction, a.elapsed, time);
    MoveAlgebra(a.friction, a.coef2, e0, e1, time - a.elapsed);
  }

  lemma MoveAlgebra(f: real, c: real, e0: real, e1: real, dt: real)
    requires f > 0.0 && 0.0 < e1 <= e0 && dt >= 0.0 && e0 - e1 >= Times(e1, Times(f, dt))
    ensures Abs(Times(c, e1) - Times(c, e0)) >= Times(Abs(Times(Times(-f, c), e1)), dt)
  {
    hide Abs, Times;
    AbsNonNegative(c);
    AbsDifference(c, e0, e1);
    Scale(Abs(c), e0 - e1, Times(e1, Times(f, dt)));
    AbsSpeed(f, c, e1);
    Reorder(f, Abs(c), e1, dt);
  }

  lemma AbsNonNegative(c: real)
    ensures Abs(c) >= 0.0
  {
  }

  lemma AbsDifference(c: real, x: real, y: real)
    requires x >= y
    ensures Abs(Times(c, y) - Times(c, x)) == Times(Abs(c), x - y)
  {
    var d := x - y;
    assert c * y - c * x == -(c * d);
    AbsTimes(c, d);
  }

  lemma AbsTimes(c: real, d: real)
    requires d >= 0.0
    ensures Abs(-Times(c, d)) == Abs(Times(c, d)) == Times(Abs(c), d)
  {
    if c >= 0.0 {
      NonNegative(c, d);
    } else {
      NonNegative(-c, d);
    }
  }

  lemma AbsSpeed(f: real, c: real, e: real)
    requires f > 0.0 && e > 0.0
    ensures Abs(Times(Times(-f, c), e)) == Times(Abs(c), Times(f, e))
  {
    NonNegative(f, e);
    AbsTimes(c, Times(f, e));
    SpeedForm(f, c, e);
  }

  lemma SpeedForm(f: real, c: real, e: real)
    ensures Times(Times(-f, c), e) == -Times(c, Times(f, e))
  {
    assert -f * c * e == -(c * (f * e));
  }

  lemma Reorder(f: real, k: real, e: real, dt: real)
    ensures Times(Times(k, Times(f, e)), dt) == Times(k, Times(e, Times(f, dt)))
  {
    assert f * e * dt == e * (f * dt);
    assert k * (f * e) * dt == k * (f * e * dt);
  }

  /** Away from the edges a tick never ends the fling at 250 px/s or more; a catch-up tick, and the
      first one, only below 1 px/s. */
  lemma EndsOnlyWhenSlow(a: Axis, exp: real -> real, time: real)
    requires IsExp(exp) && Coasting(a, exp) && a.elapsed <= time && InRange(a, exp, time)
    requires Ends(a, Advance(a, exp, time))
    ensures Abs(a.Speed(exp, time)) < 250.0
    ensures time - a.elapsed < FRAME || a.elapsed == 0.0 ==> Abs(a.Speed(exp, time)) < 1.0
  {
    hide IsExp, InRange, Advance, Axis.Position, Axis.Speed, Abs, Times;
    FreeAdvance(a, exp, time);
    MovesWithItsSpeed(a, exp, time);
    AbsNonNegative(a.Speed(exp, time));
    SlowAlgebra(Abs(a.Speed(exp, time)), time - a.elapsed, Abs(a.Position(exp, time) - a.offset), a.elapsed > 0.0);
  }

  lemma SlowAlgebra(v: real, dt: real, moved: real, later: bool)
    requires v >= 0.0 && moved >= Times(v, dt)
    requires v < 1.0 || (later && dt >= FRAME && moved < 1.0)
    ensures v < 250.0 && (dt < FRAME || !later ==> v < 1.0)
  {
    if v >= 1.0 {
      Scale(v, dt, FRAME);
    }
  }

  lemma FreeAdvance(a: Axis, exp: real -> real, time: real)
    requires InRange(a, exp, time)
    ensures Advance(a, exp, time)
            == a.(elapsed := time, velocity := a.Speed(exp, time), offset := a.Position(exp, time))
  {
    hide Axis.Position, Axis.Speed;
  }

  lemma RoundsToNearest(x: real)
    ensures Abs(Round(x) - x) <= 0.5 && Round(x) == Round(x).Floor as real
  {
    var n := if x >= 0.0 then (x + 0.5).Floor else -(-x + 0.5).Floor;
    FloorBounds(x + 0.5);
    FloorBounds(-x + 0.5);
    assert Round(x) == n as real;
    WholeFloor(n);
    hide Round;
  }

  lemma FloorBounds(x: real)
    ensures x.Floor as real <= x < x.Floor as real + 1.0
  {
  }

  lemma WholeFloor(n: int)
    ensures (n as real).Floor == n
  {
  }

  /** Ending stops the axis dead, on a whole pixel at most half a pixel from where it was. */
  lemma EndingSnaps(a: Axis, exp: real -> real, time: real)
    requires Ends(a, Advance(a, exp, time))
    ensures var b, c := Advance(a, exp, time), Tick(a, exp, time);
            c.velocity == 0.0 && Abs(c.offset - b.offset) <= 0.5 && c.offset == c.offset.Floor as real
  {
    hide Ends, Advance, Round, Abs;
    RoundsToNearest(Advance(a, exp, time).offset);
  }

  /** Past an edge the axis is put on it, with a velocity back inside that is the distance it overshot; a
      start outside has no velocity of its own. */
  lemma EdgesBounce(a: Axis, exp: real -> real, time: real)
    requires a.lower <= a.upper
    ensures var b := Advance(a, exp, time);
            && a.lower <= b.offset <= a.upper
            && var x := a.Position(exp, time);
               && (x < a.lower ==> b.offset == a.lower && b.velocity == a.lower - x > 0.0)
               && (x > a.upper ==> b.offset == a.upper && b.velocity == a.upper - x < 0.0)
               && (a.lower <= x <= a.upper ==> b.offset == x && b.velocity == a.Speed(exp, time))
  {
  }

  /** Halves are rounded away from zero. */
  lemma RoundsHalfAway(n: nat)
    ensures Round(n as real + 0.5) == n as real + 1.0 && Round(-(n as real) - 0.5) == -(n as real) - 1.0
  {
    WholeFloor(n + 1);
    assert (n + 1) as real == n as real + 1.0;
  }

  lemma StartOutside(lower: real, upper: real, f: real, offset: real, velocity: real)
    requires f > 0.0 && lower <= upper
    ensures var a := Start(lower, upper, f, offset, velocity);
            && a.lower == lower && a.upper == upper && a.friction == f && a.elapsed == 0.0
            && (offset < lower ==> a.offset == lower && a.velocity == 0.0)
            && (offset > upper ==> a.offset == upper && a.velocity == 0.0)
            && (lower <= offset <= upper ==> a.offset == offset && a.velocity == velocity)
  {
  }

  /** offset(t) = x0 + (v / friction)(1 - e^(-friction t)), and the velocity is its derivative. */
  lemma ClosedForm(exp: real -> real, lower: real, upper: real, f: real, offset: real, velocity: real, t: real)
    requires f > 0.0
    ensures var a, e := Start(lower, upper, f, offset, velocity), exp(-f * t);
            a.Position(exp, t) == offset + velocity / f * (1.0 - e) && a.Speed(exp, t) == velocity * e
  {
    DivideBack(f, velocity);
    var q, e := velocity / f, exp(Times(-f, t));
    assert -velocity / f == -q && Times(-f, -q) == velocity;
    CurveAlgebra(q, e, offset);
    assert Times(-f, t) == -f * t;
  }

  lemma CurveAlgebra(q: real, e: real, x: real)
    ensures q + x + Times(-q, e) == x + q * (1.0 - e)
  {
  }

  /** A tick inside the range stops the axis, on a whole pixel, exactly when it is slower than 1 px/s, or a
      tick came before at least 4 ms ago and less than a pixel was covered since; else it stays on the curve. */
  lemma StopsIff(a: Axis, exp: real -> real, time: real)
    requires InRange(a, exp, time)
    ensures var c, x, v := Tick(a, exp, time), a.Position(exp, time), a.Speed(exp, time);
            && (c.velocity == 0.0 <==>
                  Abs(v) < 1.0 || (a.elapsed > 0.0 && time - a.elapsed >= 0.004 && Abs(x - a.offset) < 1.0))
            && (c.velocity == 0.0 ==> c.offset == c.offset.Floor as real && Abs(c.offset - x) <= 0.5)
            && (c.velocity != 0.0 ==> c.offset == x && c.velocity == v)
  {
    hide Axis.Position, Axis.Speed, Round, InRange, Advance;
    FreeAdvance(a, exp, time);
    RoundsToNearest(a.Position(exp, time));
  }

  /** By the time friction times time has reached the initial speed, the speed is below 1 px/s. */
  lemma SlowInTime(exp: real -> real, f: real, v: real, t: real)
    requires IsExp(exp) && f > 0.0 && t >= 0.0 && Times(f, t) >= Abs(v)
    ensures Abs(Times(v, exp(Times(-f, t)))) < 1.0
  {
    hide IsExp, Times;
    var e := exp(Times(-f, t));
    ExpFalls(exp, f, 0.0, t);
    ExpPositive(exp, 0.0);
    TimesZero(-f);
    AbsTimes(v, e);
    AbsNonNegative(v);
    Scale(e, Times(f, t), Abs(v));
    Commutes(e, Abs(v));
  }

  lemma Commutes(x: real, y: real)
    ensures Times(x, y) == Times(y, x)
  {
  }

  /** Tick after tick, none of which ended the fling or met an edge. */
  ghost predicate Runs(a: Axis, exp: real -> real, times: seq<real>)
    decreases |times|
  {
    times == [] ||
    (&& a.elapsed <= times[0] && InRange(a, exp, times[0])
     && !Ends(a, Advance(a, exp, times[0]))
     && Runs(Tick(a, exp, times[0]), exp, times[1..]))
  }

  function After(a: Axis, exp: real -> real, times: seq<real>): Axis
    decreases |times|
  {
    if times == [] then a else After(Tick(a, exp, times[0]), exp, times[1..])
  }

  ghost predicate SameCurve(a: Axis, b: Axis) {
    b.coef1 == a.coef1 && b.coef2 == a.coef2 && b.friction == a.friction && b.lower == a.lower && b.upper == a.upper
  }

  lemma TickCoasts(a: Axis, exp: real -> real, time: real)
    requires Coasting(a, exp) && a.elapsed <= time && InRange(a, exp, time) && !Ends(a, Advance(a, exp, time))
    ensures Coasting(Tick(a, exp, time), exp) && SameCurve(a, Tick(a, exp, time))
  {
    hide Ends, InRange, Advance, Times;
    FreeAdvance(a, exp, time);
  }

  lemma {:induction false} RunCoasts(a: Axis, exp: real -> real, times: seq<real>)
    requires Coasting(a, exp) && Runs(a, exp, times)
    ensures Coasting(After(a, exp, times), exp) && SameCurve(a, After(a, exp, times))
    decreases |times|
  {
    hide Coasting, Tick, Ends, Advance, InRange;
    if times != [] {
      TickCoasts(a, exp, times[0]);
      RunCoasts(Tick(a, exp, times[0]), exp, times[1..]);
    }
  }

  /** A whole fling inside its range, at any tick times: it heads for the same resting place all along,
      never travels further than velocity over friction, and ends only below 250 px/s, at a catch-up
      tick or at the first one only below 1 px/s. */
  lemma FlingSurvivesJank(exp: real -> real, lower: real, upper: real, env: Option<real>,
                          offset: real, velocity: real, times: seq<real>, time: real)
    requires IsExp(exp) && lower <= offset <= upper
    requires Runs(Start(lower, upper, Friction(env), offset, velocity), exp, times)
    ensures var f := Friction(env);
            var b := After(Start(lower, upper, f, offset, velocity), exp, times);
            && b.offset + b.velocity / f == offset + velocity / f
            && Abs(b.offset - offset) <= Abs(velocity / f)
            && (b.elapsed <= time && InRange(b, exp, time) && Ends(b, Advance(b, exp, time))
                ==> Abs(b.Speed(exp, time)) < 250.0
                    && (time - b.elapsed < FRAME || b.elapsed == 0.0 ==> Abs(b.Speed(exp, time)) < 1.0))
  {
    hide IsExp, Axis.Speed, Ends, Runs, After, Advance, Abs, Times, InRange, Friction;
    var f := Friction(env);
    var a := Start(lower, upper, f, offset, velocity);
    StartCoasts(exp, lower, upper, f, offset, velocity);
    RunCoasts(a, exp, times);
    var b := After(a, exp, times);
    RestingPlaceConserved(b, exp);
    Travelled(exp, f, b.elapsed, velocity, offset);
    if b.elapsed <= time && InRange(b, exp, time) && Ends(b, Advance(b, exp, time)) {
      EndsOnlyWhenSlow(b, exp, time);
    }
  }

  lemma Travelled(exp: real -> real, f: real, t: real, v: real, x: real)
    requires IsExp(exp) && f > 0.0 && t >= 0.0
    ensures Abs(v / f + x + Times(-v / f, exp(Times(-f, t))) - x) <= Abs(v / f)
  {
    hide IsExp, Abs, Times;
    var e := exp(Times(-f, t));
    ExpFalls(exp, f, 0.0, t);
    ExpPositive(exp, 0.0);
    TimesZero(-f);
    DivideBack(f, v);
    Fraction(v / f, e);
  }

  lemma TimesZero(x: real)
    ensures Times(x, 0.0) == 0.0
  {
  }

  lemma Fraction(d: real, e: real)
    requires 0.0 < e <= 1.0
    ensures Abs(d + Times(-d, e)) <= Abs(d)
  {
    if d >= 0.0 {
      NonNegative(d, e);
      Scale(d, 1.0, e);
    } else {
      NonNegative(-d, e);
      Scale(-d, 1.0, e);
    }
  }

  /** A fling inside its range stops at the first tick at which it is slower than 1 px/s, so at the latest at
      the first one after its speed divided by the friction, in seconds. */
  lemma FlingEndsInTime(exp: real -> real, lower: real, upper: real, env: Option<real>,
                        offset: real, velocity: real, times: seq<real>, time: real)
    requires IsExp(exp) && lower <= offset <= upper
    requires Runs(Start(lower, upper, Friction(env), offset, velocity), exp, times)
    ensures var f := Friction(env);
            var b := After(Start(lower, upper, f, offset, velocity), exp, times);
            b.elapsed <= time && InRange(b, exp, time) ==>
              && (Abs(b.Speed(exp, time)) < 1.0 ==> Tick(b, exp, time).velocity == 0.0)
              && (Times(f, time) >= Abs(velocity) ==> Tick(b, exp, time).velocity == 0.0)
  {
    hide IsExp, Axis.Speed, Axis.Position, Ends, Runs, After, Tick, Advance, Abs, Times, InRange, Friction;
    var f := Friction(env);
    var a := Start(lower, upper, f, offset, velocity);
    StartCoasts(exp, lower, upper, f, offset, velocity);
    RunCoasts(a, exp, times);
    var b := After(a, exp, times);
    if b.elapsed <= time && InRange(b, exp, time) {
      StopsIff(b, exp, time);
      if Times(f, time) >= Abs(velocity) {
        SlowInTime(exp, f, velocity, time);
        SpeedIs(b, exp, time, velocity);
      }
    }
  }

  lemma SpeedIs(b: Axis, exp: real -> real, time: real, velocity: real)
    requires b.friction > 0.0 && b.coef2 == -velocity / b.friction
    ensures b.Speed(exp, time) == Times(velocity, exp(Times(-b.friction, time)))
  {
    DivideBack(b.friction, velocity);
    assert -velocity / b.friction == -(velocity / b.friction);
    assert Times(-b.friction, -velocity / b.friction) == velocity;
  }
}
