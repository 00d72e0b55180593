/** swipe.py over evtouch.py: the events of a swipe, and what a type B touch device makes of them. */
module Gesture {

  const EV_SYN := 0
  const EV_KEY := 1
  const EV_ABS := 3
  const SYN_REPORT := 0
  const BTN_TOUCH := 0x14a
  const ABS_X := 0x00
  const ABS_Y := 0x01
  const ABS_MT_SLOT := 0x2f
  const ABS_MT_POSITION_X := 0x35
  const ABS_MT_POSITION_Y := 0x36
  const ABS_MT_TRACKING_ID := 0x39

  const STEPS: int := 20

  datatype Event = Event(kind: int, code: int, value: int)

  /** The device's axis ranges and the screen it is stretched over. */
  datatype Panel = Panel(xmin: int, xmax: int, ymin: int, ymax: int, width: int, height: int) {
    ghost predicate Valid() {
      xmin <= xmax && ymin <= ymax && width > 1 && height > 1
    }

    function AX(px: int): int
      requires width > 1
    {
      xmin + (xmax - xmin) * px / (width - 1)
    }

    function AY(py: int): int
      requires height > 1
    {
      ymin + (ymax - ymin) * py / (height - 1)
    }

    predicate OnScreen(px: int, py: int) {
      0 <= px < width && 0 <= py < height
    }
  }

  // ----- The emitted events, as a specification of the methods below

  const SYN := [Event(EV_SYN, SYN_REPORT, 0)]

  function Slot(): seq<Event> {
    [Event(EV_ABS, ABS_MT_SLOT, 0)]
  }

  function At(x: int, y: int): seq<Event> {
    [Event(EV_ABS, ABS_MT_POSITION_X, x), Event(EV_ABS, ABS_MT_POSITION_Y, y)]
  }

  function Pointer(x: int, y: int): seq<Event> {
    [Event(EV_ABS, ABS_X, x), Event(EV_ABS, ABS_Y, y)]
  }

  function DownEvents(x: int, y: int): seq<Event> {
    Slot() + [Event(EV_ABS, ABS_MT_TRACKING_ID, 1)] + At(x, y) + [Event(EV_KEY, BTN_TOUCH, 1)] + Pointer(x, y) + SYN
  }

  function MoveEvents(x: int, y: int): seq<Event> {
    Slot() + At(x, y) + Pointer(x, y) + SYN
  }

  function UpEvents(): seq<Event> {
    Slot() + [Event(EV_ABS, ABS_MT_TRACKING_ID, -1), Event(EV_KEY, BTN_TOUCH, 0)] + SYN
  }

  /** Pixel `i` of `STEPS` on the way from `a` to `b`; Python's // rounds down. */
  function Between(a: int, b: int, i: int): int {
    a + (b - a) * i / STEPS
  }

  class Touch {
    const panel: Panel
    var stream: seq<Event>

    constructor (panel: Panel)
      ensures this.panel == panel && stream == []
    {
      this.panel := panel;
      stream := [];
    }

    method Emit(kind: int, code: int, value: int)
      modifies this
      ensures stream == old(stream) + [Event(kind, code, value)]
    {
      stream := stream + [Event(kind, code, value)];
    }

    method Down(px: int, py: int)
      requires panel.Valid()
      modifies this
      ensures stream == old(stream) + DownEvents(panel.AX(px), panel.AY(py))
    {
      Emit(EV_ABS, ABS_MT_SLOT, 0);
      Emit(EV_ABS, ABS_MT_TRACKING_ID, 1);
      Emit(EV_ABS, ABS_MT_POSITION_X, panel.AX(px));
      Emit(EV_ABS, ABS_MT_POSITION_Y, panel.AY(py));
      Emit(EV_KEY, BTN_TOUCH, 1);
      Emit(EV_ABS, ABS_X, panel.AX(px));
      Emit(EV_ABS, ABS_Y, panel.AY(py));
      Emit(EV_SYN, SYN_REPORT, 0);
    }

    method Move(px: int, py: int)
      requires panel.Valid()
      modifies this
      ensures stream == old(stream) + MoveEvents(panel.AX(px), panel.AY(py))
    {
      Emit(EV_ABS, ABS_MT_SLOT, 0);
      Emit(EV_ABS, ABS_MT_POSITION_X, panel.AX(px));
      Emit(EV_ABS, ABS_MT_POSITION_Y, panel.AY(py));
      Emit(EV_ABS, ABS_X, panel.AX(px));
      Emit(EV_ABS, ABS_Y, panel.AY(py));
      Emit(EV_SYN, SYN_REPORT, 0);
    }

    method Up()
      modifies this
      ensures stream == old(stream) + UpEvents()
    {
      Emit(EV_ABS, ABS_MT_SLOT, 0);
      Emit(EV_ABS, ABS_MT_TRACKING_ID, -1);
      Emit(EV_KEY, BTN_TOUCH, 0);
      Emit(EV_SYN, SYN_REPORT, 0);
    }
  }

  /** The events up to and including move `n`. */
  function SwipePrefix(p: Panel, x1: int, y1: int, x2: int, y2: int, n: nat): seq<Event>
    requires p.width > 1 && p.height > 1
  {
    if n == 0 then DownEvents(p.AX(x1), p.AY(y1))
    else SwipePrefix(p, x1, y1, x2, y2, n - 1) + MoveEvents(p.AX(Between(x1, x2, n)), p.AY(Between(y1, y2, n)))
  }

  method Swipe(panel: Panel, x1: int, y1: int, x2: int, y2: int) returns (stream: seq<Event>)
    requires panel.Valid()
    ensures Decode(REST, stream) == SwipeFrames(panel, x1, y1, x2, y2)
  {
    hide DownEvents, MoveEvents, UpEvents, Between, Decode, SwipeFrames, Panel.AX, Panel.AY;
    var t := new Touch(panel);
    t.Down(x1, y1);
    for i := 1 to STEPS + 1
      invariant t.panel == panel && t.stream == SwipePrefix(panel, x1, y1, x2, y2, i - 1)
    {
      var cx := Between(x1, x2, i);
      var cy := Between(y1, y2, i);
      t.Move(cx, cy);
    }
    t.Up();
    SwipeDecodes(panel, x1, y1, x2, y2);
    return t.stream;
  }

  // ----- The Linux multi-touch protocol, type B

  datatype Finger = Finger(id: int, x: int, y: int)

  /** What a reader sees at each SYN_REPORT. */
  datatype Frame = Frame(fingers: map<int, Finger>, button: bool, x: int, y: int)

  /** The device state: the current slot, the values of every slot that was written, the pointer. */
  datatype Pad = Pad(slot: int, slots: map<int, Finger>, button: bool, x: int, y: int)

  const REST := Pad(0, map[], false, 0, 0)

  function Current(p: Pad): Finger {
    if p.slot in p.slots then p.slots[p.slot] else Finger(-1, 0, 0)
  }

  function Fingers(p: Pad): map<int, Finger> {
    map s | s in p.slots && p.slots[s].id != -1 :: p.slots[s]
  }

  function Apply(p: Pad, e: Event): Pad {
    if e.kind == EV_ABS && e.code == ABS_MT_SLOT then p.(slot := e.value)
    else if e.kind == EV_ABS && e.code == ABS_MT_TRACKING_ID
      then p.(slots := p.slots[p.slot := Current(p).(id := e.value)])
    else if e.kind == EV_ABS && e.code == ABS_MT_POSITION_X
      then p.(slots := p.slots[p.slot := Current(p).(x := e.value)])
    else if e.kind == EV_ABS && e.code == ABS_MT_POSITION_Y
      then p.(slots := p.slots[p.slot := Current(p).(y := e.value)])
    else if e.kind == EV_ABS && e.code == ABS_X then p.(x := e.value)
    else if e.kind == EV_ABS && e.code == ABS_Y then p.(y := e.value)
    else if e.kind == EV_KEY && e.code == BTN_TOUCH then p.(button := e.value != 0)
    else p
  }

  function ApplyAll(p: Pad, events: seq<Event>): Pad
    decreases |events|
  {
    if events == [] then p else ApplyAll(Apply(p, events[0]), events[1..])
  }

  function Snapshot(p: Pad): Frame {
    Frame(Fingers(p), p.button, p.x, p.y)
  }

  function Decode(p: Pad, events: seq<Event>): seq<Frame>
    decreases |events|
  {
    if events == [] then []
    else
      var e, rest := events[0], Decode(Apply(p, events[0]), events[1..]);
      if e.kind == EV_SYN && e.code == SYN_REPORT then [Snapshot(p)] + rest else rest
  }

  lemma {:induction false} DecodeAppend(p: Pad, a: seq<Event>, b: seq<Event>)
    ensures Decode(p, a + b) == Decode(p, a) + Decode(ApplyAll(p, a), b)
    ensures ApplyAll(p, a + b) == ApplyAll(ApplyAll(p, a), b)
    decreases |a|
  {
    if a == [] {
      assert a + b == b;
    } else {
      assert (a + b)[1..] == a[1..] + b;
      DecodeAppend(Apply(p, a[0]), a[1..], b);
    }
  }

  // ----- The decoded gesture

  function Touching(x: int, y: int): Frame {
    Frame(map[0 := Finger(1, x, y)], true, x, y)
  }

  function Moves(p: Panel, x1: int, y1: int, x2: int, y2: int, n: nat): seq<Frame>
    requires p.width > 1 && p.height > 1
  {
    if n == 0 then [Touching(p.AX(x1), p.AY(y1))]
    else Moves(p, x1, y1, x2, y2, n - 1) + [Touching(p.AX(Between(x1, x2, n)), p.AY(Between(y1, y2, n)))]
  }

  /** One contact: down, twenty moves, and lifted once where the last move ended. */
  function SwipeFrames(p: Panel, x1: int, y1: int, x2: int, y2: int): seq<Frame>
    requires p.width > 1 && p.height > 1
  {
    Moves(p, x1, y1, x2, y2, STEPS)
    + [Frame(map[], false, p.AX(Between(x1, x2, STEPS)), p.AY(Between(y1, y2, STEPS)))]
  }

  function Held(x: int, y: int): Pad {
    Pad(0, map[0 := Finger(1, x, y)], true, x, y)
  }

  /** `events` turns `p` into `q` and reports nothing. */
  ghost predicate Silent(p: Pad, events: seq<Event>, q: Pad) {
    Decode(p, events) == [] && ApplyAll(p, events) == q
  }

  lemma OneSilent(p: Pad, e: Event)
    requires e.kind != EV_SYN
    ensures Silent(p, [e], Apply(p, e))
  {
    assert [e][1..] == [];
  }

  lemma ThenSilent(p: Pad, a: seq<Event>, q: Pad, b: seq<Event>, r: Pad)
    requires Silent(p, a, q) && Silent(q, b, r)
    ensures Silent(p, a + b, r)
  {
    DecodeAppend(p, a, b);
  }

  lemma TwoSilent(p: Pad, e: Event, f: Event)
    requires e.kind != EV_SYN && f.kind != EV_SYN
    ensures Silent(p, [e, f], Apply(Apply(p, e), f))
  {
    hide Apply;
    OneSilent(p, e);
    OneSilent(Apply(p, e), f);
    ThenSilent(p, [e], Apply(p, e), [f], Apply(Apply(p, e), f));
    assert [e] + [f] == [e, f];
  }

  lemma Reported(p: Pad, a: seq<Event>, q: Pad)
    requires Silent(p, a, q)
    ensures Decode(p, a + SYN) == [Snapshot(q)] && ApplyAll(p, a + SYN) == q
  {
    DecodeAppend(p, a, SYN);
    assert SYN[1..] == [];
  }

  lemma DownDecodes(x: int, y: int)
    ensures Decode(REST, DownEvents(x, y)) == [Touching(x, y)] && ApplyAll(REST, DownEvents(x, y)) == Held(x, y)
  {
    hide Silent, Decode, ApplyAll, Apply;
    var id, key := [Event(EV_ABS, ABS_MT_TRACKING_ID, 1)], [Event(EV_KEY, BTN_TOUCH, 1)];
    var a := Apply(REST, Slot()[0]);
    var b := Apply(a, id[0]);
    var c := Apply(Apply(b, At(x, y)[0]), At(x, y)[1]);
    var d := Apply(c, key[0]);
    var e := Apply(Apply(d, Pointer(x, y)[0]), Pointer(x, y)[1]);
    OneSilent(REST, Slot()[0]);
    OneSilent(a, id[0]);
    TwoSilent(b, At(x, y)[0], At(x, y)[1]);
    OneSilent(c, key[0]);
    TwoSilent(d, Pointer(x, y)[0], Pointer(x, y)[1]);
    ThenSilent(REST, Slot(), a, id, b);
    ThenSilent(REST, Slot() + id, b, At(x, y), c);
    ThenSilent(REST, Slot() + id + At(x, y), c, key, d);
    ThenSilent(REST, Slot() + id + At(x, y) + key, d, Pointer(x, y), e);
    Reported(REST, Slot() + id + At(x, y) + key + Pointer(x, y), e);
    DownState(x, y);
    HeldShows(x, y);
  }

  lemma DownState(x: int, y: int)
    ensures var b := Apply(Apply(REST, Slot()[0]), Event(EV_ABS, ABS_MT_TRACKING_ID, 1));
            var c := Apply(Apply(b, At(x, y)[0]), At(x, y)[1]);
            Apply(Apply(Apply(c, Event(EV_KEY, BTN_TOUCH, 1)), Pointer(x, y)[0]), Pointer(x, y)[1]) == Held(x, y)
  {
  }

  lemma HeldShows(x: int, y: int)
    ensures Snapshot(Held(x, y)) == Touching(x, y)
  {
  }

  lemma MoveDecodes(u: int, v: int, x: int, y: int)
    ensures Decode(Held(u, v), MoveEvents(x, y)) == [Touching(x, y)]
            && ApplyAll(Held(u, v), MoveEvents(x, y)) == Held(x, y)
  {
    hide Silent, Decode, ApplyAll, Apply;
    var p := Held(u, v);
    var a := Apply(p, Slot()[0]);
    var b := Apply(Apply(a, At(x, y)[0]), At(x, y)[1]);
    var c := Apply(Apply(b, Pointer(x, y)[0]), Pointer(x, y)[1]);
    OneSilent(p, Slot()[0]);
    TwoSilent(a, At(x, y)[0], At(x, y)[1]);
    TwoSilent(b, Pointer(x, y)[0], Pointer(x, y)[1]);
    ThenSilent(p, Slot(), a, At(x, y), b);
    ThenSilent(p, Slot() + At(x, y), b, Pointer(x, y), c);
    Reported(p, Slot() + At(x, y) + Pointer(x, y), c);
    MoveState(u, v, x, y);
    HeldShows(x, y);
  }

  lemma MoveState(u: int, v: int, x: int, y: int)
    ensures var b := Apply(Apply(Apply(Held(u, v), Slot()[0]), At(x, y)[0]), At(x, y)[1]);
            Apply(Apply(b, Pointer(x, y)[0]), Pointer(x, y)[1]) == Held(x, y)
  {
  }

  lemma UpDecodes(x: int, y: int)
    ensures Decode(Held(x, y), UpEvents()) == [Frame(map[], false, x, y)]
  {
    hide Silent, Decode, ApplyAll, Apply;
    var p := Held(x, y);
    var off := [Event(EV_ABS, ABS_MT_TRACKING_ID, -1), Event(EV_KEY, BTN_TOUCH, 0)];
    var a := Apply(p, Slot()[0]);
    var b := Apply(Apply(a, off[0]), off[1]);
    OneSilent(p, Slot()[0]);
    TwoSilent(a, off[0], off[1]);
    ThenSilent(p, Slot(), a, off, b);
    Reported(p, Slot() + off, b);
    UpState(x, y);
  }

  lemma UpState(x: int, y: int)
    ensures var a := Apply(Held(x, y), Slot()[0]);
            Snapshot(Apply(Apply(a, Event(EV_ABS, ABS_MT_TRACKING_ID, -1)), Event(EV_KEY, BTN_TOUCH, 0)))
              == Frame(map[], false, x, y)
  {
  }

  lemma {:induction false} PrefixDecodes(p: Panel, x1: int, y1: int, x2: int, y2: int, n: nat)
    requires p.Valid()
    ensures var e := SwipePrefix(p, x1, y1, x2, y2, n);
            && Decode(REST, e) == Moves(p, x1, y1, x2, y2, n)
            && ApplyAll(REST, e)
               == Held(p.AX(if n == 0 then x1 else Between(x1, x2, n)), p.AY(if n == 0 then y1 else Between(y1, y2, n)))
  {
    hide DownEvents, MoveEvents, Decode, ApplyAll, Between, Held, Touching, Panel.AX, Panel.AY;
    if n == 0 {
      DownDecodes(p.AX(x1), p.AY(y1));
    } else {
      PrefixDecodes(p, x1, y1, x2, y2, n - 1);
      var u := p.AX(if n == 1 then x1 else Between(x1, x2, n - 1));
      var v := p.AY(if n == 1 then y1 else Between(y1, y2, n - 1));
      var x, y := p.AX(Between(x1, x2, n)), p.AY(Between(y1, y2, n));
      MoveDecodes(u, v, x, y);
      DecodeAppend(REST, SwipePrefix(p, x1, y1, x2, y2, n - 1), MoveEvents(x, y));
    }
  }

  lemma SwipeDecodes(p: Panel, x1: int, y1: int, x2: int, y2: int)
    requires p.Valid()
    ensures Decode(REST, SwipePrefix(p, x1, y1, x2, y2, STEPS) + UpEvents()) == SwipeFrames(p, x1, y1, x2, y2)
  {
    hide SwipePrefix, UpEvents, Decode, ApplyAll, Between, Held, Moves, Panel.AX, Panel.AY;
    var e := SwipePrefix(p, x1, y1, x2, y2, STEPS);
    PrefixDecodes(p, x1, y1, x2, y2, STEPS);
    UpDecodes(p.AX(Between(x1, x2, STEPS)), p.AY(Between(y1, y2, STEPS)));
    DecodeAppend(REST, e, UpEvents());
  }

  // ----- The path

  lemma FloorOrdered(a: int, b: int, d: int)
    requires a <= b && d > 0
    ensures a / d <= b / d
  {
    var q, r := a / d, b / d;
    FloorBounds(a, d);
    FloorBounds(b, d);
    if r < q {
      Multiples(r + 1, q, d);
    }
  }

  lemma Multiples(a: int, b: int, d: int)
    requires a <= b && d > 0
    ensures a * d <= b * d
  {
  }

  /** The mapping to device units is monotone and exact at both edges of the screen. */
  lemma AxisMaps(lo: int, hi: int, size: int, a: int, b: int)
    requires lo <= hi && size > 1 && 0 <= a <= b < size
    ensures lo <= lo + (hi - lo) * a / (size - 1) <= lo + (hi - lo) * b / (size - 1) <= hi
    ensures (hi - lo) * 0 / (size - 1) == 0 && (hi - lo) * (size - 1) / (size - 1) == hi - lo
  {
    var r, d := hi - lo, size - 1;
    Multiples(a, b, r + 1);
    MulOrdered(r, 0, a);
    MulOrdered(r, a, b);
    MulOrdered(r, b, d);
    FloorOrdered(r * 0, r * a, d);
    FloorOrdered(r * a, r * b, d);
    FloorOrdered(r * b, r * d, d);
    Cancels(r, d);
  }

  /** AX is the exact proportion rounded down; it is exact at both edges and the identity on a panel of one
      device unit per pixel. */
  lemma AXIs(p: Panel, px: int)
    requires p.Valid()
    ensures var d, u := p.width - 1, p.AX(px) - p.xmin; u * d <= (p.xmax - p.xmin) * px < u * d + d
    ensures p.AX(0) == p.xmin && p.AX(p.width - 1) == p.xmax
    ensures p.xmin == 0 && p.xmax == p.width - 1 ==> p.AX(px) == px
  {
    var r, d := p.xmax - p.xmin, p.width - 1;
    FloorBounds(r * px, d);
    Cancels(r, d);
    Cancels(px, d);
    assert r * px == px * r;
  }

  /** The same for AY. */
  lemma AYIs(p: Panel, py: int)
    requires p.Valid()
    ensures var d, u := p.height - 1, p.AY(py) - p.ymin; u * d <= (p.ymax - p.ymin) * py < u * d + d
    ensures p.AY(0) == p.ymin && p.AY(p.height - 1) == p.ymax
    ensures p.ymin == 0 && p.ymax == p.height - 1 ==> p.AY(py) == py
  {
    var r, d := p.ymax - p.ymin, p.height - 1;
    FloorBounds(r * py, d);
    Cancels(r, d);
    Cancels(py, d);
    assert r * py == py * r;
  }

  /** What goes to the device, in the numbers of the kernel's input interface. */
  lemma WireFormat(x: int, y: int)
    ensures DownEvents(x, y) == [Event(3, 0x2f, 0), Event(3, 0x39, 1), Event(3, 0x35, x), Event(3, 0x36, y),
                                 Event(1, 0x14a, 1), Event(3, 0, x), Event(3, 1, y), Event(0, 0, 0)]
    ensures MoveEvents(x, y) == [Event(3, 0x2f, 0), Event(3, 0x35, x), Event(3, 0x36, y),
                                 Event(3, 0, x), Event(3, 1, y), Event(0, 0, 0)]
    ensures UpEvents() == [Event(3, 0x2f, 0), Event(3, 0x39, -1), Event(1, 0x14a, 0), Event(0, 0, 0)]
  {
  }

  lemma MulOrdered(r: int, a: int, b: int)
    requires r >= 0 && a <= b
    ensures r * a <= r * b
  {
  }

  lemma Cancels(r: int, d: int)
    requires d > 0
    ensures r * d / d == r && r * 0 / d == 0
  {
    var q := r * d / d;
    assert q * d <= r * d < (q + 1) * d by { FloorBounds(r * d, d); }
    if q < r {
      Multiples(q + 1, r, d);
    } else {
      Multiples(r, q, d);
      OneMore(r, q, d);
    }
  }

  lemma FloorBounds(n: int, d: int)
    requires d > 0
    ensures n / d * d <= n < (n / d + 1) * d
  {
  }

  lemma OneMore(r: int, q: int, d: int)
    requires r <= q && d > 0 && q * d <= r * d
    ensures r == q
  {
    if r < q {
      Multiples(r + 1, q, d);
    }
  }

  /** Twentieths of a distance: pixel steps are its floor or its ceiling, whatever its sign. */
  lemma StepSizes(a: int, b: int, i: nat)
    requires 1 <= i <= STEPS
    ensures var step := Between(a, b, i) - Between(a, b, i - 1);
            step == (b - a) / STEPS || step == -((a - b) / STEPS)
    ensures Between(a, b, 0) == a && Between(a, b, STEPS) == b
  {
    var d := b - a;
    var q, r := d / STEPS, d % STEPS;
    var m := d * (i - 1);
    assert d * i == m + d;
    assert m == STEPS * (m / STEPS) + m % STEPS && d == STEPS * q + r;
    SumOfQuotients(m / STEPS + q, m % STEPS + r);
    if r == 0 {
      assert m == STEPS * (q * (i - 1)) by { assert d == STEPS * q; }
      assert m % STEPS == 0;
    } else {
      assert -((a - b) / STEPS) == q + 1 by { assert a - b == STEPS * (-q - 1) + (STEPS - r); }
    }
  }

  /** Pixel i of twenty is the exact one rounded down. */
  lemma BetweenIs(a: int, b: int, i: int)
    ensures var u := Between(a, b, i) - a; 20 * u <= (b - a) * i < 20 * u + 20
  {
    FloorBounds((b - a) * i, STEPS);
  }

  lemma SumOfQuotients(k: int, rest: nat)
    ensures (STEPS * k + rest) / STEPS == k + rest / STEPS
  {
    var q, r := rest / STEPS, rest % STEPS;
    assert STEPS * k + rest == STEPS * (k + q) + r;
  }

  lemma StepDirection(a: int, b: int, i: nat)
    requires 1 <= i <= STEPS
    ensures a <= b ==> Between(a, b, i - 1) <= Between(a, b, i)
    ensures a >= b ==> Between(a, b, i - 1) >= Between(a, b, i)
  {
    StepSizes(a, b, i);
  }

  lemma BetweenEnds(a: int, b: int, i: nat)
    requires i <= STEPS
    ensures if a <= b then a <= Between(a, b, i) <= b else b <= Between(a, b, i) <= a
  {
    var d := b - a;
    if a <= b {
      MulOrdered(d, 0, i);
      MulOrdered(d, i, STEPS);
      FloorOrdered(0, d * i, STEPS);
      FloorOrdered(d * i, d * STEPS, STEPS);
    } else {
      MulOrdered(-d, 0, i);
      MulOrdered(-d, i, STEPS);
      FloorOrdered(d * i, 0, STEPS);
      FloorOrdered(d * STEPS, d * i, STEPS);
    }
  }

  /** One axis of an on-screen swipe in device units: inside the range, never turning back. */
  lemma AxisPath(lo: int, hi: int, size: int, a: int, b: int, i: nat)
    requires lo <= hi && size > 1 && 0 <= a < size && 0 <= b < size && 1 <= i <= STEPS
    ensures var u := lo + (hi - lo) * Between(a, b, i - 1) / (size - 1);
            var v := lo + (hi - lo) * Between(a, b, i) / (size - 1);
            && lo <= u <= hi && lo <= v <= hi
            && (a <= b ==> u <= v)
            && (a >= b ==> u >= v)
  {
    hide Between;
    BetweenEnds(a, b, i - 1);
    BetweenEnds(a, b, i);
    StepDirection(a, b, i);
    if a <= b {
      AxisMaps(lo, hi, size, Between(a, b, i - 1), Between(a, b, i));
    }
    if a >= b {
      AxisMaps(lo, hi, size, Between(a, b, i), Between(a, b, i - 1));
    }
  }

  lemma {:induction false} MoveFrame(p: Panel, x1: int, y1: int, x2: int, y2: int, n: nat, i: nat)
    requires p.Valid() && i <= n
    ensures |Moves(p, x1, y1, x2, y2, n)| == n + 1
    ensures Moves(p, x1, y1, x2, y2, n)[i] == Touching(p.AX(Between(x1, x2, i)), p.AY(Between(y1, y2, i)))
  {
    hide Touching, Panel.AX, Panel.AY;
    if n > 0 {
      MoveFrame(p, x1, y1, x2, y2, n - 1, if i < n then i else n - 1);
    } else {
      StepSizes(x1, x2, 1);
      StepSizes(y1, y2, 1);
    }
  }

  /** For endpoints on the screen, what the device reports is one contact that starts at the mapped
      start, moves monotonically on each axis inside the device range, reaches the mapped target exactly
      and is lifted there. */
  lemma SwipePath(p: Panel, x1: int, y1: int, x2: int, y2: int, i: nat)
    requires p.Valid() && p.OnScreen(x1, y1) && p.OnScreen(x2, y2) && 1 <= i <= STEPS
    ensures var frames := SwipeFrames(p, x1, y1, x2, y2);
            && |frames| == STEPS + 2
            && frames[0] == Touching(p.AX(x1), p.AY(y1))
            && frames[STEPS] == Touching(p.AX(x2), p.AY(y2))
            && frames[STEPS + 1].fingers == map[] && !frames[STEPS + 1].button
            && frames[i - 1].fingers.Keys == frames[i].fingers.Keys == {0}
            && var f, g := frames[i - 1].fingers[0], frames[i].fingers[0];
               && f.id == g.id
               && p.xmin <= g.x <= p.xmax && p.ymin <= g.y <= p.ymax
               && (if x1 <= x2 then f.x <= g.x else f.x >= g.x)
               && (if y1 <= y2 then f.y <= g.y else f.y >= g.y)
  {
    hide Between, Moves;
    MoveFrame(p, x1, y1, x2, y2, STEPS, 0);
    MoveFrame(p, x1, y1, x2, y2, STEPS, i - 1);
    MoveFrame(p, x1, y1, x2, y2, STEPS, i);
    MoveFrame(p, x1, y1, x2, y2, STEPS, STEPS);
    StepSizes(x1, x2, 1);
    StepSizes(y1, y2, 1);
    AxisPath(p.xmin, p.xmax, p.width, x1, x2, i);
    AxisPath(p.ymin, p.ymax, p.height, y1, y2, i);
  }
}
