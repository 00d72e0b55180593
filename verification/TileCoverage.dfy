/** Directional tile coverage: scroll direction with hysteresis, and the cover and keep rectangles. */
module TileCoverage {

  // ----- Integer rectangles, as sets of pixels

  datatype Rect = Rect(x: int, y: int, width: int, height: int) {
    predicate IsEmpty() {
      width <= 0 || height <= 0
    }

    /** Sizes are never negative. */
    predicate Sized() {
      width >= 0 && height >= 0
    }

    predicate Has(px: int, py: int) {
      x <= px < x + width && y <= py < y + height
    }

    function InflateX(d: int): Rect {
      Rect(x - d, y, width + 2 * d, height)
    }

    function InflateY(d: int): Rect {
      Rect(x, y - d, width, height + 2 * d)
    }

    function Intersect(that: Rect): Rect {
      var l, t := Max(x, that.x), Max(y, that.y);
      var r, b := Min(x + width, that.x + that.width), Min(y + height, that.y + that.height);
      if l >= r || t >= b then Rect(0, 0, 0, 0) else Rect(l, t, r - l, b - t)
    }

    function Unite(that: Rect): Rect {
      if that.IsEmpty() then this
      else if IsEmpty() then that
      else
        var l, t := Min(x, that.x), Min(y, that.y);
        var r, b := Max(x + width, that.x + that.width), Max(y + height, that.y + that.height);
        Rect(l, t, r - l, b - t)
    }
  }

  function Max(a: int, b: int): int { if a < b then b else a }

  function Min(a: int, b: int): int { if a < b then a else b }

  /** Every pixel of `a` is a pixel of `b`. */
  ghost predicate Within(a: Rect, b: Rect) {
    forall px, py :: a.Has(px, py) ==> b.Has(px, py)
  }

  // ----- The scroll direction

  datatype Scroll = Scroll(accumulator: int, direction: int)

  const AT_REST := Scroll(0, 0)

  function Sign(n: int): int {
    if n > 0 then 1 else if n < 0 then -1 else 0
  }

  function Abs(n: int): nat {
    if n < 0 then -n else n
  }

  /** One vertical move of the viewport by `dy`. */
  function Move(s: Scroll, height: nat, dy: int): Scroll {
    if dy == 0 then s
    else
      var acc := (if (dy > 0) != (s.accumulator > 0) then 0 else s.accumulator) + dy;
      Scroll(acc, if Abs(acc) > height / 2 then (if acc > 0 then 1 else -1) else s.direction)
  }

  function Moves(s: Scroll, height: nat, dys: seq<int>): Scroll {
    if dys == [] then s
    else Move(Moves(s, height, dys[..|dys| - 1]), height, dys[|dys| - 1])
  }

  function Sum(xs: seq<int>): int {
    if xs == [] then 0 else Sum(xs[..|xs| - 1]) + xs[|xs| - 1]
  }

  predicate Down(xs: seq<int>) {
    forall i :: 0 <= i < |xs| ==> xs[i] >= 0
  }

  predicate Up(xs: seq<int>) {
    forall i :: 0 <= i < |xs| ==> xs[i] <= 0
  }

  /** The moves from `j` on are the longest trailing run in one direction; zero moves fit any run. */
  predicate TrailingRun(xs: seq<int>, j: nat) {
    && j <= |xs|
    && (Down(xs[j..]) || Up(xs[j..]))
    && (j == 0 || !(Down(xs[j - 1..]) || Up(xs[j - 1..])))
  }

  function RunStart(xs: seq<int>, j: nat): (r: nat)
    requires j <= |xs| && (Down(xs[j..]) || Up(xs[j..]))
    ensures TrailingRun(xs, r) && r <= j
  {
    if j > 0 && (Down(xs[j - 1..]) || Up(xs[j - 1..])) then RunStart(xs, j - 1) else j
  }

  lemma RunUnique(xs: seq<int>, i: nat, j: nat)
    requires TrailingRun(xs, i) && TrailingRun(xs, j)
    ensures i == j
  {
    if i != j {
      Shorter(xs, Min(i, j), Max(i, j) - 1);
    }
  }

  lemma Shorter(xs: seq<int>, i: nat, j: nat)
    requires i <= j <= |xs|
    ensures Down(xs[i..]) ==> Down(xs[j..])
    ensures Up(xs[i..]) ==> Up(xs[j..])
  {
    assert xs[j..] == xs[i..][j - i..];
  }

  lemma {:induction false} SumSign(xs: seq<int>)
    ensures Down(xs) ==> Sum(xs) >= 0
    ensures Up(xs) ==> Sum(xs) <= 0
    ensures Down(xs) && Sum(xs) == 0 ==> Up(xs)
    ensures Up(xs) && Sum(xs) == 0 ==> Down(xs)
    ensures Down(xs) && Up(xs) ==> Sum(xs) == 0
  {
    if xs != [] {
      var init := xs[..|xs| - 1];
      SumSign(init);
      assert forall i :: 0 <= i < |init| ==> init[i] == xs[i];
      assert forall i :: 0 <= i < |xs| ==> xs[i] == (if i < |init| then init[i] else xs[|xs| - 1]);
    }
  }

  lemma SumAppend(xs: seq<int>, d: int)
    ensures Sum(xs + [d]) == Sum(xs) + d
  {
    assert (xs + [d])[..|xs|] == xs;
  }

  /** The accumulator is the length of the longest trailing run in one direction. */
  lemma {:induction false} AccumulatorIsTrailingRun(height: nat, xs: seq<int>, j: nat)
    requires TrailingRun(xs, j)
    ensures Moves(AT_REST, height, xs).accumulator == Sum(xs[j..])
  {
    hide TrailingRun, Down, Up, Sum;
    if xs == [] {
      EmptyRun(xs, j);
    } else {
      var init, d := xs[..|xs| - 1], xs[|xs| - 1];
      assert xs == init + [d];
      WholeIsRun(init);
      var i := RunStart(init, |init|);
      RunInRange(init, i);
      AccumulatorIsTrailingRun(height, init, i);
      if d == 0 || ((d > 0) == (Sum(init[i..]) > 0)) {
        RunContinues(init, d, i);
        RunUnique(xs, i, j);
        assert xs[i..] == init[i..] + [d];
        SumAppend(init[i..], d);
      } else {
        RunTurns(init, d, i, j);
      }
    }
  }

  lemma EmptyRun(xs: seq<int>, j: nat)
    requires TrailingRun(xs, j) && xs == []
    ensures j == 0 && Sum(xs[j..]) == 0
  {
  }

  lemma WholeIsRun(xs: seq<int>)
    ensures Down(xs[|xs|..])
  {
  }

  lemma RunInRange(xs: seq<int>, i: nat)
    requires TrailingRun(xs, i)
    ensures i <= |xs|
  {
  }

  lemma RunContinues(init: seq<int>, d: int, i: nat)
    requires TrailingRun(init, i)
    requires d == 0 || ((d > 0) == (Sum(init[i..]) > 0))
    ensures TrailingRun(init + [d], i)
  {
    hide Sum;
    var xs := init + [d];
    SumSign(init[i..]);
    assert xs[i..] == init[i..] + [d];
    if i > 0 {
      var a, b := xs[i - 1..], init[i - 1..];
      assert a == b + [d];
      assert forall k :: 0 <= k < |b| ==> a[k] == b[k];
    }
  }

  lemma RunTurns(init: seq<int>, d: int, i: nat, j: nat)
    requires TrailingRun(init, i) && TrailingRun(init + [d], j)
    requires d != 0 && (d > 0) != (Sum(init[i..]) > 0)
    ensures Sum((init + [d])[j..]) == d
  {
    hide Sum;
    var xs := init + [d];
    assert xs[|xs| - 1..] == [d];
    SumSign(init[i..]);
    if j < |xs| {
      var tail := init[j..];
      assert xs[j..] == tail + [d];
      assert forall k :: 0 <= k < |tail| ==> tail[k] == xs[j..][k];
      assert xs[j..][|tail|] == d;
      if i > 0 {
        Shorter(init, Min(i - 1, j), i - 1);
      }
      Shorter(init, Min(i, j), j);
      SumSign(tail);
      SumAppend(tail, d);
    }
  }

  function Acc(height: nat, xs: seq<int>, m: nat): int
    requires m <= |xs|
  {
    Moves(AT_REST, height, xs[..m]).accumulator
  }

  ghost predicate ShortFrom(height: nat, xs: seq<int>, k: nat) {
    forall m :: k <= m <= |xs| ==> Abs(Acc(height, xs, m)) <= height / 2
  }

  /** After `k` moves the accumulation was beyond half a viewport, and never since. */
  ghost predicate LatestLong(height: nat, xs: seq<int>, k: nat) {
    k <= |xs| && Abs(Acc(height, xs, k)) > height / 2 && ShortFrom(height, xs, k + 1)
  }

  /** The direction is the sign of the latest accumulation beyond half a viewport; 0 before the first. */
  lemma {:induction false} DirectionIsLatestLongRun(height: nat, xs: seq<int>)
    ensures var dir := Moves(AT_REST, height, xs).direction;
            || (dir == 0 && ShortFrom(height, xs, 0))
            || (exists k :: LatestLong(height, xs, k) && dir == Sign(Acc(height, xs, k)))
  {
    hide Moves, Move;
    var n := |xs|;
    assert xs[..n] == xs;
    LongRunsPoint(height, xs);
    if Abs(Acc(height, xs, n)) > height / 2 {
      assert LatestLong(height, xs, n);
    } else if n == 0 {
      NoMoves(height);
    } else {
      var init := xs[..n - 1];
      ShortMoveKeepsDirection(height, xs);
      DirectionIsLatestLongRun(height, init);
      forall m | 0 <= m <= n - 1
        ensures Acc(height, xs, m) == Acc(height, init, m)
      {
        assert init[..m] == xs[..m];
      }
      assert forall k :: 0 <= k ==> (ShortFrom(height, init, k) ==> ShortFrom(height, xs, k));
      var dir := Moves(AT_REST, height, init).direction;
      if !(dir == 0 && ShortFrom(height, init, 0)) {
        var k :| LatestLong(height, init, k) && dir == Sign(Acc(height, init, k));
        assert LatestLong(height, xs, k);
      }
    }
  }

  lemma NoMoves(height: nat)
    ensures Moves(AT_REST, height, []) == AT_REST
  {
  }

  lemma ShortMoveKeepsDirection(height: nat, xs: seq<int>)
    requires xs != [] && Abs(Moves(AT_REST, height, xs).accumulator) <= height / 2
    ensures Moves(AT_REST, height, xs).direction == Moves(AT_REST, height, xs[..|xs| - 1]).direction
  {
  }

  /** While the accumulation is long, the direction is its sign. */
  lemma {:induction false} LongRunsPoint(height: nat, xs: seq<int>)
    ensures var s := Moves(AT_REST, height, xs);
            Abs(s.accumulator) > height / 2 ==> s.direction == Sign(s.accumulator)
  {
    if xs != [] {
      LongRunsPoint(height, xs[..|xs| - 1]);
    }
  }

  /** What a run that starts now adds to: the part of the accumulator in its own direction. */
  function CarriedOver(s: Scroll, down: bool): int {
    if down == (s.accumulator > 0) then s.accumulator else 0
  }

  /** A run of at most half a viewport never changes the direction. */
  lemma {:induction false} ShortRunKeepsDirection(s: Scroll, height: nat, xs: seq<int>, down: bool)
    requires if down then Down(xs) else Up(xs)
    requires Abs(CarriedOver(s, down) + Sum(xs)) <= height / 2
    ensures Moves(s, height, xs).direction == s.direction
    ensures CarriedOver(Moves(s, height, xs), down) == CarriedOver(s, down) + Sum(xs)
  {
    if xs != [] {
      var init := xs[..|xs| - 1];
      assert forall i :: 0 <= i < |init| ==> init[i] == xs[i];
      SumSign(init);
      ShortRunKeepsDirection(s, height, init, down);
    }
  }

  lemma {:induction false} DirectionNeverForgotten(s: Scroll, height: nat, xs: seq<int>)
    requires s.direction != 0
    ensures Moves(s, height, xs).direction != 0
  {
    if xs != [] {
      DirectionNeverForgotten(s, height, xs[..|xs| - 1]);
    }
  }

  // ----- The rectangles

  datatype Budget = Budget(ahead: int, behind: int)

  /** `int extraY = height * (multiplier - 1)`: truncated towards zero, and never negative here. */
  function ExtraY(visible: Rect, multiplier: real): int {
    (visible.height as real * (multiplier - 1.0)).Floor
  }

  function Split(extra: int, direction: int): Budget {
    var ahead := extra * 7 / 10;
    if direction < 0 then Budget(extra - ahead, ahead)
    else if direction == 0 then Budget(extra / 2, extra / 2)
    else Budget(ahead, extra - ahead)
  }

  /** The cover rectangle before it is fitted to the contents. */
  function Cover(visible: Rect, extra: int, direction: int): Rect {
    var b, wide := Split(extra, direction), visible.InflateX(visible.width / 4);
    Rect(wide.x, wide.y - b.behind, wide.width, wide.height + b.ahead + b.behind)
  }

  /** The cover rectangle that is handed to the fit. */
  function Unfitted(visible: Rect, multiplier: real, direction: int): Rect {
    Cover(visible, ExtraY(visible, multiplier), direction)
  }

  /** The keep rectangle before it is fitted to the contents. */
  function Keep(visible: Rect, extra: int, direction: int): Rect {
    var b := Split(extra, direction);
    visible.InflateX(visible.width / 4).InflateY(Max(b.ahead, b.behind))
  }

  /** The keep rectangle united with a fitted cover rectangle, and half a tile more on every side. */
  function Reach(visible: Rect, tile: Rect, extra: int, direction: int, cover: Rect): Rect {
    Keep(visible, extra, direction).Unite(cover).InflateX(tile.width / 2).InflateY(tile.height / 2)
  }

  function FinalKeep(visible: Rect, contents: Rect, tile: Rect, extra: int, direction: int, cover: Rect): Rect {
    Reach(visible, tile, extra, direction, cover).Intersect(contents)
  }

  class BackingStore {
    var contents: Rect
    var visible: Rect
    var tile: Rect
    var multiplier: real
    var accumulator: int
    var direction: int

    ghost function Now(): Scroll
      reads this`accumulator, this`direction
    {
      Scroll(accumulator, direction)
    }

    /** The geometry update of createOrDestroyTiles. */
    method UpdateGeometry(newVisible: Rect, newContents: Rect, newMultiplier: real)
      requires newVisible.height >= 0
      modifies this
      ensures contents == newContents && visible == newVisible && multiplier == newMultiplier && tile == old(tile)
      ensures Now() ==
              if newContents == old(contents) && newVisible.height == old(visible).height
              then Move(old(Now()), newVisible.height, newVisible.y - old(visible).y)
              else old(Now())
    {
      if newContents == contents && newVisible.height == visible.height {
        var dy := newVisible.y - visible.y;
        if dy != 0 {
          if (dy > 0) != (accumulator > 0) {
            accumulator := 0;
          }
          accumulator := accumulator + dy;
          if Abs(accumulator) > visible.height / 2 {
            direction := if accumulator > 0 then 1 else -1;
          }
        }
      }
      contents := newContents;
      visible := newVisible;
      multiplier := newMultiplier;
    }

    /** The directional branch of computeCoverAndKeepRect; `adjust` is adjustForContentsRect. */
    method CoverAndKeep(adjust: Rect -> Rect) returns (cover: Rect, keep: Rect)
      requires visible.Sized() && multiplier > 1.0 && tile.Sized()
      ensures var extra := ExtraY(visible, multiplier);
              && cover == adjust(Unfitted(visible, multiplier, direction))
              && keep == FinalKeep(visible, contents, tile, extra, direction, cover)
    {
      hide Within, Rect.Intersect, Rect.Unite, ExtraY;
      ExtraNonNegative(visible, multiplier);
      cover := visible.InflateX(visible.width / 4);
      var extraY := ExtraY(visible, multiplier);
      var aheadY := extraY * 7 / 10;
      var behindY := extraY - aheadY;
      if direction < 0 {
        aheadY, behindY := behindY, aheadY;
      } else if direction == 0 {
        aheadY, behindY := extraY / 2, extraY / 2;
      }
      cover := cover.(height := cover.height + aheadY + behindY);
      cover := cover.(y := cover.y - behindY);
      keep := visible;
      keep := keep.InflateX(visible.width / 4);
      keep := keep.InflateY(Max(aheadY, behindY));
      KeepContainsCover(visible, extraY, direction);
      assert Within(cover, keep);
      cover := adjust(cover);
      keep := keep.Unite(cover);
      keep := keep.InflateX(tile.width / 2);
      keep := keep.InflateY(tile.height / 2);
      keep := keep.Intersect(contents);
    }
  }

  lemma ExtraNonNegative(visible: Rect, multiplier: real)
    requires visible.Sized() && multiplier > 1.0
    ensures ExtraY(visible, multiplier) >= 0
  {
    ProductNonNegative(visible.height as real, multiplier - 1.0);
  }

  lemma ProductNonNegative(x: real, y: real)
    requires x >= 0.0 && y >= 0.0
    ensures x * y >= 0.0
  {
  }

  /** The visible part is covered, what is covered is kept, the budget is spent in full once a
      direction is known, and a known direction gets its ahead share on its own side. */
  lemma KeepContainsCover(visible: Rect, extra: int, direction: int)
    requires visible.Sized() && extra >= 0
    ensures var cover := Cover(visible, extra, direction);
            && Within(visible, cover)
            && Within(cover, Keep(visible, extra, direction))
            && (direction != 0 ==> cover.height == visible.height + extra)
            && (direction > 0 ==> cover.y + cover.height == visible.y + visible.height + extra * 7 / 10)
            && (direction < 0 ==> cover.y == visible.y - extra * 7 / 10)
  {
  }

  /** In a known direction the height of the cover is the visible height times the multiplier, rounded down,
      and seven tenths of what is added lie ahead, rounded down too; without a direction it is centred, and a
      pixel less when what would be added is odd. To each side it has a quarter of the visible width more. */
  lemma BudgetSpent(visible: Rect, multiplier: real, direction: int)
    requires visible.Sized() && multiplier > 1.0
    ensures var cover := Unfitted(visible, multiplier, direction);
            var above := visible.y - cover.y;
            var below := cover.height - visible.height - above;
            var whole := visible.height as real * multiplier;
            && cover.x == visible.x - visible.width / 4 && cover.width == visible.width + 2 * (visible.width / 4)
            && (direction != 0 ==> cover.height as real <= whole < cover.height as real + 1.0)
            && (direction > 0 ==> 10 * below <= 7 * (above + below) < 10 * below + 10)
            && (direction < 0 ==> 10 * above <= 7 * (above + below) < 10 * above + 10)
            && (direction == 0 ==> above == below && cover.height as real <= whole < cover.height as real + 2.0)
  {
    var extra := ExtraY(visible, multiplier);
    ExtraNonNegative(visible, multiplier);
    ExtraIsFloor(visible, multiplier);
    hide ExtraY;
  }

  lemma ExtraIsFloor(visible: Rect, multiplier: real)
    ensures var extra := ExtraY(visible, multiplier);
            extra as real <= visible.height as real * multiplier - visible.height as real < extra as real + 1.0
  {
    var h := visible.height as real;
    assert h * (multiplier - 1.0) == h * multiplier - h;
  }

  /** The kept area reaches as far up and down as the cover does on its longer side, and as far sideways. */
  lemma KeepIsSymmetric(visible: Rect, extra: int, direction: int)
    requires visible.Sized() && extra >= 0
    ensures var cover, keep := Cover(visible, extra, direction), Keep(visible, extra, direction);
            var above := visible.y - cover.y;
            var most := Max(above, cover.height - visible.height - above);
            && keep.x == cover.x && keep.width == cover.width
            && keep.y == visible.y - most && keep.height == visible.height + 2 * most
  {
  }

  /** The final keep area: the contents within half a tile of the hull of the kept area and the fitted cover. */
  lemma FinalKeepPixels(visible: Rect, contents: Rect, tile: Rect, extra: int, direction: int, cover: Rect,
                        px: int, py: int)
    requires !visible.IsEmpty() && extra >= 0 && tile.Sized() && !cover.IsEmpty()
    ensures var k := Keep(visible, extra, direction);
            FinalKeep(visible, contents, tile, extra, direction, cover).Has(px, py)
            <==> && contents.Has(px, py)
                 && Min(k.x, cover.x) - tile.width / 2 <= px
                 && px < Max(k.x + k.width, cover.x + cover.width) + tile.width / 2
                 && Min(k.y, cover.y) - tile.height / 2 <= py
                 && py < Max(k.y + k.height, cover.y + cover.height) + tile.height / 2
  {
    hide Split, Rect.Intersect;
    SplitIsPositive(extra, direction);
    CommonPixels(Reach(visible, tile, extra, direction, cover), contents, px, py);
  }

  /** Both directions keep the same area, so it holds what was painted for either of them, and for none. */
  lemma FlipEvictsNothing(visible: Rect, extra: int, direction: int, painted: int)
    requires visible.Sized() && extra >= 0 && direction != 0
    ensures Keep(visible, extra, direction) == Keep(visible, extra, -direction)
    ensures Within(Cover(visible, extra, painted), Keep(visible, extra, direction))
  {
  }

  lemma PixelsOfKeep(visible: Rect, contents: Rect, tile: Rect, extra: int, direction: int, cover: Rect, px: int,
                     py: int)
    requires visible.Sized() && extra >= 0 && tile.Sized()
    requires contents.Has(px, py) && (cover.Has(px, py) || Keep(visible, extra, direction).Has(px, py))
    ensures FinalKeep(visible, contents, tile, extra, direction, cover).Has(px, py)
  {
  }

  /** After fitting, everything covered is still kept, however the contents fit is made inside the contents. */
  lemma FinalKeepContainsCover(visible: Rect, contents: Rect, tile: Rect, extra: int, direction: int,
                               adjust: Rect -> Rect)
    requires visible.Sized() && extra >= 0 && tile.Sized()
    requires forall r :: Within(adjust(r), contents)
    ensures var cover := adjust(Cover(visible, extra, direction));
            Within(cover, FinalKeep(visible, contents, tile, extra, direction, cover))
  {
    var cover := adjust(Cover(visible, extra, direction));
    forall px, py | cover.Has(px, py)
      ensures FinalKeep(visible, contents, tile, extra, direction, cover).Has(px, py)
    {
      assert Within(cover, contents);
      PixelsOfKeep(visible, contents, tile, extra, direction, cover, px, py);
    }
  }

  /** A fit never leaves the contents. */
  ghost predicate Fits(adjust: Rect -> Rect, contents: Rect) {
    forall r :: Within(adjust(r), contents)
  }

  /** A flip right after fitting evicts nothing, for any fit, exactly when what was painted stays within
      half a tile of the hull of the kept area and the other cover. */
  lemma FlipAfterFitIff(visible: Rect, contents: Rect, tile: Rect, extra: int, direction: int, adjust: Rect -> Rect)
    requires visible.Sized() && extra >= 0 && tile.Sized() && Fits(adjust, contents)
    ensures var painted, cover := adjust(Cover(visible, extra, direction)), adjust(Cover(visible, extra, -direction));
            Within(painted, FinalKeep(visible, contents, tile, extra, -direction, cover))
            <==> Within(painted, Reach(visible, tile, extra, -direction, cover))
  {
    hide Reach;
    var painted, cover := adjust(Cover(visible, extra, direction)), adjust(Cover(visible, extra, -direction));
    forall px, py
      ensures FinalKeep(visible, contents, tile, extra, -direction, cover).Has(px, py)
              <==> Reach(visible, tile, extra, -direction, cover).Has(px, py) && contents.Has(px, py)
    {
      CommonPixels(Reach(visible, tile, extra, -direction, cover), contents, px, py);
    }
    assert Within(painted, contents);
  }

  lemma CommonPixels(a: Rect, b: Rect, px: int, py: int)
    ensures a.Intersect(b).Has(px, py) <==> a.Has(px, py) && b.Has(px, py)
  {
  }

  function Grown(r: Rect, side: nat, rise: nat, drop: nat): Rect {
    Rect(r.x - side, r.y - rise, r.width + 2 * side, r.height + rise + drop)
  }

  /** A fit that grows what it fits by at most so much to each side, upwards and downwards. */
  ghost predicate GrowsAtMost(adjust: Rect -> Rect, contents: Rect, side: nat, rise: nat, drop: nat) {
    Fits(adjust, contents) && forall r :: Within(adjust(r), Grown(r, side, rise, drop))
  }

  /** Growth is harmless up to half a tile; where the smaller budget lies, up to their difference more. */
  predicate SmallGrowth(tile: Rect, extra: int, direction: int, side: nat, rise: nat, drop: nat) {
    var b := Split(extra, direction);
    var most := Max(b.ahead, b.behind);
    side <= tile.width / 2 && rise <= tile.height / 2 + most - b.behind && drop <= tile.height / 2 + most - b.ahead
  }

  /** Whatever was painted for one direction is still kept after a flip. */
  ghost predicate FlipKeeps(visible: Rect, contents: Rect, tile: Rect, extra: int, direction: int, adjust: Rect -> Rect)
  {
    Within(adjust(Cover(visible, extra, direction)),
           FinalKeep(visible, contents, tile, extra, -direction, adjust(Cover(visible, extra, -direction))))
  }

  lemma GrownInReach(visible: Rect, tile: Rect, extra: int, direction: int, side: nat, rise: nat, drop: nat,
                     other: Rect)
    requires !visible.IsEmpty() && extra >= 0 && direction != 0 && tile.Sized()
    requires SmallGrowth(tile, extra, direction, side, rise, drop)
    ensures Within(Grown(Cover(visible, extra, direction), side, rise, drop),
                   Reach(visible, tile, extra, -direction, other))
  {
    var k := Keep(visible, extra, -direction);
    var u := k.Unite(other);
    assert u.x <= k.x && u.y <= k.y && u.x + u.width >= k.x + k.width && u.y + u.height >= k.y + k.height;
    hide Rect.Unite;
  }

  /** A fit that grows covers little enough never lets a flip evict anything, near the contents' edges too. */
  lemma SmallGrowthIsSafe(visible: Rect, contents: Rect, tile: Rect, extra: int, direction: int, adjust: Rect -> Rect,
                          side: nat, rise: nat, drop: nat)
    requires !visible.IsEmpty() && extra >= 0 && direction != 0 && tile.Sized()
    requires GrowsAtMost(adjust, contents, side, rise, drop)
    requires SmallGrowth(tile, extra, direction, side, rise, drop)
    ensures FlipKeeps(visible, contents, tile, extra, direction, adjust)
  {
    hide Reach, FinalKeep, Cover, Split, SmallGrowth;
    FlipAfterFitIff(visible, contents, tile, extra, direction, adjust);
    GrownInReach(visible, tile, extra, direction, side, rise, drop, adjust(Cover(visible, extra, -direction)));
    assert Within(adjust(Cover(visible, extra, direction)), Grown(Cover(visible, extra, direction), side, rise, drop));
  }

  /** Grows one rectangle as far as it may and clips all others. */
  function GrowOne(one: Rect, contents: Rect, side: nat, rise: nat, drop: nat): Rect -> Rect {
    (r: Rect) => if r == one then Grown(r, side, rise, drop) else r.Intersect(contents)
  }

  lemma GrowOneFits(one: Rect, contents: Rect, side: nat, rise: nat, drop: nat)
    requires Within(Grown(one, side, rise, drop), contents)
    ensures GrowsAtMost(GrowOne(one, contents, side, rise, drop), contents, side, rise, drop)
  {
    hide Rect.Intersect;
    var adjust := GrowOne(one, contents, side, rise, drop);
    forall r: Rect, px, py | adjust(r).Has(px, py)
      ensures contents.Has(px, py) && Grown(r, side, rise, drop).Has(px, py)
    {
      CommonPixels(r, contents, px, py);
    }
  }

  lemma KeepHoldsClipped(visible: Rect, contents: Rect, extra: int, direction: int)
    requires !visible.IsEmpty() && extra >= 0 && direction != 0
    ensures var keep := Keep(visible, extra, direction);
            keep.Unite(Cover(visible, extra, direction).Intersect(contents)) == keep
  {
    hide Split;
    SplitIsPositive(extra, direction);
  }

  lemma SplitIsPositive(extra: int, direction: int)
    requires extra >= 0
    ensures Split(extra, direction).ahead >= 0 && Split(extra, direction).behind >= 0
  {
  }

  lemma GrowthEvicts(visible: Rect, contents: Rect, tile: Rect, extra: int, direction: int,
                     side: nat, rise: nat, drop: nat)
    requires !visible.IsEmpty() && extra >= 0 && direction != 0 && tile.Sized()
    requires Cover(visible, extra, direction) != Cover(visible, extra, -direction)
    requires Within(Grown(Cover(visible, extra, direction), side, rise, drop), contents)
    requires !SmallGrowth(tile, extra, direction, side, rise, drop)
    ensures !FlipKeeps(visible, contents, tile, extra, direction,
                       GrowOne(Cover(visible, extra, direction), contents, side, rise, drop))
  {
    hide Keep, Cover, Grown, SmallGrowth, FinalKeep, Rect.Intersect, Rect.Unite, Within, Fits, Split;
    var cover, other := Cover(visible, extra, direction), Cover(visible, extra, -direction).Intersect(contents);
    var adjust := GrowOne(cover, contents, side, rise, drop);
    GrowOneFits(cover, contents, side, rise, drop);
    GrowthFits(adjust, contents, side, rise, drop);
    FlipAfterFitIff(visible, contents, tile, extra, direction, adjust);
    KeepHoldsClipped(visible, contents, extra, -direction);
    PixelOutside(visible, tile, extra, direction, side, rise, drop);
    assert Reach(visible, tile, extra, -direction, other)
           == Keep(visible, extra, -direction).InflateX(tile.width / 2).InflateY(tile.height / 2);
  }

  lemma PixelOutside(visible: Rect, tile: Rect, extra: int, direction: int, side: nat, rise: nat, drop: nat)
    requires !visible.IsEmpty() && extra >= 0 && direction != 0 && tile.Sized()
    requires !SmallGrowth(tile, extra, direction, side, rise, drop)
    ensures !Within(Grown(Cover(visible, extra, direction), side, rise, drop),
                    Keep(visible, extra, -direction).InflateX(tile.width / 2).InflateY(tile.height / 2))
  {
    SplitIsPositive(extra, direction);
    var g := Grown(Cover(visible, extra, direction), side, rise, drop);
    assert g.Has(g.x, visible.y) && g.Has(visible.x, g.y) && g.Has(visible.x, g.y + g.height - 1);
  }

  ghost predicate EveryFitKeeps(visible: Rect, contents: Rect, tile: Rect, extra: int, direction: int,
                                side: nat, rise: nat, drop: nat)
  {
    forall adjust :: GrowsAtMost(adjust, contents, side, rise, drop) ==>
      FlipKeeps(visible, contents, tile, extra, direction, adjust)
  }

  /** Away from the contents' edges: a flip evicts nothing, for every fit with these bounds on its growth,
      exactly when both directions cover the same or the growth is small. */
  lemma FlipSafeIffSmallGrowth(visible: Rect, contents: Rect, tile: Rect, extra: int, direction: int,
                               side: nat, rise: nat, drop: nat)
    requires !visible.IsEmpty() && extra >= 0 && direction != 0 && tile.Sized()
    requires Within(Grown(Cover(visible, extra, direction), side, rise, drop), contents)
    ensures EveryFitKeeps(visible, contents, tile, extra, direction, side, rise, drop)
            <==> Cover(visible, extra, direction) == Cover(visible, extra, -direction)
                 || SmallGrowth(tile, extra, direction, side, rise, drop)
  {
    hide Cover, SmallGrowth, FlipKeeps, GrowsAtMost, Grown;
    if Cover(visible, extra, direction) == Cover(visible, extra, -direction) {
      forall adjust | GrowsAtMost(adjust, contents, side, rise, drop)
        ensures FlipKeeps(visible, contents, tile, extra, direction, adjust)
      {
        GrowthFits(adjust, contents, side, rise, drop);
        SameCoverIsSafe(visible, contents, tile, extra, direction, adjust);
      }
    } else if SmallGrowth(tile, extra, direction, side, rise, drop) {
      forall adjust | GrowsAtMost(adjust, contents, side, rise, drop)
        ensures FlipKeeps(visible, contents, tile, extra, direction, adjust)
      {
        SmallGrowthIsSafe(visible, contents, tile, extra, direction, adjust, side, rise, drop);
      }
    } else {
      GrowOneFits(Cover(visible, extra, direction), contents, side, rise, drop);
      GrowthEvicts(visible, contents, tile, extra, direction, side, rise, drop);
    }
  }

  lemma GrowthFits(adjust: Rect -> Rect, contents: Rect, side: nat, rise: nat, drop: nat)
    requires GrowsAtMost(adjust, contents, side, rise, drop)
    ensures Fits(adjust, contents)
  {
  }

  lemma SameCoverIsSafe(visible: Rect, contents: Rect, tile: Rect, extra: int, direction: int, adjust: Rect -> Rect)
    requires visible.Sized() && extra >= 0 && tile.Sized() && Fits(adjust, contents)
    requires Cover(visible, extra, direction) == Cover(visible, extra, -direction)
    ensures FlipKeeps(visible, contents, tile, extra, direction, adjust)
  {
    hide Cover, FinalKeep, Within;
    FinalKeepContainsCover(visible, contents, tile, extra, -direction, adjust);
  }

  /** One axis of a fit that slides a range into the contents, cutting it only if it is too long. */
  function SlideAt(lo: int, len: int, clo: int, clen: int): int {
    Max(clo, Min(lo, clo + clen - Min(len, clen)))
  }

  function Slide(r: Rect, contents: Rect): Rect {
    Rect(SlideAt(r.x, r.width, contents.x, contents.width), SlideAt(r.y, r.height, contents.y, contents.height),
         Min(r.width, contents.width), Min(r.height, contents.height))
  }

  /** A fit that clips meets the condition, and so does one that slides. */
  lemma FlipEvictsNothingAfterFit(visible: Rect, contents: Rect, tile: Rect, extra: int, direction: int,
                                  adjust: Rect -> Rect)
    requires visible.Sized() && extra >= 0 && tile.Sized() && contents.Sized()
    requires (forall r :: adjust(r) == r.Intersect(contents)) || (forall r :: adjust(r) == Slide(r, contents))
    ensures var painted, cover := adjust(Cover(visible, extra, direction)), adjust(Cover(visible, extra, -direction));
            Within(painted, FinalKeep(visible, contents, tile, extra, -direction, cover))
  {
    hide Split, Reach, SlideAt, Rect.Intersect;
    var painted, cover := adjust(Cover(visible, extra, direction)), adjust(Cover(visible, extra, -direction));
    forall px, py | painted.Has(px, py)
      ensures FinalKeep(visible, contents, tile, extra, -direction, cover).Has(px, py)
    {
      if forall r :: adjust(r) == r.Intersect(contents) {
        CommonPixels(Cover(visible, extra, direction), contents, px, py);
        CoverInBothKeeps(visible, extra, direction, px, py);
        PixelsOfKeep(visible, contents, tile, extra, -direction, cover, px, py);
      } else {
        SlidePixel(visible, contents, tile, extra, direction, px, py);
      }
    }
  }

  lemma CoverInBothKeeps(visible: Rect, extra: int, direction: int, px: int, py: int)
    requires visible.Sized() && extra >= 0 && Cover(visible, extra, direction).Has(px, py)
    ensures Keep(visible, extra, -direction).Has(px, py)
  {
  }

  lemma SlidePixel(visible: Rect, contents: Rect, tile: Rect, extra: int, direction: int, px: int, py: int)
    requires visible.Sized() && extra >= 0 && tile.Sized() && contents.Sized()
    requires Slide(Cover(visible, extra, direction), contents).Has(px, py)
    ensures var cover := Slide(Cover(visible, extra, -direction), contents);
            FinalKeep(visible, contents, tile, extra, -direction, cover).Has(px, py)
  {
    hide SlideAt, Split, Rect.Unite, Rect.Intersect;
    var keep, cover := Keep(visible, extra, -direction), Slide(Cover(visible, extra, -direction), contents);
    SlideStays(Cover(visible, extra, direction), contents, px, py);
    SlideHull(visible, contents, extra, direction, px, py);
    HullInKeep(keep, cover, tile, contents, px, py);
  }

  lemma SlideStays(r: Rect, contents: Rect, px: int, py: int)
    requires Slide(r, contents).Has(px, py)
    ensures contents.Has(px, py)
  {
  }

  lemma HullInKeep(keep: Rect, cover: Rect, tile: Rect, contents: Rect, px: int, py: int)
    requires keep.Unite(cover).Has(px, py) && contents.Has(px, py) && tile.Sized()
    ensures keep.Unite(cover).InflateX(tile.width / 2).InflateY(tile.height / 2).Intersect(contents).Has(px, py)
  {
    hide Rect.Unite;
  }

  /** A slid range leaves the hull of the kept range and the other slid range nowhere. */
  lemma SlideAxis(v: int, h: int, a: int, b: int, clo: int, clen: int, p: int)
    requires h >= 0 && a >= 0 && b >= 0 && clen >= 0
    requires var lo, len := SlideAt(v - b, h + a + b, clo, clen), Min(h + a + b, clen); lo <= p < lo + len
    ensures var lo, len := SlideAt(v - a, h + a + b, clo, clen), Min(h + a + b, clen);
            Min(v - Max(a, b), lo) <= p < Max(v + h + Max(a, b), lo + len)
  {
  }

  lemma SlideHull(visible: Rect, contents: Rect, extra: int, direction: int, px: int, py: int)
    requires visible.Sized() && extra >= 0 && contents.Sized()
    requires Slide(Cover(visible, extra, direction), contents).Has(px, py)
    ensures Keep(visible, extra, -direction).Unite(Slide(Cover(visible, extra, -direction), contents)).Has(px, py)
  {
    hide SlideAt;
    var b := Split(extra, direction);
    SlideAxis(visible.y, visible.height, b.ahead, b.behind, contents.y, contents.height, py);
  }
}
