/** The lightning effect: a short list of branches that grow one point at a
    time, are removed once longer than their limit, and may spawn a single
    child while being drawn; the animation stops itself one second after
    the list has become empty. The drawing calls are not modelled;
    `Math.random()` is a stream of draws and `Date.now()` a clock reading
    passed in. */
module LightningEffect {
  import opened Js

  datatype Point = Point(x: real, y: real)

  /** One branch of the `lightning` array. */
  datatype Branch = Branch(
    x: real,
    y: real,
    xRange: int,
    yRange: int,
    path: seq<Point>,
    pathLimit: int,
    canSpawn: bool,
    hasFired: bool,
    grower: int,
    growerLimit: real)

  /** `rand(rMi, rMa)` = `Math.floor(Math.random() * (rMa - rMi + 1)) + rMi`
      for the draw `u`. */
  function RandFrom(lo: int, hi: int, u: Draw): (r: int)
    requires lo <= hi
    ensures lo <= r <= hi
  {
    var k := (hi - lo + 1) as real;
    DrawScale(u, k);
    Floor(u * k) + lo
  }

  /** The shape every live branch keeps: the ranges `createL` draws, and a
      path of at least one and at most `pathLimit` points. */
  predicate WellFormed(b: Branch)
  {
    5 <= b.xRange <= 12 && b.yRange == 5 && 10 <= b.pathLimit <= 35 &&
    1 <= |b.path| <= b.pathLimit
  }

  predicate AllWellFormed(bs: seq<Branch>)
  {
    forall k :: 0 <= k < |bs| ==> WellFormed(bs[k])
  }

  /** The number of branches still allowed to spawn a child. */
  function Spawnable(bs: seq<Branch>): nat
  {
    if bs == [] then 0 else (if bs[0].canSpawn then 1 else 0) + Spawnable(bs[1..])
  }

  // ---------------------------------------------------------------------
  // createL

  /** The branch `createL(x, y, canSpawn)` pushes, for the three draws taken
      for `xRange`, `yRange` and `pathLimit`, in that order. */
  function NewBranch(x: real, y: real, canSpawn: bool, u1: Draw, u2: Draw, u3: Draw): (b: Branch)
    ensures WellFormed(b)
    ensures b.path == [Point(x, y)] && b.x == x && b.y == y
    ensures b.canSpawn == canSpawn && !b.hasFired && b.grower == 0 && b.growerLimit == 5.0
  {
    Branch(x, y, RandFrom(5, 12, u1), RandFrom(5, 5, u2), [Point(x, y)], RandFrom(10, 35, u3),
           canSpawn, false, 0, 5.0)
  }

  // ---------------------------------------------------------------------
  // updateL

  /** One branch after one pass of `updateL`, the cursor into the draw
      stream after it, and whether it is spliced out. */
  datatype Grown = Grown(branch: Branch, cursor: nat, removed: bool)

  function GrowStep(b: Branch, delta: int, rnd: nat -> Draw, cur: nat): Grown
    requires WellFormed(b)
  {
    var grower := b.grower + delta;
    if grower as real >= b.growerLimit then
      var last := b.path[|b.path| - 1];
      var p := Point(last.x + (RandFrom(0, b.xRange, rnd(cur)) as real - b.xRange as real / 2.0),
                     last.y + RandFrom(0, b.yRange, rnd(cur + 1)) as real);
      var path := b.path + [p];
      Grown(b.(grower := 0, growerLimit := b.growerLimit * 1.05, path := path, hasFired := true),
            cur + 2, |path| > b.pathLimit)
    else
      Grown(b.(grower := grower), cur, false)
  }

  /** A branch that does not reach its growth threshold only accumulates the
      delta; one that does has its accumulator reset, its threshold scaled
      by 1.05, exactly one point appended (at most xRange / 2 to either side
      of the last point and 0 to yRange below it), and is marked as fired;
      it is removed exactly when its path is now longer than its limit. */
  lemma GrowStepEffect(b: Branch, delta: int, rnd: nat -> Draw, cur: nat)
    requires WellFormed(b)
    ensures var g := GrowStep(b, delta, rnd, cur);
      if (b.grower + delta) as real < b.growerLimit then
        g.branch == b.(grower := b.grower + delta) && g.cursor == cur && !g.removed
      else
        var last := b.path[|b.path| - 1];
        var p := g.branch.path[|g.branch.path| - 1];
        && g.branch == b.(grower := 0, growerLimit := b.growerLimit * 1.05,
                          path := g.branch.path, hasFired := true)
        && |g.branch.path| == |b.path| + 1
        && g.branch.path[..|b.path|] == b.path
        && 0.0 <= p.y - last.y <= b.yRange as real
        && -(b.xRange as real / 2.0) <= p.x - last.x <= b.xRange as real / 2.0
        && g.cursor == cur + 2
        && (g.removed <==> |b.path| == b.pathLimit)
  {
    var g := GrowStep(b, delta, rnd, cur);
    if (b.grower + delta) as real >= b.growerLimit {
      assert g.branch.path[..|b.path|] == b.path;
    }
  }

  /** The survivors of `updateL` over `bs[i..]`, processed from the last
      index down to `i` as the reverse loop does, and the cursor after it. */
  function UpdateFrom(bs: seq<Branch>, i: nat, delta: int, rnd: nat -> Draw, cur: nat): (seq<Branch>, nat)
    requires i <= |bs| && AllWellFormed(bs)
    decreases |bs| - i
  {
    if i == |bs| then ([], cur)
    else
      var after := UpdateFrom(bs, i + 1, delta, rnd, cur);
      var g := GrowStep(bs[i], delta, rnd, after.1);
      (if g.removed then after.0 else [g.branch] + after.0, g.cursor)
  }

  /** Every survivor keeps the branch shape: in particular no path is longer
      than its limit. The list does not grow and gains no spawnable
      branch. */
  lemma {:induction false} UpdateKeepsShape(bs: seq<Branch>, i: nat, delta: int, rnd: nat -> Draw, cur: nat)
    requires i <= |bs| && AllWellFormed(bs)
    ensures var r := UpdateFrom(bs, i, delta, rnd, cur).0;
      AllWellFormed(r) && |r| <= |bs| - i && Spawnable(r) <= Spawnable(bs[i..])
    decreases |bs| - i
  {
    if i < |bs| {
      UpdateKeepsShape(bs, i + 1, delta, rnd, cur);
      var after := UpdateFrom(bs, i + 1, delta, rnd, cur);
      var g := GrowStep(bs[i], delta, rnd, after.1);
      GrowStepEffect(bs[i], delta, rnd, after.1);
      assert bs[i..][1..] == bs[i + 1..];
      if !g.removed {
        assert ([g.branch] + after.0)[1..] == after.0;
      }
    }
  }

  /** `b2` is `b1` after at most one growth step. */
  predicate Extends(b2: Branch, b1: Branch)
  {
    b2.x == b1.x && b2.y == b1.y && b2.xRange == b1.xRange && b2.yRange == b1.yRange &&
    b2.pathLimit == b1.pathLimit && b2.canSpawn == b1.canSpawn &&
    |b1.path| <= |b2.path| <= |b1.path| + 1 && b2.path[..|b1.path|] == b1.path
  }

  /** `r` is obtained from `bs` by dropping some branches and extending the
      others, keeping their order. */
  predicate SubsequenceOf(r: seq<Branch>, bs: seq<Branch>)
    decreases |bs|
  {
    if bs == [] then r == []
    else
      (r != [] && Extends(r[0], bs[0]) && SubsequenceOf(r[1..], bs[1..])) ||
      SubsequenceOf(r, bs[1..])
  }

  /** The survivors keep their relative order, although the loop splices the
      array while running backwards over it. */
  lemma {:induction false} UpdateKeepsOrder(bs: seq<Branch>, i: nat, delta: int, rnd: nat -> Draw, cur: nat)
    requires i <= |bs| && AllWellFormed(bs)
    ensures SubsequenceOf(UpdateFrom(bs, i, delta, rnd, cur).0, bs[i..])
    decreases |bs| - i
  {
    if i < |bs| {
      UpdateKeepsOrder(bs, i + 1, delta, rnd, cur);
      var after := UpdateFrom(bs, i + 1, delta, rnd, cur);
      var g := GrowStep(bs[i], delta, rnd, after.1);
      GrowStepEffect(bs[i], delta, rnd, after.1);
      assert bs[i..][1..] == bs[i + 1..];
      if !g.removed {
        assert ([g.branch] + after.0)[1..] == after.0;
      }
    }
  }

  /** Branch `b` reaches its growth threshold in this frame while its path
      is already at its limit, so the point it gains takes it past the limit. */
  predicate FullGrows(b: Branch, delta: int)
  {
    (b.grower + delta) as real >= b.growerLimit && |b.path| == b.pathLimit
  }

  /** `r` is `bs` with exactly the branches that grow past their limit
      dropped, and every other branch extended by at most one point, in
      their old order. */
  predicate KeptExactly(r: seq<Branch>, bs: seq<Branch>, delta: int)
    decreases |bs|
  {
    if bs == [] then r == []
    else if FullGrows(bs[0], delta) then KeptExactly(r, bs[1..], delta)
    else r != [] && Extends(r[0], bs[0]) && KeptExactly(r[1..], bs[1..], delta)
  }

  /** `updateL` removes exactly the branches that grow past their limit:
      every one of those is spliced out, and every other branch survives in
      place. */
  lemma {:induction false} UpdateKeepsExactly(bs: seq<Branch>, i: nat, delta: int, rnd: nat -> Draw, cur: nat)
    requires i <= |bs| && AllWellFormed(bs)
    ensures KeptExactly(UpdateFrom(bs, i, delta, rnd, cur).0, bs[i..], delta)
    decreases |bs| - i
  {
    if i < |bs| {
      UpdateKeepsExactly(bs, i + 1, delta, rnd, cur);
      var after := UpdateFrom(bs, i + 1, delta, rnd, cur);
      var g := GrowStep(bs[i], delta, rnd, after.1);
      GrowStepEffect(bs[i], delta, rnd, after.1);
      assert bs[i..][1..] == bs[i + 1..];
      if !g.removed {
        assert ([g.branch] + after.0)[1..] == after.0;
      }
    }
  }

  /** Only a branch that grows past its limit is removed: when every path
      still has room for a point, all branches survive. */
  lemma {:induction false} UpdateRemovesOnlyFull(bs: seq<Branch>, i: nat, delta: int, rnd: nat -> Draw, cur: nat)
    requires i <= |bs| && AllWellFormed(bs)
    requires forall k :: i <= k < |bs| ==> |bs[k].path| < bs[k].pathLimit
    ensures |UpdateFrom(bs, i, delta, rnd, cur).0| == |bs| - i
    decreases |bs| - i
  {
    if i < |bs| {
      UpdateRemovesOnlyFull(bs, i + 1, delta, rnd, cur);
      GrowStepEffect(bs[i], delta, rnd, UpdateFrom(bs, i + 1, delta, rnd, cur).1);
    }
  }

  // ---------------------------------------------------------------------
  // The spawn bookkeeping of renderL

  /** The scan of a spawnable branch's points from point `j` on: one
      `rand(0, 100)` per point until one comes out 0. Gives the point where
      the child is rooted, if any, and the cursor after the scan. */
  function SpawnScan(path: seq<Point>, j: nat, rnd: nat -> Draw, cur: nat): (s: (Option<nat>, nat))
    requires j <= |path|
    ensures s.0.Some? ==> j <= s.0.value < |path| && s.1 == cur + (s.0.value - j) + 1
    ensures s.0.None? ==> s.1 == cur + (|path| - j)
    decreases |path| - j
  {
    if j == |path| then (None, cur)
    else if RandFrom(0, 100, rnd(cur)) == 0 then (Some(j), cur + 1)
    else SpawnScan(path, j + 1, rnd, cur + 1)
  }

  /** The scan stops at the first roll that comes out 0: every roll it
      passes over is non-zero, and the child is rooted at the point whose
      roll was the 0. */
  lemma {:induction false} SpawnScanStopsAtFirstZero(path: seq<Point>, j: nat, rnd: nat -> Draw, cur: nat)
    requires j <= |path|
    ensures var s := SpawnScan(path, j, rnd, cur);
      && (forall c :: cur <= c < s.1 - (if s.0.Some? then 1 else 0) ==> RandFrom(0, 100, rnd(c)) != 0)
      && (s.0.Some? ==> RandFrom(0, 100, rnd(s.1 - 1)) == 0)
    decreases |path| - j
  {
    if j < |path| && RandFrom(0, 100, rnd(cur)) != 0 {
      SpawnScanStopsAtFirstZero(path, j + 1, rnd, cur + 1);
    }
  }

  /** A spawn clears one flag and adds one branch that cannot spawn. */
  lemma SpawnableAfterSpawn(bs: seq<Branch>, i: nat, child: Branch)
    requires i < |bs| && bs[i].canSpawn && !child.canSpawn
    ensures Spawnable(bs[i := bs[i].(canSpawn := false)] + [child]) == Spawnable(bs) - 1
  {
    var b := bs[i].(canSpawn := false);
    SpawnableConcat(bs[i := b], [child]);
    SpawnableUpdate(bs, i, b);
    assert [child][1..] == [];
  }

  lemma {:induction false} SpawnableConcat(a: seq<Branch>, b: seq<Branch>)
    ensures Spawnable(a + b) == Spawnable(a) + Spawnable(b)
  {
    if a != [] {
      assert (a + b)[1..] == a[1..] + b;
      SpawnableConcat(a[1..], b);
    } else {
      assert a + b == b;
    }
  }

  lemma {:induction false} SpawnableUpdate(bs: seq<Branch>, i: nat, b: Branch)
    requires i < |bs|
    ensures Spawnable(bs[i := b]) ==
      Spawnable(bs) - (if bs[i].canSpawn then 1 else 0) + (if b.canSpawn then 1 else 0)
  {
    if i == 0 {
      assert bs[i := b][1..] == bs[1..];
    } else {
      assert bs[i := b][1..] == bs[1..][i - 1 := b];
      SpawnableUpdate(bs[1..], i - 1, b);
    }
  }

  /** The draws `renderL` takes for a branch before its points: the stroke
      opacity and the three line-width rolls. */
  const StyleDraws := 4

  /** The cursor after the draws `renderL` takes for a branch after its
      points: the fill opacity of a branch that has not fired, the flash
      roll `rand(0, 60)`, and the flash opacity when that roll is 0. */
  function FlashDraws(hasFired: bool, rnd: nat -> Draw, cur: nat): (c: nat)
    ensures cur + 1 <= c <= cur + 3
    ensures hasFired ==> c <= cur + 2
  {
    var c := if hasFired then cur else cur + 1;
    if RandFrom(0, 60, rnd(c)) == 0 then c + 2 else c + 1
  }

  /** The loop over the points of branch `i`: a spawnable branch rolls at
      each point until a 0 comes up, then clears its flag and pushes a child
      rooted at that point, drawn with the next three draws. */
  function SpawnPass(bs: seq<Branch>, i: nat, rnd: nat -> Draw, cur: nat): (r: (seq<Branch>, nat))
    requires i < |bs|
    ensures |bs| <= |r.0|
    ensures r.0 == bs || Spawnable(r.0) < Spawnable(bs)
  {
    if !bs[i].canSpawn then (bs, cur)
    else
      var scan := SpawnScan(bs[i].path, 0, rnd, cur);
      if scan.0.None? then (bs, scan.1)
      else
        var p := bs[i].path[scan.0.value];
        var d := scan.1;
        var child := NewBranch(p.x, p.y, false, rnd(d), rnd(d + 1), rnd(d + 2));
        SpawnableAfterSpawn(bs, i, child);
        (bs[i := bs[i].(canSpawn := false)] + [child], d + 3)
  }

  /** One turn of the `renderL` loop, for branch `i`. */
  function BranchPass(bs: seq<Branch>, i: nat, rnd: nat -> Draw, cur: nat): (r: (seq<Branch>, nat))
    requires i < |bs|
    ensures |bs| <= |r.0|
    ensures r.0 == bs || Spawnable(r.0) < Spawnable(bs)
  {
    var s := SpawnPass(bs, i, rnd, cur + StyleDraws);
    (s.0, FlashDraws(bs[i].hasFired, rnd, s.1))
  }

  /** A turn either leaves the list alone, or clears the flag of a
      spawnable branch and appends one well-formed child that cannot spawn,
      rooted at one point of the parent's path (the point whose roll was the
      first 0, by `SpawnScanStopsAtFirstZero`). */
  lemma BranchPassEffect(bs: seq<Branch>, i: nat, rnd: nat -> Draw, cur: nat)
    requires i < |bs|
    ensures var r := BranchPass(bs, i, rnd, cur).0;
      && |r| + Spawnable(r) == |bs| + Spawnable(bs)
      && (r == bs ||
           (&& bs[i].canSpawn
            && |r| == |bs| + 1
            && r[..|bs|] == bs[i := bs[i].(canSpawn := false)]
            && WellFormed(r[|bs|]) && !r[|bs|].canSpawn
            && r[|bs|].path == [r[|bs|].path[0]] && r[|bs|].path[0] in bs[i].path))
  {
    var c := cur + StyleDraws;
    assert BranchPass(bs, i, rnd, cur).0 == SpawnPass(bs, i, rnd, c).0;
    if bs[i].canSpawn {
      var scan := SpawnScan(bs[i].path, 0, rnd, c);
      if scan.0.Some? {
        var p := bs[i].path[scan.0.value];
        var d := scan.1;
        var child := NewBranch(p.x, p.y, false, rnd(d), rnd(d + 1), rnd(d + 2));
        SpawnableAfterSpawn(bs, i, child);
        var r := bs[i := bs[i].(canSpawn := false)] + [child];
        assert SpawnPass(bs, i, rnd, c).0 == r;
        assert r[..|bs|] == bs[i := bs[i].(canSpawn := false)];
        assert r[|bs|] == child;
      }
    }
  }

  /** A branch that cannot spawn takes no spawn roll. */
  lemma SpawnSkip(bs: seq<Branch>, i: nat, rnd: nat -> Draw, cur: nat)
    requires i < |bs| && !bs[i].canSpawn
    ensures SpawnPass(bs, i, rnd, cur) == (bs, cur)
  {
  }

  /** A scan that rolled no 0 over the whole path leaves the list alone. */
  lemma SpawnNoHit(bs: seq<Branch>, i: nat, rnd: nat -> Draw, c1: nat, cur: nat)
    requires i < |bs| && bs[i].canSpawn
    requires SpawnScan(bs[i].path, |bs[i].path|, rnd, cur) == SpawnScan(bs[i].path, 0, rnd, c1)
    ensures SpawnPass(bs, i, rnd, c1) == (bs, cur)
  {
  }

  /** A 0 rolled at point `j` spawns the child there, with the next three
      draws. */
  lemma SpawnHit(bs: seq<Branch>, i: nat, j: nat, rnd: nat -> Draw, c1: nat, cur: nat)
    requires i < |bs| && bs[i].canSpawn && j < |bs[i].path|
    requires SpawnScan(bs[i].path, j, rnd, cur) == SpawnScan(bs[i].path, 0, rnd, c1)
    requires RandFrom(0, 100, rnd(cur)) == 0
    ensures var p := bs[i].path[j];
      SpawnPass(bs, i, rnd, c1) ==
        (bs[i := bs[i].(canSpawn := false)] +
         [NewBranch(p.x, p.y, false, rnd(cur + 1), rnd(cur + 2), rnd(cur + 3))], cur + 4)
  {
  }

  /** A scan that has not hit takes the next draw. */
  lemma ScanMiss(path: seq<Point>, j: nat, rnd: nat -> Draw, c1: nat, cur: nat)
    requires j < |path|
    requires SpawnScan(path, j, rnd, cur) == SpawnScan(path, 0, rnd, c1)
    requires RandFrom(0, 100, rnd(cur)) != 0
    ensures SpawnScan(path, j + 1, rnd, cur + 1) == SpawnScan(path, 0, rnd, c1)
  {
  }

  /** The list and cursor after `renderL` has visited the branches from
      index `i` on, including children pushed while it runs. */
  function RenderFrom(bs: seq<Branch>, i: nat, rnd: nat -> Draw, cur: nat): (seq<Branch>, nat)
    requires i <= |bs|
    decreases Spawnable(bs), |bs| - i
  {
    if i == |bs| then (bs, cur)
    else
      var r := BranchPass(bs, i, rnd, cur);
      RenderFrom(r.0, i + 1, rnd, r.1)
  }

  /** Spawning trades a spawn flag for a branch: the number of branches plus
      the number of spawnable ones never changes. */
  lemma {:induction false} RenderKeepsBudget(bs: seq<Branch>, i: nat, rnd: nat -> Draw, cur: nat)
    requires i <= |bs|
    ensures var r := RenderFrom(bs, i, rnd, cur).0;
      |r| + Spawnable(r) == |bs| + Spawnable(bs)
    decreases Spawnable(bs), |bs| - i
  {
    if i < |bs| {
      var r := BranchPass(bs, i, rnd, cur);
      BranchPassEffect(bs, i, rnd, cur);
      RenderKeepsBudget(r.0, i + 1, rnd, r.1);
    }
  }

  /** The branches that were there are kept, possibly with their spawn flag
      cleared; every branch added is a well-formed child that cannot spawn,
      rooted at a single point. */
  lemma {:induction false} RenderOnlySpawns(bs: seq<Branch>, i: nat, rnd: nat -> Draw, cur: nat)
    requires i <= |bs|
    ensures var r := RenderFrom(bs, i, rnd, cur).0;
      && |bs| <= |r|
      && (forall k :: 0 <= k < |bs| ==>
            r[k] == bs[k] || (bs[k].canSpawn && r[k] == bs[k].(canSpawn := false)))
      && (forall k :: |bs| <= k < |r| ==> WellFormed(r[k]) && !r[k].canSpawn && |r[k].path| == 1)
    decreases Spawnable(bs), |bs| - i
  {
    if i < |bs| {
      var r := BranchPass(bs, i, rnd, cur);
      BranchPassEffect(bs, i, rnd, cur);
      RenderOnlySpawns(r.0, i + 1, rnd, r.1);
      if r.0 != bs {
        assert forall k :: 0 <= k < |bs| ==> r.0[k] == r.0[..|bs|][k];
      }
    }
  }

  /** Without a spawnable branch nothing is spawned; in particular an empty
      list stays empty. */
  lemma {:induction false} RenderIdleWithoutSpawnable(bs: seq<Branch>, i: nat, rnd: nat -> Draw, cur: nat)
    requires i <= |bs| && Spawnable(bs) == 0
    ensures RenderFrom(bs, i, rnd, cur).0 == bs
    decreases |bs| - i
  {
    if i < |bs| {
      var r := BranchPass(bs, i, rnd, cur);
      assert r.0 == bs;
      RenderIdleWithoutSpawnable(bs, i + 1, rnd, r.1);
    }
  }

  /** The list and cursor after the `clearCanvas`, `updateL` and `renderL`
      of one frame. */
  function FrameLists(bs: seq<Branch>, delta: int, rnd: nat -> Draw, cur: nat): (seq<Branch>, nat)
    requires AllWellFormed(bs)
  {
    var grown := UpdateFrom(bs, 0, delta, rnd, cur + 1);
    RenderFrom(grown.0, 0, rnd, grown.1)
  }

  // ---------------------------------------------------------------------
  // The self-termination rule of start

  /** The `finishTime` after a frame at clock reading `now` that ends with
      `count` branches, and whether the loop stops. */
  function FinishStep(count: nat, finishTime: Option<int>, now: int): (Option<int>, bool)
  {
    if count == 0 then
      var ft := if finishTime.None? then Some(now) else finishTime;
      (ft, now - ft.value >= 1000)
    else (None, false)
  }

  /** While branches remain the loop never stops and `finishTime` is
      cleared; once the list is empty `finishTime` records the first empty
      frame and is kept, and the loop stops exactly when a frame comes 1000
      ms or more after it. */
  lemma FinishRule(count: nat, finishTime: Option<int>, now: int)
    ensures var (ft, stop) := FinishStep(count, finishTime, now);
      && (count > 0 ==> ft == None && !stop)
      && (count == 0 && finishTime.None? ==> ft == Some(now) && !stop)
      && (count == 0 && finishTime.Some? ==>
            ft == finishTime && (stop <==> now >= finishTime.value + 1000))
  {
  }

  // ---------------------------------------------------------------------
  // The effect object

  class LightningField {
    /** The successive results of `Math.random()`. */
    const rnd: nat -> Draw
    /** How many of them have been taken. */
    var cursor: nat
    var lightning: seq<Branch>
    var now: int
    var lastFrame: int   // `this.then`
    var delta: int
    var finishTime: Option<int>
    /** An animation frame is requested (`animationFrameId` is not null). */
    var running: bool

    /** Every branch is well formed, and the branches plus the spawnable ones
        number at most two: so there are never more than two branches. */
    ghost predicate Valid()
      reads this
    {
      AllWellFormed(lightning) && |lightning| + Spawnable(lightning) <= 2
    }

    /** The constructor, at clock reading `clock`, seeding one spawnable
        branch at (startX, startY). */
    constructor (startX: real, startY: real, clock: int, rnd: nat -> Draw)
      ensures Valid() && this.rnd == rnd
      ensures lightning == [NewBranch(startX, startY, true, rnd(0), rnd(1), rnd(2))]
      ensures cursor == 3 && finishTime == None && !running
      ensures now == clock && lastFrame == clock && delta == 0
    {
      this.rnd := rnd;
      cursor := 0;
      lightning := [];
      now := clock;
      lastFrame := clock;
      delta := 0;
      finishTime := None;
      running := false;
      new;
      CreateL(startX, startY, true);
      assert lightning[1..] == [];
    }

    /** `rand`, taking the next draw. */
    method Rand(lo: int, hi: int) returns (r: int)
      requires lo <= hi
      modifies this`cursor
      ensures r == RandFrom(lo, hi, rnd(old(cursor))) && cursor == old(cursor) + 1
    {
      r := RandFrom(lo, hi, rnd(cursor));
      cursor := cursor + 1;
    }

    method CreateL(x: real, y: real, canSpawn: bool)
      modifies this`lightning, this`cursor
      ensures lightning == old(lightning) +
        [NewBranch(x, y, canSpawn, rnd(old(cursor)), rnd(old(cursor) + 1), rnd(old(cursor) + 2))]
      ensures cursor == old(cursor) + 3
    {
      var xRange := Rand(5, 12);
      var yRange := Rand(5, 5);
      var pathLimit := Rand(10, 35);
      lightning := lightning + [Branch(x, y, xRange, yRange, [Point(x, y)], pathLimit,
                                       canSpawn, false, 0, 5.0)];
    }

    method UpdateL()
      requires Valid()
      modifies this`lightning, this`cursor
      ensures Valid()
      ensures (lightning, cursor) == UpdateFrom(old(lightning), 0, delta, rnd, old(cursor))
    {
      ghost var bs := lightning;
      ghost var c0 := cursor;
      var i := |lightning|;
      while i > 0
        invariant 0 <= i <= |bs|
        invariant lightning == bs[..i] + UpdateFrom(bs, i, delta, rnd, c0).0
        invariant cursor == UpdateFrom(bs, i, delta, rnd, c0).1
      {
        i := i - 1;
        ghost var after := UpdateFrom(bs, i + 1, delta, rnd, c0);
        ghost var before := lightning;
        assert before == bs[..i] + [bs[i]] + after.0 by {
          assert bs[..i + 1] == bs[..i] + [bs[i]];
        }
        GrowAt(i);
        ghost var g := GrowStep(bs[i], delta, rnd, after.1);
        assert before[..i] == bs[..i] && before[i + 1..] == after.0;
        assert lightning == bs[..i] + (if g.removed then after.0 else [g.branch] + after.0);
      }
      assert bs[..0] + UpdateFrom(bs, 0, delta, rnd, c0).0 == UpdateFrom(bs, 0, delta, rnd, c0).0;
      UpdateKeepsShape(bs, 0, delta, rnd, c0);
      assert bs[0..] == bs;
    }

    /** The body of the `updateL` loop for branch `i`: the branch grows in
        place, or is spliced out of the array. */
    method GrowAt(i: nat)
      requires i < |lightning| && WellFormed(lightning[i])
      modifies this`lightning, this`cursor
      ensures var g := GrowStep(old(lightning)[i], delta, rnd, old(cursor));
        && cursor == g.cursor
        && lightning == old(lightning)[..i] + (if g.removed then [] else [g.branch]) + old(lightning)[i + 1..]
    {
      var light := lightning[i];
      light := light.(grower := light.grower + delta);
      var removed := false;
      if light.grower as real >= light.growerLimit {
        light := light.(grower := 0, growerLimit := light.growerLimit * 1.05);
        var lastPoint := light.path[|light.path| - 1];
        var dx := Rand(0, light.xRange);
        var dy := Rand(0, light.yRange);
        light := light.(path := light.path + [Point(lastPoint.x + (dx as real - light.xRange as real / 2.0),
                                                    lastPoint.y + dy as real)]);
        if |light.path| > light.pathLimit {
          lightning := lightning[..i] + lightning[i + 1..];
          removed := true;
        }
        light := light.(hasFired := true);
      }
      if !removed {
        lightning := lightning[i := light];
      }
    }

    method RenderL()
      requires Valid()
      modifies this`lightning, this`cursor
      ensures Valid()
      ensures (lightning, cursor) == RenderFrom(old(lightning), 0, rnd, old(cursor))
    {
      ghost var bs := lightning;
      ghost var c0 := cursor;
      var i := 0;
      while i < |lightning|
        invariant i <= |lightning|
        invariant RenderFrom(lightning, i, rnd, cursor) == RenderFrom(bs, 0, rnd, c0)
        decreases Spawnable(lightning), |lightning| - i
      {
        DrawBranch(i);
        i := i + 1;
      }
      RenderKeepsBudget(bs, 0, rnd, c0);
      RenderOnlySpawns(bs, 0, rnd, c0);
    }

    /** The body of the `renderL` loop for branch `i`; of the drawing only
        the draws it takes are kept. */
    method DrawBranch(i: nat)
      requires i < |lightning|
      modifies this`lightning, this`cursor
      ensures (lightning, cursor) == BranchPass(old(lightning), i, rnd, old(cursor))
    {
      var hasFired := lightning[i].hasFired;
      StyleRolls();
      SpawnLoop(i);
      FlashRolls(hasFired);
    }

    /** The stroke opacity and the three line-width rolls. */
    method StyleRolls()
      modifies this`cursor
      ensures cursor == old(cursor) + StyleDraws
    {
      var opacity := Rand(10, 100);
      var width2 := Rand(0, 30);
      var width3 := Rand(0, 60);
      var width4 := Rand(0, 90);
    }

    /** The fill of a branch that has not fired, and the random flash. */
    method FlashRolls(hasFired: bool)
      modifies this`cursor
      ensures cursor == FlashDraws(hasFired, rnd, old(cursor))
    {
      if !hasFired {
        var fillOpacity := Rand(4, 12);
      }
      var flash := Rand(0, 60);
      if flash == 0 {
        var flashOpacity := Rand(1, 3);
      }
    }

    /** The loop over the points of branch `i`, with its spawn rolls. */
    method SpawnLoop(i: nat)
      requires i < |lightning|
      modifies this`lightning, this`cursor
      ensures (lightning, cursor) == SpawnPass(old(lightning), i, rnd, old(cursor))
    {
      ghost var list := lightning;
      ghost var c1 := cursor;
      var light := lightning[i];
      if !light.canSpawn {
        SpawnSkip(list, i, rnd, c1);
      }
      var j := 0;
      while j < |light.path|
        invariant j <= |light.path| && light.path == list[i].path
        invariant light.canSpawn ==> lightning == list && light == list[i]
        invariant light.canSpawn ==>
          SpawnScan(list[i].path, j, rnd, cursor) == SpawnScan(list[i].path, 0, rnd, c1)
        invariant !light.canSpawn ==> (lightning, cursor) == SpawnPass(list, i, rnd, c1)
      {
        if light.canSpawn {
          ghost var c := cursor;
          var roll := Rand(0, 100);
          if roll == 0 {
            SpawnHit(list, i, j, rnd, c1, c);
            var p := light.path[j];
            light := light.(canSpawn := false);
            lightning := lightning[i := light];
            CreateL(p.x, p.y, false);
          } else {
            ScanMiss(list[i].path, j, rnd, c1, c);
          }
        }
        j := j + 1;
      }
      if light.canSpawn {
        SpawnNoHit(list, i, rnd, c1, cursor);
      }
    }

    /** `clearCanvas`: of the fading only its draw is kept. */
    method ClearCanvas()
      modifies this`cursor
      ensures cursor == old(cursor) + 1
    {
      var opacity := Rand(1, 30);
    }

    /** One run of `animate` at clock reading `clock`: the delta since the
        previous frame, `clearCanvas`, `updateL`, `renderL`, and the
        termination rule. */
    method Frame(clock: int) returns (stopped: bool)
      requires Valid()
      modifies this
      ensures Valid()
      ensures now == clock && lastFrame == clock && delta == clock - old(lastFrame)
      ensures (lightning, cursor) == FrameLists(old(lightning), delta, rnd, old(cursor))
      ensures (finishTime, stopped) == FinishStep(|lightning|, old(finishTime), clock)
      ensures running == !stopped
    {
      running := true;
      now := clock;
      delta := now - lastFrame;
      lastFrame := now;
      ghost var bs, c0 := lightning, cursor;
      ClearCanvas();
      UpdateL();
      RenderL();
      assert (lightning, cursor) == FrameLists(bs, delta, rnd, c0);
      stopped := Finish();
    }

    /** The end of `animate`: the finish time and the cancellation. */
    method Finish() returns (stopped: bool)
      modifies this`finishTime, this`running
      ensures (finishTime, stopped) == FinishStep(|lightning|, old(finishTime), now)
      ensures running == (old(running) && !stopped)
    {
      stopped := false;
      if |lightning| == 0 {
        if finishTime == None {
          finishTime := Some(now);
        }
        if now - finishTime.value >= 1000 {
          running := false;
          stopped := true;
        }
      } else {
        finishTime := None;
      }
    }

    /** `start`: the clock is read once for `then` and once more by the
        first frame. */
    method Start(startClock: int, frameClock: int) returns (stopped: bool)
      requires Valid()
      modifies this
      ensures Valid()
      ensures now == frameClock && lastFrame == frameClock && delta == frameClock - startClock
      ensures (lightning, cursor) == FrameLists(old(lightning), frameClock - startClock, rnd, old(cursor))
      ensures (finishTime, stopped) == FinishStep(|lightning|, old(finishTime), frameClock)
      ensures running == !stopped
    {
      lastFrame := startClock;
      stopped := Frame(frameClock);
    }
  }

  /** There are never more than two branches. */
  lemma AtMostTwoBranches(f: LightningField)
    requires f.Valid()
    ensures |f.lightning| <= 2
  {
  }

  /** Once the list is empty it stays empty: a frame over an empty list
      creates nothing. */
  lemma EmptyStaysEmpty(delta: int, rnd: nat -> Draw, cur: nat)
    ensures FrameLists([], delta, rnd, cur).0 == []
  {
  }

  /** A frame keeps every branch well formed and at most two of them:
      growth removes branches and spawning only trades a flag for a
      child. */
  lemma {:induction false} FrameKeepsBudget(bs: seq<Branch>, delta: int, rnd: nat -> Draw, cur: nat)
    requires AllWellFormed(bs) && |bs| + Spawnable(bs) <= 2
    ensures var r := FrameLists(bs, delta, rnd, cur).0;
      AllWellFormed(r) && |r| + Spawnable(r) <= 2 && |r| <= 2
  {
    var grown := UpdateFrom(bs, 0, delta, rnd, cur + 1);
    UpdateKeepsShape(bs, 0, delta, rnd, cur + 1);
    assert bs[0..] == bs;
    RenderKeepsBudget(grown.0, 0, rnd, grown.1);
    RenderOnlySpawns(grown.0, 0, rnd, grown.1);
  }
}
