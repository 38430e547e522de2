/**
 The front of the O(NP) algorithm: for every diagonal, what `fp` and `@path` hold while the outer
 loop is at level p and the diagonals lo..hi are still to be visited at that level.
 */
module OnpFront {
  import opened EditGraph
  import opened OnpPath

  function Delta<T>(a: seq<T>, b: seq<T>): int { |b| - |a| }

  /** Diagonals visited at level q. */
  predicate Opened<T>(a: seq<T>, b: seq<T>, k: int, q: int) {
    q >= 0 && -q <= k <= Delta(a, b) + q
  }

  /** `y` is the furthest point of diagonal k at level q, and arena entry r is a path that gets there. */
  ghost predicate Tracks<T>(a: seq<T>, b: seq<T>, arena: seq<Entry>, dels: seq<nat>, k: int, q: int, y: int, r: int) {
    && InGrid(a, b, k, y)
    && 0 <= r < |arena| == |dels|
    && arena[r].x == y - k && arena[r].y == y
    && dels[r] + Overshoot(a, b, k) <= q
    && Furthest(a, b, k, q, y)
  }

  ghost predicate DiagonalOk<T>(a: seq<T>, b: seq<T>, arena: seq<Entry>, dels: seq<nat>,
                                k: int, q: int, y: int, r: int)
  {
    if Opened(a, b, k, q) then Tracks(a, b, arena, dels, k, q, y, r) else y == -1 && r == -1
  }

  /** From this point on diagonal k a step towards its unvisited neighbours stays in the grid. */
  predicate NotDone<T>(a: seq<T>, b: seq<T>, k: int, y: int) {
    && (k <= Delta(a, b) ==> y - k < |a|)
    && (k >= Delta(a, b) ==> y < |b|)
  }

  function Level(p: int, lo: int, hi: int, k: int): int {
    if lo <= k <= hi then p - 1 else p
  }

  /** Slot k of the two arrays, where lo..hi are the diagonals not yet visited at level p. */
  ghost predicate SlotOk<T>(a: seq<T>, b: seq<T>, arena: seq<Entry>, dels: seq<nat>,
                         p: int, lo: int, hi: int, k: int, y: int, r: int)
  {
    && DiagonalOk(a, b, arena, dels, k, Level(p, lo, hi, k), y, r)
    && (lo <= k <= hi && Opened(a, b, k, p - 1) ==> NotDone(a, b, k, y))
  }

  ghost predicate Front<T>(a: seq<T>, b: seq<T>, arena: seq<Entry>, dels: seq<nat>,
                        p: int, lo: int, hi: int, fp: seq<int>, path: seq<int>)
  {
    && |a| <= |b|
    && |fp| == |path| == |a| + |b| + 3
    && ArenaOk(a, b, arena, dels)
    && forall i :: 0 <= i < |fp| ==> SlotOk(a, b, arena, dels, p, lo, hi, i - |a| - 1, fp[i], path[i])
  }

  /** Diagonal k is the one the algorithm may visit next. */
  predicate Next<T>(a: seq<T>, b: seq<T>, p: int, lo: int, hi: int, k: int) {
    && 0 <= p <= |a| <= |b|
    && -p <= k <= Delta(a, b) + p
    && lo <= k <= hi
    && (k < Delta(a, b) ==> k == lo && k < hi)
    && (k > Delta(a, b) ==> k == hi && lo < k)
    && (k == Delta(a, b) ==> lo == k == hi)
  }

  /** Where the snake on diagonal k starts, and from which arena entry. */
  function BetterY(below: int, above: int): int { if below + 1 > above then below + 1 else above }

  function BetterR(below: int, above: int, rBelow: int, rAbove: int): int {
    if below + 1 > above then rBelow else rAbove
  }

  /** The start of the next snake is in the grid, one step from the entry it is recorded under. */
  ghost predicate SnakeReady<T>(a: seq<T>, b: seq<T>, arena: seq<Entry>, dels: seq<nat>, k: int, q: int, y: int, r: int)
    requires |arena| == |dels|
  {
    && InGrid(a, b, k, y)
    && -1 <= r < |arena|
    && var fx, fy := FromX(arena, r), FromY(arena, r);
       && 0 <= fx && 0 <= fy
       && -1 <= k - (fy - fx) <= 1
       && StartX(fx, fy, k) == y - k && StartY(fx, fy, k) == y
       && Recorded(arena, dels, r, k) + Overshoot(a, b, k) <= q
  }

  lemma StepFromBelow<T>(a: seq<T>, b: seq<T>, arena: seq<Entry>, dels: seq<nat>, p: int, k: int, below: int, r: int)
    requires ArenaOk(a, b, arena, dels) && |a| <= |b|
    requires Tracks(a, b, arena, dels, k - 1, if k > Delta(a, b) then p - 1 else p, below, r)
    requires k > Delta(a, b) ==> NotDone(a, b, k - 1, below)
    ensures SnakeReady(a, b, arena, dels, k, p, below + 1, r)
  {
  }

  lemma StepFromAbove<T>(a: seq<T>, b: seq<T>, arena: seq<Entry>, dels: seq<nat>, p: int, k: int, above: int, r: int)
    requires ArenaOk(a, b, arena, dels) && |a| <= |b|
    requires Tracks(a, b, arena, dels, k + 1, if k < Delta(a, b) then p - 1 else p, above, r)
    requires k < Delta(a, b) ==> NotDone(a, b, k + 1, above)
    ensures SnakeReady(a, b, arena, dels, k, p, above, r)
  {
  }

  lemma SlotIsFurthest<T>(a: seq<T>, b: seq<T>, arena: seq<Entry>, dels: seq<nat>, k: int, q: int, y: int, r: int)
    requires |a| <= |b| && DiagonalOk(a, b, arena, dels, k, q, y, r)
    ensures Furthest(a, b, k, q, y)
  {
    if !Opened(a, b, k, q) { UnopenedIsEmpty(a, b, k, q); }
  }

  lemma NeighboursLead<T>(a: seq<T>, b: seq<T>, arena: seq<Entry>, dels: seq<nat>, p: int, lo: int, hi: int, k: int,
                       below: int, rBelow: int, above: int, rAbove: int)
    requires ArenaOk(a, b, arena, dels) && Next(a, b, p, lo, hi, k)
    requires SlotOk(a, b, arena, dels, p, lo, hi, k - 1, below, rBelow)
    requires SlotOk(a, b, arena, dels, p, lo, hi, k + 1, above, rAbove)
    ensures SnakeReady(a, b, arena, dels, k, p, BetterY(below, above), BetterR(below, above, rBelow, rAbove))
  {
    var qBelow, qAbove := Level(p, lo, hi, k - 1), Level(p, lo, hi, k + 1);
    assert qBelow == (if k > Delta(a, b) then p - 1 else p);
    assert qAbove == (if k < Delta(a, b) then p - 1 else p);
    if below + 1 > above && Opened(a, b, k - 1, qBelow) {
      StepFromBelow(a, b, arena, dels, p, k, below, rBelow);
    } else if Opened(a, b, k + 1, qAbove) {
      StepFromAbove(a, b, arena, dels, p, k, above, rAbove);
    } else {
      assert k == 0 && p == 0;
    }
  }

  lemma SnakeIsLeg<T>(a: seq<T>, b: seq<T>, arena: seq<Entry>, dels: seq<nat>, k: int, q: int, ys: int, r: int, y: int)
    requires |arena| == |dels| && SnakeReady(a, b, arena, dels, k, q, ys, r)
    requires Run(a, b, ys - k, ys, y - k, y)
    ensures Leg(a, b, FromX(arena, r), FromY(arena, r), y - k, y)
    ensures Recorded(arena, dels, r, k) + Overshoot(a, b, k) <= q
  {
  }

  /** What the slots next to diagonal k tell the snake that is about to run there. */
  lemma FrontReady<T>(a: seq<T>, b: seq<T>, arena: seq<Entry>, dels: seq<nat>, p: int, lo: int, hi: int, k: int,
                   fp: seq<int>, path: seq<int>, i: int)
    requires Front(a, b, arena, dels, p, lo, hi, fp, path) && Next(a, b, p, lo, hi, k) && i == k + |a| + 1
    ensures 0 < i < |fp| - 1 && |path| == |fp| && |arena| == |dels|
    ensures SnakeReady(a, b, arena, dels, k, p, BetterY(fp[i - 1], fp[i + 1]),
                       BetterR(fp[i - 1], fp[i + 1], path[i - 1], path[i + 1]))
    ensures Furthest(a, b, k - 1, if k > Delta(a, b) then p - 1 else p, fp[i - 1])
    ensures Furthest(a, b, k + 1, if k < Delta(a, b) then p - 1 else p, fp[i + 1])
  {
    assert SlotOk(a, b, arena, dels, p, lo, hi, i - 1 - |a| - 1, fp[i - 1], path[i - 1]);
    assert SlotOk(a, b, arena, dels, p, lo, hi, i + 1 - |a| - 1, fp[i + 1], path[i + 1]);
    NeighboursLead(a, b, arena, dels, p, lo, hi, k, fp[i - 1], path[i - 1], fp[i + 1], path[i + 1]);
    SlotIsFurthest(a, b, arena, dels, k - 1, Level(p, lo, hi, k - 1), fp[i - 1], path[i - 1]);
    SlotIsFurthest(a, b, arena, dels, k + 1, Level(p, lo, hi, k + 1), fp[i + 1], path[i + 1]);
  }

  /** One assignment `fp[k + @offset] = snake(...)` moves the front past diagonal k. */
  lemma FrontAdvances<T>(a: seq<T>, b: seq<T>, arena: seq<Entry>, dels: seq<nat>, p: int, lo: int, hi: int, k: int,
                         fp: seq<int>, path: seq<int>, i: int, e: Entry, lo': int, hi': int)
    requires Front(a, b, arena, dels, p, lo, hi, fp, path) && Next(a, b, p, lo, hi, k) && i == k + |a| + 1
    requires e.r == BetterR(fp[i - 1], fp[i + 1], path[i - 1], path[i + 1]) && -1 <= e.r < |arena|
    requires e.x == e.y - k
    requires var ys := BetterY(fp[i - 1], fp[i + 1]); Run(a, b, ys - k, ys, e.x, e.y) && Stuck(a, b, e.x, e.y)
    requires (lo', hi') == if k == lo then (lo + 1, hi) else (lo, hi - 1)
    ensures Front(a, b, arena + [e], dels + [Recorded(arena, dels, e.r, k)], p, lo', hi', fp[i := e.y],
        path[i := |arena|])
  {
    var d, ys := Recorded(arena, dels, e.r, k), BetterY(fp[i - 1], fp[i + 1]);
    FrontReady(a, b, arena, dels, p, lo, hi, k, fp, path, i);
    SnakeIsFurthest(a, b, k, p, fp[i - 1], fp[i + 1], e.y);
    SnakeIsLeg(a, b, arena, dels, k, p, ys, e.r, e.y);
    ArenaGrows(a, b, arena, dels, e, d);
    SlotsKept(a, b, arena, dels, p, lo, hi, k, fp, path, fp[i := e.y], path[i := |arena|], lo', hi', e, d);
  }

  lemma ArenaGrows<T>(a: seq<T>, b: seq<T>, arena: seq<Entry>, dels: seq<nat>, e: Entry, d: nat)
    requires ArenaOk(a, b, arena, dels)
    requires -1 <= e.r < |arena| && Leg(a, b, FromX(arena, e.r), FromY(arena, e.r), e.x, e.y)
    requires d == Recorded(arena, dels, e.r, e.y - e.x)
    ensures ArenaOk(a, b, arena + [e], dels + [d])
  {
    forall i | 0 <= i < |arena| + 1 ensures EntryOk(a, b, arena + [e], dels + [d], i) {
      if i < |arena| {
        assert EntryOk(a, b, arena, dels, i);
      }
    }
  }

  lemma SlotsKept<T>(a: seq<T>, b: seq<T>, arena: seq<Entry>, dels: seq<nat>, p: int, lo: int, hi: int, k: int,
                  fp: seq<int>, path: seq<int>, fp': seq<int>, path': seq<int>, lo': int, hi': int, e: Entry, d: nat)
    requires Front(a, b, arena, dels, p, lo, hi, fp, path) && Next(a, b, p, lo, hi, k)
    requires (lo', hi') == if k == lo then (lo + 1, hi) else (lo, hi - 1)
    requires fp' == fp[k + |a| + 1 := e.y] && path' == path[k + |a| + 1 := |arena|]
    requires e.x == e.y - k && InGrid(a, b, k, e.y) && Furthest(a, b, k, p, e.y) && d + Overshoot(a, b, k) <= p
    ensures forall i :: 0 <= i < |fp'| ==>
              SlotOk(a, b, arena + [e], dels + [d], p, lo', hi', i - |a| - 1, fp'[i], path'[i])
  {
    forall i | 0 <= i < |fp'|
      ensures SlotOk(a, b, arena + [e], dels + [d], p, lo', hi', i - |a| - 1, fp'[i], path'[i])
    {
      assert SlotOk(a, b, arena, dels, p, lo, hi, i - |a| - 1, fp[i], path[i]);
    }
  }

  // ----- moving from one level to the next -----

  /** A level that has not reached the corner leaves room on every diagonal, and the corner is further away. */
  lemma StillOpen<T>(a: seq<T>, b: seq<T>, arena: seq<Entry>, dels: seq<nat>, q: nat, target: int,
                  k: int, y: int, r: int)
    requires ArenaOk(a, b, arena, dels) && |a| <= |b|
    requires Furthest(a, b, Delta(a, b), q, target) && target < |b|
    requires Tracks(a, b, arena, dels, k, q, y, r)
    ensures NotDone(a, b, k, y)
  {
    RecordedPathBounds(a, b, arena, dels, r);
    assert InGrid(a, b, Delta(a, b), |b|);
    if k <= Delta(a, b) && y - k == |a| {
      TailInsertions(a, b, y);
    }
    if k >= Delta(a, b) && y == |b| {
      TailDeletions(a, b, y - k);
    }
  }

  lemma {:induction false} TailInsertions<T>(a: seq<T>, b: seq<T>, y: nat)
    requires y <= |b|
    ensures Deletions(a, b, |a|, |b|) <= Deletions(a, b, |a|, y)
    decreases |b| - y
  {
    if y >= |b| {
    } else {
      LcsGrows(a, b, |a|, y);
      TailInsertions(a, b, y + 1);
    }
  }

  lemma {:induction false} TailDeletions<T>(a: seq<T>, b: seq<T>, x: nat)
    requires x <= |a|
    ensures Deletions(a, b, |a|, |b|) <= Deletions(a, b, x, |b|) + |a| - x
    decreases |a| - x
  {
    if x >= |a| {
    } else {
      LcsGrows(a, b, x, |b|);
      TailDeletions(a, b, x + 1);
    }
  }

  /** If level q has not reached the corner, the sequences need more than q deletions: so q < m. */
  lemma CornerIsFurther<T>(a: seq<T>, b: seq<T>, q: int, target: int)
    requires |a| <= |b|
    requires Furthest(a, b, Delta(a, b), q, target) && target < |b|
    ensures Deletions(a, b, |a|, |b|) > q
    ensures q < |a|
  {
    assert InGrid(a, b, Delta(a, b), |b|);
    LcsGrows(a, b, |a|, |b|);
  }

  /** Before the first level nothing is opened. */
  lemma FrontStarts<T>(a: seq<T>, b: seq<T>, fp: seq<int>, path: seq<int>)
    requires |a| <= |b| && |fp| == |path| == |a| + |b| + 3
    requires forall i :: 0 <= i < |fp| ==> fp[i] == -1 && path[i] == -1
    ensures Front(a, b, [], [], 0, 0, |b| + 1, fp, path)
  {
    forall i | 0 <= i < |fp| ensures SlotOk(a, b, [], [], 0, 0, |b| + 1, i - |a| - 1, fp[i], path[i]) {
    }
  }

  /** At the end of a level the corner's slot holds a recorded path with at most p deletions. */
  lemma LevelDone<T>(a: seq<T>, b: seq<T>, arena: seq<Entry>, dels: seq<nat>, p: nat, fp: seq<int>, path: seq<int>,
        t: int)
    requires Front(a, b, arena, dels, p, Delta(a, b) + 1, Delta(a, b), fp, path) && t == Delta(a, b) + |a| + 1
    ensures fp[t] <= |b| && 0 <= path[t] < |arena|
    ensures arena[path[t]].x == fp[t] - Delta(a, b) && arena[path[t]].y == fp[t] && dels[path[t]] <= p
  {
    assert SlotOk(a, b, arena, dels, p, Delta(a, b) + 1, Delta(a, b), t - |a| - 1, fp[t], path[t]);
  }

  /** A finished level that missed the corner is the start of the next one. */
  lemma NextLevel<T>(a: seq<T>, b: seq<T>, arena: seq<Entry>, dels: seq<nat>, p: nat, fp: seq<int>, path: seq<int>)
    requires Front(a, b, arena, dels, p, Delta(a, b) + 1, Delta(a, b), fp, path)
    requires fp[Delta(a, b) + |a| + 1] < |b|
    ensures Front(a, b, arena, dels, p + 1, -(p + 1), |b| + 1, fp, path)
    ensures Deletions(a, b, |a|, |b|) > p && p < |a|
  {
    var t := Delta(a, b) + |a| + 1;
    assert SlotOk(a, b, arena, dels, p, Delta(a, b) + 1, Delta(a, b), t - |a| - 1, fp[t], path[t]);
    CornerIsFurther(a, b, p, fp[t]);
    forall i | 0 <= i < |fp|
      ensures SlotOk(a, b, arena, dels, p + 1, -(p + 1), |b| + 1, i - |a| - 1, fp[i], path[i])
    {
      var k := i - |a| - 1;
      assert SlotOk(a, b, arena, dels, p, Delta(a, b) + 1, Delta(a, b), k, fp[i], path[i]);
      if Opened(a, b, k, p) {
        StillOpen(a, b, arena, dels, p, fp[t], k, fp[i], path[i]);
      }
    }
  }

  /** The `until` test: at the corner the recorded path is a shortest one, else the next level may start. */
  lemma LevelVerdict<T>(a: seq<T>, b: seq<T>, arena: seq<Entry>, dels: seq<nat>, p: nat, fp: seq<int>,
        path: seq<int>, t: int)
    requires Front(a, b, arena, dels, p, Delta(a, b) + 1, Delta(a, b), fp, path) && t == Delta(a, b) + |a| + 1
    requires p <= Deletions(a, b, |a|, |b|)
    ensures fp[t] == |b| ==>
              && ArenaOk(a, b, arena, dels) && 0 <= path[t] < |arena|
              && arena[path[t]].x == |a| && arena[path[t]].y == |b|
              && dels[path[t]] == Deletions(a, b, |a|, |b|) <= p
    ensures fp[t] != |b| ==>
              && Front(a, b, arena, dels, p + 1, -(p + 1), |b| + 1, fp, path)
              && p < Deletions(a, b, |a|, |b|) && p < |a|
  {
    LevelDone(a, b, arena, dels, p, fp, path, t);
    if fp[t] == |b| {
      RecordedPathBounds(a, b, arena, dels, path[t]);
    } else {
      NextLevel(a, b, arena, dels, p, fp, path);
    }
  }

  /** Between the two inner loops the unvisited range shrinks to the opened diagonals. */
  lemma SecondHalf<T>(a: seq<T>, b: seq<T>, arena: seq<Entry>, dels: seq<nat>, p: nat, fp: seq<int>, path: seq<int>)
    requires Front(a, b, arena, dels, p, Delta(a, b), |b| + 1, fp, path)
    ensures Front(a, b, arena, dels, p, Delta(a, b), Delta(a, b) + p, fp, path)
  {
    forall i | 0 <= i < |fp|
      ensures SlotOk(a, b, arena, dels, p, Delta(a, b), Delta(a, b) + p, i - |a| - 1, fp[i], path[i])
    {
      assert SlotOk(a, b, arena, dels, p, Delta(a, b), |b| + 1, i - |a| - 1, fp[i], path[i]);
    }
  }
}
