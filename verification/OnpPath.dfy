/**
 Paths through the edit graph: the backtrack arena that `snake` fills, the chains hanging in it,
 and the edit script a chain stands for.
 */
module OnpPath {
  import opened EditScript
  import opened EditGraph

  datatype Point = Point(x: int, y: int)

  /** One arena entry `[x, y, r]`: a furthest point and the index of its predecessor, -1 for none. */
  datatype Entry = Entry(x: int, y: int, r: int)

  /** The coordinates of entry r; an entry without predecessor hangs off the origin. */
  function FromX(arena: seq<Entry>, r: int): int
    requires -1 <= r < |arena|
  {
    if r == -1 then 0 else arena[r].x
  }

  function FromY(arena: seq<Entry>, r: int): int
    requires -1 <= r < |arena|
  {
    if r == -1 then 0 else arena[r].y
  }

  /** A leg from (fx, fy) towards diagonal k starts its snake there or one step right or down. */
  function StartX(fx: int, fy: int, k: int): int { if k < fy - fx then fx + 1 else fx }

  function StartY(fx: int, fy: int, k: int): int { if k > fy - fx then fy + 1 else fy }

  /** From (fx, fy), at most one insertion or deletion and then a run of common tokens reaches (x, y). */
  ghost predicate Leg<T>(a: seq<T>, b: seq<T>, fx: int, fy: int, x: int, y: int) {
    && 0 <= fx && 0 <= fy
    && -1 <= (y - x) - (fy - fx) <= 1
    && Run(a, b, StartX(fx, fy, y - x), StartY(fx, fy, y - x), x, y)
  }

  function LegDeletions(fx: int, fy: int, k: int): (d: nat) {
    if k < fy - fx then 1 else 0
  }

  /** The deletions on the recorded path to a point of diagonal k whose predecessor is entry r. */
  function Recorded(arena: seq<Entry>, dels: seq<nat>, r: int, k: int): nat
    requires |arena| == |dels| && -1 <= r < |arena|
  {
    (if r == -1 then 0 else dels[r]) + LegDeletions(FromX(arena, r), FromY(arena, r), k)
  }

  /** Entry i is one leg from its predecessor, and `dels[i]` counts the deletions up to it. */
  ghost predicate EntryOk<T>(a: seq<T>, b: seq<T>, arena: seq<Entry>, dels: seq<nat>, i: int) {
    && 0 <= i < |arena| == |dels|
    && -1 <= arena[i].r < i
    && Leg(a, b, FromX(arena, arena[i].r), FromY(arena, arena[i].r), arena[i].x, arena[i].y)
    && dels[i] == Recorded(arena, dels, arena[i].r, arena[i].y - arena[i].x)
  }

  ghost predicate ArenaOk<T>(a: seq<T>, b: seq<T>, arena: seq<Entry>, dels: seq<nat>) {
    |dels| == |arena| && forall i :: 0 <= i < |arena| ==> EntryOk(a, b, arena, dels, i)
  }

  /** A best path to an arena point makes no more deletions than the recorded one. */
  lemma {:induction false} RecordedPathBounds<T>(a: seq<T>, b: seq<T>, arena: seq<Entry>, dels: seq<nat>, i: nat)
    requires ArenaOk(a, b, arena, dels) && i < |arena|
    ensures 0 <= arena[i].x <= |a| && 0 <= arena[i].y <= |b|
    ensures Deletions(a, b, arena[i].x, arena[i].y) <= dels[i]
    decreases i
  {
    assert EntryOk(a, b, arena, dels, i);
    var r := arena[i].r;
    if r != -1 {
      RecordedPathBounds(a, b, arena, dels, r);
    }
    LegBounds(a, b, FromX(arena, r), FromY(arena, r), arena[i].x, arena[i].y);
  }

  lemma LegBounds<T>(a: seq<T>, b: seq<T>, fx: int, fy: int, x: int, y: int)
    requires Leg(a, b, fx, fy, x, y)
    ensures 0 <= fx <= x <= |a| && 0 <= fy <= y <= |b|
    ensures Deletions(a, b, x, y) <= Deletions(a, b, fx, fy) + LegDeletions(fx, fy, y - x)
  {
    LcsGrows(a, b, fx, fy);
    RunKeepsDeletions(a, b, StartX(fx, fy, y - x), StartY(fx, fy, y - x), x, y);
  }

  lemma {:induction false} RunKeepsDeletions<T>(a: seq<T>, b: seq<T>, xs: nat, ys: nat, x: nat, y: nat)
    requires Run(a, b, xs, ys, x, y)
    ensures Deletions(a, b, x, y) == Deletions(a, b, xs, ys)
    decreases x
  {
    if xs >= x {
    } else {
      RunKeepsDeletions(a, b, xs, ys, x - 1, y - 1);
    }
  }

  // ----- chains -----

  /** The points from entry r back to the root, last point first: what `compose` returns. */
  function Chain<T>(a: seq<T>, b: seq<T>, arena: seq<Entry>, ghost dels: seq<nat>, r: int): seq<Point>
    requires ArenaOk(a, b, arena, dels) && -1 <= r < |arena|
    decreases r + 1
  {
    if r == -1 then []
    else
      assert EntryOk(a, b, arena, dels, r);
      [Point(arena[r].x, arena[r].y)] + Chain(a, b, arena, dels, arena[r].r)
  }

  function TipX(path: seq<Point>): int { if path == [] then 0 else path[0].x }

  function TipY(path: seq<Point>): int { if path == [] then 0 else path[0].y }

  /** A path is stored end first; each point is one leg from the one stored after it. */
  ghost predicate IsPath<T>(a: seq<T>, b: seq<T>, path: seq<Point>) {
    path != [] ==>
      && Leg(a, b, TipX(path[1..]), TipY(path[1..]), path[0].x, path[0].y)
      && IsPath(a, b, path[1..])
  }

  function PathDeletions(path: seq<Point>): nat {
    if path == [] then 0
    else PathDeletions(path[1..]) + LegDeletions(TipX(path[1..]), TipY(path[1..]), path[0].y - path[0].x)
  }

  lemma PathCons<T>(a: seq<T>, b: seq<T>, p: Point, rest: seq<Point>)
    requires IsPath(a, b, rest) && Leg(a, b, TipX(rest), TipY(rest), p.x, p.y)
    ensures IsPath(a, b, [p] + rest)
    ensures PathDeletions([p] + rest) == PathDeletions(rest) + LegDeletions(TipX(rest), TipY(rest), p.y - p.x)
  {
    assert ([p] + rest)[1..] == rest;
  }

  lemma {:induction false} ChainIsPath<T>(a: seq<T>, b: seq<T>, arena: seq<Entry>, dels: seq<nat>, r: int)
    requires ArenaOk(a, b, arena, dels) && -1 <= r < |arena|
    ensures var path := Chain(a, b, arena, dels, r);
            && IsPath(a, b, path)
            && TipX(path) == FromX(arena, r) && TipY(path) == FromY(arena, r)
            && PathDeletions(path) == (if r == -1 then 0 else dels[r])
    decreases r + 1
  {
    if r == -1 {
    } else {
      assert EntryOk(a, b, arena, dels, r);
      ChainIsPath(a, b, arena, dels, arena[r].r);
      PathCons(a, b, Point(arena[r].x, arena[r].y), Chain(a, b, arena, dels, arena[r].r));
    }
  }

  // ----- the script of a path -----

  /** Which operation an element of the longer (AddOp) or shorter (DelOp) sequence stands for. */
  function AddOp(reverse: bool): Op { if reverse then Delete else Add }

  function DelOp(reverse: bool): Op { if reverse then Add else Delete }

  function CommonRun<T>(a: seq<T>, x: int, x': int): (s: seq<Edit<T>>)
    requires 0 <= x <= x' <= |a|
    ensures |s| == x' - x
  {
    seq(x' - x, i requires 0 <= i < x' - x => Edit(a[x + i], Common))
  }

  /** The edits of one leg: its insertion or deletion, if any, then the common tokens. */
  function LegEdits<T>(a: seq<T>, b: seq<T>, reverse: bool, fx: int, fy: int, x: int, y: int): (s: seq<Edit<T>>)
    requires Leg(a, b, fx, fy, x, y)
  {
    LegStep(a, b, reverse, fx, fy, x, y) + CommonRun(a, StartX(fx, fy, y - x), x)
  }

  function LegStep<T>(a: seq<T>, b: seq<T>, reverse: bool, fx: int, fy: int, x: int, y: int): (s: seq<Edit<T>>)
    requires Leg(a, b, fx, fy, x, y)
  {
    if y - x > fy - fx then [Edit(b[fy], AddOp(reverse))]
    else if y - x < fy - fx then [Edit(a[fx], DelOp(reverse))]
    else []
  }

  // Replaying a leg entry by entry, as the two script builders do.

  /** (px, py) is where a replay of the leg can stand: its origin, or a point of its snake. */
  ghost predicate InLeg<T>(a: seq<T>, b: seq<T>, fx: int, fy: int, x: int, y: int, px: int, py: int) {
    && Leg(a, b, fx, fy, x, y)
    && 0 <= px <= x && 0 <= py <= y
    && ((px == fx && py == fy) || (py - px == y - x && px >= StartX(fx, fy, y - x)))
  }

  /** The edits replayed so far. */
  function LegPrefix<T>(a: seq<T>, b: seq<T>, reverse: bool, fx: int, fy: int, x: int, y: int,
                        px: int, py: int): seq<Edit<T>>
    requires InLeg(a, b, fx, fy, x, y, px, py)
  {
    if py - px == y - x then LegStep(a, b, reverse, fx, fy, x, y) + CommonRun(a, StartX(fx, fy, y - x), px) else []
  }

  lemma LegFirst<T>(a: seq<T>, b: seq<T>, reverse: bool, fx: int, fy: int, x: int, y: int, px: int, py: int)
    requires InLeg(a, b, fx, fy, x, y, px, py) && py - px != y - x
    ensures var px' := if y - x > py - px then px else px + 1;
            var py' := if y - x > py - px then py + 1 else py;
            && px' <= |a| && py' <= |b|
            && InLeg(a, b, fx, fy, x, y, px', py')
            && LegPrefix(a, b, reverse, fx, fy, x, y, px, py) == []
            && LegPrefix(a, b, reverse, fx, fy, x, y, px', py')
               == [if y - x > py - px then Edit(b[py], AddOp(reverse)) else Edit(a[px], DelOp(reverse))]
  {
    var sx := StartX(fx, fy, y - x);
    assert px == fx && py == fy;
    assert CommonRun(a, sx, sx) == [];
  }

  lemma LegCommon<T>(a: seq<T>, b: seq<T>, reverse: bool, fx: int, fy: int, x: int, y: int, px: int, py: int)
    requires InLeg(a, b, fx, fy, x, y, px, py) && py - px == y - x && (px < x || py < y)
    ensures px < |a| && InLeg(a, b, fx, fy, x, y, px + 1, py + 1)
    ensures LegPrefix(a, b, reverse, fx, fy, x, y, px + 1, py + 1)
            == LegPrefix(a, b, reverse, fx, fy, x, y, px, py) + [Edit(a[px], Common)]
  {
    var sx := StartX(fx, fy, y - x);
    CommonRunGrows(a, sx, px);
    var head, run := LegStep(a, b, reverse, fx, fy, x, y), CommonRun(a, sx, px);
    assert head + (run + [Edit(a[px], Common)]) == (head + run) + [Edit(a[px], Common)];
  }

  lemma CommonRunGrows<T>(a: seq<T>, x: int, x': int)
    requires 0 <= x <= x' < |a|
    ensures CommonRun(a, x, x' + 1) == CommonRun(a, x, x') + [Edit(a[x'], Common)]
  {
  }

  lemma LegStarts<T>(a: seq<T>, b: seq<T>, reverse: bool, fx: int, fy: int, x: int, y: int)
    requires Leg(a, b, fx, fy, x, y)
    ensures InLeg(a, b, fx, fy, x, y, fx, fy)
    ensures LegPrefix(a, b, reverse, fx, fy, x, y, fx, fy) == []
  {
    assert fy - fx == y - x ==> CommonRun(a, fx, fx) == [];
  }

  lemma LegEnds<T>(a: seq<T>, b: seq<T>, reverse: bool, fx: int, fy: int, x: int, y: int, px: int, py: int)
    requires InLeg(a, b, fx, fy, x, y, px, py) && !(px < x || py < y)
    ensures px == x && py == y
    ensures LegPrefix(a, b, reverse, fx, fy, x, y, px, py) == LegEdits(a, b, reverse, fx, fy, x, y)
  {
  }

  function Script<T>(a: seq<T>, b: seq<T>, reverse: bool, path: seq<Point>): (s: seq<Edit<T>>)
    requires IsPath(a, b, path)
  {
    if path == [] then []
    else
      Script(a, b, reverse, path[1..])
      + LegEdits(a, b, reverse, TipX(path[1..]), TipY(path[1..]), path[0].x, path[0].y)
  }

  lemma {:induction false} PathSuffix<T>(a: seq<T>, b: seq<T>, path: seq<Point>, i: nat)
    requires IsPath(a, b, path) && i <= |path|
    ensures IsPath(a, b, path[i..])
    ensures i < |path| ==>
              && Leg(a, b, TipX(path[i + 1..]), TipY(path[i + 1..]), path[i].x, path[i].y)
              && path[i..][1..] == path[i + 1..]
  {
    if i > 0 {
      PathSuffix(a, b, path, i - 1);
    } else {
      assert path[0..] == path;
    }
  }

  lemma {:induction false} CommonRunSides<T>(a: seq<T>, x: int, x': int, op: Op)
    requires 0 <= x <= x' <= |a| && op != Common
    ensures Side(CommonRun(a, x, x'), op) == a[x..x']
    ensures Count(CommonRun(a, x, x'), op) == 0
    decreases x'
  {
    if x >= x' {
    } else {
      assert CommonRun(a, x, x')[..x' - x - 1] == CommonRun(a, x, x' - 1);
      CommonRunSides(a, x, x' - 1, op);
    }
  }

  lemma StepSides<T>(a: seq<T>, b: seq<T>, reverse: bool, fx: int, fy: int, x: int, y: int)
    requires Leg(a, b, fx, fy, x, y)
    ensures var s, sx, sy := LegStep(a, b, reverse, fx, fy, x, y), StartX(fx, fy, y - x), StartY(fx, fy, y - x);
            && 0 <= fx <= sx <= x <= |a| && 0 <= fy <= sy <= y <= |b|
            && Side(s, DelOp(reverse)) == a[fx..sx]
            && Side(s, AddOp(reverse)) == b[fy..sy]
            && Count(s, DelOp(reverse)) == LegDeletions(fx, fy, y - x)
  {
    var s := LegStep(a, b, reverse, fx, fy, x, y);
    if s != [] {
      assert s[..|s| - 1] == [];
      assert Side(s[..|s| - 1], Add) == [] == Side(s[..|s| - 1], Delete);
    }
  }

  lemma LegReplays<T>(a: seq<T>, b: seq<T>, reverse: bool, fx: int, fy: int, x: int, y: int)
    requires Leg(a, b, fx, fy, x, y)
    ensures var s := LegEdits(a, b, reverse, fx, fy, x, y);
            && 0 <= fx <= x <= |a| && 0 <= fy <= y <= |b|
            && Side(s, DelOp(reverse)) == a[fx..x]
            && Side(s, AddOp(reverse)) == b[fy..y]
            && Count(s, DelOp(reverse)) == LegDeletions(fx, fy, y - x)
  {
    var sx, sy := StartX(fx, fy, y - x), StartY(fx, fy, y - x);
    RunMatches(a, b, sx, sy, x, y);
    var head, run := LegStep(a, b, reverse, fx, fy, x, y), CommonRun(a, sx, x);
    StepSides(a, b, reverse, fx, fy, x, y);
    CommonRunSides(a, sx, x, AddOp(reverse));
    CommonRunSides(a, sx, x, DelOp(reverse));
    SideAppend(head, run, AddOp(reverse));
    SideAppend(head, run, DelOp(reverse));
    CountAppend(head, run, DelOp(reverse));
    SliceJoin(a, fx, sx, x);
    SliceJoin(b, fy, sy, y);
  }

  /** Replaying a path: its script spells both prefixes it covers and makes exactly its deletions. */
  lemma {:induction false} ScriptReplays<T>(a: seq<T>, b: seq<T>, reverse: bool, path: seq<Point>)
    requires IsPath(a, b, path)
    ensures var s, x, y := Script(a, b, reverse, path), TipX(path), TipY(path);
            && 0 <= x <= |a| && 0 <= y <= |b|
            && Side(s, DelOp(reverse)) == a[..x]
            && Side(s, AddOp(reverse)) == b[..y]
            && Count(s, DelOp(reverse)) == PathDeletions(path)
    decreases |path|
  {
    if path == [] {
    } else {
      var fx, fy, x, y := TipX(path[1..]), TipY(path[1..]), path[0].x, path[0].y;
      var rest, leg := Script(a, b, reverse, path[1..]), LegEdits(a, b, reverse, fx, fy, x, y);
      ScriptReplays(a, b, reverse, path[1..]);
      LegReplays(a, b, reverse, fx, fy, x, y);
      SideAppend(rest, leg, AddOp(reverse));
      SideAppend(rest, leg, DelOp(reverse));
      CountAppend(rest, leg, DelOp(reverse));
      SliceJoin(a, 0, fx, x);
      SliceJoin(b, 0, fy, y);
    }
  }
}
