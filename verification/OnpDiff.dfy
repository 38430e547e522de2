/** ONPDiff: the O(NP) sequence comparison with its three kinds of edit script. */
module OnpDiff {
  import opened Options
  import opened EditScript
  import opened EditGraph
  import opened OnpPath
  import opened OnpFront
  import opened ShortScript
  import opened ParagraphScript

  /** `compose` gives up when this many deletions have not been enough. */
  const CUT_OFF := 1000

  /** Deletions a shortest script needs from the shorter sequence. */
  function LeastDeletions(a: seq<string>, b: seq<string>): int {
    (if |a| <= |b| then |a| else |b|) - Lcs(a, b, |a|, |b|)
  }

  /** What `compose` returns: a shortest path, or nothing at all once the cut-off is reached. */
  ghost predicate IsResult(a: seq<string>, b: seq<string>, path: seq<Point>)
    requires |a| <= |b|
  {
    && IsPath(a, b, path)
    && if LeastDeletions(a, b) >= CUT_OFF then path == []
       else TipX(path) == |a| && TipY(path) == |b| && PathDeletions(path) == LeastDeletions(a, b)
  }

  class ONPDiff {
    ghost const before: seq<string>
    ghost const after: seq<string>
    const a: seq<string>
    const b: seq<string>
    const m: nat
    const n: nat
    const reverse: bool
    const offset: nat
    const delta: nat
    var backtrack: seq<Entry>
    ghost var dels: seq<nat>
    var path: array?<int>
    var shortestPath: Option<seq<Point>>
    var fullScript: Option<seq<Edit<string>>>
    var shortScript: Option<seq<Edit<string>>>
    var paragraphScript: Option<seq<Edit<string>>>

    ghost predicate Sides() {
      && reverse == (|before| > |after|)
      && a == (if reverse then after else before)
      && b == (if reverse then before else after)
      && m == |a| && n == |b| && offset == m + 1 && delta == n - m
    }

    ghost predicate Valid()
      reads this
    {
      && Sides()
      && (shortestPath == None ==> backtrack == [] && dels == [])
      && (shortestPath.Some? ==> IsResult(a, b, shortestPath.value))
      && (fullScript.Some? ==> shortestPath.Some? && fullScript.value == Script(a, b, reverse, shortestPath.value))
      && (shortScript.Some? ==>
            shortestPath.Some? && shortScript.value == Compress(Script(a, b, reverse, shortestPath.value)))
      && (paragraphScript.Some? ==>
            fullScript.Some? && paragraphScript.value == Paragraphs(fullScript.value))
    }

    constructor (before: seq<string>, after: seq<string>)
      ensures Valid() && this.before == before && this.after == after
      ensures shortestPath == None
    {
      this.before, this.after := before, after;
      var swap := |before| > |after|;
      var x := if swap then after else before;
      var y := if swap then before else after;
      a, b, m, n, reverse := x, y, |x|, |y|, swap;
      offset, delta := |x| + 1, |y| - |x|;
      backtrack, dels, path, shortestPath := [], [], null, None;
      fullScript, shortScript, paragraphScript := None, None, None;
    }

    /** Follows common tokens from the better neighbour of diagonal k and records the point reached. */
    method Snake(k: int, p: int, pp: int) returns (y: int)
      requires Sides() && path != null && |backtrack| == |dels|
      requires 0 <= k - 1 + offset && k + 1 + offset < path.Length
      requires var r := BetterR(p - 1, pp, path[k - 1 + offset], path[k + 1 + offset]);
               -1 <= r < |backtrack|
      requires InGrid(a, b, k, BetterY(p - 1, pp))
      modifies path, this`backtrack, this`dels
      ensures InGrid(a, b, k, y)
      ensures var ys := BetterY(p - 1, pp); Run(a, b, ys - k, ys, y - k, y)
      ensures Stuck(a, b, y - k, y)
      ensures var r := BetterR(p - 1, pp, old(path[k - 1 + offset]), old(path[k + 1 + offset]));
              && backtrack == old(backtrack) + [Entry(y - k, y, r)]
              && dels == old(dels) + [Recorded(old(backtrack), old(dels), r, k)]
      ensures path[..] == old(path[..])[k + offset := |old(backtrack)|]
    {
      var r := if p > pp then path[k - 1 + offset] else path[k + 1 + offset];
      y := if p > pp then p else pp;
      var x := y - k;
      ghost var xs, ys := x, y;
      while x < m && y < n && a[x] == b[y]
        invariant Run(a, b, xs, ys, x, y)
      {
        x := x + 1;
        y := y + 1;
      }
      path[k + offset] := |backtrack|;
      dels := dels + [Recorded(backtrack, dels, r, k)];
      backtrack := backtrack + [Entry(x, y, r)];
    }

    /** The assignment `fp[k + @offset] = snake(...)`, which the three parts of a level share. */
    method Visit(fp: array<int>, k: int, ghost p: int, ghost lo: int, ghost hi: int)
      requires Sides() && path != null && fp != path
      requires Front(a, b, backtrack, dels, p, lo, hi, fp[..], path[..]) && Next(a, b, p, lo, hi, k)
      modifies fp, path, this`backtrack, this`dels
      ensures var (lo', hi') := if k == lo then (lo + 1, hi) else (lo, hi - 1);
              Front(a, b, backtrack, dels, p, lo', hi', fp[..], path[..])
    {
      hide Front, Next, Recorded, Run;
      ghost var i, f, r, arena, d := k + offset, fp[..], path[..], backtrack, dels;
      FrontReady(a, b, arena, d, p, lo, hi, k, f, r, i);
      var y := Snake(k, fp[k - 1 + offset] + 1, fp[k + 1 + offset]);
      FrontAdvances(a, b, arena, d, p, lo, hi, k, f, r, i, backtrack[|arena|],
                    if k == lo then lo + 1 else lo, if k == lo then hi else hi - 1);
      fp[k + offset] := y;
      assert fp[..] == f[i := y];
    }

    /** One round of the outer loop: every diagonal within p of the corner's is brought to level p. */
    method RunLevel(fp: array<int>, p: int)
      requires Sides() && path != null && fp != path && 0 <= p <= m
      requires Front(a, b, backtrack, dels, p, -p, n + 1, fp[..], path[..])
      modifies fp, path, this`backtrack, this`dels
      ensures Front(a, b, backtrack, dels, p, delta + 1, delta, fp[..], path[..])
    {
      var k := -p;
      while k <= delta - 1
        invariant -p <= k <= delta
        invariant Front(a, b, backtrack, dels, p, k, n + 1, fp[..], path[..])
      {
        Visit(fp, k, p, k, n + 1);
        k := k + 1;
      }
      SecondHalf(a, b, backtrack, dels, p, fp[..], path[..]);
      k := delta + p;
      while k >= delta + 1
        invariant delta <= k <= delta + p
        invariant Front(a, b, backtrack, dels, p, delta, k, fp[..], path[..])
      {
        Visit(fp, k, p, delta, k);
        k := k - 1;
      }
      Visit(fp, delta, p, delta, delta);
    }

    /** The outer loop: levels 0, 1, ... until the corner is reached or the cut-off is. */
    method ReachCorner(fp: array<int>) returns (found: bool)
      requires Sides() && path != null && fp != path && path.Length == fp.Length == m + n + 3
      requires Front(a, b, backtrack, dels, 0, 0, n + 1, fp[..], path[..])
      modifies fp, path, this`backtrack, this`dels
      ensures found <==> LeastDeletions(a, b) < CUT_OFF
      ensures found ==>
                && ArenaOk(a, b, backtrack, dels)
                && var r := path[delta + offset];
                   && 0 <= r < |backtrack| && backtrack[r].x == m && backtrack[r].y == n
                   && dels[r] == LeastDeletions(a, b)
    {
      hide Front, ArenaOk, Lcs;
      LcsGrows(a, b, m, n);
      var p := -1;
      while true
        invariant fp.Length == path.Length
        invariant -1 <= p < LeastDeletions(a, b) && p < CUT_OFF
        invariant Front(a, b, backtrack, dels, p + 1, -(p + 1), n + 1, fp[..], path[..])
        decreases m - p
      {
        p := p + 1;
        if p >= CUT_OFF {
          return false;
        }
        RunLevel(fp, p);
        LevelVerdict(a, b, backtrack, dels, p, fp[..], path[..], delta + offset);
        if fp[delta + offset] == n {
          return true;
        }
      }
    }

    /** A shortest path from (0, 0) to (m, n), end first, or the empty one when the cut-off is reached. */
    method Compose() returns (result: seq<Point>)
      requires Valid()
      modifies this`backtrack, this`dels, this`path, this`shortestPath
      ensures Valid() && shortestPath == Some(result)
      ensures old(shortestPath.Some?) ==> shortestPath == old(shortestPath)
    {
      if shortestPath.Some? {
        return shortestPath.value;
      }
      var size := m + n + 3;
      var fp := new int[size](_ => -1);
      path := new int[size](_ => -1);
      FrontStarts(a, b, fp[..], path[..]);
      var found := ReachCorner(fp);
      result := [];
      if found {
        result := Trace(path[delta + offset]);
      }
      shortestPath := Some(result);
    }

    /** Follows the predecessors of arena entry r back to the root. */
    method Trace(start: int) returns (result: seq<Point>)
      requires ArenaOk(a, b, backtrack, dels) && 0 <= start < |backtrack|
      ensures IsPath(a, b, result) && PathDeletions(result) == dels[start]
      ensures TipX(result) == backtrack[start].x && TipY(result) == backtrack[start].y
    {
      result := [];
      var r := start;
      while r != -1
        invariant -1 <= r < |backtrack|
        invariant result + Chain(a, b, backtrack, dels, r) == Chain(a, b, backtrack, dels, start)
        decreases r + 1
      {
        assert EntryOk(a, b, backtrack, dels, r);
        ghost var rest := Chain(a, b, backtrack, dels, backtrack[r].r);
        assert result + ([Point(backtrack[r].x, backtrack[r].y)] + rest)
            == (result + [Point(backtrack[r].x, backtrack[r].y)]) + rest;
        result := result + [Point(backtrack[r].x, backtrack[r].y)];
        r := backtrack[r].r;
      }
      assert result == Chain(a, b, backtrack, dels, start);
      ChainIsPath(a, b, backtrack, dels, start);
    }

    /** The inner loop of `build_edit_script`: one leg, entry by entry. */
    method ReplayLeg(base: seq<Edit<string>>, fx: int, fy: int, x: int, y: int) returns (ses: seq<Edit<string>>)
      requires Leg(a, b, fx, fy, x, y)
      ensures ses == base + LegEdits(a, b, reverse, fx, fy, x, y)
    {
      ses := base;
      var px, py := fx, fy;
      LegStarts(a, b, reverse, fx, fy, x, y);
      while px < x || py < y
        invariant InLeg(a, b, fx, fy, x, y, px, py)
        invariant ses == base + LegPrefix(a, b, reverse, fx, fy, x, y, px, py)
        decreases x - px + y - py
      {
        if y - x > py - px {
          LegFirst(a, b, reverse, fx, fy, x, y, px, py);
          ses := ses + [Edit(b[py], if reverse then Delete else Add)];
          py := py + 1;
        } else if y - x < py - px {
          LegFirst(a, b, reverse, fx, fy, x, y, px, py);
          ses := ses + [Edit(a[px], if reverse then Add else Delete)];
          px := px + 1;
        } else {
          LegCommon(a, b, reverse, fx, fy, x, y, px, py);
          ses := ses + [Edit(a[px], Common)];
          px := px + 1;
          py := py + 1;
        }
      }
      LegEnds(a, b, reverse, fx, fy, x, y, px, py);
    }

    /** Replays a path from its root, leg by leg. */
    method BuildEditScript(shortest: seq<Point>) returns (ses: seq<Edit<string>>)
      requires IsPath(a, b, shortest)
      ensures ses == Script(a, b, reverse, shortest)
    {
      ses := [];
      var px, py := 0, 0;
      var i := |shortest| - 1;
      PathSuffix(a, b, shortest, |shortest|);
      while i >= 0
        invariant -1 <= i < |shortest|
        invariant IsPath(a, b, shortest[i + 1..])
        invariant px == TipX(shortest[i + 1..]) && py == TipY(shortest[i + 1..])
        invariant ses == Script(a, b, reverse, shortest[i + 1..])
      {
        PathSuffix(a, b, shortest, i);
        ses := ReplayLeg(ses, px, py, shortest[i].x, shortest[i].y);
        px, py := shortest[i].x, shortest[i].y;
        i := i - 1;
      }
      assert shortest[0..] == shortest;
    }

    /** The inner loop of `build_short_edit_script`: the same walk, extending the last entry where it can. */
    method ReplayLegShort(base: seq<Edit<string>>, ghost full: seq<Edit<string>>, fx: int, fy: int, x: int, y: int)
      returns (ses: seq<Edit<string>>)
      requires Leg(a, b, fx, fy, x, y) && base == Compress(full)
      ensures ses == Compress(full + LegEdits(a, b, reverse, fx, fy, x, y))
    {
      hide Compress, Push, LegPrefix, LegEdits;
      ses := base;
      var px, py := fx, fy;
      ghost var done := [];
      LegStarts(a, b, reverse, fx, fy, x, y);
      assert full + done == full;
      while px < x || py < y
        invariant InLeg(a, b, fx, fy, x, y, px, py)
        invariant done == LegPrefix(a, b, reverse, fx, fy, x, y, px, py)
        invariant ses == Compress(full + done)
        decreases x - px + y - py
      {
        var e;
        if y - x > py - px {
          LegFirst(a, b, reverse, fx, fy, x, y, px, py);
          e := Edit(b[py], if reverse then Delete else Add);
          py := py + 1;
        } else if y - x < py - px {
          LegFirst(a, b, reverse, fx, fy, x, y, px, py);
          e := Edit(a[px], if reverse then Add else Delete);
          px := px + 1;
        } else {
          LegCommon(a, b, reverse, fx, fy, x, y, px, py);
          e := Edit(a[px], Common);
          px := px + 1;
          py := py + 1;
        }
        CompressSnoc(full, done, e);
        ses := Push(ses, e);
        done := done + [e];
      }
      LegEnds(a, b, reverse, fx, fy, x, y, px, py);
    }

    method BuildShortEditScript(shortest: seq<Point>) returns (ses: seq<Edit<string>>)
      requires IsPath(a, b, shortest)
      ensures ses == Compress(Script(a, b, reverse, shortest))
    {
      ses := [];
      var px, py := 0, 0;
      var i := |shortest| - 1;
      PathSuffix(a, b, shortest, |shortest|);
      while i >= 0
        invariant -1 <= i < |shortest|
        invariant IsPath(a, b, shortest[i + 1..])
        invariant px == TipX(shortest[i + 1..]) && py == TipY(shortest[i + 1..])
        invariant ses == Compress(Script(a, b, reverse, shortest[i + 1..]))
      {
        PathSuffix(a, b, shortest, i);
        ses := ReplayLegShort(ses, Script(a, b, reverse, shortest[i + 1..]), px, py, shortest[i].x, shortest[i].y);
        px, py := shortest[i].x, shortest[i].y;
        i := i - 1;
      }
      assert shortest[0..] == shortest;
    }

    /** ses[i] is paired with the entry as far into the second half, and so on. */
    method PairParagraphs(ses: seq<Edit<string>>, i: nat, j: nat) returns (pairs: seq<Edit<string>>)
      requires i <= j && j + 1 + (j - i + 1) <= |ses|
      ensures pairs == Interleave(ses, i, j + 1, j - i + 1)
    {
      pairs := [];
      var numPairs := j - i + 1;
      var i' := i;
      for t := 0 to numPairs
        invariant i' == i + t
        invariant pairs == Interleave(ses, i, i + numPairs, t)
      {
        pairs := pairs + [ses[i']];
        pairs := pairs + [ses[i' + numPairs]];
        i' := i' + 1;
      }
    }

    method BuildParagraphEditScript(ses: seq<Edit<string>>) returns (paragraphSes: seq<Edit<string>>)
      ensures paragraphSes == Paragraphs(ses)
    {
      paragraphSes := [];
      var i := 0;
      BuildStarts(ses);
      while i < |ses|
        invariant BuiltUpTo(ses, i, paragraphSes)
      {
        BuildNext(ses, i, paragraphSes);
        if ses[i].op == Common {
          paragraphSes := paragraphSes + [ses[i]];
          i := i + 1;
        } else {
          var block;
          block, i := ParagraphBlock(ses, i);
          paragraphSes := paragraphSes + block;
        }
      }
      BuildEnds(ses, paragraphSes);
    }

    /** `j += 1 while j < ses.size && ses[j][1] == op` */
    method ScanRun(ses: seq<Edit<string>>, i: nat, op: Op) returns (j: nat)
      requires i <= |ses|
      ensures j == RunEnd(ses, i, op)
    {
      j := i;
      while j < |ses| && ses[j].op == op
        invariant i <= j <= |ses| && RunEnd(ses, i, op) == RunEnd(ses, j, op)
      {
        j := j + 1;
      }
    }

    /** The body of the loop for an entry that is not common: the block at `start` and its end. */
    method ParagraphBlock(ses: seq<Edit<string>>, start: nat) returns (block: seq<Edit<string>>, end: int)
      requires start < |ses| && ses[start].op != Common
      ensures block == Block(ses, start) && end == BlockEnd(ses, start)
    {
      hide Interleave, RunEnd;
      var i := start;
      var opCode := if ses[i].op == Add then Add else Delete;
      var oppositeOpCode := if ses[i].op == Add then Delete else Add;
      RunEndStep(ses, i);
      var j := ScanRun(ses, i + 1, opCode);
      if j >= |ses| {
        RunEndStop(ses, oppositeOpCode);
        return ses[i..], j;
      }
      var k := ScanRun(ses, j, oppositeOpCode);
      block, end := RewriteBlock(ses, i, j - 1, k - 1);
    }

    /** The rest of that body: i..j is the run, j + 1..k the entries of opposite operation behind it. */
    method RewriteBlock(ses: seq<Edit<string>>, start: nat, j: nat, last: int)
      returns (block: seq<Edit<string>>, end: int)
      requires start < |ses| && ses[start].op != Common
      requires j + 1 == BeforeEnd(ses, start) && last + 1 == AfterEnd(ses, start)
      ensures block == Block(ses, start) && end == BlockEnd(ses, start)
    {
      hide Interleave, BeforeEnd, AfterEnd;
      var i, k := start, last;
      var numBefore := j - i + 1;
      var numAfter := k - j;
      if numAfter > 1 {
        if numBefore > numAfter {
          var i2 := i + numBefore - numAfter;
          block := ses[i..i2];
          i := i2;
          var pairs := PairParagraphs(ses, i, j);
          block := block + pairs;
        } else {
          k := k - (numAfter - numBefore);
          block := PairParagraphs(ses, i, j);
        }
      } else {
        block := ses[i..k + 1];
      }
      end := k + 1;
    }

    ghost function FullScript(): seq<Edit<string>>
      reads this
      requires Valid() && shortestPath.Some?
    {
      Script(a, b, reverse, shortestPath.value)
    }

    /** The scripts of an object are three views of one shortest path, computed once. */
    twostate predicate Kept()
      reads this
    {
      Valid() && shortestPath.Some? && (old(Valid() && shortestPath.Some?) ==> FullScript() == old(FullScript()))
    }

    lemma FullScriptIsDiff()
      requires Valid() && shortestPath.Some?
      ensures IsDiff(before, after, FullScript())
    {
      var s := FullScript();
      LcsSymmetric(a, b, m, n);
      ScriptReplays(a, b, reverse, shortestPath.value);
      SideLength(s, Add);
      SideLength(s, Delete);
      assert a[..m] == a && b[..n] == b;
    }

    /** `diff` */
    method Diff() returns (ses: seq<Edit<string>>)
      requires Valid()
      modifies this
      ensures Valid() && shortestPath.Some? && Kept()
      ensures ses == FullScript() && fullScript == Some(ses) && IsDiff(before, after, ses)
    {
      if fullScript == None {
        var shortest := Compose();
        ses := BuildEditScript(shortest);
        fullScript := Some(ses);
      }
      ses := fullScript.value;
      FullScriptIsDiff();
    }

    /** `short_diff` */
    method ShortDiff() returns (ses: seq<Edit<string>>)
      requires Valid()
      modifies this
      ensures Valid() && shortestPath.Some? && Kept()
      ensures ses == Compress(FullScript()) && IsDiff(before, after, FullScript())
    {
      if shortScript == None {
        var shortest := Compose();
        ses := BuildShortEditScript(shortest);
        shortScript := Some(ses);
      }
      ses := shortScript.value;
      FullScriptIsDiff();
    }

    /** `paragraph_diff` */
    method ParagraphDiff() returns (ses: seq<Edit<string>>)
      requires Valid()
      modifies this
      ensures Valid() && shortestPath.Some? && Kept()
      ensures ses == Paragraphs(FullScript()) && IsDiff(before, after, FullScript())
    {
      if paragraphScript == None {
        var full := Diff();
        ses := BuildParagraphEditScript(full);
        paragraphScript := Some(ses);
      }
      ses := paragraphScript.value;
      FullScriptIsDiff();
    }
  }

  // ----- what the scripts promise -----

  /** The promise of `diff`: a script of the least possible size, or nothing past the cut-off. */
  ghost predicate IsDiff(before: seq<string>, after: seq<string>, s: seq<Edit<string>>) {
    if LeastDeletions(before, after) >= CUT_OFF then s == []
    else IsScript(s, before, after) && Changes(s) == EditDistance(before, after)
  }

  /** No script whatsoever makes fewer insertions and deletions. */
  lemma DiffIsShortest(before: seq<string>, after: seq<string>, s: seq<Edit<string>>, t: seq<Edit<string>>)
    requires IsDiff(before, after, s) && LeastDeletions(before, after) < CUT_OFF
    requires IsScript(t, before, after)
    ensures Changes(s) <= Changes(t)
  {
    ScriptsAreNoShorter(t, before, after);
  }

  /** A diff replays to both inputs exactly when the cut-off is not reached. */
  lemma DiffReplays(before: seq<string>, after: seq<string>, s: seq<Edit<string>>)
    requires IsDiff(before, after, s)
    ensures IsScript(s, before, after) <==> LeastDeletions(before, after) < CUT_OFF
  {
    LcsGrows(before, after, |before|, |after|);
  }

  /** Merging and pairing keep that: both texts, and both token lists, come through. */
  lemma ShortDiffReplays(before: seq<string>, after: seq<string>, full: seq<Edit<string>>)
    requires IsScript(full, before, after)
    ensures Text(Compress(full), Delete) == Join(before) && Text(Compress(full), Add) == Join(after)
    ensures Alternating(Compress(full))
  {
    CompressKeepsText(full, Delete);
    CompressKeepsText(full, Add);
    CompressAlternates(full);
  }

  lemma ParagraphDiffReplays(before: seq<string>, after: seq<string>, full: seq<Edit<string>>)
    requires IsScript(full, before, after)
    ensures IsScript(Paragraphs(full), before, after)
  {
    ParagraphsKeepSides(full, Delete);
    ParagraphsKeepSides(full, Add);
  }

  // ----- PostRevisor#diff_size -----

  /** A string as ONPDiff sees it. */
  function Chars(s: string): (r: seq<string>)
    ensures |r| == |s|
  {
    seq(|s|, i requires 0 <= i < |s| => [s[i]])
  }

  function DiffSizeOf(before: string, after: string): int {
    if LeastDeletions(Chars(before), Chars(after)) >= CUT_OFF then 0
    else EditDistance(Chars(before), Chars(after))
  }

  /** The text size of everything that is not common in the short diff. */
  method DiffSize(before: string, after: string) returns (size: nat)
    ensures size == DiffSizeOf(before, after)
  {
    var onp := new ONPDiff(Chars(before), Chars(after));
    var ses := onp.ShortDiff();
    MeasuresDistance(before, after, onp.FullScript());
    hide *;
    size := 0;
    for i := 0 to |ses|
      invariant size == ChangedText(ses[..i])
    {
      ChangedTextNext(ses, i);
      size := size + (if ses[i].op == Common then 0 else |ses[i].text|);
    }
    assert ses[..|ses|] == ses;
  }

  lemma ChangedTextNext(s: seq<Edit<string>>, i: nat)
    requires i < |s|
    ensures ChangedText(s[..i + 1]) == ChangedText(s[..i]) + if s[i].op == Common then 0 else |s[i].text|
  {
    assert s[..i + 1][..i] == s[..i];
  }

  /** The text a diff of two strings changes. */
  lemma MeasuresDistance(before: string, after: string, full: seq<Edit<string>>)
    requires IsDiff(Chars(before), Chars(after), full)
    ensures ChangedText(Compress(full)) == DiffSizeOf(before, after)
  {
    CompressKeepsSize(full);
    if full != [] {
      CharacterScript(full, before, after);
    }
  }

  lemma CharacterScript(s: seq<Edit<string>>, before: string, after: string)
    requires IsScript(s, Chars(before), Chars(after))
    ensures ChangedText(s) == Changes(s)
  {
    forall i | 0 <= i < |s| ensures |s[i].text| == 1 {
      EntryIsOnASide(s, i);
    }
    CharactersCountAsEdits(s);
  }

  /** `diff_size` is the character edit distance exactly when the cut-off is not reached; past it, it is 0. */
  lemma DiffSizeIsDistance(before: string, after: string)
    ensures DiffSizeOf(before, after) == EditDistance(Chars(before), Chars(after))
            <==> LeastDeletions(Chars(before), Chars(after)) < CUT_OFF
  {
    LcsGrows(Chars(before), Chars(after), |before|, |after|);
  }

  /** So it is whenever one of the texts is shorter than the cut-off. */
  lemma ShortTextsAreMeasured(before: string, after: string)
    requires |before| < CUT_OFF || |after| < CUT_OFF
    ensures DiffSizeOf(before, after) == EditDistance(Chars(before), Chars(after))
  {
    LcsGrows(Chars(before), Chars(after), |before|, |after|);
  }

  /** Two texts of 1000 characters or more with none in common: everything changes, and nothing is measured. */
  lemma RewriteIsNotMeasured(before: string, after: string)
    requires |before| >= CUT_OFF && |after| >= CUT_OFF
    requires forall c :: c in before ==> c !in after
    ensures EditDistance(Chars(before), Chars(after)) == |before| + |after|
    ensures LeastDeletions(Chars(before), Chars(after)) >= CUT_OFF && DiffSizeOf(before, after) == 0
  {
    forall i, j | 0 <= i < |before| && 0 <= j < |after| ensures Chars(before)[i] != Chars(after)[j] {
      assert before[i] in before && after[j] in after;
    }
    NothingInCommon(Chars(before), Chars(after), |before|, |after|);
  }
}
