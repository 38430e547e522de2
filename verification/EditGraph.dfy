/**
 The edit graph of two sequences: longest common subsequences as the yardstick for
 edit distance, and the furthest-point facts the O(NP) algorithm rests on.
 */
module EditGraph {
  import opened EditScript

  /** Length of a longest common subsequence of a[..x] and b[..y]. */
  function Lcs<T(==)>(a: seq<T>, b: seq<T>, x: nat, y: nat): nat
    requires x <= |a| && y <= |b|
    decreases x + y
  {
    if x == 0 || y == 0 then 0
    else if a[x - 1] == b[y - 1] then 1 + Lcs(a, b, x - 1, y - 1)
    else if Lcs(a, b, x - 1, y) >= Lcs(a, b, x, y - 1) then Lcs(a, b, x - 1, y)
    else Lcs(a, b, x, y - 1)
  }

  /** Insertions and deletions a shortest script needs. */
  function EditDistance<T(==)>(a: seq<T>, b: seq<T>): (d: int)
  {
    |a| + |b| - 2 * Lcs(a, b, |a|, |b|)
  }

  /** Adding one token to either side adds at most one to the common subsequence. */
  lemma {:induction false} LcsGrows<T>(a: seq<T>, b: seq<T>, x: nat, y: nat)
    requires x <= |a| && y <= |b|
    ensures Lcs(a, b, x, y) <= x && Lcs(a, b, x, y) <= y
    ensures x < |a| ==> Lcs(a, b, x, y) <= Lcs(a, b, x + 1, y) <= Lcs(a, b, x, y) + 1
    ensures y < |b| ==> Lcs(a, b, x, y) <= Lcs(a, b, x, y + 1) <= Lcs(a, b, x, y) + 1
    decreases x + y
  {
    if x > 0 { LcsGrows(a, b, x - 1, y); }
    if y > 0 { LcsGrows(a, b, x, y - 1); }
    if x > 0 && y > 0 { LcsGrows(a, b, x - 1, y - 1); }
  }

  lemma {:induction false} LcsSymmetric<T>(a: seq<T>, b: seq<T>, x: nat, y: nat)
    requires x <= |a| && y <= |b|
    ensures Lcs(a, b, x, y) == Lcs(b, a, y, x)
    decreases x + y
  {
    if x > 0 { LcsSymmetric(a, b, x - 1, y); }
    if y > 0 { LcsSymmetric(a, b, x, y - 1); }
    if x > 0 && y > 0 { LcsSymmetric(a, b, x - 1, y - 1); }
  }

  /** No script keeps more common tokens than the longest common subsequence. */
  lemma {:induction false} CommonsBounded<T>(s: seq<Edit<T>>, a: seq<T>, b: seq<T>, x: nat, y: nat)
    requires x <= |a| && y <= |b|
    requires IsScript(s, a[..x], b[..y])
    ensures Count(s, Common) <= Lcs(a, b, x, y)
  {
    if s == [] {
    } else {
      var s', e := s[..|s| - 1], s[|s| - 1];
      if e.op != Add {
        assert Side(s, Delete)[..|Side(s, Delete)| - 1] == Side(s', Delete) && a[..x][..x - 1] == a[..x - 1];
      }
      if e.op != Delete {
        assert Side(s, Add)[..|Side(s, Add)| - 1] == Side(s', Add) && b[..y][..y - 1] == b[..y - 1];
      }
      match e.op {
        case Common =>
          assert a[x - 1] == e.text == b[y - 1];
          CommonsBounded(s', a, b, x - 1, y - 1);
        case Delete =>
          CommonsBounded(s', a, b, x - 1, y);
          LcsGrows(a, b, x - 1, y);
        case Add =>
          CommonsBounded(s', a, b, x, y - 1);
          LcsGrows(a, b, x, y - 1);
      }
    }
  }

  /** No script is shorter than the edit distance. */
  lemma ScriptsAreNoShorter<T>(s: seq<Edit<T>>, a: seq<T>, b: seq<T>)
    requires IsScript(s, a, b)
    ensures Changes(s) >= EditDistance(a, b)
  {
    assert a[..|a|] == a && b[..|b|] == b;
    CommonsBounded(s, a, b, |a|, |b|);
    SideLength(s, Delete);
    SideLength(s, Add);
  }

  /** A script that keeps a longest common subsequence. */
  function ShortestScript<T(==)>(a: seq<T>, b: seq<T>, x: nat, y: nat): seq<Edit<T>>
    requires x <= |a| && y <= |b|
    decreases x + y
  {
    if x == 0 && y == 0 then []
    else if x > 0 && y > 0 && a[x - 1] == b[y - 1] then ShortestScript(a, b, x - 1, y - 1) + [Edit(a[x - 1], Common)]
    else if y == 0 || (x > 0 && Lcs(a, b, x - 1, y) >= Lcs(a, b, x, y - 1))
    then ShortestScript(a, b, x - 1, y) + [Edit(a[x - 1], Delete)]
    else ShortestScript(a, b, x, y - 1) + [Edit(b[y - 1], Add)]
  }

  lemma {:induction false} ShortestScriptReplays<T>(a: seq<T>, b: seq<T>, x: nat, y: nat)
    requires x <= |a| && y <= |b|
    ensures var s := ShortestScript(a, b, x, y);
            IsScript(s, a[..x], b[..y]) && Changes(s) == x + y - 2 * Lcs(a, b, x, y)
    decreases x + y
  {
    hide Side, Changes, Lcs;
    LcsUnfolds(a, b, x, y);
    if x == 0 && y == 0 {
      NoEdits<T>();
    } else if x > 0 && y > 0 && a[x - 1] == b[y - 1] {
      ShortestScriptReplays(a, b, x - 1, y - 1);
      OneMore(ShortestScript(a, b, x - 1, y - 1), Edit(a[x - 1], Common));
      PrefixGrows(a, x);
      PrefixGrows(b, y);
    } else if y == 0 || (x > 0 && Lcs(a, b, x - 1, y) >= Lcs(a, b, x, y - 1)) {
      ShortestScriptReplays(a, b, x - 1, y);
      OneMore(ShortestScript(a, b, x - 1, y), Edit(a[x - 1], Delete));
      PrefixGrows(a, x);
    } else {
      ShortestScriptReplays(a, b, x, y - 1);
      OneMore(ShortestScript(a, b, x, y - 1), Edit(b[y - 1], Add));
      PrefixGrows(b, y);
    }
  }

  lemma LcsUnfolds<T>(a: seq<T>, b: seq<T>, x: nat, y: nat)
    requires x <= |a| && y <= |b|
    ensures Lcs(a, b, x, y) ==
            if x == 0 || y == 0 then 0
            else if a[x - 1] == b[y - 1] then 1 + Lcs(a, b, x - 1, y - 1)
            else if Lcs(a, b, x - 1, y) >= Lcs(a, b, x, y - 1) then Lcs(a, b, x - 1, y)
            else Lcs(a, b, x, y - 1)
    ensures x == 0 && y > 0 ==> Lcs(a, b, x, y - 1) == 0
    ensures y == 0 && x > 0 ==> Lcs(a, b, x - 1, y) == 0
  {
  }

  lemma PrefixGrows<T>(a: seq<T>, x: nat)
    requires 0 < x <= |a|
    ensures a[..x] == a[..x - 1] + [a[x - 1]]
  {
  }

  lemma NoEdits<T>()
    ensures IsScript<T>([], [], []) && Changes<T>([]) == 0
  {
  }

  lemma OneMore<T>(s: seq<Edit<T>>, e: Edit<T>)
    ensures Changes(s + [e]) == Changes(s) + if e.op == Common then 0 else 1
    ensures Side(s + [e], Delete) == if e.op == Add then Side(s, Delete) else Side(s, Delete) + [e.text]
    ensures Side(s + [e], Add) == if e.op == Delete then Side(s, Add) else Side(s, Add) + [e.text]
  {
    assert (s + [e])[..|s + [e]| - 1] == s;
  }

  /** For any two sequences the edit distance is reached, and no script gets below it. */
  lemma EditDistanceIsLeast<T(!new)>(a: seq<T>, b: seq<T>)
    ensures exists s: seq<Edit<T>> :: IsScript(s, a, b) && Changes(s) == EditDistance(a, b)
    ensures forall s: seq<Edit<T>> :: IsScript(s, a, b) ==> Changes(s) >= EditDistance(a, b)
  {
    ShortestScriptReplays(a, b, |a|, |b|);
    assert a[..|a|] == a && b[..|b|] == b;
    forall s: seq<Edit<T>> | IsScript(s, a, b) ensures Changes(s) >= EditDistance(a, b) {
      ScriptsAreNoShorter(s, a, b);
    }
  }

  /** Sequences without a common token have nothing to keep. */
  lemma {:induction false} NothingInCommon<T>(a: seq<T>, b: seq<T>, x: nat, y: nat)
    requires x <= |a| && y <= |b|
    requires forall i, j :: 0 <= i < |a| && 0 <= j < |b| ==> a[i] != b[j]
    ensures Lcs(a, b, x, y) == 0
    decreases x + y
  {
    if x == 0 || y == 0 {
    } else {
      NothingInCommon(a, b, x - 1, y);
      NothingInCommon(a, b, x, y - 1);
    }
  }

  // ----- the furthest-point theory of the O(NP) algorithm -----

  /** Deletions from the shorter side that a best path to (x, y) makes. */
  function Deletions<T(==)>(a: seq<T>, b: seq<T>, x: nat, y: nat): (d: int)
    requires x <= |a| && y <= |b|
  {
    x - Lcs(a, b, x, y)
  }

  /**
   The compressed distance of a best path to (x, y): its deletions, plus the insertions by which
   it has overshot the target diagonal.
   */
  function Compressed<T(==)>(a: seq<T>, b: seq<T>, x: nat, y: nat): (d: int)
    requires x <= |a| && y <= |b|
  {
    Deletions(a, b, x, y) + Overshoot(a, b, y - x)
  }

  function Overshoot<T>(a: seq<T>, b: seq<T>, k: int): (d: nat)
  {
    if k > |b| - |a| then k - (|b| - |a|) else 0
  }

  predicate InGrid<T>(a: seq<T>, b: seq<T>, k: int, y: int) {
    0 <= y <= |b| && 0 <= y - k <= |a|
  }

  /** No point of diagonal k within compressed distance q lies beyond y. */
  ghost predicate Furthest<T>(a: seq<T>, b: seq<T>, k: int, q: int, y: int) {
    forall y' {:trigger InGrid(a, b, k, y')} ::
      InGrid(a, b, k, y') && Compressed(a, b, y' - k, y') <= q ==> y' <= y
  }

  /** A matching run leads from (xs, ys) to (x, y) along one diagonal. */
  predicate Run<T(==)>(a: seq<T>, b: seq<T>, xs: int, ys: int, x: int, y: int)
    decreases x
  {
    && 0 <= xs <= x <= |a| && 0 <= ys <= y <= |b| && y - x == ys - xs
    && (xs < x ==> a[x - 1] == b[y - 1] && Run(a, b, xs, ys, x - 1, y - 1))
  }

  lemma {:induction false} RunMatches<T>(a: seq<T>, b: seq<T>, xs: int, ys: int, x: int, y: int)
    requires Run(a, b, xs, ys, x, y)
    ensures a[xs..x] == b[ys..y]
    decreases x
  {
    if xs >= x {
    } else {
      RunMatches(a, b, xs, ys, x - 1, y - 1);
      assert a[xs..x] == a[xs..x - 1] + [a[x - 1]];
      assert b[ys..y] == b[ys..y - 1] + [b[y - 1]];
    }
  }

  /** The run cannot be continued past (x, y). */
  predicate Stuck<T(==)>(a: seq<T>, b: seq<T>, x: int, y: int)
    requires 0 <= x <= |a| && 0 <= y <= |b|
  {
    x == |a| || y == |b| || a[x] != b[y]
  }

  /**
   The heart of the algorithm: if the two neighbouring diagonals are furthest at the levels the
   algorithm visits them with, the snake from the better neighbour is furthest on this one.
   */
  lemma {:induction false} SnakeIsFurthest<T>(a: seq<T>, b: seq<T>, k: int, q: nat, below: int, above: int, y: int)
    requires |a| <= |b|
    requires Furthest(a, b, k - 1, if k > |b| - |a| then q - 1 else q, below)
    requires Furthest(a, b, k + 1, if k < |b| - |a| then q - 1 else q, above)
    requires InGrid(a, b, k, y) && y >= below + 1 && y >= above
    requires Stuck(a, b, y - k, y)
    ensures Furthest(a, b, k, q, y)
  {
    forall y' {:trigger InGrid(a, b, k, y')} | InGrid(a, b, k, y') && Compressed(a, b, y' - k, y') <= q
      ensures y' <= y
    {
      NotBeyond(a, b, k, q, below, above, y, y');
    }
  }

  lemma {:induction false} NotBeyond<T>(a: seq<T>, b: seq<T>, k: int, q: nat, below: int, above: int, y: int, y': int)
    requires |a| <= |b|
    requires Furthest(a, b, k - 1, if k > |b| - |a| then q - 1 else q, below)
    requires Furthest(a, b, k + 1, if k < |b| - |a| then q - 1 else q, above)
    requires InGrid(a, b, k, y) && y >= below + 1 && y >= above
    requires Stuck(a, b, y - k, y)
    requires InGrid(a, b, k, y') && Compressed(a, b, y' - k, y') <= q
    ensures y' <= y
    decreases y'
  {
    var x' := y' - k;
    if x' == 0 || y' == 0 {
      assert y' <= y;
    } else if a[x' - 1] == b[y' - 1] {
      assert InGrid(a, b, k, y' - 1);
      NotBeyond(a, b, k, q, below, above, y, y' - 1);
    } else if Lcs(a, b, x' - 1, y') >= Lcs(a, b, x', y' - 1) {
      assert InGrid(a, b, k + 1, y');
      assert Compressed(a, b, x' - 1, y') <= if k < |b| - |a| then q - 1 else q;
    } else {
      assert InGrid(a, b, k - 1, y' - 1);
      assert Compressed(a, b, x', y' - 1) <= if k > |b| - |a| then q - 1 else q;
    }
  }

  /** Diagonals the algorithm has not opened at level q hold no point within q. */
  lemma UnopenedIsEmpty<T>(a: seq<T>, b: seq<T>, k: int, q: int)
    requires |a| <= |b|
    requires q < 0 || k < -q || k > |b| - |a| + q
    ensures Furthest(a, b, k, q, -1)
  {
    forall y {:trigger InGrid(a, b, k, y)} | InGrid(a, b, k, y)
      ensures Compressed(a, b, y - k, y) > q
    {
      LcsGrows(a, b, y - k, y);
    }
  }
}
