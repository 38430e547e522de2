/** Gaps: what lies between the elements of a list of which only a subset is shown. */
module Gaps {
  import opened Options

  /** The first place from `j` on that holds `e`; the length if none does. */
  function FindFrom<T(==)>(original: seq<T>, e: T, j: nat): (r: nat)
    requires j <= |original|
    ensures j <= r <= |original|
    ensures r < |original| ==> original[r] == e
    ensures forall k :: j <= k < r ==> original[k] != e
    decreases |original| - j
  {
    if j == |original| || original[j] == e then j else FindFrom(original, e, j + 1)
  }

  /** Where the search for the k-th shown element begins. */
  function Start<T(==)>(subset: seq<T>, original: seq<T>, k: nat): (r: nat)
    requires k <= |subset|
    ensures r <= |original|
  {
    if k == 0 then 0
    else
      var p := FindFrom(original, subset[k - 1], Start(subset, original, k - 1));
      if p < |original| then p + 1 else p
  }

  /** Where it ends. */
  function Place<T(==)>(subset: seq<T>, original: seq<T>, k: nat): (r: nat)
    requires k < |subset|
    ensures Start(subset, original, k) <= r <= |original|
  {
    FindFrom(original, subset[k], Start(subset, original, k))
  }

  /** The gaps before the first n shown elements; an element shown twice keeps its later gap. */
  function Befores<T(==)>(subset: seq<T>, original: seq<T>, n: nat): map<T, seq<T>>
    requires n <= |subset|
  {
    if n == 0 then map[]
    else
      var start, place := Start(subset, original, n - 1), Place(subset, original, n - 1);
      var earlier := Befores(subset, original, n - 1);
      if start < place < |original| then earlier[subset[n - 1] := original[start..place]] else earlier
  }

  /** `@subset[i - 1]`: nil for an empty subset. */
  function Last<T>(subset: seq<T>): Option<T> {
    if subset == [] then None else Some(subset[|subset| - 1])
  }

  /** The gap after the last shown element, if all of them were found. */
  function Afters<T(==)>(subset: seq<T>, original: seq<T>): map<Option<T>, seq<T>> {
    var start := Start(subset, original, |subset|);
    if start < |original| then map[Last(subset) := original[start..]] else map[]
  }

  lemma {:induction false} NothingFoundAnyMore<T>(subset: seq<T>, original: seq<T>, i: nat, n: nat)
    requires i < n <= |subset| && Place(subset, original, i) == |original|
    ensures Start(subset, original, n) == |original| && Befores(subset, original, n) == Befores(subset, original, i)
    decreases n
  {
    hide FindFrom;
    if i >= n - 1 {
    } else {
      NothingFoundAnyMore(subset, original, i, n - 1);
    }
  }

  lemma Beginning<T>(subset: seq<T>, original: seq<T>)
    ensures Start(subset, original, 0) == 0 && Befores(subset, original, 0) == map[]
  {
  }

  /** What one round of the loop finds. */
  lemma Step<T>(subset: seq<T>, original: seq<T>, i: nat, j: nat)
    requires i < |subset| && Start(subset, original, i) <= j <= Place(subset, original, i) && j < |original|
    ensures Place(subset, original, i) == j <==> original[j] == subset[i]
    ensures var start, befores := Start(subset, original, i), Befores(subset, original, i);
            original[j] == subset[i] ==>
              && Start(subset, original, i + 1) == j + 1
              && Befores(subset, original, i + 1)
                  == if start < j then befores[subset[i] := original[start..j]] else befores
  {
  }

  /** There is nothing to show, or something to search. */
  predicate Ends<T>(subset: seq<T>, original: seq<T>) {
    subset == [] || original != []
  }

  class Gaps<T(==)> {
    var before: map<T, seq<T>>
    var after: map<Option<T>, seq<T>>

    constructor (subset: Option<seq<T>>, original: Option<seq<T>>)
      requires subset.Some? && original.Some? ==> Ends(subset.value, original.value)
      ensures subset.None? || original.None? ==> before == map[] && after == map[]
      ensures subset.Some? && original.Some? ==>
                && before == Befores(subset.value, original.value, |subset.value|)
                && after == Afters(subset.value, original.value)
    {
      before, after := map[], map[];
      new;
      if subset.Some? && original.Some? {
        FindGaps(subset.value, original.value);
      }
    }

    predicate Empty()
      reads this
    {
      |before| == 0 && |after| == 0
    }

    /** `find_gaps`; what it requires is exactly that its loop ends (LoopEnds). */
    method FindGaps(subset: seq<T>, original: seq<T>)
      requires Ends(subset, original)
      requires before == map[] && after == map[]
      modifies this
      ensures before == Befores(subset, original, |subset|)
      ensures after == Afters(subset, original)
    {
      hide FindFrom, Start, Place, Befores;
      Beginning(subset, original);
      var i, j := 0, 0;
      var currentGap: seq<T> := [];
      while i < |subset|
        invariant 0 <= i <= |subset| && 0 <= j <= |original|
        invariant i < |subset| ==> j < |original|
        invariant Start(subset, original, i) <= j
        invariant currentGap == original[Start(subset, original, i)..j]
        invariant i == |subset| ==> j == Start(subset, original, i)
        invariant i < |subset| ==> Place(subset, original, i) >= j
        invariant before == Befores(subset, original, i)
        invariant after == map[]
        decreases |original| - j
      {
        Step(subset, original, i, j);
        var e1, e2 := subset[i], original[j];
        if e1 == e2 {
          if |currentGap| > 0 {
            before := before[e1 := currentGap];
            currentGap := [];
          }
          i := i + 1;
        } else {
          currentGap := currentGap + [e2];
        }
        j := j + 1;
        if i == |subset| || j == |original| {
          break;
        }
      }
      if i < |subset| {
        NothingFoundAnyMore(subset, original, i, |subset|);
      }
      if j < |original| {
        after := after[Last(subset) := original[j..]];
      }
    }
  }

  // ----- when the loop ends -----

  /** Where `i` and `j` stand after so many rounds of the loop; None once it has ended. */
  function Rounds<T(==)>(subset: seq<T>, original: seq<T>, n: nat): Option<(nat, nat)> {
    if n == 0 then if subset == [] then None else Some((0, 0))
    else
      match Rounds(subset, original, n - 1)
      case None => None
      case Some((i, j)) =>
        var i' := if i < |subset| && j < |original| && subset[i] == original[j] then i + 1 else i;
        if i' == |subset| || j + 1 == |original| then None else Some((i', j + 1))
  }

  lemma {:induction false} StillRunning<T(!new)>(subset: seq<T>, original: seq<T>, n: nat)
    requires subset != [] && (original == [] || Rounds(subset, original, n).Some?)
    ensures Rounds(subset, original, n).Some? && Rounds(subset, original, n).value.1 == n
    ensures original == [] ==> Rounds(subset, original, n).value.0 == 0
    ensures original != [] ==> n < |original|
  {
    if n == 0 {
    } else {
      StillRunning(subset, original, n - 1);
    }
  }

  /** Its two indices go along with the search for the shown elements. */
  lemma {:induction false} RoundsSearch<T>(subset: seq<T>, original: seq<T>, n: nat)
    requires Rounds(subset, original, n).Some?
    ensures var (i, j) := Rounds(subset, original, n).value;
            && i < |subset| && j == n && Start(subset, original, i) <= j
            && (j <= |original| ==> j <= Place(subset, original, i))
  {
    hide FindFrom, Befores;
    if n == 0 {
      Beginning(subset, original);
    } else {
      RoundsSearch(subset, original, n - 1);
      var (i, j) := Rounds(subset, original, n - 1).value;
      if j < |original| {
        Step(subset, original, i, j);
      }
    }
  }

  /** The loop ends exactly if there is nothing to show or something to search. */
  lemma LoopEnds<T(!new)>(subset: seq<T>, original: seq<T>)
    ensures (exists n: nat :: Rounds(subset, original, n).None?) <==> Ends(subset, original)
  {
    if Ends(subset, original) {
      if subset == [] {
        assert Rounds(subset, original, 0).None?;
      } else if Rounds(subset, original, |original|).Some? {
        StillRunning(subset, original, |original|);
        assert false;
      } else {
        assert Rounds(subset, original, |original|).None?;
      }
    } else if n: nat :| Rounds(subset, original, n).None? {
      StillRunning(subset, original, n);
    }
  }

  // ----- putting the list together again -----

  /** The first n shown elements, each after its gap. */
  function Shown<T>(subset: seq<T>, before: map<T, seq<T>>, n: nat): seq<T>
    requires n <= |subset|
  {
    if n == 0 then []
    else
      var e := subset[n - 1];
      if e in before then Shown(subset, before, n - 1) + before[e] + [e]
      else Shown(subset, before, n - 1) + [e]
  }

  function Rebuilt<T>(subset: seq<T>, before: map<T, seq<T>>, after: map<Option<T>, seq<T>>): seq<T> {
    var shown := Shown(subset, before, |subset|);
    if Last(subset) in after then shown + after[Last(subset)] else shown
  }

  ghost predicate Distinct<T(!new)>(s: seq<T>) {
    forall i, j :: 0 <= i < j < |s| ==> s[i] != s[j]
  }

  /** The shown elements stand in the list at these places. */
  ghost predicate Stands<T>(subset: seq<T>, original: seq<T>, at: seq<nat>) {
    && |at| == |subset|
    && (forall k :: 0 <= k < |at| ==> at[k] < |original| && original[at[k]] == subset[k])
    && (forall k, l :: 0 <= k < l < |at| ==> at[k] < at[l])
  }

  ghost predicate IsSubsequence<T(!new)>(subset: seq<T>, original: seq<T>) {
    exists at: seq<nat> :: Stands(subset, original, at)
  }

  /** The search finds each element no later than it stands anywhere. */
  lemma {:induction false} FoundInTime<T(!new)>(subset: seq<T>, original: seq<T>, at: seq<nat>, k: nat)
    requires Stands(subset, original, at) && k < |subset|
    ensures Place(subset, original, k) <= at[k]
  {
    hide FindFrom;
    if k > 0 {
      FoundInTime(subset, original, at, k - 1);
    }
    assert Start(subset, original, k) <= at[k];
  }

  /** With distinct elements shown, a gap once recorded stays. */
  lemma {:induction false} GapBefore<T(!new)>(subset: seq<T>, original: seq<T>, k: nat, n: nat)
    requires Distinct(subset) && k < n <= |subset|
    ensures var start, place := Start(subset, original, k), Place(subset, original, k);
            var befores := Befores(subset, original, n);
            && (subset[k] in befores <==> start < place < |original|)
            && (subset[k] in befores ==> befores[subset[k]] == original[start..place])
  {
    hide FindFrom;
    if k < n - 1 {
      GapBefore(subset, original, k, n - 1);
    } else {
      OnlyShown(subset, original, k);
    }
  }

  lemma {:induction false} OnlyShown<T(!new)>(subset: seq<T>, original: seq<T>, n: nat)
    requires n <= |subset|
    ensures forall e :: e in Befores(subset, original, n) ==> e in subset[..n]
  {
    hide FindFrom;
    if n == 0 {
    } else {
      OnlyShown(subset, original, n - 1);
      assert subset[..n] == subset[..n - 1] + [subset[n - 1]];
    }
  }

  lemma {:induction false} ShownIsPrefix<T(!new)>(subset: seq<T>, original: seq<T>, n: nat)
    requires Distinct(subset) && n <= |subset| && (n > 0 ==> Place(subset, original, n - 1) < |original|)
    ensures Shown(subset, Befores(subset, original, |subset|), n) == original[..Start(subset, original, n)]
  {
    hide FindFrom, Start, Befores, Shown;
    var before := Befores(subset, original, |subset|);
    if n == 0 {
      Beginning(subset, original);
      assert Shown(subset, before, 0) == [] by { ShownOf(subset, before, 0); }
    } else {
      var start, place := Start(subset, original, n - 1), Place(subset, original, n - 1);
      Step(subset, original, n - 1, place);
      if n > 1 && Place(subset, original, n - 2) == |original| {
        NothingFoundAnyMore(subset, original, n - 2, n - 1);
        assert false;
      }
      ShownIsPrefix(subset, original, n - 1);
      GapBefore(subset, original, n - 1, |subset|);
      ShownOf(subset, before, n);
      GapJoins(original, start, place);
    }
  }

  lemma ShownOf<T>(subset: seq<T>, before: map<T, seq<T>>, n: nat)
    requires n <= |subset|
    ensures n == 0 ==> Shown(subset, before, n) == []
    ensures n > 0 ==>
              Shown(subset, before, n) ==
              (if subset[n - 1] in before then Shown(subset, before, n - 1) + before[subset[n - 1]]
               else Shown(subset, before, n - 1)) + [subset[n - 1]]
  {
  }

  lemma GapJoins<T>(original: seq<T>, start: nat, place: nat)
    requires start <= place < |original|
    ensures original[..start] + original[start..place] + [original[place]] == original[..place + 1]
    ensures start == place ==> original[..start] + [original[place]] == original[..place + 1]
  {
  }

  lemma {:induction false} ShownGrows<T(!new)>(subset: seq<T>, before: map<T, seq<T>>, k: nat, n: nat)
    requires k <= n <= |subset|
    ensures Shown(subset, before, k) <= Shown(subset, before, n)
    ensures k < n ==> |Shown(subset, before, k)| < |Shown(subset, before, n)|
    ensures k > 0 ==> var p := |Shown(subset, before, k)| - 1; p >= 0 && Shown(subset, before, n)[p] == subset[k - 1]
  {
    if k >= n {
    } else {
      ShownGrows(subset, before, k, n - 1);
    }
  }

  /** The recorded gaps give the list back exactly if what is shown is a subsequence of it. */
  lemma RebuildsOriginal<T(!new)>(subset: seq<T>, original: seq<T>)
    requires Distinct(subset)
    ensures Rebuilt(subset, Befores(subset, original, |subset|), Afters(subset, original)) == original
       <==> IsSubsequence(subset, original)
  {
    hide FindFrom, Start, Place, Befores, Shown;
    var before := Befores(subset, original, |subset|);
    if at: seq<nat> :| Stands(subset, original, at) {
      SubsequenceRebuilds(subset, original, at);
    }
    if Rebuilt(subset, before, Afters(subset, original)) == original {
      assert Shown(subset, before, |subset|) <= original;
      RebuiltStands(subset, before, original);
    }
  }

  lemma SubsequenceRebuilds<T(!new)>(subset: seq<T>, original: seq<T>, at: seq<nat>)
    requires Distinct(subset) && Stands(subset, original, at)
    ensures Rebuilt(subset, Befores(subset, original, |subset|), Afters(subset, original)) == original
  {
    hide FindFrom, Start, Place, Befores, Shown;
    var n := |subset|;
    if n > 0 {
      FoundInTime(subset, original, at, n - 1);
    }
    ShownIsPrefix(subset, original, n);
    var start := Start(subset, original, n);
    assert original == original[..start] + original[start..];
    assert start == |original| ==> original[..start] == original;
  }

  lemma RebuiltStands<T(!new)>(subset: seq<T>, before: map<T, seq<T>>, original: seq<T>)
    requires Shown(subset, before, |subset|) <= original
    ensures IsSubsequence(subset, original)
  {
    hide Shown;
    var n := |subset|;
    var at := seq(n, k requires 0 <= k < n => |Shown(subset, before, k + 1)| - 1);
    forall k | 0 <= k < n ensures 0 <= at[k] < |original| && original[at[k]] == subset[k] {
      assert at[k] == |Shown(subset, before, k + 1)| - 1;
      ShownGrows(subset, before, k + 1, n);
    }
    forall k, l | 0 <= k < l < n ensures at[k] < at[l] {
      ShownGrows(subset, before, k + 1, l + 1);
    }
    assert Stands(subset, original, at);
  }

  /**
   When the search for an element fails, no gap is recorded from it on, and the elements before it are given
   back with their gaps.
   */
  lemma MissingEndsSearch<T(!new)>(subset: seq<T>, original: seq<T>, k: nat)
    requires Distinct(subset) && k < |subset| && Place(subset, original, k) == |original|
    requires k > 0 ==> Place(subset, original, k - 1) < |original|
    ensures Afters(subset, original) == map[]
    ensures forall l :: k <= l < |subset| ==> subset[l] !in Befores(subset, original, |subset|)
    ensures Shown(subset, Befores(subset, original, |subset|), k) == original[..Start(subset, original, k)]
  {
    hide FindFrom, Start, Place, Shown;
    NothingFoundAnyMore(subset, original, k, |subset|);
    OnlyShown(subset, original, k);
    ShownIsPrefix(subset, original, k);
  }

  lemma {:induction false} PlacesInOrder<T(!new)>(subset: seq<T>, original: seq<T>, k: nat, l: nat)
    requires k < l <= |subset| && Place(subset, original, k) < |original|
    ensures Place(subset, original, k) < Start(subset, original, l)
    decreases l
  {
    hide FindFrom;
    if k >= l - 1 {
    } else {
      PlacesInOrder(subset, original, k, l - 1);
    }
  }

  /** An element in a gap stands between two shown ones. */
  lemma StandsInGap<T(!new)>(subset: seq<T>, original: seq<T>, e: T, x: T) returns (k: nat, p: nat)
    requires Distinct(subset)
    requires e in Befores(subset, original, |subset|) && x in Befores(subset, original, |subset|)[e]
    ensures k < |subset| && subset[k] == e
    ensures Start(subset, original, k) <= p < Place(subset, original, k) < |original| && original[p] == x
  {
    hide FindFrom, Start, Place, Befores;
    OnlyShown(subset, original, |subset|);
    k :| 0 <= k < |subset| && subset[k] == e;
    GapBefore(subset, original, k, |subset|);
    var i :| 0 <= i < |Befores(subset, original, |subset|)[e]| && Befores(subset, original, |subset|)[e][i] == x;
    p := Start(subset, original, k) + i;
  }

  /** No element is recorded twice: in two gaps, or in a gap and as shown. */
  lemma RecordedOnce<T(!new)>(subset: seq<T>, original: seq<T>, e: T, x: T)
    requires Distinct(subset) && Distinct(original) && IsSubsequence(subset, original)
    requires e in Befores(subset, original, |subset|) && x in Befores(subset, original, |subset|)[e]
    ensures x !in subset
    ensures forall f :: f in Befores(subset, original, |subset|) && x in Befores(subset, original, |subset|)[f] ==>
              f == e
    ensures forall key :: key in Afters(subset, original) ==> x !in Afters(subset, original)[key]
  {
    hide FindFrom, Start, Befores;
    var at: seq<nat> :| Stands(subset, original, at);
    var k, p := StandsInGap(subset, original, e, x);
    if l :| 0 <= l < |subset| && subset[l] == x {
      FoundInTime(subset, original, at, l);
      NotInOrderTwice(subset, original, k, l);
    }
    forall f | f in Befores(subset, original, |subset|) && x in Befores(subset, original, |subset|)[f] ensures f == e {
      var l, q := StandsInGap(subset, original, f, x);
      if k != l {
        NotInOrderTwice(subset, original, k, l);
      }
    }
    PlacesInOrder(subset, original, k, |subset|);
  }

  /** One of two searches ends before the other begins. */
  lemma NotInOrderTwice<T(!new)>(subset: seq<T>, original: seq<T>, k: nat, l: nat)
    requires k < |subset| && l < |subset|
    requires Place(subset, original, k) < |original| && Place(subset, original, l) < |original|
    ensures k < l ==> Place(subset, original, k) < Start(subset, original, l)
    ensures l < k ==> Place(subset, original, l) < Start(subset, original, k)
  {
    hide FindFrom;
    if k < l {
      PlacesInOrder(subset, original, k, l);
    } else if l < k {
      PlacesInOrder(subset, original, l, k);
    }
  }
}
