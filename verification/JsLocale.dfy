/** JsLocaleHelper: leaving out of a fallback locale what an earlier locale already translates. */
module JsLocale {
  import opened Options

  /** Translations: a text, or a hash of translations. */
  datatype Tree = Leaf(text: string) | Hash(kids: map<string, Tree>)

  predicate PartAt(text: string, part: string, i: int) {
    0 <= i <= |text| - |part| && text[i..i + |part|] == part
  }

  predicate Contains(text: string, part: string) {
    exists i | 0 <= i <= |text| :: PartAt(text, part, i)
  }

  /** `h.include?(key)`: a key of a hash, but a part of a string. */
  predicate Includes(h: Tree, key: string) {
    match h
    case Hash(kids) => key in kids
    case Leaf(text) => Contains(text, key)
  }

  /** `h[key]`, where it is not nil; a string answers with the part found. */
  function At(h: Tree, key: string): Tree
    requires Includes(h, key)
  {
    match h
    case Hash(kids) => kids[key]
    case Leaf(_) => Leaf(key)
  }

  /** `checking_hashes.map { |h| h[key] }` after `compact!`. */
  function Narrow(checking: seq<Tree>, key: string): seq<Tree> {
    if checking == [] then []
    else
      var last := checking[|checking| - 1];
      if Includes(last, key) then Narrow(checking[..|checking| - 1], key) + [At(last, key)]
      else Narrow(checking[..|checking| - 1], key)
  }

  predicate AnyIncludes(checking: seq<Tree>, key: string) {
    exists i | 0 <= i < |checking| :: Includes(checking[i], key)
  }

  /** What is left of one entry. */
  function Kept(t: Tree, key: string, checking: seq<Tree>): Option<Tree>
    requires t.Hash? && key in t.kids
    decreases t, 0
  {
    var value := t.kids[key];
    if value.Hash? then
      var inner := DeepDelete(value, Narrow(checking, key));
      if inner == map[] then None else Some(Hash(inner))
    else if AnyIncludes(checking, key) then None
    else Some(value)
  }

  function DeepDelete(t: Tree, checking: seq<Tree>): map<string, Tree>
    requires t.Hash?
    decreases t, 1
  {
    map key | key in t.kids && Kept(t, key, checking).Some? :: Kept(t, key, checking).value
  }

  /** `deep_delete_matches`: a copy of the hash, with entries replaced and deleted one by one. */
  method DeepDeleteMatches(deletingFrom: Tree, checkingHashes: seq<Tree>) returns (newHash: map<string, Tree>)
    requires deletingFrom.Hash?
    ensures newHash == DeepDelete(deletingFrom, checkingHashes)
    decreases deletingFrom
  {
    newHash := deletingFrom.kids;
    var keys := deletingFrom.kids.Keys;
    while keys != {}
      invariant keys <= deletingFrom.kids.Keys
      invariant forall k :: k in newHash <==>
                  k in deletingFrom.kids && (k in keys || Kept(deletingFrom, k, checkingHashes).Some?)
      invariant forall k :: k in newHash ==>
                  newHash[k] == if k in keys then deletingFrom.kids[k] else Kept(deletingFrom, k, checkingHashes).value
    {
      var key :| key in keys;
      var value := deletingFrom.kids[key];
      if value.Hash? {
        var newAtKey := DeepDeleteMatches(value, Narrow(checkingHashes, key));
        if newAtKey == map[] {
          newHash := newHash - {key};
        } else {
          newHash := newHash[key := Hash(newAtKey)];
        }
      } else if AnyIncludes(checkingHashes, key) {
        newHash := newHash - {key};
      }
      keys := keys - {key};
    }
  }

  // ----- what is left, path by path -----

  /** The text at a path of keys. */
  function Lookup(t: Tree, path: seq<string>): Option<string>
    decreases |path|
  {
    match t
    case Leaf(text) => if path == [] then Some(text) else None
    case Hash(kids) => if path != [] && path[0] in kids then Lookup(kids[path[0]], path[1..]) else None
  }

  /** A checked tree stops a text at this path: it can be followed to the last key and includes that. */
  predicate Covers(h: Tree, path: seq<string>)
    requires path != []
    decreases |path|
  {
    Includes(h, path[0]) && (|path| > 1 ==> Covers(At(h, path[0]), path[1..]))
  }

  predicate Covered(checking: seq<Tree>, path: seq<string>)
    requires path != []
  {
    exists i | 0 <= i < |checking| :: Covers(checking[i], path)
  }

  lemma {:induction false} NarrowCovers(checking: seq<Tree>, path: seq<string>)
    requires |path| > 1
    ensures Covered(Narrow(checking, path[0]), path[1..]) <==> Covered(checking, path)
    decreases |checking|
  {
    if checking == [] {
    } else {
      var init, last := checking[..|checking| - 1], checking[|checking| - 1];
      NarrowCovers(init, path);
      CoveredSnoc(init, last, path);
      assert checking == init + [last];
      if Includes(last, path[0]) {
        CoveredSnoc(Narrow(init, path[0]), At(last, path[0]), path[1..]);
      }
    }
  }

  lemma CoveredSnoc(init: seq<Tree>, last: Tree, path: seq<string>)
    requires path != []
    ensures Covered(init + [last], path) <==> Covered(init, path) || Covers(last, path)
  {
    if Covered(init, path) {
      var i :| 0 <= i < |init| && Covers(init[i], path);
      assert (init + [last])[i] == init[i];
    }
    assert (init + [last])[|init|] == last;
  }

  /** `deep_delete_matches` takes away exactly the texts some checked tree covers; the rest stays as it is. */
  lemma {:induction false} DeepDeleteLookup(t: Tree, checking: seq<Tree>, path: seq<string>)
    requires t.Hash? && path != []
    ensures Lookup(Hash(DeepDelete(t, checking)), path) == if Covered(checking, path) then None else Lookup(t, path)
    decreases |path|
  {
    var key := path[0];
    if key !in t.kids {
    } else {
      var value := t.kids[key];
      if value.Hash? {
        if |path| > 1 {
          DeepDeleteLookup(value, Narrow(checking, key), path[1..]);
          NarrowCovers(checking, path);
        }
      } else if |path| == 1 {
        assert AnyIncludes(checking, key) <==> Covered(checking, path) by {
          if AnyIncludes(checking, key) {
            var i :| 0 <= i < |checking| && Includes(checking[i], key);
            assert Covers(checking[i], path);
          }
        }
      }
    }
  }

  // ----- a chain of locales -----

  ghost predicate AllHashes(trees: seq<Tree>) {
    forall i :: 0 <= i < |trees| ==> trees[i].Hash?
  }

  /** Each locale without what the ones before it, already stripped, cover. */
  function Merged(trees: seq<Tree>): (r: seq<Tree>)
    requires AllHashes(trees)
    ensures |r| == |trees| && AllHashes(r)
  {
    if trees == [] then []
    else
      var loaded := Merged(trees[..|trees| - 1]);
      loaded + [Hash(DeepDelete(trees[|trees| - 1], loaded))]
  }

  /** `load_translations_merged`, for the trees of the different locales of a chain. */
  method LoadTranslationsMerged(trees: seq<Tree>) returns (merged: seq<Tree>)
    requires AllHashes(trees)
    ensures merged == Merged(trees)
  {
    merged := [];
    for i := 0 to |trees|
      invariant merged == Merged(trees[..i])
    {
      assert trees[..i + 1][..i] == trees[..i];
      var stripped := DeepDeleteMatches(trees[i], merged);
      merged := merged + [Hash(stripped)];
    }
    assert trees[..|trees|] == trees;
  }

  lemma {:induction false} MergedAt(trees: seq<Tree>, i: nat)
    requires AllHashes(trees) && i < |trees|
    ensures Merged(trees)[i] == Hash(DeepDelete(trees[i], Merged(trees)[..i]))
    ensures Merged(trees)[..i] == Merged(trees[..i])
    decreases |trees|
  {
    var init := trees[..|trees| - 1];
    if i < |init| {
      MergedAt(init, i);
      assert init[..i] == trees[..i];
      assert Merged(trees)[..i] == Merged(init)[..i];
    } else {
      assert Merged(trees)[..i] == Merged(init);
    }
  }

  /** Fallback: the text of the first locale that has one. */
  function Fallback(trees: seq<Tree>, path: seq<string>): Option<string>
    decreases |trees|
  {
    if trees == [] then None
    else if Lookup(trees[0], path).Some? then Lookup(trees[0], path)
    else Fallback(trees[1..], path)
  }

  /** The first locale of the chain with a text at the path. */
  ghost predicate Defines(trees: seq<Tree>, path: seq<string>, i: int) {
    0 <= i < |trees| && Lookup(trees[i], path).Some? && forall j :: 0 <= j < i ==> Lookup(trees[j], path).None?
  }

  lemma {:induction false} FallbackIsFirst(trees: seq<Tree>, path: seq<string>, i: int)
    requires Defines(trees, path, i)
    ensures Fallback(trees, path) == Lookup(trees[i], path)
    decreases |trees|
  {
    if i == 0 {
    } else {
      assert forall j :: 0 <= j < i - 1 ==> trees[1..][j] == trees[j + 1];
      FallbackIsFirst(trees[1..], path, i - 1);
    }
  }

  lemma {:induction false} FallbackIsNone(trees: seq<Tree>, path: seq<string>)
    requires forall i :: 0 <= i < |trees| ==> Lookup(trees[i], path).None?
    ensures Fallback(trees, path) == None
    decreases |trees|
  {
    if trees == [] {
    } else {
      assert forall j :: 0 <= j < |trees| - 1 ==> trees[1..][j] == trees[j + 1];
      FallbackIsNone(trees[1..], path);
    }
  }

  lemma MergedLookup(trees: seq<Tree>, path: seq<string>, i: nat)
    requires AllHashes(trees) && path != [] && i < |trees|
    ensures Lookup(Merged(trees)[i], path) == if Covered(Merged(trees)[..i], path) then None else Lookup(trees[i], path)
  {
    MergedAt(trees, i);
    DeepDeleteLookup(trees[i], Merged(trees)[..i], path);
  }

  // ----- trees of one shape -----

  /** Where one tree has a text the other has a text or nothing. */
  ghost predicate Agree(t: Tree, u: Tree) {
    forall path: seq<string> :: Fit(t, u, path)
  }

  /** At this path neither has a text where the other goes on. */
  predicate Fit(t: Tree, u: Tree, path: seq<string>)
    decreases |path|
  {
    if path == [] then t.Hash? == u.Hash?
    else if t.Hash? && u.Hash? && path[0] in t.kids && path[0] in u.kids
    then Fit(t.kids[path[0]], u.kids[path[0]], path[1..])
    else true
  }

  /** On agreeing trees, covering a text is having one. */
  lemma {:induction false} AgreeingCovers(t: Tree, h: Tree, path: seq<string>)
    requires path != [] && Agree(t, h) && t.Hash? && Lookup(t, path).Some?
    ensures Covers(h, path) <==> Lookup(h, path).Some?
    decreases |path|
  {
    assert Fit(t, h, []);
    var key := path[0];
    if key !in h.kids {
    } else {
      var t', h' := t.kids[key], h.kids[key];
      forall rest: seq<string> ensures Fit(t', h', rest) {
        assert Fit(t, h, [key] + rest);
        assert ([key] + rest)[1..] == rest;
      }
      assert Fit(t', h', []);
      if |path| > 1 {
        AgreeingCovers(t', h', path[1..]);
      }
    }
  }

  /** A stripped tree still has the shape it had. */
  lemma {:induction false} StrippedFits(t: Tree, u: Tree, checking: seq<Tree>, path: seq<string>)
    requires u.Hash? && Fit(t, u, path)
    ensures Fit(t, Hash(DeepDelete(u, checking)), path)
    decreases |path|
  {
    if path != [] && t.Hash? && path[0] in t.kids && path[0] in DeepDelete(u, checking) {
      if u.kids[path[0]].Hash? {
        StrippedFits(t.kids[path[0]], u.kids[path[0]], Narrow(checking, path[0]), path[1..]);
      }
    }
  }

  ghost predicate SameShape(trees: seq<Tree>) {
    AllHashes(trees) && forall i, j :: 0 <= i < |trees| && 0 <= j < |trees| ==> Agree(trees[i], trees[j])
  }

  /** A text is stopped exactly when an earlier locale has one, although only stripped trees are checked. */
  lemma {:induction false} CoveredIsEarlier(trees: seq<Tree>, path: seq<string>, i: nat)
    requires SameShape(trees) && path != [] && i < |trees| && Lookup(trees[i], path).Some?
    ensures Covered(Merged(trees)[..i], path) <==> exists j :: 0 <= j < i && Lookup(trees[j], path).Some?
    decreases i
  {
    var merged := Merged(trees);
    forall j | 0 <= j < i ensures Covers(merged[..i][j], path) <==> Lookup(merged[j], path).Some? {
      MergedAt(trees, j);
      forall p: seq<string> ensures Fit(trees[i], merged[j], p) {
        assert Agree(trees[i], trees[j]);
        StrippedFits(trees[i], trees[j], merged[..j], p);
      }
      AgreeingCovers(trees[i], merged[j], path);
    }
    if Covered(merged[..i], path) {
      var j :| 0 <= j < i && Covers(merged[..i][j], path);
      MergedLookup(trees, path, j);
    }
    if j :| 0 <= j < i && Lookup(trees[j], path).Some? {
      EarliestKept(trees, path, i, j);
      var k :| 0 <= k < i && Lookup(merged[k], path).Some?;
      assert Covers(merged[..i][k], path);
    }
  }

  lemma {:induction false} EarliestKept(trees: seq<Tree>, path: seq<string>, i: nat, j: nat)
    requires SameShape(trees) && path != [] && j < i < |trees| && Lookup(trees[j], path).Some?
    ensures exists k :: 0 <= k < i && Lookup(Merged(trees)[k], path).Some?
    decreases i, 0, j
  {
    CoveredIsEarlier(trees, path, j);
    MergedLookup(trees, path, j);
    if k :| 0 <= k < j && Lookup(trees[k], path).Some? {
      EarliestKept(trees, path, i, k);
    }
  }

  /** Every text is kept in exactly one locale: the first of the chain that has it. */
  lemma KeptOnceInFirst(trees: seq<Tree>, path: seq<string>, i: nat)
    requires SameShape(trees) && path != [] && i < |trees|
    ensures Lookup(Merged(trees)[i], path) == if Defines(trees, path, i) then Lookup(trees[i], path) else None
  {
    MergedLookup(trees, path, i);
    if Lookup(trees[i], path).Some? {
      CoveredIsEarlier(trees, path, i);
    }
  }

  /** So fallback lookup gives the same text before and after merging. */
  lemma FallbackPreserved(trees: seq<Tree>, path: seq<string>)
    requires SameShape(trees) && path != []
    ensures Fallback(Merged(trees), path) == Fallback(trees, path)
  {
    forall i | 0 <= i < |trees|
      ensures Lookup(Merged(trees)[i], path) == if Defines(trees, path, i) then Lookup(trees[i], path) else None
    {
      KeptOnceInFirst(trees, path, i);
    }
    if i :| 0 <= i < |trees| && Lookup(trees[i], path).Some? {
      var k := FirstWith(trees, path, i);
      FallbackIsFirst(trees, path, k);
      assert Defines(Merged(trees), path, k);
      FallbackIsFirst(Merged(trees), path, k);
    } else {
      FallbackIsNone(trees, path);
      FallbackIsNone(Merged(trees), path);
    }
  }

  lemma {:induction false} FirstWith(trees: seq<Tree>, path: seq<string>, i: nat) returns (k: nat)
    requires i < |trees| && Lookup(trees[i], path).Some?
    ensures Defines(trees, path, k)
    decreases i
  {
    if j :| 0 <= j < i && Lookup(trees[j], path).Some? {
      k := FirstWith(trees, path, j);
    } else {
      k := i;
    }
  }

  // ----- trees of different shapes -----

  /** Some text stands at this node or below. */
  predicate HasText(t: Tree) {
    match t
    case Leaf(_) => true
    case Hash(kids) => exists key | key in kids :: HasText(kids[key])
  }

  /** Some text stands at this path or below. */
  predicate TextFrom(t: Tree, path: seq<string>)
    decreases |path|
  {
    if path == [] then HasText(t) else t.Hash? && path[0] in t.kids && TextFrom(t.kids[path[0]], path[1..])
  }

  lemma {:induction false} SomeText(t: Tree) returns (rest: seq<string>)
    requires HasText(t)
    ensures Lookup(t, rest).Some?
  {
    match t
    case Leaf(_) => rest := [];
    case Hash(kids) =>
      var key :| key in kids && HasText(kids[key]);
      rest := SomeText(kids[key]);
      assert ([key] + rest)[1..] == rest;
      rest := [key] + rest;
  }

  lemma {:induction false} TextAtOrBelow(t: Tree, path: seq<string>) returns (rest: seq<string>)
    requires TextFrom(t, path)
    ensures Lookup(t, path + rest).Some?
    decreases |path|
  {
    if path == [] {
      rest := SomeText(t);
      assert path + rest == rest;
    } else {
      rest := TextAtOrBelow(t.kids[path[0]], path[1..]);
      assert (path + rest)[1..] == path[1..] + rest;
    }
  }

  lemma {:induction false} TextFromIf(t: Tree, path: seq<string>, n: nat)
    requires n <= |path| && Lookup(t, path).Some?
    ensures TextFrom(t, path[..n])
    decreases |path|
  {
    if path == [] {
      assert t.Leaf?;
    } else if n == 0 {
      TextFromIf(t.kids[path[0]], path[1..], 0);
      assert path[1..][..0] == [];
    } else {
      TextFromIf(t.kids[path[0]], path[1..], n - 1);
      assert path[..n][1..] == path[1..][..n - 1];
    }
  }

  /** No hash below the root is without a text, as `deep_delete_matches` leaves them. */
  predicate Grown(t: Tree) {
    t.Hash? ==> forall key | key in t.kids :: HasText(t.kids[key]) && Grown(t.kids[key])
  }

  lemma {:induction false} StrippedIsGrown(t: Tree, checking: seq<Tree>)
    requires t.Hash?
    ensures Grown(Hash(DeepDelete(t, checking)))
  {
    var stripped := DeepDelete(t, checking);
    forall key | key in stripped ensures HasText(stripped[key]) && Grown(stripped[key]) {
      assert Kept(t, key, checking).Some? && stripped[key] == Kept(t, key, checking).value;
      if t.kids[key].Hash? {
        StrippedIsGrown(t.kids[key], Narrow(checking, key));
        var inner := DeepDelete(t.kids[key], Narrow(checking, key));
        assert inner != map[] && stripped[key] == Hash(inner);
        NotEmpty(inner);
      }
    }
  }

  lemma NotEmpty(kids: map<string, Tree>)
    ensures kids == map[] || exists key :: key in kids
  {
    if forall key :: key !in kids {
      assert kids == map[];
    }
  }

  /** A text stands n keys down this path, and the search goes on in it to the end. */
  predicate StopsAt(t: Tree, path: seq<string>, n: nat) {
    0 < n < |path| && Lookup(t, path[..n]).Some? && Covers(Leaf(Lookup(t, path[..n]).value), path[n..])
  }

  lemma StopsDeeper(t: Tree, path: seq<string>, n: nat)
    requires t.Hash? && |path| > 1 && path[0] in t.kids
    ensures StopsAt(t, path, n + 1) <==>
            if n == 0 then t.kids[path[0]].Leaf? && Covers(t.kids[path[0]], path[1..])
            else StopsAt(t.kids[path[0]], path[1..], n)
  {
    if n + 1 < |path| {
      assert path[..n + 1][1..] == path[1..][..n];
      assert path[n + 1..] == path[1..][n..];
    }
  }

  /** What a grown tree covers: a text at the path or below, or a text above it that is searched. */
  lemma {:induction false} CoversMeans(t: Tree, path: seq<string>)
    requires t.Hash? && Grown(t) && path != []
    ensures Covers(t, path) <==> TextFrom(t, path) || exists n: nat :: StopsAt(t, path, n)
    decreases |path|
  {
    var key := path[0];
    if key !in t.kids {
      forall n: nat ensures !StopsAt(t, path, n) {
        assert 0 < n < |path| ==> path[..n][0] == key;
      }
    } else if |path| == 1 {
      assert path[1..] == [];
    } else {
      var kid, rest := t.kids[key], path[1..];
      if kid.Hash? {
        CoversMeans(kid, rest);
      }
      if n: nat :| StopsAt(t, path, n) {
        StopsDeeper(t, path, n - 1);
        if n == 1 {
          assert kid.Leaf? && Covers(kid, rest);
        }
      }
      if kid.Leaf? && Covers(kid, rest) {
        StopsDeeper(t, path, 0);
        assert StopsAt(t, path, 1);
      } else if kid.Hash? {
        if n: nat :| StopsAt(kid, rest, n) {
          StopsDeeper(t, path, n);
          assert StopsAt(t, path, n + 1);
        }
      }
    }
  }

  /** A text covers a path if it has the first key as a part, and each key the next one. */
  lemma {:induction false} TextCovers(text: string, path: seq<string>)
    requires path != []
    ensures Covers(Leaf(text), path) <==>
            Contains(text, path[0]) && forall k :: 0 < k < |path| ==> Contains(path[k - 1], path[k])
    decreases |path|
  {
    hide Contains;
    if |path| == 1 {
    } else {
      var rest := path[1..];
      TextCovers(path[0], rest);
      assert forall k :: 0 <= k < |rest| ==> rest[k] == path[k + 1];
      assert forall k :: 0 < k < |path| ==> path[k] == rest[k - 1];
    }
  }

  /** Whatever covers a path covers its beginnings. */
  lemma {:induction false} CoversPrefix(h: Tree, path: seq<string>, n: nat)
    requires 0 < n <= |path| && Covers(h, path)
    ensures Covers(h, path[..n])
    decreases |path|
  {
    if n == 1 {
      assert path[..1][0] == path[0];
    } else {
      CoversPrefix(At(h, path[0]), path[1..], n - 1);
      assert path[..n][1..] == path[1..][..n - 1];
    }
  }

  /**
   What the locale trees themselves say of a path: an earlier locale has a text at it or below, or has
   a text above it that is searched for the rest of the path and is not lost itself.
   */
  predicate Lost(trees: seq<Tree>, i: nat, path: seq<string>)
    requires i <= |trees| && path != []
    decreases |path|
  {
    exists j | 0 <= j < i :: TextFrom(trees[j], path) || SearchedAbove(trees, j, path)
  }

  predicate SearchedAbove(trees: seq<Tree>, j: nat, path: seq<string>)
    requires j < |trees| && path != []
    decreases |path|, 0
  {
    exists n: nat | 0 < n < |path| :: StopsAt(trees[j], path, n) && !Lost(trees, j, path[..n])
  }

  lemma StrippedCovers(trees: seq<Tree>, j: nat, path: seq<string>)
    requires AllHashes(trees) && j < |trees| && path != []
    ensures Covers(Merged(trees)[j], path) <==>
            TextFrom(Merged(trees)[j], path) || exists n: nat :: StopsAt(Merged(trees)[j], path, n)
  {
    MergedAt(trees, j);
    StrippedIsGrown(trees[j], Merged(trees)[..j]);
    CoversMeans(Merged(trees)[j], path);
  }

  lemma StrippedHasLess(trees: seq<Tree>, j: nat, path: seq<string>)
    requires AllHashes(trees) && j < |trees| && path != [] && TextFrom(Merged(trees)[j], path)
    ensures TextFrom(trees[j], path)
  {
    var rest := TextAtOrBelow(Merged(trees)[j], path);
    MergedLookup(trees, path + rest, j);
    TextFromIf(trees[j], path + rest, |path|);
    assert (path + rest)[..|path|] == path;
  }

  /** A text at the path or below is kept, or something before it covers it: either way the path is covered. */
  lemma TextIsCovered(trees: seq<Tree>, i: nat, j: nat, path: seq<string>)
    requires AllHashes(trees) && j < i <= |trees| && path != [] && TextFrom(trees[j], path)
    ensures Covered(Merged(trees)[..i], path)
  {
    var merged := Merged(trees);
    var rest := TextAtOrBelow(trees[j], path);
    var all := path + rest;
    assert all[..|path|] == path;
    MergedLookup(trees, all, j);
    if Covered(merged[..j], all) {
      var k :| 0 <= k < j && Covers(merged[..j][k], all);
      CoversPrefix(merged[k], all, |path|);
      assert merged[..i][k] == merged[k];
    } else {
      TextFromIf(merged[j], all, |path|);
      StrippedCovers(trees, j, path);
      assert merged[..i][j] == merged[j];
    }
  }

  /** That is exactly when the stripped trees before locale i cover the path. */
  lemma {:induction false} LostIsCovered(trees: seq<Tree>, i: nat, path: seq<string>)
    requires AllHashes(trees) && i <= |trees| && path != []
    ensures Covered(Merged(trees)[..i], path) <==> Lost(trees, i, path)
    decreases |path|
  {
    var merged := Merged(trees);
    forall j, n: nat | 0 <= j < i && 0 < n < |path|
      ensures StopsAt(merged[j], path, n) <==> StopsAt(trees[j], path, n) && !Lost(trees, j, path[..n])
    {
      MergedLookup(trees, path[..n], j);
      LostIsCovered(trees, j, path[..n]);
    }
    if Covered(merged[..i], path) {
      var j :| 0 <= j < i && Covers(merged[..i][j], path);
      StrippedCovers(trees, j, path);
      if TextFrom(merged[j], path) {
        StrippedHasLess(trees, j, path);
      } else {
        var n: nat :| StopsAt(merged[j], path, n);
        assert SearchedAbove(trees, j, path);
      }
    }
    if Lost(trees, i, path) {
      var j :| 0 <= j < i && (TextFrom(trees[j], path) || SearchedAbove(trees, j, path));
      if TextFrom(trees[j], path) {
        TextIsCovered(trees, i, j, path);
      } else {
        var n: nat :| 0 < n < |path| && StopsAt(trees[j], path, n) && !Lost(trees, j, path[..n]);
        StrippedCovers(trees, j, path);
        assert merged[..i][j] == merged[j];
      }
    }
  }

  /** So, whatever the shapes, a text survives in the chain exactly if it is not lost in that sense. */
  lemma FallbackPreservedExactly(trees: seq<Tree>, path: seq<string>, i: nat)
    requires AllHashes(trees) && path != [] && Defines(trees, path, i)
    ensures Fallback(Merged(trees), path) == if Lost(trees, i, path) then None else Fallback(trees, path)
  {
    var merged := Merged(trees);
    LostIsCovered(trees, i, path);
    FallbackIsFirst(trees, path, i);
    forall j | 0 <= j < i ensures Lookup(merged[j], path).None? {
      MergedLookup(trees, path, j);
    }
    MergedLookup(trees, path, i);
    if Lost(trees, i, path) {
      forall j | 0 <= j < |trees| ensures Lookup(merged[j], path).None? {
        if j > i {
          CoveredStays(merged, i, j, path);
        }
        MergedLookup(trees, path, j);
      }
      FallbackIsNone(merged, path);
    } else {
      assert Defines(merged, path, i);
      FallbackIsFirst(merged, path, i);
    }
  }

  /** Over all paths: fallback lookup is as before exactly if the first locale with a text does not lose it. */
  lemma FallbackPreservedIff(trees: seq<Tree>, path: seq<string>)
    requires AllHashes(trees) && path != []
    ensures Fallback(Merged(trees), path) == Fallback(trees, path)
            <==> forall i: nat :: Defines(trees, path, i) ==> !Lost(trees, i, path)
  {
    if i :| 0 <= i < |trees| && Lookup(trees[i], path).Some? {
      var k := FirstWith(trees, path, i);
      FallbackPreservedExactly(trees, path, k);
      FallbackIsFirst(trees, path, k);
      assert forall l: nat :: Defines(trees, path, l) ==> l == k;
    } else {
      FallbackIsNone(trees, path);
      forall i | 0 <= i < |trees| ensures Lookup(Merged(trees)[i], path).None? {
        MergedLookup(trees, path, i);
      }
      FallbackIsNone(Merged(trees), path);
    }
  }

  lemma CoveredStays(merged: seq<Tree>, i: nat, j: nat, path: seq<string>)
    requires i <= j <= |merged| && path != [] && Covered(merged[..i], path)
    ensures Covered(merged[..j], path)
  {
    var k :| 0 <= k < i && Covers(merged[..i][k], path);
    assert merged[..j][k] == merged[..i][k];
  }

  /** A text of an earlier locale is searched for the keys of a later one. */
  lemma TextIsSearched(key: string, inner: string, text: string)
    ensures var first, second := Hash(map[key := Leaf(inner)]), Hash(map[key := Hash(map[inner := Leaf(text)])]);
            && Fallback([first, second], [key, inner]) == Some(text)
            && Fallback(Merged([first, second]), [key, inner]) == None
  {
    var first, second := Hash(map[key := Leaf(inner)]), Hash(map[key := Hash(map[inner := Leaf(text)])]);
    var trees, path := [first, second], [key, inner];
    assert path[1..] == [inner] && [inner][1..] == [];
    TextsAlongPath(first, second, key, inner, text);
    assert Defines(trees, path, 1) && !Defines(trees, path, 0);
    FallbackIsFirst(trees, path, 1);
    assert StopsAt(first, path, 1) by {
      assert path[..1] == [key] && path[1..] == [inner];
      assert PartAt(inner, inner, 0);
    }
    assert SearchedAbove(trees, 0, path);
    assert Lost(trees, 1, path);
    FallbackPreservedExactly(trees, path, 1);
  }

  lemma TextsAlongPath(first: Tree, second: Tree, key: string, inner: string, text: string)
    requires first == Hash(map[key := Leaf(inner)]) && second == Hash(map[key := Hash(map[inner := Leaf(text)])])
    ensures Lookup(first, [key]) == Some(inner) && Lookup(first, [key, inner]) == None
    ensures Lookup(second, [key, inner]) == Some(text)
  {
    assert [key, inner][1..] == [inner] && [inner][1..] == [] && [key][1..] == [];
    assert Lookup(Leaf(text), []) == Some(text);
    assert Lookup(second.kids[key], [inner]) == Some(text);
    assert Lookup(Leaf(inner), [inner]) == None;
    assert Lookup(Leaf(inner), []) == Some(inner);
  }
}
