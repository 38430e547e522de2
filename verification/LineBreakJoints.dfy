/**
 How the leaves of a document hang together: how many elements each has in common with the leaf before it.
 Together with the names around each leaf that is the tree, so it tells whether a split leaves one copy of the
 inline element on each side of a <br>, or more.
 */
module LineBreakJoints {
  import opened LineBreaks

  /** For the leaves of a node inside `d` elements, given that the leaf before it is in the same ones. */
  function Joints(n: Node, d: nat): seq<nat>
    decreases n, 1
  {
    match n
    case Text(text) => if IsBlank(text) then [] else [d]
    case Br(_, _) => [d]
    case Element(_, kids) => if kids == [] then [d] else FirstAt(JointsOf(kids, d + 1), d)
  }

  function JointsOf(nodes: seq<Node>, d: nat): seq<nat>
    decreases nodes, 0
  {
    if nodes == [] then [] else Joints(nodes[0], d) + JointsOf(nodes[1..], d)
  }

  function FirstAt(js: seq<nat>, d: nat): (r: seq<nat>)
    ensures |r| == |js|
  {
    if js == [] then [] else js[0 := d]
  }

  function Min(x: nat, y: nat): nat { if x <= y then x else y }

  /** Where leaf k has moved out of an element, or the one before it has, they no longer have it in common. */
  function CutAt(js: seq<nat>, ts: seq<Token>, k: nat): nat
    requires |js| == |ts| && k < |ts|
  {
    var own := Min(js[k], |ts[k].path|);
    if k == 0 then own else Min(own, |ts[k - 1].path|)
  }

  function Cut(js: seq<nat>, ts: seq<Token>): (r: seq<nat>)
    requires |js| == |ts|
    ensures |r| == |js| && forall k :: 0 <= k < |r| ==> r[k] == CutAt(js, ts, k)
  {
    seq(|js|, k requires 0 <= k < |js| => CutAt(js, ts, k))
  }

  /** Each leaf is at least this deep. */
  ghost predicate Within(ts: seq<Token>, d: nat) {
    forall k :: 0 <= k < |ts| ==> d <= |ts[k].path|
  }

  /** Nothing in common that one of the two is not in; with the leaf before the first, d elements. */
  ghost predicate Fit(js: seq<nat>, ts: seq<Token>, d: nat) {
    && |js| == |ts| && Within(ts, d)
    && (js != [] ==> js[0] == d)
    && (forall k :: 0 <= k < |js| ==> d <= js[k] <= |ts[k].path|)
    && (forall k :: 0 < k < |js| ==> js[k] <= |ts[k - 1].path|)
  }

  lemma FitAppend(ja: seq<nat>, ta: seq<Token>, jb: seq<nat>, tb: seq<Token>, d: nat)
    requires Fit(ja, ta, d) && Fit(jb, tb, d)
    ensures Fit(ja + jb, ta + tb, d)
  {
    var js, ts := ja + jb, ta + tb;
    forall k | 0 <= k < |js| ensures d <= js[k] <= |ts[k].path| && (k > 0 ==> js[k] <= |ts[k - 1].path|) {
      if k >= |ja| {
        assert js[k] == jb[k - |ja|] && ts[k] == tb[k - |ta|];
      }
    }
  }

  lemma LeafFits(t: Token, d: nat)
    requires |t.path| == d
    ensures Fit([d], [t], d)
  {
  }

  lemma {:induction false} JointsFit(n: Node, path: seq<string>)
    ensures Fit(Joints(n, |path|), Leaves(n, path), |path|)
    decreases n, 1
  {
    hide Fit;
    if !n.Element? || n.kids == [] {
      NothingFits(|path|);
      if Leaves(n, path) != [] {
        LeafFits(Leaves(n, path)[0], |path|);
        assert Leaves(n, path) == [Leaves(n, path)[0]];
      }
    } else {
      JointsOfFit(n.kids, path + [n.name]);
      FitOutside(JointsOf(n.kids, |path| + 1), LeavesOf(n.kids, path + [n.name]), |path|);
    }
  }

  lemma FitOutside(js: seq<nat>, ts: seq<Token>, d: nat)
    requires Fit(js, ts, d + 1)
    ensures Fit(FirstAt(js, d), ts, d)
  {
  }

  lemma {:induction false} JointsOfFit(nodes: seq<Node>, path: seq<string>)
    ensures Fit(JointsOf(nodes, |path|), LeavesOf(nodes, path), |path|)
    decreases nodes, 0
  {
    hide Fit;
    if nodes == [] {
      NothingFits(|path|);
    } else {
      JointsFit(nodes[0], path);
      JointsOfFit(nodes[1..], path);
      var d := |path|;
      FitAppend(Joints(nodes[0], d), Leaves(nodes[0], path), JointsOf(nodes[1..], d), LeavesOf(nodes[1..], path), d);
    }
  }

  lemma NothingFits(d: nat)
    ensures Fit([], [], d)
  {
  }

  lemma FitIsCut(js: seq<nat>, ts: seq<Token>, d: nat)
    requires Fit(js, ts, d)
    ensures Cut(js, ts) == js
  {
  }

  lemma CutAppend(ja: seq<nat>, ta: seq<Token>, jb: seq<nat>, tb: seq<Token>, d: nat)
    requires |ja| == |ta| && |jb| == |tb| && Within(ta, d) && Within(tb, d)
    requires jb != [] ==> Min(jb[0], |tb[0].path|) == d
    ensures Cut(ja + jb, ta + tb) == Cut(ja, ta) + Cut(jb, tb)
  {
    var js, ts, all := ja + jb, ta + tb, Cut(ja, ta) + Cut(jb, tb);
    forall k | 0 <= k < |js| ensures CutAt(js, ts, k) == all[k] {
      if k < |ja| {
        assert all[k] == CutAt(ja, ta, k);
      } else {
        assert all[k] == CutAt(jb, tb, k - |ja|);
        assert js[k] == jb[k - |ja|] && ts[k] == tb[k - |ta|];
        assert k > |ja| ==> ts[k - 1] == tb[k - 1 - |ta|];
        assert k == |ja| && k > 0 ==> ts[k - 1] == ta[k - 1];
      }
    }
  }

  lemma CutOutside(js: seq<nat>, ts: seq<Token>, d: nat)
    requires |js| == |ts| && Within(ts, d) && forall k :: 0 <= k < |js| ==> d <= js[k]
    ensures FirstAt(Cut(js, ts), d) == Cut(FirstAt(js, d), ts)
  {
    forall k | 0 <= k < |js| ensures FirstAt(Cut(js, ts), d)[k] == CutAt(FirstAt(js, d), ts, k) {
    }
  }

  lemma {:induction false} JointsAppend(a: seq<Node>, b: seq<Node>, d: nat)
    ensures JointsOf(a + b, d) == JointsOf(a, d) + JointsOf(b, d)
    decreases |a|
  {
    if a == [] {
      assert a + b == b;
    } else {
      JointsAppend(a[1..], b, d);
      assert (a + b)[1..] == a[1..] + b;
    }
  }

  lemma JointsOfOne(n: Node, d: nat)
    ensures JointsOf([n], d) == Joints(n, d)
  {
    assert [n][1..] == [];
    assert JointsOf([n], d) == Joints(n, d) + [];
  }

  lemma {:induction false} NoContentNoJoints(nodes: seq<Node>, d: nat)
    requires !HasContent(nodes)
    ensures JointsOf(nodes, d) == []
    decreases |nodes|
  {
    if nodes == [] {
    } else {
      assert nodes[0].Text? && IsBlank(nodes[0].text);
      assert forall i :: 0 <= i < |nodes[1..]| ==> nodes[1..][i] == nodes[i + 1];
      NoContentNoJoints(nodes[1..], d);
    }
  }

  lemma PieceJoints(name: string, kids: seq<Node>, d: nat)
    ensures JointsOf(if HasContent(kids) then [Element(name, kids)] else [], d) == FirstAt(JointsOf(kids, d + 1), d)
  {
    if HasContent(kids) {
      JointsOfOne(Element(name, kids), d);
    } else {
      NoContentNoJoints(kids, d + 1);
    }
  }

  lemma JointsAround(kids: seq<Node>, i: nat, d: nat)
    requires i < |kids| && kids[i].Br?
    ensures JointsOf(kids, d) == JointsOf(kids[..i], d) + [d] + JointsOf(kids[i + 1..], d)
  {
    assert kids == (kids[..i] + [kids[i]]) + kids[i + 1..];
    JointsAppend(kids[..i] + [kids[i]], kids[i + 1..], d);
    JointsAppend(kids[..i], [kids[i]], d);
    JointsOfOne(kids[i], d);
  }

  // ----- a turn of the loop -----

  /** Behind a <br> that is in d elements only. */
  lemma AfterBreak(x: nat, t: Token, jr: seq<nat>, tr: seq<Token>, d: nat)
    requires Fit(jr, tr, d + 1) && |t.path| == d <= x
    ensures Cut([x] + jr, [t] + tr) == [d] + FirstAt(jr, d)
  {
    var js, ts, split := [x] + jr, [t] + tr, [d] + FirstAt(jr, d);
    forall k | 0 <= k < |js| ensures split[k] == CutAt(js, ts, k) {
      if k > 0 {
        assert js[k] == jr[k - 1] && ts[k] == tr[k - 1] && split[k] == FirstAt(jr, d)[k - 1];
        assert k > 1 ==> ts[k - 1] == tr[k - 2];
      }
    }
  }

  lemma FirstOfThree(jl: seq<nat>, jr: seq<nat>, d: nat)
    ensures FirstAt(jl + [d + 1] + jr, d) == FirstAt(jl, d) + ([if jl == [] then d else d + 1] + jr)
  {
    if jl == [] {
      assert jl + [d + 1] + jr == [d + 1] + jr;
    }
  }

  lemma SplitCut(jl: seq<nat>, tl: seq<Token>, t: Token, jr: seq<nat>, tr: seq<Token>, d: nat)
    requires Fit(jl, tl, d + 1) && Fit(jr, tr, d + 1) && |t.path| == d
    ensures FirstAt(jl, d) + [d] + FirstAt(jr, d) == Cut(FirstAt(jl + [d + 1] + jr, d), tl + [t] + tr)
  {
    hide Fit, Cut, FirstAt;
    var x := if jl == [] then d else d + 1;
    FirstOfThree(jl, jr, d);
    FitOutside(jl, tl, d);
    FitIsCut(FirstAt(jl, d), tl, d);
    FitIsDeep(FirstAt(jl, d), tl, d);
    FitIsDeep(jr, tr, d + 1);
    AfterBreak(x, t, jr, tr, d);
    CutAppend(FirstAt(jl, d), tl, [x] + jr, [t] + tr, d);
    assert tl + [t] + tr == tl + ([t] + tr);
    assert FirstAt(jl, d) + [d] + FirstAt(jr, d) == FirstAt(jl, d) + ([d] + FirstAt(jr, d));
  }

  lemma SplitJoints(name: string, kids: seq<Node>, i: nat, id: int, blocks: set<string>, path: seq<string>)
    requires i < |kids| && kids[i].Br? && kids[i].id == id && name !in blocks
    requires Unique(LeavesOf(kids, path + [name]), id)
    ensures |LeavesOf(kids, path + [name])| == |JointsOf(kids, |path| + 1)|
    ensures JointsOf(Split(name, kids, i), |path|)
         == Cut(FirstAt(JointsOf(kids, |path| + 1), |path|), HoistedTokens(LeavesOf(kids, path + [name]), id, blocks))
  {
    hide Leaves, LeavesOf, JointsOf, Joints, HoistedTokens, HasContent, Unique, Fit, Cut;
    var inner, d := path + [name], |path|;
    var left := if HasContent(kids[..i]) then [Element(name, kids[..i])] else [];
    var right := if HasContent(kids[i + 1..]) then [Element(name, kids[i + 1..])] else [];
    PieceJoints(name, kids[..i], d);
    PieceJoints(name, kids[i + 1..], d);
    JointsAppend(left, [kids[i]], d);
    JointsAppend(left + [kids[i]], right, d);
    JointsOfOne(kids[i], d);
    assert Joints(kids[i], d) == [d] by { BreakJoint(kids[i], d); }
    JointsAround(kids, i, d + 1);
    LeavesAround(kids, i, inner);
    var t := Token(inner, Break(id, kids[i].marked));
    HoistedAround(LeavesOf(kids[..i], inner), t, LeavesOf(kids[i + 1..], inner), id, blocks);
    assert inner[..d] == path;
    JointsOfFit(kids[..i], inner);
    JointsOfFit(kids[i + 1..], inner);
    FitLength(JointsOf(kids[..i], d + 1), LeavesOf(kids[..i], inner), d + 1);
    FitLength(JointsOf(kids[i + 1..], d + 1), LeavesOf(kids[i + 1..], inner), d + 1);
    SplitCut(JointsOf(kids[..i], d + 1), LeavesOf(kids[..i], inner), HoistedToken(t, id, blocks),
             JointsOf(kids[i + 1..], d + 1), LeavesOf(kids[i + 1..], inner), d);
  }

  lemma BreakJoint(n: Node, d: nat)
    requires n.Br?
    ensures Joints(n, d) == [d]
  {
  }

  lemma FitLength(js: seq<nat>, ts: seq<Token>, d: nat)
    requires Fit(js, ts, d)
    ensures |js| == |ts| && Within(ts, d)
  {
  }

  lemma UnmarkedJoints(name: string, kids: seq<Node>, i: nat, id: int, blocks: set<string>, path: seq<string>)
    requires i < |kids| && kids[i].Br? && kids[i].id == id && name in blocks
    requires Unique(LeavesOf(kids, path + [name]), id)
    ensures |LeavesOf(kids, path + [name])| == |JointsOf(kids, |path| + 1)|
    ensures JointsOf([Element(name, kids[i := Br(id, false)])], |path|)
         == Cut(FirstAt(JointsOf(kids, |path| + 1), |path|), HoistedTokens(LeavesOf(kids, path + [name]), id, blocks))
  {
    hide Leaves, LeavesOf, JointsOf, HoistedTokens, Unique, Fit, Cut;
    var inner, d := path + [name], |path|;
    var kids' := kids[i := Br(id, false)];
    JointsOfOne(Element(name, kids'), d);
    JointsAround(kids, i, d + 1);
    JointsAround(kids', i, d + 1);
    assert kids'[..i] == kids[..i] && kids'[i + 1..] == kids[i + 1..];
    LeavesAround(kids, i, inner);
    var t := Token(inner, Break(id, kids[i].marked));
    HoistedAround(LeavesOf(kids[..i], inner), t, LeavesOf(kids[i + 1..], inner), id, blocks);
    JointsOfFit(kids, inner);
    FitLength(JointsOf(kids, d + 1), LeavesOf(kids, inner), d + 1);
    FitOutside(JointsOf(kids, d + 1), LeavesOf(kids, inner), d);
    FitIsCut(FirstAt(JointsOf(kids, d + 1), d), LeavesOf(kids, inner), d);
    var hoisted := HoistedTokens(LeavesOf(kids, inner), id, blocks);
    CutSamePaths(FirstAt(JointsOf(kids, d + 1), d), LeavesOf(kids, inner), hoisted);
  }

  lemma CutSamePaths(js: seq<nat>, ts: seq<Token>, ts': seq<Token>)
    requires |js| == |ts| == |ts'| && forall k :: 0 <= k < |ts| ==> ts'[k].path == ts[k].path
    ensures Cut(js, ts') == Cut(js, ts)
  {
    forall k | 0 <= k < |js| ensures CutAt(js, ts', k) == CutAt(js, ts, k) {
    }
  }

  /** A <br> that is not a node itself is deeper inside it. */
  ghost predicate BreakWithin(ts: seq<Token>, id: int, d: nat) {
    Within(ts, d) && forall k :: 0 <= k < |ts| && IsBreak(ts[k], id) ==> d < |ts[k].path|
  }

  lemma BreakIsDeeper(n: Node, id: int, path: seq<string>)
    requires !(n.Br? && n.id == id)
    ensures BreakWithin(Leaves(n, path), id, |path|)
  {
    JointsFit(n, path);
    if n.Element? && n.kids != [] {
      JointsOfFit(n.kids, path + [n.name]);
    }
  }

  lemma {:induction false} BreaksAreDeeper(nodes: seq<Node>, id: int, path: seq<string>)
    requires IndexOfBr(nodes, id) == |nodes|
    ensures BreakWithin(LeavesOf(nodes, path), id, |path|)
    decreases |nodes|
  {
    hide Leaves;
    if nodes == [] {
    } else {
      BreakIsDeeper(nodes[0], id, path);
      BreaksAreDeeper(nodes[1..], id, path);
      BreaksAppend(Leaves(nodes[0], path), LeavesOf(nodes[1..], path), id, |path|);
    }
  }

  lemma BreaksAppend(a: seq<Token>, b: seq<Token>, id: int, d: nat)
    requires BreakWithin(a, id, d) && BreakWithin(b, id, d)
    ensures BreakWithin(a + b, id, d)
  {
  }

  lemma HoistedStaysWithin(ts: seq<Token>, id: int, blocks: set<string>, d: nat)
    requires BreakWithin(ts, id, d)
    ensures Within(HoistedTokens(ts, id, blocks), d)
  {
  }

  /** The loop body does to the joints just what moving its <br> out of one element has to. */
  lemma {:induction false} HoistInJoints(n: Node, id: int, blocks: set<string>, path: seq<string>)
    requires Unique(Leaves(n, path), id) && !(n.Br? && n.id == id)
    ensures |Joints(n, |path|)| == |Leaves(n, path)|
    ensures JointsOf(HoistIn(n, id, blocks), |path|)
         == Cut(Joints(n, |path|), HoistedTokens(Leaves(n, path), id, blocks))
    decreases n, 1
  {
    hide Unique, HoistedTokens, Fit, Cut;
    var d := |path|;
    JointsFit(n, path);
    FitLength(Joints(n, d), Leaves(n, path), d);
    if n.Element? {
      var i := IndexOfBr(n.kids, id);
      if i < |n.kids| {
        if n.name in blocks {
          UnmarkedJoints(n.name, n.kids, i, id, blocks, path);
        } else {
          SplitJoints(n.name, n.kids, i, id, blocks, path);
        }
      } else {
        DeeperJoints(n.name, n.kids, id, blocks, path);
      }
    } else {
      JointsOfOne(n, d);
      NoBreakHere(n, id, path);
      AbsentStays(Leaves(n, path), id, blocks);
      FitIsCut(Joints(n, d), Leaves(n, path), d);
    }
  }

  lemma NoBreakHere(n: Node, id: int, path: seq<string>)
    requires !n.Element? && !(n.Br? && n.id == id)
    ensures Absent(Leaves(n, path), id)
  {
  }

  lemma {:induction false} DeeperJoints(name: string, kids: seq<Node>, id: int, blocks: set<string>, path: seq<string>)
    requires IndexOfBr(kids, id) == |kids| && Unique(Leaves(Element(name, kids), path), id)
    ensures |Joints(Element(name, kids), |path|)| == |Leaves(Element(name, kids), path)|
    ensures JointsOf([Element(name, HoistInAll(kids, id, blocks))], |path|)
         == Cut(Joints(Element(name, kids), |path|), HoistedTokens(Leaves(Element(name, kids), path), id, blocks))
    decreases kids, 1
  {
    var d, inner := |path|, path + [name];
    JointsOfOne(Element(name, HoistInAll(kids, id, blocks)), d);
    if kids == [] {
      EmptyIsCut(name, id, blocks, path);
    } else {
      hide Unique, HoistedTokens, Fit, Cut;
      HoistInAllJoints(kids, id, blocks, inner);
      HoistInAllLeaves(kids, id, blocks, inner);
      BreaksAreDeeper(kids, id, inner);
      HoistedStaysWithin(LeavesOf(kids, inner), id, blocks, d + 1);
      JointsOfFit(kids, inner);
      FitIsDeep(JointsOf(kids, d + 1), LeavesOf(kids, inner), d + 1);
      CutOutside(JointsOf(kids, d + 1), HoistedTokens(LeavesOf(kids, inner), id, blocks), d);
    }
  }

  lemma EmptyIsCut(name: string, id: int, blocks: set<string>, path: seq<string>)
    ensures Leaves(Element(name, []), path) == [Token(path, Empty(name))]
    ensures Joints(Element(name, []), |path|) == [|path|]
    ensures Cut([|path|], HoistedTokens([Token(path, Empty(name))], id, blocks)) == [|path|]
  {
  }

  lemma FitIsDeep(js: seq<nat>, ts: seq<Token>, d: nat)
    requires Fit(js, ts, d)
    ensures |js| == |ts| && Within(ts, d) && (js != [] ==> js[0] == d) && forall k :: 0 <= k < |js| ==> d <= js[k]
  {
  }

  lemma {:induction false} HoistInAllJoints(nodes: seq<Node>, id: int, blocks: set<string>, path: seq<string>)
    requires IndexOfBr(nodes, id) == |nodes| && Unique(LeavesOf(nodes, path), id)
    ensures |JointsOf(nodes, |path|)| == |LeavesOf(nodes, path)|
    ensures JointsOf(HoistInAll(nodes, id, blocks), |path|)
         == Cut(JointsOf(nodes, |path|), HoistedTokens(LeavesOf(nodes, path), id, blocks))
    decreases nodes, 0
  {
    hide HoistIn, Leaves, Joints, HoistedTokens, Unique, Fit, Cut, Within, BreakWithin;
    var d := |path|;
    if nodes == [] {
      assert HoistedTokens([], id, blocks) == [] by { AbsentStays([], id, blocks); }
      assert Cut([], []) == [];
    } else {
      var n, rest := nodes[0], nodes[1..];
      UniqueParts(Leaves(n, path), LeavesOf(rest, path), id);
      HoistInJoints(n, id, blocks, path);
      HoistInAllJoints(rest, id, blocks, path);
      JointsAppend(HoistIn(n, id, blocks), HoistInAll(rest, id, blocks), d);
      HoistedAppend(Leaves(n, path), LeavesOf(rest, path), id, blocks);
      BreakIsDeeper(n, id, path);
      BreaksAreDeeper(rest, id, path);
      HoistedStaysWithin(Leaves(n, path), id, blocks, d);
      HoistedStaysWithin(LeavesOf(rest, path), id, blocks, d);
      JointsOfFit(rest, path);
      FitIsDeep(JointsOf(rest, d), LeavesOf(rest, path), d);
      CutAppend(Joints(n, d), HoistedTokens(Leaves(n, path), id, blocks),
                JointsOf(rest, d), HoistedTokens(LeavesOf(rest, path), id, blocks), d);
    }
  }

  // ----- turn after turn -----

  /** Paths only get shorter, so a later cut says all that an earlier one did. */
  lemma CutTwice(js: seq<nat>, ts: seq<Token>, id: int, blocks: set<string>)
    requires |js| == |ts|
    ensures Cut(Cut(js, ts), HoistedTokens(ts, id, blocks)) == Cut(js, HoistedTokens(ts, id, blocks))
  {
    var ts' := HoistedTokens(ts, id, blocks);
    forall k | 0 <= k < |ts| ensures |ts'[k].path| <= |ts[k].path| {
    }
    forall k | 0 <= k < |ts| ensures CutAt(Cut(js, ts), ts', k) == CutAt(js, ts', k) {
    }
  }

  lemma {:induction false} MarkedJoints(n: Node, d: nat)
    ensures Joints(MarkAll(n), d) == Joints(n, d)
    decreases n, 1
  {
    if n.Element? {
      MarkedJointsOf(n.kids, d + 1);
    }
  }

  lemma {:induction false} MarkedJointsOf(nodes: seq<Node>, d: nat)
    ensures JointsOf(MarkEach(nodes), d) == JointsOf(nodes, d)
    decreases nodes, 0
  {
    if nodes == [] {
    } else {
      MarkedJoints(nodes[0], d);
      MarkedJointsOf(nodes[1..], d);
      assert MarkEach(nodes)[1..] == MarkEach(nodes[1..]);
    }
  }
}
