/** HtmlToMarkdown#hoist_line_breaks!: splitting inline elements around the <br>s inside them. */
module LineBreaks {

  /** A DOM node; the id of a <br> is its identity, `marked` tells whether it carries the temporary class. */
  datatype Node =
    | Text(text: string)
    | Br(id: int, marked: bool)
    | Element(name: string, kids: seq<Node>)

  predicate IsSpace(c: char) {
    || c == ' ' || '\t' <= c <= '\r' || c == '\U{85}' || c == '\U{1680}' || '\U{2000}' <= c <= '\U{200a}'
    || c == '\U{2028}' || c == '\U{2029}' || c == '\U{202f}' || c == '\U{205f}' || c == '\U{3000}'
  }

  predicate IsBlank(text: string) {
    forall i :: 0 <= i < |text| ==> IsSpace(text[i])
  }

  /** `inner_html.present?`: anything but white space. */
  predicate HasContent(nodes: seq<Node>) {
    exists i :: 0 <= i < |nodes| && !(nodes[i].Text? && IsBlank(nodes[i].text))
  }

  /** The index of the child that is this <br>, or the number of children. */
  function IndexOfBr(kids: seq<Node>, id: int): (i: nat)
    ensures i <= |kids|
    ensures i < |kids| ==> kids[i].Br? && kids[i].id == id
    ensures forall j :: 0 <= j < i ==> !(kids[j].Br? && kids[j].id == id)
    decreases |kids|
  {
    if kids == [] || (kids[0].Br? && kids[0].id == id) then 0 else 1 + IndexOfBr(kids[1..], id)
  }

  /** The copies of an inline element around its i-th child, which takes its place; empty copies are not made. */
  function Split(name: string, kids: seq<Node>, i: nat): seq<Node>
    requires i < |kids|
  {
    (if HasContent(kids[..i]) then [Element(name, kids[..i])] else [])
    + [kids[i]]
    + (if HasContent(kids[i + 1..]) then [Element(name, kids[i + 1..])] else [])
  }

  /** What replaces a node when the loop body runs for this <br>. */
  function HoistIn(n: Node, id: int, blocks: set<string>): seq<Node>
    decreases n, 1
  {
    if !n.Element? then [n]
    else
      var i := IndexOfBr(n.kids, id);
      if i == |n.kids| then [Element(n.name, HoistInAll(n.kids, id, blocks))]
      else if n.name in blocks then [Element(n.name, n.kids[i := Br(id, false)])]
      else Split(n.name, n.kids, i)
  }

  function HoistInAll(nodes: seq<Node>, id: int, blocks: set<string>): seq<Node>
    decreases nodes, 0
  {
    if nodes == [] then [] else HoistIn(nodes[0], id, blocks) + HoistInAll(nodes[1..], id, blocks)
  }

  // ----- a document as the sequence of its leaves, each with the names around it -----

  datatype Leaf = Words(text: string) | Break(id: int, marked: bool) | Empty(name: string)

  datatype Token = Token(path: seq<string>, leaf: Leaf)

  /** The leaves in document order; white space between elements is not one. */
  function Leaves(n: Node, path: seq<string>): seq<Token>
    decreases n, 1
  {
    match n
    case Text(text) => if IsBlank(text) then [] else [Token(path, Words(text))]
    case Br(id, marked) => [Token(path, Break(id, marked))]
    case Element(name, kids) =>
      if kids == [] then [Token(path, Empty(name))] else LeavesOf(kids, path + [name])
  }

  function LeavesOf(nodes: seq<Node>, path: seq<string>): seq<Token>
    decreases nodes, 0
  {
    if nodes == [] then [] else Leaves(nodes[0], path) + LeavesOf(nodes[1..], path)
  }

  predicate IsBreak(t: Token, id: int) { t.leaf.Break? && t.leaf.id == id }

  /** What the loop body does to a leaf: its <br> loses its inline parent, or its mark. */
  function HoistedToken(t: Token, id: int, blocks: set<string>): Token {
    if IsBreak(t, id) && t.path != [] then
      if t.path[|t.path| - 1] in blocks then t.(leaf := Break(id, false)) else t.(path := t.path[..|t.path| - 1])
    else t
  }

  function HoistedTokens(ts: seq<Token>, id: int, blocks: set<string>): (r: seq<Token>)
    ensures |r| == |ts|
  {
    seq(|ts|, i requires 0 <= i < |ts| => HoistedToken(ts[i], id, blocks))
  }

  /** No other leaf is the same <br>. */
  ghost predicate Unique(ts: seq<Token>, id: int) {
    forall i, j :: 0 <= i < j < |ts| && IsBreak(ts[i], id) ==> !IsBreak(ts[j], id)
  }

  ghost predicate Absent(ts: seq<Token>, id: int) {
    forall i :: 0 <= i < |ts| ==> !IsBreak(ts[i], id)
  }

  lemma {:induction false} LeavesAppend(a: seq<Node>, b: seq<Node>, path: seq<string>)
    ensures LeavesOf(a + b, path) == LeavesOf(a, path) + LeavesOf(b, path)
    decreases |a|
  {
    if a == [] {
      assert a + b == b;
    } else {
      LeavesAppend(a[1..], b, path);
      assert (a + b)[1..] == a[1..] + b;
    }
  }

  lemma HoistedAppend(a: seq<Token>, b: seq<Token>, id: int, blocks: set<string>)
    ensures HoistedTokens(a + b, id, blocks) == HoistedTokens(a, id, blocks) + HoistedTokens(b, id, blocks)
  {
  }

  lemma AbsentStays(ts: seq<Token>, id: int, blocks: set<string>)
    requires Absent(ts, id)
    ensures HoistedTokens(ts, id, blocks) == ts
  {
  }

  lemma UniqueParts(a: seq<Token>, b: seq<Token>, id: int)
    requires Unique(a + b, id)
    ensures Unique(a, id) && Unique(b, id) && (Absent(a, id) || Absent(b, id))
  {
    assert forall i :: 0 <= i < |a| ==> (a + b)[i] == a[i];
    assert forall i :: 0 <= i < |b| ==> (a + b)[|a| + i] == b[i];
  }

  lemma {:induction false} NoContentNoLeaves(nodes: seq<Node>, path: seq<string>)
    requires !HasContent(nodes)
    ensures LeavesOf(nodes, path) == []
    decreases |nodes|
  {
    if nodes == [] {
    } else {
      assert nodes[0].Text? && IsBlank(nodes[0].text);
      assert forall i :: 0 <= i < |nodes[1..]| ==> nodes[1..][i] == nodes[i + 1];
      NoContentNoLeaves(nodes[1..], path);
    }
  }

  lemma ElementLeaves(name: string, kids: seq<Node>, path: seq<string>)
    requires HasContent(kids)
    ensures LeavesOf([Element(name, kids)], path) == LeavesOf(kids, path + [name])
  {
    var e := [Element(name, kids)];
    assert e[1..] == [];
    assert LeavesOf(e, path) == Leaves(e[0], path) + [];
  }

  /** The leaves around a <br> that is a child. */
  lemma LeavesAround(kids: seq<Node>, i: nat, path: seq<string>)
    requires i < |kids| && kids[i].Br?
    ensures LeavesOf(kids, path)
            == LeavesOf(kids[..i], path)
               + [Token(path, Break(kids[i].id, kids[i].marked))]
               + LeavesOf(kids[i + 1..], path)
  {
    assert kids == kids[..i] + ([kids[i]] + kids[i + 1..]);
    LeavesAppend(kids[..i], [kids[i]] + kids[i + 1..], path);
    assert ([kids[i]] + kids[i + 1..])[1..] == kids[i + 1..];
  }

  lemma NotThisBreak(t: Token, id: int, blocks: set<string>)
    ensures !IsBreak(t, id) ==> HoistedToken(t, id, blocks) == t
  {
  }

  /** With one such <br>, only its own leaf changes. */
  lemma HoistedAround(a: seq<Token>, t: Token, b: seq<Token>, id: int, blocks: set<string>)
    requires Unique(a + [t] + b, id) && IsBreak(t, id)
    ensures HoistedTokens(a + [t] + b, id, blocks) == a + [HoistedToken(t, id, blocks)] + b
  {
    var all := a + [t] + b;
    var hoisted, expected := HoistedTokens(all, id, blocks), a + [HoistedToken(t, id, blocks)] + b;
    hide HoistedToken;
    forall i | 0 <= i < |all| ensures hoisted[i] == expected[i] {
      assert all[|a|] == t;
      assert i != |a| ==> !IsBreak(all[i], id);
      NotThisBreak(all[i], id, blocks);
    }
  }

  lemma UnmarkedLeaves(name: string, kids: seq<Node>, i: nat, id: int, blocks: set<string>, path: seq<string>)
    requires i < |kids| && kids[i].Br? && kids[i].id == id && name in blocks
    requires Unique(LeavesOf(kids, path + [name]), id)
    ensures LeavesOf([Element(name, kids[i := Br(id, false)])], path)
            == HoistedTokens(LeavesOf(kids, path + [name]), id, blocks)
  {
    var inner := path + [name];
    var kids' := kids[i := Br(id, false)];
    LeavesAround(kids, i, inner);
    LeavesAround(kids', i, inner);
    assert kids'[..i] == kids[..i] && kids'[i + 1..] == kids[i + 1..];
    var t := Token(inner, Break(id, kids[i].marked));
    HoistedAround(LeavesOf(kids[..i], inner), t, LeavesOf(kids[i + 1..], inner), id, blocks);
    assert HasContent(kids') by { assert kids'[i].Br?; }
    ElementLeaves(name, kids', path);
  }

  lemma SplitLeaves(name: string, kids: seq<Node>, i: nat, id: int, blocks: set<string>, path: seq<string>)
    requires i < |kids| && kids[i].Br? && kids[i].id == id && name !in blocks
    requires Unique(LeavesOf(kids, path + [name]), id)
    ensures LeavesOf(Split(name, kids, i), path) == HoistedTokens(LeavesOf(kids, path + [name]), id, blocks)
  {
    hide Leaves, LeavesOf, HoistedTokens, HasContent, Unique;
    var inner := path + [name];
    var before, after := LeavesOf(kids[..i], inner), LeavesOf(kids[i + 1..], inner);
    var t := Token(inner, Break(id, kids[i].marked));
    LeavesAround(kids, i, inner);
    HoistedAround(before, t, after, id, blocks);
    assert inner[..|inner| - 1] == path;
    PieceLeaves(name, kids[..i], path);
    PieceLeaves(name, kids[i + 1..], path);
    var left := if HasContent(kids[..i]) then [Element(name, kids[..i])] else [];
    var right := if HasContent(kids[i + 1..]) then [Element(name, kids[i + 1..])] else [];
    LeavesAppend(left, [kids[i]], path);
    LeavesAppend(left + [kids[i]], right, path);
    BreakLeaf(id, kids[i].marked, path);
  }

  lemma BreakLeaf(id: int, marked: bool, path: seq<string>)
    ensures LeavesOf([Br(id, marked)], path) == [Token(path, Break(id, marked))]
  {
    assert [Br(id, marked)][1..] == [];
  }

  lemma PieceLeaves(name: string, kids: seq<Node>, path: seq<string>)
    ensures LeavesOf(if HasContent(kids) then [Element(name, kids)] else [], path) == LeavesOf(kids, path + [name])
  {
    if HasContent(kids) {
      ElementLeaves(name, kids, path);
    } else {
      NoContentNoLeaves(kids, path + [name]);
    }
  }

  /** Splitting and unmarking do to the document exactly what `HoistedTokens` does to its leaves. */
  lemma {:induction false} HoistInLeaves(n: Node, id: int, blocks: set<string>, path: seq<string>)
    requires Unique(Leaves(n, path), id) && !(n.Br? && n.id == id)
    ensures LeavesOf(HoistIn(n, id, blocks), path) == HoistedTokens(Leaves(n, path), id, blocks)
    ensures HoistIn(n, id, blocks) != []
    decreases n, 1
  {
    hide Unique, HoistedTokens;
    if n.Element? {
      var i := IndexOfBr(n.kids, id);
      if i < |n.kids| {
        if n.name in blocks {
          UnmarkedLeaves(n.name, n.kids, i, id, blocks, path);
        } else {
          SplitLeaves(n.name, n.kids, i, id, blocks, path);
        }
      } else {
        DeeperLeaves(n.name, n.kids, id, blocks, path);
      }
    } else {
      SingleLeaves(n, path);
      AbsentStays(Leaves(n, path), id, blocks);
    }
  }

  lemma SingleLeaves(n: Node, path: seq<string>)
    ensures LeavesOf([n], path) == Leaves(n, path)
  {
    assert [n][1..] == [];
    assert Leaves(n, path) + [] == Leaves(n, path);
  }

  lemma {:induction false} DeeperLeaves(name: string, kids: seq<Node>, id: int, blocks: set<string>, path: seq<string>)
    requires IndexOfBr(kids, id) == |kids| && Unique(Leaves(Element(name, kids), path), id)
    ensures LeavesOf([Element(name, HoistInAll(kids, id, blocks))], path)
            == HoistedTokens(Leaves(Element(name, kids), path), id, blocks)
    decreases kids, 1
  {
    SingleLeaves(Element(name, HoistInAll(kids, id, blocks)), path);
    if kids != [] {
      HoistInAllLeaves(kids, id, blocks, path + [name]);
    }
  }

  lemma {:induction false} HoistInAllLeaves(nodes: seq<Node>, id: int, blocks: set<string>, path: seq<string>)
    requires IndexOfBr(nodes, id) == |nodes| && Unique(LeavesOf(nodes, path), id)
    ensures LeavesOf(HoistInAll(nodes, id, blocks), path) == HoistedTokens(LeavesOf(nodes, path), id, blocks)
    ensures nodes != [] ==> HoistInAll(nodes, id, blocks) != []
    decreases nodes, 0
  {
    if nodes == [] {
    } else {
      hide HoistIn, Leaves, HoistedTokens, Unique;
      var n, rest := nodes[0], nodes[1..];
      UniqueParts(Leaves(n, path), LeavesOf(rest, path), id);
      HoistInLeaves(n, id, blocks, path);
      HoistInAllLeaves(rest, id, blocks, path);
      LeavesAppend(HoistIn(n, id, blocks), HoistInAll(rest, id, blocks), path);
      HoistedAppend(Leaves(n, path), LeavesOf(rest, path), id, blocks);
    }
  }

  // ----- where a <br> ends up -----

  /** The path up to the nearest block element. */
  function Landing(path: seq<string>, blocks: set<string>): (l: seq<string>)
    ensures |l| <= |path|
  {
    if path == [] || path[|path| - 1] in blocks then path else Landing(path[..|path| - 1], blocks)
  }

  function SettledToken(t: Token, blocks: set<string>): Token {
    if t.leaf.Break? then Token(Landing(t.path, blocks), Break(t.leaf.id, false)) else t
  }

  function Settled(ts: seq<Token>, blocks: set<string>): (r: seq<Token>)
    ensures |r| == |ts|
  {
    seq(|ts|, i requires 0 <= i < |ts| => SettledToken(ts[i], blocks))
  }

  /** In a document with a block root, a settled <br> is in the innermost block element around it. */
  lemma {:induction false} LandingIsBlock(path: seq<string>, blocks: set<string>)
    requires path != [] && path[0] in blocks
    ensures var l := Landing(path, blocks); l != [] && l[|l| - 1] in blocks && l <= path
    ensures forall i :: |Landing(path, blocks)| <= i < |path| ==> path[i] !in blocks
  {
    if path[|path| - 1] !in blocks {
      LandingIsBlock(path[..|path| - 1], blocks);
    }
  }

  /** So no <br> is left under an inline parent, and only inline elements around it were split. */
  lemma BreaksLandInBlocks(doc: Node, blocks: set<string>)
    requires doc.Element? && doc.name in blocks
    ensures var before, after := Leaves(doc, []), Settled(Leaves(doc, []), blocks);
            forall i :: 0 <= i < |before| && before[i].leaf.Break? ==>
              && after[i].path != [] && after[i].path[|after[i].path| - 1] in blocks
              && after[i].path <= before[i].path
              && forall k :: |after[i].path| <= k < |before[i].path| ==> before[i].path[k] !in blocks
  {
    var before, after := Leaves(doc, []), Settled(Leaves(doc, []), blocks);
    PathsStartAtRoot(doc, []);
    forall i | 0 <= i < |before| && before[i].leaf.Break?
      ensures after[i].path != [] && after[i].path[|after[i].path| - 1] in blocks && after[i].path <= before[i].path
      ensures forall k :: |after[i].path| <= k < |before[i].path| ==> before[i].path[k] !in blocks
    {
      assert ([] + [doc.name])[0] == doc.name;
      LandingIsBlock(before[i].path, blocks);
    }
  }

  // ----- the loop, seen on the leaves -----

  function Marked(t: Token): bool { t.leaf.Break? && t.leaf.marked }

  /** What a marked <br> still costs: one for its mark, one for each inline element around it. */
  function Cost(t: Token, blocks: set<string>): nat {
    if Marked(t) then 1 + |t.path| - |Landing(t.path, blocks)| else 0
  }

  function TotalCost(ts: seq<Token>, blocks: set<string>): nat {
    if ts == [] then 0 else TotalCost(ts[..|ts| - 1], blocks) + Cost(ts[|ts| - 1], blocks)
  }

  ghost predicate IsMarked(ts: seq<Token>, id: int) {
    exists k :: 0 <= k < |ts| && IsBreak(ts[k], id) && Marked(ts[k])
  }

  /** One turn pays exactly one unit. */
  lemma {:induction false} HoistingPays(ts: seq<Token>, id: int, k: nat, blocks: set<string>)
    requires Unique(ts, id) && k < |ts| && IsBreak(ts[k], id) && Marked(ts[k]) && ts[k].path != []
    ensures TotalCost(HoistedTokens(ts, id, blocks), blocks) == TotalCost(ts, blocks) - 1
    decreases |ts|
  {
    var init, last := ts[..|ts| - 1], ts[|ts| - 1];
    assert HoistedTokens(ts, id, blocks)[..|ts| - 1] == HoistedTokens(init, id, blocks);
    if k < |ts| - 1 {
      HoistingPays(init, id, k, blocks);
      assert HoistedToken(last, id, blocks) == last;
    } else {
      AbsentStays(init, id, blocks);
    }
  }

  /** A leaf on its way: everything but a <br> is where it was, a <br> between there and its landing. */
  predicate OnItsWay(o: Token, t: Token, blocks: set<string>) {
    if o.leaf.Break? then
      && t.leaf.Break? && t.leaf.id == o.leaf.id
      && t.path != [] && t.path[0] in blocks
      && Landing(t.path, blocks) == Landing(o.path, blocks)
      && (!t.leaf.marked ==> t.path == Landing(o.path, blocks))
    else t == o
  }

  ghost predicate AllOnTheirWay(orig: seq<Token>, ts: seq<Token>, blocks: set<string>) {
    |ts| == |orig| && forall i :: 0 <= i < |ts| ==> OnItsWay(orig[i], ts[i], blocks)
  }

  ghost predicate DistinctBreaks(ts: seq<Token>) {
    forall i, j :: 0 <= i < j < |ts| && ts[i].leaf.Break? && ts[j].leaf.Break? ==> ts[i].leaf.id != ts[j].leaf.id
  }

  lemma HoistedOnTheirWay(orig: seq<Token>, ts: seq<Token>, id: int, blocks: set<string>)
    requires AllOnTheirWay(orig, ts, blocks)
    ensures AllOnTheirWay(orig, HoistedTokens(ts, id, blocks), blocks)
  {
    var ts' := HoistedTokens(ts, id, blocks);
    forall i | 0 <= i < |ts'| ensures OnItsWay(orig[i], ts'[i], blocks) {
      assert OnItsWay(orig[i], ts[i], blocks);
    }
  }

  lemma ArrivedIsSettled(orig: seq<Token>, ts: seq<Token>, blocks: set<string>)
    requires AllOnTheirWay(orig, ts, blocks) && forall i :: 0 <= i < |ts| ==> !Marked(ts[i])
    ensures ts == Settled(orig, blocks)
  {
    forall i | 0 <= i < |ts| ensures ts[i] == SettledToken(orig[i], blocks) {
      assert OnItsWay(orig[i], ts[i], blocks);
    }
  }

  lemma NoIdNoMark(ts: seq<Token>)
    ensures (forall id :: !IsMarked(ts, id)) ==> forall i :: 0 <= i < |ts| ==> !Marked(ts[i])
  {
    forall i | 0 <= i < |ts| ensures Marked(ts[i]) ==> IsMarked(ts, ts[i].leaf.id) {
    }
  }

  /** `doc.css("br.klass")`, by identity. */
  function MarkedIds(ts: seq<Token>): (ids: seq<int>) {
    if ts == [] then []
    else if Marked(ts[|ts| - 1]) then MarkedIds(ts[..|ts| - 1]) + [ts[|ts| - 1].leaf.id]
    else MarkedIds(ts[..|ts| - 1])
  }

  lemma {:induction false} MarkedIdsAre(ts: seq<Token>)
    ensures forall id :: id in MarkedIds(ts) <==> IsMarked(ts, id)
    ensures DistinctBreaks(ts) ==> forall i, j :: 0 <= i < j < |MarkedIds(ts)| ==> MarkedIds(ts)[i] != MarkedIds(ts)[j]
  {
    if ts == [] {
    } else {
      var init, last := ts[..|ts| - 1], ts[|ts| - 1];
      MarkedIdsAre(init);
      forall id ensures IsMarked(ts, id) <==> IsMarked(init, id) || (Marked(last) && last.leaf.id == id) {
        if IsMarked(init, id) {
          var k :| 0 <= k < |init| && IsBreak(init[k], id) && Marked(init[k]);
          assert IsBreak(ts[k], id) && Marked(ts[k]);
        }
      }
      assert DistinctBreaks(ts) && Marked(last) ==> last.leaf.id !in MarkedIds(init);
    }
  }

  // ----- marking -----

  function MarkAll(n: Node): Node
    decreases n, 1
  {
    match n
    case Text(_) => n
    case Br(id, _) => Br(id, true)
    case Element(name, kids) => Element(name, MarkEach(kids))
  }

  function MarkEach(nodes: seq<Node>): (r: seq<Node>)
    ensures |r| == |nodes|
    decreases nodes, 0
  {
    if nodes == [] then [] else [MarkAll(nodes[0])] + MarkEach(nodes[1..])
  }

  function MarkedToken(t: Token): Token {
    if t.leaf.Break? then t.(leaf := Break(t.leaf.id, true)) else t
  }

  function MarkedTokens(ts: seq<Token>): (r: seq<Token>)
    ensures |r| == |ts|
  {
    seq(|ts|, i requires 0 <= i < |ts| => MarkedToken(ts[i]))
  }

  lemma MarkedAppend(a: seq<Token>, b: seq<Token>)
    ensures MarkedTokens(a + b) == MarkedTokens(a) + MarkedTokens(b)
  {
    hide MarkedToken;
  }

  lemma {:induction false} MarkAllLeaves(n: Node, path: seq<string>)
    ensures Leaves(MarkAll(n), path) == MarkedTokens(Leaves(n, path))
    decreases n, 1
  {
    if n.Element? && n.kids != [] {
      MarkEachLeaves(n.kids, path + [n.name]);
    }
  }

  lemma {:induction false} MarkEachLeaves(nodes: seq<Node>, path: seq<string>)
    ensures LeavesOf(MarkEach(nodes), path) == MarkedTokens(LeavesOf(nodes, path))
    decreases nodes, 0
  {
    hide MarkedTokens;
    if nodes == [] {
    } else {
      MarkAllLeaves(nodes[0], path);
      MarkEachLeaves(nodes[1..], path);
      MarkedAppend(Leaves(nodes[0], path), LeavesOf(nodes[1..], path));
      assert MarkEach(nodes)[1..] == MarkEach(nodes[1..]);
    }
  }

  /** Every path below a node starts with the path to it and its name. */
  lemma {:induction false} PathsStartAtRoot(n: Node, path: seq<string>)
    requires n.Element?
    ensures forall i :: 0 <= i < |Leaves(n, path)| && Leaves(n, path)[i].leaf.Break? ==>
              path + [n.name] <= Leaves(n, path)[i].path
    decreases n, 1
  {
    if n.kids != [] {
      PathsStartAt(n.kids, path + [n.name]);
    }
  }

  lemma {:induction false} PathsStartAt(nodes: seq<Node>, path: seq<string>)
    ensures forall i :: 0 <= i < |LeavesOf(nodes, path)| && LeavesOf(nodes, path)[i].leaf.Break? ==>
              path <= LeavesOf(nodes, path)[i].path
    decreases nodes, 0
  {
    if nodes == [] {
    } else {
      PathsStartAt(nodes[1..], path);
      if nodes[0].Element? {
        PathsStartAtRoot(nodes[0], path);
      }
    }
  }

  /** At a block root the loop body replaces the root by one node. */
  lemma HoistAtRoot(doc: Node, id: int, blocks: set<string>)
    requires doc.Element? && doc.name in blocks && Unique(Leaves(doc, []), id)
    ensures |HoistIn(doc, id, blocks)| == 1
    ensures var doc' := HoistIn(doc, id, blocks)[0];
            doc'.Element? && doc'.name == doc.name && Leaves(doc', []) == HoistedTokens(Leaves(doc, []), id, blocks)
  {
    HoistInLeaves(doc, id, blocks, []);
    SingleLeaves(HoistIn(doc, id, blocks)[0], []);
  }

  /** Whether the <br>'s parent is a block element: `block?(br.parent)`. */
  function ParentIsBlock(ts: seq<Token>, id: int, blocks: set<string>): bool {
    if ts == [] then false
    else if IsBreak(ts[|ts| - 1], id) then
      var path := ts[|ts| - 1].path;
      path != [] && path[|path| - 1] in blocks
    else ParentIsBlock(ts[..|ts| - 1], id, blocks)
  }

  lemma {:induction false} ParentIsBlockAt(ts: seq<Token>, id: int, blocks: set<string>, k: nat)
    requires Unique(ts, id) && k < |ts| && IsBreak(ts[k], id)
    ensures ParentIsBlock(ts, id, blocks) == (ts[k].path != [] && ts[k].path[|ts[k].path| - 1] in blocks)
  {
    if k >= |ts| - 1 {
    } else {
      ParentIsBlockAt(ts[..|ts| - 1], id, blocks, k);
    }
  }

  lemma LoopStarts(doc: Node, blocks: set<string>)
    requires doc.Element? && doc.name in blocks
    ensures MarkAll(doc).Element? && MarkAll(doc).name == doc.name
    ensures AllOnTheirWay(Leaves(doc, []), Leaves(MarkAll(doc), []), blocks)
  {
    var orig, ts := Leaves(doc, []), Leaves(MarkAll(doc), []);
    MarkAllLeaves(doc, []);
    PathsStartAtRoot(doc, []);
    forall i | 0 <= i < |ts| ensures OnItsWay(orig[i], ts[i], blocks) {
      assert ts[i] == MarkedToken(orig[i]);
      if orig[i].leaf.Break? {
        assert ([] + [doc.name])[0] == doc.name;
      }
    }
  }

  lemma SameBreaks(orig: seq<Token>, ts: seq<Token>, blocks: set<string>)
    requires AllOnTheirWay(orig, ts, blocks) && DistinctBreaks(orig)
    ensures DistinctBreaks(ts) && forall id :: Unique(ts, id)
  {
    forall i, j | 0 <= i < j < |ts| && ts[i].leaf.Break? && ts[j].leaf.Break? ensures ts[i].leaf.id != ts[j].leaf.id {
      assert OnItsWay(orig[i], ts[i], blocks) && OnItsWay(orig[j], ts[j], blocks);
    }
  }

  /** One turn pays for its <br>, and leaves the marks of the others alone. */
  lemma TurnPays(orig: seq<Token>, ts: seq<Token>, id: int, blocks: set<string>)
    requires AllOnTheirWay(orig, ts, blocks) && Unique(ts, id) && IsMarked(ts, id)
    ensures TotalCost(HoistedTokens(ts, id, blocks), blocks) == TotalCost(ts, blocks) - 1
    ensures ParentIsBlock(ts, id, blocks) ==> !IsMarked(HoistedTokens(ts, id, blocks), id)
  {
    hide Landing, TotalCost, ParentIsBlock;
    var at :| 0 <= at < |ts| && IsBreak(ts[at], id) && Marked(ts[at]);
    assert OnItsWay(orig[at], ts[at], blocks);
    HoistingPays(ts, id, at, blocks);
    ParentIsBlockAt(ts, id, blocks, at);
  }

  lemma OthersKeepMarks(ts: seq<Token>, id: int, other: int, blocks: set<string>)
    requires other != id
    ensures IsMarked(HoistedTokens(ts, id, blocks), other) <==> IsMarked(ts, other)
  {
    var ts' := HoistedTokens(ts, id, blocks);
    if IsMarked(ts, other) {
      var k :| 0 <= k < |ts| && IsBreak(ts[k], other) && Marked(ts[k]);
      assert ts'[k] == ts[k];
    }
    if IsMarked(ts', other) {
      var k :| 0 <= k < |ts'| && IsBreak(ts'[k], other) && Marked(ts'[k]);
      assert ts'[k] == ts[k];
    }
  }

  /** The <br>s of a pass that are still to come. */
  ghost predicate PassUnderway(ts: seq<Token>, brs: seq<int>, k: int, changed: bool) {
    && 0 <= k <= |brs|
    && (forall j :: k <= j < |brs| ==> IsMarked(ts, brs[j]))
    && (!changed ==> forall id :: IsMarked(ts, id) ==> exists j :: k <= j < |brs| && brs[j] == id)
  }

  lemma HoistStep(orig: seq<Token>, ts: seq<Token>, brs: seq<int>, k: nat, blocks: set<string>, changed: bool)
    requires AllOnTheirWay(orig, ts, blocks) && DistinctBreaks(orig) && k < |brs|
    requires forall i, j :: 0 <= i < j < |brs| ==> brs[i] != brs[j]
    requires PassUnderway(ts, brs, k, changed)
    ensures var ts' := HoistedTokens(ts, brs[k], blocks);
            && AllOnTheirWay(orig, ts', blocks)
            && TotalCost(ts', blocks) == TotalCost(ts, blocks) - 1
            && PassUnderway(ts', brs, k + 1, changed || !ParentIsBlock(ts, brs[k], blocks))
  {
    hide AllOnTheirWay, HoistedTokens, TotalCost, ParentIsBlock, IsMarked;
    var ts' := HoistedTokens(ts, brs[k], blocks);
    SameBreaks(orig, ts, blocks);
    HoistedOnTheirWay(orig, ts, brs[k], blocks);
    TurnPays(orig, ts, brs[k], blocks);
    forall id | id != brs[k] ensures IsMarked(ts', id) <==> IsMarked(ts, id) {
      OthersKeepMarks(ts, brs[k], id, blocks);
    }
  }
}
