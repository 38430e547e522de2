/** HtmlToMarkdown#remove_whitespaces! on a whole document: which white space goes, and what stays. */
module WhitespaceTree {
  import opened LineBreaks
  import opened Whitespace

  /** `is_inline?`, given for each element that has a description whether that says inline. */
  predicate IsInline(n: Node, tags: map<string, bool>) {
    match n
    case Text(_) => true
    case Br(_, _) => false
    case Element(name, kids) => name in tags && tags[name] && forall k :: k in kids ==> IsInline(k, tags)
  }

  /** How many inline nodes stand at the beginning. */
  function InlineLead(nodes: seq<Node>, tags: map<string, bool>): (k: nat)
    ensures k <= |nodes|
  {
    if nodes == [] || !IsInline(nodes[0], tags) then 0 else 1 + InlineLead(nodes[1..], tags)
  }

  /** Gone into: not `pre`, nor an element without a description, for which `chunk` gets nil and drops it. */
  predicate IsCleaned(n: Node, tags: map<string, bool>) {
    n.Element? && n.name != "pre" && n.name in tags
  }

  /** `remove_whitespaces!`: runs of inline nodes are cleaned, other nodes are gone into or left alone. */
  function Cleaned(n: Node, tags: map<string, bool>): Node
    decreases n, 1
  {
    if IsCleaned(n, tags) then Element(n.name, CleanedAll(n.kids, tags)) else n
  }

  function CleanedAll(nodes: seq<Node>, tags: map<string, bool>): seq<Node>
    decreases nodes, 0
  {
    if nodes == [] then []
    else
      var k := InlineLead(nodes, tags);
      if k == 0 then [Cleaned(nodes[0], tags)] + CleanedAll(nodes[1..], tags)
      else CleanRun(nodes[..k]) + CleanedAll(nodes[k..], tags)
  }

  /** The same tree but for the texts. */
  predicate SameShape(a: Node, b: Node) {
    match a
    case Text(_) => b.Text?
    case Br(_, _) => b == a
    case Element(name, kids) =>
      && b.Element? && b.name == name && |b.kids| == |kids|
      && forall i :: 0 <= i < |kids| ==> SameShape(kids[i], b.kids[i])
  }

  predicate SameShapes(a: seq<Node>, b: seq<Node>) {
    |a| == |b| && forall i :: 0 <= i < |a| ==> SameShape(a[i], b[i])
  }

  lemma {:induction false} SameShapeItself(n: Node)
    ensures SameShape(n, n)
  {
    if !n.Element? {
    } else {
      forall i | 0 <= i < |n.kids| ensures SameShape(n.kids[i], n.kids[i]) {
        SameShapeItself(n.kids[i]);
      }
    }
  }

  lemma {:induction false} CollapseKeepsShape(n: Node, was: bool)
    ensures SameShape(n, CollapseNode(n, was))
    decreases n, 1
  {
    if n.Element? {
      CollapseKeepsShapes(n.kids, was);
    }
  }

  lemma {:induction false} CollapseKeepsShapes(nodes: seq<Node>, was: bool)
    ensures SameShapes(nodes, CollapseNodes(nodes, was))
    decreases nodes, 0
  {
    if nodes == [] {
    } else {
      CollapseKeepsShape(nodes[0], was);
      CollapseKeepsShapes(nodes[1..], After(nodes[0], was));
      var now := After(nodes[0], was);
      ShapesJoin(nodes[..1], [CollapseNode(nodes[0], was)], nodes[1..], CollapseNodes(nodes[1..], now));
      assert nodes == nodes[..1] + nodes[1..];
    }
  }

  lemma ShapesJoin(a: seq<Node>, a': seq<Node>, b: seq<Node>, b': seq<Node>)
    requires SameShapes(a, a') && SameShapes(b, b')
    ensures SameShapes(a + b, a' + b')
  {
    hide SameShape;
  }

  /** A shape kept twice is kept. */
  lemma {:induction false} SameShapeThrough(a: Node, b: Node, c: Node)
    requires SameShape(a, b) && SameShape(b, c)
    ensures SameShape(a, c)
  {
    if !a.Element? {
    } else {
      forall i | 0 <= i < |a.kids| ensures SameShape(a.kids[i], c.kids[i]) {
        SameShapeThrough(a.kids[i], b.kids[i], c.kids[i]);
      }
    }
  }

  lemma {:induction false} TrimKeepsShape(n: Node)
    ensures SameShape(n, TrimLast(n))
    decreases n, 1
  {
    SameShapeItself(n);
    if n.Element? && n.kids != [] {
      TrimKeepsShapes(n.kids);
    }
  }

  lemma {:induction false} TrimKeepsShapes(nodes: seq<Node>)
    requires nodes != []
    ensures SameShapes(nodes, RemoveTrailing(nodes))
    decreases nodes, 0
  {
    TrimKeepsShape(nodes[|nodes| - 1]);
    forall i | 0 <= i < |nodes| - 1 ensures SameShape(nodes[i], RemoveTrailing(nodes)[i]) {
      SameShapeItself(nodes[i]);
    }
  }

  lemma CleanRunKeepsShapes(nodes: seq<Node>)
    ensures SameShapes(nodes, CleanRun(nodes))
  {
    hide SameShape, CollapseNodes, RemoveTrailing, AfterAll;
    var collapsed := CollapseNodes(nodes, true);
    CollapseKeepsShapes(nodes, true);
    if collapsed != [] {
      TrimKeepsShapes(collapsed);
      forall i | 0 <= i < |nodes| ensures SameShape(nodes[i], RemoveTrailing(collapsed)[i]) {
        SameShapeThrough(nodes[i], collapsed[i], RemoveTrailing(collapsed)[i]);
      }
    }
  }

  /** Only texts change. */
  lemma {:induction false} CleanedKeepsShape(n: Node, tags: map<string, bool>)
    ensures SameShape(n, Cleaned(n, tags))
    decreases n, 1
  {
    SameShapeItself(n);
    if n.Element? {
      CleanedKeepsShapes(n.kids, tags);
    }
  }

  lemma {:induction false} CleanedKeepsShapes(nodes: seq<Node>, tags: map<string, bool>)
    ensures SameShapes(nodes, CleanedAll(nodes, tags))
    decreases nodes, 0
  {
    hide SameShape, InlineLead, CleanRun;
    if nodes == [] {
    } else {
      var k := InlineLead(nodes, tags);
      if k == 0 {
        CleanedKeepsShape(nodes[0], tags);
        CleanedKeepsShapes(nodes[1..], tags);
        ShapesJoin(nodes[..1], [Cleaned(nodes[0], tags)], nodes[1..], CleanedAll(nodes[1..], tags));
        assert nodes == nodes[..1] + nodes[1..];
      } else {
        CleanRunKeepsShapes(nodes[..k]);
        CleanedKeepsShapes(nodes[k..], tags);
        ShapesJoin(nodes[..k], CleanRun(nodes[..k]), nodes[k..], CleanedAll(nodes[k..], tags));
        assert nodes == nodes[..k] + nodes[k..];
      }
    }
  }

  lemma {:induction false} ShapeTellsInline(a: Node, b: Node, tags: map<string, bool>)
    requires SameShape(a, b)
    ensures IsInline(a, tags) == IsInline(b, tags)
  {
    if !a.Element? {
    } else {
      forall i | 0 <= i < |a.kids| ensures IsInline(a.kids[i], tags) == IsInline(b.kids[i], tags) {
        ShapeTellsInline(a.kids[i], b.kids[i], tags);
      }
    }
  }

  lemma {:induction false} ShapesTellLead(a: seq<Node>, b: seq<Node>, tags: map<string, bool>)
    requires SameShapes(a, b)
    ensures InlineLead(a, tags) == InlineLead(b, tags)
    decreases |a|
  {
    hide SameShape, IsInline;
    if a == [] {
    } else {
      ShapeTellsInline(a[0], b[0], tags);
      ShapesTellLead(a[1..], b[1..], tags);
    }
  }

  /** A run as it is before and after: the same words, single spaces, none in front, and mostly none behind. */
  ghost predicate RunTidied(run: seq<Node>, clean: seq<Node>) {
    && SameShapes(run, clean)
    && WordsOf(ContentOf(clean)) == WordsOf(ContentOf(run))
    && Tight(ContentOf(clean), true)
    && (EndsInSpace(ContentOf(clean)) <==>
          WordsOf(ContentOf(run)) != [] && EndsWhite(ContentOf(run), true) && EndsBeforeLastLeaf(run))
  }

  /** Inline children i..j with no inline neighbour on either side. */
  ghost predicate IsStretch(kids: seq<Node>, i: int, j: int, tags: map<string, bool>) {
    && 0 <= i < j <= |kids|
    && AllInline(kids, i, j, tags)
    && (i > 0 ==> !IsInline(kids[i - 1], tags))
    && (j < |kids| ==> !IsInline(kids[j], tags))
  }

  ghost predicate AllInline(kids: seq<Node>, i: int, j: int, tags: map<string, bool>) {
    0 <= i <= j <= |kids| && forall t :: i <= t < j ==> IsInline(kids[t], tags)
  }

  /** Every longest stretch of inline children is tidied as a whole, and so are the other children; that is all. */
  ghost predicate Tidied(n: Node, clean: Node, tags: map<string, bool>)
    decreases n
  {
    if n.Element? && n.name != "pre" && n.name in tags then
      && clean.Element? && clean.name == n.name && |clean.kids| == |n.kids|
      && (forall i, j :: IsStretch(n.kids, i, j, tags) ==> RunTidied(n.kids[i..j], clean.kids[i..j]))
      && (forall i :: 0 <= i < |n.kids| && !IsInline(n.kids[i], tags) ==> Tidied(n.kids[i], clean.kids[i], tags))
    else clean == n
  }

  lemma CleanRunIsTidy(run: seq<Node>)
    ensures RunTidied(run, CleanRun(run))
  {
    hide CleanRun, ContentOf, WordsFrom, Tight, SameShapes, EndsWhite, EndsBeforeLastLeaf;
    CleanRunKeepsShapes(run);
    CleanRunKeepsWords(run);
    SpaceStaysExactly(run);
  }

  lemma {:induction false} LeadIs(nodes: seq<Node>, tags: map<string, bool>)
    ensures AllInline(nodes, 0, InlineLead(nodes, tags), tags)
    ensures InlineLead(nodes, tags) < |nodes| ==> !IsInline(nodes[InlineLead(nodes, tags)], tags)
    decreases |nodes|
  {
    hide IsInline;
    if nodes == [] || !IsInline(nodes[0], tags) {
    } else {
      LeadIs(nodes[1..], tags);
      var k := InlineLead(nodes, tags);
      forall t | 0 <= t < k ensures IsInline(nodes[t], tags) {
        assert t > 0 ==> nodes[t] == nodes[1..][t - 1];
      }
    }
  }

  lemma PartOfPart<T>(s: seq<T>, i: nat, j: nat, a: nat, b: nat)
    requires i <= a <= b <= j <= |s|
    ensures s[i..j][a - i..b - i] == s[a..b]
  {
    var part := s[i..j];
    forall t | 0 <= t < b - a ensures part[a - i..b - i][t] == s[a..b][t] {
      assert part[a - i + t] == s[a + t];
    }
  }

  lemma PartOfRest<T>(s: seq<T>, k: nat, i: nat, j: nat)
    requires k <= i <= j <= |s|
    ensures s[k..][i - k..j - k] == s[i..j]
  {
  }

  lemma PartBehind<T>(a: seq<T>, b: seq<T>, i: nat, j: nat)
    requires |a| <= i <= j <= |a| + |b|
    ensures (a + b)[i..j] == b[i - |a|..j - |a|]
  {
  }

  lemma CleanedBegins(nodes: seq<Node>, tags: map<string, bool>)
    requires nodes != []
    ensures var k := InlineLead(nodes, tags);
            && (k == 0 ==> CleanedAll(nodes, tags) == [Cleaned(nodes[0], tags)] + CleanedAll(nodes[1..], tags))
            && (k > 0 ==> CleanedAll(nodes, tags) == CleanRun(nodes[..k]) + CleanedAll(nodes[k..], tags))
            && |CleanRun(nodes[..k])| == k && |CleanedAll(nodes, tags)| == |nodes|
  {
    CleanRunKeepsShapes(nodes[..InlineLead(nodes, tags)]);
    CleanedKeepsShapes(nodes, tags);
  }

  /** The runs that are cleaned are those stretches. */
  lemma {:induction false} StretchIsCleaned(nodes: seq<Node>, i: nat, j: nat, tags: map<string, bool>)
    requires IsStretch(nodes, i, j, tags)
    ensures |CleanedAll(nodes, tags)| == |nodes|
    ensures CleanedAll(nodes, tags)[i..j] == CleanRun(nodes[i..j])
    decreases |nodes|
  {
    hide CleanRun, CleanedAll, InlineLead, SameShape, Cleaned, IsInline, AllInline;
    LeadIs(nodes, tags);
    CleanedBegins(nodes, tags);
    var k := InlineLead(nodes, tags);
    if i == 0 {
      StretchIsLead(nodes, j, k, tags);
      PartInFront(CleanRun(nodes[..k]), CleanedAll(nodes[k..], tags));
      assert nodes[0..j] == nodes[..k];
    } else {
      var k' := if k == 0 then 1 else k;
      StretchBehind(nodes, i, j, k, k', tags);
      StretchIsCleaned(nodes[k'..], i - k', j - k', tags);
      var first := if k == 0 then [Cleaned(nodes[0], tags)] else CleanRun(nodes[..k]);
      PartBehind(first, CleanedAll(nodes[k'..], tags), i, j);
      PartOfRest(nodes, k', i, j);
    }
  }

  lemma PartInFront<T>(a: seq<T>, b: seq<T>)
    ensures (a + b)[0..|a|] == a
  {
  }

  lemma StretchIsLead(nodes: seq<Node>, j: nat, k: nat, tags: map<string, bool>)
    requires IsStretch(nodes, 0, j, tags) && AllInline(nodes, 0, k, tags) && (k < |nodes| ==> !IsInline(nodes[k], tags))
    ensures j == k > 0
  {
    hide IsInline;
  }

  lemma StretchBehind(nodes: seq<Node>, i: nat, j: nat, k: nat, k': nat, tags: map<string, bool>)
    requires IsStretch(nodes, i, j, tags) && i > 0 && k' == if k == 0 then 1 else k
    requires AllInline(nodes, 0, k, tags) && (k < |nodes| ==> !IsInline(nodes[k], tags))
    ensures k' <= i && IsStretch(nodes[k'..], i - k', j - k', tags)
  {
    hide IsInline;
    var rest := nodes[k'..];
    forall t | i - k' <= t < j - k' ensures IsInline(rest[t], tags) {
      assert rest[t] == nodes[t + k'];
    }
  }

  lemma {:induction false} OtherIsCleaned(nodes: seq<Node>, i: nat, tags: map<string, bool>)
    requires i < |nodes| && !IsInline(nodes[i], tags)
    ensures |CleanedAll(nodes, tags)| == |nodes|
    ensures CleanedAll(nodes, tags)[i] == Cleaned(nodes[i], tags)
    decreases |nodes|
  {
    hide CleanRun, InlineLead, SameShape, Cleaned, IsInline;
    CleanedKeepsShapes(nodes, tags);
    LeadIs(nodes, tags);
    var k := InlineLead(nodes, tags);
    if k > 0 {
      CleanRunKeepsShapes(nodes[..k]);
      OtherIsCleaned(nodes[k..], i - k, tags);
    } else if i > 0 {
      OtherIsCleaned(nodes[1..], i - 1, tags);
    }
  }

  /** So a cleaned document is tidied at every depth. */
  lemma {:induction false} CleanedIsTidy(n: Node, tags: map<string, bool>)
    ensures Tidied(n, Cleaned(n, tags), tags)
    decreases n
  {
    hide CleanedAll, SameShape, RunTidied, IsInline;
    if IsCleaned(n, tags) {
      var clean := Cleaned(n, tags);
      CleanedKeepsShapes(n.kids, tags);
      forall i, j | IsStretch(n.kids, i, j, tags) ensures RunTidied(n.kids[i..j], clean.kids[i..j]) {
        StretchIsCleaned(n.kids, i, j, tags);
        CleanRunIsTidy(n.kids[i..j]);
      }
      forall i | 0 <= i < |n.kids| && !IsInline(n.kids[i], tags) ensures Tidied(n.kids[i], clean.kids[i], tags) {
        OtherIsCleaned(n.kids, i, tags);
        CleanedIsTidy(n.kids[i], tags);
      }
    }
  }

  // ----- words across nodes -----

  lemma {:induction false} CollapseJoins(a: seq<Node>, b: seq<Node>, was: bool)
    ensures CollapseNodes(a + b, was) == CollapseNodes(a, was) + CollapseNodes(b, AfterAll(a, was))
    decreases |a|
  {
    hide CollapseNode, After;
    if a == [] {
      assert a + b == b;
    } else {
      CollapseJoins(a[1..], b, After(a[0], was));
      assert (a + b)[1..] == a[1..] + b;
      var now := After(a[0], was);
      Associates([CollapseNode(a[0], was)], CollapseNodes(a[1..], now), CollapseNodes(b, AfterAll(a, was)));
    }
  }

  lemma CollapsePart(nodes: seq<Node>, was: bool, a: nat, b: nat)
    requires a <= b <= |nodes|
    ensures |CollapseNodes(nodes, was)| == |nodes|
    ensures CollapseNodes(nodes, was)[a..b] == CollapseNodes(nodes[a..b], AfterAll(nodes[..a], was))
  {
    hide CollapseNodes, AfterAll, SameShape;
    var p, q, r := nodes[..a], nodes[a..b], nodes[b..];
    CollapseJoins(p + q, r, was);
    CollapseJoins(p, q, was);
    assert nodes == (p + q) + r;
    CollapseKeepsShapes(p, was);
    CollapseKeepsShapes(q, AfterAll(p, was));
    CollapseKeepsShapes(nodes, was);
    MiddlePart(CollapseNodes(p, was), CollapseNodes(q, AfterAll(p, was)), CollapseNodes(r, AfterAll(p + q, was)));
  }

  lemma MiddlePart<T>(p: seq<T>, q: seq<T>, r: seq<T>)
    ensures ((p + q) + r)[|p|..|p| + |q|] == q
  {
  }

  lemma TrimKeepsWords(nodes: seq<Node>)
    requires nodes != []
    ensures WordsOf(ContentOf(RemoveTrailing(nodes))) == WordsOf(ContentOf(nodes))
  {
    hide RemoveTrailing, ContentOf, WordsFrom, LastTextOf;
    TrimmedContent(nodes);
    var all, last := ContentOf(nodes), LastTextOf(nodes);
    if EndsInSpace(last) {
      assert all[|all| - 1] == last[|last| - 1];
      assert all == all[..|all| - 1] + [' '];
      TrailingSpaceIsNoWord(all[..|all| - 1], []);
    }
  }

  lemma TrimmedPart(nodes: seq<Node>, a: nat, b: nat)
    requires a <= b <= |nodes| != 0
    ensures |RemoveTrailing(nodes)| == |nodes|
    ensures RemoveTrailing(nodes)[a..b] == if a < b == |nodes| then RemoveTrailing(nodes[a..b]) else nodes[a..b]
  {
    hide TrimLast;
  }

  /** Cleaning a run leaves the words of each part of it, so that no two words run together. */
  lemma PartsKeepWords(run: seq<Node>, a: nat, b: nat)
    requires a <= b <= |run|
    ensures |CleanRun(run)| == |run|
    ensures WordsOf(ContentOf(CleanRun(run)[a..b])) == WordsOf(ContentOf(run[a..b]))
  {
    hide CollapseNodes, ContentOf, WordsFrom, AfterAll, RemoveTrailing, Collapsed;
    var collapsed, was := CollapseNodes(run, true), AfterAll(run[..a], true);
    CollapsePart(run, true, a, b);
    CollapseIsFlat(run[a..b], was);
    CollapsedKeepsWords(ContentOf(run[a..b]), was, []);
    if AfterAll(run, true) && collapsed != [] {
      TrimmedPart(collapsed, a, b);
      if a < b && b == |run| {
        TrimKeepsWords(collapsed[a..b]);
      }
    }
  }

  /** The longest stretch around some inline children. */
  lemma {:induction false} StretchAround(kids: seq<Node>, a: nat, b: nat, tags: map<string, bool>)
    returns (i: nat, j: nat)
    requires a < b && AllInline(kids, a, b, tags)
    ensures i <= a && b <= j && IsStretch(kids, i, j, tags)
    decreases a + |kids| - b
  {
    hide IsInline;
    if a > 0 && IsInline(kids[a - 1], tags) {
      i, j := StretchAround(kids, a - 1, b, tags);
    } else if b < |kids| && IsInline(kids[b], tags) {
      i, j := StretchAround(kids, a, b + 1, tags);
    } else {
      i, j := a, b;
    }
  }

  /** For any neighbouring inline children of a cleaned element, their words are what they were. */
  lemma InlineKidsKeepWords(n: Node, tags: map<string, bool>, a: nat, b: nat)
    requires n.Element? && n.name != "pre" && n.name in tags && a < b && AllInline(n.kids, a, b, tags)
    ensures var clean := Cleaned(n, tags);
            |clean.kids| == |n.kids| && WordsOf(ContentOf(clean.kids[a..b])) == WordsOf(ContentOf(n.kids[a..b]))
  {
    hide CleanRun, CleanedAll, ContentOf, WordsFrom, IsInline;
    var clean := CleanedAll(n.kids, tags);
    var i, j := StretchAround(n.kids, a, b, tags);
    StretchIsCleaned(n.kids, i, j, tags);
    PartsKeepWords(n.kids[i..j], a - i, b - i);
    PartOfPart(n.kids, i, j, a, b);
    PartOfPart(clean, i, j, a, b);
  }

  // ----- cleaning twice -----

  lemma {:induction false} NothingToTrim(nodes: seq<Node>)
    requires nodes != [] && !EndsInSpace(LastTextOf(nodes))
    ensures RemoveTrailing(nodes) == nodes
    decreases nodes
  {
    var last := nodes[|nodes| - 1];
    if last.Element? && last.kids != [] {
      NothingToTrim(last.kids);
    }
    assert TrimLast(last) == last;
  }

  lemma {:induction false} LastTextTrimmed(nodes: seq<Node>)
    requires nodes != []
    ensures var last := LastTextOf(nodes);
            LastTextOf(RemoveTrailing(nodes)) == if EndsInSpace(last) then last[..|last| - 1] else last
    decreases nodes
  {
    var last, trimmed := nodes[|nodes| - 1], RemoveTrailing(nodes);
    assert trimmed[|trimmed| - 1] == TrimLast(last);
    if last.Element? && last.kids != [] {
      LastTextTrimmed(last.kids);
      assert LastText(TrimLast(last)) == LastTextOf(RemoveTrailing(last.kids));
    } else if last.Element? {
      assert LastTextOf(last.kids) == [];
    }
  }

  lemma CleanRunTwice(run: seq<Node>)
    ensures CleanRun(CleanRun(run)) == CleanRun(run)
  {
    hide ContentOf, CollapseNodes, Collapsed, WordsFrom, Tight, LastTextOf, EndsWhite, RemoveTrailing, AfterAll;
    var clean, collapsed := CleanRun(run), CollapseNodes(run, true);
    CleanRunKeepsWords(run);
    CollapsedIsTight(ContentOf(clean), true);
    TightNodesStay(clean, true);
    CollapseIsFlat(run, true);
    CollapsedIsTight(ContentOf(run), true);
    if clean != [] && AfterAll(run, true) {
      CollapseKeepsShapes(run, true);
      TrimmedContent(collapsed);
      LastTextTrimmed(collapsed);
      if EndsInSpace(LastTextOf(collapsed)) {
        ShorterLast(ContentOf(collapsed), LastTextOf(collapsed));
      }
      assert !EndsInSpace(LastTextOf(clean));
      NothingToTrim(clean);
    } else {
      CollapseIsFlat(clean, true);
    }
  }

  lemma ShorterLast(all: string, last: string)
    requires |last| <= |all| && all[|all| - |last|..] == last && EndsInSpace(last) && Tight(all, true)
    ensures !EndsInSpace(last[..|last| - 1])
  {
    var i := |all| - 1;
    assert all[i] == last[|last| - 1];
    assert !WhiteBefore(all, true, i);
    assert |last| > 1 ==> all[i - 1] == last[|last| - 2];
  }

  /** Cleaning a clean document changes nothing. */
  lemma {:induction false} CleanedTwice(n: Node, tags: map<string, bool>)
    ensures Cleaned(Cleaned(n, tags), tags) == Cleaned(n, tags)
    decreases n, 1
  {
    if IsCleaned(n, tags) {
      AllCleanedTwice(n.kids, tags);
    }
  }

  lemma {:induction false} AllCleanedTwice(nodes: seq<Node>, tags: map<string, bool>)
    ensures CleanedAll(CleanedAll(nodes, tags), tags) == CleanedAll(nodes, tags)
    decreases nodes, 0
  {
    hide CleanRun, InlineLead, SameShape, Cleaned;
    if nodes == [] {
    } else {
      var k, clean := InlineLead(nodes, tags), CleanedAll(nodes, tags);
      CleanedKeepsShapes(nodes, tags);
      ShapesTellLead(nodes, clean, tags);
      if k == 0 {
        CleanedTwice(nodes[0], tags);
        AllCleanedTwice(nodes[1..], tags);
        assert clean[0] == Cleaned(nodes[0], tags) && clean[1..] == CleanedAll(nodes[1..], tags);
      } else {
        CleanRunKeepsShapes(nodes[..k]);
        CleanRunTwice(nodes[..k]);
        AllCleanedTwice(nodes[k..], tags);
        assert clean[..k] == CleanRun(nodes[..k]) && clean[k..] == CleanedAll(nodes[k..], tags);
      }
    }
  }

  /** `collapse_spaces!(nodes) && remove_trailing_space!(nodes)` */
  method CleanInlineRun(nodes: seq<Node>) returns (run: seq<Node>)
    ensures run == CleanRun(nodes)
  {
    hide CollapseNodes, AfterAll, RemoveTrailing;
    var was;
    run, was := CollapseSpaces(nodes, true);
    if was && run != [] {
      run := RemoveTrailingSpace(run);
    }
  }

  /** Where the inline nodes that begin at `i` end. */
  function RunEnd(kids: seq<Node>, i: nat, tags: map<string, bool>): (end: nat)
    requires i <= |kids|
    ensures i <= end <= |kids|
  {
    i + InlineLead(kids[i..], tags)
  }

  function Between(kids: seq<Node>, i: nat, end: nat): seq<Node>
    requires i <= end <= |kids|
  {
    kids[i..end]
  }

  /** `remove_whitespaces!` over the children of an element, run by run. */
  method RemoveWhitespaces(node: Node, tags: map<string, bool>) returns (clean: Node)
    ensures clean == Cleaned(node, tags)
    decreases node
  {
    if !IsCleaned(node, tags) {
      return node;
    }
    hide *;
    var kids := node.kids;
    var done: seq<Node> := [];
    var i := 0;
    CleanBegins(kids, tags);
    while i < |kids|
      invariant 0 <= i <= |kids|
      invariant CleanedUpTo(kids, i, tags, done)
    {
      CleanNext(kids, i, tags, done);
      var end := RunEnd(kids, i, tags);
      if end > i {
        var run := CleanInlineRun(Between(kids, i, end));
        done := done + run;
        i := end;
      } else {
        var kid := RemoveWhitespaces(kids[i], tags);
        done := done + [kid];
        i := i + 1;
      }
    }
    CleanFinished(node, tags, done);
    clean := Element(node.name, done);
  }

  /** What the loop over the children has done so far. */
  ghost predicate CleanedUpTo(kids: seq<Node>, i: nat, tags: map<string, bool>, done: seq<Node>)
    requires i <= |kids|
  {
    done + CleanedAll(kids[i..], tags) == CleanedAll(kids, tags)
  }

  lemma CleanBegins(kids: seq<Node>, tags: map<string, bool>)
    ensures CleanedUpTo(kids, 0, tags, [])
  {
    assert kids[0..] == kids;
  }

  lemma CleanNext(kids: seq<Node>, i: nat, tags: map<string, bool>, done: seq<Node>)
    requires i < |kids| && CleanedUpTo(kids, i, tags, done)
    ensures var end := RunEnd(kids, i, tags);
            && (end == i ==> CleanedUpTo(kids, i + 1, tags, done + [Cleaned(kids[i], tags)]))
            && (end > i ==> CleanedUpTo(kids, end, tags, done + CleanRun(Between(kids, i, end))))
  {
    hide InlineLead, Cleaned, CleanRun;
    var rest, k := kids[i..], InlineLead(kids[i..], tags);
    assert rest[1..] == kids[i + 1..] && rest[..k] == kids[i..i + k] && rest[k..] == kids[i + k..];
    Associates(done, [Cleaned(kids[i], tags)], CleanedAll(kids[i + 1..], tags));
    Associates(done, CleanRun(kids[i..i + k]), CleanedAll(kids[i + k..], tags));
  }

  lemma CleanFinished(node: Node, tags: map<string, bool>, done: seq<Node>)
    requires IsCleaned(node, tags) && CleanedUpTo(node.kids, |node.kids|, tags, done)
    ensures Element(node.name, done) == Cleaned(node, tags)
  {
    var kids := node.kids;
    assert kids[|kids|..] == [];
    assert CleanedAll([], tags) == [];
    assert done == CleanedAll(kids, tags);
  }
}
