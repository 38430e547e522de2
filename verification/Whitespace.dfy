/** HtmlToMarkdown#collapse_spaces! and #remove_trailing_space!: white space in the texts of a run of inline nodes. */
module Whitespace {
  import opened LineBreaks

  /** `[[:space:]]`; a no-break space counts too. */
  predicate IsWhite(c: char) {
    IsSpace(c) || c == '\U{a0}'
  }

  // ----- one text -----

  /** Each run of white space becomes one space, and none if white space came before. */
  function Collapsed(text: string, was: bool): string {
    if text == [] then []
    else if !IsWhite(text[0]) then [text[0]] + Collapsed(text[1..], false)
    else if was then Collapsed(text[1..], true)
    else [' '] + Collapsed(text[1..], true)
  }

  predicate EndsWhite(text: string, was: bool) {
    if text == [] then was else IsWhite(text[|text| - 1])
  }

  method CollapseText(text: string, wasSpace: bool) returns (collapsed: string, was: bool)
    ensures collapsed == Collapsed(text, wasSpace) && was == EndsWhite(text, wasSpace)
  {
    hide Collapsed, EndsWhite;
    collapsed, was := "", wasSpace;
    CollapseEnds(text, wasSpace);
    for i := 0 to |text|
      invariant CollapsesFrom(text, i, wasSpace, collapsed, was)
    {
      CollapseNextChar(text, i, wasSpace, collapsed, was);
      hide CollapsesFrom;
      var c := text[i];
      if IsWhite(c) {
        if !was {
          collapsed := collapsed + [' '];
        }
        was := true;
      } else {
        collapsed := collapsed + [c];
        was := false;
      }
    }
    CollapseDone(text, wasSpace, collapsed, was);
  }

  /** What the loop over the characters has done so far. */
  ghost predicate CollapsesFrom(text: string, i: nat, wasSpace: bool, collapsed: string, was: bool)
    requires i <= |text|
  {
    collapsed + Collapsed(text[i..], was) == Collapsed(text, wasSpace) && was == EndsWhite(text[..i], wasSpace)
  }

  lemma CollapseEnds(text: string, wasSpace: bool)
    ensures CollapsesFrom(text, 0, wasSpace, [], wasSpace)
  {
    assert text[0..] == text;
  }

  lemma CollapseNextChar(text: string, i: nat, wasSpace: bool, collapsed: string, was: bool)
    requires i < |text| && CollapsesFrom(text, i, wasSpace, collapsed, was)
    ensures !IsWhite(text[i]) ==> CollapsesFrom(text, i + 1, wasSpace, collapsed + [text[i]], false)
    ensures IsWhite(text[i]) && was ==> CollapsesFrom(text, i + 1, wasSpace, collapsed, true)
    ensures IsWhite(text[i]) && !was ==> CollapsesFrom(text, i + 1, wasSpace, collapsed + [' '], true)
  {
    CollapsedFirst(text[i..], was);
    assert text[i..][1..] == text[i + 1..];
    assert EndsWhite(text[..i + 1], wasSpace) == IsWhite(text[i]);
    hide Collapsed, EndsWhite;
    var rest := Collapsed(text[i + 1..], IsWhite(text[i]));
    Associates(collapsed, [text[i]], rest);
    Associates(collapsed, [' '], rest);
  }

  lemma CollapsedFirst(text: string, was: bool)
    requires text != []
    ensures !IsWhite(text[0]) ==> Collapsed(text, was) == [text[0]] + Collapsed(text[1..], false)
    ensures IsWhite(text[0]) && was ==> Collapsed(text, was) == Collapsed(text[1..], true)
    ensures IsWhite(text[0]) && !was ==> Collapsed(text, was) == [' '] + Collapsed(text[1..], true)
  {
  }

  lemma CollapseDone(text: string, wasSpace: bool, collapsed: string, was: bool)
    requires CollapsesFrom(text, |text|, wasSpace, collapsed, was)
    ensures collapsed == Collapsed(text, wasSpace) && was == EndsWhite(text, wasSpace)
  {
    assert text[|text|..] == [] && text[..|text|] == text;
    assert Collapsed([], was) == [];
  }

  lemma Associates<T>(a: seq<T>, b: seq<T>, c: seq<T>)
    ensures (a + b) + c == a + (b + c)
  {
  }

  /** The words of a text, of which the first has begun already. */
  function WordsFrom(text: string, begun: string): seq<string> {
    if text == [] then if begun == [] then [] else [begun]
    else if !IsWhite(text[0]) then WordsFrom(text[1..], begun + [text[0]])
    else if begun == [] then WordsFrom(text[1..], [])
    else [begun] + WordsFrom(text[1..], [])
  }

  function WordsOf(text: string): seq<string> {
    WordsFrom(text, [])
  }

  /** Single spaces between words, none at the start; after white space, or not. */
  predicate Tight(text: string, was: bool) {
    forall i :: 0 <= i < |text| && IsWhite(text[i]) ==> text[i] == ' ' && !WhiteBefore(text, was, i)
  }

  predicate WhiteBefore(text: string, was: bool, i: nat)
    requires i <= |text|
  {
    if i == 0 then was else IsWhite(text[i - 1])
  }

  lemma TightTail(text: string, was: bool)
    requires text != []
    ensures Tight(text, was) <==>
            (IsWhite(text[0]) ==> text[0] == ' ' && !was) && Tight(text[1..], IsWhite(text[0]))
  {
    var rest, now := text[1..], IsWhite(text[0]);
    forall i | 0 <= i < |rest|
      ensures WhiteBefore(rest, now, i) == WhiteBefore(text, was, i + 1) && rest[i] == text[i + 1]
    {
    }
    if Tight(rest, now) && (IsWhite(text[0]) ==> text[0] == ' ' && !was) {
      forall i | 0 <= i < |text| && IsWhite(text[i]) ensures text[i] == ' ' && !WhiteBefore(text, was, i) {
        if i > 0 {
          assert rest[i - 1] == text[i];
        }
      }
    }
  }

  /** Collapsing keeps the words and makes the text tight; a tight text it leaves alone. */
  lemma {:induction false} CollapsedIsTight(text: string, was: bool)
    ensures Tight(Collapsed(text, was), was)
    ensures Tight(text, was) ==> Collapsed(text, was) == text
    ensures EndsWhite(Collapsed(text, was), was) == EndsWhite(text, was)
    decreases |text|
  {
    if text == [] {
    } else {
      CollapsedIsTight(text[1..], IsWhite(text[0]));
      TightTail(text, was);
      var r := Collapsed(text, was);
      if !IsWhite(text[0]) || !was {
        assert r[1..] == Collapsed(text[1..], IsWhite(text[0]));
        TightTail(r, was);
      }
    }
  }

  lemma {:induction false} CollapsedKeepsWords(text: string, was: bool, begun: string)
    requires was ==> begun == []
    ensures WordsFrom(Collapsed(text, was), begun) == WordsFrom(text, begun)
    decreases |text|
  {
    if text == [] {
    } else {
      var rest := Collapsed(text[1..], IsWhite(text[0]));
      if !IsWhite(text[0]) {
        CollapsedKeepsWords(text[1..], false, begun + [text[0]]);
        assert ([text[0]] + rest)[1..] == rest;
      } else {
        CollapsedKeepsWords(text[1..], true, []);
        assert ([' '] + rest)[1..] == rest;
      }
    }
  }

  /** White space at the end separates no words. */
  lemma {:induction false} TrailingSpaceIsNoWord(text: string, begun: string)
    ensures WordsFrom(text + [' '], begun) == WordsFrom(text, begun)
    decreases |text|
  {
    if text == [] {
      assert ([' '] + [])[1..] == "" && text + [' '] == [' '];
      assert WordsFrom([' '][1..], []) == [];
    } else {
      assert (text + [' '])[1..] == text[1..] + [' '];
      if !IsWhite(text[0]) {
        TrailingSpaceIsNoWord(text[1..], begun + [text[0]]);
      } else {
        TrailingSpaceIsNoWord(text[1..], []);
      }
    }
  }

  lemma {:induction false} CollapsedAppend(a: string, b: string, was: bool)
    ensures Collapsed(a + b, was) == Collapsed(a, was) + Collapsed(b, EndsWhite(a, was))
    ensures EndsWhite(a + b, was) == EndsWhite(b, EndsWhite(a, was))
    decreases |a|
  {
    if a == [] {
      assert a + b == b;
    } else {
      EndsWhiteTail(a, was);
      EndsWhiteAppend(a, b, was);
      assert (a + b)[1..] == a[1..] + b;
      CollapsedAppend(a[1..], b, IsWhite(a[0]));
      CollapsedFirst(a, was);
      CollapsedFirst(a + b, was);
      hide Collapsed, EndsWhite;
      Associates([a[0]], Collapsed(a[1..], false), Collapsed(b, EndsWhite(a, was)));
      Associates([' '], Collapsed(a[1..], true), Collapsed(b, EndsWhite(a, was)));
    }
  }

  lemma EndsWhiteTail(a: string, was: bool)
    requires a != []
    ensures EndsWhite(a[1..], IsWhite(a[0])) == EndsWhite(a, was)
  {
  }

  lemma EndsWhiteAppend(a: string, b: string, was: bool)
    ensures EndsWhite(a + b, was) == EndsWhite(b, EndsWhite(a, was))
  {
  }

  // ----- a run of nodes -----

  function Content(n: Node): string
    decreases n, 1
  {
    match n
    case Text(text) => text
    case Br(_, _) => []
    case Element(_, kids) => ContentOf(kids)
  }

  function ContentOf(nodes: seq<Node>): string
    decreases nodes, 0
  {
    if nodes == [] then [] else Content(nodes[0]) + ContentOf(nodes[1..])
  }

  /** `collapse_spaces!`: whether white space came last is carried from text to text. */
  function CollapseNode(n: Node, was: bool): Node
    decreases n, 1
  {
    match n
    case Text(text) => Text(Collapsed(text, was))
    case Br(_, _) => n
    case Element(name, kids) => Element(name, CollapseNodes(kids, was))
  }

  function CollapseNodes(nodes: seq<Node>, was: bool): seq<Node>
    decreases nodes, 0
  {
    if nodes == [] then [] else [CollapseNode(nodes[0], was)] + CollapseNodes(nodes[1..], After(nodes[0], was))
  }

  function After(n: Node, was: bool): bool
    decreases n, 1
  {
    match n
    case Text(text) => EndsWhite(text, was)
    case Br(_, _) => was
    case Element(_, kids) => AfterAll(kids, was)
  }

  function AfterAll(nodes: seq<Node>, was: bool): bool
    decreases nodes, 0
  {
    if nodes == [] then was else AfterAll(nodes[1..], After(nodes[0], was))
  }

  method CollapseSpaces(nodes: seq<Node>, wasSpace: bool) returns (result: seq<Node>, was: bool)
    ensures result == CollapseNodes(nodes, wasSpace) && was == AfterAll(nodes, wasSpace)
    decreases nodes
  {
    hide Collapsed, EndsWhite, CollapseNodes, AfterAll;
    result, was := [], wasSpace;
    CollapseBegins(nodes, wasSpace);
    for i := 0 to |nodes|
      invariant CollapsedUpTo(nodes, i, wasSpace, result, was)
    {
      CollapseNext(nodes, i, wasSpace, result, was);
      hide CollapsedUpTo;
      var node;
      match nodes[i] {
        case Text(text) =>
          var collapsed;
          collapsed, was := CollapseText(text, was);
          node := Text(collapsed);
        case Br(_, _) =>
          node := nodes[i];
        case Element(name, kids) =>
          var collapsed;
          collapsed, was := CollapseSpaces(kids, was);
          node := Element(name, collapsed);
      }
      result := result + [node];
    }
    CollapseFinished(nodes, wasSpace, result, was);
  }

  /** What the loop over the nodes has done so far. */
  ghost predicate CollapsedUpTo(nodes: seq<Node>, i: nat, wasSpace: bool, result: seq<Node>, was: bool)
    requires i <= |nodes|
  {
    && result + CollapseNodes(nodes[i..], was) == CollapseNodes(nodes, wasSpace)
    && AfterAll(nodes[i..], was) == AfterAll(nodes, wasSpace)
  }

  lemma CollapseBegins(nodes: seq<Node>, wasSpace: bool)
    ensures CollapsedUpTo(nodes, 0, wasSpace, [], wasSpace)
  {
    assert nodes[0..] == nodes;
  }

  lemma CollapseNext(nodes: seq<Node>, i: nat, wasSpace: bool, result: seq<Node>, was: bool)
    requires i < |nodes| && CollapsedUpTo(nodes, i, wasSpace, result, was)
    ensures CollapsedUpTo(nodes, i + 1, wasSpace, result + [CollapseNode(nodes[i], was)], After(nodes[i], was))
  {
    assert nodes[i..][1..] == nodes[i + 1..];
    var rest := CollapseNodes(nodes[i + 1..], After(nodes[i], was));
    assert CollapseNodes(nodes[i..], was) == [CollapseNode(nodes[i], was)] + rest;
    assert (result + [CollapseNode(nodes[i], was)]) + rest == result + ([CollapseNode(nodes[i], was)] + rest);
  }

  lemma CollapseFinished(nodes: seq<Node>, wasSpace: bool, result: seq<Node>, was: bool)
    requires CollapsedUpTo(nodes, |nodes|, wasSpace, result, was)
    ensures result == CollapseNodes(nodes, wasSpace) && was == AfterAll(nodes, wasSpace)
  {
    assert nodes[|nodes|..] == [];
    assert CollapseNodes([], was) == [] && AfterAll([], was) == was;
  }

  /** Carrying the flag through the tree does to the texts what collapsing does to the whole text. */
  lemma {:induction false} CollapseNodeIsFlat(n: Node, was: bool)
    ensures Content(CollapseNode(n, was)) == Collapsed(Content(n), was)
    ensures After(n, was) == EndsWhite(Content(n), was)
    decreases n, 1
  {
    if n.Element? {
      CollapseIsFlat(n.kids, was);
    }
  }

  lemma {:induction false} CollapseIsFlat(nodes: seq<Node>, was: bool)
    ensures ContentOf(CollapseNodes(nodes, was)) == Collapsed(ContentOf(nodes), was)
    ensures AfterAll(nodes, was) == EndsWhite(ContentOf(nodes), was)
    decreases nodes, 0
  {
    if nodes == [] {
    } else {
      CollapseNodeIsFlat(nodes[0], was);
      CollapseIsFlat(nodes[1..], After(nodes[0], was));
      CollapsedAppend(Content(nodes[0]), ContentOf(nodes[1..]), was);
      assert CollapseNodes(nodes, was)[1..] == CollapseNodes(nodes[1..], After(nodes[0], was));
    }
  }

  /** Nodes whose whole text is tight stay as they are. */
  lemma {:induction false} TightNodeStays(n: Node, was: bool)
    requires Collapsed(Content(n), was) == Content(n)
    ensures CollapseNode(n, was) == n
    decreases n, 1
  {
    if n.Element? {
      TightNodesStay(n.kids, was);
    }
  }

  lemma {:induction false} TightNodesStay(nodes: seq<Node>, was: bool)
    requires Collapsed(ContentOf(nodes), was) == ContentOf(nodes)
    ensures CollapseNodes(nodes, was) == nodes
    decreases nodes, 0
  {
    if nodes == [] {
    } else {
      var a, b := Content(nodes[0]), ContentOf(nodes[1..]);
      TightParts(a, b, was);
      CollapseNodeIsFlat(nodes[0], was);
      TightNodeStays(nodes[0], was);
      TightNodesStay(nodes[1..], After(nodes[0], was));
    }
  }

  lemma TightParts(a: string, b: string, was: bool)
    requires Collapsed(a + b, was) == a + b
    ensures Collapsed(a, was) == a && Collapsed(b, EndsWhite(a, was)) == b
  {
    hide Collapsed;
    CollapsedAppend(a, b, was);
    CollapsedNotLonger(a, was);
    CollapsedNotLonger(b, EndsWhite(a, was));
    PartsAreSame(Collapsed(a, was), Collapsed(b, EndsWhite(a, was)), a, b);
  }

  lemma PartsAreSame(a': string, b': string, a: string, b: string)
    requires a' + b' == a + b && |a'| <= |a| && |b'| <= |b|
    ensures a' == a && b' == b
  {
    assert a' == (a' + b')[..|a'|] && b' == (a' + b')[|a'|..];
    assert a == (a + b)[..|a|] && b == (a + b)[|a|..];
  }

  lemma {:induction false} CollapsedNotLonger(text: string, was: bool)
    ensures |Collapsed(text, was)| <= |text|
    decreases |text|
  {
    if text == [] {
    } else {
      CollapsedNotLonger(text[1..], IsWhite(text[0]));
    }
  }

  predicate EndsInSpace(text: string) {
    text != [] && text[|text| - 1] == ' '
  }

  /** `remove_trailing_space!` goes down to the last leaf only. */
  function TrimLast(n: Node): Node
    decreases n, 1
  {
    match n
    case Text(text) => if EndsInSpace(text) then Text(text[..|text| - 1]) else n
    case Br(_, _) => n
    case Element(name, kids) => if kids == [] then n else Element(name, RemoveTrailing(kids))
  }

  function RemoveTrailing(nodes: seq<Node>): seq<Node>
    requires nodes != []
    decreases nodes, 0
  {
    var last := |nodes| - 1;
    nodes[..last] + [TrimLast(nodes[last])]
  }

  /** The text of the last leaf; nothing if that is not a text. */
  function LastText(n: Node): string
    decreases n, 1
  {
    match n
    case Text(text) => text
    case Br(_, _) => []
    case Element(_, kids) => LastTextOf(kids)
  }

  function LastTextOf(nodes: seq<Node>): string
    decreases nodes, 0
  {
    if nodes == [] then [] else LastText(nodes[|nodes| - 1])
  }

  /** A run of inline nodes, as `remove_whitespaces!` treats it. */
  function CleanRun(nodes: seq<Node>): seq<Node> {
    var collapsed := CollapseNodes(nodes, true);
    if AfterAll(nodes, true) && collapsed != [] then RemoveTrailing(collapsed) else collapsed
  }

  method RemoveTrailingSpace(nodes: seq<Node>) returns (result: seq<Node>)
    requires nodes != []
    ensures result == RemoveTrailing(nodes)
    decreases nodes
  {
    var last := nodes[|nodes| - 1];
    if last.Text? {
      if EndsInSpace(last.text) {
        last := Text(last.text[..|last.text| - 1]);
      }
    } else if last.Element? && last.kids != [] {
      var kids := RemoveTrailingSpace(last.kids);
      last := Element(last.name, kids);
    }
    result := nodes[..|nodes| - 1] + [last];
  }

  lemma {:induction false} ContentAppend(a: seq<Node>, b: seq<Node>)
    ensures ContentOf(a + b) == ContentOf(a) + ContentOf(b)
    decreases |a|
  {
    if a == [] {
      assert a + b == b;
    } else {
      ContentAppend(a[1..], b);
      assert (a + b)[1..] == a[1..] + b;
    }
  }

  lemma ContentOfOne(n: Node)
    ensures ContentOf([n]) == Content(n)
  {
    assert ContentOf([n][1..]) == [];
  }

  lemma ContentOfLast(nodes: seq<Node>)
    requires nodes != []
    ensures ContentOf(nodes) == ContentOf(nodes[..|nodes| - 1]) + Content(nodes[|nodes| - 1])
  {
    hide ContentOf, Content;
    var init, last := nodes[..|nodes| - 1], nodes[|nodes| - 1];
    ContentAppend(init, [last]);
    assert nodes == init + [last];
    ContentOfOne(last);
  }

  /** The last text ends the whole text, and a space is taken off exactly if it ends in one. */
  lemma {:induction false} TrimLastContent(n: Node)
    ensures |LastText(n)| <= |Content(n)| && Content(n)[|Content(n)| - |LastText(n)|..] == LastText(n)
    ensures Content(TrimLast(n)) == if EndsInSpace(LastText(n)) then Content(n)[..|Content(n)| - 1] else Content(n)
    decreases n, 1
  {
    if n.Element? && n.kids != [] {
      TrimmedContent(n.kids);
    }
  }

  lemma SuffixStays(p: string, q: string, t: string)
    requires |t| <= |q| && q[|q| - |t|..] == t
    ensures (p + q)[|p + q| - |t|..] == t
    ensures q != [] ==> p + q[..|q| - 1] == (p + q)[..|p + q| - 1]
  {
  }

  lemma {:induction false} TrimmedContent(nodes: seq<Node>)
    requires nodes != []
    ensures |LastTextOf(nodes)| <= |ContentOf(nodes)|
    ensures ContentOf(nodes)[|ContentOf(nodes)| - |LastTextOf(nodes)|..] == LastTextOf(nodes)
    ensures ContentOf(RemoveTrailing(nodes)) ==
            if EndsInSpace(LastTextOf(nodes)) then ContentOf(nodes)[..|ContentOf(nodes)| - 1] else ContentOf(nodes)
    decreases nodes, 0
  {
    hide ContentOf, Content, LastText, TrimLast;
    var k := |nodes| - 1;
    TrimLastContent(nodes[k]);
    ContentOfLast(nodes);
    ContentOfLast(RemoveTrailing(nodes));
    assert RemoveTrailing(nodes)[..k] == nodes[..k];
    SuffixStays(ContentOf(nodes[..k]), Content(nodes[k]), LastTextOf(nodes));
  }

  lemma TrimmedIsTight(all: string, last: string)
    requires |last| <= |all| && all[|all| - |last|..] == last && EndsInSpace(last) && Tight(all, true)
    ensures all != [] && Tight(all[..|all| - 1], true) && !EndsInSpace(all[..|all| - 1])
    ensures WordsOf(all[..|all| - 1]) == WordsOf(all)
  {
    hide WordsFrom;
    var init := all[..|all| - 1];
    assert all[|all| - 1] == last[|last| - 1];
    assert all == init + [' '];
    TrailingSpaceIsNoWord(init, []);
    assert forall i :: 0 <= i < |init| ==> WhiteBefore(init, true, i) == WhiteBefore(all, true, i);
    assert !WhiteBefore(all, true, |all| - 1);
  }

  /** The words of a run stay, with single spaces between them and none in front. */
  lemma CleanRunKeepsWords(nodes: seq<Node>)
    ensures WordsOf(ContentOf(CleanRun(nodes))) == WordsOf(ContentOf(nodes))
    ensures Tight(ContentOf(CleanRun(nodes)), true)
  {
    hide ContentOf, CollapseNodes, Collapsed, WordsFrom, Tight, LastTextOf, EndsWhite, RemoveTrailing, AfterAll;
    var text, collapsed := ContentOf(nodes), CollapseNodes(nodes, true);
    CollapseIsFlat(nodes, true);
    CollapsedIsTight(text, true);
    CollapsedKeepsWords(text, true, []);
    if collapsed != [] && EndsInSpace(LastTextOf(collapsed)) {
      TrimmedContent(collapsed);
      TrimmedIsTight(ContentOf(collapsed), LastTextOf(collapsed));
    } else if collapsed != [] {
      TrimmedContent(collapsed);
    }
  }

  // ----- the space at the end of a run -----

  predicate AllWhite(text: string) {
    forall i :: 0 <= i < |text| ==> IsWhite(text[i])
  }

  /** What stands before the last leaf. */
  function BeforeLast(nodes: seq<Node>): string {
    var text, last := ContentOf(nodes), LastTextOf(nodes);
    if |last| <= |text| then text[..|text| - |last|] else []
  }

  /** The white space that ends the run begins before its last leaf. */
  predicate EndsBeforeLastLeaf(nodes: seq<Node>) {
    var last := LastTextOf(nodes);
    AllWhite(last) && (last == [] || EndsWhite(BeforeLast(nodes), true))
  }

  lemma {:induction false} CollapsesToNothing(text: string, was: bool)
    ensures Collapsed(text, was) == [] <==> AllWhite(text) && (text == [] || was)
    decreases |text|
  {
    if text == [] {
    } else {
      CollapsesToNothing(text[1..], IsWhite(text[0]));
      assert AllWhite(text) <==> IsWhite(text[0]) && AllWhite(text[1..]) by {
        if IsWhite(text[0]) && AllWhite(text[1..]) {
          forall i | 0 <= i < |text| ensures IsWhite(text[i]) {
            assert i > 0 ==> text[i] == text[1..][i - 1];
          }
        }
      }
    }
  }

  /** The last text collapses as the end of the whole text does. */
  lemma {:induction false} LastTextCollapses(n: Node, was: bool)
    ensures |LastText(n)| <= |Content(n)|
    ensures LastText(CollapseNode(n, was))
         == Collapsed(LastText(n), EndsWhite(Content(n)[..|Content(n)| - |LastText(n)|], was))
    decreases n, 1
  {
    match n
    case Text(_) =>
    case Br(_, _) =>
    case Element(_, kids) => LastTextOfCollapses(kids, was);
  }

  lemma PrefixJoins(a: string, b: string, n: nat)
    requires n <= |b|
    ensures |a + b| - n >= 0 && (a + b)[..|a + b| - n] == a + b[..|b| - n]
  {
  }

  lemma {:induction false} LastTextOfCollapses(nodes: seq<Node>, was: bool)
    ensures |LastTextOf(nodes)| <= |ContentOf(nodes)|
    ensures LastTextOf(CollapseNodes(nodes, was)) == Collapsed(LastTextOf(nodes), EndsWhite(BeforeLast(nodes), was))
    decreases nodes, 0
  {
    hide Collapsed, EndsWhite, ContentOf, Content, CollapseNodes, CollapseNode, BeforeLast;
    if nodes == [] {
      NothingCollapses(was);
      NothingCollapses(EndsWhite(BeforeLast(nodes), was));
    } else {
      var init, last := nodes[..|nodes| - 1], nodes[|nodes| - 1];
      var was' := EndsWhite(ContentOf(init), was);
      LastTextCollapses(last, was');
      CollapseLast(nodes, was);
      BeforeLastJoins(nodes);
      EndsWhiteAppend(ContentOf(init), Content(last)[..|Content(last)| - |LastText(last)|], was);
    }
  }

  lemma NothingCollapses(was: bool)
    ensures CollapseNodes([], was) == [] && Collapsed([], was) == []
  {
  }

  lemma BeforeLastJoins(nodes: seq<Node>)
    requires nodes != [] && |LastText(nodes[|nodes| - 1])| <= |Content(nodes[|nodes| - 1])|
    ensures |LastTextOf(nodes)| <= |ContentOf(nodes)|
    ensures var last := nodes[|nodes| - 1];
            BeforeLast(nodes) == ContentOf(nodes[..|nodes| - 1]) + Content(last)[..|Content(last)| - |LastText(last)|]
  {
    hide ContentOf, Content, LastText;
    var last := nodes[|nodes| - 1];
    ContentOfLast(nodes);
    PrefixJoins(ContentOf(nodes[..|nodes| - 1]), Content(last), |LastText(last)|);
  }

  lemma {:induction false} CollapseLast(nodes: seq<Node>, was: bool)
    requires nodes != []
    ensures CollapseNodes(nodes, was) != []
    ensures var collapsed, init := CollapseNodes(nodes, was), nodes[..|nodes| - 1];
            collapsed[|collapsed| - 1] == CollapseNode(nodes[|nodes| - 1], EndsWhite(ContentOf(init), was))
    decreases |nodes|
  {
    hide Collapsed, EndsWhite, Content, CollapseNode;
    var collapsed, init := CollapseNodes(nodes, was), nodes[..|nodes| - 1];
    var rest := CollapseNodes(nodes[1..], After(nodes[0], was));
    assert collapsed == [CollapseNode(nodes[0], was)] + rest;
    if |nodes| == 1 {
      assert rest == [] && ContentOf(init) == [];
      assert EndsWhite([], was) == was by { EndsWhiteOfNothing(was); }
    } else {
      CollapseNodeIsFlat(nodes[0], was);
      CollapseLast(nodes[1..], After(nodes[0], was));
      assert nodes[1..][..|nodes| - 2] == init[1..];
      assert ContentOf(init) == Content(nodes[0]) + ContentOf(init[1..]);
      EndsWhiteAppend(Content(nodes[0]), ContentOf(init[1..]), was);
      assert collapsed[|collapsed| - 1] == rest[|rest| - 1];
    }
  }

  lemma EndsWhiteOfNothing(was: bool)
    ensures EndsWhite([], was) == was
  {
  }

  /** The run still ends in a space exactly if its last leaf holds only the rest of the white space there. */
  lemma SpaceStaysExactly(nodes: seq<Node>)
    ensures EndsInSpace(ContentOf(CleanRun(nodes)))
       <==> WordsOf(ContentOf(nodes)) != [] && EndsWhite(ContentOf(nodes), true) && EndsBeforeLastLeaf(nodes)
  {
    hide ContentOf, CollapseNodes, Collapsed, WordsFrom, Tight, LastTextOf, EndsWhite, RemoveTrailing, AfterAll,
        BeforeLast, AllWhite;
    var text, collapsed := ContentOf(nodes), CollapseNodes(nodes, true);
    var all, last := ContentOf(collapsed), LastTextOf(collapsed);
    CollapseIsFlat(nodes, true);
    CollapsedIsTight(text, true);
    CollapsedKeepsWords(text, true, []);
    LastTextOfCollapses(nodes, true);
    CollapsesToNothing(LastTextOf(nodes), EndsWhite(BeforeLast(nodes), true));
    WordInTight(all);
    TightEnds(all, last);
    if collapsed == [] {
      assert all == [] by { assert ContentOf([]) == [] by { ContentOfNothing(); } }
    } else {
      TrimmedContent(collapsed);
      if EndsInSpace(last) {
        TrimmedIsTight(all, last);
      }
    }
  }

  lemma ContentOfNothing()
    ensures ContentOf([]) == []
  {
  }

  lemma {:induction false} BegunWordStays(text: string, begun: string)
    requires begun != []
    ensures WordsFrom(text, begun) != []
    decreases |text|
  {
    if text == [] || IsWhite(text[0]) {
    } else {
      BegunWordStays(text[1..], begun + [text[0]]);
    }
  }

  lemma WordInTight(text: string)
    requires Tight(text, true)
    ensures WordsOf(text) != [] <==> text != []
  {
    if text != [] {
      assert !WhiteBefore(text, true, 0) || !IsWhite(text[0]);
      assert [] + [text[0]] == [text[0]];
      BegunWordStays(text[1..], [text[0]]);
    }
  }

  lemma TightEnds(all: string, last: string)
    requires Tight(all, true)
    ensures EndsInSpace(all) <==> all != [] && EndsWhite(all, true)
    ensures |last| <= |all| && all[|all| - |last|..] == last && last != [] ==> EndsInSpace(last) == EndsInSpace(all)
  {
    if |last| <= |all| && all[|all| - |last|..] == last && last != [] {
      assert all[|all| - |last|..][|last| - 1] == all[|all| - 1];
    }
  }

  /** So a space before a blank last leaf is not taken off: a letter and a space in an element, then a space. */
  lemma SpaceBeforeBlankLeafStays(name: string, letter: char)
    requires !IsWhite(letter)
    ensures EndsInSpace(ContentOf(CleanRun([Element(name, [Text([letter, ' '])]), Text([' '])])))
  {
    hide CleanRun, EndsWhite;
    var first, second: string := [letter, ' '], [' '];
    var nodes := [Element(name, [Text(first)]), Text(second)];
    TwoTexts(name, first, second);
    assert first + second == [letter, ' ', ' '];
    assert BeforeLast(nodes) == first;
    SpacesAfterLetter(letter);
    SpaceStaysExactly(nodes);
  }

  lemma TwoTexts(name: string, first: string, second: string)
    ensures ContentOf([Element(name, [Text(first)]), Text(second)]) == first + second
    ensures LastTextOf([Element(name, [Text(first)]), Text(second)]) == second
  {
    var nodes := [Element(name, [Text(first)]), Text(second)];
    assert nodes[1..] == [Text(second)] && nodes[1] == Text(second);
    ContentOfOne(Text(first));
    ContentOfOne(Text(second));
  }

  lemma SpacesAfterLetter(letter: char)
    requires !IsWhite(letter)
    ensures WordsOf([letter, ' ', ' ']) != []
    ensures EndsWhite([letter, ' '], true) && EndsWhite([letter, ' ', ' '], true)
  {
    var text := [letter, ' ', ' '];
    assert text[1..] == [' ', ' '];
    assert [] + [text[0]] == [letter];
    BegunWordStays([' ', ' '], [letter]);
  }
}
