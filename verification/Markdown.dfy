/** Text handling around a side-by-side diff: escaping, tokenizing, and reading markup back out. */
module Markdown {
  import opened ShortScript

  predicate IsNewline(c: char) { c == '\r' || c == '\n' }

  predicate IsBlank(c: char) { c == ' ' || c == '\t' }

  predicate IsWord(c: char) {
    'a' <= c <= 'z' || 'A' <= c <= 'Z' || '0' <= c <= '9' || c == '_'
  }

  // ----- CGI.escapeHTML -----

  function EscapeChar(c: char): string {
    if c == '\'' then "&#39;"
    else if c == '&' then "&amp;"
    else if c == '"' then "&quot;"
    else if c == '<' then "&lt;"
    else if c == '>' then "&gt;"
    else [c]
  }

  function EscapeHTML(text: string): string {
    if text == "" then "" else EscapeHTML(text[..|text| - 1]) + EscapeChar(text[|text| - 1])
  }

  ghost predicate NoMarkup(text: string) {
    forall i :: 0 <= i < |text| ==> text[i] != '<' && text[i] != '>'
  }

  lemma {:induction false} EscapedHasNoMarkup(text: string)
    ensures NoMarkup(EscapeHTML(text))
  {
    if text == "" {
    } else {
      hide NoMarkup, EscapeChar;
      EscapedHasNoMarkup(text[..|text| - 1]);
      CharHasNoMarkup(text[|text| - 1]);
      NoMarkupJoins(EscapeHTML(text[..|text| - 1]), EscapeChar(text[|text| - 1]));
    }
  }

  lemma CharHasNoMarkup(c: char)
    ensures NoMarkup(EscapeChar(c))
  {
  }

  lemma NoMarkupJoins(a: string, b: string)
    requires NoMarkup(a) && NoMarkup(b)
    ensures NoMarkup(a + b)
  {
  }

  lemma {:induction false} EscapeFirst(text: string)
    requires text != ""
    ensures EscapeHTML(text) == EscapeChar(text[0]) + EscapeHTML(text[1..])
    decreases |text|
  {
    hide EscapeChar;
    var init, last := text[..|text| - 1], text[|text| - 1];
    if |text| == 1 {
      assert text[1..] == "" && init == "";
    } else {
      EscapeFirst(init);
      assert init[1..] == text[1..][..|text| - 2];
      EscapedLast(text[1..]);
      var a, b, c := EscapeChar(text[0]), EscapeHTML(init[1..]), EscapeChar(last);
      assert (a + b) + c == a + (b + c);
    }
  }

  lemma EscapedLast(text: string)
    requires text != ""
    ensures EscapeHTML(text) == EscapeHTML(text[..|text| - 1]) + EscapeChar(text[|text| - 1])
  {
  }

  /** No character's escape begins like another's. */
  lemma EscapesDiffer(c: char, d: char, x: string, y: string)
    requires EscapeChar(c) + x == EscapeChar(d) + y
    ensures c == d && x == y
  {
    var a, b := EscapeChar(c), EscapeChar(d);
    var all := a + x;
    assert all[..|a|] == a && all[|a|..] == x && all[..|b|] == b && all[|b|..] == y;
    assert a[0] == all[0] == b[0];
    if a[0] == '&' {
      assert a[1] == all[1] == b[1] && a[2] == all[2] == b[2];
    }
  }

  /** So escaping loses nothing: different texts stay different. */
  lemma {:induction false} EscapeIsInjective(s: string, t: string)
    requires EscapeHTML(s) == EscapeHTML(t)
    ensures s == t
    decreases |s|
  {
    if s == "" || t == "" {
      EscapeGrows(s);
      EscapeGrows(t);
    } else {
      EscapeFirst(s);
      EscapeFirst(t);
      EscapesDiffer(s[0], t[0], EscapeHTML(s[1..]), EscapeHTML(t[1..]));
      EscapeIsInjective(s[1..], t[1..]);
      assert s == [s[0]] + s[1..] && t == [t[0]] + t[1..];
    }
  }

  lemma {:induction false} EscapeGrows(text: string)
    ensures |EscapeHTML(text)| >= |text|
  {
    if text == "" {
    } else {
      EscapeGrows(text[..|text| - 1]);
    }
  }

  // ----- scanning -----

  /** The first index from i on whose character is not in the class. */
  function SkipNewlines(text: string, i: nat, newline: bool): (j: nat)
    requires i <= |text|
    ensures i <= j <= |text|
    decreases |text| - i
  {
    if i < |text| && IsNewline(text[i]) == newline then SkipNewlines(text, i + 1, newline) else i
  }

  /** `text[i..].scan(/[^\r\n]+[\r\n]*\/)`: lines with their line ends, blank ones swallowed. */
  function LinesFrom(text: string, i: nat): (lines: seq<string>)
    requires i <= |text|
    decreases |text| - i
  {
    if i == |text| then []
    else if IsNewline(text[i]) then LinesFrom(text, i + 1)
    else
      var j := SkipNewlines(text, i + 1, false);
      var k := SkipNewlines(text, j, true);
      [text[i..k]] + LinesFrom(text, k)
  }

  function TokenizeLine(text: string): seq<string> {
    LinesFrom(text, 0)
  }

  function WithoutLeadingNewlines(text: string): string {
    text[SkipNewlines(text, 0, true)..]
  }

  lemma {:induction false} SkipNewlinesIs(text: string, i: nat, newline: bool)
    requires i <= |text|
    ensures var j := SkipNewlines(text, i, newline);
            && (forall t :: i <= t < j ==> IsNewline(text[t]) == newline)
            && (j < |text| ==> IsNewline(text[j]) != newline)
    decreases |text| - i
  {
    if i < |text| && IsNewline(text[i]) == newline {
      SkipNewlinesIs(text, i + 1, newline);
    }
  }

  lemma {:induction false} LinesJoin(text: string, i: nat)
    requires i <= |text|
    ensures Join(LinesFrom(text, i)) == text[SkipNewlines(text, i, true)..]
    decreases |text| - i
  {
    if i >= |text| {
    } else if IsNewline(text[i]) {
      LinesJoin(text, i + 1);
    } else {
      var k := SkipNewlines(text, SkipNewlines(text, i + 1, false), true);
      LinesJoin(text, k);
      SkipNewlinesIs(text, SkipNewlines(text, i + 1, false), true);
      SliceThenLines(text, i, k);
    }
  }

  lemma SliceThenLines(text: string, i: nat, k: nat)
    requires i <= k <= |text| && Join(LinesFrom(text, k)) == text[k..]
    ensures Join([text[i..k]] + LinesFrom(text, k)) == text[i..]
  {
    hide Join, LinesFrom;
    JoinCons(text[i..k], LinesFrom(text, k));
    assert text[i..k] + text[k..] == text[i..];
  }

  lemma {:induction false} LinesAreNotEmpty(text: string, i: nat)
    requires i <= |text|
    ensures "" !in LinesFrom(text, i)
    decreases |text| - i
  {
    if i >= |text| {
    } else if IsNewline(text[i]) {
      LinesAreNotEmpty(text, i + 1);
    } else {
      LinesAreNotEmpty(text, SkipNewlines(text, SkipNewlines(text, i + 1, false), true));
    }
  }

  /** Each line has a character of its own. */
  lemma {:induction false} FewLines(text: string, i: nat)
    requires i <= |text|
    ensures |LinesFrom(text, i)| <= |text| - i
    decreases |text| - i
  {
    if i == |text| {
    } else if IsNewline(text[i]) {
      FewLines(text, i + 1);
    } else {
      FewLines(text, SkipNewlines(text, SkipNewlines(text, i + 1, false), true));
    }
  }

  lemma JoinCons(t: string, tokens: seq<string>)
    ensures Join([t] + tokens) == t + Join(tokens)
  {
    JoinAppend([t], tokens);
    assert Join([t]) == t by {
      assert [t][..0] == [];
      assert "" + t == t;
    }
  }

  /** Splitting into lines loses only leading line ends. */
  lemma LinesKeepText(text: string)
    ensures Join(TokenizeLine(text)) == WithoutLeadingNewlines(text)
  {
    LinesJoin(text, 0);
  }

  /** The first index from i on that is not a word character (a blank, if `word` is false). */
  function SkipClass(text: string, i: nat, word: bool): (j: nat)
    requires i <= |text|
    ensures i <= j <= |text|
    decreases |text| - i
  {
    if i < |text| && (if word then IsWord(text[i]) else IsBlank(text[i])) then SkipClass(text, i + 1, word) else i
  }

  /** A word with the blanks behind it, or any other single character. */
  function TokenEnd(text: string, i: nat): (j: nat)
    requires i < |text|
    ensures i < j <= |text|
  {
    if IsWord(text[i]) then SkipClass(text, SkipClass(text, i + 1, true), false) else i + 1
  }

  function MarkdownFrom(text: string, i: nat): seq<string>
    requires i <= |text|
    decreases |text| - i
  {
    if i == |text| then [] else [text[i..TokenEnd(text, i)]] + MarkdownFrom(text, TokenEnd(text, i))
  }

  lemma {:induction false} MarkdownJoins(text: string, i: nat)
    requires i <= |text|
    ensures Join(MarkdownFrom(text, i)) == text[i..]
    ensures i < |text| ==> MarkdownFrom(text, i) != []
    decreases |text| - i
  {
    if i >= |text| {
    } else {
      var j := TokenEnd(text, i);
      MarkdownJoins(text, j);
      JoinCons(text[i..j], MarkdownFrom(text, j));
      assert text[i..j] + text[j..] == text[i..];
    }
  }

  lemma {:induction false} FewTokens(text: string, i: nat)
    requires i <= |text|
    ensures |MarkdownFrom(text, i)| <= |text| - i
    decreases |text| - i
  {
    if i == |text| {
    } else {
      FewTokens(text, TokenEnd(text, i));
    }
  }

  // ----- what the tokens are -----

  /** The classes `\w`, `[ \t]` and `[\r\n]` of the patterns, as character codes. */
  lemma CharacterClasses(c: char)
    ensures var code := c as int;
            && (IsWord(c) <==> 48 <= code <= 57 || 65 <= code <= 90 || code == 95 || 97 <= code <= 122)
            && (IsBlank(c) <==> code == 9 || code == 32)
            && (IsNewline(c) <==> code == 10 || code == 13)
  {
  }

  predicate InLine(c: char) { !IsNewline(c) }

  /** A line: characters that end no line, as many as there are, and all line ends behind them. */
  ghost predicate IsLineAt(text: string, i: nat, e: nat) {
    i < e <= |text| && exists m: nat :: IsPair(text, i, m, e, InLine, IsNewline)
  }

  /** One or more characters of one class, then all there are of another; neither goes on. */
  predicate IsPair(text: string, i: nat, m: nat, e: nat, first: char -> bool, second: char -> bool) {
    && i < m <= e <= |text|
    && (forall t :: i <= t < m ==> first(text[t]))
    && (m < |text| ==> !first(text[m]))
    && (forall t :: m <= t < e ==> second(text[t]))
    && (e < |text| ==> !second(text[e]))
  }

  /** The lines from i on, one behind the other; line ends before the first do not belong to any. */
  ghost predicate AreLines(text: string, i: nat, lines: seq<string>)
    requires i <= |text|
    decreases |lines|
  {
    if lines == [] then forall t :: i <= t < |text| ==> IsNewline(text[t])
    else exists b: nat, e: nat :: BeginsLine(text, i, b, e, lines[0]) && AreLines(text, e, lines[1..])
  }

  ghost predicate BeginsLine(text: string, i: nat, b: nat, e: nat, line: string) {
    && i <= b < e <= |text|
    && (forall t :: i <= t < b ==> IsNewline(text[t]))
    && IsLineAt(text, b, e) && line == text[b..e]
  }

  lemma {:induction false} LinesAreWhole(text: string, i: nat)
    requires i <= |text|
    ensures AreLines(text, i, LinesFrom(text, i))
    decreases |text| - i
  {
    if i == |text| {
    } else if IsNewline(text[i]) {
      LinesAreWhole(text, i + 1);
      LaterLines(text, i, LinesFrom(text, i + 1));
    } else {
      var e := LineIsWhole(text, i);
      hide LinesFrom, IsLineAt;
      LinesAreWhole(text, e);
      FirstLine(text, i, e, LinesFrom(text, e));
    }
  }

  lemma LineIsWhole(text: string, i: nat) returns (e: nat)
    requires i < |text| && !IsNewline(text[i])
    ensures i < e <= |text| && IsLineAt(text, i, e)
    ensures LinesFrom(text, i) == [text[i..e]] + LinesFrom(text, e)
  {
    var m := SkipNewlines(text, i + 1, false);
    e := SkipNewlines(text, m, true);
    SkipNewlinesIs(text, i + 1, false);
    SkipNewlinesIs(text, m, true);
    assert IsPair(text, i, m, e, InLine, IsNewline);
  }

  lemma FirstLine(text: string, i: nat, e: nat, rest: seq<string>)
    requires i < e <= |text| && IsLineAt(text, i, e) && AreLines(text, e, rest)
    ensures AreLines(text, i, [text[i..e]] + rest)
  {
    var lines := [text[i..e]] + rest;
    assert lines[1..] == rest;
    assert BeginsLine(text, i, i, e, lines[0]);
  }

  lemma LaterLines(text: string, i: nat, lines: seq<string>)
    requires i < |text| && IsNewline(text[i]) && AreLines(text, i + 1, lines)
    ensures AreLines(text, i, lines)
  {
    if lines != [] {
      var b: nat, e: nat :| BeginsLine(text, i + 1, b, e, lines[0]) && AreLines(text, e, lines[1..]);
      assert BeginsLine(text, i, b, e, lines[0]);
    }
  }

  /** A whole word with all blanks behind it, or one other character. */
  ghost predicate IsTokenAt(text: string, i: nat, e: nat) {
    && i < e <= |text|
    && if IsWord(text[i]) then exists m: nat :: IsPair(text, i, m, e, IsWord, IsBlank) else e == i + 1
  }

  lemma {:induction false} SkipClassIs(text: string, i: nat, word: bool)
    requires i <= |text|
    ensures var j := SkipClass(text, i, word);
            && (forall t :: i <= t < j ==> if word then IsWord(text[t]) else IsBlank(text[t]))
            && (j < |text| ==> if word then !IsWord(text[j]) else !IsBlank(text[j]))
    decreases |text| - i
  {
    if i < |text| && (if word then IsWord(text[i]) else IsBlank(text[i])) {
      SkipClassIs(text, i + 1, word);
    }
  }

  lemma TokenIsWhole(text: string, i: nat)
    requires i < |text|
    ensures IsTokenAt(text, i, TokenEnd(text, i))
  {
    if IsWord(text[i]) {
      var m := SkipClass(text, i + 1, true);
      SkipClassIs(text, i + 1, true);
      SkipClassIs(text, m, false);
      assert IsPair(text, i, m, TokenEnd(text, i), IsWord, IsBlank);
    }
  }

  ghost predicate AreTokens(text: string, i: nat, tokens: seq<string>)
    requires i <= |text|
    decreases |tokens|
  {
    if tokens == [] then i == |text|
    else exists e: nat :: IsTokenAt(text, i, e) && tokens[0] == text[i..e] && AreTokens(text, e, tokens[1..])
  }

  /** The tokens are whole words with their blanks and single other characters, from the first to the last. */
  lemma {:induction false} TokensAreWhole(text: string, i: nat)
    requires i <= |text|
    ensures AreTokens(text, i, MarkdownFrom(text, i))
    decreases |text| - i
  {
    if i == |text| {
    } else {
      TokenIsWhole(text, i);
      TokensAreWhole(text, TokenEnd(text, i));
      assert MarkdownFrom(text, i)[1..] == MarkdownFrom(text, TokenEnd(text, i));
    }
  }

  // ----- markup -----

  /** A text with its tags removed; `inTag` tells whether it starts inside one. */
  function Strip(text: string, inTag: bool): string {
    if text == "" then ""
    else if inTag then Strip(text[1..], text[0] != '>')
    else if text[0] == '<' then Strip(text[1..], true)
    else [text[0]] + Strip(text[1..], false)
  }

  /** Whether the text ends inside a tag. */
  predicate OpenTag(text: string, inTag: bool) {
    if text == "" then inTag
    else OpenTag(text[1..], if inTag then text[0] != '>' else text[0] == '<')
  }

  lemma {:induction false} StripAppend(s: string, t: string, inTag: bool)
    ensures Strip(s + t, inTag) == Strip(s, inTag) + Strip(t, OpenTag(s, inTag))
    ensures OpenTag(s + t, inTag) == OpenTag(t, OpenTag(s, inTag))
  {
    if s == "" {
      assert s + t == t;
      assert Strip(s, inTag) + Strip(t, inTag) == Strip(t, inTag);
    } else {
      var inTag' := if inTag then s[0] != '>' else s[0] == '<';
      StripAppend(s[1..], t, inTag');
      assert (s + t)[1..] == s[1..] + t;
      if !inTag && s[0] != '<' {
        assert [s[0]] + (Strip(s[1..], false) + Strip(t, OpenTag(s, false)))
            == ([s[0]] + Strip(s[1..], false)) + Strip(t, OpenTag(s, false));
      }
    }
  }

  /** `shown` is the text of `html` for a reader, and `html` leaves no tag open. */
  ghost predicate Shows(html: string, shown: string) {
    Strip(html, false) == shown && !OpenTag(html, false)
  }

  lemma ShowsAppend(html: string, shown: string, html': string, shown': string)
    requires Shows(html, shown) && Shows(html', shown')
    ensures Shows(html + html', shown + shown')
  {
    StripAppend(html, html', false);
  }

  /** Text without markup shows as itself. */
  lemma {:induction false} TextShows(text: string)
    requires NoMarkup(text)
    ensures Shows(text, text)
  {
    if text == "" {
    } else {
      TextShows(text[1..]);
      assert [text[0]] + text[1..] == text;
    }
  }

  ghost predicate IsTag(tag: string) {
    |tag| >= 2 && tag[0] == '<' && tag[|tag| - 1] == '>' && NoMarkup(tag[1..|tag| - 1])
  }

  /** A tag shows as nothing. */
  lemma TagShows(tag: string)
    requires IsTag(tag)
    ensures Shows(tag, "")
  {
    assert tag[1..][..|tag| - 2] == tag[1..|tag| - 1];
    TagBody(tag[1..]);
  }

  lemma {:induction false} TagBody(body: string)
    requires body != "" && body[|body| - 1] == '>' && NoMarkup(body[..|body| - 1])
    ensures Strip(body, true) == "" && !OpenTag(body, true)
  {
    if |body| <= 1 {
    } else {
      assert body[0] == body[..|body| - 1][0];
      assert body[1..][..|body| - 2] == body[..|body| - 1][1..];
      TagBody(body[1..]);
    }
  }

  lemma WrappedShows(open: string, text: string, close: string)
    requires IsTag(open) && IsTag(close) && NoMarkup(text)
    ensures Shows(open + text + close, text)
  {
    TagShows(open);
    TextShows(text);
    TagShows(close);
    ShowsAppend(open, "", text, text);
    assert "" + text == text;
    ShowsAppend(open + text, text, close, "");
    assert text + "" == text;
  }
}
