/** DiscourseDiff#side_by_side_markdown: a line diff with a token diff inside each changed pair of lines. */
module DiscourseDiff {
  import opened Options
  import opened EditScript
  import opened ShortScript
  import opened ParagraphScript
  import opened Markdown
  import opened OnpDiff
  import opened EditGraph

  const MAX_DIFFERENCE := 200

  // ----- what the texts in a script look like -----

  /** No markup, so a tag around it can be told from it. */
  ghost predicate Plain(tokens: seq<string>) {
    forall i :: 0 <= i < |tokens| ==> NoMarkup(tokens[i])
  }

  ghost predicate PlainScript(s: seq<Edit<string>>) {
    forall i :: 0 <= i < |s| ==> NoMarkup(s[i].text)
  }

  /** Whole lines: something before the first line end. */
  predicate StartsLine(text: string) {
    text != "" && !IsNewline(text[0])
  }

  ghost predicate LineScript(s: seq<Edit<string>>) {
    forall i :: 0 <= i < |s| ==> NoMarkup(s[i].text) && StartsLine(s[i].text)
  }

  ghost predicate LineTokens(tokens: seq<string>) {
    forall i :: 0 <= i < |tokens| ==> NoMarkup(tokens[i]) && StartsLine(tokens[i])
  }

  lemma {:induction false} LinesArePlain(text: string, i: nat)
    requires i <= |text| && NoMarkup(text)
    ensures LineTokens(LinesFrom(text, i))
    decreases |text| - i
  {
    if i == |text| {
    } else if IsNewline(text[i]) {
      LinesArePlain(text, i + 1);
    } else {
      var k := SkipNewlines(text, SkipNewlines(text, i + 1, false), true);
      LinesArePlain(text, k);
      assert LinesFrom(text, i) == [text[i..k]] + LinesFrom(text, k);
      assert NoMarkup(text[i..k]) && StartsLine(text[i..k]);
    }
  }

  lemma {:induction false} TokensArePlain(text: string, i: nat)
    requires i <= |text| && NoMarkup(text)
    ensures Plain(MarkdownFrom(text, i))
    decreases |text| - i
  {
    if i >= |text| {
    } else {
      TokensArePlain(text, TokenEnd(text, i));
    }
  }

  lemma DiffIsPlain(before: seq<string>, after: seq<string>, full: seq<Edit<string>>)
    requires IsDiff(before, after, full) && Plain(before) && Plain(after)
    ensures PlainScript(Compress(full))
  {
    forall i | 0 <= i < |full| ensures NoMarkup(full[i].text) {
      EntryIsOnASide(full, i);
    }
    CompressIsPlain(full);
  }

  lemma {:induction false} CompressIsPlain(s: seq<Edit<string>>)
    requires PlainScript(s)
    ensures PlainScript(Compress(s))
  {
    if s == [] {
    } else {
      CompressIsPlain(s[..|s| - 1]);
    }
  }

  lemma {:induction false} CompressKeepsLines(s: seq<Edit<string>>)
    requires LineScript(s)
    ensures LineScript(Compress(s))
  {
    if s == [] {
    } else {
      CompressKeepsLines(s[..|s| - 1]);
    }
  }

  lemma LineScriptOf(before: seq<string>, after: seq<string>, full: seq<Edit<string>>)
    requires IsDiff(before, after, full) && LineTokens(before) && LineTokens(after)
    ensures LineScript(full)
  {
    forall i | 0 <= i < |full| ensures NoMarkup(full[i].text) && StartsLine(full[i].text) {
      EntryIsOnASide(full, i);
    }
  }

  lemma LineDiffHasLines(before: string, after: string, ses: seq<Edit<string>>)
    requires IsLineDiff(before, after, ses)
    ensures LineScript(ses) && Alternating(ses)
  {
    var full: seq<Edit<string>> :| IsDiff(MarkdownLines(before), MarkdownLines(after), full) && ses == Compress(full);
    EscapedHasNoMarkup(before);
    EscapedHasNoMarkup(after);
    LinesArePlain(EscapeHTML(before), 0);
    LinesArePlain(EscapeHTML(after), 0);
    LineScriptOf(MarkdownLines(before), MarkdownLines(after), full);
    CompressKeepsLines(full);
    CompressAlternates(full);
  }

  // ----- the table -----

  /** The content of a table cell and the class it is marked with. */
  datatype Cell = Unchanged(html: string) | Deleted(html: string) | Inserted(html: string)

  datatype Row = Row(left: Cell, right: Cell)

  function CellHtml(c: Cell): string {
    match c
    case Unchanged(html) => "<td>" + html + "</td>"
    case Deleted(html) => "<td class=\"diff-del\">" + html + "</td>"
    case Inserted(html) => "<td class=\"diff-ins\">" + html + "</td>"
  }

  function RowsHtml(rows: seq<Row>): seq<string> {
    if rows == [] then []
    else RowsHtml(rows[..|rows| - 1])
         + ["<tr>", CellHtml(rows[|rows| - 1].left), CellHtml(rows[|rows| - 1].right), "</tr>"]
  }

  /** The whole table, piece by piece. */
  function Table(rows: seq<Row>): seq<string> {
    ["<table class=\"markdown\">"] + RowsHtml(rows) + ["</table>"]
  }

  function Column(rows: seq<Row>, side: Op): string {
    if rows == [] then ""
    else
      var row := rows[|rows| - 1];
      Column(rows[..|rows| - 1], side) + Strip(if side == Delete then row.left.html else row.right.html, false)
  }

  // ----- which rows there are, and which of them hit the cut-off -----

  /** Entries i and i + 1 are a deletion and an insertion, in either order, and share a row. */
  predicate SharesRow(ses: seq<Edit<string>>, i: nat) {
    i + 1 < |ses| && ses[i].op != Common && ses[i + 1].op == Opposite(ses[i].op)
  }

  function OldText(ses: seq<Edit<string>>, i: nat): string
    requires SharesRow(ses, i)
  {
    if ses[i].op == Delete then ses[i].text else ses[i + 1].text
  }

  function NewText(ses: seq<Edit<string>>, i: nat): string
    requires SharesRow(ses, i)
  {
    if ses[i].op == Delete then ses[i + 1].text else ses[i].text
  }

  /** What a row's texts are compared by: words, or lines when the word counts differ too much. */
  function RowTokens(was: string, now: string): (seq<string>, seq<string>) {
    var b, a := MarkdownFrom(was, 0), MarkdownFrom(now, 0);
    if |b| - |a| > MAX_DIFFERENCE || |a| - |b| > MAX_DIFFERENCE then (TokenizeLine(was), TokenizeLine(now)) else (b, a)
  }

  predicate RowFits(was: string, now: string) {
    var (b, a) := RowTokens(was, now);
    LeastDeletions(b, a) < CUT_OFF
  }

  /** From entry i on, no shared row hits the cut-off. */
  predicate RowsFit(ses: seq<Edit<string>>, i: nat)
    decreases |ses| - i
  {
    if i >= |ses| then true
    else if SharesRow(ses, i) then RowFits(OldText(ses, i), NewText(ses, i)) && RowsFit(ses, i + 2)
    else RowsFit(ses, i + 1)
  }

  function MarkdownLines(text: string): seq<string> {
    TokenizeLine(EscapeHTML(text))
  }

  ghost predicate IsLineDiff(before: string, after: string, ses: seq<Edit<string>>) {
    exists full :: IsDiff(MarkdownLines(before), MarkdownLines(after), full) && ses == Compress(full)
  }

  // ----- one shared row -----

  /** The two short texts a row diff puts into the cells, and whether they say everything. */
  lemma RowTexts(was: string, now: string, full: seq<Edit<string>>)
    requires StartsLine(was) && StartsLine(now) && NoMarkup(was) && NoMarkup(now)
    requires IsDiff(RowTokens(was, now).0, RowTokens(was, now).1, full)
    ensures PlainScript(Compress(full))
    ensures RowFits(was, now) ==> Text(Compress(full), Delete) == was && Text(Compress(full), Add) == now
    ensures !RowFits(was, now) ==> Text(Compress(full), Delete) == "" && Text(Compress(full), Add) == ""
  {
    var (b, a) := RowTokens(was, now);
    RowTokensJoin(was);
    RowTokensJoin(now);
    DiffIsPlain(b, a, full);
    CompressKeepsText(full, Delete);
    CompressKeepsText(full, Add);
  }

  lemma RowTokensJoin(text: string)
    requires StartsLine(text) && NoMarkup(text)
    ensures Join(TokenizeLine(text)) == text && Join(MarkdownFrom(text, 0)) == text
    ensures Plain(TokenizeLine(text)) && Plain(MarkdownFrom(text, 0))
  {
    LinesKeepText(text);
    MarkdownJoins(text, 0);
    LinesArePlain(text, 0);
    TokensArePlain(text, 0);
    assert LineTokens(TokenizeLine(text));
  }

  // ----- the table as it is built -----

  /** What rows show of the first i entries of a line diff, and whether that is all of it. */
  ghost predicate RowsShow(ses: seq<Edit<string>>, i: int, rows: seq<Row>, complete: bool) {
    && 0 <= i <= |ses|
    && (RowsFit(ses, 0) <==> complete && RowsFit(ses, i))
    && var was, now := Text(ses[..i], Delete), Text(ses[..i], Add);
       if complete then Column(rows, Delete) == was && Column(rows, Add) == now
       else |Column(rows, Delete)| + |Column(rows, Add)| < |was| + |now|
  }

  lemma ColumnSnoc(rows: seq<Row>, row: Row, side: Op)
    ensures Column(rows + [row], side)
            == Column(rows, side) + Strip(if side == Delete then row.left.html else row.right.html, false)
  {
    assert (rows + [row])[..|rows + [row]| - 1] == rows;
  }

  lemma TextNext(ses: seq<Edit<string>>, i: nat, op: Op)
    requires i < |ses|
    ensures Text(ses[..i + 1], op) == if Keeps(ses[i], op) then Text(ses[..i], op) + ses[i].text else Text(ses[..i], op)
  {
    TextSnoc(ses[..i], ses[i], op);
    assert ses[..i + 1] == ses[..i] + [ses[i]];
  }

  /** A row for one entry shows it on the side, or both sides, it belongs to. */
  lemma RowForEntry(ses: seq<Edit<string>>, i: nat, rows: seq<Row>, complete: bool, row: Row)
    requires RowsShow(ses, i, rows, complete) && i < |ses| && !SharesRow(ses, i)
    requires Strip(row.left.html, false) == if Keeps(ses[i], Delete) then ses[i].text else ""
    requires Strip(row.right.html, false) == if Keeps(ses[i], Add) then ses[i].text else ""
    ensures RowsShow(ses, i + 1, rows + [row], complete)
  {
    hide Column, Text, Strip;
    ColumnSnoc(rows, row, Delete);
    ColumnSnoc(rows, row, Add);
    TextNext(ses, i, Delete);
    TextNext(ses, i, Add);
    assert Column(rows, Delete) + "" == Column(rows, Delete) && Column(rows, Add) + "" == Column(rows, Add);
  }

  /** A shared row shows both entries, or nothing of them. */
  lemma RowForPair(ses: seq<Edit<string>>, i: nat, rows: seq<Row>, complete: bool, row: Row)
    requires RowsShow(ses, i, rows, complete) && SharesRow(ses, i)
    requires Strip(row.left.html, false) == if RowFits(OldText(ses, i), NewText(ses, i)) then OldText(ses, i) else ""
    requires Strip(row.right.html, false) == if RowFits(OldText(ses, i), NewText(ses, i)) then NewText(ses, i) else ""
    requires OldText(ses, i) != ""
    ensures RowsShow(ses, i + 2, rows + [row], complete && RowFits(OldText(ses, i), NewText(ses, i)))
  {
    hide Column, Text, Strip, RowFits;
    ColumnSnoc(rows, row, Delete);
    ColumnSnoc(rows, row, Add);
    TextNext(ses, i, Delete);
    TextNext(ses, i, Add);
    TextNext(ses, i + 1, Delete);
    TextNext(ses, i + 1, Add);
  }

  lemma RowsShowEverything(before: string, after: string, ses: seq<Edit<string>>, rows: seq<Row>, complete: bool)
    requires IsLineDiff(before, after, ses) && RowsShow(ses, |ses|, rows, complete)
    ensures ShowsBoth(before, after, rows)
            <==> LeastDeletions(MarkdownLines(before), MarkdownLines(after)) < CUT_OFF && RowsFit(ses, 0)
  {
    var b, a := MarkdownLines(before), MarkdownLines(after);
    var full: seq<Edit<string>> :| IsDiff(b, a, full) && ses == Compress(full);
    LinesKeepText(EscapeHTML(before));
    LinesKeepText(EscapeHTML(after));
    assert ses[..|ses|] == ses;
    if LeastDeletions(b, a) < CUT_OFF {
      ShortDiffReplays(b, a, full);
    } else {
      assert ses == [] && complete;
      LcsGrows(b, a, |b|, |a|);
      LinesAreNotEmpty(EscapeHTML(before), 0);
      LastTokenShows(b);
    }
  }

  // ----- texts that are short enough -----

  /** One short side is enough for a comparison not to be cut off. */
  lemma ShortRowFits(was: string, now: string)
    requires |was| < CUT_OFF || |now| < CUT_OFF
    ensures RowFits(was, now)
  {
    var (b, a) := RowTokens(was, now);
    FewLines(was, 0);
    FewLines(now, 0);
    FewTokens(was, 0);
    FewTokens(now, 0);
    LcsGrows(b, a, |b|, |a|);
  }

  lemma {:induction false} EntryIsPart(ses: seq<Edit<string>>, i: nat, op: Op)
    requires i < |ses| && Keeps(ses[i], op)
    ensures |ses[i].text| <= |Text(ses, op)|
    decreases |ses|
  {
    var last := |ses| - 1;
    TextNext(ses, last, op);
    assert ses[..last + 1] == ses;
    if i == last {
    } else {
      EntryIsPart(ses[..last], i, op);
    }
  }

  lemma {:induction false} ShortRowsFit(ses: seq<Edit<string>>, i: nat, op: Op)
    requires op != Common && |Text(ses, op)| < CUT_OFF
    ensures RowsFit(ses, i)
    decreases |ses| - i
  {
    hide RowFits;
    if i >= |ses| {
    } else if SharesRow(ses, i) {
      EntryIsPart(ses, if ses[i].op == op then i else i + 1, op);
      ShortRowFits(OldText(ses, i), NewText(ses, i));
      ShortRowsFit(ses, i + 2, op);
    } else {
      ShortRowsFit(ses, i + 1, op);
    }
  }

  /** If one of the escaped texts has fewer than 1000 characters no comparison is cut off. */
  lemma ShortTextFits(before: string, after: string, ses: seq<Edit<string>>)
    requires IsLineDiff(before, after, ses)
    requires |EscapeHTML(before)| < CUT_OFF || |EscapeHTML(after)| < CUT_OFF
    ensures LeastDeletions(MarkdownLines(before), MarkdownLines(after)) < CUT_OFF && RowsFit(ses, 0)
  {
    hide RowsFit;
    var b, a := MarkdownLines(before), MarkdownLines(after);
    var full: seq<Edit<string>> :| IsDiff(b, a, full) && ses == Compress(full);
    FewLines(EscapeHTML(before), 0);
    FewLines(EscapeHTML(after), 0);
    LcsGrows(b, a, |b|, |a|);
    ShortDiffReplays(b, a, full);
    LinesKeepText(EscapeHTML(before));
    LinesKeepText(EscapeHTML(after));
    ShortRowsFit(ses, 0, if |EscapeHTML(before)| < CUT_OFF then Delete else Add);
  }

  lemma LastTokenShows(tokens: seq<string>)
    requires tokens != [] && "" !in tokens
    ensures Join(tokens) != ""
  {
  }

  /** The left column shows the old text and the right column the new one, leading line ends aside. */
  ghost predicate ShowsBoth(before: string, after: string, rows: seq<Row>) {
    && Column(rows, Delete) == WithoutLeadingNewlines(EscapeHTML(before))
    && Column(rows, Add) == WithoutLeadingNewlines(EscapeHTML(after))
  }

  // ----- the code -----

  /** A word being collected from `start` on, behind the tokens before it. */
  ghost predicate Collecting(text: string, start: int, i: int, tokens: seq<string>) {
    && 0 <= start <= i <= |text|
    && tokens + MarkdownFrom(text, start) == MarkdownFrom(text, 0)
    && (start < i ==> IsWord(text[start]) && SkipClass(text, start + 1, true) == SkipClass(text, i, true))
  }

  lemma TokenFound(text: string, start: int, i: int, end: int, tokens: seq<string>)
    requires Collecting(text, start, i, tokens) && start < |text| && TokenEnd(text, start) == end
    ensures Collecting(text, end, end, tokens + [text[start..end]])
  {
    var t, rest := text[start..end], MarkdownFrom(text, end);
    assert tokens + ([t] + rest) == (tokens + [t]) + rest;
  }

  /** `tokenize_markdown` */
  method TokenizeMarkdown(text: string) returns (tokens: seq<string>)
    ensures tokens == MarkdownFrom(text, 0)
  {
    hide MarkdownFrom;
    tokens := [];
    assert tokens + MarkdownFrom(text, 0) == MarkdownFrom(text, 0);
    var i := 0;
    ghost var start := 0;
    var t := "";
    while i < |text|
      invariant Collecting(text, start, i, tokens) && t == text[start..i]
    {
      if IsWord(text[i]) {
        t := t + [text[i]];
        i := i + 1;
      } else if IsBlank(text[i]) && t != "" {
        ghost var blanks := i;
        while i < |text| && IsBlank(text[i])
          invariant blanks <= i <= |text| && t == text[start..i]
          invariant SkipClass(text, blanks, false) == SkipClass(text, i, false)
        {
          t := t + [text[i]];
          i := i + 1;
        }
        TokenFound(text, start, blanks, i, tokens);
        tokens := tokens + [t];
        start := i;
        t := "";
      } else {
        if |t| > 0 {
          TokenFound(text, start, i, i, tokens);
          tokens := tokens + [t];
          start := i;
        }
        TokenFound(text, i, i, i + 1, tokens);
        tokens := tokens + [text[i..i + 1]];
        i := i + 1;
        start := i;
        t := "";
      }
    }
    if |t| > 0 {
      TokenFound(text, start, i, i, tokens);
      tokens := tokens + [t];
    }
    MarkdownEnds(text, tokens);
  }

  lemma MarkdownEnds(text: string, tokens: seq<string>)
    requires tokens + MarkdownFrom(text, |text|) == MarkdownFrom(text, 0)
    ensures tokens == MarkdownFrom(text, 0)
  {
    assert tokens + [] == tokens;
  }

  /** An entry as it stands in a cell. */
  function Tagged(e: Edit<string>): string {
    match e.op
    case Common => e.text
    case Delete => "<del>" + e.text + "</del>"
    case Add => "<ins>" + e.text + "</ins>"
  }

  /** The entries of one side, tagged. */
  function Pieces(diff: seq<Edit<string>>, op: Op): seq<string> {
    if diff == [] then []
    else
      var init, last := diff[..|diff| - 1], diff[|diff| - 1];
      if Keeps(last, op) then Pieces(init, op) + [Tagged(last)] else Pieces(init, op)
  }

  /** `generate_side_by_side_markdown` */
  method GenerateSideBySideMarkdown(diff: seq<Edit<string>>) returns (deleted: seq<string>, inserted: seq<string>)
    ensures deleted == Pieces(diff, Delete) && inserted == Pieces(diff, Add)
  {
    deleted, inserted := [], [];
    for i := 0 to |diff|
      invariant deleted == Pieces(diff[..i], Delete) && inserted == Pieces(diff[..i], Add)
    {
      PiecesNext(diff, i);
      hide Pieces;
      var d := diff[i].text;
      match diff[i].op {
        case Common =>
          deleted := deleted + [d];
          inserted := inserted + [d];
        case Delete =>
          deleted := deleted + ["<del>" + d + "</del>"];
        case Add =>
          inserted := inserted + ["<ins>" + d + "</ins>"];
      }
    }
    assert diff[..|diff|] == diff;
  }

  lemma PiecesNext(diff: seq<Edit<string>>, i: nat)
    requires i < |diff|
    ensures forall op :: Pieces(diff[..i + 1], op)
                         == if Keeps(diff[i], op) then Pieces(diff[..i], op) + [Tagged(diff[i])]
                            else Pieces(diff[..i], op)
  {
    assert diff[..i + 1][..i] == diff[..i];
  }

  /** With the markup taken off, each side's cell is that side's text. */
  lemma {:induction false} PiecesShow(diff: seq<Edit<string>>, op: Op)
    requires PlainScript(diff)
    ensures Shows(Join(Pieces(diff, op)), Text(diff, op))
    decreases |diff|
  {
    hide Strip, OpenTag, Text, Join, Shows, IsTag, Tagged;
    if diff == [] {
      NothingShows(op);
    } else {
      var init, last := diff[..|diff| - 1], diff[|diff| - 1];
      assert diff == init + [last];
      PiecesShow(init, op);
      TextSnoc(init, last, op);
      TaggedShows(last);
      JoinSnoc(Pieces(init, op), Tagged(last));
      ShowsAppend(Join(Pieces(init, op)), Text(init, op), Tagged(last), last.text);
    }
  }

  lemma NothingShows(op: Op)
    ensures Shows(Join([]), Text([], op))
  {
  }

  lemma TaggedShows(e: Edit<string>)
    requires NoMarkup(e.text)
    ensures Shows(Tagged(e), e.text)
  {
    TextShows(e.text);
    WrappedShows("<del>", e.text, "</del>");
    WrappedShows("<ins>", e.text, "</ins>");
  }

  // ----- which row shows what -----

  /** Where the entries after those of row i begin. */
  function NextRow(ses: seq<Edit<string>>, i: nat): nat {
    if IsReplacement(ses, i) then i + 2 else i + 1
  }

  /** Entry i is text taken out and entry i + 1 text put in, or the other way round. */
  predicate IsReplacement(ses: seq<Edit<string>>, i: nat) {
    i + 1 < |ses| && {ses[i].op, ses[i + 1].op} == {Delete, Add}
  }

  lemma ReplacementsShare(ses: seq<Edit<string>>, i: nat)
    ensures SharesRow(ses, i) <==> IsReplacement(ses, i)
  {
    if i + 1 < |ses| {
      var ops := {ses[i].op, ses[i + 1].op};
      assert ses[i].op in ops && ses[i + 1].op in ops;
      assert SharesRow(ses, i) ==> ops == {Delete, Add};
      assert ops == {Delete, Add} ==> Delete in ops && Add in ops;
    }
  }

  /** The row for entry i: a diff of two neighbours side by side, or the one entry on its side. */
  ghost predicate IsRow(ses: seq<Edit<string>>, i: nat, row: Row)
    requires i < |ses|
  {
    if IsReplacement(ses, i) then exists full: seq<Edit<string>> :: IsSharedRow(ses, i, row, full)
    else
      match ses[i].op
      case Common => row == Row(Unchanged(ses[i].text), Unchanged(ses[i].text))
      case Delete => row == Row(Deleted(ses[i].text), Unchanged(""))
      case Add => row == Row(Unchanged(""), Inserted(ses[i].text))
  }

  ghost predicate IsSharedRow(ses: seq<Edit<string>>, i: nat, row: Row, full: seq<Edit<string>>)
    requires IsReplacement(ses, i)
  {
    && (if ses[i].op == Delete then IsTokenDiff(ses[i].text, ses[i + 1].text, full)
        else IsTokenDiff(ses[i + 1].text, ses[i].text, full))
    && row == Row(Deleted(Join(Pieces(Compress(full), Delete))), Inserted(Join(Pieces(Compress(full), Add))))
  }

  /** By words, or by lines where the numbers of words are more than 200 apart. */
  ghost predicate IsTokenDiff(was: string, now: string, full: seq<Edit<string>>) {
    var b, a := MarkdownFrom(was, 0), MarkdownFrom(now, 0);
    if |b| <= |a| + 200 && |a| <= |b| + 200 then IsDiff(b, a, full)
    else IsDiff(TokenizeLine(was), TokenizeLine(now), full)
  }

  lemma TokenDiffIs(was: string, now: string, full: seq<Edit<string>>)
    ensures IsTokenDiff(was, now, full) <==> IsDiff(RowTokens(was, now).0, RowTokens(was, now).1, full)
  {
    hide IsDiff;
  }

  /** The rows of the entries from k up to i, one after the other. */
  ghost predicate RowsBetween(ses: seq<Edit<string>>, k: nat, i: nat, rows: seq<Row>)
    requires i <= |ses|
    decreases |rows|
  {
    if rows == [] then k == i
    else k < i && IsRow(ses, k, rows[0]) && RowsBetween(ses, NextRow(ses, k), i, rows[1..])
  }

  lemma {:induction false} RowAppended(ses: seq<Edit<string>>, k: nat, i: nat, rows: seq<Row>, row: Row)
    requires i < |ses| && RowsBetween(ses, k, i, rows) && IsRow(ses, i, row)
    ensures RowsBetween(ses, k, NextRow(ses, i), rows + [row])
    decreases |rows|
  {
    hide IsRow;
    if rows == [] {
      assert (rows + [row])[1..] == [];
    } else {
      RowAppended(ses, NextRow(ses, k), i, rows[1..], row);
      assert (rows + [row])[1..] == rows[1..] + [row];
    }
  }

  /** A shared row shows both texts in full if their comparison is not cut off, and nothing otherwise. */
  lemma SharedRowShows(ses: seq<Edit<string>>, i: nat, row: Row, full: seq<Edit<string>>)
    requires LineScript(ses) && SharesRow(ses, i) && IsSharedRow(ses, i, row, full)
    ensures Strip(row.left.html, false) == if RowFits(OldText(ses, i), NewText(ses, i)) then OldText(ses, i) else ""
    ensures Strip(row.right.html, false) == if RowFits(OldText(ses, i), NewText(ses, i)) then NewText(ses, i) else ""
  {
    hide Strip, OpenTag, MarkdownFrom, TokenizeLine, RowFits, RowTokens, Compress, IsDiff, Text, Join, Pieces;
    hide IsTokenDiff;
    TokenDiffIs(OldText(ses, i), NewText(ses, i), full);
    RowTexts(OldText(ses, i), NewText(ses, i), full);
    PiecesShow(Compress(full), Delete);
    PiecesShow(Compress(full), Add);
  }

  lemma OwnRowShows(ses: seq<Edit<string>>, i: nat, row: Row)
    requires LineScript(ses) && i < |ses| && !SharesRow(ses, i) && IsRow(ses, i, row)
    ensures Strip(row.left.html, false) == if Keeps(ses[i], Delete) then ses[i].text else ""
    ensures Strip(row.right.html, false) == if Keeps(ses[i], Add) then ses[i].text else ""
  {
    TextShows(ses[i].text);
  }

  lemma SharedIsRow(ses: seq<Edit<string>>, i: nat, row: Row, full: seq<Edit<string>>)
    requires SharesRow(ses, i) && IsSharedRow(ses, i, row, full)
    ensures IsRow(ses, i, row)
  {
  }

  lemma TableStarts(ses: seq<Edit<string>>)
    ensures RowsBetween(ses, 0, 0, [])
    ensures RowsShow(ses, 0, [], true)
    ensures ["<table class=\"markdown\">"] + ["</table>"] == Table([])
  {
    assert ses[..0] == [];
  }

  lemma TableGrows(table: seq<string>, rows: seq<Row>, row: Row)
    requires table + ["</table>"] == Table(rows)
    ensures (table + ["<tr>", CellHtml(row.left), CellHtml(row.right), "</tr>"]) + ["</table>"] == Table(rows + [row])
  {
    assert (rows + [row])[..|rows + [row]| - 1] == rows;
    var start := ["<table class=\"markdown\">"];
    assert table == (table + ["</table>"])[..|table|] == start + RowsHtml(rows);
  }

  /** `ONPDiff.new(before, after).short_diff` */
  method ShortDiffOf(before: seq<string>, after: seq<string>)
    returns (diff: seq<Edit<string>>, ghost full: seq<Edit<string>>)
    ensures IsDiff(before, after, full) && diff == Compress(full)
  {
    hide *;
    var onp := new ONPDiff(before, after);
    diff := onp.ShortDiff();
    full := onp.FullScript();
  }

  class DiscourseDiff {
    const before: string
    const after: string
    var lineByLine: Option<seq<Edit<string>>>

    ghost predicate Valid()
      reads this
    {
      lineByLine.Some? ==> IsLineDiff(before, after, lineByLine.value)
    }

    constructor (before: string, after: string)
      ensures Valid() && this.before == before && this.after == after
    {
      this.before, this.after, lineByLine := before, after, None;
    }

    /** `line_by_line_diff` */
    method LineByLineDiff() returns (ses: seq<Edit<string>>)
      requires Valid()
      modifies this
      ensures Valid() && lineByLine == Some(ses)
      ensures old(lineByLine.Some?) ==> lineByLine == old(lineByLine)
    {
      if lineByLine == None {
        ghost var full;
        ses, full := ShortDiffOf(MarkdownLines(before), MarkdownLines(after));
        lineByLine := Some(ses);
      }
      ses := lineByLine.value;
    }

    /** The row that entries i and i + 1 share: the two sides of a diff between them. */
    method SharedRow(ses: seq<Edit<string>>, i: nat) returns (row: Row, ghost full: seq<Edit<string>>)
      requires SharesRow(ses, i)
      ensures IsSharedRow(ses, i, row, full)
    {
      hide Strip, OpenTag, MarkdownFrom, TokenizeLine, Compress, IsDiff, Text, Join, Pieces;
      var first := if ses[i].op == Delete then i else i + 1;
      var second := if ses[i].op == Delete then i + 1 else i;
      var was, now := ses[first].text, ses[second].text;
      var beforeTokens := TokenizeMarkdown(was);
      var afterTokens := TokenizeMarkdown(now);
      if |beforeTokens| - |afterTokens| > MAX_DIFFERENCE || |afterTokens| - |beforeTokens| > MAX_DIFFERENCE {
        beforeTokens, afterTokens := TokenizeLine(was), TokenizeLine(now);
      }
      assert RowTokens(OldText(ses, i), NewText(ses, i)) == (beforeTokens, afterTokens);
      hide RowTokens, OldText, NewText;
      var diff;
      diff, full := ShortDiffOf(beforeTokens, afterTokens);
      var deleted, inserted := GenerateSideBySideMarkdown(diff);
      row := Row(Deleted(Join(deleted)), Inserted(Join(inserted)));
    }

    /** The row of an entry that has its row to itself. */
    method OwnRow(ses: seq<Edit<string>>, i: nat) returns (row: Row)
      requires i < |ses| && !SharesRow(ses, i)
      ensures IsRow(ses, i, row)
    {
      match ses[i].op {
        case Common => row := Row(Unchanged(ses[i].text), Unchanged(ses[i].text));
        case Delete => row := Row(Deleted(ses[i].text), Unchanged(""));
        case Add => row := Row(Unchanged(""), Inserted(ses[i].text));
      }
    }

    /** `side_by_side_markdown` */
    method SideBySideMarkdown() returns (html: string, ghost rows: seq<Row>)
      requires Valid()
      modifies this
      ensures Valid() && lineByLine.Some? && html == Join(Table(rows))
      ensures RowsBetween(lineByLine.value, 0, |lineByLine.value|, rows)
      ensures ShowsBoth(before, after, rows)
              <==> LeastDeletions(MarkdownLines(before), MarkdownLines(after)) < CUT_OFF && RowsFit(lineByLine.value, 0)
      ensures |EscapeHTML(before)| < CUT_OFF || |EscapeHTML(after)| < CUT_OFF ==> ShowsBoth(before, after, rows)
    {
      hide Strip, Text, Column, RowsFit, RowFits, Table, RowsHtml, LeastDeletions, ShowsBoth, IsLineDiff, Join,
          IsSharedRow, IsRow, RowsBetween;
      var ses := LineByLineDiff();
      LineDiffHasLines(before, after, ses);
      rows := [];
      ghost var complete := true;
      var table := ["<table class=\"markdown\">"];
      TableStarts(ses);
      var i := 0;
      while i < |ses|
        invariant lineByLine == Some(ses)
        invariant RowsShow(ses, i, rows, complete)
        invariant table + ["</table>"] == Table(rows)
        invariant RowsBetween(ses, 0, i, rows)
      {
        var row;
        if SharesRow(ses, i) {
          ghost var full;
          row, full := SharedRow(ses, i);
          SharedRowShows(ses, i, row, full);
          SharedIsRow(ses, i, row, full);
          RowAppended(ses, 0, i, rows, row);
          RowForPair(ses, i, rows, complete, row);
          complete := complete && RowFits(OldText(ses, i), NewText(ses, i));
          i := i + 2;
        } else {
          row := OwnRow(ses, i);
          OwnRowShows(ses, i, row);
          RowAppended(ses, 0, i, rows, row);
          RowForEntry(ses, i, rows, complete, row);
          i := i + 1;
        }
        TableGrows(table, rows, row);
        table := table + ["<tr>", CellHtml(row.left), CellHtml(row.right), "</tr>"];
        rows := rows + [row];
      }
      RowsShowEverything(before, after, ses, rows, complete);
      if |EscapeHTML(before)| < CUT_OFF || |EscapeHTML(after)| < CUT_OFF {
        ShortTextFits(before, after, ses);
      }
      table := table + ["</table>"];
      html := Join(table);
    }
  }
}
