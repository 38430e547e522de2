/** Merging neighbouring entries of equal operation, as `short_diff` does. */
module ShortScript {
  import opened EditScript

  function Join(tokens: seq<string>): string {
    if tokens == [] then "" else Join(tokens[..|tokens| - 1]) + tokens[|tokens| - 1]
  }

  /** The text a script keeps on one side. */
  function Text(s: seq<Edit<string>>, op: Op): string {
    Join(Side(s, op))
  }

  /** Appends an entry, or extends the last one if it has the same operation. */
  function Push(ses: seq<Edit<string>>, e: Edit<string>): seq<Edit<string>> {
    if ses != [] && ses[|ses| - 1].op == e.op
    then ses[..|ses| - 1] + [Edit(ses[|ses| - 1].text + e.text, e.op)]
    else ses + [e]
  }

  function Compress(s: seq<Edit<string>>): (r: seq<Edit<string>>) {
    if s == [] then [] else Push(Compress(s[..|s| - 1]), s[|s| - 1])
  }

  lemma CompressSnoc(s: seq<Edit<string>>, t: seq<Edit<string>>, e: Edit<string>)
    ensures Compress(s + (t + [e])) == Push(Compress(s + t), e)
  {
    assert (s + (t + [e]))[..|s + (t + [e])| - 1] == s + t;
  }

  lemma {:induction false} JoinAppend(s: seq<string>, t: seq<string>)
    ensures Join(s + t) == Join(s) + Join(t)
  {
    if t == [] {
      assert s + t == s;
    } else {
      JoinAppend(s, t[..|t| - 1]);
      assert (s + t)[..|s + t| - 1] == s + t[..|t| - 1];
    }
  }

  lemma JoinSnoc(s: seq<string>, t: string)
    ensures Join(s + [t]) == Join(s) + t
  {
    assert (s + [t])[..|s + [t]| - 1] == s;
  }

  lemma TextSnoc(s: seq<Edit<string>>, e: Edit<string>, op: Op)
    ensures Text(s + [e], op) == if Keeps(e, op) then Text(s, op) + e.text else Text(s, op)
  {
    SideSnoc(s, e, op);
    JoinSnoc(Side(s, op), e.text);
  }

  lemma PushText(c: seq<Edit<string>>, e: Edit<string>, op: Op)
    ensures Text(Push(c, e), op) == if Keeps(e, op) then Text(c, op) + e.text else Text(c, op)
  {
    if c != [] && c[|c| - 1].op == e.op {
      var init, last := c[..|c| - 1], c[|c| - 1];
      assert c == init + [last];
      TextSnoc(init, last, op);
      TextSnoc(init, Edit(last.text + e.text, e.op), op);
    } else {
      TextSnoc(c, e, op);
    }
  }

  /** Merging changes neither side's text. */
  lemma {:induction false} CompressKeepsText(s: seq<Edit<string>>, op: Op)
    ensures Text(Compress(s), op) == Text(s, op)
  {
    if s == [] {
    } else {
      var s', e := s[..|s| - 1], s[|s| - 1];
      CompressKeepsText(s', op);
      PushText(Compress(s'), e, op);
      TextSnoc(s', e, op);
      assert s == s' + [e];
    }
  }

  ghost predicate Alternating(s: seq<Edit<string>>) {
    forall i :: 0 < i < |s| ==> s[i - 1].op != s[i].op
  }

  lemma {:induction false} CompressAlternates(s: seq<Edit<string>>)
    ensures Alternating(Compress(s))
  {
    if s == [] {
    } else {
      CompressAlternates(s[..|s| - 1]);
    }
  }

  // ----- the reference definition: split into maximal runs, then join each run -----

  /** A non-empty run of entries with one operation. */
  ghost predicate IsRun(run: seq<Edit<string>>) {
    run != [] && forall i :: 0 <= i < |run| ==> run[i].op == run[0].op
  }

  ghost predicate MaximalRuns(runs: seq<seq<Edit<string>>>) {
    && (forall i :: 0 <= i < |runs| ==> IsRun(runs[i]))
    && (forall i :: 0 < i < |runs| ==> runs[i - 1][0].op != runs[i][0].op)
  }

  function Flatten<T>(runs: seq<seq<T>>): seq<T> {
    if runs == [] then [] else Flatten(runs[..|runs| - 1]) + runs[|runs| - 1]
  }

  function Texts<T>(s: seq<Edit<T>>): (r: seq<T>)
    ensures |r| == |s|
  {
    seq(|s|, i requires 0 <= i < |s| => s[i].text)
  }

  function Merged(runs: seq<seq<Edit<string>>>): (r: seq<Edit<string>>)
    requires forall i :: 0 <= i < |runs| ==> runs[i] != []
    ensures |r| == |runs|
  {
    seq(|runs|, i requires 0 <= i < |runs| => Edit(Join(Texts(runs[i])), runs[i][0].op))
  }

  /** However a script is split into maximal runs, `Compress` is those runs joined. */
  lemma {:induction false} CompressJoinsRuns(runs: seq<seq<Edit<string>>>)
    requires MaximalRuns(runs)
    ensures Compress(Flatten(runs)) == Merged(runs)
  {
    if runs == [] {
    } else {
      hide Compress, Join;
      var init, last := runs[..|runs| - 1], runs[|runs| - 1];
      CompressJoinsRuns(init);
      CompressRun(Flatten(init), last, Merged(init));
      assert Merged(runs) == Merged(init) + [Edit(Join(Texts(last)), last[0].op)];
    }
  }

  lemma {:induction false} CompressRun(s: seq<Edit<string>>, run: seq<Edit<string>>, c: seq<Edit<string>>)
    requires IsRun(run) && c == Compress(s)
    requires c != [] ==> c[|c| - 1].op != run[0].op
    ensures Compress(s + run) == c + [Edit(Join(Texts(run)), run[0].op)]
  {
    var run', e := run[..|run| - 1], run[|run| - 1];
    assert (s + run)[..|s + run| - 1] == s + run';
    assert Texts(run)[..|run| - 1] == Texts(run');
    if run' == [] {
      assert s + run' == s;
      assert Join(Texts(run)) == Join([]) + e.text == e.text;
    } else {
      CompressRun(s, run', c);
    }
  }

  /** Such a split exists for every script. */
  function RunsOf(s: seq<Edit<string>>): (runs: seq<seq<Edit<string>>>)
    ensures MaximalRuns(runs) && Flatten(runs) == s
  {
    if s == [] then [] else AddToRuns(RunsOf(s[..|s| - 1]), s[|s| - 1])
  }

  function AddToRuns(runs: seq<seq<Edit<string>>>, e: Edit<string>): (r: seq<seq<Edit<string>>>)
    requires MaximalRuns(runs)
    ensures MaximalRuns(r) && Flatten(r) == Flatten(runs) + [e]
  {
    if runs != [] && runs[|runs| - 1][0].op == e.op then
      var init := runs[..|runs| - 1];
      assert (init + [runs[|runs| - 1] + [e]])[..|init|] == init;
      init + [runs[|runs| - 1] + [e]]
    else
      assert (runs + [[e]])[..|runs|] == runs;
      runs + [[e]]
  }

  // ----- the size of a change -----

  /** Characters inserted or deleted: the sum `diff_size` takes. */
  function ChangedText(s: seq<Edit<string>>): (n: nat) {
    if s == [] then 0
    else ChangedText(s[..|s| - 1]) + (if s[|s| - 1].op == Common then 0 else |s[|s| - 1].text|)
  }

  lemma {:induction false} CompressKeepsSize(s: seq<Edit<string>>)
    ensures ChangedText(Compress(s)) == ChangedText(s)
  {
    if s == [] {
    } else {
      var s', e := s[..|s| - 1], s[|s| - 1];
      var c := Compress(s');
      CompressKeepsSize(s');
      assert (c + [e])[..|c + [e]| - 1] == c;
      if c != [] && c[|c| - 1].op == e.op {
        var longer := c[..|c| - 1] + [Edit(c[|c| - 1].text + e.text, e.op)];
        assert longer[..|longer| - 1] == c[..|c| - 1];
      }
    }
  }

  /** On single-character tokens it is the number of insertions and deletions. */
  lemma {:induction false} CharactersCountAsEdits(s: seq<Edit<string>>)
    requires forall i :: 0 <= i < |s| ==> |s[i].text| == 1
    ensures ChangedText(s) == Changes(s)
  {
    if s == [] {
    } else {
      CharactersCountAsEdits(s[..|s| - 1]);
    }
  }
}
