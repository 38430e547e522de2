/** Edit scripts between two token sequences: what ONPDiff produces and DiscourseDiff consumes. */
module EditScript {

  datatype Op = Common | Add | Delete

  /** One `[text, op]` pair of a script. */
  datatype Edit<T> = Edit(text: T, op: Op)

  /** Common entries belong to both sides, the others to one. */
  predicate Keeps<T>(e: Edit<T>, op: Op) {
    e.op == Common || e.op == op
  }

  /** The tokens a script keeps on one side: Delete selects the old text, Add the new one. */
  function Side<T>(s: seq<Edit<T>>, op: Op): (r: seq<T>)
  {
    if s == [] then []
    else if Keeps(s[|s| - 1], op) then Side(s[..|s| - 1], op) + [s[|s| - 1].text]
    else Side(s[..|s| - 1], op)
  }

  /** `s` turns `before` into `after`. */
  ghost predicate IsScript<T>(s: seq<Edit<T>>, before: seq<T>, after: seq<T>)
  {
    Side(s, Delete) == before && Side(s, Add) == after
  }

  function Count<T>(s: seq<Edit<T>>, op: Op): nat
  {
    if s == [] then 0 else Count(s[..|s| - 1], op) + (if s[|s| - 1].op == op then 1 else 0)
  }

  /** The number of insertions and deletions in a script. */
  function Changes<T>(s: seq<Edit<T>>): nat
  {
    Count(s, Add) + Count(s, Delete)
  }

  lemma SideSnoc<T>(s: seq<Edit<T>>, e: Edit<T>, op: Op)
    ensures Side(s + [e], op) == if Keeps(e, op) then Side(s, op) + [e.text] else Side(s, op)
  {
    assert (s + [e])[..|s + [e]| - 1] == s;
  }

  lemma {:induction false} SideAppend<T>(s: seq<Edit<T>>, t: seq<Edit<T>>, op: Op)
    ensures Side(s + t, op) == Side(s, op) + Side(t, op)
  {
    if t == [] {
      assert s + t == s;
    } else {
      var t' := t[..|t| - 1];
      SideAppend(s, t', op);
      assert (s + t)[..|s + t| - 1] == s + t';
    }
  }

  /** Every entry's text is a token of one of the sides. */
  lemma {:induction false} EntryIsOnASide<T>(s: seq<Edit<T>>, i: nat)
    requires i < |s|
    ensures s[i].text in Side(s, Add) || s[i].text in Side(s, Delete)
  {
    if i < |s| - 1 {
      EntryIsOnASide(s[..|s| - 1], i);
    } else {
      assert Keeps(s[i], Add) ==> Side(s, Add)[|Side(s, Add)| - 1] == s[i].text;
      assert Keeps(s[i], Delete) ==> Side(s, Delete)[|Side(s, Delete)| - 1] == s[i].text;
    }
  }

  lemma {:induction false} CountAppend<T>(s: seq<Edit<T>>, t: seq<Edit<T>>, op: Op)
    ensures Count(s + t, op) == Count(s, op) + Count(t, op)
  {
    if t == [] {
      assert s + t == s;
    } else {
      var t' := t[..|t| - 1];
      CountAppend(s, t', op);
      assert (s + t)[..|s + t| - 1] == s + t';
    }
  }

  lemma {:induction false} SideLength<T>(s: seq<Edit<T>>, op: Op)
    requires op != Common
    ensures |Side(s, op)| == Count(s, Common) + Count(s, op)
  {
    if s == [] {
    } else {
      SideLength(s[..|s| - 1], op);
    }
  }

  /** Every entry of a script is common, an insertion or a deletion. */
  lemma {:induction false} CountTotal<T>(s: seq<Edit<T>>)
    ensures |s| == Count(s, Common) + Changes(s)
  {
    if s == [] {
    } else {
      CountTotal(s[..|s| - 1]);
    }
  }

  lemma SliceJoin<T>(s: seq<T>, i: nat, j: nat, k: nat)
    requires i <= j <= k <= |s|
    ensures s[i..j] + s[j..k] == s[i..k]
  {
  }
}
