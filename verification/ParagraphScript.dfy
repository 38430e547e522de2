/** Pairing each deletion with an insertion next to it, as `paragraph_diff` does. */
module ParagraphScript {
  import opened EditScript

  function Opposite(op: Op): Op {
    match op case Common => Common case Add => Delete case Delete => Add
  }

  ghost predicate Uniform<T>(s: seq<Edit<T>>, i: int, j: int, op: Op) {
    0 <= i <= j <= |s| && forall t :: i <= t < j ==> s[t].op == op
  }

  /** Where the run of operation `op` that starts at i ends. */
  function RunEnd<T>(s: seq<Edit<T>>, i: nat, op: Op): (j: nat)
    requires i <= |s|
    ensures i <= j <= |s|
    decreases |s| - i
  {
    if i < |s| && s[i].op == op then RunEnd(s, i + 1, op) else i
  }

  lemma RunEndStep<T>(s: seq<Edit<T>>, i: nat)
    requires i < |s|
    ensures RunEnd(s, i, s[i].op) == RunEnd(s, i + 1, s[i].op)
  {
  }

  lemma RunEndStop<T>(s: seq<Edit<T>>, op: Op)
    ensures RunEnd(s, |s|, op) == |s|
  {
  }

  /** It is the longest run with that operation. */
  lemma {:induction false} RunEndIs<T>(s: seq<Edit<T>>, i: nat, j: nat, op: Op)
    requires i <= j <= |s|
    ensures RunEnd(s, i, op) == j <==> Uniform(s, i, j, op) && (j < |s| ==> s[j].op != op)
    decreases j - i
  {
    if i < |s| && s[i].op == op {
      if i < j {
        RunEndIs(s, i + 1, j, op);
      }
    } else if i < j {
      assert s[i].op != op;
    }
  }

  /** s[i] s[j] s[i + 1] s[j + 1] ..., n pairs. */
  function Interleave<T>(s: seq<T>, i: nat, j: nat, n: nat): (r: seq<T>)
    requires i + n <= |s| && j + n <= |s|
    ensures |r| == 2 * n
  {
    if n == 0 then [] else Interleave(s, i, j, n - 1) + [s[i + n - 1]] + [s[j + n - 1]]
  }

  lemma {:induction false} InterleaveAt<T>(s: seq<T>, i: nat, j: nat, n: nat, t: nat)
    requires i + n <= |s| && j + n <= |s| && t < n
    ensures Interleave(s, i, j, n)[2 * t] == s[i + t] && Interleave(s, i, j, n)[2 * t + 1] == s[j + t]
  {
    if t >= n - 1 {
    } else {
      InterleaveAt(s, i, j, n - 1, t);
    }
  }

  function Min(x: int, y: int): int { if x <= y then x else y }

  /** The end of the run at i, and of the run of opposite entries behind it. */
  function BeforeEnd<T>(s: seq<Edit<T>>, i: nat): (j: nat)
    requires i < |s|
    ensures i < j <= |s|
  {
    RunEnd(s, i, s[i].op)
  }

  function AfterEnd<T>(s: seq<Edit<T>>, i: nat): (k: nat)
    requires i < |s|
    ensures BeforeEnd(s, i) <= k <= |s|
  {
    RunEnd(s, BeforeEnd(s, i), Opposite(s[i].op))
  }

  /** An opposite run of at least two entries is paired with the run before it. */
  predicate Paired<T>(s: seq<Edit<T>>, i: nat)
    requires i < |s|
  {
    s[i].op != Common && AfterEnd(s, i) - BeforeEnd(s, i) > 1
  }

  /** How many pairs are made. */
  function Pairs<T>(s: seq<Edit<T>>, i: nat): (n: nat)
    requires i < |s|
    ensures n <= BeforeEnd(s, i) - i && n <= AfterEnd(s, i) - BeforeEnd(s, i)
  {
    Min(BeforeEnd(s, i) - i, AfterEnd(s, i) - BeforeEnd(s, i))
  }

  /** Where the entries rewritten together with entry i end. */
  function BlockEnd<T>(s: seq<Edit<T>>, i: nat): (e: nat)
    requires i < |s|
    ensures i < e <= |s|
  {
    if s[i].op == Common then i + 1
    else if Paired(s, i) then BeforeEnd(s, i) + Pairs(s, i)
    else AfterEnd(s, i)
  }

  /** What the longer of two paired runs has left over stays before the pairs, or starts the next block. */
  function Block<T>(s: seq<Edit<T>>, i: nat): (r: seq<Edit<T>>)
    requires i < |s|
    ensures |r| == BlockEnd(s, i) - i
  {
    if Paired(s, i) then
      var j, n := BeforeEnd(s, i), Pairs(s, i);
      if i == j - n then Interleave(s, i, j, n) else s[i..j - n] + Interleave(s, j - n, j, n)
    else s[i..BlockEnd(s, i)]
  }

  function ParagraphsFrom<T>(s: seq<Edit<T>>, i: nat): (r: seq<Edit<T>>)
    requires i <= |s|
    ensures |r| == |s| - i
    decreases |s| - i
  {
    if i == |s| then [] else Block(s, i) + ParagraphsFrom(s, BlockEnd(s, i))
  }

  function Paragraphs<T>(s: seq<Edit<T>>): (r: seq<Edit<T>>)
    ensures |r| == |s|
  {
    ParagraphsFrom(s, 0)
  }

  // ----- both sides keep their tokens in order -----

  /** `Side(s[i..j], op)`, by index. */
  function Part<T>(s: seq<Edit<T>>, i: nat, j: nat, op: Op): seq<T>
    requires j <= |s|
    decreases j
  {
    if j <= i then []
    else if Keeps(s[j - 1], op) then Part(s, i, j - 1, op) + [s[j - 1].text]
    else Part(s, i, j - 1, op)
  }

  lemma {:induction false} PartIsSide<T>(s: seq<Edit<T>>, i: nat, j: nat, op: Op)
    requires i <= j <= |s|
    ensures Part(s, i, j, op) == Side(s[i..j], op)
    decreases j
  {
    if i >= j {
    } else {
      hide Side;
      PartIsSide(s, i, j - 1, op);
      assert s[i..j] == s[i..j - 1] + [s[j - 1]];
      SideSnoc(s[i..j - 1], s[j - 1], op);
    }
  }

  lemma {:induction false} PartSplit<T>(s: seq<Edit<T>>, i: nat, j: nat, k: nat, op: Op)
    requires i <= j <= k <= |s|
    ensures Part(s, i, k, op) == Part(s, i, j, op) + Part(s, j, k, op)
    decreases k
  {
    if j >= k {
    } else {
      PartSplit(s, i, j, k - 1, op);
    }
  }

  /** Of interleaved runs each side keeps one, in order. */
  lemma {:induction false} InterleaveSides<T>(s: seq<Edit<T>>, i: nat, j: nat, n: nat, x: Op, y: Op, op: Op)
    requires i + n <= |s| && j + n <= |s| && x != y && x != Common && y != Common && (op == x || op == y)
    requires Uniform(s, i, i + n, x) && Uniform(s, j, j + n, y)
    ensures Side(Interleave(s, i, j, n), op) == if op == x then Part(s, i, i + n, op) else Part(s, j, j + n, op)
  {
    hide Side, Interleave, Part;
    InterleaveParts(s, i, j, n, op);
    if n == 0 {
    } else {
      InterleaveSides(s, i, j, n - 1, x, y, op);
      OneOfTwo(Interleave(s, i, j, n - 1), s[i + n - 1], s[j + n - 1], op);
    }
  }

  lemma InterleaveParts<T>(s: seq<Edit<T>>, i: nat, j: nat, n: nat, op: Op)
    requires i + n <= |s| && j + n <= |s|
    ensures n == 0 ==> Side(Interleave(s, i, j, n), op) == [] && Part(s, i, i, op) == [] && Part(s, j, j, op) == []
    ensures n > 0 ==> Interleave(s, i, j, n) == Interleave(s, i, j, n - 1) + [s[i + n - 1]] + [s[j + n - 1]]
    ensures n > 0 && Keeps(s[i + n - 1], op)
        ==> Part(s, i, i + n, op) == Part(s, i, i + n - 1, op) + [s[i + n - 1].text]
    ensures n > 0 && Keeps(s[j + n - 1], op)
        ==> Part(s, j, j + n, op) == Part(s, j, j + n - 1, op) + [s[j + n - 1].text]
  {
  }

  lemma OneOfTwo<T>(head: seq<Edit<T>>, e: Edit<T>, f: Edit<T>, op: Op)
    requires Keeps(e, op) != Keeps(f, op)
    ensures Side(head + [e] + [f], op) == Side(head, op) + [if Keeps(e, op) then e.text else f.text]
  {
    SideSnoc(head, e, op);
    SideSnoc(head + [e], f, op);
  }

  /** Of two runs behind each other as well. */
  lemma {:induction false} AdjacentSides<T>(s: seq<Edit<T>>, i: nat, j: nat, k: nat, x: Op, y: Op, op: Op)
    requires x != y && x != Common && y != Common && (op == x || op == y)
    requires Uniform(s, i, j, x) && Uniform(s, j, k, y)
    ensures Part(s, i, k, op) == if op == x then Part(s, i, j, op) else Part(s, j, k, op)
    decreases k
  {
    if j < k {
      AdjacentSides(s, i, j, k - 1, x, y, op);
    } else {
      NothingKept(s, i, j, x, op);
    }
  }

  lemma {:induction false} NothingKept<T>(s: seq<Edit<T>>, i: nat, j: nat, other: Op, op: Op)
    requires Uniform(s, i, j, other) && other != Common
    ensures other != op ==> Part(s, i, j, op) == []
    decreases j
  {
    if i >= j {
    } else {
      NothingKept(s, i, j - 1, other, op);
    }
  }

  lemma PairedRuns<T>(s: seq<Edit<T>>, i: nat)
    requires i < |s|
    ensures var j, n := BeforeEnd(s, i), Pairs(s, i);
            Uniform(s, j - n, j, s[i].op) && Uniform(s, j, j + n, Opposite(s[i].op))
  {
    RunEndIs(s, i, BeforeEnd(s, i), s[i].op);
    RunEndIs(s, BeforeEnd(s, i), AfterEnd(s, i), Opposite(s[i].op));
  }

  /**
   A paired block is what the first run has too much, then one entry of the first run next to one of the
   second, until one of the two runs is used up.
   */
  lemma BlockPairsUp<T>(s: seq<Edit<T>>, i: nat, t: nat)
    requires i < |s| && Paired(s, i) && t < Pairs(s, i)
    ensures Pairs(s, i) == BeforeEnd(s, i) - i || Pairs(s, i) == AfterEnd(s, i) - BeforeEnd(s, i)
    ensures var j, n, block := BeforeEnd(s, i), Pairs(s, i), Block(s, i);
            var at := j - n - i + 2 * t;
            && |block| == j - n - i + 2 * n
            && block[..j - n - i] == s[i..j - n]
            && block[at] == s[j - n + t] && s[j - n + t].op == s[i].op
            && block[at + 1] == s[j + t] && s[j + t].op == Opposite(s[i].op)
  {
    hide Interleave, BeforeEnd, AfterEnd, Block, BlockEnd;
    PairedRuns(s, i);
    PairedBlock(s, i);
    var j, n := BeforeEnd(s, i), Pairs(s, i);
    InterleaveAt(s, j - n, j, n, t);
    PairStands(s[i..j - n], Interleave(s, j - n, j, n), Block(s, i), 2 * t);
  }

  lemma PairedBlock<T>(s: seq<Edit<T>>, i: nat)
    requires i < |s| && Paired(s, i)
    ensures var j, n := BeforeEnd(s, i), Pairs(s, i);
            Block(s, i) == if i == j - n then Interleave(s, j - n, j, n) else s[i..j - n] + Interleave(s, j - n, j, n)
  {
    hide Interleave, BeforeEnd, AfterEnd;
  }

  lemma PairStands<T>(left: seq<T>, pairs: seq<T>, block: seq<T>, d: nat)
    requires d + 1 < |pairs|
    requires if |left| == 0 then block == pairs else block == left + pairs
    ensures |block| == |left| + |pairs| && block[..|left|] == left
    ensures block[|left| + d] == pairs[d] && block[|left| + d + 1] == pairs[d + 1]
  {
  }

  /** The longest run of one operation that begins here. */
  ghost predicate IsRun<T>(s: seq<Edit<T>>, i: int, j: int, op: Op) {
    Uniform(s, i, j, op) && (j < |s| ==> s[j].op != op)
  }

  /** `r` begins with i..j and j..k paired: what the first has too much, then entries of both in turn. */
  ghost predicate BeginsInTurn<T>(s: seq<Edit<T>>, i: nat, j: nat, n: nat, r: seq<Edit<T>>)
    requires i + n <= j && j + n <= |s|
  {
    && |r| >= j + n - i
    && r[..j - n - i] == s[i..j - n]
    && forall t: nat :: t < n ==> StandInTurn(s, i, j, n, r, t)
  }

  ghost predicate StandInTurn<T>(s: seq<Edit<T>>, i: nat, j: nat, n: nat, r: seq<Edit<T>>, t: nat)
    requires i + n <= j && j + n <= |s| && |r| >= j + n - i && t < n
  {
    var at := j - n - i + 2 * t;
    r[at] == s[j - n + t] && r[at + 1] == s[j + t]
  }

  /**
   What becomes of the script from entry i on: a common entry stays; else, with a run of its operation up to
   j and one of the opposite operation up to k, two or more entries of the latter are put in turn with the
   former, as many as the shorter run has, and a run of one or none leaves the entries as they are.
   */
  lemma RunsArePaired<T>(s: seq<Edit<T>>, i: nat, j: nat, k: nat)
    requires i < |s| && s[i].op != Common
    requires IsRun(s, i, j, s[i].op) && IsRun(s, j, k, Opposite(s[i].op))
    ensures i < j <= k <= |s|
    ensures var r, n := ParagraphsFrom(s, i), Min(j - i, k - j);
            if k - j >= 2
            then BeginsInTurn(s, i, j, n, r) && r[j + n - i..] == ParagraphsFrom(s, j + n)
            else r[..k - i] == s[i..k] && r[k - i..] == ParagraphsFrom(s, k)
  {
    hide Interleave, Block, BlockEnd, ParagraphsFrom, BeginsInTurn;
    RunEndIs(s, i, j, s[i].op);
    RunEndIs(s, j, k, Opposite(s[i].op));
    hide Uniform, RunEnd;
    assert BeforeEnd(s, i) == j && AfterEnd(s, i) == k;
    BlockComesFirst(s, i);
    if k - j >= 2 {
      BlockBeginsInTurn(s, i);
      BeginsAlike(s, i, j, Min(j - i, k - j), Block(s, i), ParagraphsFrom(s, i));
    }
  }

  lemma BlockBeginsInTurn<T>(s: seq<Edit<T>>, i: nat)
    requires i < |s| && Paired(s, i)
    ensures BeginsInTurn(s, i, BeforeEnd(s, i), Pairs(s, i), Block(s, i))
  {
    hide Interleave, Block, BlockEnd, BeforeEnd, AfterEnd;
    BlockPairsUp(s, i, 0);
    forall t: nat | t < Pairs(s, i) ensures StandInTurn(s, i, BeforeEnd(s, i), Pairs(s, i), Block(s, i), t) {
      BlockPairsUp(s, i, t);
    }
  }

  lemma BeginsAlike<T>(s: seq<Edit<T>>, i: nat, j: nat, n: nat, block: seq<Edit<T>>, r: seq<Edit<T>>)
    requires i + n <= j && j + n <= |s| && |block| == j + n - i <= |r| && r[..j + n - i] == block
    requires BeginsInTurn(s, i, j, n, block)
    ensures BeginsInTurn(s, i, j, n, r)
  {
    assert r[..j - n - i] == block[..j - n - i];
    forall t: nat | t < n ensures StandInTurn(s, i, j, n, r, t) {
      assert StandInTurn(s, i, j, n, block, t);
      var at := j - n - i + 2 * t;
      assert r[at] == block[at] && r[at + 1] == block[at + 1];
    }
  }

  lemma BlockComesFirst<T>(s: seq<Edit<T>>, i: nat)
    requires i < |s|
    ensures var r, block, end := ParagraphsFrom(s, i), Block(s, i), BlockEnd(s, i);
            |block| == end - i && |r| == |s| - i && r[..end - i] == block && r[end - i..] == ParagraphsFrom(s, end)
    ensures s[i].op != Common ==>
              BlockEnd(s, i) == if Paired(s, i) then BeforeEnd(s, i) + Pairs(s, i) else AfterEnd(s, i)
    ensures !Paired(s, i) ==> Block(s, i) == s[i..BlockEnd(s, i)]
  {
    hide Interleave, BeforeEnd, AfterEnd;
  }

  lemma CommonStays<T>(s: seq<Edit<T>>, i: nat)
    requires i < |s| && s[i].op == Common
    ensures ParagraphsFrom(s, i) == [s[i]] + ParagraphsFrom(s, i + 1)
  {
    assert Block(s, i) == [s[i]];
  }

  /** Two deletions and two insertions behind them come out in turn. */
  lemma TwoAndTwo<T>(d1: T, d2: T, a1: T, a2: T)
    ensures Paragraphs([Edit(d1, Delete), Edit(d2, Delete), Edit(a1, Add), Edit(a2, Add)])
         == [Edit(d1, Delete), Edit(a1, Add), Edit(d2, Delete), Edit(a2, Add)]
  {
    var s := [Edit(d1, Delete), Edit(d2, Delete), Edit(a1, Add), Edit(a2, Add)];
    var r := Paragraphs(s);
    RunsArePaired(s, 0, 2, 4);
    assert StandInTurn(s, 0, 2, 2, r, 0) && StandInTurn(s, 0, 2, 2, r, 1);
  }

  lemma BlockKeepsSides<T>(s: seq<Edit<T>>, i: nat, op: Op)
    requires i < |s| && op != Common
    ensures Side(Block(s, i), op) == Part(s, i, BlockEnd(s, i), op)
  {
    hide Side, Part, Interleave, BeforeEnd, AfterEnd;
    if Paired(s, i) {
      PairedRuns(s, i);
      PairsKeepSides(s, i, BeforeEnd(s, i), Pairs(s, i), s[i].op, op);
    } else {
      PartIsSide(s, i, BlockEnd(s, i), op);
    }
  }

  lemma PairsKeepSides<T>(s: seq<Edit<T>>, i: nat, j: nat, n: nat, x: Op, op: Op)
    requires i + n <= j && j + n <= |s| && x != Common && op != Common
    requires Uniform(s, j - n, j, x) && Uniform(s, j, j + n, Opposite(x))
    ensures i == j - n ==> Side(Interleave(s, i, j, n), op) == Part(s, i, j + n, op)
    ensures Side(s[i..j - n] + Interleave(s, j - n, j, n), op) == Part(s, i, j + n, op)
  {
    hide Side, Part, Interleave;
    InterleaveSides(s, j - n, j, n, x, Opposite(x), op);
    AdjacentSides(s, j - n, j, j + n, x, Opposite(x), op);
    PartIsSide(s, i, j - n, op);
    PartSplit(s, i, j - n, j + n, op);
    SideAppend(s[i..j - n], Interleave(s, j - n, j, n), op);
  }

  lemma {:induction false} ParagraphsFromKeepSides<T>(s: seq<Edit<T>>, i: nat, op: Op)
    requires i <= |s| && op != Common
    ensures Side(ParagraphsFrom(s, i), op) == Part(s, i, |s|, op)
    decreases |s| - i
  {
    if i >= |s| {
    } else {
      var e := BlockEnd(s, i);
      ParagraphsFromKeepSides(s, e, op);
      BlockKeepsSides(s, i, op);
      PartSplit(s, i, e, |s|, op);
      SideAppend(Block(s, i), ParagraphsFrom(s, e), op);
    }
  }

  /** Pairing moves deletions against insertions only: each side's tokens stay as they were. */
  lemma ParagraphsKeepSides<T>(s: seq<Edit<T>>, op: Op)
    requires op != Common
    ensures Side(Paragraphs(s), op) == Side(s, op)
  {
    ParagraphsFromKeepSides(s, 0, op);
    PartIsSide(s, 0, |s|, op);
    assert s[0..|s|] == s;
  }

  // ----- the builder's loop -----

  /** What has been built up to entry i, continued, is the whole result. */
  ghost predicate BuiltUpTo<T>(s: seq<Edit<T>>, i: int, done: seq<Edit<T>>) {
    0 <= i <= |s| && done + ParagraphsFrom(s, i) == Paragraphs(s)
  }

  lemma BuildStarts<T>(s: seq<Edit<T>>)
    ensures BuiltUpTo(s, 0, [])
  {
    assert [] + Paragraphs(s) == Paragraphs(s);
  }

  lemma BuildNext<T>(s: seq<Edit<T>>, i: nat, done: seq<Edit<T>>)
    requires i < |s| && BuiltUpTo(s, i, done)
    ensures BuiltUpTo(s, BlockEnd(s, i), done + Block(s, i))
    ensures s[i].op == Common ==> Block(s, i) == [s[i]] && BlockEnd(s, i) == i + 1
  {
    var block, rest := Block(s, i), ParagraphsFrom(s, BlockEnd(s, i));
    assert done + (block + rest) == (done + block) + rest;
  }

  lemma BuildEnds<T>(s: seq<Edit<T>>, done: seq<Edit<T>>)
    requires BuiltUpTo(s, |s|, done)
    ensures done == Paragraphs(s)
  {
    assert done + [] == done;
  }
}
