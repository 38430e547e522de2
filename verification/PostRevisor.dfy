/** PostRevisor: every edit of a post either opens a new version or is folded into the latest revision. */
module PostRevisor {
  import opened Options
  import opened EditGraph
  import OnpDiff

  type Field = string

  /** An attribute of a post or topic; any other value is known by what it is and by its `to_s`. */
  datatype Value = Nil | Text(text: string) | Other(id: nat, shown: string)

  function Shown(v: Value): string {
    match v
    case Nil => ""
    case Text(text) => text
    case Other(_, shown) => shown
  }

  type Fields = map<Field, Value>

  function Get(fields: Fields, f: Field): Value {
    if f in fields then fields[f] else Nil
  }

  predicate SameText(a: Fields, b: Fields, f: Field) {
    Shown(Get(a, f)) == Shown(Get(b, f))
  }

  ghost predicate SameTexts(a: Fields, b: Fields) {
    forall f :: SameText(a, b, f)
  }

  /** An entry of a revision: the value before it and the value since. */
  datatype Modification = Modification(before: Value, now: Value)
  type Modifications = map<Field, Modification>

  /** The changed fields of a save, as `previous_changes` and the topic diff give them. */
  function ChangesOf(fields: Fields, edits: Fields): Modifications {
    map f | f in edits && Get(fields, f) != edits[f] :: Modification(Get(fields, f), edits[f])
  }

  datatype Post = Post(version: int, publicVersion: int, fields: Fields, revisions: map<int, Modifications>)

  // ----- the two ways to record an edit -----

  function Saved(post: Post, edits: Fields): Post {
    post.(fields := post.fields + edits)
  }

  /** A new version: all changes go into a revision of their own. */
  function OpenVersion(post: Post, edits: Fields): Post {
    var number := post.version + 1;
    Saved(post, edits).(version := number,
                        publicVersion := post.publicVersion + 1,
                        revisions := post.revisions[number := ChangesOf(post.fields, edits)])
  }

  /** One field of a revision into which changes are folded. */
  function FoldedField(held: Modifications, changes: Modifications, f: Field): Option<Modification> {
    if f !in changes then (if f in held then Some(held[f]) else None)
    else if f !in held then Some(changes[f])
    else if Shown(held[f].before) != Shown(changes[f].now) then Some(Modification(held[f].before, changes[f].now))
    else None
  }

  function Folded(held: Modifications, changes: Modifications): Modifications {
    map f | f in held.Keys + changes.Keys && FoldedField(held, changes, f).Some? :: FoldedField(held, changes, f).value
  }

  /** An edit of the latest version: its revision takes the changes up, or goes away if nothing is left in it. */
  function FoldIn(post: Post, edits: Fields): Post {
    var saved := Saved(post, edits);
    if post.version !in post.revisions then saved
    else
      var mods := Folded(post.revisions[post.version], ChangesOf(post.fields, edits));
      if mods == map[] then
        saved.(version := post.version - 1,
               publicVersion := post.publicVersion - 1,
               revisions := post.revisions - {post.version})
      else saved.(revisions := post.revisions[post.version := mods])
  }

  class PostRevisor {
    var version: int
    var publicVersion: int
    var fields: Fields
    var revisions: map<int, Modifications>

    constructor (fields: Fields)
      ensures Current() == NewPost(fields)
    {
      version, publicVersion, this.fields, revisions := 1, 1, fields, map[];
    }

    ghost function Current(): Post
      reads this
    {
      Post(version, publicVersion, fields, revisions)
    }

    /** `update_post` and `update_topic`: set what the edit names, and tell what changed. */
    method Update(edits: Fields) returns (changes: Modifications)
      modifies this`fields
      ensures Current() == Saved(old(Current()), edits)
      ensures changes == ChangesOf(old(fields), edits)
    {
      changes := ChangesOf(fields, edits);
      fields := fields + edits;
    }

    method ReviseAndCreateNewVersion(edits: Fields)
      modifies this
      ensures Current() == OpenVersion(old(Current()), edits)
    {
      version := version + 1;
      publicVersion := publicVersion + 1;
      var modifications := Update(edits);
      revisions := revisions[version := modifications];
    }

    method Revise(edits: Fields)
      modifies this
      ensures Current() == FoldIn(old(Current()), edits)
    {
      var modifications := Update(edits);
      UpdateRevision(modifications);
    }

    method UpdateRevision(changes: Modifications)
      modifies this`version, this`publicVersion, this`revisions
      ensures var was := old(Current());
              Current() ==
              if was.version !in was.revisions then was
              else
                var mods := Folded(was.revisions[was.version], changes);
                if mods == map[] then
                  was.(version := was.version - 1,
                       publicVersion := was.publicVersion - 1,
                       revisions := was.revisions - {was.version})
                else was.(revisions := was.revisions[was.version := mods])
    {
      if version !in revisions {
        return;
      }
      var held := revisions[version];
      var mods := held;
      var todo := changes.Keys;
      while todo != {}
        invariant todo <= changes.Keys
        invariant forall f :: f in mods <==> if f in todo then f in held else FoldedField(held, changes, f).Some?
        invariant forall f :: f in mods ==>
                    mods[f] == if f in todo then held[f] else FoldedField(held, changes, f).value
      {
        var field :| field in todo;
        if field in mods {
          var oldValue, newValue := mods[field].before, changes[field].now;
          if Shown(oldValue) != Shown(newValue) {
            mods := mods[field := Modification(oldValue, newValue)];
          } else {
            mods := mods - {field};
          }
        } else {
          mods := mods[field := changes[field]];
        }
        todo := todo - {field};
      }
      assert mods == Folded(held, changes);
      if mods == map[] {
        revisions := revisions - {version};
        version := version - 1;
        publicVersion := publicVersion - 1;
      } else {
        revisions := revisions[version := mods];
      }
    }
  }

  // ----- what the revisions say -----

  /** Where the text differs the field is held, and what is held are the two texts. */
  ghost predicate Tells(mods: Modifications, a: Fields, b: Fields) {
    forall f :: EntryTells(mods, a, b, f)
  }

  predicate EntryTells(mods: Modifications, a: Fields, b: Fields, f: Field) {
    && (!SameText(a, b, f) ==> f in mods)
    && (f in mods ==> Shown(mods[f].before) == Shown(Get(a, f)) && Shown(mods[f].now) == Shown(Get(b, f)))
  }

  /** Nothing else is held. */
  ghost predicate Describes(mods: Modifications, a: Fields, b: Fields) {
    Tells(mods, a, b) && forall f :: f in mods ==> !SameText(a, b, f)
  }

  /** How the fields stood when version k + 1 ended, for each version before the current one; and now. */
  function Ending(starts: seq<Fields>, post: Post, k: nat): Fields {
    if k < |starts| then starts[k] else post.fields
  }

  /** Revisions are numbered 2 to the current version, and each one tells how its version changed the one before. */
  ghost predicate Inv(post: Post, starts: seq<Fields>) {
    && post.version == |starts| + 1
    && (forall number :: number in post.revisions <==> 2 <= number <= post.version)
    && (forall k: nat :: k < |starts| ==> RevisionTells(post, starts, k))
  }

  ghost predicate RevisionTells(post: Post, starts: seq<Fields>, k: nat)
    requires k < |starts|
  {
    k + 2 in post.revisions && Tells(post.revisions[k + 2], starts[k], Ending(starts, post, k + 1))
  }

  /** No revision holds a field whose text is the same. */
  ghost predicate Exact(post: Post, starts: seq<Fields>)
    requires Inv(post, starts)
  {
    forall k: nat :: k < |starts| ==> RevisionIsExact(post, starts, k)
  }

  ghost predicate RevisionIsExact(post: Post, starts: seq<Fields>, k: nat)
    requires Inv(post, starts) && k < |starts|
  {
    RevisionTells(post, starts, k) && Describes(post.revisions[k + 2], starts[k], Ending(starts, post, k + 1))
  }

  function NewPost(fields: Fields): Post {
    Post(1, 1, fields, map[])
  }

  /** The change of this field can be seen in its text. */
  predicate Visible(changes: Modifications, f: Field)
    requires f in changes
  {
    Shown(changes[f].before) != Shown(changes[f].now)
  }

  /** Every change that is not folded into an entry can be seen. */
  predicate AllVisible(changes: Modifications, held: Modifications) {
    forall f :: f in changes && f !in held ==> Visible(changes, f)
  }

  /** What the latest revision holds so far. */
  function Held(post: Post): Modifications {
    if post.version in post.revisions then post.revisions[post.version] else map[]
  }

  /** Entries that tell the two texts are exact if and only if each of them can be seen. */
  lemma DescribesVisibly(mods: Modifications, a: Fields, b: Fields)
    requires Tells(mods, a, b)
    ensures Describes(mods, a, b) <==> AllVisible(mods, map[])
  {
    forall f | f in mods ensures Visible(mods, f) <==> !SameText(a, b, f) {
      assert EntryTells(mods, a, b, f);
    }
  }

  lemma ChangesTell(fields: Fields, edits: Fields)
    ensures Tells(ChangesOf(fields, edits), fields, fields + edits)
  {
    forall f ensures EntryTells(ChangesOf(fields, edits), fields, fields + edits, f) {
    }
  }

  /** Folding in keeps a revision telling what changed, whatever the edit. */
  lemma FoldedTells(held: Modifications, start: Fields, fields: Fields, edits: Fields)
    requires Tells(held, start, fields)
    ensures Tells(Folded(held, ChangesOf(fields, edits)), start, fields + edits)
  {
    forall f ensures EntryTells(Folded(held, ChangesOf(fields, edits)), start, fields + edits, f) {
      assert EntryTells(held, start, fields, f);
    }
  }

  lemma FoldedVisibly(held: Modifications, changes: Modifications)
    requires AllVisible(held, map[])
    ensures AllVisible(Folded(held, changes), map[]) <==> AllVisible(changes, held)
  {
    var mods := Folded(held, changes);
    if AllVisible(changes, held) {
      forall f | f in mods ensures Visible(mods, f) {
        assert f in changes && f !in held ==> Visible(changes, f);
        assert f in held ==> Visible(held, f);
      }
    } else {
      var f :| f in changes && f !in held && !Visible(changes, f);
      assert f in mods && !Visible(mods, f);
    }
  }

  /** It keeps it exact if and only if no change it had no entry for is invisible. */
  lemma FoldedDescribes(held: Modifications, start: Fields, fields: Fields, edits: Fields)
    requires Describes(held, start, fields)
    ensures Describes(Folded(held, ChangesOf(fields, edits)), start, fields + edits)
            <==> AllVisible(ChangesOf(fields, edits), held)
  {
    FoldedTells(held, start, fields, edits);
    DescribesVisibly(held, start, fields);
    DescribesVisibly(Folded(held, ChangesOf(fields, edits)), start, fields + edits);
    FoldedVisibly(held, ChangesOf(fields, edits));
  }

  lemma OpenVersionKeepsInv(post: Post, starts: seq<Fields>, edits: Fields)
    requires Inv(post, starts)
    ensures Inv(OpenVersion(post, edits), starts + [post.fields])
  {
    var next, starts' := OpenVersion(post, edits), starts + [post.fields];
    ChangesTell(post.fields, edits);
    forall k: nat | k < |starts'| ensures RevisionTells(next, starts', k) {
      assert k < |starts| ==> RevisionTells(post, starts, k);
    }
  }

  /** A version whose revision goes away takes its start with it. */
  function StartsAfterFold(post: Post, starts: seq<Fields>, edits: Fields): seq<Fields> {
    if FoldIn(post, edits).version < post.version && starts != [] then starts[..|starts| - 1] else starts
  }

  lemma FoldInKeepsInv(post: Post, starts: seq<Fields>, edits: Fields)
    requires Inv(post, starts)
    ensures Inv(FoldIn(post, edits), StartsAfterFold(post, starts, edits))
  {
    if starts != [] {
      var next, starts', last := FoldIn(post, edits), StartsAfterFold(post, starts, edits), |starts| - 1;
      assert RevisionTells(post, starts, last);
      FoldedTells(Held(post), starts[last], post.fields, edits);
      forall k: nat | k < |starts'| ensures RevisionTells(next, starts', k) {
        assert RevisionTells(post, starts, k);
        if |starts'| == last && k == last - 1 {
          EmptyTellsSame(starts[last], next.fields);
          EndsAlike(post.revisions[k + 2], starts[k], starts[last], next.fields);
        }
      }
    }
  }

  lemma EmptyTellsSame(a: Fields, b: Fields)
    requires Tells(map[], a, b)
    ensures SameTexts(a, b)
  {
    forall f ensures SameText(a, b, f) {
      assert EntryTells(map[], a, b, f);
    }
  }

  lemma EndsAlike(mods: Modifications, a: Fields, b: Fields, c: Fields)
    requires Tells(mods, a, b) && SameTexts(b, c)
    ensures Tells(mods, a, c)
  {
    forall f ensures EntryTells(mods, a, c, f) {
      assert EntryTells(mods, a, b, f) && SameText(b, c, f);
    }
  }

  /**
   The version steps back exactly when the edit takes every text back to the start of the version, and no
   entry is left that shows nothing: neither a new one nor one the edit does not touch.
   */
  lemma StepsBackExactly(post: Post, starts: seq<Fields>, edits: Fields)
    requires Inv(post, starts) && starts != []
    ensures var changes := ChangesOf(post.fields, edits);
            FoldIn(post, edits).version < post.version
            <==> && SameTexts(starts[|starts| - 1], post.fields + edits)
                 && AllVisible(changes, Held(post)) && AllVisible(Held(post), changes)
  {
    var start, held, changes := starts[|starts| - 1], Held(post), ChangesOf(post.fields, edits);
    var mods, fields := Folded(held, changes), post.fields + edits;
    assert RevisionTells(post, starts, |starts| - 1);
    FoldedTells(held, start, post.fields, edits);
    if mods == map[] {
      EmptyTellsSame(start, fields);
    } else {
      var f :| f in mods;
      assert EntryTells(mods, start, fields, f);
    }
    forall f ensures (f in changes && f !in held) || (f in held && f !in changes) ==> f in mods {
    }
    forall f
      ensures f in mods ==>
                || !SameText(start, fields, f)
                || (f in changes && f !in held && !Visible(changes, f))
                || (f in held && f !in changes && !Visible(held, f))
    {
      assert EntryTells(mods, start, fields, f);
    }
  }

  // ----- runs -----

  datatype Edit = Edit(newVersion: bool, edits: Fields)

  function Revised(post: Post, e: Edit): Post {
    if e.newVersion then OpenVersion(post, e.edits) else FoldIn(post, e.edits)
  }

  function StartsAfter(post: Post, starts: seq<Fields>, e: Edit): seq<Fields> {
    if e.newVersion then starts + [post.fields] else StartsAfterFold(post, starts, e.edits)
  }

  lemma RevisedKeepsInv(post: Post, starts: seq<Fields>, e: Edit)
    requires Inv(post, starts)
    ensures Inv(Revised(post, e), StartsAfter(post, starts, e))
    ensures Revised(post, e).version - Revised(post, e).publicVersion == post.version - post.publicVersion
  {
    if e.newVersion {
      OpenVersionKeepsInv(post, starts, e.edits);
    } else {
      FoldInKeepsInv(post, starts, e.edits);
    }
  }

  function RunPost(fields: Fields, run: seq<Edit>): Post {
    if run == [] then NewPost(fields) else Revised(RunPost(fields, run[..|run| - 1]), run[|run| - 1])
  }

  function RunStarts(fields: Fields, run: seq<Edit>): seq<Fields> {
    if run == [] then []
    else
      var init := run[..|run| - 1];
      StartsAfter(RunPost(fields, init), RunStarts(fields, init), run[|run| - 1])
  }

  /** Held exactly if the value changed, with both values. */
  predicate HoldsChange(mods: Modifications, a: Fields, b: Fields, f: Field) {
    && (f in mods <==> Get(a, f) != Get(b, f))
    && (f in mods ==> mods[f] == Modification(Get(a, f), Get(b, f)))
  }

  /** Every edit is saved, whatever becomes of the revisions; without one for the version nothing else changes. */
  lemma EditIsSaved(post: Post, e: Edit)
    ensures Revised(post, e).fields == post.fields + e.edits
    ensures e.newVersion ==>
              var next := Revised(post, e);
              && next.version == post.version + 1 && next.version in next.revisions
              && forall f :: HoldsChange(next.revisions[next.version], post.fields, next.fields, f)
    ensures !e.newVersion && post.version !in post.revisions ==>
              Revised(post, e) == post.(fields := post.fields + e.edits)
    ensures forall number :: number in post.revisions && number < post.version ==>
              number in Revised(post, e).revisions && Revised(post, e).revisions[number] == post.revisions[number]
  {
  }

  predicate IsLastToName(run: seq<Edit>, f: Field, i: nat) {
    i < |run| && f in run[i].edits && forall k :: i < k < |run| ==> f !in run[k].edits
  }

  /** After every run of edits a field has the value of the last one that names it, or the one it began with. */
  lemma {:induction false} LastEditIsSaved(fields: Fields, run: seq<Edit>, f: Field)
    ensures forall i: nat :: IsLastToName(run, f, i) ==> Get(RunPost(fields, run).fields, f) == run[i].edits[f]
    ensures (forall i :: 0 <= i < |run| ==> f !in run[i].edits) ==>
              Get(RunPost(fields, run).fields, f) == Get(fields, f)
    decreases |run|
  {
    hide Revised;
    if run == [] {
    } else {
      var init, last := run[..|run| - 1], run[|run| - 1];
      LastEditIsSaved(fields, init, f);
      EditIsSaved(RunPost(fields, init), last);
      forall i: nat | IsLastToName(run, f, i) ensures Get(RunPost(fields, run).fields, f) == run[i].edits[f] {
        if i < |init| {
          assert IsLastToName(init, f, i);
        }
      }
    }
  }

  /** After every run of edits the revisions are numbered 2..version and each tells what its version changed. */
  lemma {:induction false} RunKeepsInv(fields: Fields, run: seq<Edit>)
    ensures Inv(RunPost(fields, run), RunStarts(fields, run))
    ensures RunPost(fields, run).publicVersion == RunPost(fields, run).version
    decreases |run|
  {
    if run == [] {
    } else {
      var init := run[..|run| - 1];
      RunKeepsInv(fields, init);
      RevisedKeepsInv(RunPost(fields, init), RunStarts(fields, init), run[|run| - 1]);
    }
  }

  /** Taking a revision back: each field it holds gets its value from before. */
  function TakeBack(fields: Fields, mods: Modifications): Fields {
    fields + map f | f in mods :: mods[f].before
  }

  /** Taking back every revision from the current one down to number k + 2. */
  function Rewind(post: Post, starts: seq<Fields>, k: nat): Fields
    requires Inv(post, starts) && k <= |starts|
    decreases |starts| - k
  {
    if k == |starts| then post.fields
    else
      assert RevisionTells(post, starts, k);
      TakeBack(Rewind(post, starts, k + 1), post.revisions[k + 2])
  }

  /** The revisions lead back from the current text to that of every version. */
  lemma {:induction false} RewindReachesEveryVersion(post: Post, starts: seq<Fields>, k: nat, f: Field)
    requires Inv(post, starts) && k <= |starts|
    ensures Shown(Get(Rewind(post, starts, k), f)) == Shown(Get(Ending(starts, post, k), f))
    decreases |starts| - k
  {
    if k == |starts| {
    } else {
      RewindReachesEveryVersion(post, starts, k + 1, f);
      assert RevisionTells(post, starts, k);
      assert EntryTells(post.revisions[k + 2], starts[k], Ending(starts, post, k + 1), f);
    }
  }

  // ----- when the revisions hold no more than that -----

  /** Every entry of every revision shows in the text. */
  predicate EveryEntryVisible(post: Post) {
    forall number | number in post.revisions :: AllVisible(post.revisions[number], map[])
  }

  /** The revisions hold exactly the fields whose text changed if and only if each entry can be seen. */
  lemma ExactIsVisible(post: Post, starts: seq<Fields>)
    requires Inv(post, starts)
    ensures Exact(post, starts) <==> EveryEntryVisible(post)
  {
    forall k: nat | k < |starts|
      ensures RevisionIsExact(post, starts, k) <==> AllVisible(post.revisions[k + 2], map[])
    {
      assert RevisionTells(post, starts, k);
      DescribesVisibly(post.revisions[k + 2], starts[k], Ending(starts, post, k + 1));
    }
    if Exact(post, starts) {
      forall number | number in post.revisions ensures AllVisible(post.revisions[number], map[]) {
        assert RevisionIsExact(post, starts, number - 2);
      }
    }
  }

  /** What a caller can check before an edit. */
  predicate Recordable(post: Post, e: Edit) {
    var changes := ChangesOf(post.fields, e.edits);
    if e.newVersion then AllVisible(changes, map[])
    else post.version !in post.revisions || AllVisible(changes, Held(post))
  }

  /** An edit keeps exact revisions exact if and only if its changes can be seen, but for those with an entry. */
  lemma RevisedStaysExact(post: Post, starts: seq<Fields>, e: Edit)
    requires Inv(post, starts) && EveryEntryVisible(post)
    ensures EveryEntryVisible(Revised(post, e)) <==> Recordable(post, e)
  {
    var next, changes := Revised(post, e), ChangesOf(post.fields, e.edits);
    if e.newVersion {
      assert next.revisions[next.version] == changes;
    } else if post.version in post.revisions {
      var mods := Folded(Held(post), changes);
      FoldedVisibly(Held(post), changes);
      if AllVisible(mods, map[]) {
        assert forall number :: number in next.revisions ==>
                  next.revisions[number] == mods || next.revisions[number] == post.revisions[number];
      } else {
        assert mods != map[];
        assert next.revisions[post.version] == mods;
      }
    }
  }

  /** A change that shows nothing, from nil to an empty text, is recorded all the same. */
  lemma InvisibleChangeIsRecorded(f: Field)
    ensures var post := RunPost(map[], [Edit(true, map[f := Text("")])]);
            var starts := RunStarts(map[], [Edit(true, map[f := Text("")])]);
            && Inv(post, starts) && !Exact(post, starts)
            && f in post.revisions[2] && SameText(map[], post.fields, f)
  {
    var edits: Fields := map[f := Text("")];
    var run := [Edit(true, edits)];
    var post, starts := RunPost(map[], run), RunStarts(map[], run);
    RunKeepsInv(map[], run);
    assert run[..0] == [];
    assert post == OpenVersion(NewPost(map[]), edits);
    assert f in post.revisions[2] && !Visible(post.revisions[2], f);
    ExactIsVisible(post, starts);
  }

  // ----- which edits are folded in -----

  /** The part of `grace_period_edit?` that looks at the text, for a new text. */
  method SmallEdit(originalRaw: string, newRaw: string, maxDiff: int) returns (small: bool)
    ensures small <==> SizeGap(originalRaw, newRaw) <= maxDiff && OnpDiff.DiffSizeOf(originalRaw, newRaw) <= maxDiff
  {
    var gap := |originalRaw| - |newRaw|;
    if gap > maxDiff || -gap > maxDiff {
      return false;
    }
    var size := OnpDiff.DiffSize(originalRaw, newRaw);
    small := size <= maxDiff;
  }

  function SizeGap(a: string, b: string): nat {
    if |a| <= |b| then |b| - |a| else |a| - |b|
  }

  /** An edit counts as small exactly if its distance is; past the cut-off only the sizes are compared. */
  lemma SmallEditJudgesDistance(originalRaw: string, newRaw: string, maxDiff: int)
    ensures SizeGap(originalRaw, newRaw) <= maxDiff && OnpDiff.DiffSizeOf(originalRaw, newRaw) <= maxDiff
       <==> if OnpDiff.LeastDeletions(OnpDiff.Chars(originalRaw), OnpDiff.Chars(newRaw)) >= OnpDiff.CUT_OFF
            then SizeGap(originalRaw, newRaw) <= maxDiff
            else EditDistance(OnpDiff.Chars(originalRaw), OnpDiff.Chars(newRaw)) <= maxDiff
  {
    LcsGrows(OnpDiff.Chars(originalRaw), OnpDiff.Chars(newRaw), |originalRaw|, |newRaw|);
  }

  /** A complete rewrite of the same length, from 1000 characters on, is a small edit by any standard. */
  lemma RewriteIsSmall(originalRaw: string, newRaw: string, maxDiff: nat)
    requires |originalRaw| == |newRaw| >= OnpDiff.CUT_OFF
    requires forall c :: c in originalRaw ==> c !in newRaw
    ensures SizeGap(originalRaw, newRaw) <= maxDiff && OnpDiff.DiffSizeOf(originalRaw, newRaw) <= maxDiff
    ensures EditDistance(OnpDiff.Chars(originalRaw), OnpDiff.Chars(newRaw)) == 2 * |originalRaw|
  {
    OnpDiff.RewriteIsNotMeasured(originalRaw, newRaw);
  }

  /** For example every a of such a text turned into b. */
  lemma ThousandLetters(n: nat, maxDiff: nat) returns (originalRaw: string, newRaw: string)
    requires n >= OnpDiff.CUT_OFF
    ensures |originalRaw| == |newRaw| == n && forall i :: 0 <= i < n ==> originalRaw[i] == 'a' && newRaw[i] == 'b'
    ensures SizeGap(originalRaw, newRaw) <= maxDiff && OnpDiff.DiffSizeOf(originalRaw, newRaw) <= maxDiff
  {
    originalRaw, newRaw := seq(n, _ => 'a'), seq(n, _ => 'b');
    RewriteIsSmall(originalRaw, newRaw, maxDiff);
  }
}
