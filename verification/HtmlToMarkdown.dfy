/** HtmlToMarkdown#hoist_line_breaks!, the loops that split the inline elements of a document around its <br>s. */
module HtmlToMarkdown {
  import opened LineBreaks
  import opened LineBreakJoints

  /** The leaves hang together as they did, but for what the <br>s have left. */
  ghost predicate Joined(doc: Node, joints: seq<nat>) {
    |joints| == |Leaves(doc, [])| && Joints(doc, 0) == Cut(joints, Leaves(doc, []))
  }

  lemma JoinedStarts(doc: Node)
    ensures Joined(MarkAll(doc), Joints(doc, 0))
  {
    hide Joints, Leaves, MarkAll, Cut, Fit;
    JointsFit(doc, []);
    FitLength(Joints(doc, 0), Leaves(doc, []), 0);
    MarkedJoints(doc, 0);
    MarkAllLeaves(doc, []);
    FitIsCut(Joints(doc, 0), Leaves(doc, []), 0);
    CutSamePaths(Joints(doc, 0), Leaves(doc, []), Leaves(MarkAll(doc), []));
  }

  lemma JoinedStays(doc: Node, joints: seq<nat>, id: int, blocks: set<string>)
    requires Joined(doc, joints) && doc.Element? && doc.name in blocks && Unique(Leaves(doc, []), id)
    ensures |HoistIn(doc, id, blocks)| == 1 && Joined(HoistIn(doc, id, blocks)[0], joints)
  {
    hide Leaves, Joints, HoistIn, Unique, HoistedTokens, Cut;
    HoistAtRoot(doc, id, blocks);
    var doc' := HoistIn(doc, id, blocks)[0];
    assert HoistIn(doc, id, blocks) == [doc'];
    HoistInJoints(doc, id, blocks, []);
    JointsOfOne(doc', 0);
    CutTwice(joints, Leaves(doc, []), id, blocks);
  }

  lemma JoinedEnds(doc: Node, joints: seq<nat>)
    requires Joined(doc, joints)
    ensures |joints| == |Leaves(doc, [])| && Joints(doc, 0) == Cut(joints, Leaves(doc, []))
  {
  }

  /** Two neighbouring leaves other than <br>s share as many elements as before: their copies are not split further. */
  lemma NeighboursStayTogether(doc: Node, blocks: set<string>, k: nat)
    requires 0 < k < |Leaves(doc, [])| == |Joints(doc, 0)|
    requires !Leaves(doc, [])[k].leaf.Break? && !Leaves(doc, [])[k - 1].leaf.Break?
    ensures Cut(Joints(doc, 0), Settled(Leaves(doc, []), blocks))[k] == Joints(doc, 0)[k]
  {
    JointsFit(doc, []);
  }

  lemma PassBegins(ts: seq<Token>)
    requires DistinctBreaks(ts)
    ensures PassUnderway(ts, MarkedIds(ts), 0, false)
    ensures forall i, j :: 0 <= i < j < |MarkedIds(ts)| ==> MarkedIds(ts)[i] != MarkedIds(ts)[j]
  {
    MarkedIdsAre(ts);
  }

  lemma PassEnds(ts: seq<Token>, brs: seq<int>, changed: bool)
    requires PassUnderway(ts, brs, |brs|, changed)
    ensures !changed ==> forall id :: !IsMarked(ts, id)
  {
  }

  class HtmlToMarkdown {
    const blocks: set<string>
    var doc: Node

    constructor (doc: Node, blocks: set<string>)
      ensures this.doc == doc && this.blocks == blocks
    {
      this.doc, this.blocks := doc, blocks;
    }

    /**
     `hoist_line_breaks!`: every <br> ends up in the innermost block element around it; all other
     leaves keep their place in the document and the elements around them, and two leaves behind each
     other still share all elements that both of them are in and shared before.
     */
    method HoistLineBreaks()
      requires doc.Element? && doc.name in blocks && DistinctBreaks(Leaves(doc, []))
      modifies this
      ensures doc.Element? && doc.name == old(doc).name
      ensures Leaves(doc, []) == Settled(Leaves(old(doc), []), blocks)
      ensures |Joints(old(doc), 0)| == |Leaves(doc, [])|
      ensures Joints(doc, 0) == Cut(Joints(old(doc), 0), Leaves(doc, []))
    {
      ghost var orig := Leaves(doc, []);
      ghost var joints := Joints(doc, 0);
      LoopStarts(doc, blocks);
      JoinedStarts(doc);
      hide Joined;
      doc := MarkAll(doc);
      var changed := true;
      while changed
        invariant doc.Element? && doc.name == old(doc).name
        invariant AllOnTheirWay(orig, Leaves(doc, []), blocks)
        invariant Joined(doc, joints)
        invariant !changed ==> forall id :: !IsMarked(Leaves(doc, []), id)
        decreases TotalCost(Leaves(doc, []), blocks), changed
      {
        changed := HoistOnce(orig, joints);
      }
      NoIdNoMark(Leaves(doc, []));
      ArrivedIsSettled(orig, Leaves(doc, []), blocks);
      JoinedEnds(doc, joints);
    }

    /** One pass over the marked <br>s. */
    method HoistOnce(ghost orig: seq<Token>, ghost joints: seq<nat>) returns (changed: bool)
      requires doc.Element? && doc.name in blocks && DistinctBreaks(orig)
      requires AllOnTheirWay(orig, Leaves(doc, []), blocks) && Joined(doc, joints)
      modifies this
      ensures doc.Element? && doc.name == old(doc).name
      ensures AllOnTheirWay(orig, Leaves(doc, []), blocks) && Joined(doc, joints)
      ensures changed ==> TotalCost(Leaves(doc, []), blocks) < TotalCost(Leaves(old(doc), []), blocks)
      ensures !changed ==> TotalCost(Leaves(doc, []), blocks) <= TotalCost(Leaves(old(doc), []), blocks)
      ensures !changed ==> forall id :: !IsMarked(Leaves(doc, []), id)
    {
      hide *;
      changed := false;
      var brs := MarkedIds(Leaves(doc, []));
      SameBreaks(orig, Leaves(doc, []), blocks);
      PassBegins(Leaves(doc, []));
      for k := 0 to |brs|
        invariant doc.Element? && doc.name == old(doc).name
        invariant AllOnTheirWay(orig, Leaves(doc, []), blocks) && Joined(doc, joints)
        invariant TotalCost(Leaves(doc, []), blocks) + k == TotalCost(Leaves(old(doc), []), blocks)
        invariant changed ==> k > 0
        invariant PassUnderway(Leaves(doc, []), brs, k, changed)
      {
        ghost var ts := Leaves(doc, []);
        HoistStep(orig, ts, brs, k, blocks, changed);
        SameBreaks(orig, ts, blocks);
        HoistAtRoot(doc, brs[k], blocks);
        JoinedStays(doc, joints, brs[k], blocks);
        if !ParentIsBlock(Leaves(doc, []), brs[k], blocks) {
          changed := true;
        }
        doc := HoistIn(doc, brs[k], blocks)[0];
      }
      PassEnds(Leaves(doc, []), brs, changed);
    }
  }
}
