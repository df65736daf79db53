/** Building a range proof: the climb that supplies exactly the off-range siblings. */
module RangeProver {
  import opened Prelude
  import opened Flat
  import opened Merkle
  import opened MerkleTree
  import opened MerkleUpgrade
  import opened MerkleRange
  import opened RangeVerifier

  /** The boundary so far holds only needed nodes, all those below depth `d`, and those at `d`
      whose sibling is no longer waiting. */
  ghost predicate Boundary(nodes: seq<Node>, active: set<nat>, todo: set<nat>, b: seq<Bytes>, start: nat, end: nat, d: nat) {
    && (forall n :: n in nodes ==> Needed(|b|, start, end, n.index) && End(n.index) <= |b| && n == At(b, n.index))
    && (forall s :: Needed(|b|, start, end, s) && Depth(s) < d ==> Names(nodes, s))
    && (forall s :: Needed(|b|, start, end, s) && Depth(s) == d ==>
                      Names(nodes, s) || (Sibling(s) in active && Sibling(s) in todo))
  }

  lemma NamesMore(nodes: seq<Node>, n: Node, i: nat)
    ensures Names(nodes + [n], i) <==> Names(nodes, i) || n.index == i
  {
    if n.index == i {
      assert n in nodes + [n];
    }
  }

  lemma BoundaryStep(nodes: seq<Node>, active: set<nat>, todo: set<nat>, rootSet: set<nat>,
                     b: seq<Bytes>, start: nat, end: nat, d: nat, c: nat)
    requires Boundary(nodes, active, todo, b, start, end, d) && Front(active, todo, |b|, start, end, d)
    requires Level(active, todo, rootSet, d) && c in todo && c in active && End(Parent(c)) <= |b|
    ensures End(Sibling(c)) <= |b|
    ensures Boundary(if Sibling(c) in active then nodes else nodes + [At(b, Sibling(c))],
                     Merged(active, c), todo - {c}, b, start, end, d)
  {
    hide At, First, End, Parent, Sibling, Depth, Front, Level, Needed, Names, Left, Right;
    OffFront(active, todo, rootSet, |b|, start, end, d, c);
    SiblingFacts(c);
    var sib := Sibling(c);
    var next := if sib in active then nodes else nodes + [At(b, sib)];
    NotNeeded(active, todo, b, start, end, d, c);
    forall s
      ensures Names(nodes, s) ==> Names(next, s)
      ensures sib !in active && s == sib ==> Names(next, s)
    {
      NamesMore(nodes, At(b, sib), s);
    }
    forall s | Needed(|b|, start, end, s) && Depth(s) == d && !Names(nodes, s)
      ensures Names(next, s) || (Sibling(s) in Merged(active, c) && Sibling(s) in todo - {c})
    {
      SiblingFacts(s);
    }
  }

  lemma NotNeeded(active: set<nat>, todo: set<nat>, b: seq<Bytes>, start: nat, end: nat, d: nat, c: nat)
    requires Front(active, todo, |b|, start, end, d) && c in active
    ensures !Needed(|b|, start, end, c)
  {
  }

  lemma BoundarySkip(nodes: seq<Node>, active: set<nat>, todo: set<nat>, b: seq<Bytes>, start: nat, end: nat, d: nat, c: nat)
    requires Boundary(nodes, active, todo, b, start, end, d) && c !in active
    ensures Boundary(nodes, active, todo - {c}, b, start, end, d)
  {
    hide At, End, Sibling, Depth, Needed, Names;
  }

  lemma BoundaryNext(nodes: seq<Node>, active: set<nat>, rootSet: set<nat>, b: seq<Bytes>, start: nat, end: nat, d: nat)
    requires Boundary(nodes, active, {}, b, start, end, d) && Covers(active, |b|, start, end, d + 1)
    requires forall i :: i in rootSet ==> IsRoot(|b|, i)
    ensures Boundary(nodes, active, Climbing(active, rootSet), b, start, end, d + 1)
  {
    hide At, First, End, Parent, Sibling, Depth, Names;
    forall s | Needed(|b|, start, end, s) && Depth(s) == d + 1
      ensures Sibling(s) in active && Sibling(s) in Climbing(active, rootSet)
    {
      SiblingFacts(s);
    }
  }

  lemma BoundaryFirst(active: set<nat>, rootSet: set<nat>, b: seq<Bytes>, start: nat, end: nat)
    requires Covers(active, |b|, start, end, 0) && forall i :: i in rootSet ==> IsRoot(|b|, i)
    ensures Boundary([], active, Climbing(active, rootSet), b, start, end, 0)
  {
    hide At, First, End, Parent, Sibling, Depth, Names;
    forall s | Needed(|b|, start, end, s) && Depth(s) == 0
      ensures Sibling(s) in active && Sibling(s) in Climbing(active, rootSet)
    {
      SiblingFacts(s);
    }
  }

  /** Under a complete touching node there is a complete touching one at every lower depth,
      below a complete parent. */
  lemma {:induction false} TouchingBelow(n: nat, start: nat, end: nat, i: nat, d: nat) returns (e: nat)
    requires Touches(n, start, end, i) && start < end && d < Depth(i)
    ensures Depth(e) == d && Touches(n, start, end, e) && End(Parent(e)) <= n
    decreases Depth(i)
  {
    hide Depth, Left, Right, Parent, Sibling, First, End;
    ChildDepths(i);
    ChildFacts(i);
    RangeNonEmpty(Left(i));
    RangeNonEmpty(Right(i));
    var c := if start < End(Left(i)) then Left(i) else Right(i);
    if Depth(c) == d {
      e := c;
    } else {
      e := TouchingBelow(n, start, end, c, d);
    }
  }

  /** Once the frontier is all roots, everything needed was supplied. */
  lemma BoundaryDone(nodes: seq<Node>, active: set<nat>, rootSet: set<nat>, b: seq<Bytes>, start: nat, end: nat, d: nat)
    requires Boundary(nodes, active, Climbing(active, rootSet), b, start, end, d) && Covers(active, |b|, start, end, d)
    requires (forall i :: i in rootSet ==> IsRoot(|b|, i)) && active <= rootSet && start < end
    ensures forall s :: Needed(|b|, start, end, s) ==> Names(nodes, s)
  {
    hide At, Depth, Left, Right, Parent, Sibling, First, End, Names;
    forall s | Needed(|b|, start, end, s)
      ensures Names(nodes, s)
    {
      SiblingFacts(s);
      if Depth(s) > d {
        var e := TouchingBelow(|b|, start, end, Sibling(s), d);
        assert false;
      }
    }
  }

  /** Climb one level, pushing the siblings that are off the range. */
  method PushLevel(tree: Tree, active0: set<nat>, level: set<nat>, nodes0: seq<Node>,
                   ghost rootSet: set<nat>, ghost start: nat, ghost end: nat, ghost d: nat)
    returns (active: set<nat>, nodes: seq<Node>)
    requires tree.Valid() && tree.Intact() && Level(active0, level, rootSet, d)
    requires (forall i :: i in rootSet <==> IsRoot(tree.length, i)) && forall i :: i in level ==> i !in rootSet
    requires Front(active0, level, tree.length, start, end, d)
    requires Boundary(nodes0, active0, level, tree.blocks, start, end, d)
    ensures Level(active, {}, rootSet, d) && Front(active, {}, tree.length, start, end, d)
    ensures Boundary(nodes, active, {}, tree.blocks, start, end, d)
  {
    hide Level, Front, Boundary, At, Sibling, Parent, Depth, End, First, Merged, IsRoot, Holds, Full;
    active, nodes := active0, nodes0;
    var todo := level;
    while todo != {}
      invariant todo <= level && Level(active, todo, rootSet, d) && Front(active, todo, tree.length, start, end, d)
      invariant Boundary(nodes, active, todo, tree.blocks, start, end, d)
      decreases |todo|
    {
      var cur :| cur in todo;
      LevelStep(active, todo, rootSet, d, cur);
      if cur !in active {
        FrontStep(active, todo, rootSet, tree.length, start, end, d, cur);
        BoundarySkip(nodes, active, todo, tree.blocks, start, end, d, cur);
      } else {
        FrontTouches(active, todo, tree.length, start, end, d, cur);
        ClimbableParent(tree.length, start, end, rootSet, cur);
        FrontStep(active, todo, rootSet, tree.length, start, end, d, cur);
        BoundaryStep(nodes, active, todo, rootSet, tree.blocks, start, end, d, cur);
        var sib := Sibling(cur);
        if sib !in active {
          StoredAt(tree.nodes, tree.blocks, sib);
          nodes := nodes + [tree.nodes[sib]];
        }
        active := Merged(active, cur);
      }
      todo := todo - {cur};
    }
  }

  /** Build the proof of `[start, end)`; it carries only needed nodes and all of them, so the
      verifier accepts it for the range's data. */
  method RangeProofOf(tree: Tree, start: nat, end: nat) returns (p: Option<RangeProof>)
    requires tree.Valid() && tree.Intact()
    ensures p.Some? <==> start < end <= |tree.blocks|
    ensures p.Some? ==> p.value.start == start && p.value.end == end && HonestRange(p.value, tree.blocks)
    ensures p.Some? ==> forall n :: n in p.value.nodes ==> Needed(|tree.blocks|, start, end, n.index)
  {
    hide Level, Levelled, Front, Covers, Boundary, At, Depth, End, First, IsRoot, RootNodes, Holds, Full, Needed, Names, Log2;
    if start >= end || end > tree.length {
      return None;
    }
    var roots := tree.CurrentRoots();
    var rootSet := RootIndices(roots);
    forall i
      ensures i in rootSet <==> IsRoot(tree.length, i)
    {
      RootSet(tree.blocks, roots, i);
    }
    var leafSizes := LeafSizes(tree, start, end);
    var active := Leaves(start, end);
    var nodes: seq<Node> := [];
    ghost var d: nat := 0;
    LeavesLevelled(start, end, rootSet);
    LeavesCover(tree.length, start, end);
    BoundaryFirst(active, rootSet, tree.blocks, start, end);
    while exists i :: i in active && i !in rootSet
      invariant Levelled(active, rootSet, d) && Covers(active, tree.length, start, end, d)
      invariant Boundary(nodes, active, Climbing(active, rootSet), tree.blocks, start, end, d)
      decreases Log2(tree.length) + 1 - d
    {
      var climbing := Climbing(active, rootSet);
      assert climbing != {} by {
        var i :| i in active && i !in rootSet;
        assert i in climbing;
      }
      var least := LeastDepth(climbing);
      LevelIs(active, rootSet, d, least);
      var level := set i | i in climbing && Depth(i) == least;
      assert level == climbing;
      TooDeep(active, rootSet, tree.blocks, start, end, d);
      LevelStart(active, rootSet, d);
      FrontStart(active, rootSet, tree.length, start, end, d);
      active, nodes := PushLevel(tree, active, level, nodes, rootSet, start, end, d);
      LevelEnd(active, rootSet, d);
      FrontEnd(active, tree.length, start, end, d);
      BoundaryNext(nodes, active, rootSet, tree.blocks, start, end, d);
      d := d + 1;
    }
    BoundaryDone(nodes, active, rootSet, tree.blocks, start, end, d);
    BoundaryNeeded(nodes, active, Climbing(active, rootSet), tree.blocks, start, end, d);
    p := Some(RangeProof(start, end, leafSizes, nodes, roots));
  }

  lemma BoundaryNeeded(nodes: seq<Node>, active: set<nat>, todo: set<nat>, b: seq<Bytes>, start: nat, end: nat, d: nat)
    requires Boundary(nodes, active, todo, b, start, end, d)
    ensures forall n :: n in nodes ==> Needed(|b|, start, end, n.index) && End(n.index) <= |b| && n == At(b, n.index)
  {
  }

  method LeafSizes(tree: Tree, start: nat, end: nat) returns (sizes: seq<nat>)
    requires tree.Valid() && tree.Intact() && start <= end <= |tree.blocks|
    ensures |sizes| == end - start && forall k :: 0 <= k < |sizes| ==> sizes[k] == |tree.blocks[start + k]|
  {
    hide At, End, Holds, Full;
    sizes := [];
    for i := start to end
      invariant |sizes| == i - start && forall k :: 0 <= k < |sizes| ==> sizes[k] == |tree.blocks[start + k]|
    {
      LeafAt(tree.blocks, i);
      StoredAt(tree.nodes, tree.blocks, 2 * i);
      sizes := sizes + [tree.nodes[2 * i].size];
    }
  }
}
