/** Range proofs: the level-by-level climb from a run of leaves to the roots, and what its
    acceptance means. */
module MerkleRange {
  import opened Prelude
  import opened Flat
  import opened Merkle
  import opened MerkleProof
  import opened MerkleTree
  import opened MerkleUpgrade

  datatype RangeProof = RangeProof(start: nat, end: nat, leafSizes: seq<nat>, nodes: seq<Node>, roots: seq<Node>)

  /** The verifier gives up after this many levels. */
  const MAX_LEVELS: nat := 256

  // ---------------------------------------------------------------- claims

  /** `data` is the blocks of `b` from `start` on. */
  ghost predicate Matches(data: seq<Bytes>, start: nat, b: seq<Bytes>) {
    start + |data| <= |b| && data == b[start..start + |data|]
  }

  /** The nodes at `active` are those of `b`. */
  ghost predicate AllTrue(have: map<nat, Node>, active: set<nat>, b: seq<Bytes>) {
    forall a :: a in active ==> a in have && End(a) <= |b| && have[a] == At(b, a)
  }

  /** Every map entry carries its own index. */
  ghost predicate Indexed(have: map<nat, Node>) {
    forall i :: i in have ==> have[i].index == i
  }

  // ---------------------------------------------------------------- the frontier

  /** Node `i` is complete and covers a block of `[start, end)`. */
  ghost predicate Touches(n: nat, start: nat, end: nat, i: nat) {
    End(i) <= n && First(i) < end && start < End(i)
  }

  /** A sibling the prover must supply: complete under its parent, off the range, beside it. */
  ghost predicate Needed(n: nat, start: nat, end: nat, s: nat) {
    End(Parent(s)) <= n && !Touches(n, start, end, s) && Touches(n, start, end, Sibling(s))
  }

  /** Between levels: nodes not yet at a root are all at depth `d`. */
  ghost predicate Levelled(active: set<nat>, rootSet: set<nat>, d: nat) {
    forall a :: a in active ==> Depth(a) <= d && (a !in rootSet ==> Depth(a) == d)
  }

  /** Inside level `d` with `todo` left: nodes above the level came from children that left. */
  ghost predicate Level(active: set<nat>, todo: set<nat>, rootSet: set<nat>, d: nat) {
    && (forall q :: q in active ==> Depth(q) <= d || (Depth(q) == d + 1 && Left(q) !in active && Right(q) !in active))
    && (forall q :: q in active && Depth(q) <= d && q !in rootSet ==> q in todo)
    && (forall q :: q in todo ==> Depth(q) == d)
  }

  /** The frontier of an honest climb: it touches the range, and every complete touching node
      of depth `d` is on it or has been merged into its parent. */
  ghost predicate Front(active: set<nat>, todo: set<nat>, n: nat, start: nat, end: nat, d: nat) {
    && (forall a :: a in active ==> Touches(n, start, end, a))
    && (forall i :: Depth(i) == d && Touches(n, start, end, i) && End(Parent(i)) <= n ==>
                      (i in active && i in todo) || Parent(i) in active)
  }

  /** Every complete touching node of depth `d` is active. */
  ghost predicate Covers(active: set<nat>, n: nat, start: nat, end: nat, d: nat) {
    && (forall a :: a in active ==> Touches(n, start, end, a))
    && (forall i :: Depth(i) == d && Touches(n, start, end, i) ==> i in active)
  }

  function Climbing(active: set<nat>, rootSet: set<nat>): set<nat> {
    set a | a in active && a !in rootSet
  }

  function Merged(active: set<nat>, c: nat): set<nat> {
    active - {c, Sibling(c)} + {Parent(c)}
  }

  lemma LevelStart(active: set<nat>, rootSet: set<nat>, d: nat)
    requires Levelled(active, rootSet, d)
    ensures Level(active, Climbing(active, rootSet), rootSet, d)
  {
    hide Depth, Left, Right;
  }

  lemma LevelEnd(active: set<nat>, rootSet: set<nat>, d: nat)
    requires Level(active, {}, rootSet, d)
    ensures Levelled(active, rootSet, d + 1)
  {
    hide Depth, Left, Right;
  }

  /** The node being climbed from has no active parent. */
  lemma ParentInactive(active: set<nat>, todo: set<nat>, rootSet: set<nat>, d: nat, c: nat)
    requires Level(active, todo, rootSet, d) && c in todo && c in active
    ensures Parent(c) !in active
  {
    hide Depth, Left, Right, Parent, Sibling;
    SiblingFacts(c);
  }

  lemma LevelStep(active: set<nat>, todo: set<nat>, rootSet: set<nat>, d: nat, c: nat)
    requires Level(active, todo, rootSet, d) && c in todo
    ensures c !in active ==> Level(active, todo - {c}, rootSet, d)
    ensures c in active ==> Level(Merged(active, c), todo - {c}, rootSet, d)
  {
    hide Left, Right, Parent, Sibling;
    SiblingFacts(c);
    var p := Parent(c);
    if c in active {
      var next := Merged(active, c);
      forall q | q in next
        ensures Depth(q) <= d || (Depth(q) == d + 1 && Left(q) !in next && Right(q) !in next)
      {
        if q != p && Depth(q) > d {
          ChildDepths(q);
          assert Left(q) != p && Right(q) != p;
        } else if q == p {
          ChildDepths(p);
        }
      }
    }
  }

  lemma ChildDepths(q: nat)
    requires Depth(q) > 0
    ensures q % 2 == 1 && Depth(Left(q)) == Depth(q) - 1 && Depth(Right(q)) == Depth(q) - 1
  {
    DepthParity(q);
    ChildFacts(q);
  }

  lemma FrontStart(active: set<nat>, rootSet: set<nat>, n: nat, start: nat, end: nat, d: nat)
    requires Covers(active, n, start, end, d) && forall i :: i in rootSet ==> IsRoot(n, i)
    ensures Front(active, Climbing(active, rootSet), n, start, end, d)
  {
    hide Depth, Parent, First, End;
  }

  lemma FrontStep(active: set<nat>, todo: set<nat>, rootSet: set<nat>, n: nat, start: nat, end: nat, d: nat, c: nat)
    requires Front(active, todo, n, start, end, d) && Level(active, todo, rootSet, d) && c in todo
    requires c in active ==> End(Parent(c)) <= n
    ensures c !in active ==> Front(active, todo - {c}, n, start, end, d)
    ensures c in active ==> Front(Merged(active, c), todo - {c}, n, start, end, d)
  {
    hide Depth, Left, Right, Parent, Sibling, First, End;
    if c in active {
      SiblingFacts(c);
      InParent(c);
      var next := Merged(active, c);
      forall i | Depth(i) == d && Touches(n, start, end, i) && End(Parent(i)) <= n
        ensures (i in next && i in todo - {c}) || Parent(i) in next
      {
        SiblingFacts(i);
      }
    }
  }

  /** A touching node at the next depth has a touching child, already merged. */
  lemma FrontEnd(active: set<nat>, n: nat, start: nat, end: nat, d: nat)
    requires Front(active, {}, n, start, end, d) && start < end
    ensures Covers(active, n, start, end, d + 1)
  {
    hide Depth, Left, Right, Parent, Sibling, First, End;
    forall i | Depth(i) == d + 1 && Touches(n, start, end, i)
      ensures i in active
    {
      ChildDepths(i);
      ChildFacts(i);
      RangeNonEmpty(Left(i));
      RangeNonEmpty(Right(i));
      var c := if start < End(Left(i)) then Left(i) else Right(i);
      assert Touches(n, start, end, c);
    }
  }

  /** A sibling off the frontier is a needed one. */
  lemma OffFront(active: set<nat>, todo: set<nat>, rootSet: set<nat>, n: nat, start: nat, end: nat, d: nat, c: nat)
    requires Front(active, todo, n, start, end, d) && Level(active, todo, rootSet, d)
    requires c in todo && c in active && End(Parent(c)) <= n
    ensures Sibling(c) in active <==> !Needed(n, start, end, Sibling(c))
    ensures Sibling(c) in active <==> Touches(n, start, end, Sibling(c))
    ensures End(Sibling(c)) <= n
  {
    hide Depth, Left, Right, Parent, Sibling, First, End;
    SiblingFacts(c);
    InParent(c);
    ParentInactive(active, todo, rootSet, d, c);
  }

  lemma LeavesCover(n: nat, start: nat, end: nat)
    requires start < end <= n
    ensures Covers(Leaves(start, end), n, start, end, 0)
  {
    hide Depth, First, End;
    forall a | a in Leaves(start, end)
      ensures Touches(n, start, end, a)
    {
      LeafOf(a);
    }
    forall i | Depth(i) == 0 && Touches(n, start, end, i)
      ensures i in Leaves(start, end)
    {
      DepthParity(i);
      LeafOf(i);
      assert i == 2 * (i / 2);
    }
  }

  function Leaves(start: nat, end: nat): set<nat> {
    set k: nat | start <= k < end :: 2 * k
  }

  lemma LeavesLevelled(start: nat, end: nat, rootSet: set<nat>)
    ensures Levelled(Leaves(start, end), rootSet, 0)
  {
    hide Depth;
    forall a | a in Leaves(start, end)
      ensures Depth(a) == 0
    {
      DepthParity(a);
    }
  }

  lemma TouchDepth(n: nat, start: nat, end: nat, i: nat)
    requires Touches(n, start, end, i)
    ensures Depth(i) <= Log2(n)
  {
    hide Log2;
    Log2Bounds(n);
    Pow2Less(Depth(i), Log2(n) + 1);
  }

  // ---------------------------------------------------------------- soundness of one merge

  /** If the frontier after a merge is true, it was true before. */
  lemma MergeCommits(have: map<nat, Node>, active: set<nat>, c: nat, sib: Node, b: seq<Bytes>)
    requires Indexed(have) && active <= have.Keys && c in active && Parent(c) !in active
    requires sib.index == Sibling(c) && (Sibling(c) in have ==> sib == have[Sibling(c)])
    requires AllTrue(have[Parent(c) := ClimbStep(have[c], sib)], Merged(active, c), b)
    ensures AllTrue(have, active, b)
  {
    hide At, First, End, Parent, Sibling, ClimbStep;
    SiblingFacts(c);
    var p := Parent(c);
    assert p in Merged(active, c);
    StepCommits(b, have[c], sib);
    forall a | a in active
      ensures End(a) <= |b| && have[a] == At(b, a)
    {
      assert a == c || a == Sibling(c) || a in Merged(active, c);
    }
  }

  /** A merge of true nodes is true. */
  lemma MergeTrue(have: map<nat, Node>, c: nat, sib: Node, b: seq<Bytes>)
    requires Holds(have, b) && c in have && End(Parent(c)) <= |b| && End(Sibling(c)) <= |b| && sib == At(b, Sibling(c))
    ensures Holds(have[Parent(c) := ClimbStep(have[c], sib)], b)
  {
    hide At, First, End, Parent, Sibling, ClimbStep;
    StepTrue(b, c);
  }

  lemma StepIndexed(have: map<nat, Node>, c: nat, sib: Node)
    requires Indexed(have) && c in have
    ensures Indexed(have[Parent(c) := ClimbStep(have[c], sib)])
  {
    hide Parent;
  }

  /** The leaves of `data` are known from block `start` on. */
  ghost predicate LeavesOf(have: map<nat, Node>, data: seq<Bytes>, start: nat) {
    forall k :: 0 <= k < |data| ==> LeafIn(have, start + k, data[k])
  }

  ghost predicate LeafIn(have: map<nat, Node>, block: nat, data: Bytes) {
    2 * block in have && have[2 * block] == Leaf(block, data)
  }

  lemma LeafIsBlock(have: map<nat, Node>, data: seq<Bytes>, start: nat, b: seq<Bytes>, k: nat)
    requires LeavesOf(have, data, start) && k < |data| && AllTrue(have, Leaves(start, start + |data|), b)
    ensures start + k < |b| && data[k] == b[start + k]
  {
    hide At, First, End;
    assert LeafIn(have, start + k, data[k]) && 2 * (start + k) in Leaves(start, start + |data|);
    LeafFacts(start + k);
    LeafAt(b, start + k);
  }

  lemma LeavesClaim(have: map<nat, Node>, data: seq<Bytes>, start: nat, b: seq<Bytes>)
    requires data != []
    requires LeavesOf(have, data, start)
    ensures AllTrue(have, Leaves(start, start + |data|), b) <==> Matches(data, start, b)
  {
    hide At, First, End;
    if AllTrue(have, Leaves(start, start + |data|), b) {
      forall k | 0 <= k < |data|
        ensures start + k < |b| && data[k] == b[start + k]
      {
        LeafIsBlock(have, data, start, b, k);
      }
      LeafIsBlock(have, data, start, b, |data| - 1);
      assert data == b[start..start + |data|];
    }
    if Matches(data, start, b) {
      forall a | a in Leaves(start, start + |data|)
        ensures a in have && End(a) <= |b| && have[a] == At(b, a)
      {
        var k := a / 2 - start;
        assert a == 2 * (start + k) && data[k] == b[start..start + |data|][k] == b[start + k];
        assert LeafIn(have, start + k, data[k]);
        LeafAt(b, start + k);
      }
    }
  }

  // ---------------------------------------------------------------- honest proofs

  /** The proof carries the tree's roots and true nodes at all the needed indices. */
  ghost predicate HonestRange(p: RangeProof, b: seq<Bytes>) {
    && p.start < p.end <= |b| && p.roots == RootNodes(b)
    && |p.leafSizes| == p.end - p.start && (forall k :: 0 <= k < |p.leafSizes| ==> p.leafSizes[k] == |b[p.start + k]|)
    && (forall n :: n in p.nodes ==> End(n.index) <= |b| && n == At(b, n.index))
    && (forall s :: Needed(|b|, p.start, p.end, s) ==> Names(p.nodes, s))
  }

  /** The whole-proof facts the honest climb uses. */
  ghost predicate Supplied(table: map<nat, Node>, rootSet: set<nat>, b: seq<Bytes>, start: nat, end: nat) {
    && start < end && Holds(table, b) && (forall i :: i in rootSet <==> IsRoot(|b|, i))
    && (forall s :: Needed(|b|, start, end, s) ==> s in table)
  }

  lemma HonestSupplies(p: RangeProof, b: seq<Bytes>)
    requires HonestRange(p, b)
    ensures Supplied(IndexedBy(p.nodes, map[]), RootIndices(p.roots), b, p.start, p.end)
  {
    hide At, First, End, Parent, Sibling, IsRoot, RootNodes, IndexedBy, Needed;
    IndexedByFacts(p.nodes, map[]);
    forall i
      ensures i in RootIndices(p.roots) <==> IsRoot(|b|, i)
    {
      RootSet(b, p.roots, i);
    }
  }

  function RootIndices(roots: seq<Node>): set<nat> {
    set r | r in roots :: r.index
  }
}
