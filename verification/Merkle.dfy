/** The Merkle tree as a function of its blocks, with the three hashes as injective,
    domain-separated constructors: what a root hash commits to. */
module Merkle {
  import opened Prelude
  import opened Flat

  /** A digest, named by what was hashed. */
  datatype Hash =
    | LeafHash(data: Bytes)
    | ParentHash(left: Hash, leftSize: nat, right: Hash, rightSize: nat)
    | TreeHash(roots: seq<Node>)

  /** A tree node: flat index, hash, and byte size of the blocks it covers. */
  datatype Node = Node(index: nat, hash: Hash, size: nat)

  function Leaf(block: nat, data: Bytes): Node {
    Node(2 * block, LeafHash(data), |data|)
  }

  function Combine(index: nat, left: Node, right: Node): Node {
    Node(index, ParentHash(left.hash, left.size, right.hash, right.size), left.size + right.size)
  }

  /** The node at flat index `i` of the tree over `blocks`. */
  function At(blocks: seq<Bytes>, i: nat): (n: Node)
    requires End(i) <= |blocks|
    ensures n.index == i
    decreases Depth(i)
  {
    if i % 2 == 0 then
      LeafOf(i);
      Leaf(i / 2, blocks[i / 2])
    else
      ChildFacts(i);
      RangeNonEmpty(Right(i));
      Combine(i, At(blocks, Left(i)), At(blocks, Right(i)))
  }

  /** The roots of the tree over `blocks`, left to right. */
  function RootNodes(blocks: seq<Bytes>): seq<Node> {
    RootsFacts(|blocks|);
    NodesAt(blocks, Roots(|blocks|))
  }

  function NodesAt(blocks: seq<Bytes>, indices: seq<nat>): (r: seq<Node>)
    requires forall i :: i in indices ==> End(i) <= |blocks|
    ensures |r| == |indices| && forall k :: 0 <= k < |r| ==> r[k] == At(blocks, indices[k])
  {
    if indices == [] then [] else [At(blocks, indices[0])] + NodesAt(blocks, indices[1..])
  }

  function RootHash(blocks: seq<Bytes>): Hash {
    TreeHash(RootNodes(blocks))
  }

  /** The blocks hashed into a leaf or parent digest, left to right. */
  ghost function Hashed(h: Hash): seq<Bytes> {
    match h
    case LeafHash(data) => [data]
    case ParentHash(left, _, right, _) => Hashed(left) + Hashed(right)
    case TreeHash(_) => []
  }

  ghost function HashedAll(nodes: seq<Node>): seq<Bytes> {
    if nodes == [] then [] else Hashed(nodes[0].hash) + HashedAll(nodes[1..])
  }

  /** A node hashes exactly the blocks it covers, in order. */
  lemma {:induction false} AtHashes(blocks: seq<Bytes>, i: nat)
    requires End(i) <= |blocks|
    ensures First(i) <= End(i) && Hashed(At(blocks, i).hash) == blocks[First(i)..End(i)]
    decreases Depth(i)
  {
    hide First, End, Left, Right, Depth;
    RangeNonEmpty(i);
    if i % 2 == 0 {
      LeafOf(i);
    } else {
      ChildFacts(i);
      AtUnfold(blocks, i);
      AtHashes(blocks, Left(i));
      AtHashes(blocks, Right(i));
    }
  }

  lemma {:induction false} TilesHash(blocks: seq<Bytes>, indices: seq<nat>, first: nat, end: nat)
    requires Tiles(indices, first, end) && end <= |blocks| && forall i :: i in indices ==> End(i) <= |blocks|
    ensures first <= end && HashedAll(NodesAt(blocks, indices)) == blocks[first..end]
    decreases |indices|
  {
    hide First, End, At, Hashed;
    if indices != [] {
      var i := indices[0];
      assert i in indices && forall j :: j in indices[1..] ==> j in indices;
      AtHashes(blocks, i);
      RangeNonEmpty(i);
      TilesHash(blocks, indices[1..], End(i), end);
    }
  }

  /** The root hash hashes exactly the block list, in order. */
  lemma RootHashHashes(blocks: seq<Bytes>)
    ensures RootHash(blocks).TreeHash? && HashedAll(RootHash(blocks).roots) == blocks
  {
    hide First, End, At, Roots;
    RootsFacts(|blocks|);
    TilesHash(blocks, Roots(|blocks|), 0, |blocks|);
    assert blocks[0..|blocks|] == blocks;
  }

  // ---------------------------------------------------------------- what a hash commits to

  lemma AtUnfold(blocks: seq<Bytes>, i: nat)
    requires i % 2 == 1 && End(i) <= |blocks|
    ensures End(Left(i)) <= |blocks| && End(Right(i)) <= |blocks|
    ensures At(blocks, i) == Combine(i, At(blocks, Left(i)), At(blocks, Right(i)))
  {
    ChildFacts(i);
    RangeNonEmpty(Right(i));
  }

  ghost predicate Agree(a: seq<Bytes>, b: seq<Bytes>, lo: nat, hi: nat)
    requires hi <= |a| && hi <= |b|
  {
    forall k :: lo <= k < hi ==> a[k] == b[k]
  }

  /** A node depends only on the blocks it covers. */
  lemma {:induction false} AtDepends(a: seq<Bytes>, b: seq<Bytes>, i: nat)
    requires End(i) <= |a| && End(i) <= |b| && Agree(a, b, First(i), End(i))
    ensures At(a, i) == At(b, i)
    decreases Depth(i)
  {
    hide First, End, Left, Right, Depth;
    if i % 2 == 0 {
      LeafOf(i);
    } else {
      ChildFacts(i);
      RangeNonEmpty(Left(i));
      RangeNonEmpty(Right(i));
      AtUnfold(a, i);
      AtUnfold(b, i);
      AtDepends(a, b, Left(i));
      AtDepends(a, b, Right(i));
    }
  }

  /** Equal hashes at an index mean equal blocks under it, and equal sizes. */
  lemma {:induction false} AtCommits(a: seq<Bytes>, b: seq<Bytes>, i: nat)
    requires End(i) <= |a| && End(i) <= |b| && At(a, i).hash == At(b, i).hash
    ensures Agree(a, b, First(i), End(i)) && At(a, i) == At(b, i)
    decreases Depth(i)
  {
    hide First, End, Left, Right, Depth;
    if i % 2 == 0 {
      LeafOf(i);
    } else {
      ChildFacts(i);
      AtUnfold(a, i);
      AtUnfold(b, i);
      AtCommits(a, b, Left(i));
      AtCommits(a, b, Right(i));
    }
  }

  lemma {:induction false} TilesEnd(roots: seq<nat>, first: nat, a: nat, b: nat)
    requires Tiles(roots, first, a) && Tiles(roots, first, b)
    ensures a == b
  {
    if roots != [] {
      TilesEnd(roots[1..], End(roots[0]), a, b);
    }
  }

  /** The root indices determine the number of blocks. */
  lemma RootsInjective(n: nat, m: nat)
    requires Roots(n) == Roots(m)
    ensures n == m
  {
    RootsFacts(n);
    RootsFacts(m);
    TilesEnd(Roots(n), 0, n, m);
  }

  lemma SameIndices(a: seq<Bytes>, roots: seq<Node>)
    requires roots == RootNodes(a)
    ensures |roots| == |Roots(|a|)| && forall k :: 0 <= k < |roots| ==> roots[k].index == Roots(|a|)[k]
  {
    RootsFacts(|a|);
  }

  /** A root hash commits to the block list. */
  lemma RootHashCommits(a: seq<Bytes>, b: seq<Bytes>)
    requires RootHash(a) == RootHash(b)
    ensures a == b
  {
    hide RootNodes, At, First, End, Parent, Depth;
    var roots := RootNodes(a);
    assert roots == RootNodes(b);
    SameIndices(a, roots);
    SameIndices(b, roots);
    assert Roots(|a|) == Roots(|b|);
    RootsInjective(|a|, |b|);
    forall k | 0 <= k < |a|
      ensures a[k] == b[k]
    {
      var j := RootOver(a, k);
      RootNodeAt(a, j);
      RootNodeAt(b, j);
      AtCommits(a, b, Roots(|a|)[j]);
    }
  }

  /** The root that covers block `k`. */
  lemma RootOver(a: seq<Bytes>, k: nat) returns (j: nat)
    requires k < |a|
    ensures j < |Roots(|a|)|
    ensures var r := Roots(|a|)[j]; First(r) <= k < End(r) <= |a|
  {
    hide First, End, Parent;
    RootsFacts(|a|);
    TileAt(Roots(|a|), 0, |a|, k);
    var r :| r in Roots(|a|) && First(r) <= k < End(r);
    assert IsRoot(|a|, r);
    j :| 0 <= j < |Roots(|a|)| && Roots(|a|)[j] == r;
  }

  lemma RootNodeAt(a: seq<Bytes>, j: nat)
    requires j < |Roots(|a|)|
    ensures End(Roots(|a|)[j]) <= |a| && j < |RootNodes(a)| && RootNodes(a)[j] == At(a, Roots(|a|)[j])
  {
    RootsFacts(|a|);
    assert Roots(|a|)[j] in Roots(|a|);
  }
}
