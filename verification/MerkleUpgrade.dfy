/** Length extension: an accepted upgrade proof means the old blocks are a prefix of the new
    ones, and the proof a tree builds is always accepted. */
module MerkleUpgrade {
  import opened Prelude
  import opened Flat
  import opened Merkle
  import opened MerkleProof
  import opened MerkleTree

  datatype UpgradeProof = UpgradeProof(oldLen: nat, newLen: nat, nodes: seq<Node>)

  // ---------------------------------------------------------------- what the climb derives

  /** The node at `i` that the seeds determine: a seed, or the parent of two derived children. */
  function Derive(seeds: map<nat, Node>, i: nat): (r: Option<Node>)
    decreases Depth(i)
  {
    if i in seeds then Some(seeds[i])
    else if i % 2 == 0 then None
    else
      ChildFacts(i);
      match (Derive(seeds, Left(i)), Derive(seeds, Right(i)))
      case (Some(l), Some(r)) => Some(Combine(i, l, r))
      case _ => None
  }

  function IndexedBy(nodes: seq<Node>, seeds: map<nat, Node>): map<nat, Node> {
    if nodes == [] then seeds else IndexedBy(nodes[1..], seeds[nodes[0].index := nodes[0]])
  }

  /** The supplied nodes cover only blocks of `[oldLen, newLen)`, no index twice and none
      already known. */
  predicate FullyNew(nodes: seq<Node>, oldLen: nat, newLen: nat, known: map<nat, Node>) {
    nodes == [] ||
    (var n := nodes[0];
     && First(n.index) >= oldLen && End(n.index) <= newLen && n.index !in known
     && FullyNew(nodes[1..], oldLen, newLen, known[n.index := n]))
  }

  function DeriveAll(seeds: map<nat, Node>, indices: seq<nat>): Option<seq<Node>> {
    if indices == [] then Some([])
    else match (Derive(seeds, indices[0]), DeriveAll(seeds, indices[1..]))
      case (Some(n), Some(rest)) => Some([n] + rest)
      case _ => None
  }

  predicate Shaped(roots: seq<Node>, indices: seq<nat>) {
    |roots| == |indices| && forall k :: 0 <= k < |roots| ==> roots[k].index == indices[k]
  }

  function Seeds(p: UpgradeProof, oldRoots: seq<Node>): map<nat, Node> {
    IndexedBy(p.nodes, IndexedBy(oldRoots, map[]))
  }

  /** The proof carries `oldRoots` to a tree with root hash `root`. */
  predicate Extends(p: UpgradeProof, oldRoots: seq<Node>, root: Hash) {
    && 0 < p.oldLen < p.newLen && Shaped(oldRoots, Roots(p.oldLen))
    && FullyNew(p.nodes, p.oldLen, p.newLen, IndexedBy(oldRoots, map[]))
    && match DeriveAll(Seeds(p, oldRoots), Roots(p.newLen))
       case None => false
       case Some(roots) => TreeHash(roots) == root
  }

  // ---------------------------------------------------------------- seeds

  ghost predicate Names(nodes: seq<Node>, i: nat) {
    exists n :: n in nodes && n.index == i
  }

  lemma NamesCons(nodes: seq<Node>, i: nat)
    requires nodes != []
    ensures Names(nodes, i) <==> nodes[0].index == i || Names(nodes[1..], i)
  {
    assert nodes == [nodes[0]] + nodes[1..];
    if nodes[0].index == i {
      assert nodes[0] in nodes;
    }
  }

  lemma {:induction false} IndexedByFacts(nodes: seq<Node>, seeds: map<nat, Node>)
    ensures var m := IndexedBy(nodes, seeds);
            && (forall i :: i in m <==> i in seeds || Names(nodes, i))
            && (forall i :: i in m ==> (i in seeds && m[i] == seeds[i]) || (m[i] in nodes && m[i].index == i))
    decreases |nodes|
  {
    hide Names;
    if nodes == [] {
      forall i
        ensures !Names(nodes, i)
      {
        NamesNone(i);
      }
    } else {
      var next := seeds[nodes[0].index := nodes[0]];
      IndexedByFacts(nodes[1..], next);
      assert nodes == [nodes[0]] + nodes[1..];
      forall i
        ensures Names(nodes, i) <==> nodes[0].index == i || Names(nodes[1..], i)
      {
        NamesCons(nodes, i);
      }
    }
  }

  lemma NamesNone(i: nat)
    ensures !Names([], i)
  {
  }

  /** Fully new nodes leave the known ones alone and add only new ranges. */
  lemma {:induction false} FullyNewFacts(nodes: seq<Node>, oldLen: nat, newLen: nat, known: map<nat, Node>)
    requires FullyNew(nodes, oldLen, newLen, known)
    ensures var m := IndexedBy(nodes, known);
            && (forall i :: i in known ==> i in m && m[i] == known[i])
            && (forall i :: i in m ==> i in known || (First(i) >= oldLen && End(i) <= newLen))
            && (forall n :: n in nodes ==> n.index in m && m[n.index] == n)
    decreases |nodes|
  {
    hide First, End;
    if nodes != [] {
      var n := nodes[0];
      assert nodes == [n] + nodes[1..];
      FullyNewFacts(nodes[1..], oldLen, newLen, known[n.index := n]);
    }
  }

  lemma {:induction false} DeriveAllFacts(seeds: map<nat, Node>, indices: seq<nat>)
    ensures DeriveAll(seeds, indices).Some? <==> forall i :: i in indices ==> Derive(seeds, i).Some?
    ensures DeriveAll(seeds, indices).Some? ==>
              var r := DeriveAll(seeds, indices).value;
              |r| == |indices| && forall k :: 0 <= k < |r| ==> Derive(seeds, indices[k]) == Some(r[k])
  {
    hide Derive;
    if indices != [] {
      assert indices == [indices[0]] + indices[1..];
      DeriveAllFacts(seeds, indices[1..]);
      assert indices[0] in indices && forall i :: i in indices[1..] ==> i in indices;
      if DeriveAll(seeds, indices).Some? {
        var r, rest := DeriveAll(seeds, indices).value, DeriveAll(seeds, indices[1..]).value;
        forall k | 0 <= k < |r|
          ensures Derive(seeds, indices[k]) == Some(r[k])
        {
          assert k > 0 ==> r[k] == rest[k - 1] && indices[k] == indices[1..][k - 1];
        }
      }
    }
  }

  // ---------------------------------------------------------------- soundness

  /** Old roots, and nodes past them. */
  ghost predicate SeedShape(seeds: map<nat, Node>, oldLen: nat) {
    forall i :: i in seeds ==> seeds[i].index == i && (IsRoot(oldLen, i) || First(i) >= oldLen)
  }

  lemma DeriveIndex(seeds: map<nat, Node>, oldLen: nat, i: nat)
    requires SeedShape(seeds, oldLen) && Derive(seeds, i).Some?
    ensures Derive(seeds, i).value.index == i
  {
    hide First, End, Left, Right, Depth, IsRoot;
  }

  /** Below a true derived node, every old root was derived true too. */
  lemma {:induction false} OldRootTrue(seeds: map<nat, Node>, oldLen: nat, b: seq<Bytes>, k: nat, o: nat)
    requires SeedShape(seeds, oldLen) && IsRoot(oldLen, o) && o in seeds
    requires First(k) <= First(o) && End(o) <= End(k) <= |b| && Derive(seeds, k) == Some(At(b, k))
    ensures End(o) <= |b| && seeds[o] == At(b, o)
    decreases Depth(k)
  {
    hide At, First, End, Left, Right, Depth, Parent, Sibling;
    RangeNonEmpty(o);
    RangeNonEmpty(k);
    if k in seeds {
      OldSeed(seeds, oldLen, k, o);
    } else {
      ChildFacts(k);
      AtUnfold(b, k);
      DeriveIndex(seeds, oldLen, Left(k));
      DeriveIndex(seeds, oldLen, Right(k));
      RangeNonEmpty(Left(k));
      RangeNonEmpty(Right(k));
      InChild(k, o);
      OldRootTrue(seeds, oldLen, b, if End(o) <= End(Left(k)) then Left(k) else Right(k), o);
    }
  }

  lemma OldSeed(seeds: map<nat, Node>, oldLen: nat, k: nat, o: nat)
    requires SeedShape(seeds, oldLen) && IsRoot(oldLen, o) && k in seeds && First(k) <= First(o) && End(o) <= End(k)
    ensures k == o
  {
    hide First, End, Depth, Parent;
    RangeNonEmpty(o);
    assert IsRoot(oldLen, k);
    RootsMeet(oldLen, k, o, First(o));
  }

  /** A node strictly inside another lies in one of its children. */
  lemma InChild(k: nat, o: nat)
    requires k % 2 == 1 && First(k) <= First(o) && End(o) <= End(k) && k != o
    ensures if End(o) <= End(Left(k)) then First(Left(k)) <= First(o)
            else First(Right(k)) <= First(o) && End(o) <= End(Right(k))
  {
    hide First, End, Left, Right, Depth, Parent, Sibling;
    ChildFacts(k);
    RangeNonEmpty(o);
    var b := First(o);
    if Depth(o) >= Depth(k) {
      Nested(k, o, b);
      IndexIs(k);
      IndexIs(o);
    } else {
      var c := if b < End(Left(k)) then Left(k) else Right(k);
      Nested(o, c, b);
    }
  }

  lemma OldNamed(oldRoots: seq<Node>, n: nat, i: nat)
    requires Shaped(oldRoots, Roots(n))
    ensures i in IndexedBy(oldRoots, map[]) <==> IsRoot(n, i)
    ensures i in IndexedBy(oldRoots, map[]) ==> var m := IndexedBy(oldRoots, map[])[i]; m in oldRoots && m.index == i
  {
    hide First, End, Parent, IsRoot, Roots, IndexedBy;
    IndexedByFacts(oldRoots, map[]);
    RootsFacts(n);
    if Names(oldRoots, i) {
      var node :| node in oldRoots && node.index == i;
      var k :| 0 <= k < |oldRoots| && oldRoots[k] == node;
      assert Roots(n)[k] in Roots(n);
    }
    if IsRoot(n, i) {
      var k :| 0 <= k < |Roots(n)| && Roots(n)[k] == i;
      assert oldRoots[k] in oldRoots;
    }
  }

  lemma SeedsShaped(p: UpgradeProof, oldRoots: seq<Node>)
    requires Shaped(oldRoots, Roots(p.oldLen))
    requires FullyNew(p.nodes, p.oldLen, p.newLen, IndexedBy(oldRoots, map[]))
    ensures SeedShape(Seeds(p, oldRoots), p.oldLen)
    ensures forall i :: IsRoot(p.oldLen, i) ==>
              i in Seeds(p, oldRoots) && Seeds(p, oldRoots)[i].index == i && Seeds(p, oldRoots)[i] in oldRoots
    ensures forall i :: i in Seeds(p, oldRoots) ==> IsRoot(p.oldLen, i) || End(i) <= p.newLen
  {
    hide First, End, Parent, IsRoot, Roots, IndexedBy, FullyNew, Shaped, Names;
    var old0 := IndexedBy(oldRoots, map[]);
    FullyNewFacts(p.nodes, p.oldLen, p.newLen, old0);
    IndexedByFacts(p.nodes, old0);
    forall i
      ensures i in old0 <==> IsRoot(p.oldLen, i)
      ensures i in old0 ==> old0[i] in oldRoots && old0[i].index == i
    {
      OldNamed(oldRoots, p.oldLen, i);
    }
  }

  lemma OldRootUnder(oldLen: nat, newLen: nat, o: nat, r: nat)
    requires oldLen <= newLen && IsRoot(oldLen, o) && IsRoot(newLen, r) && First(r) <= First(o) < End(r)
    ensures End(o) <= End(r)
  {
    hide First, End, Depth, Parent;
    RangeNonEmpty(o);
    if Depth(o) <= Depth(r) {
      Nested(o, r, First(o));
    } else {
      Nested(r, o, First(o));
    }
  }

  lemma RootUnique(roots: seq<Node>, n: nat, k: nat, node: Node)
    requires Shaped(roots, Roots(n)) && k < |roots| && node in roots && node.index == roots[k].index
    ensures node == roots[k]
  {
    var j :| 0 <= j < |roots| && roots[j] == node;
    RootsFacts(n);
    RootsDistinct(Roots(n), 0, n, j, k);
  }

  lemma {:induction false} RootsDistinct(roots: seq<nat>, first: nat, end: nat, j: nat, k: nat)
    requires Tiles(roots, first, end) && j < |roots| && k < |roots| && roots[j] == roots[k]
    ensures j == k
  {
    hide First, End;
    if j > 0 && k > 0 {
      RootsDistinct(roots[1..], End(roots[0]), end, j - 1, k - 1);
    } else if j > 0 {
      TilesFrom(roots[1..], End(roots[0]), end, j - 1);
    } else if k > 0 {
      TilesFrom(roots[1..], End(roots[0]), end, k - 1);
    }
    RangeNonEmpty(roots[0]);
  }

  lemma {:induction false} TilesFrom(roots: seq<nat>, first: nat, end: nat, k: nat)
    requires Tiles(roots, first, end) && k < |roots|
    ensures First(roots[k]) >= first
  {
    hide First, End;
    if k > 0 {
      RangeNonEmpty(roots[0]);
      TilesFrom(roots[1..], End(roots[0]), end, k - 1);
    }
  }

  lemma DerivedRoots(seeds: map<nat, Node>, oldLen: nat, newLen: nat, roots: seq<Node>, b: seq<Bytes>)
    requires SeedShape(seeds, oldLen) && DeriveAll(seeds, Roots(newLen)) == Some(roots) && TreeHash(roots) == RootHash(b)
    ensures |b| == newLen && forall r :: IsRoot(newLen, r) ==> End(r) <= |b| && Derive(seeds, r) == Some(At(b, r))
  {
    hide At, First, End, Parent, IsRoot, RootNodes, Derive, Roots, DeriveAll, SeedShape;
    DeriveAllFacts(seeds, Roots(newLen));
    RootsOf(b, roots);
    forall k | 0 <= k < |roots|
      ensures Roots(newLen)[k] == Roots(|b|)[k]
    {
      DeriveIndex(seeds, oldLen, Roots(newLen)[k]);
    }
    assert Roots(newLen) == Roots(|b|);
    RootsInjective(newLen, |b|);
    RootsFacts(newLen);
    forall r | IsRoot(newLen, r)
      ensures End(r) <= |b| && Derive(seeds, r) == Some(At(b, r))
    {
      var k :| 0 <= k < |roots| && Roots(newLen)[k] == r;
      RootNodeAt(b, k);
    }
  }

  lemma OldRootKept(p: UpgradeProof, oldRoots: seq<Node>, b: seq<Bytes>, k: nat)
    requires Extends(p, oldRoots, RootHash(b)) && k < |oldRoots|
    ensures |b| == p.newLen && End(oldRoots[k].index) <= |b| && oldRoots[k] == At(b, oldRoots[k].index)
  {
    hide At, First, End, Parent, IsRoot, RootNodes, Derive, Roots, DeriveAll, FullyNew, SeedShape, IndexedBy;
    var seeds, o := Seeds(p, oldRoots), oldRoots[k].index;
    SeedsShaped(p, oldRoots);
    var roots := DeriveAll(seeds, Roots(p.newLen)).value;
    DerivedRoots(seeds, p.oldLen, p.newLen, roots, b);
    RootsFacts(p.oldLen);
    assert o == Roots(p.oldLen)[k];
    RootUnique(oldRoots, p.oldLen, k, seeds[o]);
    IsRootEnd(p.oldLen, o);
    RangeNonEmpty(o);
    var j := RootOver(b, First(o));
    var r := Roots(|b|)[j];
    RootsFacts(|b|);
    assert r in Roots(|b|);
    OldRootUnder(p.oldLen, p.newLen, o, r);
    OldRootTrue(seeds, p.oldLen, b, r, o);
  }

  /** Soundness: accepted with the roots of `a` against the root hash of `b`, an upgrade
      proof shows that `a` is a proper prefix of `b`. */
  lemma ExtendsIsPrefix(p: UpgradeProof, a: seq<Bytes>, b: seq<Bytes>)
    requires Extends(p, RootNodes(a), RootHash(b))
    ensures |a| == p.oldLen && |b| == p.newLen && a < b
  {
    hide At, First, End, Parent, IsRoot, RootNodes, DeriveAll, FullyNew, IndexedBy, RootHash, Seeds;
    var roots := RootNodes(a);
    SameIndices(a, roots);
    assert Roots(|a|) == Roots(p.oldLen);
    RootsInjective(|a|, p.oldLen);
    var j0 := RootOver(a, 0);
    OldRootKept(p, roots, b, j0);
    forall k | 0 <= k < |a|
      ensures a[k] == b[k]
    {
      var j := RootOver(a, k);
      OldRootKept(p, roots, b, j);
      RootNodeAt(a, j);
      AtCommits(a, b, Roots(|a|)[j]);
    }
  }

  // ---------------------------------------------------------------- completeness

  lemma StraddleIsParent(i: nat, old0: nat)
    requires First(i) < old0 < End(i)
    ensures i % 2 == 1
  {
    if i % 2 == 0 {
      LeafOf(i);
    }
  }

  /** `k` lies under `i`. */
  predicate Under(i: nat, k: nat) {
    First(i) <= First(k) && End(k) <= End(i)
  }

  lemma UnderDepth(i: nat, k: nat)
    requires Under(i, k)
    ensures Depth(k) <= Depth(i)
  {
    hide First, End, Parent, Sibling, Depth;
    RangeNonEmpty(k);
    if Depth(i) < Depth(k) {
      Nested(i, k, First(k));
      InParent(i);
      InParent(Sibling(i));
      SiblingFacts(i);
      RangeNonEmpty(Sibling(i));
    }
  }

  /** Below a node lie itself and what lies below its children. */
  lemma UnderSplit(i: nat, k: nat)
    requires Under(i, k) && k != i
    ensures i % 2 == 1 && (Under(Left(i), k) || Under(Right(i), k)) && Under(i, Parent(k))
  {
    hide First, End, Parent, Left, Right, Depth;
    UnderDepth(i, k);
    RangeNonEmpty(k);
    Nested(k, i, First(k));
    DepthParity(i);
    ChildFacts(i);
    Nested(k, if First(k) < End(Left(i)) then Left(i) else Right(i), First(k));
  }

  /** `k` is one of the largest subtrees under `i` past the first `old0` blocks: it starts past
      them and is `i` itself or has a parent that does not. */
  predicate Largest(i: nat, old0: nat, k: nat) {
    Under(i, k) && First(k) >= old0 && (k == i || First(Parent(k)) < old0)
  }

  /** Inside the old blocks nothing is new. */
  lemma LargestNone(i: nat, old0: nat, k: nat)
    requires End(i) <= old0
    ensures !Largest(i, old0, k)
  {
    hide First, End, Parent;
    RangeNonEmpty(k);
  }

  /** A subtree past them is the largest of its own. */
  lemma LargestWhole(i: nat, old0: nat, k: nat)
    requires First(i) >= old0
    ensures Largest(i, old0, k) <==> k == i
  {
    hide First, End, Parent;
    if Largest(i, old0, k) && k != i {
      UnderSplit(i, k);
    }
  }

  /** Across the boundary they are those of the two children. */
  lemma LargestSplit(i: nat, old0: nat, k: nat)
    requires First(i) < old0 < End(i)
    ensures i % 2 == 1 && (Largest(i, old0, k) <==> Largest(Left(i), old0, k) || Largest(Right(i), old0, k))
  {
    hide First, End, Left, Right, Parent;
    StraddleIsParent(i, old0);
    ChildFacts(i);
    RangeNonEmpty(Left(i));
    RangeNonEmpty(Right(i));
    if Largest(i, old0, k) {
      UnderSplit(i, k);
    }
  }

  /** Seeds that are true, and hold every old root and every largest new subtree below `i`. */
  ghost predicate Honest(seeds: map<nat, Node>, b: seq<Bytes>, old0: nat, i: nat) {
    && (forall k :: k in seeds ==> End(k) <= |b| && seeds[k] == At(b, k))
    && (forall k :: IsRoot(old0, k) ==> k in seeds)
    && (forall k :: Largest(i, old0, k) ==> k in seeds)
  }

  /** Honest seeds derive every node not strictly inside the old prefix. */
  lemma {:induction false} HonestDerives(seeds: map<nat, Node>, b: seq<Bytes>, old0: nat, i: nat)
    requires Honest(seeds, b, old0, i) && End(i) <= |b| && old0 < End(Parent(i))
    ensures Derive(seeds, i) == Some(At(b, i))
    decreases Depth(i)
  {
    hide At, First, End, Left, Right, Depth, Parent, Sibling, Largest;
    if First(i) >= old0 {
      LargestWhole(i, old0, i);
    }
    if i !in seeds {
      StraddleIsParent(i, old0);
      ChildFacts(i);
      forall k
        ensures Largest(Left(i), old0, k) || Largest(Right(i), old0, k) ==> k in seeds
      {
        LargestSplit(i, old0, k);
      }
      RangeNonEmpty(Right(i));
      AtUnfold(b, i);
      HonestDerives(seeds, b, old0, Left(i));
      HonestDerives(seeds, b, old0, Right(i));
    }
  }

  /** `nodes` lists once each of the largest subtrees of the first `newLen` blocks of `b` past
      the old ones. */
  ghost predicate Upgrades(p: UpgradeProof, b: seq<Bytes>) {
    && 0 < p.oldLen < p.newLen <= |b|
    && (forall n :: n in p.nodes ==> End(n.index) <= |b| && n == At(b, n.index))
    && (forall j, k :: 0 <= j < k < |p.nodes| ==> p.nodes[j].index != p.nodes[k].index)
    && (forall i :: Names(p.nodes, i) <==> exists r :: r in Roots(p.newLen) && Largest(r, p.oldLen, i))
  }

  lemma {:induction false} FullyNewFrom(nodes: seq<Node>, oldLen: nat, newLen: nat, known: map<nat, Node>)
    requires forall n :: n in nodes ==> First(n.index) >= oldLen && End(n.index) <= newLen && n.index !in known
    requires forall j, k :: 0 <= j < k < |nodes| ==> nodes[j].index != nodes[k].index
    ensures FullyNew(nodes, oldLen, newLen, known)
    decreases |nodes|
  {
    hide First, End;
    if nodes != [] {
      var n := nodes[0];
      forall m | m in nodes[1..]
        ensures First(m.index) >= oldLen && End(m.index) <= newLen && m.index !in known[n.index := n]
      {
        var k :| 0 <= k < |nodes[1..]| && nodes[1..][k] == m;
        assert nodes[k + 1] == m && m in nodes;
      }
      forall j, k | 0 <= j < k < |nodes[1..]|
        ensures nodes[1..][j].index != nodes[1..][k].index
      {
        assert nodes[j + 1].index != nodes[k + 1].index;
      }
      assert n in nodes;
      FullyNewFrom(nodes[1..], oldLen, newLen, known[n.index := n]);
    }
  }

  lemma UpgradeNodesNew(p: UpgradeProof, b: seq<Bytes>, n: Node)
    requires Upgrades(p, b) && n in p.nodes
    ensures First(n.index) >= p.oldLen && End(n.index) <= p.newLen
  {
    hide At, First, End, Parent, IsRoot, Roots;
    assert Names(p.nodes, n.index);
    var r :| r in Roots(p.newLen) && Largest(r, p.oldLen, n.index);
    RootsFacts(p.newLen);
    IsRootEnd(p.newLen, r);
  }

  lemma OldSeedFacts(b: seq<Bytes>, old0: nat, i: nat)
    requires old0 <= |b|
    ensures Shaped(RootNodes(b[..old0]), Roots(old0))
    ensures var m := IndexedBy(RootNodes(b[..old0]), map[]);
            && (i in m <==> IsRoot(old0, i)) && (i in m ==> End(i) <= old0 && m[i] == At(b, i))
  {
    hide At, First, End, Parent, IsRoot, Roots, IndexedBy, RootNodes;
    var a := b[..old0];
    var roots := RootNodes(a);
    SameIndices(a, roots);
    OldNamed(roots, old0, i);
    if IsRoot(old0, i) {
      IsRootEnd(old0, i);
      var j :| 0 <= j < |roots| && roots[j] == IndexedBy(roots, map[])[i];
      RootNodeAt(a, j);
      assert a[..old0] == b[..old0];
      AtPrefix(a, b, old0, i);
    }
  }

  /** Completeness: the largest new subtrees carry the roots at `oldLen` to the root hash at
      `newLen`. */
  lemma UpgradeAccepted(p: UpgradeProof, b: seq<Bytes>)
    requires Upgrades(p, b)
    ensures Extends(p, RootNodes(b[..p.oldLen]), RootHash(b[..p.newLen]))
  {
    hide *;
    UpgradeLens(p, b);
    HonestSeeds(p, b);
    UpgradeDerives(p, b);
    ExtendsBy(p, RootNodes(b[..p.oldLen]), RootNodes(b[..p.newLen]));
    RootHashIs(b[..p.newLen]);
  }

  lemma UpgradeLens(p: UpgradeProof, b: seq<Bytes>)
    requires Upgrades(p, b)
    ensures 0 < p.oldLen < p.newLen <= |b|
  {
    hide At, First, End, Largest, Roots;
  }

  lemma RootHashIs(b: seq<Bytes>)
    ensures RootHash(b) == TreeHash(RootNodes(b))
  {
  }

  lemma ExtendsBy(p: UpgradeProof, oldRoots: seq<Node>, roots: seq<Node>)
    requires 0 < p.oldLen < p.newLen && Shaped(oldRoots, Roots(p.oldLen))
    requires FullyNew(p.nodes, p.oldLen, p.newLen, IndexedBy(oldRoots, map[]))
    requires DeriveAll(Seeds(p, oldRoots), Roots(p.newLen)) == Some(roots)
    ensures Extends(p, oldRoots, TreeHash(roots))
  {
  }

  lemma UpgradeFresh(p: UpgradeProof, b: seq<Bytes>)
    requires Upgrades(p, b)
    ensures FullyNew(p.nodes, p.oldLen, p.newLen, IndexedBy(RootNodes(b[..p.oldLen]), map[]))
  {
    hide At, First, End, Parent, Roots, IndexedBy, RootNodes, Largest, Names, Shaped, FullyNew;
    var old0 := IndexedBy(RootNodes(b[..p.oldLen]), map[]);
    forall n | n in p.nodes
      ensures First(n.index) >= p.oldLen && End(n.index) <= p.newLen && n.index !in old0
    {
      UpgradeNodesNew(p, b, n);
      RangeNonEmpty(n.index);
      OldSeedFacts(b, p.oldLen, n.index);
    }
    FullyNewFrom(p.nodes, p.oldLen, p.newLen, old0);
  }

  lemma HonestSeeds(p: UpgradeProof, b: seq<Bytes>)
    requires Upgrades(p, b)
    ensures var oldRoots := RootNodes(b[..p.oldLen]);
            && Shaped(oldRoots, Roots(p.oldLen))
            && FullyNew(p.nodes, p.oldLen, p.newLen, IndexedBy(oldRoots, map[]))
            && forall r :: r in Roots(p.newLen) ==> Honest(Seeds(p, oldRoots), b, p.oldLen, r)
  {
    hide At, First, End, Parent, IsRoot, Roots, IndexedBy, RootNodes, Largest, FullyNew, Names, Shaped;
    var oldRoots := RootNodes(b[..p.oldLen]);
    var old0 := IndexedBy(oldRoots, map[]);
    UpgradeFresh(p, b);
    OldSeedFacts(b, p.oldLen, 0);
    forall i
      ensures i in old0 <==> IsRoot(p.oldLen, i)
      ensures i in old0 ==> End(i) <= p.oldLen && old0[i] == At(b, i)
    {
      OldSeedFacts(b, p.oldLen, i);
    }
    FullyNewFacts(p.nodes, p.oldLen, p.newLen, old0);
    IndexedByFacts(p.nodes, old0);
  }

  lemma UpgradeDerives(p: UpgradeProof, b: seq<Bytes>)
    requires Upgrades(p, b)
    requires forall r :: r in Roots(p.newLen) ==> Honest(Seeds(p, RootNodes(b[..p.oldLen])), b, p.oldLen, r)
    ensures DeriveAll(Seeds(p, RootNodes(b[..p.oldLen])), Roots(p.newLen)) == Some(RootNodes(b[..p.newLen]))
  {
    hide At, First, End, Parent, Roots, RootNodes, Largest, Honest, Derive, DeriveAll, Seeds;
    var seeds := Seeds(p, RootNodes(b[..p.oldLen]));
    var b' := b[..p.newLen];
    RootsFacts(p.newLen);
    SameIndices(b', RootNodes(b'));
    forall r | r in Roots(p.newLen)
      ensures End(r) <= p.newLen && Derive(seeds, r) == Some(At(b, r)) && At(b, r) == At(b', r)
    {
      assert IsRoot(p.newLen, r);
      HonestDerives(seeds, b, p.oldLen, r);
      assert b'[..p.newLen] == b[..p.newLen];
      AtPrefix(b', b, p.newLen, r);
    }
    DeriveAllFacts(seeds, Roots(p.newLen));
    var roots := DeriveAll(seeds, Roots(p.newLen)).value;
    forall k | 0 <= k < |roots|
      ensures roots[k] == RootNodes(b')[k]
    {
      RootNodeAt(b', k);
    }
    assert roots == RootNodes(b');
  }
}
