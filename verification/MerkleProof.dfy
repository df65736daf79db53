/** Inclusion, node and seek proofs: the verifiers' climbs, and what their acceptance means
    for the blocks a trusted root hash commits to. */
module MerkleProof {
  import opened Prelude
  import opened Flat
  import opened Merkle

  datatype Proof = Proof(block: nat, leafSize: nat, siblings: seq<Node>, roots: seq<Node>)

  datatype NodeProof = NodeProof(node: Node, siblings: seq<Node>, roots: seq<Node>)

  datatype SeekProof = SeekProof(bytes: nat, leaf: Node, siblings: seq<Node>, roots: seq<Node>)

  // ---------------------------------------------------------------- climbing to a root

  function ClimbStep(node: Node, sib: Node): Node {
    if sib.index < node.index then Combine(Parent(node.index), sib, node)
    else Combine(Parent(node.index), node, sib)
  }

  /** Fold `siblings` onto `node`, bottom-up; refused if one is not the path's sibling. */
  function Climb(node: Node, siblings: seq<Node>): Option<Node>
    decreases |siblings|
  {
    if siblings == [] then Some(node)
    else if siblings[0].index != Sibling(node.index) then None
    else Climb(ClimbStep(node, siblings[0]), siblings[1..])
  }

  /** Replace the first root at `top`'s index by `top`. */
  function Substitute(roots: seq<Node>, top: Node): Option<seq<Node>> {
    if roots == [] then None
    else if roots[0].index == top.index then Some([top] + roots[1..])
    else match Substitute(roots[1..], top)
      case None => None
      case Some(rest) => Some([roots[0]] + rest)
  }

  /** The node climbs to one of the roots, and the roots with it hash to `root`. */
  predicate Accepts(node: Node, siblings: seq<Node>, roots: seq<Node>, root: Hash) {
    match Climb(node, siblings)
    case None => false
    case Some(top) =>
      match Substitute(roots, top)
      case None => false
      case Some(rs) => TreeHash(rs) == root
  }

  lemma {:induction false} SubstituteFacts(roots: seq<Node>, top: Node)
    ensures Substitute(roots, top).None? <==> forall r :: r in roots ==> r.index != top.index
    ensures Substitute(roots, top).Some? ==>
              var rs := Substitute(roots, top).value;
              && |rs| == |roots| && top in rs
              && forall k :: 0 <= k < |roots| ==> rs[k].index == roots[k].index && (rs[k] == roots[k] || rs[k] == top)
  {
    if roots != [] {
      var tail := roots[1..];
      assert roots == [roots[0]] + tail;
      SubstituteFacts(tail, top);
      if roots[0].index != top.index && Substitute(tail, top).Some? {
        var rest := Substitute(tail, top).value;
        var rs := Substitute(roots, top).value;
        forall k | 0 <= k < |roots|
          ensures rs[k].index == roots[k].index && (rs[k] == roots[k] || rs[k] == top)
        {
          if k > 0 {
            assert rs[k] == rest[k - 1] && roots[k] == tail[k - 1];
          }
        }
      }
    }
  }

  /** A node of an accepted root list is the true node at its index. */
  lemma TrueRoot(b: seq<Bytes>, rs: seq<Node>, r: Node)
    requires TreeHash(rs) == RootHash(b) && r in rs
    ensures IsRoot(|b|, r.index) && End(r.index) <= |b| && r == At(b, r.index)
  {
    hide *;
    RootsOf(b, rs);
    var k :| 0 <= k < |rs| && rs[k] == r;
    RootNodeAt(b, k);
    RootsFacts(|b|);
    assert Roots(|b|)[k] in Roots(|b|);
  }

  lemma RootsOf(b: seq<Bytes>, rs: seq<Node>)
    requires TreeHash(rs) == RootHash(b)
    ensures rs == RootNodes(b) && |rs| == |Roots(|b|)| && forall k :: 0 <= k < |rs| ==> rs[k].index == Roots(|b|)[k]
  {
    SameIndices(b, rs);
  }

  lemma StepCommits(b: seq<Bytes>, node: Node, sib: Node)
    requires sib.index == Sibling(node.index)
    requires End(Parent(node.index)) <= |b| && ClimbStep(node, sib) == At(b, Parent(node.index))
    ensures End(node.index) <= |b| && node == At(b, node.index)
    ensures End(sib.index) <= |b| && sib == At(b, sib.index)
  {
    hide At, Parent, First, End, Sibling, Left, Right, Depth;
    SiblingFacts(node.index);
    InParent(node.index);
    AtUnfold(b, Parent(node.index));
    NodeIs(node, b);
    NodeIs(sib, b);
  }

  lemma NodeIs(n: Node, b: seq<Bytes>)
    ensures End(n.index) <= |b| && n.hash == At(b, n.index).hash && n.size == At(b, n.index).size ==> n == At(b, n.index)
  {
  }

  /** A climb that ends on a true node started on one, past true siblings. */
  lemma {:induction false} ClimbSound(b: seq<Bytes>, node: Node, siblings: seq<Node>)
    requires Climb(node, siblings).Some?
    requires var top := Climb(node, siblings).value; End(top.index) <= |b| && top == At(b, top.index)
    ensures End(node.index) <= |b| && node == At(b, node.index)
    ensures forall s :: s in siblings ==> End(s.index) <= |b| && s == At(b, s.index)
    decreases |siblings|
  {
    if siblings != [] {
      assert siblings == [siblings[0]] + siblings[1..];
      ClimbSound(b, ClimbStep(node, siblings[0]), siblings[1..]);
      StepCommits(b, node, siblings[0]);
    }
  }

  /** Soundness: an accepted node is the one the trusted blocks have at its index. */
  lemma AcceptedIsTrue(b: seq<Bytes>, node: Node, siblings: seq<Node>, roots: seq<Node>)
    requires Accepts(node, siblings, roots, RootHash(b))
    ensures End(node.index) <= |b| && node == At(b, node.index)
  {
    hide At, Parent, First, End, RootNodes;
    var top := Climb(node, siblings).value;
    SubstituteFacts(roots, top);
    TrueRoot(b, Substitute(roots, top).value, top);
    IsRootEnd(|b|, top.index);
    ClimbSound(b, node, siblings);
  }

  lemma IsRootEnd(n: nat, i: nat)
    requires IsRoot(n, i)
    ensures End(i) <= n
  {
  }

  // ---------------------------------------------------------------- honest paths

  /** The siblings from node `i` up to its root. */
  function Path(b: seq<Bytes>, i: nat): seq<Node>
    requires End(i) <= |b|
    decreases |b| + First(i) - End(i)
  {
    if IsRoot(|b|, i) then []
    else
      InParent(i);
      Widens(i);
      [At(b, Sibling(i))] + Path(b, Parent(i))
  }

  lemma Widens(i: nat)
    ensures First(Parent(i)) - End(Parent(i)) < First(i) - End(i)
    ensures End(i) - First(i) >= 1
  {
    SiblingFacts(i);
    ChildFacts(Parent(i));
    RangeNonEmpty(Left(Parent(i)));
    RangeNonEmpty(Right(Parent(i)));
  }

  /** The root above node `i`. */
  function RootAbove(b: seq<Bytes>, i: nat): (r: nat)
    requires End(i) <= |b|
    ensures IsRoot(|b|, r) && First(r) <= First(i) && End(i) <= End(r)
    decreases |b| + First(i) - End(i)
  {
    if IsRoot(|b|, i) then i
    else
      InParent(i);
      Widens(i);
      RootAbove(b, Parent(i))
  }

  lemma StepTrue(b: seq<Bytes>, i: nat)
    requires End(Parent(i)) <= |b|
    ensures End(i) <= |b| && End(Sibling(i)) <= |b|
    ensures ClimbStep(At(b, i), At(b, Sibling(i))) == At(b, Parent(i))
  {
    hide At, Parent, First, End, Sibling, Left, Right, Depth;
    SiblingFacts(i);
    InParent(i);
    AtUnfold(b, Parent(i));
  }

  lemma {:induction false} PathClimbs(b: seq<Bytes>, i: nat)
    requires End(i) <= |b|
    ensures Climb(At(b, i), Path(b, i)) == Some(At(b, RootAbove(b, i)))
    decreases |b| + First(i) - End(i)
  {
    if !IsRoot(|b|, i) {
      InParent(i);
      Widens(i);
      PathClimbs(b, Parent(i));
      StepTrue(b, i);
      hide At, Parent, First, End, Sibling;
      assert Path(b, i)[1..] == Path(b, Parent(i));
    }
  }

  /** Completeness: the honest path of any node in the tree is accepted. */
  lemma HonestIsAccepted(b: seq<Bytes>, i: nat)
    requires End(i) <= |b|
    ensures Accepts(At(b, i), Path(b, i), RootNodes(b), RootHash(b))
  {
    hide At, Parent, First, End, Path, RootNodes;
    PathClimbs(b, i);
    var r := RootAbove(b, i);
    SubstituteTrue(b, r);
  }

  lemma SubstituteTrue(b: seq<Bytes>, r: nat)
    requires IsRoot(|b|, r)
    ensures End(r) <= |b| && Substitute(RootNodes(b), At(b, r)) == Some(RootNodes(b))
  {
    hide At, Parent, First, End, RootNodes;
    IsRootEnd(|b|, r);
    var roots, top := RootNodes(b), At(b, r);
    RootsFacts(|b|);
    SameIndices(b, roots);
    var j :| 0 <= j < |Roots(|b|)| && Roots(|b|)[j] == r;
    assert roots[j] in roots && roots[j].index == top.index;
    SubstituteFacts(roots, top);
    var rs := Substitute(roots, top).value;
    forall k | 0 <= k < |roots|
      ensures rs[k] == roots[k]
    {
      RootNodeAt(b, k);
    }
    assert rs == roots;
  }

  // ---------------------------------------------------------------- the verifying loops

  /** The climb as the verifiers run it. */
  method ClimbUp(start: Node, siblings: seq<Node>) returns (top: Option<Node>)
    ensures top == Climb(start, siblings)
  {
    var node := start;
    for k := 0 to |siblings|
      invariant Climb(node, siblings[k..]) == Climb(start, siblings)
    {
      var sib := siblings[k];
      assert siblings[k..][0] == sib && siblings[k..][1..] == siblings[k + 1..];
      if sib.index != Sibling(node.index) {
        return None;
      }
      node := ClimbStep(node, sib);
    }
    return Some(node);
  }

  /** Find the slot of the recomputed root and substitute it. */
  method SubstituteIn(roots: seq<Node>, top: Node) returns (r: Option<seq<Node>>)
    ensures r == Substitute(roots, top)
  {
    for k := 0 to |roots|
      invariant forall j :: 0 <= j < k ==> roots[j].index != top.index
    {
      if roots[k].index == top.index {
        SubstituteAt(roots, top, k);
        return Some(roots[k := top]);
      }
    }
    SubstituteFacts(roots, top);
    return None;
  }

  lemma {:induction false} SubstituteAt(roots: seq<Node>, top: Node, k: nat)
    requires k < |roots| && roots[k].index == top.index && forall j :: 0 <= j < k ==> roots[j].index != top.index
    ensures Substitute(roots, top) == Some(roots[k := top])
  {
    if k > 0 {
      SubstituteAt(roots[1..], top, k - 1);
      assert [roots[0]] + roots[1..][k - 1 := top] == roots[k := top];
    } else {
      assert [top] + roots[1..] == roots[0 := top];
    }
  }

  method VerifyNode(node: Node, siblings: seq<Node>, roots: seq<Node>, root: Hash) returns (ok: bool)
    ensures ok <==> Accepts(node, siblings, roots, root)
  {
    var top := ClimbUp(node, siblings);
    if top.None? {
      return false;
    }
    var rs := SubstituteIn(roots, top.value);
    if rs.None? {
      return false;
    }
    return TreeHash(rs.value) == root;
  }

  predicate Includes(p: Proof, data: Bytes, root: Hash) {
    |data| == p.leafSize && Accepts(Leaf(p.block, data), p.siblings, p.roots, root)
  }

  /** Verify an inclusion proof for `data`: acceptance against the root of `b` means `data`
      is the block of `b` at that position. */
  method Verify(p: Proof, data: Bytes, root: Hash) returns (ok: bool)
    ensures ok <==> Includes(p, data, root)
    ensures ok ==> |data| == p.leafSize
    ensures ok ==> forall b :: RootHash(b) == root ==> p.block < |b| && b[p.block] == data
  {
    if |data| != p.leafSize {
      return false;
    }
    ok := VerifyNode(Leaf(p.block, data), p.siblings, p.roots, root);
    if ok {
      forall b | RootHash(b) == root
        ensures p.block < |b| && b[p.block] == data
      {
        IncludedIsBlock(p, data, b);
      }
    }
  }

  lemma IncludedIsBlock(p: Proof, data: Bytes, b: seq<Bytes>)
    requires Includes(p, data, RootHash(b))
    ensures p.block < |b| && b[p.block] == data
  {
    AcceptedIsTrue(b, Leaf(p.block, data), p.siblings, p.roots);
    LeafFacts(p.block);
  }

  /** Every block has an accepted inclusion proof. */
  lemma BlockHasProof(b: seq<Bytes>, k: nat) returns (p: Proof)
    requires k < |b|
    ensures p.block == k && Includes(p, b[k], RootHash(b))
  {
    hide Path, RootNodes, RootHash, Accepts;
    LeafFacts(k);
    p := Proof(k, |b[k]|, Path(b, 2 * k), RootNodes(b));
    HonestIsAccepted(b, 2 * k);
  }

  /** Verify a node proof: the node it authenticates is the true one. */
  method VerifyNodeProof(p: NodeProof, root: Hash) returns (node: Option<Node>)
    ensures node.Some? <==> Accepts(p.node, p.siblings, p.roots, root)
    ensures node.Some? ==> node.value == p.node
    ensures node.Some? ==> forall b :: RootHash(b) == root ==> End(p.node.index) <= |b| && p.node == At(b, p.node.index)
  {
    var ok := VerifyNode(p.node, p.siblings, p.roots, root);
    if !ok {
      return None;
    }
    forall b | RootHash(b) == root
      ensures End(p.node.index) <= |b| && p.node == At(b, p.node.index)
    {
      AcceptedIsTrue(b, p.node, p.siblings, p.roots);
    }
    return Some(p.node);
  }
}
