/** Byte-addressed access: descending the tree by committed sizes agrees with a linear scan
    of the blocks, and so does every accepted seek proof. */
module MerkleSeek {
  import opened Prelude
  import opened Flat
  import opened Merkle
  import opened MerkleProof

  // ---------------------------------------------------------------- the linear scan

  /** A block and the offset within it. */
  datatype Place = Place(block: nat, offset: nat)

  /** Bytes in blocks `[lo, hi)`. */
  function Total(b: seq<Bytes>, lo: nat, hi: nat): nat
    requires lo <= hi <= |b|
    decreases hi
  {
    if lo == hi then 0 else Total(b, lo, hi - 1) + |b[hi - 1]|
  }

  /** Scan from block `k`: the block a byte offset falls in and the offset within it. */
  function Scan(b: seq<Bytes>, k: nat, bytes: nat): Place
    requires k <= |b|
    decreases |b| - k
  {
    if k == |b| then Place(k, bytes)
    else if bytes < |b[k]| then Place(k, bytes)
    else Scan(b, k + 1, bytes - |b[k]|)
  }

  lemma {:induction false} TotalSplit(b: seq<Bytes>, i: nat, j: nat, k: nat)
    requires i <= j <= k <= |b|
    ensures Total(b, i, k) == Total(b, i, j) + Total(b, j, k)
    decreases k
  {
    if j < k {
      TotalSplit(b, i, j, k - 1);
    }
  }

  /** Whole blocks before the offset can be skipped. */
  lemma {:induction false} ScanSkips(b: seq<Bytes>, k: nat, j: nat, bytes: nat)
    requires k <= j <= |b| && Total(b, k, j) <= bytes
    ensures Scan(b, k, bytes) == Scan(b, j, bytes - Total(b, k, j))
    decreases j - k
  {
    if k < j {
      TotalSplit(b, k, k + 1, j);
      assert Total(b, k, k + 1) == |b[k]|;
      ScanSkips(b, k + 1, j, bytes - |b[k]|);
    }
  }

  /** The whole content, block after block. */
  ghost function Content(b: seq<Bytes>): Bytes {
    if b == [] then [] else Content(b[..|b| - 1]) + b[|b| - 1]
  }

  lemma {:induction false} ContentTotal(b: seq<Bytes>, k: nat)
    requires k <= |b|
    ensures |Content(b[..k])| == Total(b, 0, k)
  {
    if k > 0 {
      ContentTotal(b, k - 1);
      assert b[..k][..k - 1] == b[..k - 1];
    }
  }

  /** The content of block `k` starts where the blocks before it end. */
  lemma {:induction false} ContentAt(b: seq<Bytes>, k: nat, o: nat)
    requires k < |b| && o < |b[k]|
    ensures |Content(b[..k])| + o < |Content(b)| && Content(b)[|Content(b[..k])| + o] == b[k][o]
    decreases |b|
  {
    var m := |b| - 1;
    var front := b[..m];
    if k < m {
      ContentAt(front, k, o);
      assert front[..k] == b[..k];
    }
  }

  /** A byte of the content is found in the block and at the offset it has there; a position
      past the end keeps what is left over. */
  lemma ScanFinds(b: seq<Bytes>, bytes: nat)
    ensures var place := Scan(b, 0, bytes);
            if bytes < |Content(b)| then
              && place.block < |b| && place.offset < |b[place.block]|
              && bytes == |Content(b[..place.block])| + place.offset
              && Content(b)[bytes] == b[place.block][place.offset]
            else place == Place(|b|, bytes - |Content(b)|)
  {
    ScanStops(b, 0, bytes);
    assert b[..|b|] == b;
    ContentTotal(b, |b|);
    var place := Scan(b, 0, bytes);
    ContentTotal(b, place.block);
    if place.block < |b| {
      ContentAt(b, place.block, place.offset);
    }
  }

  lemma {:induction false} ScanStops(b: seq<Bytes>, k: nat, bytes: nat)
    requires k <= |b|
    ensures var place := Scan(b, k, bytes);
            && k <= place.block <= |b| && bytes == Total(b, k, place.block) + place.offset
            && (place.block < |b| ==> place.offset < |b[place.block]|)
    decreases |b| - k
  {
    if k < |b| && bytes >= |b[k]| {
      ScanStops(b, k + 1, bytes - |b[k]|);
      TotalSplit(b, k, k + 1, Scan(b, k, bytes).block);
      assert Total(b, k, k + 1) == |b[k]|;
    }
  }

  /** A node's size is the bytes of the blocks it covers. */
  lemma {:induction false} SizeIs(b: seq<Bytes>, i: nat)
    requires End(i) <= |b|
    ensures First(i) <= End(i) && At(b, i).size == Total(b, First(i), End(i))
    decreases Depth(i)
  {
    hide First, End, Left, Right, Depth;
    RangeNonEmpty(i);
    if i % 2 == 0 {
      LeafOf(i);
    } else {
      ChildFacts(i);
      RangeNonEmpty(Left(i));
      RangeNonEmpty(Right(i));
      AtUnfold(b, i);
      SizeIs(b, Left(i));
      SizeIs(b, Right(i));
      TotalSplit(b, First(i), End(Left(i)), End(i));
    }
  }

  // ---------------------------------------------------------------- seek proofs

  /** Sizes of the left siblings met while climbing. */
  function LeftSum(node: Node, siblings: seq<Node>): nat
    decreases |siblings|
  {
    if siblings == [] then 0
    else (if siblings[0].index < node.index then siblings[0].size else 0)
         + LeftSum(ClimbStep(node, siblings[0]), siblings[1..])
  }

  /** Sizes of the roots left of `index`. */
  function RootsBefore(roots: seq<Node>, index: nat): nat {
    if roots == [] then 0
    else (if roots[0].index < index then roots[0].size else 0) + RootsBefore(roots[1..], index)
  }

  /** What a seek proof locates, if it is accepted. */
  function Locates(p: SeekProof, root: Hash): Option<Place> {
    if p.leaf.index % 2 == 1 || !Accepts(p.leaf, p.siblings, p.roots, root) then None
    else
      var top := Climb(p.leaf, p.siblings).value;
      var cumulative := RootsBefore(p.roots, top.index) + LeftSum(p.leaf, p.siblings);
      if p.bytes < cumulative || p.bytes - cumulative >= p.leaf.size then None
      else Some(Place(p.leaf.index / 2, p.bytes - cumulative))
  }

  /** Along a true climb the left siblings hold the bytes between the top's start and the
      node's. */
  lemma {:induction false} LeftSumIs(b: seq<Bytes>, node: Node, siblings: seq<Node>)
    requires Climb(node, siblings).Some?
    requires var top := Climb(node, siblings).value; End(top.index) <= |b| && top == At(b, top.index)
    ensures var top := Climb(node, siblings).value;
            First(top.index) <= First(node.index) <= |b|
            && LeftSum(node, siblings) == Total(b, First(top.index), First(node.index))
    decreases |siblings|
  {
    hide At, First, End, Parent, Sibling, Left, Right, Depth;
    if siblings == [] {
      RangeNonEmpty(node.index);
    } else {
      var sib, next, rest := siblings[0], ClimbStep(node, siblings[0]), siblings[1..];
      ClimbSound(b, next, rest);
      LeftSumIs(b, next, rest);
      StepCommits(b, node, sib);
      SiblingFacts(node.index);
      ChildFacts(Parent(node.index));
      RangeNonEmpty(node.index);
      SizeIs(b, sib.index);
      var top := Climb(node, siblings).value;
      TotalSplit(b, First(top.index), First(Parent(node.index)), First(node.index));
      assert sib.index > node.index ==> First(Parent(node.index)) == First(node.index);
    }
  }

  lemma {:induction false} RootsBeforeSame(roots: seq<Node>, rs: seq<Node>, top: Node)
    requires |rs| == |roots|
    requires forall k :: 0 <= k < |roots| ==> rs[k].index == roots[k].index && (rs[k] == roots[k] || rs[k] == top)
    ensures RootsBefore(roots, top.index) == RootsBefore(rs, top.index)
  {
    if roots != [] {
      assert rs[0].index == roots[0].index;
      forall k | 0 <= k < |roots| - 1
        ensures rs[1..][k].index == roots[1..][k].index && (rs[1..][k] == roots[1..][k] || rs[1..][k] == top)
      {
        assert rs[1..][k] == rs[k + 1] && roots[1..][k] == roots[k + 1];
      }
      RootsBeforeSame(roots[1..], rs[1..], top);
    }
  }

  lemma {:induction false} NoneBefore(b: seq<Bytes>, indices: seq<nat>, first: nat, end: nat, index: nat)
    requires Tiles(indices, first, end) && end <= |b| && forall i :: i in indices ==> End(i) <= |b|
    requires index <= 2 * first
    ensures RootsBefore(NodesAt(b, indices), index) == 0
  {
    if indices != [] {
      hide At, First, End;
      RangeNonEmpty(indices[0]);
      IndexIs(indices[0]);
      NoneBefore(b, indices[1..], End(indices[0]), end, index);
      assert NodesAt(b, indices)[1..] == NodesAt(b, indices[1..]);
    }
  }

  /** In a tiling, the nodes left of a member hold the bytes before it. */
  lemma {:induction false} RootsBeforeIs(b: seq<Bytes>, indices: seq<nat>, first: nat, end: nat, r: nat)
    requires Tiles(indices, first, end) && end <= |b| && forall i :: i in indices ==> End(i) <= |b|
    requires r in indices
    ensures first <= First(r) <= |b| && RootsBefore(NodesAt(b, indices), r) == Total(b, first, First(r))
  {
    var i, rest := indices[0], indices[1..];
    assert indices == [i] + rest;
    hide At, First, End;
    RangeNonEmpty(i);
    RangeNonEmpty(r);
    IndexIs(i);
    IndexIs(r);
    assert NodesAt(b, indices)[1..] == NodesAt(b, rest);
    if i == r {
      NoneBefore(b, rest, End(i), end, r);
    } else {
      RootsBeforeIs(b, rest, End(i), end, r);
      SizeIs(b, i);
      TotalSplit(b, first, End(i), First(r));
    }
  }

  lemma RootsBeforeTop(b: seq<Bytes>, r: nat)
    requires IsRoot(|b|, r)
    ensures First(r) <= |b| && RootsBefore(RootNodes(b), r) == Total(b, 0, First(r))
  {
    RootsFacts(|b|);
    RootsBeforeIs(b, Roots(|b|), 0, |b|, r);
  }

  /** A byte inside block `k`, counted from the bytes before it, is where the scan ends. */
  lemma ScanLands(b: seq<Bytes>, k: nat, bytes: nat)
    requires k < |b| && Total(b, 0, k) <= bytes < Total(b, 0, k) + |b[k]|
    ensures Scan(b, 0, bytes) == Place(k, bytes - Total(b, 0, k))
  {
    ScanSkips(b, 0, k, bytes);
  }

  lemma CumulativeIs(b: seq<Bytes>, leaf: Node, siblings: seq<Node>, roots: seq<Node>)
    requires Accepts(leaf, siblings, roots, RootHash(b)) && leaf.index % 2 == 0
    ensures var k := leaf.index / 2;
            k < |b| && leaf == At(b, leaf.index) && leaf.size == |b[k]|
            && RootsBefore(roots, Climb(leaf, siblings).value.index) + LeftSum(leaf, siblings) == Total(b, 0, k)
  {
    hide At, Parent, First, End, RootNodes, RootsBefore, Climb, LeftSum, Sibling;
    var top := Climb(leaf, siblings).value;
    var rs := Substitute(roots, top).value;
    SubstituteFacts(roots, top);
    RootsOf(b, rs);
    TrueRoot(b, rs, top);
    ClimbSound(b, leaf, siblings);
    LeafOf(leaf.index);
    LeafSize(b, leaf.index);
    RootsBeforeSame(roots, rs, top);
    RootsBeforeTop(b, top.index);
    LeftSumIs(b, leaf, siblings);
    TotalSplit(b, 0, First(top.index), leaf.index / 2);
  }

  lemma LeafSize(b: seq<Bytes>, i: nat)
    requires i % 2 == 0 && End(i) <= |b|
    ensures i / 2 < |b| && At(b, i).size == |b[i / 2]|
  {
    LeafOf(i);
  }

  /** Soundness: an accepted seek proof locates what the linear scan does. */
  lemma LocatesIsScan(b: seq<Bytes>, p: SeekProof)
    requires Locates(p, RootHash(b)).Some?
    ensures Locates(p, RootHash(b)).value == Scan(b, 0, p.bytes) && Scan(b, 0, p.bytes).block < |b|
  {
    hide At, RootHash, Accepts, Climb, LeftSum, RootsBefore;
    CumulativeIs(b, p.leaf, p.siblings, p.roots);
    ScanLands(b, p.leaf.index / 2, p.bytes);
  }

  lemma {:induction false} ScanBounds(b: seq<Bytes>, k: nat, bytes: nat)
    requires k <= |b|
    ensures var Place(j, off) := Scan(b, k, bytes);
            && k <= j <= |b| && Total(b, k, j) + off == bytes && (j < |b| ==> off < |b[j]|)
    decreases |b| - k
  {
    if k < |b| && bytes >= |b[k]| {
      ScanBounds(b, k + 1, bytes - |b[k]|);
      var Place(j, off) := Scan(b, k, bytes);
      TotalSplit(b, k, k + 1, j);
      assert Total(b, k, k + 1) == |b[k]|;
    }
  }

  /** The seek proof of byte `bytes`. */
  function SeekProofOf(b: seq<Bytes>, bytes: nat): Option<SeekProof> {
    var Place(block, offset) := Scan(b, 0, bytes);
    if block >= |b| then None
    else
      LeafFacts(block);
      Some(SeekProof(bytes, At(b, 2 * block), Path(b, 2 * block), RootNodes(b)))
  }

  lemma OneBlock(b: seq<Bytes>, k: nat)
    requires k < |b|
    ensures Total(b, k, k + 1) == |b[k]|
  {
  }

  /** Completeness: exactly the offsets inside the log have a proof, and it is accepted. */
  lemma SeekProofAccepted(b: seq<Bytes>, bytes: nat)
    ensures SeekProofOf(b, bytes).Some? <==> bytes < Total(b, 0, |b|)
    ensures SeekProofOf(b, bytes).Some? ==> Locates(SeekProofOf(b, bytes).value, RootHash(b)) == Some(Scan(b, 0, bytes))
  {
    hide At, Path, RootNodes, RootHash, Climb, Accepts, LeftSum, RootsBefore, First, End, Scan, Total;
    ScanBounds(b, 0, bytes);
    var Place(block, offset) := Scan(b, 0, bytes);
    if block < |b| {
      TotalSplit(b, 0, block, |b|);
      TotalSplit(b, block, block + 1, |b|);
      OneBlock(b, block);
      LeafFacts(block);
      HonestIsAccepted(b, 2 * block);
      CumulativeIs(b, At(b, 2 * block), Path(b, 2 * block), RootNodes(b));
    }
  }

  /** The verifier's loops. */
  method VerifySeek(p: SeekProof, root: Hash) returns (r: Option<Place>)
    ensures r == Locates(p, root)
    ensures r.Some? ==> forall b :: RootHash(b) == root ==> r.value == Scan(b, 0, p.bytes) && r.value.block < |b|
  {
    hide At, RootHash, RootNodes, Scan, Sibling, Parent;
    if p.leaf.index % 2 != 0 {
      return None;
    }
    var node := p.leaf;
    var leftSum := 0;
    for k := 0 to |p.siblings|
      invariant Climb(node, p.siblings[k..]) == Climb(p.leaf, p.siblings)
      invariant leftSum + LeftSum(node, p.siblings[k..]) == LeftSum(p.leaf, p.siblings)
    {
      var sib := p.siblings[k];
      assert p.siblings[k..][0] == sib && p.siblings[k..][1..] == p.siblings[k + 1..];
      if sib.index != Sibling(node.index) {
        return None;
      }
      if sib.index < node.index {
        leftSum := leftSum + sib.size;
      }
      node := ClimbStep(node, sib);
    }
    var rootLeftSum, found := SumLeft(p.roots, node.index);
    SubstituteFacts(p.roots, node);
    if !found {
      return None;
    }
    var cumulative := rootLeftSum + leftSum;
    var rs := SubstituteIn(p.roots, node);
    if rs.None? {
      return None;
    }
    if TreeHash(rs.value) != root {
      return None;
    }
    if p.bytes < cumulative {
      return None;
    }
    var offset := p.bytes - cumulative;
    if offset >= p.leaf.size {
      return None;
    }
    r := Some(Place(p.leaf.index / 2, offset));
    forall b | RootHash(b) == root
      ensures r.value == Scan(b, 0, p.bytes) && r.value.block < |b|
    {
      LocatesIsScan(b, p);
    }
  }

  /** Sum the sizes of the roots left of `index`, and see whether it is one of them. */
  method SumLeft(roots: seq<Node>, index: nat) returns (sum: nat, found: bool)
    ensures sum == RootsBefore(roots, index) && (found <==> exists r :: r in roots && r.index == index)
  {
    sum, found := 0, false;
    for k := 0 to |roots|
      invariant sum + RootsBefore(roots[k..], index) == RootsBefore(roots, index)
      invariant found <==> exists j :: 0 <= j < k && roots[j].index == index
    {
      assert roots[k..][0] == roots[k] && roots[k..][1..] == roots[k + 1..];
      if roots[k].index == index {
        found := true;
      } else if roots[k].index < index {
        sum := sum + roots[k].size;
      }
    }
    if found {
      var j :| 0 <= j < |roots| && roots[j].index == index;
      assert roots[j] in roots;
    }
  }
}
