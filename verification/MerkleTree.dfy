/** The incremental tree: a map of nodes grown by `append`, cut by `truncate` and rewritten by
    `reorg`, kept equal to the tree over its block list. */
module MerkleTree {
  import opened Prelude
  import opened Flat
  import opened Merkle
  import opened MerkleProof
  import opened MerkleSeek

  // ---------------------------------------------------------------- node maps

  /** Every stored node is the one the blocks have at its index. */
  ghost predicate Holds(nodes: map<nat, Node>, blocks: seq<Bytes>) {
    forall i :: i in nodes ==> End(i) <= |blocks| && nodes[i] == At(blocks, i)
  }

  /** Every complete subtree of the first `n` blocks is stored. */
  ghost predicate Full(nodes: map<nat, Node>, n: nat) {
    forall i :: End(i) <= n ==> i in nodes
  }

  /** The stored nodes at `indices`, unless one is missing. */
  function Gather(nodes: map<nat, Node>, indices: seq<nat>): Option<seq<Node>> {
    if indices == [] then Some([])
    else if indices[0] !in nodes then None
    else match Gather(nodes, indices[1..])
      case None => None
      case Some(rest) => Some([nodes[indices[0]]] + rest)
  }

  /** A node is the same in every list that shares its blocks. */
  lemma AtPrefix(a: seq<Bytes>, b: seq<Bytes>, n: nat, i: nat)
    requires n <= |a| && n <= |b| && a[..n] == b[..n] && End(i) <= n
    ensures At(a, i) == At(b, i)
  {
    hide At, First, End;
    assert forall k :: 0 <= k < n ==> a[k] == a[..n][k] == b[..n][k] == b[k];
    AtDepends(a, b, i);
  }

  lemma {:induction false} GatherFacts(nodes: map<nat, Node>, blocks: seq<Bytes>, indices: seq<nat>)
    requires Holds(nodes, blocks)
    ensures Gather(nodes, indices).Some? <==> forall i :: i in indices ==> i in nodes
    ensures Gather(nodes, indices).Some? ==>
              && (forall i :: i in indices ==> End(i) <= |blocks|)
              && Gather(nodes, indices).value == NodesAt(blocks, indices)
  {
    hide At, End;
    if indices != [] {
      assert indices == [indices[0]] + indices[1..];
      GatherFacts(nodes, blocks, indices[1..]);
    }
  }

  lemma {:induction false} NodesAtPrefix(a: seq<Bytes>, b: seq<Bytes>, n: nat, indices: seq<nat>)
    requires n <= |a| && n <= |b| && a[..n] == b[..n] && forall i :: i in indices ==> End(i) <= n
    ensures NodesAt(a, indices) == NodesAt(b, indices)
  {
    hide At, End;
    if indices != [] {
      AtPrefix(a, b, n, indices[0]);
      NodesAtPrefix(a, b, n, indices[1..]);
    }
  }

  /** The gathered roots of a prefix are the roots of the prefix. */
  lemma GatheredRoots(nodes: map<nat, Node>, blocks: seq<Bytes>, n: nat)
    requires Holds(nodes, blocks) && n <= |blocks|
    ensures Gather(nodes, Roots(n)).Some? ==> Gather(nodes, Roots(n)).value == RootNodes(blocks[..n])
    ensures Full(nodes, |blocks|) ==> Gather(nodes, Roots(n)).Some?
  {
    hide At, End, Parent, Roots, Holds;
    RootsFacts(n);
    forall i | i in Roots(n)
      ensures End(i) <= n && (Full(nodes, |blocks|) ==> i in nodes)
    {
      IsRootEnd(n, i);
    }
    GatherFacts(nodes, blocks, Roots(n));
    if Gather(nodes, Roots(n)).Some? {
      assert blocks[..n][..n] == blocks[..n];
      NodesAtPrefix(blocks, blocks[..n], n, Roots(n));
    }
  }

  // ---------------------------------------------------------------- one append

  /** While block `n` rolls up: everything about the first `n` blocks is as before, and the
      new nodes are those ending with block `n` up to `depth`. */
  ghost predicate Rolling(nodes: map<nat, Node>, blocks: seq<Bytes>, cur: nat, full: bool) {
    && |blocks| > 0 && Holds(nodes, blocks) && cur in nodes && End(cur) == |blocks|
    && (full ==> Full(nodes, |blocks| - 1) && forall i :: End(i) == |blocks| && Depth(i) <= Depth(cur) ==> i in nodes)
  }

  lemma RollStart(nodes: map<nat, Node>, blocks: seq<Bytes>, data: Bytes)
    requires Holds(nodes, blocks)
    ensures var cur := 2 * |blocks|;
            Rolling(nodes[cur := Leaf(|blocks|, data)], blocks + [data], cur, Full(nodes, |blocks|))
  {
    hide At, First, End, Depth;
    var after, cur := blocks + [data], 2 * |blocks|;
    var next := nodes[cur := Leaf(|blocks|, data)];
    LeafFacts(|blocks|);
    LeafAt(after, |blocks|);
    assert after[..|blocks|] == blocks == blocks[..|blocks|];
    forall i | i in next
      ensures End(i) <= |after| && next[i] == At(after, i)
    {
      if i != cur {
        AtPrefix(blocks, after, |blocks|, i);
      }
    }
    forall i | End(i) == |after| && Depth(i) <= Depth(cur)
      ensures i in next
    {
      RangeNonEmpty(i);
      Nested(i, cur, |blocks|);
    }
  }

  lemma LeafAt(b: seq<Bytes>, k: nat)
    requires k < |b|
    ensures End(2 * k) <= |b| && At(b, 2 * k) == Leaf(k, b[k])
  {
    LeafFacts(k);
  }

  lemma RollStep(nodes: map<nat, Node>, blocks: seq<Bytes>, cur: nat, full: bool)
    requires Rolling(nodes, blocks, cur, full) && Sibling(cur) < cur && Sibling(cur) in nodes
    ensures var p := Parent(cur);
            && First(p) < First(cur)
            && Rolling(nodes[p := Combine(p, nodes[Sibling(cur)], nodes[cur])], blocks, p, full)
  {
    hide At, First, End, Depth, Sibling, Parent;
    var p := Parent(cur);
    SiblingFacts(cur);
    ChildFacts(p);
    RangeNonEmpty(Left(p));
    RangeNonEmpty(p);
    AtUnfold(blocks, p);
    if full {
      forall i | End(i) == |blocks| && Depth(i) <= Depth(p)
        ensures i == p || i in nodes
      {
        RangeNonEmpty(i);
        if Depth(i) == Depth(p) {
          Nested(i, p, |blocks| - 1);
        }
      }
    }
  }

  lemma RollStop(nodes: map<nat, Node>, blocks: seq<Bytes>, cur: nat, full: bool)
    requires Rolling(nodes, blocks, cur, full) && (Sibling(cur) > cur || Sibling(cur) !in nodes)
    ensures full ==> Full(nodes, |blocks|)
  {
    hide At, First, End, Depth, Sibling, Parent, Left, Right;
    var p := Parent(cur);
    SiblingFacts(cur);
    ChildFacts(p);
    RangeNonEmpty(cur);
    RangeNonEmpty(Sibling(cur));
    if full {
      assert Sibling(cur) > cur;
      forall i | End(i) <= |blocks|
        ensures i in nodes
      {
        if End(i) == |blocks| && Depth(i) > Depth(cur) {
          RangeNonEmpty(i);
          Nested(cur, i, |blocks| - 1);
        }
      }
    }
  }

  // ---------------------------------------------------------------- prefixes

  lemma KeepPrefix(nodes: map<nat, Node>, blocks: seq<Bytes>, n: nat)
    requires Holds(nodes, blocks) && n <= |blocks|
    ensures var kept := Within(nodes, n);
            && Holds(kept, blocks[..n]) && (Full(nodes, |blocks|) ==> Full(kept, n))
  {
    hide At, End;
    var kept := Within(nodes, n);
    assert blocks[..n][..n] == blocks[..n];
    forall i | i in kept
      ensures End(i) <= n && kept[i] == At(blocks[..n], i)
    {
      AtPrefix(blocks, blocks[..n], n, i);
    }
  }

  /** The nodes that lie within the first `n` blocks. */
  function Within(nodes: map<nat, Node>, n: nat): map<nat, Node> {
    map i | i in nodes && End(i) <= n :: nodes[i]
  }

  /** Two lists agree on their first `n` blocks exactly when the prefix hashes agree. */
  lemma PrefixHashes(a: seq<Bytes>, b: seq<Bytes>, n: nat)
    requires n <= |a| && n <= |b|
    ensures RootHash(a[..n]) == RootHash(b[..n]) <==> a[..n] == b[..n]
  {
    hide RootHash;
    if RootHash(a[..n]) == RootHash(b[..n]) {
      RootHashCommits(a[..n], b[..n]);
    }
  }

  lemma ShorterPrefix<T>(a: seq<T>, b: seq<T>, m: nat, n: nat)
    requires m <= n <= |a| && n <= |b| && a[..n] == b[..n]
    ensures a[..m] == b[..m]
  {
    assert a[..n][..m] == a[..m] && b[..n][..m] == b[..m];
  }

  /** Adopting a full tree over the nodes of a shared prefix leaves exactly the full tree. */
  lemma Adopts(mine: map<nat, Node>, theirs: map<nat, Node>, prefix: seq<Bytes>, blocks: seq<Bytes>)
    requires Holds(mine, prefix) && Holds(theirs, blocks) && prefix <= blocks
    ensures Holds(mine + theirs, blocks)
    ensures Full(theirs, |blocks|) ==> mine + theirs == theirs
  {
    hide At, End;
    assert prefix[..|prefix|] == prefix == blocks[..|prefix|];
    forall i | i in mine
      ensures End(i) <= |blocks| && mine[i] == At(blocks, i)
    {
      AtPrefix(prefix, blocks, |prefix|, i);
    }
  }

  // ---------------------------------------------------------------- seeking

  lemma {:induction false} BytesBefore(b: seq<Bytes>, i: nat)
    requires i % 2 == 1 && End(i) <= |b|
    ensures First(i) <= First(Right(i)) <= |b| && End(Left(i)) <= |b| && End(Right(i)) <= |b|
    ensures At(b, Left(i)).size == Total(b, First(i), First(Right(i)))
  {
    hide At, First, End, Left, Right, Depth;
    ChildFacts(i);
    RangeNonEmpty(Left(i));
    RangeNonEmpty(Right(i));
    SizeIs(b, Left(i));
  }

  class Tree {
    var nodes: map<nat, Node>
    var length: nat
    ghost var blocks: seq<Bytes>

    /** The stored nodes are nodes of the tree over `blocks`. */
    ghost predicate Valid()
      reads this
    {
      |blocks| == length && Holds(nodes, blocks)
    }

    /** No node the length implies is missing. */
    ghost predicate Intact()
      reads this
    {
      Full(nodes, length)
    }

    constructor ()
      ensures Valid() && Intact() && blocks == []
    {
      nodes, length, blocks := map[], 0, [];
      new;
      forall i
        ensures End(i) > 0
      {
        RangeNonEmpty(i);
      }
    }

    /** Append a block, rolling completed parents up. */
    method Append(data: Bytes) returns (block: nat)
      requires Valid()
      modifies this
      ensures Valid() && blocks == old(blocks) + [data] && block == |old(blocks)|
      ensures old(Intact()) ==> Intact()
    {
      hide Rolling, Holds, Full, At, Sibling, Parent, First, End;
      block := length;
      var cur: nat := block * 2;
      ghost var full := Intact();
      RollStart(nodes, blocks, data);
      nodes := nodes[cur := Leaf(block, data)];
      blocks := blocks + [data];
      while true
        invariant Rolling(nodes, blocks, cur, full)
        invariant blocks == old(blocks) + [data] && length == block == |old(blocks)|
        decreases First(cur)
      {
        RollingHas(nodes, blocks, cur, full);
        var sib := Sibling(cur);
        if sib > cur || sib !in nodes {
          break;
        }
        var left, right, p := nodes[sib], nodes[cur], Parent(cur);
        SiblingFacts(cur);
        RollStep(nodes, blocks, cur, full);
        nodes := nodes[p := Combine(p, left, right)];
        cur := p;
      }
      RollStop(nodes, blocks, cur, full);
      length := length + 1;
    }

    /** Rewind to the first `newLen` blocks; false, and nothing changes, if there are no more. */
    method Truncate(newLen: nat) returns (changed: bool)
      requires Valid()
      modifies this
      ensures Valid() && changed == (newLen < |old(blocks)|)
      ensures blocks == (if changed then old(blocks)[..newLen] else old(blocks))
      ensures old(Intact()) ==> Intact()
      ensures nodes == (if changed then Within(old(nodes), newLen) else old(nodes))
    {
      hide Holds, Full;
      if newLen >= length {
        return false;
      }
      KeepPrefix(nodes, blocks, newLen);
      nodes := Within(nodes, newLen);
      length := newLen;
      blocks := blocks[..newLen];
      return true;
    }

    /** The roots the tree would have at `len` blocks, unless one is missing. */
    function PrefixRoots(len: nat): (r: Option<seq<Node>>)
      requires Valid()
      reads this
      ensures r.Some? ==> len <= |blocks| && r.value == RootNodes(blocks[..len])
      ensures Intact() ==> (r.Some? <==> len <= |blocks|)
    {
      if len > length then None
      else
        GatheredRoots(nodes, blocks, len);
        Gather(nodes, Roots(len))
    }

    function PrefixRootHash(len: nat): (r: Option<Hash>)
      requires Valid()
      reads this
      ensures r.Some? ==> len <= |blocks| && r.value == RootHash(blocks[..len])
      ensures Intact() ==> (r.Some? <==> len <= |blocks|)
    {
      match PrefixRoots(len)
      case None => None
      case Some(roots) => Some(TreeHash(roots))
    }

    /** The prefix hashes agree; a gap reads as disagreement. */
    predicate AgreesAt(other: Tree, a: nat)
      requires Valid() && other.Valid()
      reads this, other
    {
      a == 0 || (PrefixRootHash(a).Some? && other.PrefixRootHash(a) == PrefixRootHash(a))
    }

    lemma AgreesIsEqual(other: Tree, a: nat)
      requires Valid() && other.Valid() && a <= |blocks| && a <= |other.blocks|
      ensures AgreesAt(other, a) ==> blocks[..a] == other.blocks[..a]
      ensures Intact() && other.Intact() && blocks[..a] == other.blocks[..a] ==> AgreesAt(other, a)
    {
      hide RootHash, PrefixRootHash, Valid, Intact;
      if a > 0 {
        PrefixHashes(blocks, other.blocks, a);
      }
    }

    /** Binary search for the longest common prefix. */
    method LowestCommonAncestor(other: Tree) returns (a: nat)
      requires Valid() && other.Valid()
      ensures a <= |blocks| && a <= |other.blocks| && blocks[..a] == other.blocks[..a]
      ensures Intact() && other.Intact() ==>
                forall k | a < k && k <= |blocks| && k <= |other.blocks| :: blocks[..k] != other.blocks[..k]
    {
      hide AgreesAt, Intact;
      var max: nat := if length < other.length then length else other.length;
      var lo: nat, hi: nat := 0, max;
      while lo < hi
        invariant lo <= hi <= max && blocks[..lo] == other.blocks[..lo]
        invariant Intact() && other.Intact() ==> forall k | hi < k <= max :: blocks[..k] != other.blocks[..k]
      {
        var mid := (lo + hi + 1) / 2;
        AgreesIsEqual(other, mid);
        if AgreesAt(other, mid) {
          lo := mid;
        } else {
          if Intact() && other.Intact() {
            forall k | mid <= k <= hi
              ensures blocks[..k] != other.blocks[..k]
            {
              if blocks[..k] == other.blocks[..k] {
                ShorterPrefix(blocks, other.blocks, mid, k);
              }
            }
          }
          hi := mid - 1;
        }
      }
      a := lo;
    }

    /** Follow `other` from the common ancestor. */
    method Reorg(other: Tree) returns (ancestors: nat)
      requires Valid() && other.Valid() && this != other
      modifies this
      ensures Valid() && blocks == other.blocks && length == other.length
      ensures ancestors <= |old(blocks)| && ancestors <= |blocks| && old(blocks)[..ancestors] == blocks[..ancestors]
      ensures old(Intact()) && other.Intact() ==>
                forall k | ancestors < k && k <= |old(blocks)| && k <= |blocks| :: old(blocks)[..k] != blocks[..k]
      ensures other.Intact() ==> Intact() && nodes == other.nodes
    {
      ancestors := LowestCommonAncestor(other);
      var _ := Truncate(ancestors);
      Adopts(nodes, other.nodes, blocks, other.blocks);
      nodes := nodes + other.nodes;
      length := other.length;
      blocks := other.blocks;
    }

    /** The current roots, unless one is missing. */
    function TryRoots(): (r: Option<seq<Node>>)
      requires Valid()
      reads this
      ensures r.Some? ==> r.value == RootNodes(blocks)
      ensures Intact() ==> r.Some?
    {
      assert blocks[..|blocks|] == blocks;
      PrefixRoots(length)
    }

    function CurrentRoots(): (r: seq<Node>)
      requires Valid() && Intact()
      reads this
      ensures r == RootNodes(blocks)
    {
      TryRoots().value
    }

    /** The block and offset a byte falls in, by descending the committed sizes. */
    method Seek(bytes: nat) returns (place: Place)
      requires Valid() && Intact()
      ensures place == Scan(blocks, 0, bytes)
    {
      hide At, Scan, Total, RootNodes, CurrentRoots, Holds, Full, First, End;
      var remaining: nat := bytes;
      var roots := CurrentRoots();
      ghost var at: nat := 0;
      RootTiling(blocks);
      assert roots[0..] == roots;
      TotalNone(blocks, 0);
      for k := 0 to |roots|
        invariant at <= |blocks| && NodesTile(blocks, roots[k..], at)
        invariant Scan(blocks, 0, bytes) == Scan(blocks, at, remaining)
      {
        var root := roots[k];
        TileStep(blocks, roots[k..], at);
        assert roots[k..][1..] == roots[k + 1..];
        if root.size > remaining {
          place := SeekDescend(root.index, remaining);
          return;
        }
        ScanSkips(blocks, at, End(root.index), remaining);
        remaining := remaining - root.size;
        at := End(root.index);
      }
      TileDone(blocks, roots[|roots|..], at, remaining);
      place := Place(length, remaining);
    }

    method SeekDescend(start: nat, offset: nat) returns (place: Place)
      requires Valid() && Intact() && End(start) <= |blocks| && offset < At(blocks, start).size
      ensures First(start) <= |blocks| && place == Scan(blocks, First(start), offset)
    {
      hide At, Scan, Total, First, End, Left, Right, Depth;
      var index: nat, bytes: nat := start, offset;
      RangeNonEmpty(start);
      while index % 2 == 1
        invariant First(start) <= |blocks| && End(index) <= |blocks| && First(index) <= |blocks|
        invariant bytes < At(blocks, index).size
        invariant Scan(blocks, First(start), offset) == Scan(blocks, First(index), bytes)
        decreases Depth(index)
      {
        ChildFacts(index);
        BytesBefore(blocks, index);
        AtUnfold(blocks, index);
        var l, r := Left(index), Right(index);
        var left := nodes[l];
        if left.size > bytes {
          index := l;
        } else {
          ScanSkips(blocks, First(index), First(r), bytes);
          bytes := bytes - left.size;
          index := r;
        }
      }
      ScanLeaf(blocks, index, bytes);
      place := Place(index / 2, bytes);
    }

    /** The siblings from `start` up to its root. */
    method PathOf(start: nat, roots: seq<Node>) returns (siblings: seq<Node>)
      requires Valid() && Intact() && End(start) <= |blocks| && roots == RootNodes(blocks)
      ensures siblings == Path(blocks, start)
    {
      hide At, First, End, Sibling, Parent, RootNodes, Holds, Full;
      var rootSet := set r | r in roots :: r.index;
      var cur: nat := start;
      siblings := [];
      while cur !in rootSet
        invariant End(cur) <= |blocks| && siblings + Path(blocks, cur) == Path(blocks, start)
        decreases |blocks| + First(cur) - End(cur)
      {
        RootSet(blocks, roots, cur);
        PathStep(blocks, cur);
        StoredAt(nodes, blocks, Sibling(cur));
        siblings := siblings + [nodes[Sibling(cur)]];
        cur := Parent(cur);
      }
      RootSet(blocks, roots, cur);
      PathEnds(blocks, cur);
    }

    /** An inclusion proof for `block`, which the verifier accepts. */
    method ProofOf(block: nat) returns (p: Option<Proof>)
      requires Valid() && Intact()
      ensures p.Some? <==> block < |blocks|
      ensures p.Some? ==> p.value.block == block && Includes(p.value, blocks[block], RootHash(blocks))
    {
      hide At, Path, RootNodes, Holds, Accepts, CurrentRoots;
      if block >= length {
        return None;
      }
      var roots := CurrentRoots();
      LeafAt(blocks, block);
      var siblings := PathOf(2 * block, roots);
      HonestIsAccepted(blocks, 2 * block);
      StoredAt(nodes, blocks, 2 * block);
      p := Some(Proof(block, nodes[2 * block].size, siblings, roots));
    }

    /** A seek proof for every byte of the log, accepted with the scan's answer. */
    method SeekProofFor(bytes: nat) returns (p: Option<SeekProof>)
      requires Valid() && Intact()
      ensures p.Some? <==> bytes < Total(blocks, 0, |blocks|)
      ensures p.Some? ==> p.value.bytes == bytes && Locates(p.value, RootHash(blocks)) == Some(Scan(blocks, 0, bytes))
    {
      hide At, Path, RootNodes, RootHash, Holds, Full, Locates, Scan, Total, First, End, CurrentRoots;
      var place := Seek(bytes);
      SeekProofAccepted(blocks, bytes);
      if place.block >= length {
        return None;
      }
      var roots := CurrentRoots();
      LeafAt(blocks, place.block);
      var siblings := PathOf(2 * place.block, roots);
      StoredAt(nodes, blocks, 2 * place.block);
      p := Some(SeekProof(bytes, nodes[2 * place.block], siblings, roots));
    }

    /** The indices the length implies and the map lacks, ascending. */
    method MissingNodes() returns (out: seq<nat>)
      requires Valid()
      ensures forall i :: i in out <==> End(i) <= length && i !in nodes
      ensures forall j, k :: 0 <= j < k < |out| ==> out[j] < out[k]
      ensures out == [] <==> Intact()
    {
      hide First, End, Holds;
      out := [];
      for i := 0 to 2 * length
        invariant forall j: nat :: j in out <==> j < i && End(j) <= length && j !in nodes
        invariant forall j, k :: 0 <= j < k < |out| ==> out[j] < out[k]
      {
        if End(i) <= length && i !in nodes {
          assert forall j :: 0 <= j < |out| ==> out[j] in out;
          out := out + [i];
        }
      }
      forall i: nat | End(i) <= length
        ensures i < 2 * length
      {
        IndexIs(i);
        RangeNonEmpty(i);
      }
      if out != [] {
        assert out[0] in out;
      }
    }

    /** Append unless nodes are missing. */
    method TryAppend(data: Bytes) returns (block: Option<nat>)
      requires Valid()
      modifies this
      ensures Valid() && (block.Some? <==> old(Intact()))
      ensures block.None? ==> blocks == old(blocks) && nodes == old(nodes)
      ensures block.Some? ==> block.value == |old(blocks)| && blocks == old(blocks) + [data] && Intact()
    {
      var missing := MissingNodes();
      if missing != [] {
        return None;
      }
      var b := Append(data);
      return Some(b);
    }

    method RemoveNode(index: nat) returns (present: bool)
      requires Valid()
      modifies this`nodes
      ensures Valid() && present == (index in old(nodes))
      ensures nodes == old(nodes) - {index}
    {
      hide At, End;
      present := index in nodes;
      nodes := nodes - {index};
    }

    /** Store a remotely proven node. Against the tree's own root hash only the true node is
        ever stored, so a recovery closes exactly one gap; a refused proof changes nothing. */
    method RecoverNode(proof: NodeProof, expectedRoot: Hash) returns (ok: bool)
      requires Valid()
      modifies this`nodes
      ensures ok <==> Accepts(proof.node, proof.siblings, proof.roots, expectedRoot)
      ensures !ok ==> nodes == old(nodes)
      ensures ok ==> nodes == old(nodes)[proof.node.index := proof.node]
      ensures expectedRoot == RootHash(blocks) ==> Valid()
    {
      hide At, End, Accepts, RootHash;
      var node := VerifyNodeProof(proof, expectedRoot);
      if node.None? {
        return false;
      }
      nodes := nodes[node.value.index := node.value];
      return true;
    }

    /** A proof of any stored node, unless something on its path is missing. */
    method NodeProofOf(index: nat) returns (p: Option<NodeProof>)
      requires Valid()
      ensures p.Some? ==> End(index) <= |blocks| && p.value.node == At(blocks, index)
      ensures p.Some? ==> Accepts(p.value.node, p.value.siblings, p.value.roots, RootHash(blocks))
      ensures Intact() ==> (p.Some? <==> End(index) <= |blocks|)
    {
      hide At, First, Sibling, Parent, RootNodes, Path, Accepts, PrefixRoots;
      if length == 0 || End(index) > length {
        RangeNonEmpty(index);
        return None;
      }
      if index !in nodes || TryRoots().None? {
        return None;
      }
      var roots := TryRoots().value;
      var rootSet := set r | r in roots :: r.index;
      var cur: nat := index;
      var siblings := [];
      while cur !in rootSet
        invariant End(cur) <= |blocks| && siblings + Path(blocks, cur) == Path(blocks, index)
        decreases |blocks| + First(cur) - End(cur)
      {
        RootSet(blocks, roots, cur);
        PathStep(blocks, cur);
        if Sibling(cur) !in nodes {
          return None;
        }
        siblings := siblings + [nodes[Sibling(cur)]];
        cur := Parent(cur);
      }
      RootSet(blocks, roots, cur);
      PathEnds(blocks, cur);
      assert siblings == Path(blocks, index);
      HonestIsAccepted(blocks, index);
      p := Some(NodeProof(nodes[index], siblings, roots));
    }
  }

  lemma RollingHas(nodes: map<nat, Node>, blocks: seq<Bytes>, cur: nat, full: bool)
    requires Rolling(nodes, blocks, cur, full)
    ensures Holds(nodes, blocks) && cur in nodes
  {
  }

  lemma StoredAt(nodes: map<nat, Node>, blocks: seq<Bytes>, i: nat)
    requires Holds(nodes, blocks) && Full(nodes, |blocks|) && End(i) <= |blocks|
    ensures i in nodes && nodes[i] == At(blocks, i)
  {
  }

  lemma RootSet(b: seq<Bytes>, roots: seq<Node>, i: nat)
    requires roots == RootNodes(b)
    ensures i in (set r | r in roots :: r.index) <==> IsRoot(|b|, i)
  {
    hide At, First, End, Parent, IsRoot, RootNodes, Roots;
    SameIndices(b, roots);
    RootsFacts(|b|);
    if i in (set r | r in roots :: r.index) {
      var r :| r in roots && r.index == i;
      var k :| 0 <= k < |roots| && roots[k] == r;
      assert Roots(|b|)[k] in Roots(|b|);
    }
    if IsRoot(|b|, i) {
      assert i in Roots(|b|);
      var k :| 0 <= k < |Roots(|b|)| && Roots(|b|)[k] == i;
      assert roots[k] in roots;
    }
  }

  lemma PathStep(b: seq<Bytes>, i: nat)
    requires End(i) <= |b| && !IsRoot(|b|, i)
    ensures End(Sibling(i)) <= |b| && End(Parent(i)) <= |b|
    ensures Path(b, i) == [At(b, Sibling(i))] + Path(b, Parent(i))
    ensures First(Parent(i)) - End(Parent(i)) < First(i) - End(i) <= 0
  {
    hide At, First, End, Sibling, Parent;
    InParent(i);
    Widens(i);
    RangeNonEmpty(i);
  }

  lemma PathEnds(b: seq<Bytes>, i: nat)
    requires End(i) <= |b| && IsRoot(|b|, i)
    ensures Path(b, i) == []
  {
  }

  lemma TotalNone(b: seq<Bytes>, k: nat)
    requires k <= |b|
    ensures Total(b, k, k) == 0
  {
  }

  lemma ScanLeaf(b: seq<Bytes>, i: nat, bytes: nat)
    requires i % 2 == 0 && End(i) <= |b| && bytes < At(b, i).size
    ensures First(i) <= |b| && Scan(b, First(i), bytes) == Place(i / 2, bytes)
  {
    LeafSize(b, i);
    LeafOf(i);
  }

  /** Nodes of `b` that cover `[at, |b|)` in order. */
  ghost predicate NodesTile(b: seq<Bytes>, roots: seq<Node>, at: nat) {
    if roots == [] then at == |b|
    else First(roots[0].index) == at && End(roots[0].index) <= |b| && roots[0] == At(b, roots[0].index)
         && NodesTile(b, roots[1..], End(roots[0].index))
  }

  lemma TileStep(b: seq<Bytes>, roots: seq<Node>, at: nat)
    requires roots != [] && at <= |b| && NodesTile(b, roots, at)
    ensures var r := roots[0];
            && First(r.index) == at <= End(r.index) <= |b| && r == At(b, r.index)
            && r.size == Total(b, at, End(r.index)) && NodesTile(b, roots[1..], End(r.index))
  {
    SizeIs(b, roots[0].index);
  }

  lemma TileDone(b: seq<Bytes>, roots: seq<Node>, at: nat, bytes: nat)
    requires roots == [] && at <= |b| && NodesTile(b, roots, at)
    ensures Scan(b, at, bytes) == Place(|b|, bytes)
  {
  }

  lemma RootTiling(b: seq<Bytes>)
    ensures NodesTile(b, RootNodes(b), 0)
  {
    hide At, First, End;
    RootsFacts(|b|);
    TilingOf(b, Roots(|b|), 0);
  }

  lemma {:induction false} TilingOf(b: seq<Bytes>, indices: seq<nat>, at: nat)
    requires Tiles(indices, at, |b|) && forall i :: i in indices ==> End(i) <= |b|
    ensures NodesTile(b, NodesAt(b, indices), at)
  {
    hide At, First, End;
    if indices != [] {
      TilingOf(b, indices[1..], End(indices[0]));
      assert NodesAt(b, indices)[1..] == NodesAt(b, indices[1..]);
    }
  }
}
