/** The upgrade proof's verifier and generator as they run: passes over a growing map of known
    nodes, and a walk down from the new roots. */
module UpgradeVerifier {
  import opened Prelude
  import opened Flat
  import opened Merkle
  import opened MerkleProof
  import opened MerkleTree
  import opened MerkleUpgrade

  /** The verifier gives up after this many passes. */
  const MAX_PASSES: nat := 4096

  // ---------------------------------------------------------------- the climbing passes

  /** What is known is derived from the seeds, and includes them. */
  ghost predicate Derived(known: map<nat, Node>, seeds: map<nat, Node>) {
    && (forall i :: i in seeds ==> i in known)
    && (forall i :: i in known ==> Derive(seeds, i) == Some(known[i]))
  }

  /** Two known siblings above depth `g` have a known parent. */
  ghost predicate ClosedBelow(known: map<nat, Node>, g: nat) {
    forall c :: c in known && Sibling(c) in known && Depth(c) < g ==> Parent(c) in known
  }

  ghost predicate Closed(known: map<nat, Node>) {
    forall c :: c in known && Sibling(c) in known ==> Parent(c) in known
  }

  ghost predicate Reaches(known: map<nat, Node>, depth: nat) {
    exists i :: i in known && Depth(i) >= depth
  }

  lemma ParentDerived(known: map<nat, Node>, seeds: map<nat, Node>, c: nat)
    requires Derived(known, seeds) && c in known && Sibling(c) in known && Parent(c) !in known
    ensures var p := Parent(c);
            Derived(known[p := if Sibling(c) < c then Combine(p, known[Sibling(c)], known[c])
                               else Combine(p, known[c], known[Sibling(c)])], seeds)
  {
    hide Depth, Sibling, Parent, Left, Right;
    SiblingFacts(c);
  }

  lemma {:induction false} ClosedDerives(known: map<nat, Node>, seeds: map<nat, Node>, i: nat)
    requires Derived(known, seeds) && Closed(known) && Derive(seeds, i).Some?
    ensures i in known
    decreases Depth(i)
  {
    hide Sibling, Parent, Left, Right, Depth;
    if i !in seeds {
      ChildFacts(i);
      ClosedDerives(known, seeds, Left(i));
      ClosedDerives(known, seeds, Right(i));
    }
  }

  /** While a pass over the keys of `before` runs with `todo` left. */
  ghost predicate Passing(before: map<nat, Node>, known: map<nat, Node>, todo: set<nat>, changed: bool, g: nat) {
    && todo <= before.Keys
    && (forall i :: i in before ==> i in known && known[i] == before[i])
    && (forall i :: i in known && i !in before ==> Depth(i) > g)
    && (forall c :: c in before && c !in todo && Sibling(c) in before ==> Parent(c) in known)
    && (!changed ==> known == before)
    && (changed ==> Reaches(known, g + 1))
  }

  lemma PassStep(before: map<nat, Node>, known: map<nat, Node>, todo: set<nat>, changed: bool, g: nat, c: nat, n: Node)
    requires Passing(before, known, todo, changed, g) && ClosedBelow(before, g) && c in todo
    ensures Sibling(c) !in known || Parent(c) in known ==> Passing(before, known, todo - {c}, changed, g)
    ensures Sibling(c) in known && Parent(c) !in known ==> Passing(before, known[Parent(c) := n], todo - {c}, true, g)
  {
    hide Depth, Sibling, Parent;
    SiblingFacts(c);
    var p := Parent(c);
    if Sibling(c) in known && p !in known {
      var next := known[p := n];
      assert Depth(p) > g;
      assert p in next && Depth(p) >= g + 1;
    }
  }

  lemma PassDone(before: map<nat, Node>, known: map<nat, Node>, changed: bool, g: nat)
    requires Passing(before, known, {}, changed, g)
    ensures ClosedBelow(known, g + 1) && (!changed ==> Closed(known)) && (changed ==> Reaches(known, g + 1))
  {
    hide Depth, Sibling, Parent;
    forall c | c in known && Sibling(c) in known && Depth(c) < g + 1
      ensures Parent(c) in known
    {
      SiblingFacts(c);
    }
  }

  lemma PassingHas(before: map<nat, Node>, known: map<nat, Node>, todo: set<nat>, changed: bool, g: nat, c: nat)
    requires Passing(before, known, todo, changed, g) && c in todo
    ensures c in known
  {
  }

  /** One pass over the keys known at its start, in any order. */
  method Pass(before: map<nat, Node>, ghost seeds: map<nat, Node>, ghost g: nat)
    returns (known: map<nat, Node>, changed: bool)
    requires Derived(before, seeds) && ClosedBelow(before, g)
    ensures Derived(known, seeds) && ClosedBelow(known, g + 1)
    ensures (!changed ==> Closed(known)) && (changed ==> Reaches(known, g + 1))
  {
    hide Derived, ClosedBelow, Closed, Reaches, Passing, Sibling, Parent, Depth;
    known, changed := before, false;
    var todo := before.Keys;
    PassStart(before, g);
    while todo != {}
      invariant Derived(known, seeds) && Passing(before, known, todo, changed, g)
      decreases |todo|
    {
      var c :| c in todo;
      PassingHas(before, known, todo, changed, g, c);
      var sib, p := Sibling(c), Parent(c);
      if sib in known && p !in known {
        var cn, sn := known[c], known[sib];
        var node := if sib < c then Combine(p, sn, cn) else Combine(p, cn, sn);
        ParentDerived(known, seeds, c);
        PassStep(before, known, todo, changed, g, c, node);
        known := known[p := node];
        changed := true;
      } else {
        PassStep(before, known, todo, changed, g, c, known[c]);
      }
      todo := todo - {c};
    }
    PassDone(before, known, changed, g);
  }

  lemma PassStart(before: map<nat, Node>, g: nat)
    ensures Passing(before, before, before.Keys, false, g)
  {
  }

  // ---------------------------------------------------------------- the pass limit

  lemma {:induction false} DeriveWithin(seeds: map<nat, Node>, n: nat, i: nat)
    requires (forall k :: k in seeds ==> End(k) <= n) && Derive(seeds, i).Some?
    ensures End(i) <= n
    decreases Depth(i)
  {
    hide First, End, Left, Right, Depth;
    if i !in seeds {
      ChildFacts(i);
      DeriveWithin(seeds, n, Right(i));
    }
  }

  lemma DepthWithin(i: nat, n: nat)
    requires End(i) <= n
    ensures Depth(i) <= Log2(n)
  {
    hide Log2;
    Log2Bounds(n);
    Pow2Less(Depth(i), Log2(n) + 1);
  }

  lemma ReachLimit(known: map<nat, Node>, seeds: map<nat, Node>, n: nat, g: nat)
    requires Derived(known, seeds) && (forall k :: k in seeds ==> End(k) <= n) && Reaches(known, g)
    ensures g <= Log2(n)
  {
    hide End, Log2, Derive, Depth;
    var i :| i in known && Depth(i) >= g;
    DeriveWithin(seeds, n, i);
    DepthWithin(i, n);
  }

  lemma Pow8()
    ensures Pow2(8) == 0x100
  {
  }

  lemma Pow64()
    ensures Pow2(64) == 0x1_0000_0000_0000_0000
  {
    hide Pow2;
    Pow8();
    Pow2Sum(8, 8);
    Pow2Sum(16, 16);
    Pow2Sum(32, 32);
  }

  /** Every block count that fits a 64-bit word is far within the pass limit. */
  lemma LengthFits(n: nat)
    requires n < 0x1_0000_0000_0000_0000
    ensures Log2(n) < 64
  {
    if n > 0 {
      Log2Bounds(n);
      hide Log2, Pow2;
      Pow64();
      Pow2Less(Log2(n), 64);
    }
  }

  /** Pass until nothing changes; gives up only if more levels are needed than passes allowed. */
  method Saturate(seeds: map<nat, Node>, ghost n: nat) returns (known: Option<map<nat, Node>>)
    requires forall k :: k in seeds ==> End(k) <= n
    ensures known.Some? ==> Derived(known.value, seeds) && Closed(known.value)
    ensures Log2(n) < 4096 ==> known.Some?
  {
    hide ClosedBelow, Closed, Reaches, End, Log2;
    var m: map<nat, Node> := seeds;
    var changed, guard := true, 0;
    SeedsDerived(seeds);
    while changed
      invariant 0 <= guard <= MAX_PASSES && Derived(m, seeds)
      invariant changed ==> ClosedBelow(m, guard) && (guard > 0 ==> Reaches(m, guard))
      invariant !changed ==> Closed(m)
      decreases changed, MAX_PASSES - guard
    {
      guard := guard + 1;
      if guard > MAX_PASSES {
        ReachLimit(m, seeds, n, guard - 1);
        return None;
      }
      m, changed := Pass(m, seeds, guard - 1);
    }
    known := Some(m);
  }

  lemma SeedsDerived(seeds: map<nat, Node>)
    ensures Derived(seeds, seeds) && ClosedBelow(seeds, 0)
  {
  }

  // ---------------------------------------------------------------- the verifier

  method IndexRoots(roots: seq<Node>) returns (m: map<nat, Node>)
    ensures m == IndexedBy(roots, map[])
  {
    m := map[];
    for k := 0 to |roots|
      invariant IndexedBy(roots[k..], m) == IndexedBy(roots, map[])
    {
      assert roots[k..][0] == roots[k] && roots[k..][1..] == roots[k + 1..];
      m := m[roots[k].index := roots[k]];
    }
  }

  /** Fold in the supplied nodes, refusing any that is not fully new or is already known. */
  method FoldNew(p: UpgradeProof, known0: map<nat, Node>) returns (known: Option<map<nat, Node>>)
    ensures known.Some? <==> FullyNew(p.nodes, p.oldLen, p.newLen, known0)
    ensures known.Some? ==> known.value == IndexedBy(p.nodes, known0)
  {
    hide First, End;
    var m: map<nat, Node> := known0;
    for k := 0 to |p.nodes|
      invariant IndexedBy(p.nodes[k..], m) == IndexedBy(p.nodes, known0)
      invariant FullyNew(p.nodes[k..], p.oldLen, p.newLen, m) <==> FullyNew(p.nodes, p.oldLen, p.newLen, known0)
    {
      var n := p.nodes[k];
      assert p.nodes[k..][0] == n && p.nodes[k..][1..] == p.nodes[k + 1..];
      if First(n.index) < p.oldLen || End(n.index) > p.newLen {
        return None;
      }
      if n.index in m {
        return None;
      }
      m := m[n.index := n];
    }
    known := Some(m);
  }

  /** Collect the new roots, all of which must be known. */
  method NewRoots(known: map<nat, Node>, ghost seeds: map<nat, Node>, newLen: nat) returns (r: Option<seq<Node>>)
    requires Derived(known, seeds) && Closed(known)
    ensures r == DeriveAll(seeds, Roots(newLen))
  {
    hide Roots, Derive, Closed, Derived;
    var indices := FullRoots(newLen * 2);
    var roots := [];
    assert indices[0..] == indices && forall s: seq<Node> :: roots + s == s;
    for k := 0 to |indices|
      invariant DeriveAll(seeds, indices) == Prepend(roots, DeriveAll(seeds, indices[k..]))
    {
      var i := indices[k];
      assert indices[k..][0] == i && indices[k..][1..] == indices[k + 1..];
      KnownIsDerived(known, seeds, i);
      if i !in known {
        return None;
      }
      PrependOne(roots, known[i], DeriveAll(seeds, indices[k + 1..]));
      roots := roots + [known[i]];
    }
    r := Some(roots);
    assert roots + [] == roots;
  }

  ghost function Prepend(a: seq<Node>, b: Option<seq<Node>>): Option<seq<Node>> {
    if b.None? then None else Some(a + b.value)
  }

  lemma PrependOne(a: seq<Node>, n: Node, b: Option<seq<Node>>)
    ensures Prepend(a + [n], b) == Prepend(a, Prepend([n], b))
  {
    if b.Some? {
      assert a + [n] + b.value == a + ([n] + b.value);
    }
  }

  lemma KnownIsDerived(known: map<nat, Node>, seeds: map<nat, Node>, i: nat)
    requires Derived(known, seeds) && Closed(known)
    ensures if i in known then Derive(seeds, i) == Some(known[i]) else Derive(seeds, i).None?
  {
    hide Closed, Derive;
    if Derive(seeds, i).Some? {
      ClosedDerives(known, seeds, i);
    }
  }

  lemma SeedsWithin(p: UpgradeProof, oldRoots: seq<Node>)
    requires 0 < p.oldLen < p.newLen && Shaped(oldRoots, Roots(p.oldLen))
    requires FullyNew(p.nodes, p.oldLen, p.newLen, IndexedBy(oldRoots, map[]))
    ensures forall k :: k in Seeds(p, oldRoots) ==> End(k) <= p.newLen
  {
    hide Roots, FullyNew, IndexedBy, Parent, End, Seeds, SeedShape;
    SeedsShaped(p, oldRoots);
  }

  /** The supplied nodes lie past the old blocks, within the new ones, and are all different. */
  lemma {:induction false} NewNodes(nodes: seq<Node>, oldLen: nat, newLen: nat, known: map<nat, Node>)
    requires FullyNew(nodes, oldLen, newLen, known)
    ensures forall n :: n in nodes ==> First(n.index) >= oldLen && End(n.index) <= newLen && n.index !in known
    ensures forall j, k :: 0 <= j < k < |nodes| ==> nodes[j].index != nodes[k].index
    decreases |nodes|
  {
    hide First, End;
    if nodes != [] {
      NewNodes(nodes[1..], oldLen, newLen, known[nodes[0].index := nodes[0]]);
      assert forall k :: 0 < k < |nodes| ==> nodes[k] == nodes[1..][k - 1] && nodes[k] in nodes[1..];
    }
  }

  /** Verify that the proof extends the trusted `oldRoots` to a tree hashing to `root`. Whatever
      the proof carries, acceptance with the roots of `a` against the hash of `b` means `a` is
      a prefix of `b`. */
  method VerifyUpgrade(p: UpgradeProof, oldRoots: seq<Node>, root: Hash) returns (ok: bool)
    ensures ok ==> Extends(p, oldRoots, root)
    ensures Extends(p, oldRoots, root) && Log2(p.newLen) < 4096 ==> ok
    ensures ok ==> forall n :: n in p.nodes ==> First(n.index) >= p.oldLen && End(n.index) <= p.newLen
    ensures ok ==> forall j, k :: 0 <= j < k < |p.nodes| ==> p.nodes[j].index != p.nodes[k].index
    ensures ok ==> forall a, b :: RootNodes(a) == oldRoots && RootHash(b) == root ==> a < b && |a| == p.oldLen && |b| == p.newLen
  {
    hide Roots, FullyNew, IndexedBy, DeriveAll, Derived, Closed, Log2, RootNodes, RootHash, End;
    if p.oldLen == 0 || p.oldLen >= p.newLen {
      return false;
    }
    var expected := FullRoots(p.oldLen * 2);
    if |oldRoots| != |expected| || exists k :: 0 <= k < |oldRoots| && oldRoots[k].index != expected[k] {
      return false;
    }
    var known := IndexRoots(oldRoots);
    var seeds := FoldNew(p, known);
    if seeds.None? {
      return false;
    }
    SeedsWithin(p, oldRoots);
    NewNodes(p.nodes, p.oldLen, p.newLen, known);
    var all := Saturate(seeds.value, p.newLen);
    if all.None? {
      return false;
    }
    var roots := NewRoots(all.value, seeds.value, p.newLen);
    if roots.None? {
      return false;
    }
    ok := TreeHash(roots.value) == root;
    if ok {
      forall a, b | RootNodes(a) == oldRoots && RootHash(b) == root
        ensures a < b && |a| == p.oldLen && |b| == p.newLen
      {
        ExtendsIsPrefix(p, a, b);
      }
    }
  }

  // ---------------------------------------------------------------- the generator

  /** `after` names what `before` did and the largest subtrees past `old0` below `i`. */
  ghost predicate Gathered(before: map<nat, Node>, after: map<nat, Node>, i: nat, old0: nat) {
    forall k :: k in after <==> k in before || Largest(i, old0, k)
  }

  lemma GatheredHere(before: map<nat, Node>, i: nat, old0: nat, n: Node)
    ensures End(i) <= old0 ==> Gathered(before, before, i, old0)
    ensures First(i) >= old0 ==> Gathered(before, before[i := n], i, old0)
  {
    hide First, End, Largest;
    forall k
      ensures End(i) <= old0 ==> !Largest(i, old0, k)
      ensures First(i) >= old0 ==> (Largest(i, old0, k) <==> k == i)
    {
      if End(i) <= old0 {
        LargestNone(i, old0, k);
      }
      if First(i) >= old0 {
        LargestWhole(i, old0, k);
      }
    }
  }

  lemma GatheredBelow(before: map<nat, Node>, between: map<nat, Node>, after: map<nat, Node>, i: nat, old0: nat)
    requires i % 2 == 1 && First(i) < old0
    requires Gathered(before, between, Left(i), old0) && Gathered(between, after, Right(i), old0)
    ensures Gathered(before, after, i, old0)
  {
    hide First, End, Left, Right, Largest;
    ChildFacts(i);
    RangeNonEmpty(Left(i));
    RangeNonEmpty(Right(i));
    forall k
      ensures Largest(i, old0, k) <==> Largest(Left(i), old0, k) || Largest(Right(i), old0, k)
    {
      if old0 < End(i) {
        LargestSplit(i, old0, k);
      } else {
        LargestNone(i, old0, k);
        LargestNone(Left(i), old0, k);
        LargestNone(Right(i), old0, k);
      }
    }
  }

  /** Emit the largest subtrees past `old0` below `index`. */
  method CollectUpgrade(tree: Tree, index: nat, old0: nat, oldRootSet: set<nat>, out0: map<nat, Node>)
    returns (out: map<nat, Node>)
    requires tree.Valid() && tree.Intact() && End(index) <= tree.length
    requires forall i :: i in oldRootSet <==> IsRoot(old0, i)
    requires Holds(out0, tree.blocks)
    ensures Holds(out, tree.blocks) && Gathered(out0, out, index, old0)
    decreases Depth(index)
  {
    hide At, First, End, Parent, IsRoot, Left, Right, Depth, Gathered;
    if index % 2 == 1 {
      ChildFacts(index);
      RangeNonEmpty(Right(index));
    }
    RangeNonEmpty(index);
    GatheredHere(out0, index, old0, tree.nodes[index]);
    if End(index) <= old0 {
      if index !in oldRootSet && index % 2 == 1 {
        var left := CollectUpgrade(tree, Left(index), old0, oldRootSet, out0);
        out := CollectUpgrade(tree, Right(index), old0, oldRootSet, left);
        GatheredBelow(out0, left, out, index, old0);
        return;
      }
      return out0;
    }
    if First(index) >= old0 {
      return out0[index := tree.nodes[index]];
    }
    StraddleIsParent(index, old0);
    var left := CollectUpgrade(tree, Left(index), old0, oldRootSet, out0);
    out := CollectUpgrade(tree, Right(index), old0, oldRootSet, left);
    GatheredBelow(out0, left, out, index, old0);
  }

  /** The values of a map in key order. */
  method InOrder(m: map<nat, Node>, bound: nat) returns (nodes: seq<Node>)
    requires forall i :: i in m ==> i < bound && m[i].index == i
    ensures forall n :: n in nodes ==> n.index in m && m[n.index] == n
    ensures forall i :: i in m <==> Names(nodes, i)
    ensures forall j, k :: 0 <= j < k < |nodes| ==> nodes[j].index < nodes[k].index
  {
    nodes := [];
    for i := 0 to bound
      invariant forall n :: n in nodes ==> n.index < i && n.index in m && m[n.index] == n
      invariant forall k: nat :: k in m && k < i ==> m[k] in nodes
      invariant forall j, k :: 0 <= j < k < |nodes| ==> nodes[j].index < nodes[k].index
    {
      if i in m {
        assert forall j :: 0 <= j < |nodes| ==> nodes[j] in nodes;
        nodes := nodes + [m[i]];
      }
    }
    forall i: nat
      ensures i in m <==> Names(nodes, i)
    {
      if i in m {
        assert m[i] in nodes;
      }
    }
  }

  /** Build the upgrade proof from `old0` to `new0` blocks; the verifier accepts it with the
      tree's own roots at `old0`, against its root hash at `new0`. */
  method UpgradeProofOf(tree: Tree, old0: nat, new0: nat) returns (p: Option<UpgradeProof>)
    requires tree.Valid() && tree.Intact()
    ensures p.Some? <==> 0 < old0 < new0 <= |tree.blocks|
    ensures p.Some? ==> p.value.oldLen == old0 && p.value.newLen == new0 && Upgrades(p.value, tree.blocks)
    ensures p.Some? ==> forall j, k :: 0 <= j < k < |p.value.nodes| ==> p.value.nodes[j].index < p.value.nodes[k].index
    ensures p.Some? ==> Extends(p.value, RootNodes(tree.blocks[..old0]), RootHash(tree.blocks[..new0]))
  {
    hide At, First, End, Parent, IsRoot, Roots, Largest, Extends, RootNodes, RootHash, Full;
    if old0 == 0 || old0 >= new0 || new0 > tree.length {
      return None;
    }
    var oldRoots := FullRoots(old0 * 2);
    var oldRootSet := set i | i in oldRoots;
    RootsFacts(old0);
    var out: map<nat, Node> := map[];
    var newRoots := FullRoots(new0 * 2);
    RootsFacts(new0);
    for k := 0 to |newRoots|
      invariant Holds(out, tree.blocks)
      invariant forall i :: i in out <==> exists j :: 0 <= j < k && Largest(newRoots[j], old0, i)
    {
      assert newRoots[k] in newRoots;
      IsRootEnd(new0, newRoots[k]);
      out := CollectUpgrade(tree, newRoots[k], old0, oldRootSet, out);
    }
    BelowTwice(out, tree.blocks);
    var nodes := InOrder(out, 2 * tree.length);
    p := Some(UpgradeProof(old0, new0, nodes));
    forall i
      ensures Names(nodes, i) <==> exists r :: r in newRoots && Largest(r, old0, i)
    {
      if Names(nodes, i) {
        var j :| 0 <= j < |newRoots| && Largest(newRoots[j], old0, i);
        assert newRoots[j] in newRoots;
      }
    }
    UpgradeAccepted(p.value, tree.blocks);
  }

  lemma BelowTwice(m: map<nat, Node>, b: seq<Bytes>)
    requires Holds(m, b)
    ensures forall i :: i in m ==> i < 2 * |b| && m[i].index == i
  {
    hide At, First, End;
    forall i | i in m
      ensures i < 2 * |b|
    {
      IndexIs(i);
      RangeNonEmpty(i);
    }
  }
}
