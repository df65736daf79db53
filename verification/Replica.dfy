/** The verify-only reader: blocks enter under a proof against a signed head, a longer head
    under an upgrade proof, and a rewritten history only through a higher fork. */
module Replica {
  import opened Prelude
  import opened Flat
  import opened Merkle
  import opened MerkleProof
  import opened MerkleTree
  import opened MerkleUpgrade
  import opened UpgradeVerifier
  import opened Hypercore

  /** Where the offered head is anchored: it shares the first `n` of `mine`. */
  ghost predicate Shares(mine: seq<Bytes>, n: nat, theirs: seq<Bytes>) {
    n <= |mine| && n <= |theirs| && mine[..n] == theirs[..n]
  }

  /** The stored bytes are the blocks. */
  ghost predicate Stores(store: map<nat, Bytes>, blocks: seq<Bytes>) {
    forall i :: 0 <= i < |blocks| ==> i in store && store[i] == blocks[i]
  }

  lemma StoresMore(store: map<nat, Bytes>, blocks: seq<Bytes>, enc: Bytes)
    requires Stores(store, blocks)
    ensures Stores(store[|blocks| := enc], blocks + [enc])
  {
  }

  /** What a tree with node map `nodes` and `length` saved for reopening. */
  datatype Saved = Saved(nodes: map<nat, Node>, length: nat, head: Option<SignedHead>)

  lemma {:induction false} ExtendOne(mine: seq<Bytes>, b: seq<Bytes>, data: Bytes)
    requires mine <= b && |mine| < |b| && b[|mine|] == data
    ensures mine + [data] <= b
  {
    assert b[..|mine| + 1] == b[..|mine|] + [b[|mine|]];
  }

  class Replica {
    const key: nat
    const tree: Tree
    var store: map<nat, Bytes>
    var head: Option<SignedHead>

    /** The tree is the tree over the stored blocks, and a verified head is signed and is the
        root of this replica's own prefix of that length. */
    ghost predicate Valid()
      reads this, tree
    {
      && tree.Valid() && tree.Intact()
      && Stores(store, tree.blocks)
      && (head.Some? ==> HeadHolds(head.value))
    }

    ghost predicate HeadHolds(h: SignedHead)
      reads this, tree
    {
      VerifySignedHead(key, h) && h.length <= |tree.blocks| && h.root == RootHash(tree.blocks[..h.length])
    }

    constructor (key: nat)
      ensures Valid() && this.key == key && fresh(tree) && tree.blocks == [] && head == None
    {
      this.key := key;
      tree := new Tree();
      store, head := map[], None;
    }

    /** Verify the next block against `h` and append it. An accepted block is the one every
        history with that root has there, so a prefix of that history stays a prefix; reaching
        its end makes `h` the verified head. A refused block changes nothing. */
    method AddBlock(h: SignedHead, index: nat, enc: Bytes, proof: Proof) returns (ok: bool)
      requires Valid()
      modifies this, tree
      ensures Valid()
      ensures ok <==> index == |old(tree.blocks)| && VerifyBlock(key, h, index, enc, proof)
      ensures !ok ==> tree.blocks == old(tree.blocks) && head == old(head) && store == old(store)
      ensures ok ==> tree.blocks == old(tree.blocks) + [enc] && store == old(store)[index := enc]
      ensures ok ==> head == (if |tree.blocks| == h.length && RootHash(tree.blocks) == h.root then Some(h) else old(head))
      ensures ok ==> Authentic(key, h)
      ensures ok ==> forall b :: RootHash(b) == h.root ==> index < |b| && b[index] == enc
      ensures ok ==> forall b :: RootHash(b) == h.root && |b| == h.length && old(tree.blocks) <= b ==>
                       tree.blocks <= b && (tree.blocks == b ==> head == Some(h))
    {
      hide RootHash, RootNodes, Holds, Full, Accepts, Stores, Authentic;
      if index != tree.length {
        return false;
      }
      if !VerifySignedHead(key, h) || proof.block != index {
        return false;
      }
      ok := Verify(proof, enc, h.root);
      if !ok {
        return;
      }
      VerifiedIsAuthentic(key, h);
      ghost var before := tree.blocks;
      StoresMore(store, tree.blocks, enc);
      store := store[index := enc];
      var _ := tree.Append(enc);
      var root := TreeHash(tree.CurrentRoots());
      HashOf(tree.blocks);
      assert head.Some? ==> tree.blocks[..head.value.length] == before[..head.value.length];
      assert tree.blocks[..|tree.blocks|] == tree.blocks;
      if tree.length == h.length && root == h.root {
        head := Some(h);
      }
      forall b | RootHash(b) == h.root && |b| == h.length && before <= b
        ensures tree.blocks <= b
      {
        ExtendOne(before, b, enc);
      }
    }

    /** Is `h` an append-only extension of this replica? Accepted only if signed and if every
        history with that root properly extends the blocks held. */
    method VerifyUpgradeTo(h: SignedHead, proof: UpgradeProof) returns (ok: bool)
      requires Valid()
      ensures ok ==> VerifySignedHead(key, h) && Authentic(key, h) && |tree.blocks| < h.length
      ensures ok ==> forall b :: RootHash(b) == h.root ==> tree.blocks < b && |b| == h.length
      ensures UpgradeOffered(h, proof) ==> ok
    {
      hide RootHash, RootNodes, Holds, Full, Extends, Log2, Authentic;
      if proof.oldLen != tree.length || proof.newLen != h.length || h.length <= tree.length || !VerifySignedHead(key, h) {
        return false;
      }
      VerifiedIsAuthentic(key, h);
      ok := UpgradeVerifier.VerifyUpgrade(proof, tree.CurrentRoots(), h.root);
    }

    /** A signed longer head with a proof that carries this replica's roots to it. */
    ghost predicate UpgradeOffered(h: SignedHead, proof: UpgradeProof)
      reads this, tree
    {
      && Log2(h.length) < 4096 && VerifySignedHead(key, h) && |tree.blocks| < h.length
      && proof.oldLen == |tree.blocks| && proof.newLen == h.length && Extends(proof, RootNodes(tree.blocks), h.root)
    }

    /** Should this replica follow `h` from its own first `ancestors` blocks? */
    method VerifyReorg(h: SignedHead, ancestors: nat, proof: Option<UpgradeProof>) returns (ok: bool)
      requires Valid()
      ensures ok ==> head.Some? && head.value.fork < h.fork && VerifySignedHead(key, h) && Authentic(key, h)
      ensures ok ==> ancestors <= |tree.blocks| && ancestors <= h.length
      ensures ok ==> forall b :: RootHash(b) == h.root && |b| == h.length ==> Shares(tree.blocks, ancestors, b)
      ensures ok && ancestors == h.length ==> RootHash(tree.blocks[..ancestors]) == h.root
      ensures forall b :: old(Offered(h, ancestors, proof, b)) ==> ok
    {
      hide RootHash, RootNodes, Holds, Full, Extends, Log2, Authentic;
      if head.None? {
        return false;
      }
      if h.fork <= head.value.fork {
        return false;
      }
      if !VerifySignedHead(key, h) {
        return false;
      }
      if ancestors > tree.length || ancestors > h.length {
        return false;
      }
      VerifiedIsAuthentic(key, h);
      if tree.PrefixRoots(ancestors).None? {
        assert false;
      }
      var anchor := tree.PrefixRoots(ancestors).value;
      if ancestors == h.length {
        ok := tree.PrefixRootHash(ancestors) == Some(h.root);
        forall b | ok && RootHash(b) == h.root && |b| == h.length
          ensures Shares(tree.blocks, ancestors, b)
        {
          RootHashCommits(tree.blocks[..ancestors], b);
          assert b[..ancestors] == b;
        }
        forall b | Offered(h, ancestors, proof, b)
          ensures ok
        {
          assert b[..ancestors] == b;
        }
      } else if ancestors == 0 {
        ok := true;
      } else if proof.None? || proof.value.oldLen != ancestors || proof.value.newLen != h.length {
        ok := false;
      } else {
        ok := UpgradeVerifier.VerifyUpgrade(proof.value, anchor, h.root);
        forall b | ok && RootHash(b) == h.root
          ensures Shares(tree.blocks, ancestors, b)
        {
          assert tree.blocks[..ancestors] < b;
        }
        forall b | Offered(h, ancestors, proof, b)
          ensures ok
        {
        }
      }
    }

    /** The writer's offer of `b` from a shared prefix: a higher fork, its signature, and an
        upgrade proof built from `b` unless the prefix is empty or all of `b`. */
    ghost predicate Offered(h: SignedHead, ancestors: nat, proof: Option<UpgradeProof>, b: seq<Bytes>)
      reads this, tree
    {
      && head.Some? && head.value.fork < h.fork && h == SignHead(key, h.fork, b) && Log2(|b|) < 4096
      && Shares(tree.blocks, ancestors, b)
      && (0 < ancestors < |b| ==>
          && proof.Some? && proof.value.oldLen == ancestors && proof.value.newLen == |b|
          && Extends(proof.value, RootNodes(b[..ancestors]), RootHash(b)))
    }

    /** Follow a reorg: keep the shared prefix and drop the rest. */
    method Reorg(h: SignedHead, ancestors: nat, proof: Option<UpgradeProof>) returns (ok: bool)
      requires Valid()
      modifies this, tree
      ensures Valid() && store == old(store)
      ensures !ok ==> tree.blocks == old(tree.blocks) && head == old(head) && tree.nodes == old(tree.nodes)
      ensures ok ==> ancestors <= |old(tree.blocks)| && tree.blocks == old(tree.blocks)[..ancestors]
      ensures ok ==> Authentic(key, h) && old(head.Some?) && old(head.value).fork < h.fork
      ensures ok ==> forall b :: RootHash(b) == h.root && |b| == h.length ==> tree.blocks <= b
      ensures ok ==> head == if ancestors == h.length then Some(h) else None
      ensures forall b :: old(Offered(h, ancestors, proof, b)) ==> ok
    {
      hide RootHash, RootNodes, Holds, Full, Extends, Log2, Authentic;
      ok := VerifyReorg(h, ancestors, proof);
      if !ok {
        return;
      }
      ghost var before := tree.blocks;
      var _ := tree.Truncate(ancestors);
      HashOf(tree.blocks);
      assert before[..|before|] == before;
      assert tree.blocks == before[..ancestors];
      assert tree.blocks[..|tree.blocks|] == tree.blocks;
      if tree.length == h.length && TreeHash(tree.CurrentRoots()) == h.root {
        head := Some(h);
      } else {
        head := None;
      }
    }

    /** What is saved for reopening. */
    function Persisted(): Saved
      reads this, tree
    {
      Saved(tree.nodes, tree.length, head)
    }

    /** Pick up saved state as it is; over genuine state that makes a valid replica. */
    constructor Resume(key: nat, store: map<nat, Bytes>, saved: Saved, ghost blocks: seq<Bytes>)
      ensures this.key == key && fresh(tree) && head == saved.head && this.store == store
      ensures tree.nodes == saved.nodes && tree.length == saved.length && tree.blocks == blocks
    {
      this.key, this.store, this.head := key, store, saved.head;
      var t := new Tree();
      t.nodes, t.length, t.blocks := saved.nodes, saved.length, blocks;
      tree := t;
    }
  }

  /** Each block of `suffix` comes with a proof of it as the block of `b` after the first `n`. */
  ghost predicate Served(h: SignedHead, n: nat, suffix: seq<Bytes>, proofs: seq<Proof>, b: seq<Bytes>) {
    && |proofs| == |suffix| && n + |suffix| == |b|
    && forall k :: 0 <= k < |suffix| ==> suffix[k] == b[n + k] && proofs[k].block == n + k && Includes(proofs[k], suffix[k], h.root)
  }

  lemma ServedAt(h: SignedHead, n: nat, suffix: seq<Bytes>, proofs: seq<Proof>, b: seq<Bytes>, k: nat)
    requires Served(h, n, suffix, proofs, b) && k < |suffix|
    ensures proofs[k].block == n + k && Includes(proofs[k], suffix[k], h.root)
  {
  }

  /** Fetch the rest of a history the replica holds a prefix of, block by block against `h`. If
      all are accepted and none is left, the replica holds exactly that history, verified; and
      every block the writer serves is accepted. */
  method Refetch(r: Replica, h: SignedHead, suffix: seq<Bytes>, proofs: seq<Proof>, ghost b: seq<Bytes>) returns (ok: bool)
    requires r.Valid() && r.tree.blocks <= b && RootHash(b) == h.root && |b| == h.length && |proofs| == |suffix|
    modifies r, r.tree
    ensures r.Valid() && r.tree.blocks <= b
    ensures ok ==> r.tree.blocks == old(r.tree.blocks) + suffix
    ensures ok && |old(r.tree.blocks)| + |suffix| == |b| ==> r.tree.blocks == b && (suffix != [] ==> r.head == Some(h))
    ensures VerifySignedHead(r.key, h) && Served(h, |old(r.tree.blocks)|, suffix, proofs, b) ==> ok
  {
    hide RootHash, Includes, Holds, Full, Served;
    ghost var n := |r.tree.blocks|;
    ghost var before := r.tree.blocks;
    for k := 0 to |suffix|
      invariant r.Valid() && r.tree.blocks <= b && r.tree.blocks == before + suffix[..k]
      invariant k > 0 && n + k == |b| ==> r.head == Some(h)
    {
      var index := r.tree.length;
      assert suffix[..k + 1] == suffix[..k] + [suffix[k]];
      assert before + suffix[..k + 1] == before + suffix[..k] + [suffix[k]];
      if Served(h, n, suffix, proofs, b) {
        ServedAt(h, n, suffix, proofs, b, k);
      }
      ok := r.AddBlock(h, index, suffix[k], proofs[k]);
      if !ok {
        return;
      }
    }
    assert suffix[..|suffix|] == suffix;
    ok := true;
  }

  datatype OpenResult = Opened(replica: Replica) | NotPersisted | Corrupt | RootMissing

  /** The saved state is that of a replica of `blocks`. */
  ghost predicate Genuine(saved: Saved, store: map<nat, Bytes>, blocks: seq<Bytes>) {
    Holds(saved.nodes, blocks) && Full(saved.nodes, |blocks|) && saved.length == |blocks| && Stores(store, blocks)
  }

  /** The saved tree cut back to the saved head. */
  function CutBack(saved: Saved): Saved {
    if saved.head.Some? && saved.length > saved.head.value.length then
      saved.(nodes := Within(saved.nodes, saved.head.value.length), length := saved.head.value.length)
    else saved
  }

  /** The head can be checked against a saved tree, and is signed. */
  ghost predicate Checkable(key: nat, saved: Saved) {
    saved.head.Some? && VerifySignedHead(key, saved.head.value) && saved.head.value.length <= saved.length
  }

  ghost function SavedRoots(saved: Saved): Option<seq<Node>> {
    Gather(CutBack(saved).nodes, Roots(CutBack(saved).length))
  }

  /** Reopen whatever was saved. A head this key did not sign, or that is not the saved tree's, is
      refused, and a tree that lacks one of its roots cannot be checked; a replica that opens with
      a head has the roots of the history the head states. Of state a replica saved, all of it is
      that history's, back to the verified head. */
  method Open(key: nat, store: map<nat, Bytes>, saved: Option<Saved>, ghost blocks: seq<Bytes>) returns (r: OpenResult)
    ensures r.NotPersisted? <==> saved.None?
    ensures r.RootMissing? <==> saved.Some? && Checkable(key, saved.value) && SavedRoots(saved.value).None?
    ensures r.Opened? <==> saved.Some? && (saved.value.head.Some? ==>
              && Checkable(key, saved.value) && SavedRoots(saved.value).Some?
              && TreeHash(SavedRoots(saved.value).value) == saved.value.head.value.root)
    ensures r.Opened? ==> fresh(r.replica) && fresh(r.replica.tree) && r.replica.key == key
    ensures r.Opened? ==> r.replica.Persisted() == CutBack(saved.value) && r.replica.store == store
    ensures r.Opened? && saved.value.head.Some? ==> Authentic(key, saved.value.head.value)
    ensures r.Opened? && saved.value.head.Some? ==>
              forall b :: RootHash(b) == saved.value.head.value.root ==>
                Gather(r.replica.tree.nodes, Roots(r.replica.tree.length)) == Some(RootNodes(b))
    ensures saved.Some? && Genuine(saved.value, store, blocks) ==>
              (r.Opened? <==> saved.value.head.Some? ==> Acceptable(key, saved.value.head.value, blocks))
    ensures r.Opened? && Genuine(saved.value, store, blocks) ==>
              r.replica.Valid() && r.replica.tree.blocks == Resumed(saved.value.head, blocks)
  {
    hide RootHash, Holds, Full, RootNodes, Roots, Gather, Stores, Within, Authentic;
    if saved.None? {
      return NotPersisted;
    }
    var state := CutBack(saved.value);
    if Genuine(saved.value, store, blocks) {
      CutIsGenuine(key, saved.value, store, blocks);
    }
    if state.head.Some? {
      var h := state.head.value;
      if !VerifySignedHead(key, h) || state.length != h.length {
        return Corrupt;
      }
      VerifiedIsAuthentic(key, h);
      var roots := Gather(state.nodes, Roots(state.length));
      if roots.None? {
        return RootMissing;
      }
      if TreeHash(roots.value) != h.root {
        return Corrupt;
      }
      forall b | RootHash(b) == h.root
        ensures Some(RootNodes(b)) == roots
      {
        HashOf(b);
      }
    }
    var replica := new Replica.Resume(key, store, state, Resumed(saved.value.head, blocks));
    r := Opened(replica);
  }

  /** What a replica of `blocks` saved, cut back to its head: the tree over the blocks left. */
  lemma CutIsGenuine(key: nat, saved: Saved, store: map<nat, Bytes>, blocks: seq<Bytes>)
    requires Genuine(saved, store, blocks)
    ensures var state, left := CutBack(saved), Resumed(saved.head, blocks);
            && Genuine(state, store, left) && SavedRoots(saved) == Some(RootNodes(left))
            && TreeHash(RootNodes(left)) == RootHash(left)
            && (saved.head.Some? && saved.head.value.length <= |blocks| ==> left == blocks[..saved.head.value.length])
            && left[..|left|] == left
  {
    hide RootHash, RootNodes, Roots, Gather, Holds, Full;
    var left := Resumed(saved.head, blocks);
    assert left[..|left|] == left && blocks[..|blocks|] == blocks;
    if saved.head.Some? && saved.length > saved.head.value.length {
      KeepPrefix(saved.nodes, blocks, saved.head.value.length);
    }
    GatheredRoots(CutBack(saved).nodes, left, |left|);
    HashOf(left);
  }

  /** The blocks a reopened replica has: those under its head. */
  ghost function Resumed(head: Option<SignedHead>, blocks: seq<Bytes>): seq<Bytes> {
    if head.Some? && head.value.length <= |blocks| then blocks[..head.value.length] else blocks
  }

  /** What a replica saves always reopens under its key. */
  lemma PersistedOpens(r: Replica)
    requires r.Valid()
    ensures var s := r.Persisted();
            Genuine(s, r.store, r.tree.blocks) && (s.head.Some? ==> Acceptable(r.key, s.head.value, r.tree.blocks))
  {
  }

  /** A saved head can be reopened under `key` exactly when this key signed it and it is the
      root of the saved blocks at its length. */
  ghost predicate Acceptable(key: nat, h: SignedHead, blocks: seq<Bytes>) {
    VerifySignedHead(key, h) && h.length <= |blocks| && h.root == RootHash(blocks[..h.length])
  }

  lemma HashOf(b: seq<Bytes>)
    ensures TreeHash(RootNodes(b)) == RootHash(b)
  {
  }
}
