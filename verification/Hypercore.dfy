/** The writer: a signed, append-only log with batches, truncation under a fork counter, sparse
    presence and prologue migration. */
module Hypercore {
  import opened Prelude
  import opened Merkle
  import opened MerkleProof
  import opened MerkleTree

  // ---------------------------------------------------------------- signed heads

  /** A signature, named by the key and the message it signs. */
  datatype Sig = Sig(key: nat, fork: nat, length: nat, root: Hash)

  datatype SignedHead = SignedHead(fork: nat, length: nat, root: Hash, sig: Sig)

  /** What a head commits to. */
  datatype Commitment = Commitment(fork: nat, blocks: seq<Bytes>)

  datatype ForkProof = ForkProof(index: nat, headA: SignedHead, dataA: Bytes, proofA: Proof,
                                 headB: SignedHead, dataB: Bytes, proofB: Proof)

  predicate VerifySignedHead(key: nat, h: SignedHead) {
    h.sig == Sig(key, h.fork, h.length, h.root)
  }

  function SignHead(key: nat, fork: nat, blocks: seq<Bytes>): SignedHead {
    SignedHead(fork, |blocks|, RootHash(blocks), Sig(key, fork, |blocks|, RootHash(blocks)))
  }

  predicate VerifyBlock(key: nat, h: SignedHead, index: nat, data: Bytes, proof: Proof) {
    VerifySignedHead(key, h) && proof.block == index && Includes(proof, data, h.root)
  }

  /** Two heads of one fork and length with different roots, both signed. */
  predicate ConflictingHeads(key: nat, a: SignedHead, b: SignedHead) {
    a.fork == b.fork && a.length == b.length && a.root != b.root && VerifySignedHead(key, a) && VerifySignedHead(key, b)
  }

  predicate VerifyForkProof(f: ForkProof, key: nat) {
    && f.headA.fork == f.headB.fork && VerifyBlock(key, f.headA, f.index, f.dataA, f.proofA)
    && VerifyBlock(key, f.headB, f.index, f.dataB, f.proofB) && f.dataA != f.dataB
  }

  // ---------------------------------------------------------------- what an honest writer signs

  /** Signed histories of one fork extend one another. */
  ghost predicate Coherent(signed: set<Commitment>) {
    forall c, d :: c in signed && d in signed && c.fork == d.fork ==> c.blocks <= d.blocks || d.blocks <= c.blocks
  }

  /** `h` states a history the writer signed. */
  ghost predicate Vouches(signed: set<Commitment>, h: SignedHead) {
    exists c :: c in signed && h.fork == c.fork && h.length == |c.blocks| && h.root == RootHash(c.blocks)
  }

  /** The record behind a log at `fork` with `blocks`: nothing signed above the fork, and what
      was signed at it is a prefix. */
  ghost predicate Record(signed: set<Commitment>, fork: nat, blocks: seq<Bytes>) {
    Coherent(signed) && forall c :: c in signed ==> c.fork <= fork && (c.fork == fork ==> c.blocks <= blocks)
  }

  /** Signing an extension at the same fork keeps the record. */
  lemma SignExtension(signed: set<Commitment>, fork: nat, before: seq<Bytes>, after: seq<Bytes>)
    requires Record(signed, fork, before) && before <= after
    ensures Record(signed, fork, after) && Record(signed + {Commitment(fork, after)}, fork, after)
  {
    forall c | c in signed && c.fork == fork
      ensures c.blocks <= after
    {
      PrefixTrans(c.blocks, before, after);
    }
  }

  /** Signing anything at the next fork keeps the record. */
  lemma SignFork(signed: set<Commitment>, fork: nat, before: seq<Bytes>, after: seq<Bytes>)
    requires Record(signed, fork, before)
    ensures Record(signed + {Commitment(fork + 1, after)}, fork + 1, after)
  {
  }

  /** The writer is the only one to sign under `key`: if the head carries a signature of that
      key, the writer made it, for some history it signed. */
  ghost predicate Unforged(signed: set<Commitment>, key: nat, h: SignedHead) {
    h.sig.key == key ==> exists c :: c in signed && h.sig == SignHead(key, c.fork, c.blocks).sig
  }

  /** A head that verifies states a history the writer signed: fork, length and root. */
  lemma VerifiedIsVouched(signed: set<Commitment>, key: nat, h: SignedHead)
    requires Unforged(signed, key, h) && VerifySignedHead(key, h)
    ensures Vouches(signed, h)
  {
    hide RootHash;
    var c :| c in signed && h.sig == SignHead(key, c.fork, c.blocks).sig;
  }

  /** Whatever the writer signed, if only it signs under `key`, it signed `h`. */
  ghost predicate Authentic(key: nat, h: SignedHead) {
    forall signed: set<Commitment> :: Unforged(signed, key, h) ==> Vouches(signed, h)
  }

  lemma VerifiedIsAuthentic(key: nat, h: SignedHead)
    requires VerifySignedHead(key, h)
    ensures Authentic(key, h)
  {
    hide Unforged, Vouches;
    forall signed: set<Commitment> | Unforged(signed, key, h)
      ensures Vouches(signed, h)
    {
      VerifiedIsVouched(signed, key, h);
    }
  }

  /** Two heads of one fork that an honest writer signed never conflict. */
  lemma HonestNeverConflicts(key: nat, signed: set<Commitment>, a: SignedHead, b: SignedHead)
    requires Coherent(signed) && Unforged(signed, key, a) && Unforged(signed, key, b)
    ensures !ConflictingHeads(key, a, b)
  {
    hide RootHash, Unforged;
    if VerifySignedHead(key, a) && VerifySignedHead(key, b) && a.fork == b.fork && a.length == b.length {
      VerifiedIsVouched(signed, key, a);
      VerifiedIsVouched(signed, key, b);
      var c :| c in signed && a.fork == c.fork && a.length == |c.blocks| && a.root == RootHash(c.blocks);
      var d :| d in signed && b.fork == d.fork && b.length == |d.blocks| && b.root == RootHash(d.blocks);
      assert c.blocks == d.blocks;
    }
  }

  /** No fork proof against an honest writer verifies, whatever it carries. */
  lemma HonestNeverForks(key: nat, signed: set<Commitment>, f: ForkProof)
    requires Coherent(signed) && Unforged(signed, key, f.headA) && Unforged(signed, key, f.headB)
    ensures !VerifyForkProof(f, key)
  {
    hide RootHash, Includes, Unforged;
    if VerifyForkProof(f, key) {
      VerifiedIsVouched(signed, key, f.headA);
      VerifiedIsVouched(signed, key, f.headB);
      var c :| c in signed && f.headA.fork == c.fork && f.headA.length == |c.blocks| && f.headA.root == RootHash(c.blocks);
      var d :| d in signed && f.headB.fork == d.fork && f.headB.length == |d.blocks| && f.headB.root == RootHash(d.blocks);
      IncludedIsBlock(f.proofA, f.dataA, c.blocks);
      IncludedIsBlock(f.proofB, f.dataB, d.blocks);
      assert false;
    }
  }

  /** Two histories of one fork that differ at a block both have: the two signed heads and
      accepted proofs of that block, whatever the lengths, are a fork proof. */
  lemma EquivocationIsCaught(key: nat, fork: nat, a: seq<Bytes>, b: seq<Bytes>, i: nat, p: Proof, q: Proof)
    requires i < |a| && i < |b| && a[i] != b[i]
    requires p.block == i && Includes(p, a[i], RootHash(a)) && q.block == i && Includes(q, b[i], RootHash(b))
    ensures VerifyForkProof(ForkProof(i, SignHead(key, fork, a), a[i], p, SignHead(key, fork, b), b[i], q), key)
  {
    hide RootHash, Includes;
  }

  /** Such a pair of proofs always exists. */
  lemma EquivocationHasProof(key: nat, fork: nat, a: seq<Bytes>, b: seq<Bytes>, i: nat)
    requires i < |a| && i < |b| && a[i] != b[i]
    ensures exists f: ForkProof :: VerifyForkProof(f, key)
                                   && f.headA == SignHead(key, fork, a) && f.headB == SignHead(key, fork, b)
  {
    hide RootHash, Includes;
    var p := BlockHasProof(a, i);
    var q := BlockHasProof(b, i);
    EquivocationIsCaught(key, fork, a, b, i, p, q);
  }

  /** Two different histories of one fork and length make conflicting heads, and only those do. */
  lemma ConflictIsCaught(key: nat, fork: nat, a: seq<Bytes>, b: seq<Bytes>)
    ensures ConflictingHeads(key, SignHead(key, fork, a), SignHead(key, fork, b)) <==> |a| == |b| && a != b
  {
    hide RootHash;
    if RootHash(a) == RootHash(b) {
      RootHashCommits(a, b);
    }
  }

  // ---------------------------------------------------------------- presence

  /** The blocks marked present are stored. */
  ghost predicate Present(presence: set<nat>, store: map<nat, Bytes>, blocks: seq<Bytes>) {
    forall i :: i in presence ==> i < |blocks| && i in store && store[i] == blocks[i]
  }

  lemma PresentMore(presence: set<nat>, store: map<nat, Bytes>, blocks: seq<Bytes>, bytes: Bytes)
    requires Present(presence, store, blocks)
    ensures Present(presence + {|blocks|}, store[|blocks| := bytes], blocks + [bytes])
  {
  }

  function Between(s: set<nat>, lo: nat, hi: nat): set<nat> {
    set k | k in s && lo <= k < hi
  }

  lemma BetweenNone(s: set<nat>, lo: nat)
    ensures Between(s, lo, lo) == {}
  {
  }

  lemma BetweenStep(s: set<nat>, store: map<nat, Bytes>, lo: nat, i: nat)
    requires lo <= i
    ensures var b, b' := Between(s, lo, i), Between(s, lo, i + 1);
            && (i in s <==> i in s - b) && (i !in s ==> b' == b)
            && (i in s ==> |b'| == |b| + 1 && s - b' == s - b - {i} && store - b' == store - b - {i})
  {
    if i in s {
      assert Between(s, lo, i + 1) == Between(s, lo, i) + {i};
      assert store - Between(s, lo, i + 1) == store - Between(s, lo, i) - {i};
    } else {
      assert Between(s, lo, i + 1) == Between(s, lo, i);
    }
  }

  lemma BetweenGone(s: set<nat>, left: set<nat>, lo: nat, hi: nat)
    requires left == s - Between(s, lo, hi)
    ensures s - left == Between(s, lo, hi)
    ensures forall i :: i in Between(s, lo, hi) <==> i in s && lo <= i < hi
  {
  }

  /** No block past the log is present, so stopping at its end loses nothing. */
  lemma BetweenAll(s: set<nat>, store: map<nat, Bytes>, blocks: seq<Bytes>, lo: nat, hi: nat, i: nat)
    requires Present(s, store, blocks) && i >= (if hi < |blocks| then hi else |blocks|) && lo <= i && (i <= hi || i == lo)
    ensures Between(s, lo, i) == Between(s, lo, hi)
  {
  }

  lemma PresentLess(presence: set<nat>, store: map<nat, Bytes>, blocks: seq<Bytes>, i: nat)
    requires Present(presence, store, blocks)
    ensures Present(presence - {i}, store - {i}, blocks)
  {
  }

  function Surviving(presence: set<nat>, n: nat): set<nat> {
    set i | i in presence && i < n
  }

  lemma PresentCut(presence: set<nat>, store: map<nat, Bytes>, blocks: seq<Bytes>, n: nat)
    requires Present(presence, store, blocks) && n <= |blocks|
    ensures Present(Surviving(presence, n), store, blocks[..n]) && forall i :: i in presence ==> i < |blocks|
  {
  }

  /** Writes past the log leave what is present. */
  lemma PresentKept(presence: set<nat>, store: map<nat, Bytes>, later: map<nat, Bytes>, blocks: seq<Bytes>)
    requires Present(presence, store, blocks)
    requires forall k :: k in store && k < |blocks| ==> k in later && later[k] == store[k]
    ensures Present(presence, later, blocks)
  {
  }

  /** Two stores agree but for `from <= k < end`. */
  ghost predicate SameOutside(a: map<nat, Bytes>, b: map<nat, Bytes>, from: nat, end: nat) {
    forall k :: k < from || end <= k ==> (k in a <==> k in b) && (k in a && k in b ==> a[k] == b[k])
  }

  lemma PresentBatch(presence: set<nat>, store: map<nat, Bytes>, blocks: seq<Bytes>, more: seq<Bytes>, all: set<nat>)
    requires Present(presence, store, blocks)
    requires forall k :: |blocks| <= k < |blocks| + |more| ==> k in store && store[k] == more[k - |blocks|]
    requires forall k :: k in all <==> k in presence || |blocks| <= k < |blocks| + |more|
    ensures Present(all, store, blocks + more)
  {
  }

  // ---------------------------------------------------------------- the writer

  datatype Batch = Batch(base: nat, encoded: seq<Bytes>)

  datatype Truncation = Truncation(start: nat, end: nat)

  datatype Prologue = Prologue(length: nat, hash: Hash)

  datatype CommitResult = Committed(length: nat) | Stale | StorageFailed

  datatype CopyResult = Copied(length: nat) | NoPrologue | PrologueMismatch

  class Core {
    const author: nat
    const tree: Tree
    const prologue: Option<Prologue>
    var store: map<nat, Bytes>
    var presence: set<nat>
    var head: Option<SignedHead>
    var fork: nat
    var lastTruncation: Option<Truncation>
    ghost var signed: set<Commitment>

    ghost predicate Valid()
      reads this, tree
    {
      && tree.Valid() && tree.Intact() && Record(signed, fork, tree.blocks)
      && Present(presence, store, tree.blocks)
      && (head.Some? ==> VerifySignedHead(author, head.value) && Vouches(signed, head.value))
    }

    /** The head is the signature of the log as it stands. */
    ghost predicate HeadCurrent()
      reads this, tree
    {
      if head.None? then tree.blocks == [] else head.value == SignHead(author, fork, tree.blocks)
    }

    /** The log still starts with what its prologue names. */
    ghost predicate KeepsPrologue()
      reads this, tree
    {
      prologue.Some? ==>
        prologue.value.length <= |tree.blocks| && RootHash(tree.blocks[..prologue.value.length]) == prologue.value.hash
    }

    constructor (author: nat, prologue: Option<Prologue>)
      ensures Valid() && HeadCurrent() && tree.blocks == [] && fresh(tree) && fork == 0
      ensures this.author == author && this.prologue == prologue && signed == {}
      ensures store == map[] && presence == {} && head == None && lastTruncation == None
    {
      this.author, this.prologue := author, prologue;
      tree := new Tree();
      store, presence, head, fork, lastTruncation, signed := map[], {}, None, 0, None, {};
    }

    /** Sign the tree as it stands. */
    method Resign()
      requires tree.Valid() && tree.Intact()
      modifies this`head, this`signed
      ensures head == Some(SignHead(author, fork, tree.blocks))
      ensures signed == old(signed) + {Commitment(fork, tree.blocks)}
    {
      hide RootNodes, Holds, Full;
      var length, root := tree.length, TreeHash(tree.CurrentRoots());
      head := Some(SignedHead(fork, length, root, Sig(author, fork, length, root)));
      signed := signed + {Commitment(fork, tree.blocks)};
    }

    lemma ResignedIsValid()
      requires tree.Valid() && tree.Intact() && Record(signed, fork, tree.blocks)
      requires Present(presence, store, tree.blocks)
      requires head == Some(SignHead(author, fork, tree.blocks)) && Commitment(fork, tree.blocks) in signed
      ensures Valid() && HeadCurrent()
    {
      hide RootHash, Holds, Full, Present;
      assert Vouches(signed, head.value);
    }

    /** Append a block; `fails` says the storage write failed, and then nothing changes. */
    method Append(bytes: Bytes, fails: bool) returns (index: Option<nat>)
      requires Valid()
      modifies this, tree
      ensures Valid() && fork == old(fork)
      ensures index.None? <==> fails
      ensures fails ==> tree.blocks == old(tree.blocks) && head == old(head) && signed == old(signed) && store == old(store)
      ensures !fails ==> index == Some(|old(tree.blocks)|) && tree.blocks == old(tree.blocks) + [bytes] && HeadCurrent()
      ensures !fails ==> signed == old(signed) + {Commitment(fork, tree.blocks)}
      ensures !fails ==> presence == old(presence) + {|old(tree.blocks)|} && lastTruncation == None
      ensures fails ==> presence == old(presence) && lastTruncation == old(lastTruncation)
      ensures old(KeepsPrologue()) ==> KeepsPrologue()
    {
      hide RootHash, Holds, Full, Record, SignHead, Vouches, Present;
      var i := tree.length;
      if fails {
        return None;
      }
      PresentMore(presence, store, tree.blocks, bytes);
      store := store[i := bytes];
      SignExtension(signed, fork, tree.blocks, tree.blocks + [bytes]);
      PrologueKept(tree.blocks, tree.blocks + [bytes]);
      var _ := tree.Append(bytes);
      presence := presence + {i};
      lastTruncation := None;
      Resign();
      ResignedIsValid();
      index := Some(i);
    }

    /** Store the blocks from index `start` on; a failed write (the one at `failAt`) deletes the
        ones before it. Nothing else changes. */
    method WriteAll(start: nat, encoded: seq<Bytes>, failAt: Option<nat>) returns (ok: bool)
      modifies this`store
      ensures ok <==> failAt.None? || failAt.value >= |encoded|
      ensures ok ==> forall k :: start <= k < start + |encoded| ==> k in store && store[k] == encoded[k - start]
      ensures !ok ==> forall k :: start <= k < start + failAt.value ==> k !in store
      ensures SameOutside(old(store), store, start, start + if ok then |encoded| else failAt.value)
    {
      for i := 0 to |encoded|
        invariant failAt.Some? ==> i <= failAt.value
        invariant SameOutside(old(store), store, start, start + i)
        invariant forall k :: start <= k < start + i ==> k in store && store[k] == encoded[k - start]
        modifies this`store
      {
        if failAt == Some(i) {
          for w := 0 to i
            invariant SameOutside(old(store), store, start, start + i)
            invariant forall k :: start <= k < start + w ==> k !in store
            modifies this`store
          {
            store := store - {start + w};
          }
          return false;
        }
        store := store[start + i := encoded[i]];
      }
      ok := true;
    }

    /** Apply a batch under one head. A failed write (the one at `failAt`) undoes the writes
        before it and leaves the log as it was; a stale batch changes nothing. */
    method Commit(batch: Batch, failAt: Option<nat>) returns (r: CommitResult)
      requires Valid()
      modifies this, tree
      ensures Valid() && fork == old(fork)
      ensures r.Stale? <==> batch.base != |old(tree.blocks)|
      ensures r.StorageFailed? <==> !r.Stale? && failAt.Some? && failAt.value < |batch.encoded|
      ensures !r.Committed? ==> tree.blocks == old(tree.blocks) && head == old(head) && signed == old(signed)
      ensures !r.Committed? ==> presence == old(presence) && tree.nodes == old(tree.nodes)
      ensures r.Stale? ==> store == old(store)
      ensures r.StorageFailed? ==> var n := |tree.blocks|;
                                   && SameOutside(old(store), store, n, n + failAt.value)
                                   && forall k :: n <= k < n + failAt.value ==> k !in store
      ensures r.Committed? ==> tree.blocks == old(tree.blocks) + batch.encoded && r.length == |tree.blocks|
      ensures r.Committed? && batch.encoded != [] ==> HeadCurrent() && signed == old(signed) + {Commitment(fork, tree.blocks)}
      ensures r.Committed? ==> forall k :: k in presence <==> k in old(presence) || |old(tree.blocks)| <= k < |tree.blocks|
      ensures lastTruncation == if r.Committed? && batch.encoded != [] then None else old(lastTruncation)
      ensures r.Committed? && batch.encoded == [] ==> head == old(head) && signed == old(signed)
      ensures old(KeepsPrologue()) ==> KeepsPrologue()
    {
      hide RootHash, Holds, Full, Record, SignHead, Vouches, Present;
      if batch.base != tree.length {
        return Stale;
      }
      if batch.encoded == [] {
        return Committed(tree.length);
      }
      var start := tree.length;
      var written := WriteAll(start, batch.encoded, failAt);
      if !written {
        PresentKept(presence, old(store), store, tree.blocks);
        return StorageFailed;
      }
      ghost var before := tree.blocks;
      PresentKept(presence, old(store), store, before);
      SignExtension(signed, fork, before, before + batch.encoded);
      PrologueKept(before, before + batch.encoded);
      assert batch.encoded[..0] == [];
      for i := 0 to |batch.encoded|
        invariant tree.Valid() && tree.Intact() && tree.blocks == before + batch.encoded[..i]
        invariant forall k :: k in presence <==> k in old(presence) || start <= k < start + i
        modifies tree, this`presence
      {
        assert batch.encoded[..i + 1] == batch.encoded[..i] + [batch.encoded[i]];
        var _ := tree.Append(batch.encoded[i]);
        presence := presence + {start + i};
      }
      assert batch.encoded[..|batch.encoded|] == batch.encoded;
      PresentBatch(old(presence), store, before, batch.encoded, presence);
      lastTruncation := None;
      Resign();
      ResignedIsValid();
      r := Committed(tree.length);
    }

    /** Rewind under the next fork; refused inside the prologue or when nothing would go. */
    method Truncate(newLen: nat) returns (t: Option<Truncation>)
      requires Valid()
      modifies this, tree
      ensures Valid()
      ensures t.Some? <==> newLen < |old(tree.blocks)| && (prologue.Some? ==> newLen >= prologue.value.length)
      ensures t.Some? ==> t.value == Truncation(|old(tree.blocks)|, newLen) && tree.blocks == old(tree.blocks)[..newLen]
      ensures t.Some? ==> fork == old(fork) + 1 && HeadCurrent() && signed == old(signed) + {Commitment(fork, tree.blocks)}
      ensures t.Some? ==> forall i :: i in presence <==> i in old(presence) && i < newLen
      ensures t.None? ==> tree.blocks == old(tree.blocks) && head == old(head) && fork == old(fork) && signed == old(signed)
      ensures t.None? ==> presence == old(presence)
      ensures store == old(store) && lastTruncation == if t.Some? then t else old(lastTruncation)
      ensures old(KeepsPrologue()) ==> KeepsPrologue()
    {
      hide RootHash, Holds, Full, Record, SignHead, Vouches, Present;
      var from := tree.length;
      if prologue.Some? && newLen < prologue.value.length {
        return None;
      }
      if prologue.Some? {
        assert newLen <= |tree.blocks| ==> tree.blocks[..newLen][..prologue.value.length] == tree.blocks[..prologue.value.length];
      }
      ghost var before := tree.blocks;
      var changed := tree.Truncate(newLen);
      if !changed {
        return None;
      }
      PresentCut(presence, store, before, newLen);
      presence := set i | i in presence && !(newLen <= i < from);
      assert presence == Surviving(old(presence), newLen);
      SignFork(signed, fork, before, tree.blocks);
      fork := fork + 1;
      t := Some(Truncation(from, newLen));
      lastTruncation := t;
      Resign();
      ResignedIsValid();
    }

    /** The bytes of a present block. */
    function Block(i: nat): (r: Option<Bytes>)
      requires Valid()
      reads this, tree
      ensures r.Some? <==> i in presence
      ensures r.Some? ==> i < |tree.blocks| && r.value == tree.blocks[i]
    {
      if i < tree.length && i in presence then Some(store[i]) else None
    }

    /** Drop the bytes of the present blocks in a range; the tree and head stay. */
    method Clear(start: nat, end: nat) returns (cleared: nat)
      requires Valid()
      modifies this`presence, this`store
      ensures Valid() && cleared == |old(presence) - presence|
      ensures forall i :: i in presence <==> i in old(presence) && !(start <= i < end)
      ensures forall i :: i in store <==> i in old(store) && !(i in old(presence) && start <= i < end)
      ensures forall i :: i in store ==> store[i] == old(store)[i]
    {
      hide RootHash, Holds, Full, Record, SignHead, Vouches, Present, Between;
      var stop := if end < tree.length then end else tree.length;
      cleared := 0;
      var i := start;
      BetweenNone(presence, start);
      assert store - {} == store && presence - {} == presence;
      while i < stop
        invariant start <= i && (i <= stop || i == start) && Present(presence, store, tree.blocks)
        invariant cleared == |Between(old(presence), start, i)| && presence == old(presence) - Between(old(presence), start, i)
        invariant store == old(store) - Between(old(presence), start, i)
        modifies this`presence, this`store
      {
        BetweenStep(old(presence), old(store), start, i);
        if i in presence {
          PresentLess(presence, store, tree.blocks, i);
          presence := presence - {i};
          store := store - {i};
          cleared := cleared + 1;
        }
        i := i + 1;
      }
      BetweenAll(old(presence), old(store), tree.blocks, start, end, i);
      BetweenGone(old(presence), presence, start, end);
    }

    /** Adopt the prologue's prefix from `source`. A source that lacks one of the blocks is
        noticed only on reaching it: the blocks before it stay appended, unsigned. */
    method CopyPrologue(source: Core) returns (r: CopyResult)
      requires Valid() && source.Valid() && this != source && tree != source.tree
      modifies this, tree
      ensures Valid() && fork == old(fork)
      ensures r.NoPrologue? <==> prologue.None?
      ensures r.Copied? <==> old(Copyable(source)) && forall i :: 0 <= i < prologue.value.length ==> i in source.presence
      ensures r.Copied? ==> r.length == prologue.value.length && tree.blocks == source.tree.blocks[..r.length]
      ensures r.Copied? ==> forall i :: 0 <= i < r.length ==> i in presence
      ensures r.Copied? ==> HeadCurrent() && KeepsPrologue() && signed == old(signed) + {Commitment(fork, tree.blocks)}
      ensures !r.Copied? ==> head == old(head) && signed == old(signed)
      ensures !r.Copied? && !old(Copyable(source)) ==> tree.blocks == old(tree.blocks)
      ensures !r.Copied? && old(Copyable(source)) ==>
                && |tree.blocks| < prologue.value.length && |tree.blocks| !in source.presence
                && tree.blocks == source.tree.blocks[..|tree.blocks|]
                && forall i :: 0 <= i < |tree.blocks| ==> i in source.presence
    {
      hide RootHash, Holds, Full, Record, SignHead, Vouches, Present;
      if prologue.None? {
        return NoPrologue;
      }
      var pr := prologue.value;
      if tree.length != 0 {
        return PrologueMismatch;
      }
      if source.tree.PrefixRootHash(pr.length) != Some(pr.hash) {
        return PrologueMismatch;
      }
      var all := CopyBlocks(source, pr.length);
      if !all {
        return PrologueMismatch;
      }
      lastTruncation := None;
      SignExtension(signed, fork, tree.blocks, tree.blocks);
      Resign();
      ResignedIsValid();
      assert tree.blocks[..pr.length] == tree.blocks;
      r := Copied(pr.length);
    }

    /** Append the first `n` blocks of `source`, stopping at one it lacks. */
    method CopyBlocks(source: Core, n: nat) returns (all: bool)
      requires Valid() && source.Valid() && this != source && tree != source.tree
      requires tree.blocks == [] && n <= |source.tree.blocks|
      modifies this`store, this`presence, tree
      ensures Valid() && |tree.blocks| <= n && tree.blocks == source.tree.blocks[..|tree.blocks|]
      ensures forall k :: 0 <= k < |tree.blocks| ==> k in source.presence && k in presence
      ensures all <==> |tree.blocks| == n
      ensures !all ==> |tree.blocks| !in source.presence
    {
      hide RootHash, Holds, Full, Record, SignHead, Vouches, Present;
      for i := 0 to n
        invariant Valid() && n <= |source.tree.blocks| && tree.blocks == source.tree.blocks[..i]
        invariant forall k :: 0 <= k < i ==> k in source.presence && k in presence
        modifies this`store, this`presence, tree
      {
        if source.Block(i).None? {
          return false;
        }
        var enc := source.Block(i).value;
        PresentMore(presence, store, tree.blocks, enc);
        store := store[i := enc];
        SignExtension(signed, fork, tree.blocks, tree.blocks + [enc]);
        assert source.tree.blocks[..i + 1] == source.tree.blocks[..i] + [enc];
        var _ := tree.Append(enc);
        presence := presence + {i};
      }
      all := true;
    }

    /** This log is empty and `source` starts with the prologue's blocks. */
    ghost predicate Copyable(source: Core)
      requires source.Valid()
      reads this, tree, source, source.tree
    {
      && prologue.Some? && tree.blocks == [] && prologue.value.length <= |source.tree.blocks|
      && RootHash(source.tree.blocks[..prologue.value.length]) == prologue.value.hash
    }
  }

  /** A source that has cleared the second of two prologue blocks: the copy is refused with the
      first block already appended, and unsigned. */
  method CopyStopsShort(author: nat, heir: nat, first: Bytes, second: Bytes) returns (r: CopyResult, copy: Core)
    ensures r == PrologueMismatch && copy.tree.blocks == [first] && copy.head == None
  {
    hide RootHash, Core.Valid, Core.HeadCurrent, Core.KeepsPrologue;
    var source := new Core(author, None);
    var _ := source.Append(first, false);
    var _ := source.Append(second, false);
    assert source.tree.blocks == [first, second] && source.tree.blocks[..2] == [first, second];
    var hash := RootHash([first, second]);
    copy := new Core(heir, Some(Prologue(2, hash)));
    var _ := source.Clear(1, 2);
    assert 1 in Between({0, 1}, 1, 2) && 0 !in Between({0, 1}, 1, 2);
    r := copy.CopyPrologue(source);
  }

  lemma PrologueKept(before: seq<Bytes>, after: seq<Bytes>)
    requires before <= after
    ensures forall n: nat :: n <= |before| ==> after[..n] == before[..n]
  {
  }
}
