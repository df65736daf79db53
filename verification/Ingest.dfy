/** A remote writer's block on its way into the room: verified by that writer's replica,
    decoded, delivered. */
module Ingest {
  import opened Prelude
  import opened CausalDag
  import opened Merkle
  import opened MerkleProof
  import opened Hypercore
  import opened Autobase
  import opened Room
  import opened Replica

  /** `log` is what `blocks` decode to. */
  ghost predicate Decoded(decode: Bytes -> Option<Entry>, blocks: seq<Bytes>, log: seq<Entry>) {
    |log| == |blocks| && forall i :: 0 <= i < |blocks| ==> decode(blocks[i]) == Some(log[i])
  }

  /** Decoding leaves no choice of log. */
  lemma DecodedOnce(decode: Bytes -> Option<Entry>, blocks: seq<Bytes>, a: seq<Entry>, b: seq<Entry>)
    requires Decoded(decode, blocks, a) && Decoded(decode, blocks, b)
    ensures a == b
  {
    forall i | 0 <= i < |blocks|
      ensures a[i] == b[i]
    {
      assert Some(a[i]) == Some(b[i]);
    }
  }

  datatype Ingested = Refused | Undecodable | Delivered

  /** Take in a block for the writer of `replica`. One the replica refuses changes nothing; one it
      accepts is that of every history the head signs, so the replica stays a prefix of that
      history; and if it decodes, the room's log of the writer stays what the replica's blocks
      decode to, with everything deliverable delivered. */
  method OnRemoteBlock<S>(room: Room<S>, replica: Replica, decode: Bytes -> Option<Entry>,
                          h: SignedHead, index: nat, bytes: Bytes, proof: Proof)
    returns (r: Ingested)
    requires room.Valid() && room.Counted() && replica.Valid() && replica.key != room.localKey
    requires Decoded(decode, replica.tree.blocks, OwnFeed(room.feeds, replica.key))
    modifies room, room.lin`deps, room.lin`dependents, room.lin`nextSeq, replica, replica.tree
    ensures room.Valid() && room.Counted() && replica.Valid()
    ensures room.lin.indexers == old(room.lin.indexers) && room.lin.base == old(room.lin.base)
    ensures r.Refused? <==> !(index == |old(replica.tree.blocks)| && VerifyBlock(replica.key, h, index, bytes, proof))
    ensures r.Undecodable? <==> !r.Refused? && decode(bytes).None?
    ensures replica.tree.blocks == old(replica.tree.blocks) + if r.Refused? then [] else [bytes]
    ensures !r.Refused? ==> forall b :: RootHash(b) == h.root ==> index < |b| && b[index] == bytes
    ensures forall b :: RootHash(b) == h.root && |b| == h.length && old(replica.tree.blocks) <= b ==> replica.tree.blocks <= b
    ensures !r.Delivered? ==> room.feeds == old(room.feeds) && room.lin.deps == old(room.lin.deps)
    ensures forall k :: k != replica.key ==> OwnFeed(room.feeds, k) == OwnFeed(old(room.feeds), k)
    ensures !r.Undecodable? ==> Decoded(decode, replica.tree.blocks, OwnFeed(room.feeds, replica.key))
    ensures r.Delivered? ==> Stuck(room.received, room.lin.deps)
                             && forall n :: n in room.lin.deps <==> Deliverable(room.received, n)
    ensures Keeps(old(room.lin.Final()), room.lin.Final())
    ensures old(room.Steady()) ==> old(room.lin.Final()) <= room.lin.Final()
    ensures old(room.Folded() && room.Steady()) ==> room.Folded()
  {
    hide RootHash, VerifyBlock, Stuck, Deliverable, Room.Valid, Room.Counted, Room.Folded, Room.Steady, Replica.Valid, FinalOf;
    var ok := replica.AddBlock(h, index, bytes, proof);
    if !ok {
      return Refused;
    }
    var entry := decode(bytes);
    if entry.None? {
      return Undecodable;
    }
    var accepted := room.OnBlock(replica.key, index, entry.value, true);
    return Delivered;
  }

  /** Drained rooms holding the same blocks of every writer, with the same indexers and base,
      agree on the DAG, the finalized prefix and the whole order. */
  lemma SameBlocksConverge<S>(a: Room<S>, b: Room<S>, decode: Bytes -> Option<Entry>, blocks: map<nat, seq<Bytes>>)
    requires a.Valid() && Stuck(a.received, a.lin.deps)
    requires b.Valid() && Stuck(b.received, b.lin.deps)
    requires forall k :: Decoded(decode, if k in blocks then blocks[k] else [], OwnFeed(a.feeds, k))
    requires forall k :: Decoded(decode, if k in blocks then blocks[k] else [], OwnFeed(b.feeds, k))
    requires a.lin.indexers == b.lin.indexers && a.lin.base == b.lin.base
    ensures a.lin.deps == b.lin.deps && a.lin.Final() == b.lin.Final()
    ensures Linearization(a.lin.deps, a.lin.Final()) == Linearization(b.lin.deps, b.lin.Final())
  {
    hide Stuck, Decoded, Linearization;
    forall k
      ensures OwnFeed(a.feeds, k) == OwnFeed(b.feeds, k)
    {
      DecodedOnce(decode, if k in blocks then blocks[k] else [], OwnFeed(a.feeds, k), OwnFeed(b.feeds, k));
    }
    RoomsConverge(a, b);
  }
}
