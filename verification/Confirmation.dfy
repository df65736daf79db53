/** The confirmation machine as functions of the DAG: which indexer nodes a majority of the
    indexers has confirmed, and in what order they leave the unconfirmed frontier. */
module Confirmation {
  import opened CausalDag
  import opened Kahn

  /** Per-writer lengths; an absent writer reads as 0. */
  type Clock = map<nat, nat>

  function Get(c: Clock, key: nat): nat {
    if key in c then c[key] else 0
  }

  predicate Includes(c: Clock, key: nat, length: nat) {
    length > 0 && Get(c, key) >= length
  }

  function Raise(c: Clock, key: nat, length: nat): Clock {
    c[key := if length > Get(c, key) then length else Get(c, key)]
  }

  /** The DAG and the writers whose references count as votes. */
  datatype Graph = Graph(deps: Deps, indexers: set<nat>)

  datatype Confirm = Unseen | Newer | Acked

  ghost predicate Ok(g: Graph) {
    ValidDag(g.deps)
  }

  function Majority(g: Graph): nat {
    |g.indexers| / 2 + 1
  }

  ghost function WriterLen(deps: Deps, key: nat): nat {
    |set n | n in deps && n.key == key|
  }

  /** The first node of `key` that `o` has not seen and that is not yet confirmed. */
  ghost function First(g: Graph, o: NodeId, key: nat, removed: Clock): NodeId {
    var seen := Len(g.deps, o, key);
    NodeId(key, if seen > Get(removed, key) then seen else Get(removed, key))
  }

  /** `p` sees `o`, and through every indexer it learned of more than `o` knew only from
      nodes that acknowledge `o`: nothing `p` adds is concurrent to `o`. */
  ghost predicate StrictlyNewer(g: Graph, o: NodeId, p: NodeId, removed: Clock) {
    && Sees(g.deps, p, o)
    && forall key :: key in g.indexers && Sees(g.deps, p, First(g, o, key, removed))
                     ==> Sees(g.deps, First(g, o, key, removed), o)
  }

  /** Indexer `key`'s next node after `t`'s knowledge votes for `t`. */
  ghost predicate AckedBy(g: Graph, t: NodeId, key: nat, removed: Clock) {
    var next := First(g, t, key, removed);
    next in g.deps && Sees(g.deps, next, t) && StrictlyNewer(g, t, next, removed)
  }

  /** The indexers voting for `t`. */
  ghost function AckKeys(g: Graph, t: NodeId, removed: Clock): set<nat> {
    set key | key in g.indexers && (key == t.key || AckedBy(g, t, key, removed))
  }

  ghost function AckNode(g: Graph, t: NodeId, key: nat, removed: Clock): NodeId {
    if key == t.key then t else First(g, t, key, removed)
  }

  /** How many of the votes for `t` the node `head` has seen. */
  ghost function VotesSeen(g: Graph, t: NodeId, head: NodeId, removed: Clock): nat {
    |set key | key in AckKeys(g, t, removed) && Sees(g.deps, head, AckNode(g, t, key, removed))|
  }

  /** Some of `key`'s first `length` nodes is strictly newer than `t` and has seen a
      majority of the votes for it. */
  ghost predicate HasAcked(g: Graph, key: nat, t: NodeId, length: nat, removed: Clock) {
    exists i: nat :: i < length && StrictlyNewer(g, t, NodeId(key, i), removed)
                     && VotesSeen(g, t, NodeId(key, i), removed) >= Majority(g)
  }

  ghost function Status(g: Graph, key: nat, t: NodeId, length: nat, removed: Clock): Confirm {
    if length <= Get(removed, key) then Unseen
    else if HasAcked(g, key, t, length, removed) then Acked
    else if StrictlyNewer(g, t, NodeId(key, length - 1), removed) then Newer
    else Unseen
  }

  ghost function AckedAll(g: Graph, t: NodeId, removed: Clock): set<nat> {
    set key | key in g.indexers && Status(g, key, t, WriterLen(g.deps, key), removed) == Acked
  }

  /** `t` is confirmed by everything delivered so far. */
  ghost predicate Confirmed(g: Graph, t: NodeId, removed: Clock) {
    && |AckKeys(g, t, removed)| >= Majority(g)
    && (|AckedAll(g, t, removed)| >= Majority(g)
        || forall key :: key in g.indexers ==> Status(g, key, t, WriterLen(g.deps, key), removed) != Unseen)
  }

  /** The part of `key`'s log that lies below `p`. */
  ghost function LengthBelow(g: Graph, p: NodeId, key: nat): nat {
    if key == p.key then p.pos else Len(g.deps, p, key)
  }

  ghost function AckedBelow(g: Graph, t: NodeId, p: NodeId, removed: Clock): set<nat> {
    set key | key in g.indexers && Status(g, key, t, LengthBelow(g, p, key), removed) == Acked
  }

  /** Indexer `key` could still confirm `t` after `p`: what `p` saw of it, `t` saw too, or
      its latest node there is strictly newer than `t` or already confirmed. */
  ghost predicate Potential(g: Graph, t: NodeId, p: NodeId, key: nat, removed: Clock) {
    var length := Len(g.deps, p, key);
    length == 0 || Len(g.deps, t, key) >= length
    || Get(removed, key) >= length
    || StrictlyNewer(g, t, NodeId(key, length - 1), removed)
  }

  ghost predicate Confirmable(g: Graph, t: NodeId, p: NodeId, removed: Clock) {
    && VotesSeen(g, t, p, removed) >= Majority(g)
    && |set key | key in g.indexers
                  && (key in AckedBelow(g, t, p, removed) || Potential(g, t, p, key, removed))| >= Majority(g)
  }

  /** `t` is confirmed relative to `p`, which sees it. */
  ghost predicate ConfirmedAt(g: Graph, t: NodeId, p: NodeId, removed: Clock) {
    && |AckKeys(g, t, removed)| >= Majority(g)
    && (|AckedBelow(g, t, p, removed)| >= Majority(g) || Confirmable(g, t, p, removed))
  }

  /** Each indexer's oldest unconfirmed node. */
  ghost function Firsts(g: Graph, removed: Clock): set<NodeId> {
    set key | key in g.indexers && NodeId(key, Get(removed, key)) in g.deps :: NodeId(key, Get(removed, key))
  }

  /** The minimal ones among them: the frontier the machine yields from. */
  ghost function Tails(g: Graph, removed: Clock): set<NodeId> {
    set t | t in Firsts(g, removed) && forall m :: m in Firsts(g, removed) && m != t ==> !Sees(g.deps, t, m)
  }

  /** What `n` knew of each indexer before itself, the confirmed left out. */
  ghost function MergeHeads(g: Graph, n: NodeId, removed: Clock): set<NodeId> {
    set key | key in g.indexers && LengthBelow(g, n, key) > Get(removed, key)
      :: NodeId(key, LengthBelow(g, n, key) - 1)
  }

  ghost function MaximalHeads(g: Graph, n: NodeId, removed: Clock): set<NodeId> {
    set h | h in MergeHeads(g, n, removed)
            && forall o :: o in MergeHeads(g, n, removed) && o != h ==> !Sees(g.deps, o, h)
  }

  /** `n` joins more than one independent indexer branch. */
  ghost predicate IsMerge(g: Graph, n: NodeId, removed: Clock) {
    n.key in g.indexers && |MaximalHeads(g, n, removed)| > 1
  }

  ghost function Merges(g: Graph, removed: Clock): set<NodeId> {
    set n | n in g.deps && n.key in g.indexers && n.pos >= Get(removed, n.key) && IsMerge(g, n, removed)
  }

  /** The elements of `s` in ascending order. */
  ghost function Sorted(s: set<NodeId>): (r: seq<NodeId>)
    ensures forall n :: n in r <==> n in s
    ensures |r| == |s|
  {
    if s == {} then [] else [Min(s)] + Sorted(s - {Min(s)})
  }

  ghost function TailsSeen(g: Graph, n: NodeId, removed: Clock): set<NodeId> {
    set t | t in Tails(g, removed) && Sees(g.deps, n, t)
  }

  ghost function ConfirmedTails(g: Graph, removed: Clock): set<NodeId> {
    set t | t in Tails(g, removed) && Confirmed(g, t, removed)
  }

  ghost function ConfirmedMerges(g: Graph, removed: Clock): set<NodeId> {
    set m | m in Merges(g, removed) && Confirmed(g, m, removed)
  }

  ghost function TailsBelow(g: Graph, n: NodeId, removed: Clock): set<NodeId> {
    set t | t in TailsSeen(g, n, removed) && ConfirmedAt(g, t, n, removed)
  }

  ghost function MergesBelow(g: Graph, n: NodeId, removed: Clock): set<NodeId> {
    set m | m in Merges(g, removed) && m != n && Sees(g.deps, n, m) && ConfirmedAt(g, m, n, removed)
  }

  /** Resolve a confirmed merge to what leaves the frontier next: descend into whichever
      arm is confirmed relative to the node reached, else take every tail below it. */
  ghost function Yield(g: Graph, n: NodeId, removed: Clock): seq<NodeId>
    requires Ok(g) && n in g.deps
    decreases |Past(g.deps, n)|
  {
    if n in Tails(g, removed) then [n]
    else if TailsBelow(g, n, removed) != {} then
      var t := Min(TailsBelow(g, n, removed));
      PastShrinks(g.deps, n, t);
      Yield(g, t, removed)
    else if MergesBelow(g, n, removed) != {} then
      var m := Min(MergesBelow(g, n, removed));
      PastShrinks(g.deps, n, m);
      Yield(g, m, removed)
    else Sorted(TailsSeen(g, n, removed))
  }

  /** One step of the machine: what it confirms next, nothing when it is stuck. */
  ghost function Shift(g: Graph, removed: Clock): seq<NodeId>
    requires Ok(g)
  {
    if ConfirmedTails(g, removed) != {} then [Min(ConfirmedTails(g, removed))]
    else if ConfirmedMerges(g, removed) != {} then Yield(g, Min(ConfirmedMerges(g, removed)), removed)
    else []
  }

  ghost function RaiseAll(c: Clock, batch: seq<NodeId>): Clock
    decreases |batch|
  {
    if batch == [] then c
    else RaiseAll(Raise(c, batch[0].key, batch[0].pos + 1), batch[1..])
  }

  // ---------------------------------------------------------------- the frontier

  /** What is confirmed is causally closed among indexer nodes. */
  ghost predicate RemovedClosed(g: Graph, removed: Clock) {
    forall n: NodeId, m: NodeId ::
      (n in g.deps && n.key in g.indexers && n.pos < Get(removed, n.key) && m.key in g.indexers && Sees(g.deps, n, m))
      ==> m.pos < Get(removed, m.key)
  }

  lemma TailFacts(g: Graph, t: NodeId, removed: Clock)
    requires t in Tails(g, removed)
    ensures t in g.deps && t.key in g.indexers && t.pos == Get(removed, t.key)
  {
  }

  /** A frontier node has seen no other unconfirmed indexer node. */
  lemma TailHistory(g: Graph, t: NodeId, m: NodeId, removed: Clock)
    requires Ok(g) && t in Tails(g, removed)
    requires m.key in g.indexers && Sees(g.deps, t, m) && m != t
    ensures m.pos < Get(removed, m.key)
  {
    TailFacts(g, t, removed);
    if m.pos >= Get(removed, m.key) {
      var f := NodeId(m.key, Get(removed, m.key));
      SeesDelivered(g.deps, t, m);
      OwnEarlier(g.deps, m, f.pos);
      SeesTrans(g.deps, t, m, f);
      SeesDelivered(g.deps, t, f);
      assert f in Firsts(g, removed);
      if f == t {
        SeesAntisym(g.deps, t, m);
      }
    }
  }

  /** Every unconfirmed indexer node sees the frontier. */
  lemma {:induction false} TailBelowFirst(g: Graph, f: NodeId, removed: Clock)
    requires Ok(g) && f in Firsts(g, removed)
    ensures exists t :: t in Tails(g, removed) && Sees(g.deps, f, t)
    decreases |Past(g.deps, f)|
  {
    if f in Tails(g, removed) {
      SeesSelf(g.deps, f);
    } else {
      var m :| m in Firsts(g, removed) && m != f && Sees(g.deps, f, m);
      PastShrinks(g.deps, f, m);
      TailBelowFirst(g, m, removed);
      var t :| t in Tails(g, removed) && Sees(g.deps, m, t);
      SeesTrans(g.deps, f, m, t);
    }
  }

  lemma TailBelow(g: Graph, n: NodeId, removed: Clock)
    requires Ok(g) && n in g.deps && n.key in g.indexers && n.pos >= Get(removed, n.key)
    ensures TailsSeen(g, n, removed) != {}
  {
    var f := NodeId(n.key, Get(removed, n.key));
    OwnEarlier(g.deps, n, f.pos);
    SeesDelivered(g.deps, n, f);
    assert f in Firsts(g, removed);
    TailBelowFirst(g, f, removed);
    var t :| t in Tails(g, removed) && Sees(g.deps, f, t);
    SeesTrans(g.deps, n, f, t);
    assert t in TailsSeen(g, n, removed);
  }

  /** Resolving a merge always yields, and yields only frontier nodes. */
  lemma {:induction false} YieldsTails(g: Graph, n: NodeId, removed: Clock)
    requires Ok(g) && n in g.deps && n.key in g.indexers && n.pos >= Get(removed, n.key)
    ensures Yield(g, n, removed) != []
    ensures forall t :: t in Yield(g, n, removed) ==> t in Tails(g, removed)
    ensures Distinct(Yield(g, n, removed))
    decreases |Past(g.deps, n)|
  {
    if n in Tails(g, removed) {
    } else if TailsBelow(g, n, removed) != {} {
      var t := Min(TailsBelow(g, n, removed));
      PastShrinks(g.deps, n, t);
      TailFacts(g, t, removed);
      YieldsTails(g, t, removed);
    } else if MergesBelow(g, n, removed) != {} {
      var m := Min(MergesBelow(g, n, removed));
      PastShrinks(g.deps, n, m);
      YieldsTails(g, m, removed);
    } else {
      TailBelow(g, n, removed);
      SortedDistinct(TailsSeen(g, n, removed));
    }
  }

  ghost predicate Distinct(s: seq<NodeId>) {
    forall i, j :: 0 <= i < j < |s| ==> s[i] != s[j]
  }

  lemma {:induction false} SortedDistinct(s: set<NodeId>)
    ensures Distinct(Sorted(s))
  {
    if s != {} {
      SortedDistinct(s - {Min(s)});
    }
  }

  lemma ShiftsTails(g: Graph, removed: Clock)
    requires Ok(g)
    ensures forall t :: t in Shift(g, removed) ==> t in Tails(g, removed)
    ensures Distinct(Shift(g, removed))
  {
    if ConfirmedTails(g, removed) == {} && ConfirmedMerges(g, removed) != {} {
      YieldsTails(g, Min(ConfirmedMerges(g, removed)), removed);
    }
  }

  /** Resolving `n`: a tail is itself. Else a tail that `n` has seen and that is confirmed
      relative to it, the least by key and position; else so for a merge below `n`; else every
      tail it has seen. */
  lemma YieldCases(g: Graph, n: NodeId, removed: Clock, x: NodeId)
    requires Ok(g) && n in g.deps && n !in Tails(g, removed)
    requires x != n && Sees(g.deps, n, x) && ConfirmedAt(g, x, n, removed)
    ensures x in Tails(g, removed) && (forall y :: y in Tails(g, removed) && Sees(g.deps, n, y) && ConfirmedAt(g, y, n, removed) ==>
              x.key < y.key || (x.key == y.key && x.pos <= y.pos)) ==>
              Yield(g, n, removed) == [x]
    ensures (forall y :: y in Tails(g, removed) && Sees(g.deps, n, y) ==> !ConfirmedAt(g, y, n, removed))
            && x in Merges(g, removed)
            && (forall y :: y in Merges(g, removed) && y != n && Sees(g.deps, n, y) && ConfirmedAt(g, y, n, removed) ==>
                  x.key < y.key || (x.key == y.key && x.pos <= y.pos)) ==>
              x in g.deps && Yield(g, n, removed) == Yield(g, x, removed)
  {
    hide ConfirmedAt, Tails, IsMerge, Sees, ValidDag;
    if x in TailsBelow(g, n, removed) {
      var t := Min(TailsBelow(g, n, removed));
    }
    if x in MergesBelow(g, n, removed) {
      var m := Min(MergesBelow(g, n, removed));
      if forall y :: y in Tails(g, removed) && Sees(g.deps, n, y) ==> !ConfirmedAt(g, y, n, removed) {
        assert TailsBelow(g, n, removed) == {};
      }
    }
  }

  lemma YieldRest(g: Graph, n: NodeId, removed: Clock)
    requires Ok(g) && n in g.deps && n !in Tails(g, removed)
    requires forall y :: (y in Tails(g, removed) || y in Merges(g, removed)) && y != n && Sees(g.deps, n, y) ==> !ConfirmedAt(g, y, n, removed)
    ensures forall t :: t in Yield(g, n, removed) <==> t in Tails(g, removed) && Sees(g.deps, n, t)
    ensures forall i, j :: 0 <= i < j < |Yield(g, n, removed)| ==>
              var a, b := Yield(g, n, removed)[i], Yield(g, n, removed)[j];
              a.key < b.key || (a.key == b.key && a.pos < b.pos)
  {
    hide ConfirmedAt, Tails, Merges, Sees, ValidDag;
    assert TailsBelow(g, n, removed) == {} && MergesBelow(g, n, removed) == {};
    SortedAscends(TailsSeen(g, n, removed));
  }

  lemma {:induction false} SortedAscends(s: set<NodeId>)
    ensures forall i, j :: 0 <= i < j < |Sorted(s)| ==> Less(Sorted(s)[i], Sorted(s)[j])
  {
    if s != {} {
      var x := Min(s);
      SortedAscends(s - {x});
      var rest := Sorted(s - {x});
      assert forall i :: 0 <= i < |rest| ==> rest[i] in rest;
    }
  }

  /** The machine takes a confirmed tail if there is one; else it resolves the confirmed merge
      least by key and position; else it is stuck. */
  lemma ShiftCases(g: Graph, removed: Clock, x: NodeId)
    requires Ok(g) && Confirmed(g, x, removed)
    ensures x in Tails(g, removed) && (forall y :: y in Tails(g, removed) && Confirmed(g, y, removed) ==>
              x.key < y.key || (x.key == y.key && x.pos <= y.pos)) ==>
              Shift(g, removed) == [x]
    ensures (forall y :: y in Tails(g, removed) ==> !Confirmed(g, y, removed)) && x in Merges(g, removed)
            && (forall y :: y in Merges(g, removed) && Confirmed(g, y, removed) ==>
                  x.key < y.key || (x.key == y.key && x.pos <= y.pos)) ==>
              x in g.deps && Shift(g, removed) == Yield(g, x, removed)
  {
    hide Confirmed, Tails, IsMerge, Yield, ValidDag;
    if x in ConfirmedTails(g, removed) {
      var t := Min(ConfirmedTails(g, removed));
    }
    if x in ConfirmedMerges(g, removed) {
      var m := Min(ConfirmedMerges(g, removed));
    }
  }
}
