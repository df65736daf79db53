/** Finality: what the machine confirms without resolving a fork never changes, however the
    DAG grows afterwards. */
module Finality {
  import opened CausalDag
  import opened Kahn
  import opened Confirmation
  import opened FinalizedView

  /** The same indexers over a DAG that only gained nodes. */
  ghost predicate Extends(g: Graph, g': Graph) {
    Ok(g) && Ok(g') && Grows(g.deps, g'.deps) && g.indexers == g'.indexers
  }

  // ---------------------------------------------------------------- two votes never conflict

  /** What a frontier node leaves unseen of an indexer starts at that indexer's first
      unconfirmed node. */
  lemma FirstOfTail(g: Graph, t: NodeId, key: nat, removed: Clock)
    requires Ok(g) && t in Tails(g, removed) && key in g.indexers && key != t.key
    ensures First(g, t, key, removed) == NodeId(key, Get(removed, key))
  {
    TailFacts(g, t, removed);
    var seen := Len(g.deps, t, key);
    if seen > Get(removed, key) {
      ClockIsSees(g.deps, t, key, seen - 1);
      TailHistory(g, t, NodeId(key, seen - 1), removed);
    }
  }

  /** No indexer votes for two frontier nodes. */
  lemma AcksDisjoint(g: Graph, t: NodeId, u: NodeId, key: nat, removed: Clock)
    requires Ok(g) && t in Tails(g, removed) && u in Tails(g, removed) && t != u
    requires key in AckKeys(g, t, removed)
    ensures key !in AckKeys(g, u, removed)
  {
    TailFacts(g, t, removed);
    TailFacts(g, u, removed);
    if key in AckKeys(g, u, removed) {
      if key == t.key {
        FirstOfTail(g, u, key, removed);
      } else if key == u.key {
        FirstOfTail(g, t, key, removed);
      } else {
        FirstOfTail(g, t, key, removed);
        FirstOfTail(g, u, key, removed);
        FirstOfTail(g, t, u.key, removed);
      }
    }
  }

  lemma DisjointCard<T>(a: set<T>, b: set<T>, all: set<T>)
    requires a <= all && b <= all && a !! b
    ensures |a| + |b| <= |all|
  {
    SubsetCard(a + b, all);
    assert |a + b| == |a| + |b|;
  }

  /** At most one frontier node has a majority of the votes. */
  lemma OneMajority(g: Graph, t: NodeId, u: NodeId, removed: Clock)
    requires Ok(g) && t in Tails(g, removed) && u in Tails(g, removed)
    requires |AckKeys(g, t, removed)| >= Majority(g) && |AckKeys(g, u, removed)| >= Majority(g)
    ensures t == u
  {
    if t != u {
      forall key | key in AckKeys(g, t, removed)
        ensures key !in AckKeys(g, u, removed)
      {
        AcksDisjoint(g, t, u, key, removed);
      }
      DisjointCard(AckKeys(g, t, removed), AckKeys(g, u, removed), g.indexers);
    }
  }

  // ---------------------------------------------------------------- confirmation only grows

  lemma FirstGrows(g: Graph, g': Graph, o: NodeId, key: nat, removed: Clock)
    requires Extends(g, g') && o in g.deps
    ensures First(g, o, key, removed) == First(g', o, key, removed)
  {
    LenGrows(g.deps, g'.deps, o, key);
  }

  lemma StrictlyNewerGrows(g: Graph, g': Graph, o: NodeId, p: NodeId, removed: Clock)
    requires Extends(g, g') && o in g.deps && p in g.deps
    ensures StrictlyNewer(g, o, p, removed) <==> StrictlyNewer(g', o, p, removed)
  {
    SeesGrows(g.deps, g'.deps, p, o);
    forall key | key in g.indexers
      ensures First(g, o, key, removed) == First(g', o, key, removed)
      ensures var f := First(g, o, key, removed);
              && (Sees(g.deps, p, f) <==> Sees(g'.deps, p, f))
              && (Sees(g.deps, p, f) ==> (Sees(g.deps, f, o) <==> Sees(g'.deps, f, o)))
    {
      FirstGrows(g, g', o, key, removed);
      var f := First(g, o, key, removed);
      SeesGrows(g.deps, g'.deps, p, f);
      if Sees(g.deps, p, f) {
        SeesDelivered(g.deps, p, f);
        SeesGrows(g.deps, g'.deps, f, o);
      }
    }
  }

  lemma AckGrows(g: Graph, g': Graph, t: NodeId, key: nat, removed: Clock)
    requires Extends(g, g') && t in g.deps && key in AckKeys(g, t, removed)
    ensures key in AckKeys(g', t, removed)
    ensures AckNode(g, t, key, removed) == AckNode(g', t, key, removed)
  {
    FirstGrows(g, g', t, key, removed);
    if key != t.key {
      var n := First(g, t, key, removed);
      SeesGrows(g.deps, g'.deps, n, t);
      StrictlyNewerGrows(g, g', t, n, removed);
    }
  }

  lemma VotesGrow(g: Graph, g': Graph, t: NodeId, head: NodeId, removed: Clock)
    requires Extends(g, g') && t in g.deps && head in g.deps
    ensures VotesSeen(g, t, head, removed) <= VotesSeen(g', t, head, removed)
  {
    var a := set key | key in AckKeys(g, t, removed) && Sees(g.deps, head, AckNode(g, t, key, removed));
    var b := set key | key in AckKeys(g', t, removed) && Sees(g'.deps, head, AckNode(g', t, key, removed));
    forall key | key in a
      ensures key in b
    {
      AckGrows(g, g', t, key, removed);
      SeesGrows(g.deps, g'.deps, head, AckNode(g, t, key, removed));
    }
    SubsetCard(a, b);
  }

  lemma WriterRun(deps: Deps, key: nat, q: nat)
    requires ValidDag(deps)
    ensures NodeId(key, q) in deps <==> q < WriterLen(deps, key)
  {
    var s := set n | n in deps && n.key == key;
    forall m, p: nat | m in s && p < m.pos
      ensures NodeId(key, p) in s
    {
      OwnEarlier(deps, m, p);
      SeesDelivered(deps, m, NodeId(key, p));
    }
    InitialRun(s, key);
  }

  lemma WriterLenGrows(g: Graph, g': Graph, key: nat)
    requires Extends(g, g')
    ensures WriterLen(g.deps, key) <= WriterLen(g'.deps, key)
  {
    SubsetCard(set n | n in g.deps && n.key == key, set n | n in g'.deps && n.key == key);
  }

  lemma AckedGrows(g: Graph, g': Graph, key: nat, t: NodeId, removed: Clock)
    requires Extends(g, g') && t in g.deps
    requires Status(g, key, t, WriterLen(g.deps, key), removed) == Acked
    ensures Status(g', key, t, WriterLen(g'.deps, key), removed) == Acked
  {
    WriterLenGrows(g, g', key);
    var length := WriterLen(g.deps, key);
    var i: nat :| i < length && StrictlyNewer(g, t, NodeId(key, i), removed)
                  && VotesSeen(g, t, NodeId(key, i), removed) >= Majority(g);
    WriterRun(g.deps, key, i);
    StrictlyNewerGrows(g, g', t, NodeId(key, i), removed);
    VotesGrow(g, g', t, NodeId(key, i), removed);
    assert HasAcked(g', key, t, WriterLen(g'.deps, key), removed);
  }

  /** An indexer that is not `Unseen` has a node strictly newer than the target. */
  lemma NotUnseen(g: Graph, key: nat, t: NodeId, removed: Clock) returns (h: NodeId)
    requires Ok(g) && Status(g, key, t, WriterLen(g.deps, key), removed) != Unseen
    ensures h in g.deps && h.key == key && StrictlyNewer(g, t, h, removed)
  {
    var length := WriterLen(g.deps, key);
    if HasAcked(g, key, t, length, removed) {
      var i: nat :| i < length && StrictlyNewer(g, t, NodeId(key, i), removed)
                    && VotesSeen(g, t, NodeId(key, i), removed) >= Majority(g);
      h := NodeId(key, i);
    } else {
      h := NodeId(key, length - 1);
    }
    WriterRun(g.deps, key, h.pos);
  }

  /** Once no indexer is `Unseen`, whatever comes first after the target acknowledges it. */
  lemma FirstAcknowledges(g: Graph, t: NodeId, key: nat, removed: Clock)
    requires Ok(g) && RemovedClosed(g, removed)
    requires t in g.deps && t.key in g.indexers && t.pos >= Get(removed, t.key) && key in g.indexers
    requires Status(g, key, t, WriterLen(g.deps, key), removed) != Unseen
    ensures key != t.key ==> First(g, t, key, removed) in g.deps && Sees(g.deps, First(g, t, key, removed), t)
  {
    if key != t.key {
      var h := NotUnseen(g, key, t, removed);
      var f := First(g, t, key, removed);
      ClockIsSees(g.deps, t, key, h.pos);
      if h.pos < f.pos && h.pos < Len(g.deps, t, key) {
        SeesAntisym(g.deps, h, t);
      }
      OwnEarlier(g.deps, h, f.pos);
      SeesDelivered(g.deps, h, f);
    }
  }

  /** Then every node that sees the target is strictly newer than it. */
  lemma SeeingIsNewer(g: Graph, g': Graph, t: NodeId, p: NodeId, removed: Clock)
    requires Extends(g, g') && RemovedClosed(g, removed)
    requires t in g.deps && t.key in g.indexers && t.pos >= Get(removed, t.key)
    requires forall key :: key in g.indexers ==> Status(g, key, t, WriterLen(g.deps, key), removed) != Unseen
    requires p in g'.deps && Sees(g'.deps, p, t)
    ensures StrictlyNewer(g', t, p, removed)
  {
    forall key | key in g'.indexers && Sees(g'.deps, p, First(g', t, key, removed))
      ensures Sees(g'.deps, First(g', t, key, removed), t)
    {
      var f := First(g', t, key, removed);
      FirstGrows(g, g', t, key, removed);
      SeesDelivered(g'.deps, p, f);
      if key == t.key {
        ClockIsSees(g.deps, t, key, t.pos);
        SeesSelf(g.deps, t);
        OwnEarlier(g'.deps, f, t.pos);
      } else {
        FirstAcknowledges(g, t, key, removed);
        SeesGrows(g.deps, g'.deps, f, t);
      }
    }
  }

  lemma NewerGrows(g: Graph, g': Graph, key: nat, t: NodeId, removed: Clock)
    requires Extends(g, g') && RemovedClosed(g, removed)
    requires t in g.deps && t.key in g.indexers && t.pos >= Get(removed, t.key) && key in g.indexers
    requires forall k :: k in g.indexers ==> Status(g, k, t, WriterLen(g.deps, k), removed) != Unseen
    ensures Status(g', key, t, WriterLen(g'.deps, key), removed) != Unseen
  {
    WriterLenGrows(g, g', key);
    var h := NotUnseen(g, key, t, removed);
    WriterRun(g.deps, key, h.pos);
    var last := NodeId(key, WriterLen(g'.deps, key) - 1);
    WriterRun(g'.deps, key, last.pos);
    OwnEarlier(g'.deps, last, h.pos);
    SeesGrows(g.deps, g'.deps, h, t);
    SeesTrans(g'.deps, last, h, t);
    SeeingIsNewer(g, g', t, last, removed);
  }

  /** A confirmed frontier node stays confirmed, whatever is delivered next. */
  lemma ConfirmedGrows(g: Graph, g': Graph, t: NodeId, removed: Clock)
    requires Extends(g, g') && RemovedClosed(g, removed)
    requires t in g.deps && t.key in g.indexers && t.pos >= Get(removed, t.key)
    requires Confirmed(g, t, removed)
    ensures Confirmed(g', t, removed)
  {
    forall key | key in AckKeys(g, t, removed)
      ensures key in AckKeys(g', t, removed)
    {
      AckGrows(g, g', t, key, removed);
    }
    SubsetCard(AckKeys(g, t, removed), AckKeys(g', t, removed));
    if |AckedAll(g, t, removed)| >= Majority(g) {
      forall key | key in AckedAll(g, t, removed)
        ensures key in AckedAll(g', t, removed)
      {
        AckedGrows(g, g', key, t, removed);
      }
      SubsetCard(AckedAll(g, t, removed), AckedAll(g', t, removed));
    } else {
      forall key | key in g.indexers
        ensures Status(g', key, t, WriterLen(g'.deps, key), removed) != Unseen
      {
        NewerGrows(g, g', key, t, removed);
      }
    }
  }

  lemma TailsGrow(g: Graph, g': Graph, t: NodeId, removed: Clock)
    requires Extends(g, g') && t in Tails(g, removed)
    ensures t in Tails(g', removed)
  {
    TailFacts(g, t, removed);
    forall m | m in Firsts(g', removed) && m != t
      ensures !Sees(g'.deps, t, m)
    {
      SeesGrows(g.deps, g'.deps, t, m);
      if Sees(g.deps, t, m) {
        SeesDelivered(g.deps, t, m);
      }
    }
  }

  /** The frontier node the machine confirms is the one it confirms in every larger DAG. */
  lemma ShiftStable(g: Graph, g': Graph, removed: Clock)
    requires Extends(g, g') && RemovedClosed(g, removed) && ConfirmedTails(g, removed) != {}
    ensures ConfirmedTails(g', removed) == ConfirmedTails(g, removed)
    ensures Shift(g', removed) == Shift(g, removed)
  {
    var t := Min(ConfirmedTails(g, removed));
    TailFacts(g, t, removed);
    TailsGrow(g, g', t, removed);
    ConfirmedGrows(g, g', t, removed);
    forall u | u in ConfirmedTails(g', removed) || u in ConfirmedTails(g, removed)
      ensures u == t
    {
      if u in ConfirmedTails(g, removed) {
        OneMajority(g, t, u, removed);
      } else {
        OneMajority(g', t, u, removed);
      }
    }
    assert ConfirmedTails(g', removed) == {t};
    assert ConfirmedTails(g, removed) == {t};
  }

  // ---------------------------------------------------------------- whole runs

  lemma FreshGrows(g: Graph, g': Graph, batch: seq<NodeId>, out: seq<NodeId>)
    requires Extends(g, g') && forall b :: b in batch ==> b in g.deps
    ensures Fresh(g.deps, batch, out) == Fresh(g'.deps, batch, out)
  {
    forall b, m | b in batch
      ensures Sees(g.deps, b, m) <==> Sees(g'.deps, b, m)
      ensures Sees(g.deps, b, m) ==> m in g.deps
    {
      SeesGrows(g.deps, g'.deps, b, m);
      if Sees(g.deps, b, m) {
        SeesDelivered(g.deps, b, m);
      }
    }
  }

  /** The run of the machine as long as it need not resolve a fork. */
  ghost function Settled(g: Graph, removed: Clock, out: seq<NodeId>): seq<NodeId>
    requires Ok(g)
    decreases |Unconfirmed(g, removed)|
  {
    if ConfirmedTails(g, removed) == {} then out
    else
      var batch := Shift(g, removed);
      ShiftShrinks(g, removed);
      Settled(g, RaiseAll(removed, batch), out + Order(g.deps, Fresh(g.deps, batch, out)))
  }

  /** The machine stops without ever having resolved a fork. */
  ghost predicate ForkFree(g: Graph, removed: Clock)
    requires Ok(g)
    decreases |Unconfirmed(g, removed)|
  {
    if ConfirmedTails(g, removed) == {} then ConfirmedMerges(g, removed) == {}
    else
      ShiftShrinks(g, removed);
      ForkFree(g, RaiseAll(removed, Shift(g, removed)))
  }

  /** What was settled before any growth of the DAG starts the finalized view after it. */
  lemma {:induction false} SettledIsFinal(g: Graph, g': Graph, removed: Clock, out: seq<NodeId>)
    requires Extends(g, g') && Frontier(g, removed, out) && Frontier(g', removed, out)
    ensures Settled(g, removed, out) <= View(g', removed, out)
    decreases |Unconfirmed(g, removed)|
  {
    if ConfirmedTails(g, removed) == {} {
      ViewIsFrontier(g', removed, out);
    } else {
      var batch := Shift(g, removed);
      FrontierClosed(g, removed, out);
      ShiftStable(g, g', removed);
      ShiftsTails(g, removed);
      ShiftsTails(g', removed);
      forall b | b in batch
        ensures b in g.deps
      {
        TailFacts(g, b, removed);
      }
      FreshGrows(g, g', batch, out);
      OrderGrows(g.deps, g'.deps, Fresh(g.deps, batch, out));
      FrontierStep(g, removed, out, batch);
      FrontierStep(g', removed, out, batch);
      ShiftShrinks(g, removed);
      hide Frontier, RaiseAll, Fresh, Unconfirmed, Extends;
      SettledIsFinal(g, g', RaiseAll(removed, batch), out + Order(g.deps, Fresh(g.deps, batch, out)));
    }
  }

  lemma {:induction false} ForkFreeIsSettled(g: Graph, removed: Clock, out: seq<NodeId>)
    requires Ok(g) && ForkFree(g, removed)
    ensures View(g, removed, out) == Settled(g, removed, out)
    decreases |Unconfirmed(g, removed)|
  {
    if ConfirmedTails(g, removed) != {} {
      ShiftShrinks(g, removed);
      var batch := Shift(g, removed);
      ForkFreeIsSettled(g, RaiseAll(removed, batch), out + Order(g.deps, Fresh(g.deps, batch, out)));
    }
  }

  /** A run that never resolves a fork only extends, whatever is delivered next. */
  lemma ForkFreeIsFinal(g: Graph, g': Graph, removed: Clock, out: seq<NodeId>)
    requires Extends(g, g') && ForkFree(g, removed) && Frontier(g, removed, out) && Frontier(g', removed, out)
    ensures View(g, removed, out) <= View(g', removed, out)
  {
    hide View, Settled, ForkFree, Frontier, Grows;
    ForkFreeIsSettled(g, removed, out);
    SettledIsFinal(g, g', removed, out);
  }

  /** Any two delivered indexer nodes are causally comparable. */
  ghost predicate Linear(g: Graph) {
    forall a, b :: a in g.deps && b in g.deps && a.key in g.indexers && b.key in g.indexers
                   ==> Sees(g.deps, a, b) || Sees(g.deps, b, a)
  }

  lemma LinearHasNoMerge(g: Graph, n: NodeId, removed: Clock)
    requires Ok(g) && Linear(g) && n in g.deps
    ensures !IsMerge(g, n, removed)
  {
    var heads := MaximalHeads(g, n, removed);
    forall a, b | a in heads && b in heads
      ensures a == b
    {
      forall h | h in heads
        ensures h in g.deps && h.key in g.indexers
      {
        if h.key == n.key {
          OwnEarlier(g.deps, n, h.pos);
        } else {
          ClockIsSees(g.deps, n, h.key, h.pos);
        }
        SeesDelivered(g.deps, n, h);
      }
    }
    if heads != {} {
      var a :| a in heads;
      assert heads == {a};
    }
  }

  lemma {:induction false} LinearIsForkFree(g: Graph, removed: Clock)
    requires Ok(g) && Linear(g)
    ensures ForkFree(g, removed)
    decreases |Unconfirmed(g, removed)|
  {
    forall n | n in g.deps
      ensures !IsMerge(g, n, removed)
    {
      LinearHasNoMerge(g, n, removed);
    }
    assert Merges(g, removed) == {};
    if ConfirmedTails(g, removed) != {} {
      ShiftShrinks(g, removed);
      LinearIsForkFree(g, RaiseAll(removed, Shift(g, removed)));
    }
  }

  /** Finality: from a DAG whose indexer nodes are causally comparable, the finalized view
      only ever extends, whatever any writer adds. */
  lemma FinalityStable(g: Graph, g': Graph, removed: Clock, base: seq<NodeId>)
    requires Extends(g, g') && Linear(g) && Frontier(g, removed, base) && Frontier(g', removed, base)
    ensures View(g, removed, base) <= View(g', removed, base)
  {
    LinearIsForkFree(g, removed);
    ForkFreeIsFinal(g, g', removed, base);
  }

  /** One indexer's own log is totally ordered. */
  lemma SoleIndexerIsLinear(g: Graph)
    requires Ok(g) && |g.indexers| == 1
    ensures Linear(g)
  {
    var k :| k in g.indexers;
    forall j | j in g.indexers
      ensures j == k
    {
      if j != k {
        SubsetCard({j, k}, g.indexers);
      }
    }
    forall a, b | a in g.deps && b in g.deps && a.key in g.indexers && b.key in g.indexers
      ensures Sees(g.deps, a, b) || Sees(g.deps, b, a)
    {
      if a.pos <= b.pos {
        OwnEarlier(g.deps, b, a.pos);
      } else {
        OwnEarlier(g.deps, a, b.pos);
      }
    }
  }

  /** Every node was added seeing all nodes already present. */
  ghost predicate Cooperative(deps: Deps, log: seq<NodeId>) {
    && Delivery(deps, log)
    && forall i, j :: 0 <= i < j < |log| ==> Sees(deps, log[j], log[i])
  }

  lemma CooperativeIsLinear(g: Graph, log: seq<NodeId>)
    requires Ok(g) && Cooperative(g.deps, log)
    ensures Linear(g)
  {
    forall a, b | a in g.deps && b in g.deps
      ensures Sees(g.deps, a, b) || Sees(g.deps, b, a)
    {
      var i :| 0 <= i < |log| && log[i] == a;
      var j :| 0 <= j < |log| && log[j] == b;
      SeesSelf(g.deps, a);
    }
  }

  /** Finality under cooperative growth: if every node so far was added seeing all nodes then
      present, what is finalized stays a prefix of what is finalized after any addition. */
  lemma CooperativeFinality(g: Graph, g': Graph, log: seq<NodeId>, removed: Clock, base: seq<NodeId>)
    requires Extends(g, g') && Cooperative(g.deps, log) && Frontier(g, removed, base) && Frontier(g', removed, base)
    ensures View(g, removed, base) <= View(g', removed, base)
  {
    hide Cooperative, Frontier, Linear, View;
    CooperativeIsLinear(g, log);
    FinalityStable(g, g', removed, base);
  }
}
