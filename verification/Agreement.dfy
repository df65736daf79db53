/** What finality means, counted in heads alone: a node is agreed on when more than half of the
    indexers have a node that has seen it and has seen more than half of them see it, or when
    every indexer has seen it. Nothing less is ever finalized, and where no indexer is
    concurrent to a node nothing more is asked. */
module Agreement {
  import opened CausalDag
  import opened Kahn
  import opened Confirmation
  import opened FinalizedView
  import opened Finality
  import opened Permanence
  import opened Quorum

  /** More than half of the indexers. */
  ghost predicate Most(g: Graph, s: set<nat>) {
    2 * |s| > |g.indexers|
  }

  /** Indexer `w` has a node that `p` has seen and that has seen `x`. */
  ghost predicate Backs(g: Graph, x: NodeId, p: NodeId, w: nat) {
    exists u :: u in g.deps && u.key == w && Sees(g.deps, p, u) && Sees(g.deps, u, x)
  }

  ghost function Backers(g: Graph, x: NodeId, p: NodeId): set<nat> {
    set w | w in g.indexers && Backs(g, x, p, w)
  }

  /** Indexer `w` has a node that has seen most indexers see `x`. */
  ghost predicate Seals(g: Graph, x: NodeId, w: nat) {
    exists u :: u in g.deps && u.key == w && Sees(g.deps, u, x) && Most(g, Backers(g, x, u))
  }

  ghost function Sealers(g: Graph, x: NodeId): set<nat> {
    set w | w in g.indexers && Seals(g, x, w)
  }

  ghost predicate SeenBy(g: Graph, x: NodeId, w: nat) {
    exists u :: u in g.deps && u.key == w && Sees(g.deps, u, x)
  }

  ghost predicate Everyone(g: Graph, x: NodeId) {
    forall w :: w in g.indexers ==> SeenBy(g, x, w)
  }

  ghost predicate Agreed(g: Graph, x: NodeId) {
    Most(g, Sealers(g, x)) || Everyone(g, x)
  }

  // ---------------------------------------------------------------- nothing less

  /** A vote counted for `m` is a node that has seen whatever `m` has. */
  lemma VoteBacks(g: Graph, m: NodeId, x: NodeId, u: NodeId, key: nat, removed: Clock)
    requires Ok(g) && m in g.deps && Sees(g.deps, m, x)
    requires key in AckKeys(g, m, removed) && Sees(g.deps, u, AckNode(g, m, key, removed))
    ensures Backs(g, x, u, key)
  {
    hide StrictlyNewer, First;
    var a := AckNode(g, m, key, removed);
    if key != m.key {
      SeesTrans(g.deps, a, m, x);
    }
    assert a.key == key by {
      FirstKey(g, m, key, removed);
    }
  }

  lemma FirstKey(g: Graph, o: NodeId, key: nat, removed: Clock)
    ensures First(g, o, key, removed).key == key
  {
  }

  lemma VotesBack(g: Graph, m: NodeId, x: NodeId, u: NodeId, removed: Clock)
    requires Ok(g) && m in g.deps && Sees(g.deps, m, x)
    ensures VotesSeen(g, m, u, removed) <= |Backers(g, x, u)|
  {
    hide AckKeys, AckNode, Backs, Sees, ValidDag;
    var votes := set key | key in AckKeys(g, m, removed) && Sees(g.deps, u, AckNode(g, m, key, removed));
    forall key | key in votes
      ensures key in Backers(g, x, u)
    {
      VoteBacks(g, m, x, u, key, removed);
      AcksAreIndexers(g, m, key, removed);
    }
    SubsetCard(votes, Backers(g, x, u));
  }

  lemma AcksAreIndexers(g: Graph, m: NodeId, key: nat, removed: Clock)
    requires key in AckKeys(g, m, removed)
    ensures key in g.indexers
  {
  }

  lemma MajorityIsMost(g: Graph, s: set<nat>)
    ensures |s| >= Majority(g) <==> Most(g, s)
  {
  }

  /** What a confirmed node has seen is agreed on. */
  lemma ConfirmedIsAgreed(g: Graph, m: NodeId, x: NodeId, removed: Clock)
    requires Ok(g) && m in g.deps && Sees(g.deps, m, x) && Confirmed(g, m, removed)
    ensures Agreed(g, x)
  {
    hide AckKeys, ValidDag, Sees, StrictlyNewer, VotesSeen, HasAcked, WriterLen, Most, Seals, SeenBy;
    if |AckedAll(g, m, removed)| >= Majority(g) {
      forall key | key in AckedAll(g, m, removed)
        ensures key in Sealers(g, x)
      {
        AckedSeals(g, m, x, key, removed);
      }
      SubsetCard(AckedAll(g, m, removed), Sealers(g, x));
      MajorityIsMost(g, Sealers(g, x));
    } else {
      forall key | key in g.indexers
        ensures SeenBy(g, x, key)
      {
        var h := NotUnseen(g, key, m, removed);
        NewerSees(g, m, h, removed);
        SeesTrans(g.deps, h, m, x);
        SeenIs(g, x, h);
      }
    }
  }

  lemma SeenIs(g: Graph, x: NodeId, u: NodeId)
    requires u in g.deps && Sees(g.deps, u, x)
    ensures SeenBy(g, x, u.key)
  {
  }

  lemma NewerSees(g: Graph, t: NodeId, p: NodeId, removed: Clock)
    requires StrictlyNewer(g, t, p, removed)
    ensures Sees(g.deps, p, t)
  {
  }

  lemma AckedSeals(g: Graph, m: NodeId, x: NodeId, key: nat, removed: Clock)
    requires Ok(g) && m in g.deps && Sees(g.deps, m, x)
    requires Status(g, key, m, WriterLen(g.deps, key), removed) == Acked
    ensures Seals(g, x, key)
  {
    hide StrictlyNewer, VotesSeen, Sees, ValidDag, Backers, WriterLen;
    var i: nat :| i < WriterLen(g.deps, key) && StrictlyNewer(g, m, NodeId(key, i), removed)
                  && VotesSeen(g, m, NodeId(key, i), removed) >= Majority(g);
    var u := NodeId(key, i);
    WriterRun(g.deps, key, i);
    NewerSees(g, m, u, removed);
    SeesTrans(g.deps, u, m, x);
    VotesBack(g, m, x, u, removed);
    MajorityIsMost(g, Backers(g, x, u));
  }

  /** Whatever the DAG, nothing is finalized past the base before it is agreed on. */
  lemma {:induction false} FinalizedIsAgreed(g: Graph, removed: Clock, out: seq<NodeId>, n: NodeId)
    requires Ok(g) && n in View(g, removed, out) && n !in out
    ensures Agreed(g, n)
    decreases |Unconfirmed(g, removed)|
  {
    hide Shift, RaiseAll, Unconfirmed, ValidDag, Sees, Agreed, Confirmed;
    var batch := Shift(g, removed);
    ShiftShrinks(g, removed);
    var next := out + Order(g.deps, Fresh(g.deps, batch, out));
    if n in next {
      OrderIsTopological(g.deps, Fresh(g.deps, batch, out));
      var b :| b in batch && Sees(g.deps, b, n);
      var m := ShiftSource(g, removed);
      SeesTrans(g.deps, m, b, n);
      ConfirmedIsAgreed(g, m, n, removed);
    } else {
      FinalizedIsAgreed(g, RaiseAll(removed, batch), next, n);
    }
  }

  // ---------------------------------------------------------------- nothing more

  /** No indexer node is concurrent to `x`. */
  ghost predicate Comparable(g: Graph, x: NodeId) {
    forall n :: n in g.deps && n.key in g.indexers ==> Sees(g.deps, x, n) || Sees(g.deps, n, x)
  }

  /** An open indexer node that no other is concurrent to. */
  ghost predicate Clear(g: Graph, x: NodeId, removed: Clock) {
    Ok(g) && Open(g, x, removed) && RemovedClosed(g, removed) && Comparable(g, x)
  }

  lemma FirstSees(g: Graph, x: NodeId, key: nat, removed: Clock)
    requires Clear(g, x, removed) && key in g.indexers && First(g, x, key, removed) in g.deps
    ensures Sees(g.deps, First(g, x, key, removed), x)
  {
    var f := First(g, x, key, removed);
    ClockIsSees(g.deps, x, key, f.pos);
    if Sees(g.deps, x, f) {
      assert false;
    }
  }

  lemma SeeingIsNewest(g: Graph, x: NodeId, p: NodeId, removed: Clock)
    requires Clear(g, x, removed) && p in g.deps && Sees(g.deps, p, x)
    ensures StrictlyNewer(g, x, p, removed)
  {
    hide First, Sees, ValidDag, Comparable, RemovedClosed;
    forall key | key in g.indexers && Sees(g.deps, p, First(g, x, key, removed))
      ensures Sees(g.deps, First(g, x, key, removed), x)
    {
      SeesDelivered(g.deps, p, First(g, x, key, removed));
      FirstSees(g, x, key, removed);
    }
  }

  /** Whatever has seen `x` comes no earlier than its writer's vote. */
  lemma VoteFirst(g: Graph, x: NodeId, u: NodeId, removed: Clock)
    requires Clear(g, x, removed) && u in g.deps && u.key in g.indexers && Sees(g.deps, u, x)
    ensures u.key in AckKeys(g, x, removed)
    ensures Sees(g.deps, u, AckNode(g, x, u.key, removed)) && Sees(g.deps, AckNode(g, x, u.key, removed), x)
    ensures u.pos >= Get(removed, u.key)
  {
    hide ValidDag, StrictlyNewer, Comparable;
    OpenAbove(g, u, x, removed);
    SeesSelf(g.deps, x);
    if u.key != x.key {
      var f := First(g, x, u.key, removed);
      ClockIsSees(g.deps, x, u.key, u.pos);
      if Sees(g.deps, x, u) {
        SeesAntisym(g.deps, x, u);
      }
      OwnEarlier(g.deps, u, f.pos);
      SeesDelivered(g.deps, u, f);
      FirstSees(g, x, u.key, removed);
      SeeingIsNewest(g, x, f, removed);
    }
  }

  lemma BackersVote(g: Graph, x: NodeId, p: NodeId, removed: Clock)
    requires Clear(g, x, removed)
    ensures |Backers(g, x, p)| <= VotesSeen(g, x, p, removed)
  {
    hide AckKeys, AckNode, Sees, Clear;
    var votes := set key | key in AckKeys(g, x, removed) && Sees(g.deps, p, AckNode(g, x, key, removed));
    forall w | w in Backers(g, x, p)
      ensures w in votes
    {
      var u :| u in g.deps && u.key == w && Sees(g.deps, p, u) && Sees(g.deps, u, x);
      VoteFirst(g, x, u, removed);
      SeesTrans(g.deps, p, u, AckNode(g, x, w, removed));
    }
    SubsetCard(Backers(g, x, p), votes);
  }

  lemma SealerAcks(g: Graph, x: NodeId, key: nat, removed: Clock)
    requires Clear(g, x, removed) && key in g.indexers && Seals(g, x, key)
    ensures Status(g, key, x, WriterLen(g.deps, key), removed) == Acked
  {
    hide StrictlyNewer, VotesSeen, Sees, ValidDag, Backers, WriterLen, RemovedClosed, Comparable;
    var u :| u in g.deps && u.key == key && Sees(g.deps, u, x) && Most(g, Backers(g, x, u));
    assert u == NodeId(key, u.pos);
    WriterRun(g.deps, key, u.pos);
    VoteFirst(g, x, u, removed);
    SeeingIsNewest(g, x, u, removed);
    BackersVote(g, x, u, removed);
    MajorityIsMost(g, Backers(g, x, u));
    assert HasAcked(g, key, x, WriterLen(g.deps, key), removed);
  }

  lemma SeenIsNotUnseen(g: Graph, x: NodeId, key: nat, removed: Clock)
    requires Clear(g, x, removed) && key in g.indexers && SeenBy(g, x, key)
    ensures key in AckKeys(g, x, removed) && Status(g, key, x, WriterLen(g.deps, key), removed) != Unseen
  {
    hide StrictlyNewer, VotesSeen, Sees, ValidDag, WriterLen, RemovedClosed, Comparable, AckKeys, AckNode;
    var u :| u in g.deps && u.key == key && Sees(g.deps, u, x);
    assert u == NodeId(key, u.pos);
    WriterRun(g.deps, key, u.pos);
    var last := NodeId(key, WriterLen(g.deps, key) - 1);
    WriterRun(g.deps, key, last.pos);
    OwnEarlier(g.deps, last, u.pos);
    SeesTrans(g.deps, last, u, x);
    VoteFirst(g, x, u, removed);
    SeeingIsNewest(g, x, last, removed);
  }

  /** One seal already takes a majority of votes. */
  lemma AgreedHasVotes(g: Graph, x: NodeId, removed: Clock)
    requires Clear(g, x, removed) && Agreed(g, x)
    ensures |AckKeys(g, x, removed)| >= Majority(g)
  {
    hide AckKeys, Sees, Clear, ValidDag, Backs;
    if Everyone(g, x) {
      forall key | key in g.indexers
        ensures key in AckKeys(g, x, removed)
      {
        SeenIsNotUnseen(g, x, key, removed);
      }
      SubsetCard(g.indexers, AckKeys(g, x, removed));
      HasIndexer(g, x, removed);
    } else {
      var w :| w in Sealers(g, x);
      var u :| u in g.deps && u.key == w && Sees(g.deps, u, x) && Most(g, Backers(g, x, u));
      forall key | key in Backers(g, x, u)
        ensures key in AckKeys(g, x, removed)
      {
        BackerVotes(g, x, u, key, removed);
      }
      SubsetCard(Backers(g, x, u), AckKeys(g, x, removed));
    }
  }

  lemma HasIndexer(g: Graph, x: NodeId, removed: Clock)
    requires Clear(g, x, removed)
    ensures |g.indexers| > 0
  {
    assert x.key in g.indexers;
  }

  lemma BackerVotes(g: Graph, x: NodeId, p: NodeId, key: nat, removed: Clock)
    requires Clear(g, x, removed) && key in Backers(g, x, p)
    ensures key in AckKeys(g, x, removed)
  {
    hide AckKeys, AckNode, Sees, Clear;
    var u :| u in g.deps && u.key == key && Sees(g.deps, p, u) && Sees(g.deps, u, x);
    VoteFirst(g, x, u, removed);
  }

  /** An agreed node that no indexer is concurrent to is confirmed. */
  lemma AgreedConfirms(g: Graph, x: NodeId, removed: Clock)
    requires Clear(g, x, removed) && Agreed(g, x)
    ensures Confirmed(g, x, removed)
  {
    hide AckKeys, Status, Clear, Most, Seals, SeenBy, WriterLen;
    AgreedHasVotes(g, x, removed);
    if Most(g, Sealers(g, x)) {
      forall key | key in Sealers(g, x)
        ensures key in AckedAll(g, x, removed)
      {
        SealerAcks(g, x, key, removed);
      }
      SubsetCard(Sealers(g, x), AckedAll(g, x, removed));
      MajorityIsMost(g, Sealers(g, x));
    } else {
      forall key | key in g.indexers
        ensures Status(g, key, x, WriterLen(g.deps, key), removed) != Unseen
      {
        SeenIsNotUnseen(g, x, key, removed);
      }
    }
  }

  /** An indexer node past the base that no indexer is concurrent to is finalized exactly when
      it is agreed on. */
  lemma ComparableIsFinal(g: Graph, removed: Clock, out: seq<NodeId>, x: NodeId)
    requires Ok(g) && Frontier(g, removed, out) && Open(g, x, removed) && Comparable(g, x)
    ensures x in View(g, removed, out) <==> Agreed(g, x)
  {
    hide View, Final, Shift, Agreed, Confirmed, ValidDag, Comparable;
    if x in View(g, removed, out) {
      FinalizedIsAgreed(g, removed, out, x);
    }
    if Agreed(g, x) {
      ViewIsFrontier(g, removed, out);
      var stuck := Final(g, removed);
      FrontierClosed(g, stuck, View(g, removed, out));
      if x !in View(g, removed, out) {
        AgreedConfirms(g, x, stuck);
        ConfirmedMoves(g, x, stuck);
      }
    }
  }

  /** The finalized view is at least as eager as the double-quorum rule: a node of quorum degree
      two that no indexer is concurrent to is finalized. */
  lemma DoubleQuorumIsFinal(g: Graph, removed: Clock, out: seq<NodeId>, x: NodeId, v: NodeId)
    requires Ok(g) && Frontier(g, removed, out) && Open(g, x, removed) && Comparable(g, x)
    requires v in g.deps && Witness(g, x, v, 2)
    ensures x in View(g, removed, out)
  {
    hide View, Frontier, Comparable, Open;
    DoubleQuorumIsAgreed(g, x, v);
    ComparableIsFinal(g, removed, out, x);
  }

  lemma DoubleQuorumIsAgreed(g: Graph, x: NodeId, v: NodeId)
    requires Witness(g, x, v, 2)
    ensures Agreed(g, x)
  {
    hide Sees, Most, Backers;
    var voters := set w | w in g.indexers && Vouch(g, x, v, w, 1);
    forall w | w in voters
      ensures w in Sealers(g, x)
    {
      var u :| u in Past(g.deps, v) && u.key == w && Witness(g, x, u, 1);
      QuorumBacks(g, x, u);
    }
    SubsetCard(voters, Sealers(g, x));
    MajorityIsMost(g, Sealers(g, x));
  }

  lemma QuorumBacks(g: Graph, x: NodeId, u: NodeId)
    requires Witness(g, x, u, 1)
    ensures Most(g, Backers(g, x, u))
  {
    hide Sees;
    var voters := set w | w in g.indexers && Vouch(g, x, u, w, 0);
    forall w | w in voters
      ensures Backs(g, x, u, w)
    {
      var y :| y in Past(g.deps, u) && y.key == w && Witness(g, x, y, 0);
    }
    SubsetCard(voters, Backers(g, x, u));
  }

  // ---------------------------------------------------------------- degrees

  /** Indexer `w` has a node in `v`'s history that witnesses degree `k`. */
  ghost predicate Attests(g: Graph, x: NodeId, v: NodeId, w: nat, k: nat) {
    exists u :: u in g.deps && u.key == w && Sees(g.deps, v, u) && Witness(g, x, u, k)
  }

  /** Each degree takes more than half of the indexers attesting the one below. */
  lemma DegreeStep(g: Graph, x: NodeId, v: NodeId, k: nat)
    ensures Witness(g, x, v, k + 1) <==> Most(g, set w | w in g.indexers && Attests(g, x, v, w, k))
  {
    hide Sees;
    var all, voters := (set w | w in g.indexers && Attests(g, x, v, w, k)), set w | w in g.indexers && Vouch(g, x, v, w, k);
    forall w
      ensures Attests(g, x, v, w, k) && w in g.indexers <==> Vouch(g, x, v, w, k)
    {
      if Vouch(g, x, v, w, k) {
        var u :| u in Past(g.deps, v) && u.key == w && Witness(g, x, u, k);
        assert u in g.deps;
      }
      if Attests(g, x, v, w, k) {
        var u :| u in g.deps && u.key == w && Sees(g.deps, v, u) && Witness(g, x, u, k);
        assert u in Past(g.deps, v);
      }
    }
    assert all == voters;
    if Most(g, all) {
      var w :| w in all;
      var u :| u in g.deps && u.key == w && Sees(g.deps, v, u) && Witness(g, x, u, k);
      SeesTrans(g.deps, v, u, x);
    }
  }

  /** A target has a quorum exactly when some node's history holds nodes of more than half of
      the indexers that have seen it. */
  lemma DegreeOne(g: Graph, x: NodeId, v: NodeId)
    ensures Witness(g, x, v, 1) <==> Most(g, Backers(g, x, v))
  {
    hide Sees;
    DegreeStep(g, x, v, 0);
    assert Backers(g, x, v) == set w | w in g.indexers && Attests(g, x, v, w, 0);
  }
}
