/** Permanence: with any number of indexers and however the DAG grows, forks included, nothing
    that was finalized is ever lost. Only its order can change. */
module Permanence {
  import opened CausalDag
  import opened Kahn
  import opened Confirmation
  import opened FinalizedView
  import opened Finality

  /** No writer is further in `a` than in `b`. */
  ghost predicate Leq(a: Clock, b: Clock) {
    forall key :: Get(a, key) <= Get(b, key)
  }

  /** An unconfirmed indexer node. */
  ghost predicate Open(g: Graph, n: NodeId, removed: Clock) {
    n in g.deps && n.key in g.indexers && n.pos >= Get(removed, n.key)
  }

  // ---------------------------------------------------------------- later clocks

  /** What has seen an open node is open. */
  lemma OpenAbove(g: Graph, n: NodeId, m: NodeId, removed: Clock)
    requires RemovedClosed(g, removed) && Open(g, m, removed)
    requires n in g.deps && n.key in g.indexers && Sees(g.deps, n, m)
    ensures Open(g, n, removed)
  {
  }

  /** The first node after `t` only moves on, and not past one that acknowledges `t`. */
  lemma FirstRaised(g: Graph, t: NodeId, key: nat, removed: Clock, later: Clock)
    requires Ok(g) && Leq(removed, later)
    ensures First(g, t, key, removed).pos <= First(g, t, key, later).pos
    ensures var f := First(g, t, key, removed);
            RemovedClosed(g, later) && Open(g, t, later) && key in g.indexers && f in g.deps && Sees(g.deps, f, t)
            ==> First(g, t, key, later) == f
  {
    var f := First(g, t, key, removed);
    assert Get(removed, key) <= Get(later, key);
    if RemovedClosed(g, later) && Open(g, t, later) && key in g.indexers && f in g.deps && Sees(g.deps, f, t) {
      OpenAbove(g, f, t, later);
    }
  }

  lemma NewerRaised(g: Graph, t: NodeId, p: NodeId, removed: Clock, later: Clock)
    requires Ok(g) && Leq(removed, later) && p in g.deps && StrictlyNewer(g, t, p, removed)
    ensures StrictlyNewer(g, t, p, later)
  {
    forall key | key in g.indexers && Sees(g.deps, p, First(g, t, key, later))
      ensures Sees(g.deps, First(g, t, key, later), t)
    {
      var f, f' := First(g, t, key, removed), First(g, t, key, later);
      FirstRaised(g, t, key, removed, later);
      SeesDelivered(g.deps, p, f');
      OwnEarlier(g.deps, f', f.pos);
      SeesTrans(g.deps, p, f', f);
      SeesTrans(g.deps, f', f, t);
    }
  }

  lemma AckRaised(g: Graph, t: NodeId, key: nat, removed: Clock, later: Clock)
    requires Ok(g) && Leq(removed, later) && RemovedClosed(g, later) && Open(g, t, later)
    requires key in AckKeys(g, t, removed)
    ensures key in AckKeys(g, t, later) && AckNode(g, t, key, later) == AckNode(g, t, key, removed)
  {
    if key != t.key {
      hide First, StrictlyNewer, RemovedClosed, ValidDag, Sees;
      FirstRaised(g, t, key, removed, later);
      NewerRaised(g, t, First(g, t, key, removed), removed, later);
    }
  }

  lemma VotesRaised(g: Graph, t: NodeId, head: NodeId, removed: Clock, later: Clock)
    requires Ok(g) && Leq(removed, later) && RemovedClosed(g, later) && Open(g, t, later)
    ensures VotesSeen(g, t, head, removed) <= VotesSeen(g, t, head, later)
  {
    hide AckKeys, AckNode, RemovedClosed, ValidDag, Sees, Leq, Open;
    var a := set key | key in AckKeys(g, t, removed) && Sees(g.deps, head, AckNode(g, t, key, removed));
    var b := set key | key in AckKeys(g, t, later) && Sees(g.deps, head, AckNode(g, t, key, later));
    forall key | key in a
      ensures key in b
    {
      AckRaised(g, t, key, removed, later);
    }
    SubsetCard(a, b);
  }

  /** A node strictly newer than an open one is open, and stays strictly newer. */
  lemma NewerOpen(g: Graph, t: NodeId, p: NodeId, removed: Clock, later: Clock)
    requires Ok(g) && Leq(removed, later) && RemovedClosed(g, later) && Open(g, t, later)
    requires p in g.deps && p.key in g.indexers && StrictlyNewer(g, t, p, removed)
    ensures StrictlyNewer(g, t, p, later) && Get(later, p.key) <= p.pos
  {
    NewerRaised(g, t, p, removed, later);
    OpenAbove(g, p, t, later);
  }

  lemma StatusRaised(g: Graph, key: nat, t: NodeId, removed: Clock, later: Clock)
    requires Ok(g) && Leq(removed, later) && RemovedClosed(g, later) && Open(g, t, later) && key in g.indexers
    requires Status(g, key, t, WriterLen(g.deps, key), removed) != Unseen
    ensures Status(g, key, t, WriterLen(g.deps, key), later) != Unseen
    ensures Status(g, key, t, WriterLen(g.deps, key), removed) == Acked ==>
              Status(g, key, t, WriterLen(g.deps, key), later) == Acked
  {
    hide StrictlyNewer, VotesSeen, RemovedClosed, ValidDag, WriterLen, Open, Leq;
    var length := WriterLen(g.deps, key);
    if HasAcked(g, key, t, length, removed) {
      var i: nat :| i < length && StrictlyNewer(g, t, NodeId(key, i), removed)
                    && VotesSeen(g, t, NodeId(key, i), removed) >= Majority(g);
      WriterRun(g.deps, key, i);
      NewerOpen(g, t, NodeId(key, i), removed, later);
      VotesRaised(g, t, NodeId(key, i), removed, later);
      assert HasAcked(g, key, t, length, later);
    } else {
      WriterRun(g.deps, key, length - 1);
      NewerOpen(g, t, NodeId(key, length - 1), removed, later);
    }
  }

  /** An open node that is confirmed stays confirmed as others leave the frontier. */
  lemma ConfirmedRaised(g: Graph, t: NodeId, removed: Clock, later: Clock)
    requires Ok(g) && Leq(removed, later) && RemovedClosed(g, later) && Open(g, t, later)
    requires Confirmed(g, t, removed)
    ensures Confirmed(g, t, later)
  {
    hide AckKeys, Status, RemovedClosed, ValidDag, WriterLen, Open, Leq;
    forall key | key in AckKeys(g, t, removed)
      ensures key in AckKeys(g, t, later)
    {
      AckRaised(g, t, key, removed, later);
    }
    SubsetCard(AckKeys(g, t, removed), AckKeys(g, t, later));
    forall key | key in g.indexers && Status(g, key, t, WriterLen(g.deps, key), removed) != Unseen
      ensures Status(g, key, t, WriterLen(g.deps, key), later) != Unseen
      ensures Status(g, key, t, WriterLen(g.deps, key), removed) == Acked ==>
                Status(g, key, t, WriterLen(g.deps, key), later) == Acked
    {
      StatusRaised(g, key, t, removed, later);
    }
    SubsetCard(AckedAll(g, t, removed), AckedAll(g, t, later));
  }

  // ---------------------------------------------------------------- down a single branch

  /** `h` lies below `m` and has seen every other open indexer node that `m` has. */
  ghost predicate Covers(g: Graph, m: NodeId, h: NodeId, removed: Clock) {
    && Open(g, m, removed) && Open(g, h, removed) && h != m && Sees(g.deps, m, h)
    && forall n :: Open(g, n, removed) && n != m && Sees(g.deps, m, n) ==> Sees(g.deps, h, n)
  }

  /** Then the two leave the same unseen, but for `m` itself. */
  lemma FirstCovered(g: Graph, m: NodeId, h: NodeId, key: nat, removed: Clock)
    requires Ok(g) && Covers(g, m, h, removed) && key in g.indexers
    ensures First(g, h, key, removed) == if key == m.key then m else First(g, m, key, removed)
  {
    hide ValidDag, Sees;
    var a, b, r := Len(g.deps, m, key), Len(g.deps, h, key), Get(removed, key);
    LenMonotone(g.deps, m, h, key);
    if key == m.key {
      ClockIsSees(g.deps, h, key, m.pos);
      if Sees(g.deps, h, m) {
        SeesAntisym(g.deps, m, h);
      }
      if m.pos > r {
        CoveredSees(g, m, h, NodeId(key, m.pos - 1), removed);
      }
    } else if a > r {
      ClockIsSees(g.deps, m, key, a - 1);
      CoveredSees(g, m, h, NodeId(key, a - 1), removed);
    }
  }

  lemma CoveredSees(g: Graph, m: NodeId, h: NodeId, n: NodeId, removed: Clock)
    requires Ok(g) && Covers(g, m, h, removed) && n.key in g.indexers && n.pos >= Get(removed, n.key) && n != m
    requires Sees(g.deps, m, n) || (n.key == m.key && n.pos < m.pos)
    ensures Sees(g.deps, h, n) && n.pos < Len(g.deps, h, n.key)
  {
    if n.key == m.key && n.pos < m.pos {
      OwnEarlier(g.deps, m, n.pos);
    }
    SeesDelivered(g.deps, m, n);
    ClockIsSees(g.deps, h, n.key, n.pos);
  }

  lemma NewerCovered(g: Graph, m: NodeId, h: NodeId, p: NodeId, removed: Clock)
    requires Ok(g) && Covers(g, m, h, removed) && StrictlyNewer(g, m, p, removed)
    ensures StrictlyNewer(g, h, p, removed)
  {
    hide First, ValidDag, Open;
    SeesTrans(g.deps, p, m, h);
    forall key | key in g.indexers && Sees(g.deps, p, First(g, h, key, removed))
      ensures Sees(g.deps, First(g, h, key, removed), h)
    {
      FirstCovered(g, m, h, key, removed);
      if key != m.key {
        SeesTrans(g.deps, First(g, m, key, removed), m, h);
      }
    }
  }

  /** A node votes for what lies right below it. */
  lemma SelfNewer(g: Graph, m: NodeId, h: NodeId, removed: Clock)
    requires Ok(g) && Covers(g, m, h, removed)
    ensures StrictlyNewer(g, h, m, removed)
  {
    forall key | key in g.indexers && Sees(g.deps, m, First(g, h, key, removed))
      ensures Sees(g.deps, First(g, h, key, removed), h)
    {
      FirstCovered(g, m, h, key, removed);
      if key != m.key {
        ClockIsSees(g.deps, m, key, First(g, m, key, removed).pos);
      }
    }
  }

  lemma AckCovered(g: Graph, m: NodeId, h: NodeId, key: nat, removed: Clock)
    requires Ok(g) && Covers(g, m, h, removed) && key in AckKeys(g, m, removed)
    ensures key in AckKeys(g, h, removed)
    ensures Sees(g.deps, AckNode(g, m, key, removed), AckNode(g, h, key, removed))
  {
    hide First, ValidDag, StrictlyNewer, Sees;
    FirstCovered(g, m, h, key, removed);
    SeesSelf(g.deps, AckNode(g, m, key, removed));
    if key == m.key {
      SelfNewer(g, m, h, removed);
    } else {
      var f := First(g, m, key, removed);
      SeesTrans(g.deps, f, m, h);
      NewerCovered(g, m, h, f, removed);
    }
  }

  lemma VotesCovered(g: Graph, m: NodeId, h: NodeId, head: NodeId, removed: Clock)
    requires Ok(g) && Covers(g, m, h, removed)
    ensures VotesSeen(g, m, head, removed) <= VotesSeen(g, h, head, removed)
  {
    hide AckKeys, AckNode, ValidDag, Sees, Covers;
    var a := set key | key in AckKeys(g, m, removed) && Sees(g.deps, head, AckNode(g, m, key, removed));
    var b := set key | key in AckKeys(g, h, removed) && Sees(g.deps, head, AckNode(g, h, key, removed));
    forall key | key in a
      ensures key in b
    {
      AckCovered(g, m, h, key, removed);
      SeesTrans(g.deps, head, AckNode(g, m, key, removed), AckNode(g, h, key, removed));
    }
    SubsetCard(a, b);
  }

  lemma StatusCovered(g: Graph, key: nat, m: NodeId, h: NodeId, removed: Clock)
    requires Ok(g) && Covers(g, m, h, removed)
    requires Status(g, key, m, WriterLen(g.deps, key), removed) != Unseen
    ensures Status(g, key, h, WriterLen(g.deps, key), removed) != Unseen
    ensures Status(g, key, m, WriterLen(g.deps, key), removed) == Acked ==>
              Status(g, key, h, WriterLen(g.deps, key), removed) == Acked
  {
    hide StrictlyNewer, VotesSeen, ValidDag, WriterLen, Covers;
    var length := WriterLen(g.deps, key);
    if HasAcked(g, key, m, length, removed) {
      var i: nat :| i < length && StrictlyNewer(g, m, NodeId(key, i), removed)
                    && VotesSeen(g, m, NodeId(key, i), removed) >= Majority(g);
      NewerCovered(g, m, h, NodeId(key, i), removed);
      VotesCovered(g, m, h, NodeId(key, i), removed);
      assert HasAcked(g, key, h, length, removed);
    } else {
      NewerCovered(g, m, h, NodeId(key, length - 1), removed);
    }
  }

  /** What confirms a node confirms the one its open history hangs from. */
  lemma ConfirmedCovered(g: Graph, m: NodeId, h: NodeId, removed: Clock)
    requires Ok(g) && Covers(g, m, h, removed) && Confirmed(g, m, removed)
    ensures Confirmed(g, h, removed)
  {
    hide AckKeys, Status, ValidDag, WriterLen, Covers;
    forall key | key in AckKeys(g, m, removed)
      ensures key in AckKeys(g, h, removed)
    {
      AckCovered(g, m, h, key, removed);
    }
    SubsetCard(AckKeys(g, m, removed), AckKeys(g, h, removed));
    forall key | key in g.indexers && Status(g, key, m, WriterLen(g.deps, key), removed) != Unseen
      ensures Status(g, key, h, WriterLen(g.deps, key), removed) != Unseen
      ensures Status(g, key, m, WriterLen(g.deps, key), removed) == Acked ==>
                Status(g, key, h, WriterLen(g.deps, key), removed) == Acked
    {
      StatusCovered(g, key, m, h, removed);
    }
    SubsetCard(AckedAll(g, m, removed), AckedAll(g, h, removed));
  }

  // ---------------------------------------------------------------- heads of an open history

  /** Every open node below `m` is seen by one of its heads. */
  lemma HeadAbove(g: Graph, m: NodeId, n: NodeId, removed: Clock) returns (h: NodeId)
    requires Ok(g) && Open(g, m, removed) && Open(g, n, removed) && n != m && Sees(g.deps, m, n)
    ensures h in MergeHeads(g, m, removed) && Sees(g.deps, h, n)
  {
    ClockIsSees(g.deps, m, n.key, n.pos);
    if n.key == m.key && n.pos >= m.pos {
      OwnEarlier(g.deps, n, m.pos);
      SeesAntisym(g.deps, m, n);
    }
    h := NodeId(n.key, LengthBelow(g, m, n.key) - 1);
    HeadFacts(g, m, h, removed);
    OwnEarlier(g.deps, h, n.pos);
  }

  lemma HeadFacts(g: Graph, m: NodeId, h: NodeId, removed: Clock)
    requires Ok(g) && m in g.deps && h in MergeHeads(g, m, removed)
    ensures Open(g, h, removed) && h != m && Sees(g.deps, m, h)
  {
    if h.key == m.key {
      OwnEarlier(g.deps, m, h.pos);
    } else {
      ClockIsSees(g.deps, m, h.key, h.pos);
    }
    SeesDelivered(g.deps, m, h);
  }

  /** Every head is seen by a maximal one. */
  lemma {:induction false} MaximalAbove(g: Graph, m: NodeId, o: NodeId, removed: Clock) returns (h: NodeId)
    requires Ok(g) && m in g.deps && o in MergeHeads(g, m, removed)
    ensures h in MaximalHeads(g, m, removed) && h in MergeHeads(g, m, removed) && Sees(g.deps, h, o)
    decreases |g.deps| - |Past(g.deps, o)|
  {
    hide MergeHeads, ValidDag, Sees;
    SubsetCard(Past(g.deps, o), g.deps.Keys);
    if o in MaximalHeads(g, m, removed) {
      SeesSelf(g.deps, o);
      h := o;
    } else {
      var p :| p in MergeHeads(g, m, removed) && p != o && Sees(g.deps, p, o);
      HeadFacts(g, m, p, removed);
      PastShrinks(g.deps, p, o);
      SubsetCard(Past(g.deps, p), g.deps.Keys);
      h := MaximalAbove(g, m, p, removed);
      SeesTrans(g.deps, h, p, o);
    }
  }

  /** A node that is no merge is a tail, or hangs from its single maximal head. */
  lemma TailOrCovered(g: Graph, m: NodeId, removed: Clock) returns (h: NodeId)
    requires Ok(g) && Open(g, m, removed) && !IsMerge(g, m, removed) && m !in Tails(g, removed)
    ensures Covers(g, m, h, removed)
  {
    hide ValidDag, Sees, MergeHeads, MaximalHeads, Tails;
    var n := OpenBelow(g, m, removed);
    var o := HeadAbove(g, m, n, removed);
    h := MaximalAbove(g, m, o, removed);
    HeadFacts(g, m, h, removed);
    forall k | Open(g, k, removed) && k != m && Sees(g.deps, m, k)
      ensures Sees(g.deps, h, k)
    {
      var p := HeadAbove(g, m, k, removed);
      var q := MaximalAbove(g, m, p, removed);
      if q != h {
        SubsetCard({q, h}, MaximalHeads(g, m, removed));
      }
      SeesTrans(g.deps, q, p, k);
    }
  }

  lemma OpenBelow(g: Graph, m: NodeId, removed: Clock) returns (n: NodeId)
    requires Ok(g) && Open(g, m, removed) && m !in Tails(g, removed)
    ensures Open(g, n, removed) && n != m && Sees(g.deps, m, n)
  {
    var f := NodeId(m.key, Get(removed, m.key));
    if f != m {
      OwnEarlier(g.deps, m, f.pos);
      SeesDelivered(g.deps, m, f);
      n := f;
    } else {
      assert f in Firsts(g, removed);
      n :| n in Firsts(g, removed) && n != m && Sees(g.deps, m, n);
    }
  }

  /** A tail is an open indexer node that has seen no other. */
  lemma TailIsLowest(g: Graph, t: NodeId, removed: Clock)
    requires Ok(g)
    ensures t in Tails(g, removed) <==>
            Open(g, t, removed) && forall n :: Open(g, n, removed) && n != t ==> !Sees(g.deps, t, n)
  {
    hide ValidDag, Sees, Tails;
    if t in Tails(g, removed) {
      TailFacts(g, t, removed);
      forall n | Open(g, n, removed) && n != t
        ensures !Sees(g.deps, t, n)
      {
        if Sees(g.deps, t, n) {
          TailHistory(g, t, n, removed);
        }
      }
    } else if Open(g, t, removed) {
      var n := OpenBelow(g, t, removed);
    }
  }

  /** `c` lies below `n` and has seen both `a` and `b`. */
  ghost predicate JoinsBelow(g: Graph, n: NodeId, c: NodeId, a: NodeId, b: NodeId, removed: Clock) {
    Open(g, c, removed) && c != n && Sees(g.deps, n, c) && Sees(g.deps, c, a) && Sees(g.deps, c, b)
  }

  /** `n` is the first to see both `a` and `b`. */
  ghost predicate FirstToJoin(g: Graph, n: NodeId, a: NodeId, b: NodeId, removed: Clock) {
    && Open(g, a, removed) && a != n && Sees(g.deps, n, a) && Open(g, b, removed) && b != n && Sees(g.deps, n, b)
    && forall c :: !JoinsBelow(g, n, c, a, b, removed)
  }

  /** An open node is a merge exactly when it is the first to see two open indexer nodes. */
  lemma MergeIsFirstToJoin(g: Graph, n: NodeId, removed: Clock)
    requires Ok(g) && Open(g, n, removed)
    ensures IsMerge(g, n, removed) <==> exists a, b :: FirstToJoin(g, n, a, b, removed)
  {
    hide ValidDag, Sees, MergeHeads, Tails;
    if IsMerge(g, n, removed) {
      var a :| a in MaximalHeads(g, n, removed);
      var b := MoreHeads(MaximalHeads(g, n, removed), a);
      HeadFacts(g, n, a, removed);
      HeadFacts(g, n, b, removed);
      forall c
        ensures !JoinsBelow(g, n, c, a, b, removed)
      {
        if JoinsBelow(g, n, c, a, b, removed) {
          var p := HeadAbove(g, n, c, removed);
          SeesTrans(g.deps, p, c, a);
          SeesTrans(g.deps, p, c, b);
        }
      }
      assert FirstToJoin(g, n, a, b, removed);
    } else if exists a, b :: FirstToJoin(g, n, a, b, removed) {
      var a, b :| FirstToJoin(g, n, a, b, removed);
      if n in Tails(g, removed) {
        TailHistory(g, n, a, removed);
      } else {
        var h := TailOrCovered(g, n, removed);
        assert JoinsBelow(g, n, h, a, b, removed);
      }
    }
  }

  lemma MoreHeads(s: set<NodeId>, a: NodeId) returns (b: NodeId)
    requires |s| > 1
    ensures b in s && b != a
  {
    if s <= {a} {
      SubsetCard(s, {a});
    }
    b :| b in s && b != a;
  }

  /** The machine is not stuck while any open node is confirmed. */
  lemma {:induction false} ConfirmedMoves(g: Graph, m: NodeId, removed: Clock)
    requires Ok(g) && Open(g, m, removed) && Confirmed(g, m, removed)
    ensures Shift(g, removed) != []
    decreases |Past(g.deps, m)|
  {
    hide Confirmed, ValidDag, Tails, IsMerge, Yield, Sees, Past;
    if m in Tails(g, removed) {
      assert m in ConfirmedTails(g, removed);
    } else if IsMerge(g, m, removed) {
      assert m in ConfirmedMerges(g, removed);
      YieldsTails(g, Min(ConfirmedMerges(g, removed)), removed);
    } else {
      var h := TailOrCovered(g, m, removed);
      ConfirmedCovered(g, m, h, removed);
      PastShrinks(g.deps, m, h);
      ConfirmedMoves(g, h, removed);
    }
  }

  // ---------------------------------------------------------------- whole runs

  /** A merge yields tails it has seen. */
  lemma {:induction false} YieldSeen(g: Graph, n: NodeId, removed: Clock, t: NodeId)
    requires Ok(g) && n in g.deps && t in Yield(g, n, removed)
    ensures Sees(g.deps, n, t)
    decreases |Past(g.deps, n)|
  {
    hide ConfirmedAt, Tails, Merges, ValidDag, Sees, Past;
    if n in Tails(g, removed) {
      SeesSelf(g.deps, n);
    } else if TailsBelow(g, n, removed) != {} {
      var m := Min(TailsBelow(g, n, removed));
      PastShrinks(g.deps, n, m);
      YieldSeen(g, m, removed, t);
      SeesTrans(g.deps, n, m, t);
    } else if MergesBelow(g, n, removed) != {} {
      var m := Min(MergesBelow(g, n, removed));
      PastShrinks(g.deps, n, m);
      YieldSeen(g, m, removed, t);
      SeesTrans(g.deps, n, m, t);
    }
  }

  /** Every step of the machine takes tails below one confirmed node. */
  lemma ShiftSource(g: Graph, removed: Clock) returns (m: NodeId)
    requires Ok(g) && Shift(g, removed) != []
    ensures Open(g, m, removed) && Confirmed(g, m, removed)
    ensures forall t :: t in Shift(g, removed) ==> Sees(g.deps, m, t)
  {
    hide Confirmed, Tails, IsMerge, ValidDag, Sees, Yield;
    if ConfirmedTails(g, removed) != {} {
      m := Min(ConfirmedTails(g, removed));
      TailFacts(g, m, removed);
      SeesSelf(g.deps, m);
    } else {
      m := Min(ConfirmedMerges(g, removed));
      forall t | t in Shift(g, removed)
        ensures Sees(g.deps, m, t)
      {
        YieldSeen(g, m, removed, t);
      }
    }
  }

  /** What one step takes has already left any frontier on which a larger DAG is stuck. */
  lemma StepWithin(g: Graph, g': Graph, removed: Clock, stuck: Clock, t: NodeId)
    requires Extends(g, g') && RemovedClosed(g, removed) && RemovedClosed(g', stuck)
    requires Leq(removed, stuck) && Shift(g', stuck) == [] && t in Shift(g, removed)
    ensures t.pos < Get(stuck, t.key)
  {
    hide Confirmed, Shift, Tails, RemovedClosed, Closed, Acyclic, Sees;
    ShiftsTails(g, removed);
    TailFacts(g, t, removed);
    if t.pos >= Get(stuck, t.key) {
      var m := ShiftSource(g, removed);
      SeesGrows(g.deps, g'.deps, m, t);
      OpenAbove(g', m, t, stuck);
      ConfirmedGrows(g, g', m, removed);
      ConfirmedRaised(g', m, removed, stuck);
      ConfirmedMoves(g', m, stuck);
    }
  }

  lemma RaisedWithin(g: Graph, removed: Clock, stuck: Clock)
    requires Ok(g) && Leq(removed, stuck) && forall t :: t in Shift(g, removed) ==> t.pos < Get(stuck, t.key)
    ensures Leq(RaiseAll(removed, Shift(g, removed)), stuck)
  {
    hide Shift, Tails, ValidDag;
    var batch := Shift(g, removed);
    ShiftsTails(g, removed);
    forall t | t in batch
      ensures t.pos == Get(removed, t.key)
    {
      TailFacts(g, t, removed);
    }
    forall key
      ensures Get(RaiseAll(removed, batch), key) <= Get(stuck, key)
    {
      RaiseAllGet(removed, batch, key);
      assert Get(removed, key) <= Get(stuck, key);
    }
  }

  /** A run never gets past a frontier on which a larger DAG is stuck. */
  lemma {:induction false} RunWithin(g: Graph, g': Graph, removed: Clock, out: seq<NodeId>, stuck: Clock)
    requires Extends(g, g') && Frontier(g, removed, out) && RemovedClosed(g', stuck)
    requires Leq(removed, stuck) && Shift(g', stuck) == []
    ensures Leq(Final(g, removed), stuck)
    decreases |Unconfirmed(g, removed)|
  {
    hide Shift, Frontier, RemovedClosed, Leq, RaiseAll, Unconfirmed, Fresh, Grows, ValidDag;
    var batch := Shift(g, removed);
    if batch != [] {
      FrontierClosed(g, removed, out);
      forall t | t in batch
        ensures t.pos < Get(stuck, t.key)
      {
        StepWithin(g, g', removed, stuck, t);
      }
      RaisedWithin(g, removed, stuck);
      ShiftShrinks(g, removed);
      ShiftsTails(g, removed);
      FrontierStep(g, removed, out, batch);
      RunWithin(g, g', RaiseAll(removed, batch), out + Order(g.deps, Fresh(g.deps, batch, out)), stuck);
    }
  }

  /** What a run emits is what it started from and the history of the indexer nodes it
      confirmed. */
  lemma {:induction false} EmittedBelow(g: Graph, removed: Clock, out: seq<NodeId>, n: NodeId) returns (b: NodeId)
    requires Ok(g) && Frontier(g, removed, out) && n in View(g, removed, out) && n !in out
    ensures b in g.deps && b.key in g.indexers && b.pos < Get(Final(g, removed), b.key) && Sees(g.deps, b, n)
    decreases |Unconfirmed(g, removed)|
  {
    hide Shift, Frontier, RaiseAll, Unconfirmed, ValidDag, Sees;
    var batch := Shift(g, removed);
    ShiftShrinks(g, removed);
    ShiftsTails(g, removed);
    FrontierStep(g, removed, out, batch);
    var next, removed' := out + Order(g.deps, Fresh(g.deps, batch, out)), RaiseAll(removed, batch);
    if n in next {
      OrderIsTopological(g.deps, Fresh(g.deps, batch, out));
      b :| b in batch && Sees(g.deps, b, n);
      TailFacts(g, b, removed);
      forall t | t in batch
        ensures t.pos == Get(removed, t.key)
      {
        TailFacts(g, t, removed);
      }
      RaiseAllGet(removed, batch, b.key);
      assert b == NodeId(b.key, Get(removed, b.key));
      FinalLeq(g, removed');
    } else {
      b := EmittedBelow(g, removed', next, n);
    }
  }

  lemma {:induction false} FinalLeq(g: Graph, removed: Clock)
    requires Ok(g)
    ensures Leq(removed, Final(g, removed))
    decreases |Unconfirmed(g, removed)|
  {
    hide Shift, RaiseAll, Unconfirmed, ValidDag;
    var batch := Shift(g, removed);
    if batch != [] {
      ShiftShrinks(g, removed);
      ShiftsTails(g, removed);
      forall t | t in batch
        ensures t.pos == Get(removed, t.key)
      {
        TailFacts(g, t, removed);
      }
      forall key
        ensures Get(removed, key) <= Get(RaiseAll(removed, batch), key)
      {
        RaiseAllGet(removed, batch, key);
      }
      FinalLeq(g, RaiseAll(removed, batch));
    }
  }

  /** Nothing finalized is ever lost: whatever any writers add, forks included, and whatever the
      indexers, every node of the finalized view is in the view afterwards. */
  lemma FinalizedIsPermanent(g: Graph, g': Graph, removed: Clock, out: seq<NodeId>, n: NodeId)
    requires Extends(g, g') && Frontier(g, removed, out) && Frontier(g', removed, out)
    requires n in View(g, removed, out)
    ensures n in View(g', removed, out)
  {
    hide Shift, Closed, Acyclic, View, Final, Sees;
    var stuck := Final(g', removed);
    ViewIsFrontier(g', removed, out);
    FrontierClosed(g', stuck, View(g', removed, out));
    FinalLeq(g', removed);
    RunWithin(g, g', removed, out, stuck);
    if n !in out {
      var b := EmittedBelow(g, removed, out, n);
      assert Get(Final(g, removed), b.key) <= Get(stuck, b.key);
      SeesGrows(g.deps, g'.deps, b, n);
      EmittedClosed(g'.deps, View(g', removed, out), b, n);
    }
  }
}
