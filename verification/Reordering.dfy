/** Four indexers fork, and a node that has seen everything reorders what was finalized: the
    finalized view before it is no prefix of the view after it. */
module Reordering {
  import opened CausalDag
  import opened Kahn
  import opened Confirmation
  import opened FinalizedView
  import opened Finality

  // Two branches, `A` to `C` and `E`, join in `M`; `P` and `Q` fork from it and join in `R`.
  const A := NodeId(3, 0)
  const B := NodeId(1, 0)
  const C := NodeId(2, 0)
  const E := NodeId(0, 0)
  const M := NodeId(2, 1)
  const P := NodeId(1, 1)
  const Q := NodeId(2, 2)
  const R := NodeId(1, 2)
  const S := NodeId(3, 1)
  const T := NodeId(0, 1)
  const U := NodeId(2, 3)

  function Nodes(): (s: seq<NodeId>)
    ensures |s| == 11
  {
    [A, B, C, E, M, P, Q, R, S, T, U]
  }

  /** What a node depends on. */
  function Needs(n: NodeId): set<NodeId> {
    if n == B then {A} else if n == C then {B} else if n == M then {C, E} else if n == P then {B, M}
    else if n == Q then {M} else if n == R then {P, Q} else if n == S then {A, R} else if n == T then {E, S}
    else if n == U then {Q, T} else {}
  }

  /** The first `k` nodes; the eleventh, `U`, has seen all the others. */
  ghost function Upto(k: nat): Deps
    requires k <= 11
  {
    map n | n in Nodes()[..k] :: Needs(n)
  }

  /** How much of each of the four logs a node has seen. */
  function Row(n: NodeId): (nat, nat, nat, nat) {
    if n == A then (0, 0, 0, 1)
    else if n == B then (0, 1, 0, 1)
    else if n == C then (0, 1, 1, 1)
    else if n == E then (1, 0, 0, 0)
    else if n == M then (1, 1, 2, 1)
    else if n == P then (1, 2, 2, 1)
    else if n == Q then (1, 1, 3, 1)
    else if n == R then (1, 3, 3, 1)
    else if n == S then (1, 3, 3, 2)
    else if n == T then (2, 3, 3, 2)
    else if n == U then (2, 3, 4, 2)
    else (0, 0, 0, 0)
  }

  function Seen(n: NodeId, key: nat): nat {
    if key == 0 then Row(n).0 else if key == 1 then Row(n).1 else if key == 2 then Row(n).2
    else if key == 3 then Row(n).3 else 0
  }

  // ---------------------------------------------------------------- the rows are the clocks

  function Place(n: NodeId): nat {
    if n == A then 0 else if n == B then 1 else if n == C then 2 else if n == E then 3 else if n == M then 4
    else if n == P then 5 else if n == Q then 6 else if n == R then 7 else if n == S then 8 else if n == T then 9 else 10
  }

  lemma PlaceOf(i: nat)
    requires i < 11
    ensures Place(Nodes()[i]) == i
  {
  }

  lemma NeedsFacts(n: NodeId, d: NodeId)
    requires n in Nodes() && d in Needs(n)
    ensures d in Nodes() && Place(d) < Place(n) && Nodes()[Place(d)] == d
    ensures forall k: nat :: Seen(d, k) <= Seen(n, k)
  {
  }

  lemma NeedsOwn(n: NodeId)
    requires n in Nodes()
    ensures Nodes()[Place(n)] == n && Seen(n, n.key) == n.pos + 1
    ensures n.pos > 0 ==> NodeId(n.key, n.pos - 1) in Needs(n)
  {
  }

  lemma Among(n: NodeId, k: nat)
    requires k <= 11
    ensures n in Nodes()[..k] <==> n in Nodes() && Place(n) < k
  {
    hide Nodes, Place;
    if n in Nodes()[..k] {
      var i :| 0 <= i < k && Nodes()[..k][i] == n;
      assert Nodes()[i] == n;
      PlaceOf(i);
    }
    if n in Nodes() && Place(n) < k {
      NeedsOwn(n);
      assert Nodes()[..k][Place(n)] == n;
    }
  }

  lemma IsDag(k: nat)
    requires k <= 11
    ensures ValidDag(Upto(k))
  {
    hide Place, Seen, Nodes, Needs;
    var deps, log := Upto(k), Nodes()[..k];
    forall i | 0 <= i < k
      ensures Place(log[i]) == i
    {
      PlaceOf(i);
    }
    forall n, d | n in deps && d in deps[n]
      ensures d in deps
    {
      Among(n, k);
      NeedsFacts(n, d);
      Among(d, k);
    }
    forall i, d | 0 <= i < k && d in deps[log[i]]
      ensures d in log[..i]
    {
      assert log[i] in log;
      Among(log[i], k);
      NeedsFacts(log[i], d);
      assert log[..i][Place(d)] == d;
    }
    forall n | n in deps && n.pos > 0
      ensures NodeId(n.key, n.pos - 1) in deps[n]
    {
      Among(n, k);
      NeedsOwn(n);
    }
    assert Delivery(deps, log);
  }

  lemma {:induction false} RowBounds(k: nat, x: NodeId, y: NodeId, n: nat)
    requires k <= 11 && x in Upto(k) && SeesIn(Upto(k), x, y, n)
    ensures y.pos < Seen(x, y.key)
    decreases n
  {
    hide Seen, Nodes, Needs, Place;
    Among(x, k);
    NeedsOwn(x);
    if x != y {
      IsDag(k);
      var d :| d in Upto(k)[x] && SeesIn(Upto(k), d, y, n - 1);
      RowBounds(k, d, y, n - 1);
      NeedsFacts(x, d);
    }
  }

  lemma RowsCome(x: NodeId, k: nat) returns (d: NodeId)
    requires x in Nodes() && k != x.key && Seen(x, k) > 0
    ensures d in Needs(x) && Seen(d, k) == Seen(x, k)
  {
    d := if x == B then A else if x == C then B else if x == M then (if k == 0 then E else C)
         else if x == P then M else if x == Q then M else if x == R then (if k == 2 then Q else P)
         else if x == S then R else if x == T then S else T;
  }

  lemma {:induction false} RowReached(k: nat, x: NodeId, y: NodeId)
    requires k <= 11 && x in Upto(k) && y.pos < Seen(x, y.key) && ValidDag(Upto(k))
    ensures Sees(Upto(k), x, y)
    decreases Place(x)
  {
    hide Seen, Sees, Nodes, Needs, Place;
    Among(x, k);
    NeedsOwn(x);
    if y.key == x.key {
      OwnEarlier(Upto(k), x, y.pos);
    } else {
      var d := RowsCome(x, y.key);
      NeedsFacts(x, d);
      RowReached(k, d, y);
      SeesStep(Upto(k), x, d, y);
    }
  }

  /** A node has seen what its row says. */
  lemma RowsAreClocks(k: nat, x: NodeId, y: NodeId)
    requires k <= 11 && x in Upto(k)
    ensures ValidDag(Upto(k)) && (Sees(Upto(k), x, y) <==> y.pos < Seen(x, y.key))
  {
    hide Seen, Upto;
    IsDag(k);
    if Sees(Upto(k), x, y) {
      var n: nat :| SeesIn(Upto(k), x, y, n);
      RowBounds(k, x, y, n);
    }
    if y.pos < Seen(x, y.key) {
      RowReached(k, x, y);
    }
  }

  lemma LenIs(k: nat, x: NodeId, key: nat)
    requires k <= 11 && x in Upto(k)
    ensures ValidDag(Upto(k)) && Len(Upto(k), x, key) == Seen(x, key)
  {
    hide Seen, Upto, Sees, Len;
    var deps := Upto(k);
    IsDag(k);
    var n := Len(deps, x, key);
    RowsAreClocks(k, x, NodeId(key, n));
    ClockIsSees(deps, x, key, n);
    if n > 0 {
      RowsAreClocks(k, x, NodeId(key, n - 1));
      ClockIsSees(deps, x, key, n - 1);
    }
  }

  // ---------------------------------------------------------------- the machine's first step

  /** Nothing confirmed yet. */
  const START: Clock := map[]

  ghost function Fork(k: nat): Graph
    requires k <= 11
  {
    Graph(Upto(k), {0, 1, 2, 3})
  }

  /** The node of log `key` after what `o` has seen of it. */
  function Next(o: NodeId, key: nat): NodeId {
    NodeId(key, Seen(o, key))
  }

  predicate Knows(p: NodeId, o: NodeId) {
    o.pos < Seen(p, o.key)
  }

  /** `StrictlyNewer`, read off the rows. */
  predicate Newest(o: NodeId, p: NodeId) {
    && Knows(p, o)
    && (Knows(p, Next(o, 0)) ==> Knows(Next(o, 0), o))
    && (Knows(p, Next(o, 1)) ==> Knows(Next(o, 1), o))
    && (Knows(p, Next(o, 2)) ==> Knows(Next(o, 2), o))
    && (Knows(p, Next(o, 3)) ==> Knows(Next(o, 3), o))
  }

  lemma FirstIs(k: nat, o: NodeId, key: nat)
    requires k <= 11 && o in Upto(k)
    ensures First(Fork(k), o, key, START) == Next(o, key)
  {
    hide Seen, Upto, Len;
    LenIs(k, o, key);
  }

  lemma NewerIs(k: nat, o: NodeId, p: NodeId)
    requires k <= 11 && o in Upto(k) && p in Upto(k)
    ensures StrictlyNewer(Fork(k), o, p, START) <==> Newest(o, p)
  {
    hide Seen, Upto, Sees, First;
    var g := Fork(k);
    RowsAreClocks(k, p, o);
    forall key | key in g.indexers
      ensures First(g, o, key, START) == Next(o, key)
      ensures Sees(g.deps, p, Next(o, key)) <==> Knows(p, Next(o, key))
      ensures Sees(g.deps, p, Next(o, key)) ==> (Sees(g.deps, Next(o, key), o) <==> Knows(Next(o, key), o))
    {
      FirstIs(k, o, key);
      RowsAreClocks(k, p, Next(o, key));
      if Sees(g.deps, p, Next(o, key)) {
        SeesDelivered(g.deps, p, Next(o, key));
        RowsAreClocks(k, Next(o, key), o);
      }
    }
    if StrictlyNewer(g, o, p, START) {
      assert 0 in g.indexers && 1 in g.indexers && 2 in g.indexers && 3 in g.indexers;
    }
  }

  /** Ten nodes, or all eleven. */
  ghost predicate Stage(k: nat) {
    k == 10 || k == 11
  }

  lemma Has(k: nat, n: NodeId)
    requires Stage(k)
    ensures n in Upto(k) <==> n in Nodes() && (n == U ==> k == 11)
  {
    hide Needs, Seen;
    Among(n, k);
  }

  lemma Card4(s: set<nat>)
    requires s <= {0, 1, 2, 3}
    ensures |s| == (if 0 in s then 1 else 0) + (if 1 in s then 1 else 0) + (if 2 in s then 1 else 0) + (if 3 in s then 1 else 0)
  {
    var a, b, c := s - {0}, s - {0, 1}, s - {0, 1, 2};
    assert |s| == |a| + if 0 in s then 1 else 0;
    assert b == a - {1} && c == b - {2};
    assert |a| == |b| + if 1 in s then 1 else 0;
    assert |b| == |c| + if 2 in s then 1 else 0;
    assert c == if 3 in s then {3} else {};
  }

  /** Indexer `key` votes for `t`, read off the rows. */
  predicate Votes(k: nat, t: NodeId, key: nat) {
    key == t.key || (Next(t, key) in Nodes() && (Next(t, key) == U ==> k == 11) && Newest(t, Next(t, key)))
  }

  function Ballot(t: NodeId, key: nat): NodeId {
    if key == t.key then t else Next(t, key)
  }

  lemma AcksAre(k: nat, t: NodeId, key: nat)
    requires Stage(k) && t in Upto(k) && key in {0, 1, 2, 3}
    ensures key in AckKeys(Fork(k), t, START) <==> Votes(k, t, key)
    ensures AckNode(Fork(k), t, key, START) == Ballot(t, key)
  {
    hide Seen, Upto, Sees, First, Nodes, Newest, StrictlyNewer;
    FirstIs(k, t, key);
    Has(k, Next(t, key));
    if Next(t, key) in Upto(k) {
      NewerIs(k, t, Next(t, key));
      RowsAreClocks(k, Next(t, key), t);
      NewestKnows(t, Next(t, key));
    }
  }

  lemma NewestKnows(o: NodeId, p: NodeId)
    ensures Newest(o, p) ==> Knows(p, o)
  {
  }

  /** Whether `head` has seen `key`'s vote. */
  predicate Counts(k: nat, t: NodeId, head: NodeId, key: nat) {
    Votes(k, t, key) && Knows(head, Ballot(t, key))
  }

  function Tally(k: nat, t: NodeId, head: NodeId): nat {
    (if Counts(k, t, head, 0) then 1 else 0) + (if Counts(k, t, head, 1) then 1 else 0)
    + (if Counts(k, t, head, 2) then 1 else 0) + (if Counts(k, t, head, 3) then 1 else 0)
  }

  lemma TallyIs(k: nat, t: NodeId, head: NodeId)
    requires Stage(k) && t in Upto(k) && head in Upto(k)
    ensures VotesSeen(Fork(k), t, head, START) == Tally(k, t, head)
  {
    hide Upto, Sees, AckKeys, AckNode, Votes, Knows, Ballot;
    var g := Fork(k);
    var s := set key | key in AckKeys(g, t, START) && Sees(g.deps, head, AckNode(g, t, key, START));
    assert AckKeys(g, t, START) <= g.indexers by {
      AcksWithin(g, t);
    }
    forall key | key in g.indexers
      ensures key in s <==> Counts(k, t, head, key)
    {
      AcksAre(k, t, key);
      RowsAreClocks(k, head, Ballot(t, key));
      KnowsIs(head, Ballot(t, key));
    }
    Card4(s);
  }

  lemma AcksWithin(g: Graph, t: NodeId)
    ensures AckKeys(g, t, START) <= g.indexers
  {
  }

  lemma KnowsIs(p: NodeId, o: NodeId)
    ensures Knows(p, o) <==> o.pos < Seen(p, o.key)
  {
  }

  /** How many indexers vote for `t`. */
  lemma AckCount(k: nat, t: NodeId)
    requires Stage(k) && t in Upto(k)
    ensures |AckKeys(Fork(k), t, START)|
         == (if Votes(k, t, 0) then 1 else 0) + (if Votes(k, t, 1) then 1 else 0)
          + (if Votes(k, t, 2) then 1 else 0) + (if Votes(k, t, 3) then 1 else 0)
  {
    hide Upto, AckKeys, Votes;
    AcksWithin(Fork(k), t);
    AcksAre(k, t, 0);
    AcksAre(k, t, 1);
    AcksAre(k, t, 2);
    AcksAre(k, t, 3);
    Card4(AckKeys(Fork(k), t, START));
  }

  /** A node that acknowledges `t` with a majority. */
  predicate Seals(k: nat, t: NodeId, n: NodeId) {
    Newest(t, n) && Tally(k, t, n) >= 3
  }

  lemma SealsIs(k: nat, t: NodeId, n: NodeId)
    requires Stage(k) && t in Upto(k) && n in Upto(k)
    ensures StrictlyNewer(Fork(k), t, n, START) && VotesSeen(Fork(k), t, n, START) >= Majority(Fork(k)) <==> Seals(k, t, n)
  {
    hide Upto, StrictlyNewer, VotesSeen, Newest, Tally;
    NewerIs(k, t, n);
    TallyIs(k, t, n);
  }

  /** Nothing of `key` below `length` acknowledges `t` with a majority. */
  lemma NotAcked(k: nat, key: nat, t: NodeId, length: nat)
    requires Stage(k) && t in Upto(k) && forall i: nat :: i < length ==> NodeId(key, i) in Upto(k) && !Seals(k, t, NodeId(key, i))
    ensures !HasAcked(Fork(k), key, t, length, START)
  {
    hide Upto, StrictlyNewer, VotesSeen, Seals;
    forall i: nat | i < length
      ensures !(StrictlyNewer(Fork(k), t, NodeId(key, i), START) && VotesSeen(Fork(k), t, NodeId(key, i), START) >= Majority(Fork(k)))
    {
      SealsIs(k, t, NodeId(key, i));
    }
  }

  function LogLen(k: nat, key: nat): nat {
    if key == 1 then 3 else if key == 2 then (if k == 11 then 4 else 3) else 2
  }

  lemma LogLenIs(k: nat, key: nat)
    requires Stage(k) && key in {0, 1, 2, 3}
    ensures ValidDag(Upto(k)) && WriterLen(Upto(k), key) == LogLen(k, key)
    ensures forall i: nat :: i < LogLen(k, key) ==> NodeId(key, i) in Upto(k)
  {
    hide Upto, WriterLen, Seen, Needs;
    IsDag(k);
    forall i: nat
      ensures NodeId(key, i) in Upto(k) <==> i < LogLen(k, key)
    {
      Has(k, NodeId(key, i));
    }
    var n := WriterLen(Upto(k), key);
    WriterRun(Upto(k), key, n);
    if n > 0 {
      WriterRun(Upto(k), key, n - 1);
    }
  }

  // ---------------------------------------------------------------- what is confirmed

  /** The latest node of log `key`. */
  function Latest(k: nat, key: nat): NodeId {
    NodeId(key, LogLen(k, key) - 1)
  }

  /** Only indexer `key` has nodes that acknowledge `t` with a majority. */
  ghost predicate SealedOnlyBy(k: nat, t: NodeId, key: nat)
    requires Stage(k)
  {
    forall n :: n in Upto(k) && Seals(k, t, n) ==> n.key == key
  }

  lemma NotAckedBy(k: nat, t: NodeId, only: nat, key: nat, length: nat)
    requires Stage(k) && t in Upto(k) && SealedOnlyBy(k, t, only) && key in {0, 1, 2, 3} && key != only && length <= LogLen(k, key)
    ensures !HasAcked(Fork(k), key, t, length, START)
  {
    hide Upto, HasAcked, Seals, LogLen, WriterLen;
    LogLenIs(k, key);
    NotAcked(k, key, t, length);
  }

  lemma UnseenBy(k: nat, t: NodeId, only: nat, key: nat)
    requires Stage(k) && t in Upto(k) && SealedOnlyBy(k, t, only) && key in {0, 1, 2, 3} && key != only
    ensures Status(Fork(k), key, t, WriterLen(Upto(k), key), START) != Acked
    ensures !Newest(t, Latest(k, key)) ==> Status(Fork(k), key, t, WriterLen(Upto(k), key), START) == Unseen
  {
    hide Upto, HasAcked, StrictlyNewer, WriterLen, Newest, SealedOnlyBy;
    LogLenIs(k, key);
    NotAckedBy(k, t, only, key, LogLen(k, key));
    NewerIs(k, t, Latest(k, key));
  }

  /** One sealing indexer is no majority, and one that has not caught up blocks the rest. */
  lemma Unsettled(k: nat, t: NodeId, only: nat, late: nat)
    requires Stage(k) && t in Upto(k) && SealedOnlyBy(k, t, only)
    requires late in {0, 1, 2, 3} && late != only && !Newest(t, Latest(k, late))
    ensures !Confirmed(Fork(k), t, START)
  {
    hide Upto, AckKeys, Status, WriterLen, Newest, SealedOnlyBy, Latest;
    var g := Fork(k);
    forall key | key in g.indexers && key != only
      ensures key !in AckedAll(g, t, START)
    {
      UnseenBy(k, t, only, key);
    }
    SubsetCard(AckedAll(g, t, START), {only});
    UnseenBy(k, t, only, late);
  }

  lemma StatusNewer(k: nat, t: NodeId, key: nat)
    requires Stage(k) && t in Upto(k) && key in {0, 1, 2, 3} && Newest(t, Latest(k, key))
    ensures Status(Fork(k), key, t, WriterLen(Upto(k), key), START) != Unseen
  {
    hide Upto, HasAcked, StrictlyNewer, WriterLen, Newest;
    LogLenIs(k, key);
    NewerIs(k, t, Latest(k, key));
  }

  /** All four vote and have caught up. */
  ghost predicate AllNewer(k: nat, t: NodeId) {
    forall key :: key in {0, 1, 2, 3} ==> Votes(k, t, key) && Newest(t, Latest(k, key))
  }

  lemma AllNewerConfirms(k: nat, t: NodeId)
    requires Stage(k) && t in Upto(k) && AllNewer(k, t)
    ensures Confirmed(Fork(k), t, START)
  {
    hide Upto, AckKeys, Status, WriterLen, Newest, Votes, Latest;
    AckCount(k, t);
    forall key | key in Fork(k).indexers
      ensures Status(Fork(k), key, t, WriterLen(Upto(k), key), START) != Unseen
    {
      StatusNewer(k, t, key);
    }
  }

  /** Three indexers vote for `A`, but only `C` ties their votes together. */
  lemma SealsOfA(k: nat, n: NodeId)
    requires n in Nodes() && Seals(k, A, n)
    ensures n == C
  {
  }

  /** Without `U`, only `T` ties the votes for `R` together. */
  lemma SealsOfR(n: NodeId)
    requires n in Nodes() && n != U && Seals(10, R, n)
    ensures n == T
  {
  }

  lemma SealedA(k: nat)
    requires Stage(k)
    ensures A in Upto(k) && SealedOnlyBy(k, A, 2)
  {
    hide Upto, Seals;
    Has(k, A);
    forall n | n in Upto(k) && Seals(k, A, n)
      ensures n.key == 2
    {
      Has(k, n);
      SealsOfA(k, n);
    }
  }

  lemma SealedR()
    ensures R in Upto(10) && SealedOnlyBy(10, R, 0)
  {
    hide Upto, Seals;
    Has(10, R);
    forall n | n in Upto(10) && Seals(10, R, n)
      ensures n.key == 0
    {
      Has(10, n);
      SealsOfR(n);
    }
  }

  lemma AUnconfirmed(k: nat)
    requires Stage(k)
    ensures A in Upto(k) && !Confirmed(Fork(k), A, START)
  {
    assert !Newest(A, Latest(k, 0));
    hide *;
    SealedA(k);
    Unsettled(k, A, 2, 0);
  }

  lemma RUnconfirmed()
    ensures R in Upto(10) && !Confirmed(Fork(10), R, START)
  {
    assert !Newest(R, Latest(10, 2));
    assert Stage(10);
    hide *;
    SealedR();
    Unsettled(10, R, 0, 2);
  }

  /** Only its own writer votes for `E`. */
  lemma EUnconfirmed(k: nat)
    requires Stage(k)
    ensures E in Upto(k) && |AckKeys(Fork(k), E, START)| == 1
  {
    assert !Votes(k, E, 1) && !Votes(k, E, 2) && !Votes(k, E, 3) && Votes(k, E, 0);
    hide Upto, AckKeys, Votes;
    Has(k, E);
    AckCount(k, E);
  }

  lemma MConfirmed()
    ensures M in Upto(10) && Confirmed(Fork(10), M, START)
  {
    assert Votes(10, M, 0) && Votes(10, M, 1) && Votes(10, M, 2) && Votes(10, M, 3);
    assert Newest(M, Latest(10, 0)) && Newest(M, Latest(10, 1)) && Newest(M, Latest(10, 2)) && Newest(M, Latest(10, 3));
    assert AllNewer(10, M) by {
      hide Votes, Newest, Latest;
    }
    assert Stage(10) && M in Nodes() && M != U;
    hide *;
    Has(10, M);
    AllNewerConfirms(10, M);
  }

  lemma RConfirmed()
    ensures R in Upto(11) && Confirmed(Fork(11), R, START)
  {
    assert Votes(11, R, 0) && Votes(11, R, 1) && Votes(11, R, 2) && Votes(11, R, 3);
    assert Newest(R, Latest(11, 0)) && Newest(R, Latest(11, 1)) && Newest(R, Latest(11, 2)) && Newest(R, Latest(11, 3));
    assert AllNewer(11, R) by {
      hide Votes, Newest, Latest;
    }
    assert Stage(11) && R in Nodes() && R != U;
    hide *;
    Has(11, R);
    AllNewerConfirms(11, R);
  }

  // ---------------------------------------------------------------- tails and merges

  lemma TailsAre(k: nat)
    requires Stage(k)
    ensures Tails(Fork(k), START) == {A, E}
  {
    hide Upto, Seen, Needs, Sees;
    var g := Fork(k);
    forall n
      ensures n in Firsts(g, START) <==> n == A || n == B || n == C || n == E
    {
      if n.pos == 0 && n.key in g.indexers {
        Has(k, n);
        assert n == NodeId(n.key, Get(START, n.key));
      }
    }
    FirstsKnow();
    forall x, y | x in {A, B, C, E} && y in {A, B, C, E}
      ensures Sees(g.deps, x, y) <==> y.pos < Seen(x, y.key)
    {
      Has(k, x);
      RowsAreClocks(k, x, y);
    }
  }

  lemma FirstsKnow()
    ensures Seen(A, 0) == 0 && Seen(A, 1) == 0 && Seen(A, 2) == 0 && Seen(E, 1) == 0 && Seen(E, 2) == 0 && Seen(E, 3) == 0
    ensures Seen(B, 3) == 1 && Seen(C, 3) == 1
  {
  }

  /** How much of log `key` lies below `n`. */
  function Under(n: NodeId, key: nat): nat {
    if key == n.key then n.pos else Seen(n, key)
  }

  lemma UnderIs(k: nat, n: NodeId, key: nat)
    requires Stage(k) && n in Upto(k)
    ensures LengthBelow(Fork(k), n, key) == Under(n, key)
  {
    hide Upto, Seen, Len;
    LenIs(k, n, key);
  }

  /** The node below `n` that has seen all else below it, where there is one. */
  function Top(n: NodeId): NodeId {
    if n == B then A else if n == C then B else if n == P || n == Q then M else if n == S then R else if n == T then S else T
  }

  lemma TopKnows(n: NodeId, key: nat)
    requires n in Nodes() && n != M && n != R && key in {0, 1, 2, 3} && Under(n, key) > 0
    ensures Top(n) in Nodes() && (Top(n) == U ==> n == U) && Knows(Top(n), NodeId(key, Under(n, key) - 1))
    ensures Top(n).key in {0, 1, 2, 3} && Under(n, Top(n).key) == Top(n).pos + 1
  {
  }

  lemma TopSees(k: nat, n: NodeId, o: NodeId)
    requires Stage(k) && n in Upto(k) && n != M && n != R && o in MergeHeads(Fork(k), n, START)
    ensures Sees(Upto(k), Top(n), o) && Top(n) in MergeHeads(Fork(k), n, START)
  {
    hide Upto, Seen, Nodes, Needs, Sees, LengthBelow, Under, Top;
    Has(k, n);
    UnderIs(k, n, o.key);
    TopKnows(n, o.key);
    UnderIs(k, n, Top(n).key);
    Has(k, Top(n));
    RowsAreClocks(k, Top(n), o);
  }

  lemma NoOtherMerge(k: nat, n: NodeId)
    requires Stage(k) && n in Upto(k) && IsMerge(Fork(k), n, START)
    ensures n == M || n == R
  {
    hide Upto, Seen, Nodes, Needs, Sees, MergeHeads, Top;
    if n != M && n != R {
      forall o | o in MaximalHeads(Fork(k), n, START)
        ensures o == Top(n)
      {
        TopSees(k, n, o);
      }
      SubsetCard(MaximalHeads(Fork(k), n, START), {Top(n)});
    }
  }

  /** The last node of log `key` below `n`. */
  function Head(n: NodeId, key: nat): NodeId
    requires Under(n, key) > 0
  {
    NodeId(key, Under(n, key) - 1)
  }

  lemma HeadIs(k: nat, n: NodeId, o: NodeId)
    requires Stage(k) && n in Upto(k) && o in MergeHeads(Fork(k), n, START)
    ensures o in Upto(k) && o.key in {0, 1, 2, 3} && Under(n, o.key) > 0 && o == Head(n, o.key)
  {
    hide Upto, Seen, Sees, Len, Under;
    UnderIs(k, n, o.key);
    IsDag(k);
    var deps := Upto(k);
    if o.key == n.key {
      OwnEarlier(deps, n, o.pos);
    } else {
      ClockIsSees(deps, n, o.key, o.pos);
    }
    SeesDelivered(deps, n, o);
  }

  /** No other head below `n` has seen `x`. */
  ghost predicate Heads(n: NodeId, x: NodeId) {
    && Under(n, x.key) == x.pos + 1
    && forall key :: key in {0, 1, 2, 3} && Under(n, key) > 0 && Head(n, key) != x ==> !Knows(Head(n, key), x)
  }

  lemma HeadsMaximal(k: nat, n: NodeId, x: NodeId)
    requires Stage(k) && n in Upto(k) && x in Upto(k) && x.key in {0, 1, 2, 3} && Heads(n, x)
    ensures x in MaximalHeads(Fork(k), n, START)
  {
    hide Upto, Seen, Sees, LengthBelow, Under;
    var g := Fork(k);
    UnderIs(k, n, x.key);
    assert x in MergeHeads(g, n, START);
    forall o | o in MergeHeads(g, n, START) && o != x
      ensures !Sees(g.deps, o, x)
    {
      HeadIs(k, n, o);
      RowsAreClocks(k, o, x);
    }
  }

  /** Two heads make a merge. */
  lemma TwoHeads(k: nat, n: NodeId, x: NodeId, y: NodeId)
    requires Stage(k) && n in Upto(k) && x in Upto(k) && y in Upto(k) && n.key in {0, 1, 2, 3}
    requires x.key in {0, 1, 2, 3} && y.key in {0, 1, 2, 3} && x != y && Heads(n, x) && Heads(n, y)
    ensures IsMerge(Fork(k), n, START)
  {
    hide Upto, Heads, MaximalHeads;
    HeadsMaximal(k, n, x);
    HeadsMaximal(k, n, y);
    SubsetCard({x, y}, MaximalHeads(Fork(k), n, START));
  }

  lemma HeadsOfM()
    ensures Heads(M, C) && Heads(M, E)
  {
    assert Under(M, 0) == 1 && Under(M, 1) == 1 && Under(M, 2) == 1 && Under(M, 3) == 1;
    assert !Knows(E, C) && !Knows(B, C) && !Knows(A, C) && !Knows(B, E) && !Knows(C, E) && !Knows(A, E);
    hide Under, Knows;
  }

  lemma HeadsOfR()
    ensures Heads(R, P) && Heads(R, Q)
  {
    assert Under(R, 0) == 1 && Under(R, 1) == 2 && Under(R, 2) == 3 && Under(R, 3) == 1;
    assert !Knows(E, P) && !Knows(Q, P) && !Knows(A, P) && !Knows(E, Q) && !Knows(P, Q) && !Knows(A, Q);
    hide Under, Knows;
  }

  lemma MIsMerge()
    ensures M in Upto(10) && IsMerge(Fork(10), M, START)
  {
    HeadsOfM();
    hide Upto, Heads, Seen;
    Has(10, M);
    Has(10, C);
    Has(10, E);
    TwoHeads(10, M, C, E);
  }

  lemma RIsMerge()
    ensures R in Upto(11) && IsMerge(Fork(11), R, START)
  {
    HeadsOfR();
    hide Upto, Heads, Seen;
    Has(11, R);
    Has(11, P);
    Has(11, Q);
    TwoHeads(11, R, P, Q);
  }

  // ---------------------------------------------------------------- below the merges

  /** `Potential`, read off the rows. */
  predicate MayConfirm(t: NodeId, p: NodeId, key: nat) {
    Seen(p, key) == 0 || Seen(t, key) >= Seen(p, key) || Newest(t, NodeId(key, Seen(p, key) - 1))
  }

  lemma PotentialIs(k: nat, t: NodeId, p: NodeId, key: nat)
    requires Stage(k) && t in Upto(k) && p in Upto(k)
    ensures Potential(Fork(k), t, p, key, START) <==> MayConfirm(t, p, key)
  {
    hide Upto, Seen, Newest, StrictlyNewer, Len, Sees;
    LenIs(k, p, key);
    LenIs(k, t, key);
    if Seen(p, key) > 0 {
      var last := NodeId(key, Seen(p, key) - 1);
      RowsAreClocks(k, p, last);
      SeesDelivered(Upto(k), p, last);
      NewerIs(k, t, last);
    }
  }

  lemma SealedBelow(k: nat, t: NodeId, p: NodeId, n: NodeId)
    requires Stage(k) && t in Upto(k) && p in Upto(k) && n in Upto(k) && n.key in {0, 1, 2, 3}
    requires n.pos < Under(p, n.key) && Seals(k, t, n)
    ensures n.key in AckedBelow(Fork(k), t, p, START)
  {
    hide Upto, Under, Seals, StrictlyNewer, VotesSeen, LengthBelow;
    UnderIs(k, p, n.key);
    SealsIs(k, t, n);
    assert n == NodeId(n.key, n.pos);
    assert HasAcked(Fork(k), n.key, t, Under(p, n.key), START);
  }

  lemma UnsealedBelow(k: nat, t: NodeId, p: NodeId, key: nat)
    requires Stage(k) && t in Upto(k) && p in Upto(k)
    requires forall i: nat :: i < Under(p, key) ==> NodeId(key, i) in Upto(k) && !Seals(k, t, NodeId(key, i))
    ensures key !in AckedBelow(Fork(k), t, p, START)
  {
    hide Upto, Under, Seals, HasAcked, LengthBelow;
    UnderIs(k, p, key);
    NotAcked(k, key, t, Under(p, key));
  }

  ghost function Able(k: nat, t: NodeId, p: NodeId): set<nat>
    requires Stage(k)
  {
    set key | key in Fork(k).indexers && (key in AckedBelow(Fork(k), t, p, START) || Potential(Fork(k), t, p, key, START))
  }

  lemma AbleIs(k: nat, t: NodeId, p: NodeId, key: nat)
    requires Stage(k) && key in {0, 1, 2, 3}
    ensures key in Able(k, t, p) <==> key in AckedBelow(Fork(k), t, p, START) || Potential(Fork(k), t, p, key, START)
    ensures Able(k, t, p) <= {0, 1, 2, 3} && AckedBelow(Fork(k), t, p, START) <= {0, 1, 2, 3}
  {
    hide Upto, Status, Potential;
  }

  /** `ConfirmedAt`, with the majority of four written out. */
  lemma AtIs(k: nat, t: NodeId, p: NodeId)
    requires Stage(k)
    ensures ConfirmedAt(Fork(k), t, p, START) <==>
            |AckKeys(Fork(k), t, START)| >= 3
            && (|AckedBelow(Fork(k), t, p, START)| >= 3 || (VotesSeen(Fork(k), t, p, START) >= 3 && |Able(k, t, p)| >= 3))
  {
    hide Upto, AckKeys, AckedBelow, VotesSeen, Potential;
    assert Majority(Fork(k)) == 3;
  }

  lemma MBelowFacts()
    ensures Stage(10) && Seals(10, A, C) && C.key == 2 && C.pos < Under(M, 2) && MayConfirm(A, M, 1) && MayConfirm(A, M, 3)
    ensures A in Upto(10) && C in Upto(10) && M in Upto(10)
  {
    assert Seals(10, A, C) && C.pos < Under(M, 2) && MayConfirm(A, M, 1) && MayConfirm(A, M, 3);
    hide Upto, Seals, Under, MayConfirm, Seen;
    Has(10, A);
    Has(10, C);
    Has(10, M);
  }

  /** Relative to `M`, the branch of `A` is confirmed. */
  lemma AConfirmedAtM()
    ensures A in Upto(10) && ConfirmedAt(Fork(10), A, M, START)
  {
    hide *;
    MBelowFacts();
    AVotes(10, M);
    SealedBelow(10, A, M, C);
    PotentialIs(10, A, M, 1);
    PotentialIs(10, A, M, 3);
    AbleIs(10, A, M, 1);
    AbleIs(10, A, M, 2);
    AbleIs(10, A, M, 3);
    SubsetCard({1, 2, 3}, Able(10, A, M));
    AtIs(10, A, M);
  }

  /** `A` has three votes, and whoever has seen `C` has seen them. */
  lemma AVotes(k: nat, p: NodeId)
    requires Stage(k) && p in Upto(k) && (p == M || p == R)
    ensures A in Upto(k) && |AckKeys(Fork(k), A, START)| == 3 && VotesSeen(Fork(k), A, p, START) == 3
  {
    assert Votes(k, A, 1) && Votes(k, A, 2) && Votes(k, A, 3) && !Votes(k, A, 0) && Tally(k, A, p) == 3;
    hide Upto, Votes, Tally, AckKeys, VotesSeen, Seen;
    Has(k, A);
    AckCount(k, A);
    TallyIs(k, A, p);
  }

  lemma RBelowFacts()
    ensures Stage(11) && !MayConfirm(A, R, 0) && !MayConfirm(A, R, 1) && Tally(11, M, R) == 2
    ensures A in Upto(11) && M in Upto(11) && R in Upto(11)
  {
    assert !MayConfirm(A, R, 0) && !MayConfirm(A, R, 1) && Tally(11, M, R) == 2;
    hide Upto, Tally, MayConfirm, Seen;
    Has(11, A);
    Has(11, M);
    Has(11, R);
  }

  /** Relative to `R` it is not: `R`'s own log has seen `E`. */
  lemma AUnconfirmedAtR()
    ensures A in Upto(11) && !ConfirmedAt(Fork(11), A, R, START)
  {
    hide *;
    RBelowFacts();
    AckedBelowR(0);
    AckedBelowR(1);
    AckedBelowR(3);
    PotentialIs(11, A, R, 0);
    PotentialIs(11, A, R, 1);
    AbleIs(11, A, R, 0);
    AbleIs(11, A, R, 1);
    SubsetCard(AckedBelow(Fork(11), A, R, START), {2});
    SubsetCard(Able(11, A, R), {2, 3});
    AtIs(11, A, R);
  }

  lemma UnderR(key: nat)
    requires key in {0, 1, 2, 3}
    ensures Under(R, key) <= LogLen(11, key)
  {
  }

  lemma AckedBelowR(key: nat)
    requires key in {0, 1, 3}
    ensures A in Upto(11) && R in Upto(11) && key !in AckedBelow(Fork(11), A, R, START)
  {
    hide Upto, Seen, HasAcked, Under, LogLen, SealedOnlyBy, LengthBelow;
    UnderR(key);
    Has(11, R);
    SealedA(11);
    UnderIs(11, R, key);
    NotAckedBy(11, A, 2, key, Under(R, key));
  }

  /** Nor is `M`: `R` has seen only two of its votes. */
  lemma MUnconfirmedAtR()
    ensures M in Upto(11) && !ConfirmedAt(Fork(11), M, R, START)
  {
    hide *;
    RBelowFacts();
    TallyIs(11, M, R);
    MBelowR(0);
    MBelowR(1);
    MBelowR(2);
    MBelowR(3);
    AbleIs(11, M, R, 0);
    SubsetCard(AckedBelow(Fork(11), M, R, START), {});
    AtIs(11, M, R);
  }

  lemma SealsOfM(n: NodeId)
    requires n in Nodes() && Seals(11, M, n)
    ensures n.pos >= Under(R, n.key)
  {
  }

  lemma MBelowR(key: nat)
    requires key in {0, 1, 2, 3}
    ensures M in Upto(11) && R in Upto(11) && key !in AckedBelow(Fork(11), M, R, START)
  {
    hide Upto, Seen, Seals, Under, LogLen, AckedBelow, WriterLen, Needs;
    UnderR(key);
    Has(11, M);
    Has(11, R);
    LogLenIs(11, key);
    forall i: nat | i < Under(R, key)
      ensures !Seals(11, M, NodeId(key, i))
    {
      Has(11, NodeId(key, i));
      if Seals(11, M, NodeId(key, i)) {
        SealsOfM(NodeId(key, i));
      }
    }
    UnsealedBelow(11, M, R, key);
  }

  // ---------------------------------------------------------------- the two views

  lemma NoConfirmedTail(k: nat)
    requires Stage(k)
    ensures ConfirmedTails(Fork(k), START) == {} && |AckKeys(Fork(k), E, START)| < Majority(Fork(k))
  {
    hide Upto, AckKeys, AckedAll, Status, Tails;
    TailsAre(k);
    AUnconfirmed(k);
    EUnconfirmed(k);
    assert Majority(Fork(k)) == 3;
  }

  lemma OnlyMin(s: set<NodeId>, x: NodeId)
    requires x in s && forall y :: y in s ==> y == x || Less(x, y)
    ensures Min(s) == x
  {
  }

  lemma MergesWithin(k: nat, n: NodeId)
    requires Stage(k) && n in Merges(Fork(k), START)
    ensures n == M || n == R
  {
    hide Upto, IsMerge;
    NoOtherMerge(k, n);
  }

  lemma MergeBefore()
    ensures M in Upto(10) && ConfirmedMerges(Fork(10), START) == {M}
  {
    hide Upto, IsMerge, Confirmed;
    MIsMerge();
    MConfirmed();
    RUnconfirmed();
    forall n | n in ConfirmedMerges(Fork(10), START)
      ensures n == M
    {
      MergesWithin(10, n);
    }
  }

  lemma MergeAfter()
    ensures R in Upto(11) && ConfirmedMerges(Fork(11), START) != {} && Min(ConfirmedMerges(Fork(11), START)) == R
  {
    hide Upto, IsMerge, Confirmed;
    RIsMerge();
    RConfirmed();
    forall n | n in ConfirmedMerges(Fork(11), START)
      ensures n == R || Less(R, n)
    {
      MergesWithin(11, n);
    }
    assert R in ConfirmedMerges(Fork(11), START);
    OnlyMin(ConfirmedMerges(Fork(11), START), R);
  }

  lemma EUnconfirmedAt(k: nat, p: NodeId)
    requires Stage(k)
    ensures !ConfirmedAt(Fork(k), E, p, START)
  {
    hide Upto, AckKeys, AckedBelow, Confirmable;
    NoConfirmedTail(k);
  }

  /** Without `U` the machine starts with `A`. */
  lemma ShiftBefore()
    ensures ValidDag(Upto(10)) && Shift(Fork(10), START) == [A]
  {
    hide Upto, ConfirmedAt, Tails, Merges, ConfirmedTails, ConfirmedMerges, Sees;
    IsDag(10);
    NoConfirmedTail(10);
    MergeBefore();
    OnlyMin({M}, M);
    TailsAre(10);
    AConfirmedAtM();
    EUnconfirmedAt(10, M);
    MSeesTails();
    assert TailsBelow(Fork(10), M, START) == {A};
    OnlyMin({A}, A);
  }

  lemma MSeesTails()
    ensures M in Upto(10) && Sees(Upto(10), M, A)
  {
    assert A.pos < Seen(M, A.key);
    hide Upto, Sees, Seen;
    Has(10, M);
    RowsAreClocks(10, M, A);
  }

  lemma RSeesTails()
    ensures R in Upto(11) && Sees(Upto(11), R, A) && Sees(Upto(11), R, E)
  {
    assert A.pos < Seen(R, A.key) && E.pos < Seen(R, E.key);
    hide Upto, Sees, Seen;
    Has(11, R);
    RowsAreClocks(11, R, A);
    RowsAreClocks(11, R, E);
  }

  /** Nothing below `R` is confirmed relative to it. */
  lemma NothingBelowR()
    ensures TailsBelow(Fork(11), R, START) == {} && MergesBelow(Fork(11), R, START) == {}
  {
    hide Upto, ConfirmedAt, Tails, Merges, Sees;
    TailsAre(11);
    AUnconfirmedAtR();
    EUnconfirmedAt(11, R);
    MUnconfirmedAtR();
    forall n | n in MergesBelow(Fork(11), R, START)
      ensures false
    {
      MergesWithin(11, n);
    }
  }

  /** With it, it starts with `E`. */
  lemma ShiftAfter()
    ensures ValidDag(Upto(11)) && Shift(Fork(11), START) == [E, A]
  {
    hide Upto, Tails, ConfirmedTails, ConfirmedMerges, Sees, TailsBelow, MergesBelow;
    IsDag(11);
    NoConfirmedTail(11);
    MergeAfter();
    TailsAre(11);
    NothingBelowR();
    RSeesTails();
    assert TailsSeen(Fork(11), R, START) == {A, E};
    SortedPair();
  }

  lemma SortedPair()
    ensures Sorted({A, E}) == [E, A]
  {
    OnlyMin({A, E}, E);
    assert {A, E} - {E} == {A};
    OnlyMin({A}, A);
    assert {A} - {A} == {};
  }

  lemma Alone(k: nat, n: NodeId)
    requires Stage(k) && (n == A || n == E)
    ensures n in Upto(k) && forall m :: Sees(Upto(k), n, m) <==> m == n
  {
    assert forall m: NodeId :: m.pos < Seen(n, m.key) <==> m == n;
    hide Upto, Seen, Sees;
    Has(k, n);
    forall m
      ensures Sees(Upto(k), n, m) <==> m == n
    {
      RowsAreClocks(k, n, m);
    }
  }

  /** The view starts with the least node of the first batch. */
  lemma FirstFinalized(k: nat, batch: seq<NodeId>, first: NodeId)
    requires Stage(k) && Ok(Fork(k)) && Shift(Fork(k), START) == batch && batch != []
    requires (forall b :: b in batch ==> b == A || b == E) && first in batch
    requires forall b :: b in batch ==> b == first || Less(first, b)
    ensures Frontier(Fork(k), START, []) && |View(Fork(k), START, [])| > 0 && View(Fork(k), START, [])[0] == first
  {
    hide Upto, Shift, Sees, ValidDag, RaiseAll;
    var g := Fork(k);
    var news := Fresh(g.deps, batch, []);
    forall b | b in batch
      ensures b in Upto(k) && forall m :: Sees(g.deps, b, m) <==> m == b
    {
      Alone(k, b);
    }
    assert forall n :: n in news <==> n in batch;
    ReadyFirst(k, news, first);
    ShiftShrinks(g, START);
    ShiftsTails(g, START);
    FrontierStep(g, START, [], batch);
    ViewIsFrontier(g, RaiseAll(START, batch), [] + Order(g.deps, news));
  }

  lemma ReadyFirst(k: nat, news: set<NodeId>, first: NodeId)
    requires Stage(k) && ValidDag(Upto(k)) && news <= Upto(k).Keys && (forall n :: n in news ==> n == A || n == E)
    requires first in news && forall b :: b in news ==> b == first || Less(first, b)
    ensures |Order(Upto(k), news)| > 0 && Order(Upto(k), news)[0] == first
  {
    hide Seen, ValidDag, Nodes;
    forall n | n in news
      ensures Upto(k)[n] == {}
    {
      assert Needs(n) == {};
    }
    hide Upto;
    assert Ready(Upto(k), news) == news;
    OrderUnfold(Upto(k), news, first);
  }

  lemma ViewsStart()
    ensures Ok(Fork(10)) && Frontier(Fork(10), START, []) && Ok(Fork(11)) && Frontier(Fork(11), START, [])
    ensures |View(Fork(10), START, [])| > 0 && View(Fork(10), START, [])[0] == A
    ensures |View(Fork(11), START, [])| > 0 && View(Fork(11), START, [])[0] == E
  {
    hide Upto, Shift, View, Frontier, ValidDag;
    ShiftBefore();
    ShiftAfter();
    FirstFinalized(10, [A], A);
    FirstFinalized(11, [E, A], E);
  }

  /** A node that has seen every other reorders what was finalized: that the finalized order
      only extends is false once the DAG has forked. */
  lemma FinalizedReordered()
    ensures Extends(Fork(10), Fork(11)) && U !in Upto(10) && Upto(11) == Upto(10)[U := {Q, T}]
    ensures forall n :: n in Upto(10) ==> Sees(Upto(11), U, n)
    ensures Frontier(Fork(10), START, []) && Frontier(Fork(11), START, [])
    ensures !(View(Fork(10), START, []) <= View(Fork(11), START, []))
  {
    hide Upto, Shift, Sees, View, Frontier, ValidDag;
    OneMore();
    ViewsStart();
    forall n | n in Upto(10)
      ensures Sees(Upto(11), U, n)
    {
      USeesAll(n);
    }
  }

  lemma OneMore()
    ensures U !in Upto(10) && Upto(11) == Upto(10)[U := {Q, T}]
  {
    assert Nodes()[..11] == Nodes()[..10] + [U];
    hide Nodes, Seen;
    Has(10, U);
    assert Needs(U) == {Q, T};
  }

  lemma USeesAll(n: NodeId)
    requires n in Upto(10)
    ensures Sees(Upto(11), U, n)
  {
    assert n in Nodes() ==> n.pos < Seen(U, n.key);
    hide Upto, Seen, Sees;
    Has(10, n);
    Has(11, U);
    RowsAreClocks(11, U, n);
  }
}
