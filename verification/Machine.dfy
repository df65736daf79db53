/** The loops that compute the confirmation machine, each against its specification. */
module Machine {
  import opened Prelude
  import opened CausalDag
  import opened Kahn
  import opened Confirmation
  import opened Finality
  import opened Walks

  method Smallest(s: set<NodeId>) returns (x: NodeId)
    requires s != {}
    ensures IsMin(s, x)
  {
    MinExists(s);
    x :| x in s && forall y :: y in s ==> x == y || Less(x, y);
  }

  // ---------------------------------------------------------------- votes

  ghost predicate Passes(g: Graph, o: NodeId, p: NodeId, key: nat, removed: Clock) {
    key in g.indexers && Sees(g.deps, p, First(g, o, key, removed)) ==> Sees(g.deps, First(g, o, key, removed), o)
  }

  /** What one writer's entry of the clocks says about ambiguity. */
  lemma PassesByClock(g: Graph, o: NodeId, p: NodeId, key: nat, removed: Clock)
    requires Ok(g) && o in g.deps && p in g.deps && Sees(g.deps, p, o)
    ensures var latest := Len(g.deps, p, key);
            var next := First(g, o, key, removed);
            && (latest > Get(removed, key) ==> latest >= next.pos)
            && (latest <= next.pos ==> Passes(g, o, p, key, removed))
            && (latest > next.pos ==> next in g.deps)
            && (latest > next.pos && key in g.indexers ==>
                  (Passes(g, o, p, key, removed) <==> Sees(g.deps, next, o)))
  {
    var next := First(g, o, key, removed);
    LenMonotone(g.deps, p, o, key);
    ClockIsSees(g.deps, p, key, next.pos);
    if Len(g.deps, p, key) > next.pos {
      SeesDelivered(g.deps, p, next);
    }
  }

  /** The ambiguity guard, one writer of the newer node's clock at a time. */
  method IsStrictlyNewer(g: Graph, target: NodeId, parent: NodeId, removed: Clock) returns (r: bool)
    requires Ok(g) && target in g.deps && parent in g.deps
    ensures r <==> StrictlyNewer(g, target, parent, removed)
  {
    hide ValidDag, Sees, Passes, Len;
    var sees := SeesWalk(g.deps, parent, target);
    if !sees {
      return false;
    }
    var pclk := ClockOf(g.deps, parent);
    var oclk := ClockOf(g.deps, target);
    var todo := pclk.Keys;
    while todo != {}
      invariant todo <= pclk.Keys
      invariant forall key :: key in pclk.Keys && key !in todo ==> Passes(g, target, parent, key, removed)
      decreases todo
    {
      var key :| key in todo;
      todo := todo - {key};
      PassesByClock(g, target, parent, key, removed);
      PassesMeans(g, target, parent, key, removed);
      if key !in g.indexers {
        continue;
      }
      var latest, oldest := Get(pclk, key), Get(removed, key);
      if latest <= oldest {
        continue;
      }
      var length := if Get(oclk, key) > oldest then Get(oclk, key) else oldest;
      if latest < length {
        return false;
      }
      if latest == length {
        continue;
      }
      var next := NodeId(key, length);
      if next !in g.deps {
        continue;
      }
      var acked := SeesWalk(g.deps, next, target);
      if acked {
        continue;
      }
      return false;
    }
    forall key
      ensures Passes(g, target, parent, key, removed)
    {
      PassesByClock(g, target, parent, key, removed);
    }
    PassesAll(g, target, parent, removed);
    return true;
  }

  lemma PassesMeans(g: Graph, o: NodeId, p: NodeId, key: nat, removed: Clock)
    ensures key !in g.indexers ==> Passes(g, o, p, key, removed)
    ensures !Passes(g, o, p, key, removed) ==> !StrictlyNewer(g, o, p, removed)
  {
  }

  lemma PassesAll(g: Graph, o: NodeId, p: NodeId, removed: Clock)
    requires Sees(g.deps, p, o) && forall key :: Passes(g, o, p, key, removed)
    ensures StrictlyNewer(g, o, p, removed)
  {
    forall key | key in g.indexers && Sees(g.deps, p, First(g, o, key, removed))
      ensures Sees(g.deps, First(g, o, key, removed), o)
    {
      assert Passes(g, o, p, key, removed);
    }
  }

  /** `acks` lists the voting nodes for `t`, one per voting indexer of `keys`. */
  ghost predicate AcksOf(g: Graph, t: NodeId, keys: set<nat>, acks: seq<NodeId>, removed: Clock) {
    && (forall a :: a in acks ==> a.key in keys && a == AckNode(g, t, a.key, removed))
    && (forall key :: key in keys ==> AckNode(g, t, key, removed) in acks)
    && Distinct(acks)
  }

  lemma AcksStep(g: Graph, t: NodeId, keys: set<nat>, acks: seq<NodeId>, removed: Clock, key: nat)
    requires AcksOf(g, t, keys, acks, removed) && key !in keys
    ensures AcksOf(g, t, keys + {key}, acks + [AckNode(g, t, key, removed)], removed)
  {
    assert AckNode(g, t, key, removed).key == key;
  }

  lemma {:induction false} CountKeys(g: Graph, t: NodeId, keys: set<nat>, acks: seq<NodeId>, removed: Clock)
    requires AcksOf(g, t, keys, acks, removed)
    ensures |acks| == |keys|
  {
    if acks == [] {
      assert keys == {};
    } else {
      var last := acks[|acks| - 1];
      var front := acks[..|acks| - 1];
      assert acks == front + [last];
      AcksFront(g, t, keys, acks, removed);
      CountKeys(g, t, keys - {last.key}, front, removed);
    }
  }

  lemma AcksFront(g: Graph, t: NodeId, keys: set<nat>, acks: seq<NodeId>, removed: Clock)
    requires AcksOf(g, t, keys, acks, removed) && acks != []
    ensures var last := acks[|acks| - 1];
            last.key in keys && AcksOf(g, t, keys - {last.key}, acks[..|acks| - 1], removed)
  {
    var last := acks[|acks| - 1];
    var front := acks[..|acks| - 1];
    assert acks == front + [last];
    assert last in acks;
    forall a | a in front
      ensures a.key != last.key
    {
      assert a in acks;
      var i :| 0 <= i < |front| && front[i] == a;
      assert acks[i] == a;
    }
    forall key | key in keys - {last.key}
      ensures AckNode(g, t, key, removed) in front
    {
      assert AckNode(g, t, key, removed).key == key;
      assert AckNode(g, t, key, removed) in acks;
    }
  }

  /** How many of `acks` the node `head` has seen. */
  ghost function Count(deps: Deps, head: NodeId, acks: seq<NodeId>): nat {
    if acks == [] then 0
    else Count(deps, head, acks[..|acks| - 1]) + (if Sees(deps, head, acks[|acks| - 1]) then 1 else 0)
  }

  lemma {:induction false} CountVotes(g: Graph, t: NodeId, keys: set<nat>, acks: seq<NodeId>, removed: Clock, head: NodeId)
    requires AcksOf(g, t, keys, acks, removed)
    ensures Count(g.deps, head, acks) == |Voters(g, t, keys, removed, head)|
  {
    hide AckNode, Sees;
    if acks == [] {
      assert keys == {};
      assert Voters(g, t, keys, removed, head) == {};
    } else {
      var last := acks[|acks| - 1];
      AcksFront(g, t, keys, acks, removed);
      assert last in acks && last == AckNode(g, t, last.key, removed);
      CountVotes(g, t, keys - {last.key}, acks[..|acks| - 1], removed, head);
      OneVoter(g, t, keys, removed, head, last.key);
    }
  }

  ghost function Voters(g: Graph, t: NodeId, keys: set<nat>, removed: Clock, head: NodeId): set<nat> {
    set key | key in keys && Sees(g.deps, head, AckNode(g, t, key, removed))
  }

  lemma OneVoter(g: Graph, t: NodeId, keys: set<nat>, removed: Clock, head: NodeId, key: nat)
    requires key in keys
    ensures |Voters(g, t, keys, removed, head)|
         == |Voters(g, t, keys - {key}, removed, head)| + (if Sees(g.deps, head, AckNode(g, t, key, removed)) then 1 else 0)
  {
    hide AckNode, Sees;
    var all, fewer := Voters(g, t, keys, removed, head), Voters(g, t, keys - {key}, removed, head);
    if Sees(g.deps, head, AckNode(g, t, key, removed)) {
      assert all == fewer + {key};
    } else {
      assert all == fewer;
    }
  }

  lemma AckByClock(g: Graph, t: NodeId, key: nat, removed: Clock)
    requires key in g.indexers && key != t.key
    ensures key in AckKeys(g, t, removed) <==> AckedBy(g, t, key, removed)
    ensures AckNode(g, t, key, removed) == First(g, t, key, removed)
  {
  }

  /** The indexer nodes that vote for `target`. */
  method Acks(g: Graph, target: NodeId, removed: Clock) returns (acks: seq<NodeId>)
    requires Ok(g) && target in g.deps
    ensures AcksOf(g, target, AckKeys(g, target, removed), acks, removed)
  {
    hide ValidDag, Sees, StrictlyNewer, AcksOf, AckKeys, Len, AckNode;
    ghost var keys: set<nat>;
    acks, keys := [], {};
    AcksStart(g, target, removed);
    if target.key in g.indexers {
      AcksStep(g, target, keys, acks, removed, target.key);
      acks, keys := acks + [target], keys + {target.key};
    }
    var tclk := ClockOf(g.deps, target);
    var todo := g.indexers;
    while todo != {}
      invariant todo <= g.indexers && AcksOf(g, target, keys, acks, removed)
      invariant forall key :: key in keys ==> key in AckKeys(g, target, removed) && (key == target.key || key !in todo)
      invariant forall key :: key in AckKeys(g, target, removed) && key !in keys ==> key in todo && key != target.key
      decreases todo
    {
      var idx :| idx in todo;
      todo := todo - {idx};
      if idx == target.key {
        continue;
      }
      AckByClock(g, target, idx, removed);
      var next := if Get(tclk, idx) > Get(removed, idx) then Get(tclk, idx) else Get(removed, idx);
      var node := NodeId(idx, next);
      if node !in g.deps {
        continue;
      }
      var sees := SeesWalk(g.deps, node, target);
      if !sees {
        continue;
      }
      var newer := IsStrictlyNewer(g, target, node, removed);
      if !newer {
        continue;
      }
      AcksStep(g, target, keys, acks, removed, idx);
      acks, keys := acks + [node], keys + {idx};
    }
    assert keys == AckKeys(g, target, removed);
  }

  lemma AcksStart(g: Graph, t: NodeId, removed: Clock)
    ensures AcksOf(g, t, {}, [], removed)
    ensures AckNode(g, t, t.key, removed) == t
    ensures t.key in AckKeys(g, t, removed) <==> t.key in g.indexers
    ensures forall key :: key in AckKeys(g, t, removed) ==> key in g.indexers
  {
  }

  /** Count the votes `head` has seen, stopping at a majority. */
  method SeenVotes(g: Graph, head: NodeId, acks: seq<NodeId>, majority: nat) returns (seen: nat)
    requires Ok(g) && majority > 0
    ensures seen >= majority <==> Count(g.deps, head, acks) >= majority
  {
    hide ValidDag, Sees;
    seen := 0;
    for i := 0 to |acks|
      invariant seen == Count(g.deps, head, acks[..i]) && seen < majority
    {
      assert acks[..i + 1][..i] == acks[..i];
      var sees := SeesWalk(g.deps, head, acks[i]);
      if sees {
        seen := seen + 1;
        if seen >= majority {
          CountMore(g.deps, head, acks, i + 1);
          return;
        }
      }
    }
    assert acks[..|acks|] == acks;
  }

  lemma {:induction false} CountMore(deps: Deps, head: NodeId, acks: seq<NodeId>, i: nat)
    requires i <= |acks|
    ensures Count(deps, head, acks[..i]) <= Count(deps, head, acks) <= Count(deps, head, acks[..i]) + (|acks| - i)
    decreases |acks| - i
  {
    if i < |acks| {
      CountMore(deps, head, acks, i + 1);
      assert acks[..i + 1][..i] == acks[..i];
    } else {
      assert acks[..i] == acks;
    }
  }

  /** A majority of `acks` is seen by `parent`; give up once too few remain. */
  method AckedAt(g: Graph, acks: seq<NodeId>, parent: NodeId) returns (r: bool)
    requires Ok(g)
    ensures r <==> Count(g.deps, parent, acks) >= Majority(g)
  {
    hide ValidDag, Sees;
    var majority := Majority(g);
    var seen, missing := 0, |acks|;
    for i := 0 to |acks|
      invariant seen == Count(g.deps, parent, acks[..i]) && seen < majority
      invariant missing == |acks| - i
    {
      missing := missing - 1;
      assert acks[..i + 1][..i] == acks[..i];
      CountMore(g.deps, parent, acks, i + 1);
      var sees := SeesWalk(g.deps, parent, acks[i]);
      if !sees {
        if seen + missing < majority {
          return false;
        }
        continue;
      }
      seen := seen + 1;
      if seen >= majority {
        return true;
      }
    }
    assert acks[..|acks|] == acks;
    return false;
  }

  // ---------------------------------------------------------------- confirmation

  lemma VotesMonotone(g: Graph, t: NodeId, h: NodeId, h': NodeId, removed: Clock)
    requires Sees(g.deps, h', h)
    ensures VotesSeen(g, t, h, removed) <= VotesSeen(g, t, h', removed)
  {
    var a := set key | key in AckKeys(g, t, removed) && Sees(g.deps, h, AckNode(g, t, key, removed));
    var b := set key | key in AckKeys(g, t, removed) && Sees(g.deps, h', AckNode(g, t, key, removed));
    forall key | key in a
      ensures key in b
    {
      SeesTrans(g.deps, h', h, AckNode(g, t, key, removed));
    }
    SubsetCard(a, b);
  }

  /** Below a head that has not seen a majority of the votes, no head has. */
  lemma NoneAcked(g: Graph, key: nat, t: NodeId, length: nat, removed: Clock, i: nat)
    requires Ok(g) && i < length <= WriterLen(g.deps, key)
    requires VotesSeen(g, t, NodeId(key, i), removed) < Majority(g)
    requires forall j: nat :: i < j < length ==> !StrictlyNewer(g, t, NodeId(key, j), removed)
    ensures !HasAcked(g, key, t, length, removed)
  {
    forall j: nat | j < length && StrictlyNewer(g, t, NodeId(key, j), removed)
      ensures VotesSeen(g, t, NodeId(key, j), removed) < Majority(g)
    {
      WriterRun(g.deps, key, i);
      OwnEarlier(g.deps, NodeId(key, i), j);
      VotesMonotone(g, t, NodeId(key, j), NodeId(key, i), removed);
    }
  }

  /** How indexer `key`'s first `length` nodes relate to confirming `target`: scan them
      newest first for one strictly newer than the target. */
  method Confirms(g: Graph, key: nat, target: NodeId, acks: seq<NodeId>, length: nat, removed: Clock) returns (c: Confirm)
    requires Ok(g) && target in g.deps && length <= WriterLen(g.deps, key)
    requires AcksOf(g, target, AckKeys(g, target, removed), acks, removed)
    ensures c == Status(g, key, target, length, removed)
  {
    hide ValidDag, Sees, StrictlyNewer, AcksOf, AckKeys, Len, AckNode, VotesSeen, WriterLen, HasAcked;
    if length == 0 || Get(removed, key) >= length {
      return Unseen;
    }
    var majority := Majority(g);
    var newer := true;
    var i: int := length - 1;
    while i >= 0
      invariant -1 <= i < length && (newer <==> i == length - 1)
      invariant forall j: nat :: i < j < length ==> !StrictlyNewer(g, target, NodeId(key, j), removed)
      decreases i
    {
      var head := NodeId(key, i);
      HeadFacts(g, key, target, acks, length, removed, i);
      if head !in g.deps {
        return Unseen;
      }
      var seen := SeenVotes(g, head, acks, majority);
      if !newer && seen < majority {
        break;
      }
      var strictly := IsStrictlyNewer(g, target, head, removed);
      if !strictly {
        newer := false;
        i := i - 1;
        continue;
      } else if seen < majority {
        return Newer;
      }
      return Acked;
    }
    if i < 0 {
      NeverNewer(g, key, target, length, removed);
    }
    return Unseen;
  }

  lemma HeadFacts(g: Graph, key: nat, t: NodeId, acks: seq<NodeId>, length: nat, removed: Clock, i: nat)
    requires Ok(g) && i < length <= WriterLen(g.deps, key)
    requires AcksOf(g, t, AckKeys(g, t, removed), acks, removed)
    requires forall j: nat :: i < j < length ==> !StrictlyNewer(g, t, NodeId(key, j), removed)
    ensures NodeId(key, i) in g.deps
    ensures Count(g.deps, NodeId(key, i), acks) == VotesSeen(g, t, NodeId(key, i), removed)
    ensures VotesSeen(g, t, NodeId(key, i), removed) < Majority(g) ==> !HasAcked(g, key, t, length, removed)
    ensures StrictlyNewer(g, t, NodeId(key, i), removed) && VotesSeen(g, t, NodeId(key, i), removed) >= Majority(g)
            ==> HasAcked(g, key, t, length, removed)
  {
    hide ValidDag, Sees, StrictlyNewer, AcksOf, AckKeys, Len, AckNode, WriterLen;
    WriterRun(g.deps, key, i);
    CountVotes(g, t, AckKeys(g, t, removed), acks, removed, NodeId(key, i));
    if VotesSeen(g, t, NodeId(key, i), removed) < Majority(g) {
      NoneAcked(g, key, t, length, removed, i);
    }
  }

  lemma NeverNewer(g: Graph, key: nat, t: NodeId, length: nat, removed: Clock)
    requires forall j: nat :: j < length ==> !StrictlyNewer(g, t, NodeId(key, j), removed)
    ensures !HasAcked(g, key, t, length, removed)
  {
  }

  /** Enough indexers could still confirm `target` after `parent`. */
  method IsConfirmableAt(g: Graph, target: NodeId, parent: NodeId, acks: seq<NodeId>, confs: set<nat>, removed: Clock)
    returns (r: bool)
    requires Ok(g) && target in g.deps && parent in g.deps
    requires AcksOf(g, target, AckKeys(g, target, removed), acks, removed)
    requires confs == AckedBelow(g, target, parent, removed) && |confs| < Majority(g)
    ensures r <==> Confirmable(g, target, parent, removed)
  {
    hide ValidDag, Sees, StrictlyNewer, AcksOf, AckKeys, Len, AckNode, Potential, AckedBelow;
    var majority := Majority(g);
    CountVotes(g, target, AckKeys(g, target, removed), acks, removed, parent);
    var acked := AckedAt(g, acks, parent);
    if !acked {
      return false;
    }
    var potential := |confs|;
    var pclk := ClockOf(g.deps, parent);
    var tclk := ClockOf(g.deps, target);
    ghost var all := set key | key in g.indexers && (key in confs || Potential(g, target, parent, key, removed));
    ghost var counted := confs;
    assert confs <= all by { AckedAreIndexers(g, target, parent, removed); }
    var todo := g.indexers;
    while todo != {}
      invariant todo <= g.indexers && confs <= counted <= all
      invariant potential == |counted| < majority
      invariant forall key :: key in all && key !in counted ==> key in todo
      invariant forall key :: key in counted ==> key in confs || key !in todo
      decreases todo
    {
      var indexer :| indexer in todo;
      todo := todo - {indexer};
      if indexer in confs {
        continue;
      }
      PotentialFacts(g, target, parent, indexer, removed);
      var length := Get(pclk, indexer);
      var isSeen := Includes(tclk, indexer, length);
      if !isSeen && length >= 1 {
        var head := NodeId(indexer, length - 1);
        if head in g.deps && !Includes(removed, indexer, length) {
          var newer := IsStrictlyNewer(g, target, head, removed);
          if !newer {
            continue;
          }
        }
      }
      counted := counted + {indexer};
      potential := potential + 1;
      if potential >= majority {
        SubsetCard(counted, all);
        return true;
      }
    }
    assert counted == all;
    return false;
  }

  lemma AckedAreIndexers(g: Graph, t: NodeId, p: NodeId, removed: Clock)
    ensures AckedBelow(g, t, p, removed) <= g.indexers
  {
  }

  lemma PotentialFacts(g: Graph, t: NodeId, p: NodeId, key: nat, removed: Clock)
    requires Ok(g) && p in g.deps
    ensures var length := Len(g.deps, p, key);
            && (Potential(g, t, p, key, removed) <==>
                 length == 0 || Len(g.deps, t, key) >= length || Get(removed, key) >= length
                 || StrictlyNewer(g, t, NodeId(key, length - 1), removed))
            && (length > 0 ==> NodeId(key, length - 1) in g.deps)
  {
    var length := Len(g.deps, p, key);
    if length > 0 {
      ClockIsSees(g.deps, p, key, length - 1);
      SeesDelivered(g.deps, p, NodeId(key, length - 1));
    }
  }

  ghost function ScanLength(g: Graph, parent: Option<NodeId>, key: nat): nat {
    if parent.None? then WriterLen(g.deps, key) else LengthBelow(g, parent.value, key)
  }

  lemma ScanLengthFits(g: Graph, parent: Option<NodeId>, key: nat)
    requires Ok(g) && (parent.Some? ==> parent.value in g.deps)
    ensures ScanLength(g, parent, key) <= WriterLen(g.deps, key)
  {
    if parent.Some? {
      var p := parent.value;
      if key == p.key {
        WriterRun(g.deps, key, p.pos);
      } else if Len(g.deps, p, key) > 0 {
        ClockIsSees(g.deps, p, key, Len(g.deps, p, key) - 1);
        SeesDelivered(g.deps, p, NodeId(key, Len(g.deps, p, key) - 1));
        WriterRun(g.deps, key, Len(g.deps, p, key) - 1);
      }
    }
  }

  ghost function AckedScan(g: Graph, t: NodeId, parent: Option<NodeId>, removed: Clock): set<nat> {
    set key | key in g.indexers && Status(g, key, t, ScanLength(g, parent, key), removed) == Acked
  }

  lemma AckedScanIs(g: Graph, t: NodeId, parent: Option<NodeId>, removed: Clock)
    ensures parent.None? ==> AckedScan(g, t, parent, removed) == AckedAll(g, t, removed)
    ensures parent.Some? ==> AckedScan(g, t, parent, removed) == AckedBelow(g, t, parent.value, removed)
  {
  }

  /** `nextSeq` holds the length of every writer's log. */
  ghost predicate NextSeq(deps: Deps, nextSeq: Clock) {
    forall key :: Get(nextSeq, key) == WriterLen(deps, key)
  }

  /** The indexers with an unconfirmed log and a node strictly newer than `t` that has seen the
      votes of more than half of the indexers. */
  ghost function Endorsers(g: Graph, t: NodeId, removed: Clock): set<nat> {
    set key | key in g.indexers && Get(removed, key) < WriterLen(g.deps, key) && Endorses(g, t, key, removed)
  }

  ghost predicate Endorses(g: Graph, t: NodeId, key: nat, removed: Clock) {
    exists i: nat :: i < WriterLen(g.deps, key) && StrictlyNewer(g, t, NodeId(key, i), removed)
                     && 2 * VotesSeen(g, t, NodeId(key, i), removed) > |g.indexers|
  }

  /** Half of the indexers never confirm; more than half of votes, with more than half of the
      indexers endorsing, always do. */
  lemma HalfIsNotEnough(g: Graph, t: NodeId, removed: Clock)
    ensures 2 * |AckKeys(g, t, removed)| <= |g.indexers| ==> !Confirmed(g, t, removed)
    ensures 2 * |AckKeys(g, t, removed)| > |g.indexers| && 2 * |Endorsers(g, t, removed)| > |g.indexers| ==>
              Confirmed(g, t, removed)
  {
    hide AckKeys, StrictlyNewer, VotesSeen, WriterLen;
    forall key | key in Endorsers(g, t, removed)
      ensures key in AckedAll(g, t, removed)
    {
      var i: nat :| i < WriterLen(g.deps, key) && StrictlyNewer(g, t, NodeId(key, i), removed)
                    && 2 * VotesSeen(g, t, NodeId(key, i), removed) > |g.indexers|;
      assert HasAcked(g, key, t, WriterLen(g.deps, key), removed);
    }
    SubsetCard(Endorsers(g, t, removed), AckedAll(g, t, removed));
  }

  /** `target` is confirmed: by everything delivered, or relative to `parent`. */
  method IsConfirmed(g: Graph, nextSeq: Clock, target: NodeId, parent: Option<NodeId>, removed: Clock) returns (r: bool)
    requires Ok(g) && NextSeq(g.deps, nextSeq) && target in g.deps && (parent.Some? ==> parent.value in g.deps)
    ensures parent.None? ==> (r <==> Confirmed(g, target, removed))
    ensures parent.None? && 2 * |AckKeys(g, target, removed)| <= |g.indexers| ==> !r
    ensures parent.None? && 2 * |AckKeys(g, target, removed)| > |g.indexers| && 2 * |Endorsers(g, target, removed)| > |g.indexers| ==> r
    ensures parent.Some? ==> (r <==> ConfirmedAt(g, target, parent.value, removed))
  {
    hide ValidDag, Sees, StrictlyNewer, AcksOf, AckKeys, Len, AckNode, Status, WriterLen, Confirmable, AckedAll, AckedBelow, Endorsers;
    HalfIsNotEnough(g, target, removed);
    var majority := Majority(g);
    var acks := Acks(g, target, removed);
    CountKeys(g, target, AckKeys(g, target, removed), acks, removed);
    if |acks| < majority {
      return false;
    }
    ghost var full := AckedScan(g, target, parent, removed);
    AckedScanIs(g, target, parent, removed);
    var confs: set<nat> := {};
    var allNewer := true;
    var todo := g.indexers;
    while todo != {}
      invariant todo <= g.indexers && confs <= full && |confs| < majority
      invariant forall key :: key in full && key !in confs ==> key in todo
      invariant forall key :: key in confs ==> key !in todo
      invariant allNewer <==> forall key :: key in g.indexers && key !in todo ==>
                  Status(g, key, target, ScanLength(g, parent, key), removed) != Unseen
      decreases todo
    {
      var indexer :| indexer in todo;
      todo := todo - {indexer};
      ScanLengthFits(g, parent, indexer);
      var length: nat;
      if parent.None? {
        length := Get(nextSeq, indexer);
      } else if parent.value.key == indexer {
        length := parent.value.pos;
      } else {
        var pclk := ClockOf(g.deps, parent.value);
        length := Get(pclk, indexer);
      }
      var c := Confirms(g, indexer, target, acks, length, removed);
      if c == Acked {
        confs := confs + {indexer};
        if |confs| >= majority {
          SubsetCard(confs, full);
          return true;
        }
      } else if c == Unseen {
        allNewer := false;
      }
    }
    assert confs == full;
    if parent.Some? {
      r := IsConfirmableAt(g, target, parent.value, acks, confs, removed);
    } else {
      r := allNewer;
    }
  }
}
