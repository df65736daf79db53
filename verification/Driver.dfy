/** The loops that drive the confirmation machine to the finalized prefix. */
module Driver {
  import opened Prelude
  import opened CausalDag
  import opened Kahn
  import opened Confirmation
  import opened FinalizedView
  import opened Walks
  import opened Machine

  // ---------------------------------------------------------------- frontier and merges

  /** The minimal elements of `s` under causality. */
  ghost function Minimal(deps: Deps, s: set<NodeId>): set<NodeId> {
    set t | t in s && forall m :: m in s && m != t ==> !Sees(deps, t, m)
  }

  ghost function FirstsOf(g: Graph, keys: set<nat>, removed: Clock): set<NodeId> {
    set key | key in keys && NodeId(key, Get(removed, key)) in g.deps :: NodeId(key, Get(removed, key))
  }

  lemma {:induction false} MinimalBelow(deps: Deps, s: set<NodeId>, x: NodeId)
    requires ValidDag(deps) && s <= deps.Keys && x in s
    ensures exists t :: t in Minimal(deps, s) && Sees(deps, x, t)
    decreases |Past(deps, x)|
  {
    if x in Minimal(deps, s) {
      SeesSelf(deps, x);
    } else {
      var m :| m in s && m != x && Sees(deps, x, m);
      PastShrinks(deps, x, m);
      MinimalBelow(deps, s, m);
      var t :| t in Minimal(deps, s) && Sees(deps, m, t);
      SeesTrans(deps, x, m, t);
    }
  }

  /** A new node above a minimal one changes nothing. */
  lemma MinimalAbove(deps: Deps, s: set<NodeId>, x: NodeId, t: NodeId)
    requires ValidDag(deps) && s <= deps.Keys && x in deps && x !in s
    requires t in Minimal(deps, s) && Sees(deps, x, t)
    ensures Minimal(deps, s + {x}) == Minimal(deps, s)
    ensures forall u :: u in Minimal(deps, s) ==> !Sees(deps, u, x)
  {
    forall u | u in Minimal(deps, s)
      ensures !Sees(deps, u, x)
    {
      if Sees(deps, u, x) {
        SeesTrans(deps, u, x, t);
        SeesAntisym(deps, x, t);
      }
    }
    assert forall u :: u in Minimal(deps, s + {x}) <==> u in Minimal(deps, s);
  }

  /** A new node above no minimal one displaces those above it. */
  lemma MinimalBeneath(deps: Deps, s: set<NodeId>, x: NodeId)
    requires ValidDag(deps) && s <= deps.Keys && x in deps && x !in s
    requires forall t :: t in Minimal(deps, s) ==> !Sees(deps, x, t)
    ensures Minimal(deps, s + {x}) == (set t | t in Minimal(deps, s) && !Sees(deps, t, x)) + {x}
  {
    forall m | m in s
      ensures !Sees(deps, x, m)
    {
      if Sees(deps, x, m) {
        MinimalBelow(deps, s, m);
        var t :| t in Minimal(deps, s) && Sees(deps, m, t);
        SeesTrans(deps, x, m, t);
      }
    }
    assert forall u :: u in Minimal(deps, s + {x}) <==> u == x || (u in Minimal(deps, s) && !Sees(deps, u, x));
  }

  /** The oldest unconfirmed node of each indexer, reduced to an antichain. */
  method IndexerTails(g: Graph, removed: Clock) returns (tails: set<NodeId>)
    requires Ok(g)
    ensures tails == Tails(g, removed)
  {
    hide ValidDag, Sees, Minimal;
    tails := {};
    var todo := g.indexers;
    ghost var done: set<nat> := {};
    ghost var firsts: set<NodeId> := {};
    MinimalOfNone(g.deps);
    while todo != {}
      invariant done + todo == g.indexers && done !! todo
      invariant firsts == FirstsOf(g, done, removed)
      invariant tails == Minimal(g.deps, firsts)
      decreases todo
    {
      var idx :| idx in todo;
      todo := todo - {idx};
      var head := NodeId(idx, Get(removed, idx));
      assert head !in firsts;
      FirstsStep(g, done, removed, idx);
      done := done + {idx};
      if head !in g.deps || Includes(removed, head.key, head.pos + 1) {
        continue;
      }
      tails := Place(g.deps, firsts, tails, head);
      firsts := firsts + {head};
    }
    assert done == g.indexers;
    TailsAreMinimal(g, removed);
  }

  lemma MinimalOfNone(deps: Deps)
    ensures Minimal(deps, {}) == {}
  {
  }

  lemma FirstsStep(g: Graph, done: set<nat>, removed: Clock, idx: nat)
    ensures var head := NodeId(idx, Get(removed, idx));
            FirstsOf(g, done + {idx}, removed) == FirstsOf(g, done, removed) + (if head in g.deps then {head} else {})
    ensures FirstsOf(g, done, removed) <= g.deps.Keys
  {
  }

  lemma TailsAreMinimal(g: Graph, removed: Clock)
    ensures Tails(g, removed) == Minimal(g.deps, FirstsOf(g, g.indexers, removed))
  {
    assert Firsts(g, removed) == FirstsOf(g, g.indexers, removed);
  }

  /** Place `head` among the minimal nodes: dropped if it is above one of them, else it
      drops those above it. */
  method Place(deps: Deps, ghost firsts: set<NodeId>, tails: set<NodeId>, head: NodeId) returns (tails': set<NodeId>)
    requires ValidDag(deps) && firsts <= deps.Keys && head in deps && head !in firsts
    requires tails == Minimal(deps, firsts)
    ensures tails' == Minimal(deps, firsts + {head})
  {
    hide ValidDag, Sees, Minimal;
    var isTail := true;
    var remove: set<NodeId> := {};
    var todo := tails;
    while todo != {} && isTail
      invariant todo <= tails && remove <= tails
      invariant !isTail ==> exists t :: t in tails && Sees(deps, head, t)
      invariant isTail ==> forall t :: t in tails && t !in todo ==> !Sees(deps, head, t)
      invariant isTail ==> forall t :: t in tails && t !in todo ==> (t in remove <==> Sees(deps, t, head))
      invariant forall t :: t in remove ==> Sees(deps, t, head)
      decreases todo, isTail
    {
      var t :| t in todo;
      todo := todo - {t};
      var above := SeesWalk(deps, head, t);
      if above {
        isTail := false;
        break;
      }
      var below := SeesWalk(deps, t, head);
      if below {
        remove := remove + {t};
      }
    }
    tails' := tails - remove;
    if isTail {
      MinimalBeneath(deps, firsts, head);
      tails' := tails' + {head};
    } else {
      ghost var t :| t in tails && Sees(deps, head, t);
      MinimalAbove(deps, firsts, head, t);
      assert remove == {};
    }
  }

  lemma HeadsStep(g: Graph, n: NodeId, removed: Clock, key: nat)
    requires Ok(g) && n in g.deps
    ensures LengthBelow(g, n, key) == Len(g.deps, n, key) - (if key == n.key then 1 else 0)
    ensures LengthBelow(g, n, key) > 0 ==> NodeId(key, LengthBelow(g, n, key) - 1) in g.deps
  {
    hide ValidDag, Sees, Len;
    var length := LengthBelow(g, n, key);
    if key == n.key {
      SeesSelf(g.deps, n);
      ClockIsSees(g.deps, n, key, n.pos);
      ClockIsSees(g.deps, n, key, n.pos + 1);
      if Sees(g.deps, n, NodeId(key, n.pos + 1)) {
        SeesDelivered(g.deps, n, NodeId(key, n.pos + 1));
        OwnEarlier(g.deps, NodeId(key, n.pos + 1), n.pos);
        SeesAntisym(g.deps, n, NodeId(key, n.pos + 1));
      }
      if length > 0 {
        OwnEarlier(g.deps, n, length - 1);
        SeesDelivered(g.deps, n, NodeId(key, length - 1));
      }
    } else if length > 0 {
      ClockIsSees(g.deps, n, key, length - 1);
      SeesDelivered(g.deps, n, NodeId(key, length - 1));
    }
  }

  ghost function HeadsOf(g: Graph, n: NodeId, keys: set<nat>, removed: Clock): set<NodeId> {
    set key | key in keys && LengthBelow(g, n, key) > Get(removed, key) :: NodeId(key, LengthBelow(g, n, key) - 1)
  }

  lemma HeadsOfStep(g: Graph, n: NodeId, keys: set<nat>, removed: Clock, key: nat)
    ensures HeadsOf(g, n, keys + {key}, removed)
         == HeadsOf(g, n, keys, removed)
            + (if LengthBelow(g, n, key) > Get(removed, key) then {NodeId(key, LengthBelow(g, n, key) - 1)} else {})
  {
    hide LengthBelow, Get;
    var more, fewer := HeadsOf(g, n, keys + {key}, removed), HeadsOf(g, n, keys, removed);
    forall x | x in more
      ensures x in fewer || (x.key == key && LengthBelow(g, n, key) > Get(removed, key) && x.pos == LengthBelow(g, n, key) - 1)
    {
      assert x.key in keys || x.key == key;
    }
    forall x | x in fewer
      ensures x in more
    {
      assert x.key in keys;
    }
  }

  ghost predicate IsMaximal(deps: Deps, heads: set<NodeId>, h: NodeId) {
    forall o :: o in heads && o != h ==> !Sees(deps, o, h)
  }

  /** No other head sees `h`. */
  method Unsubsumed(deps: Deps, heads: set<NodeId>, h: NodeId) returns (r: bool)
    requires ValidDag(deps)
    ensures r <==> IsMaximal(deps, heads, h)
  {
    hide ValidDag, Sees;
    var todo := heads;
    while todo != {}
      invariant todo <= heads && forall o :: o in heads && o !in todo && o != h ==> !Sees(deps, o, h)
      decreases todo
    {
      var o :| o in todo;
      todo := todo - {o};
      if o != h {
        var sees := SeesWalk(deps, o, h);
        if sees {
          return false;
        }
      }
    }
    return true;
  }

  /** What `node` knew of each indexer before itself, the confirmed left out. */
  method CollectHeads(g: Graph, node: NodeId, removed: Clock) returns (heads: set<NodeId>)
    requires Ok(g) && node in g.deps
    ensures heads == MergeHeads(g, node, removed)
  {
    hide ValidDag, Sees, Len, LengthBelow, HeadsOf, MergeHeads;
    var clk := ClockOf(g.deps, node);
    heads := {};
    var todo := g.indexers;
    ghost var done: set<nat> := {};
    HeadsOfNone(g, node, removed);
    while todo != {}
      invariant done + todo == g.indexers && done !! todo
      invariant heads == HeadsOf(g, node, done, removed)
      decreases todo
    {
      var idx :| idx in todo;
      todo := todo - {idx};
      HeadsStep(g, node, removed, idx);
      HeadsOfStep(g, node, done, removed, idx);
      done := done + {idx};
      var pos := Get(clk, idx) - 1 - (if idx == node.key then 1 else 0);
      if pos < 0 {
        continue;
      }
      var head := NodeId(idx, pos);
      if head !in g.deps || Includes(removed, idx, pos + 1) {
        continue;
      }
      heads := heads + {head};
    }
    assert done == g.indexers;
  }

  /** Indexer node `node` causally joins more than one independent indexer branch. */
  method IsMergeNode(g: Graph, node: NodeId, removed: Clock) returns (r: bool)
    requires Ok(g) && node in g.deps
    ensures r <==> IsMerge(g, node, removed)
  {
    hide ValidDag, Sees, MergeHeads, MaximalHeads, IsMaximal;
    if node.key !in g.indexers {
      return false;
    }
    var heads := CollectHeads(g, node, removed);
    var maximal: set<NodeId> := {};
    var rest := heads;
    while rest != {}
      invariant rest <= heads && maximal <= heads && maximal !! rest
      invariant forall h :: h in heads && h !in rest ==> (h in maximal <==> IsMaximal(g.deps, heads, h))
      decreases rest
    {
      var h :| h in rest;
      rest := rest - {h};
      var keep := Unsubsumed(g.deps, heads, h);
      if keep {
        maximal := maximal + {h};
      }
    }
    MaximalIs(g, node, removed, heads, maximal);
    r := |maximal| > 1;
  }

  lemma HeadsOfNone(g: Graph, n: NodeId, removed: Clock)
    ensures HeadsOf(g, n, {}, removed) == {}
    ensures HeadsOf(g, n, g.indexers, removed) == MergeHeads(g, n, removed)
  {
  }

  lemma MaximalIs(g: Graph, n: NodeId, removed: Clock, heads: set<NodeId>, maximal: set<NodeId>)
    requires heads == MergeHeads(g, n, removed) && maximal <= heads
    requires forall h :: h in heads ==> (h in maximal <==> IsMaximal(g.deps, heads, h))
    ensures maximal == MaximalHeads(g, n, removed)
  {
    forall h | h in heads
      ensures h in maximal <==> h in MaximalHeads(g, n, removed)
    {
      assert h in maximal <==> IsMaximal(g.deps, heads, h);
    }
  }

  /** The unconfirmed indexer merge nodes. */
  method MergeNodes(g: Graph, removed: Clock) returns (merges: set<NodeId>)
    requires Ok(g)
    ensures merges == Merges(g, removed)
  {
    hide ValidDag, Sees, IsMerge;
    merges := {};
    var todo := g.deps.Keys;
    while todo != {}
      invariant todo <= g.deps.Keys && merges !! todo
      invariant forall n :: n in merges ==> n in g.deps
      invariant forall n :: n in g.deps && n !in todo ==>
        (n in merges <==> n.key in g.indexers && n.pos >= Get(removed, n.key) && IsMerge(g, n, removed))
      decreases todo
    {
      var n :| n in todo;
      todo := todo - {n};
      if n.key in g.indexers && !Includes(removed, n.key, n.pos + 1) {
        var merge := IsMergeNode(g, n, removed);
        if merge {
          merges := merges + {n};
        }
      }
    }
  }

  // ---------------------------------------------------------------- one step

  lemma SortedUnfold(s: set<NodeId>, x: NodeId)
    requires IsMin(s, x)
    ensures Sorted(s) == [x] + Sorted(s - {x})
  {
    assert x == Min(s);
  }

  /** The tails `node` sees, in ascending order. */
  method TailsSeenBy(g: Graph, node: NodeId, tails: set<NodeId>, ghost removed: Clock) returns (seen: seq<NodeId>)
    requires Ok(g) && tails == Tails(g, removed)
    ensures seen == Sorted(TailsSeen(g, node, removed))
  {
    hide ValidDag, Sees, Tails, Sorted;
    seen := [];
    var todo := tails;
    ghost var left := TailsSeen(g, node, removed);
    while todo != {}
      invariant todo <= tails && left == SeenAmong(g.deps, node, todo)
      invariant seen + Sorted(left) == Sorted(TailsSeen(g, node, removed))
      decreases todo
    {
      var t := Smallest(todo);
      var sees := SeesWalk(g.deps, node, t);
      SeenStep(g.deps, node, todo, left, t);
      if sees {
        SortedUnfold(left, t);
        assert seen + ([t] + Sorted(left - {t})) == seen + [t] + Sorted(left - {t});
        seen := seen + [t];
      }
      todo := todo - {t};
      left := left - {t};
    }
    SeenNone(g.deps, node, left);
    SortedNone();
    assert seen + [] == seen;
  }

  ghost function SeenAmong(deps: Deps, node: NodeId, s: set<NodeId>): set<NodeId> {
    set t | t in s && Sees(deps, node, t)
  }

  lemma SeenStep(deps: Deps, node: NodeId, todo: set<NodeId>, left: set<NodeId>, t: NodeId)
    requires IsMin(todo, t) && left == SeenAmong(deps, node, todo)
    ensures left - {t} == SeenAmong(deps, node, todo - {t})
    ensures Sees(deps, node, t) ==> IsMin(left, t)
    ensures !Sees(deps, node, t) ==> left - {t} == left
  {
    hide Sees;
  }

  lemma SeenNone(deps: Deps, node: NodeId, left: set<NodeId>)
    requires left == SeenAmong(deps, node, {})
    ensures left == {}
  {
  }

  lemma SortedNone()
    ensures Sorted({}) == []
  {
  }

  ghost predicate Picks(s: set<NodeId>, pick: Option<NodeId>) {
    match pick
    case None => s == {}
    case Some(x) => IsMin(s, x)
  }

  ghost function ConfirmedBelow(g: Graph, n: NodeId, candidates: set<NodeId>, removed: Clock): set<NodeId> {
    set t | t in candidates && t != n && Sees(g.deps, n, t) && ConfirmedAt(g, t, n, removed)
  }

  ghost function ConfirmedAmong(g: Graph, candidates: set<NodeId>, removed: Clock): set<NodeId> {
    set t | t in candidates && Confirmed(g, t, removed)
  }

  /** The smallest of `candidates` below `node` that is confirmed relative to it. */
  method FirstConfirmedAt(g: Graph, nextSeq: Clock, node: NodeId, candidates: set<NodeId>, removed: Clock)
    returns (pick: Option<NodeId>)
    requires Ok(g) && NextSeq(g.deps, nextSeq) && node in g.deps && candidates <= g.deps.Keys
    ensures Picks(ConfirmedBelow(g, node, candidates, removed), pick)
  {
    hide ValidDag, Sees, ConfirmedAt, NextSeq;
    var todo := candidates;
    while todo != {}
      invariant todo <= candidates
      invariant forall t :: t in candidates && t !in todo && t != node && Sees(g.deps, node, t) ==> !ConfirmedAt(g, t, node, removed)
      decreases todo
    {
      var t := Smallest(todo);
      var sees := SeesWalk(g.deps, node, t);
      if t != node && sees {
        var confirmed := IsConfirmed(g, nextSeq, t, Some(node), removed);
        if confirmed {
          return Some(t);
        }
      }
      todo := todo - {t};
    }
    return None;
  }

  /** The smallest of `candidates` that is confirmed. */
  method FirstConfirmed(g: Graph, nextSeq: Clock, candidates: set<NodeId>, removed: Clock) returns (pick: Option<NodeId>)
    requires Ok(g) && NextSeq(g.deps, nextSeq) && candidates <= g.deps.Keys
    ensures Picks(ConfirmedAmong(g, candidates, removed), pick)
  {
    hide ValidDag, Sees, Confirmed, NextSeq;
    var todo := candidates;
    while todo != {}
      invariant todo <= candidates
      invariant forall t :: t in candidates && t !in todo ==> !Confirmed(g, t, removed)
      decreases todo
    {
      var t := Smallest(todo);
      var confirmed := IsConfirmed(g, nextSeq, t, None, removed);
      if confirmed {
        return Some(t);
      }
      todo := todo - {t};
    }
    return None;
  }

  lemma TailsBelowAre(g: Graph, n: NodeId, removed: Clock)
    requires n !in Tails(g, removed)
    ensures TailsBelow(g, n, removed) == ConfirmedBelow(g, n, Tails(g, removed), removed)
    ensures MergesBelow(g, n, removed) == ConfirmedBelow(g, n, Merges(g, removed), removed)
    ensures Tails(g, removed) <= g.deps.Keys && Merges(g, removed) <= g.deps.Keys
  {
  }

  lemma PickIsMin(s: set<NodeId>, pick: Option<NodeId>)
    requires Picks(s, pick)
    ensures pick.None? <==> s == {}
    ensures pick.Some? ==> s != {} && pick.value == Min(s)
  {
  }

  lemma YieldUnfold(g: Graph, n: NodeId, removed: Clock)
    requires Ok(g) && n in g.deps
    ensures n in Tails(g, removed) ==> Yield(g, n, removed) == [n]
    ensures n !in Tails(g, removed) && TailsBelow(g, n, removed) != {} ==>
              var t := Min(TailsBelow(g, n, removed));
              t in g.deps && |Past(g.deps, t)| < |Past(g.deps, n)| && Yield(g, n, removed) == Yield(g, t, removed)
    ensures n !in Tails(g, removed) && TailsBelow(g, n, removed) == {} && MergesBelow(g, n, removed) != {} ==>
              var m := Min(MergesBelow(g, n, removed));
              m in g.deps && |Past(g.deps, m)| < |Past(g.deps, n)| && Yield(g, n, removed) == Yield(g, m, removed)
    ensures n !in Tails(g, removed) && TailsBelow(g, n, removed) == {} && MergesBelow(g, n, removed) == {} ==>
              Yield(g, n, removed) == Sorted(TailsSeen(g, n, removed))
  {
    if n !in Tails(g, removed) {
      if TailsBelow(g, n, removed) != {} {
        PastShrinks(g.deps, n, Min(TailsBelow(g, n, removed)));
      } else if MergesBelow(g, n, removed) != {} {
        PastShrinks(g.deps, n, Min(MergesBelow(g, n, removed)));
      }
    }
  }

  /** Resolve a confirmed merge: walk toward the frontier into whichever arm is confirmed
      relative to the node reached, and confirm what the walk ends on. */
  method YieldNext(g: Graph, nextSeq: Clock, start: NodeId, tails: set<NodeId>, removed: Clock)
    returns (batch: seq<NodeId>, removed': Clock)
    requires Ok(g) && NextSeq(g.deps, nextSeq) && start in g.deps && tails == Tails(g, removed)
    ensures batch == Yield(g, start, removed) && removed' == RaiseAll(removed, batch)
  {
    hide ValidDag, Sees, Yield, Tails, Merges, TailsBelow, MergesBelow, TailsSeen, Past, ConfirmedAt, NextSeq, Sorted, ConfirmedBelow;
    var node := start;
    while node !in tails
      invariant node in g.deps && Yield(g, node, removed) == Yield(g, start, removed)
      decreases |Past(g.deps, node)|
    {
      YieldUnfold(g, node, removed);
      TailsBelowAre(g, node, removed);
      var next := FirstConfirmedAt(g, nextSeq, node, tails, removed);
      PickIsMin(TailsBelow(g, node, removed), next);
      if next.None? {
        var merges := MergeNodes(g, removed);
        next := FirstConfirmedAt(g, nextSeq, node, merges, removed);
        PickIsMin(MergesBelow(g, node, removed), next);
      }
      if next.Some? {
        node := next.value;
        continue;
      }
      batch := TailsSeenBy(g, node, tails, removed);
      removed' := RaiseEach(removed, batch);
      return;
    }
    YieldUnfold(g, node, removed);
    batch := [node];
    removed' := Raise(removed, node.key, node.pos + 1);
    RaiseOne(removed, node);
  }

  lemma RaiseOne(c: Clock, n: NodeId)
    ensures RaiseAll(c, [n]) == Raise(c, n.key, n.pos + 1)
  {
    assert [n][1..] == [];
  }

  method RaiseEach(c: Clock, batch: seq<NodeId>) returns (c': Clock)
    ensures c' == RaiseAll(c, batch)
  {
    c' := c;
    for i := 0 to |batch|
      invariant RaiseAll(c', batch[i..]) == RaiseAll(c, batch)
    {
      assert batch[i..][0] == batch[i] && batch[i..][1..] == batch[i + 1..];
      c' := Raise(c', batch[i].key, batch[i].pos + 1);
    }
  }

  /** One shift: a confirmed tail, or what a confirmed merge resolves to, or nothing. */
  method ShiftOnce(g: Graph, nextSeq: Clock, removed: Clock) returns (batch: seq<NodeId>, removed': Clock)
    requires Ok(g) && NextSeq(g.deps, nextSeq)
    ensures batch == Shift(g, removed) && removed' == RaiseAll(removed, batch)
  {
    hide ValidDag, Sees, Tails, Merges, Confirmed, ConfirmedTails, ConfirmedMerges, NextSeq, Yield, ConfirmedAmong;
    var tails := IndexerTails(g, removed);
    ConfirmedAre(g, removed);
    var tail := FirstConfirmed(g, nextSeq, tails, removed);
    PickIsMin(ConfirmedTails(g, removed), tail);
    if tail.Some? {
      RaiseOne(removed, tail.value);
      return [tail.value], Raise(removed, tail.value.key, tail.value.pos + 1);
    }
    var merges := MergeNodes(g, removed);
    var merge := FirstConfirmed(g, nextSeq, merges, removed);
    PickIsMin(ConfirmedMerges(g, removed), merge);
    if merge.Some? {
      batch, removed' := YieldNext(g, nextSeq, merge.value, tails, removed);
      return;
    }
    return [], removed;
  }

  lemma ConfirmedAre(g: Graph, removed: Clock)
    ensures ConfirmedTails(g, removed) == ConfirmedAmong(g, Tails(g, removed), removed)
    ensures ConfirmedMerges(g, removed) == ConfirmedAmong(g, Merges(g, removed), removed)
    ensures Tails(g, removed) <= g.deps.Keys && Merges(g, removed) <= g.deps.Keys
    ensures ConfirmedMerges(g, removed) <= g.deps.Keys
  {
  }

  // ---------------------------------------------------------------- whole runs

  /** The confirmed indexer sequence: shift until nothing more confirms. */
  method ConfirmedPrefix(g: Graph, nextSeq: Clock, base: seq<NodeId>, baseClock: Clock) returns (out: seq<NodeId>)
    requires Ok(g) && NextSeq(g.deps, nextSeq)
    ensures out == Prefix(g, baseClock, base)
  {
    hide ValidDag, NextSeq, Shift, RaiseAll, Unconfirmed;
    var removed := baseClock;
    out := base;
    while true
      invariant Prefix(g, removed, out) == Prefix(g, baseClock, base)
      decreases |Unconfirmed(g, removed)|
    {
      var batch, removed' := ShiftOnce(g, nextSeq, removed);
      if batch == [] {
        return;
      }
      ShiftShrinks(g, removed);
      out, removed := out + batch, removed';
    }
  }

  /** What the stack walk of one batch keeps: everything newly covered is collected, or
      reachable from the stack without passing what was emitted. */
  ghost predicate Covering(deps: Deps, batch: seq<NodeId>, out: seq<NodeId>, news: set<NodeId>, stack: seq<NodeId>) {
    && news <= Fresh(deps, batch, out)
    && (forall n :: n in stack ==> n in deps && exists b :: b in batch && Sees(deps, b, n))
    && (forall n, d :: n in news && d in deps[n] ==> d in out || d in news || d in stack)
    && (forall b :: b in batch ==> b in out || b in news || b in stack)
  }

  lemma CoverSkip(deps: Deps, batch: seq<NodeId>, out: seq<NodeId>, news: set<NodeId>, stack: seq<NodeId>, n: NodeId)
    requires Covering(deps, batch, out, news, stack + [n]) && (n in out || n in news)
    ensures Covering(deps, batch, out, news, stack)
  {
    forall m | m in stack
      ensures m in stack + [n]
    {
    }
    forall m, d | m in news && d in deps[m]
      ensures d in out || d in news || d in stack
    {
      assert d in stack + [n] ==> d in stack || d == n;
    }
    forall b | b in batch
      ensures b in out || b in news || b in stack
    {
      assert b in stack + [n] ==> b in stack || b == n;
    }
  }

  lemma CoverTake(deps: Deps, batch: seq<NodeId>, out: seq<NodeId>, news: set<NodeId>, stack: seq<NodeId>, n: NodeId,
                  stack': seq<NodeId>)
    requires ValidDag(deps) && Covering(deps, batch, out, news, stack + [n]) && n !in out && n !in news && n in deps
    requires stack <= stack'
    requires forall d :: d in deps[n] ==> d in out || d in stack'
    requires forall m :: m in stack' && m !in stack ==> m in deps[n]
    ensures Covering(deps, batch, out, news + {n}, stack')
  {
    assert n in stack + [n];
    forall m | m in stack'
      ensures m in deps && exists b :: b in batch && Sees(deps, b, m)
    {
      if m in stack {
        assert m in stack + [n];
      } else {
        var b :| b in batch && Sees(deps, b, n);
        SeesDep(deps, n, m);
        SeesTrans(deps, b, n, m);
      }
    }
    forall m, d | m in news + {n} && d in deps[m]
      ensures d in out || d in news + {n} || d in stack'
    {
      if m != n {
        assert d in stack + [n] ==> d in stack || d == n;
      }
    }
    forall b | b in batch
      ensures b in out || b in news + {n} || b in stack'
    {
      assert b in stack + [n] ==> b in stack || b == n;
    }
  }

  lemma {:induction false} CoverReaches(deps: Deps, batch: seq<NodeId>, out: seq<NodeId>, news: set<NodeId>,
                                        a: NodeId, m: NodeId, n: nat)
    requires DownClosed(deps, out) && Covering(deps, batch, out, news, [])
    requires (a in out || a in news) && SeesIn(deps, a, m, n)
    ensures m in out || m in news
    decreases n
  {
    if a in out {
      EmittedClosed(deps, out, a, m);
    } else if a != m {
      var d :| d in deps[a] && SeesIn(deps, d, m, n - 1);
      CoverReaches(deps, batch, out, news, d, m, n - 1);
    }
  }

  lemma CoverEnds(deps: Deps, batch: seq<NodeId>, out: seq<NodeId>, news: set<NodeId>)
    requires DownClosed(deps, out) && Covering(deps, batch, out, news, [])
    ensures news == Fresh(deps, batch, out)
  {
    forall m | m in Fresh(deps, batch, out)
      ensures m in news
    {
      var b :| b in batch && Sees(deps, b, m);
      var n: nat :| SeesIn(deps, b, m, n);
      CoverReaches(deps, batch, out, news, b, m, n);
    }
  }

  /** Push the dependencies of `n` that were not emitted. */
  method PushUnmet(deps: Deps, n: NodeId, out: seq<NodeId>, emitted: set<NodeId>, stack: seq<NodeId>)
    returns (stack': seq<NodeId>)
    requires n in deps && emitted == Elements(out)
    ensures stack <= stack'
    ensures forall d :: d in deps[n] ==> d in out || d in stack'
    ensures forall m :: m in stack' && m !in stack ==> m in deps[n]
  {
    stack' := stack;
    var todo := deps[n];
    while todo != {}
      invariant todo <= deps[n] && stack <= stack'
      invariant forall d :: d in deps[n] && d !in todo ==> d in out || d in stack'
      invariant forall m :: m in stack' && m !in stack ==> m in deps[n]
      decreases todo
    {
      var d :| d in todo;
      todo := todo - {d};
      if d !in emitted {
        stack' := stack' + [d];
      }
    }
  }

  lemma FreshAre(deps: Deps, batch: seq<NodeId>, out: seq<NodeId>)
    requires forall b :: b in batch ==> b in deps
    ensures Covering(deps, batch, out, {}, batch)
  {
    forall b | b in batch
      ensures Sees(deps, b, b)
    {
      SeesSelf(deps, b);
    }
  }

  /** The newly covered nodes of a batch: its causal history not yet emitted. */
  method NewlyCovered(deps: Deps, batch: seq<NodeId>, out: seq<NodeId>, emitted: set<NodeId>) returns (news: set<NodeId>)
    requires ValidDag(deps) && emitted == Elements(out) && DownClosed(deps, out)
    requires forall b :: b in batch ==> b in deps
    ensures news == Fresh(deps, batch, out)
  {
    hide ValidDag, Covering, Fresh, DownClosed;
    news := {};
    var stack := batch;
    FreshAre(deps, batch, out);
    while stack != []
      invariant news <= deps.Keys && Covering(deps, batch, out, news, stack)
      decreases deps.Keys - news, |stack|
    {
      var n, below := stack[|stack| - 1], stack[..|stack| - 1];
      assert stack == below + [n];
      StackDelivered(deps, batch, out, news, below, n);
      if n in emitted || n in news {
        CoverSkip(deps, batch, out, news, below, n);
        stack := below;
        continue;
      }
      stack := PushUnmet(deps, n, out, emitted, below);
      CoverTake(deps, batch, out, news, below, n, stack);
      news := news + {n};
    }
    CoverEnds(deps, batch, out, news);
  }

  lemma StackDelivered(deps: Deps, batch: seq<NodeId>, out: seq<NodeId>, news: set<NodeId>, stack: seq<NodeId>, n: NodeId)
    requires Covering(deps, batch, out, news, stack + [n])
    ensures n in deps
  {
    assert n in stack + [n];
  }

  lemma ShiftDelivered(g: Graph, removed: Clock)
    requires Ok(g)
    ensures forall b :: b in Shift(g, removed) ==> b in g.deps
  {
    ShiftsTails(g, removed);
  }

  lemma ElementsAppend(out: seq<NodeId>, more: seq<NodeId>, news: set<NodeId>)
    requires forall n :: n in news <==> n in more
    ensures Elements(out + more) == Elements(out) + news
  {
  }

  lemma FrontierIsClosed(g: Graph, removed: Clock, out: seq<NodeId>)
    requires Frontier(g, removed, out)
    ensures DownClosed(g.deps, out)
  {
  }

  lemma FreshIsNew(deps: Deps, batch: seq<NodeId>, out: seq<NodeId>)
    ensures Fresh(deps, batch, out) !! Elements(out)
  {
  }

  /** The finalized view: each batch expanded to its newly covered history, in tiebreak
      order. */
  method ConfirmedView(g: Graph, dependents: Deps, nextSeq: Clock, base: seq<NodeId>, baseClock: Clock)
    returns (out: seq<NodeId>)
    requires Ok(g) && NextSeq(g.deps, nextSeq) && Inverse(g.deps, dependents)
    requires Frontier(g, baseClock, base)
    ensures out == View(g, baseClock, base)
  {
    hide ValidDag, NextSeq, Shift, RaiseAll, Unconfirmed, Frontier, Fresh, Inverse, Elements, Order;
    var removed := baseClock;
    out := base;
    var emitted := set n | n in base;
    assert emitted == Elements(out) by { ElementsAre(base); }
    while true
      invariant Frontier(g, removed, out) && emitted == Elements(out)
      invariant View(g, removed, out) == View(g, baseClock, base)
      decreases |Unconfirmed(g, removed)|
    {
      var batch, removed' := ShiftOnce(g, nextSeq, removed);
      if batch == [] {
        return;
      }
      ShiftShrinks(g, removed);
      ShiftsTails(g, removed);
      ShiftDelivered(g, removed);
      FrontierIsClosed(g, removed, out);
      var news := NewlyCovered(g.deps, batch, out, emitted);
      FreshIsNew(g.deps, batch, out);
      var more := TopoKeyOrder(g.deps, dependents, news, emitted);
      FrontierStep(g, removed, out, batch);
      OrderMembers(g.deps, news);
      ElementsAppend(out, more, news);
      emitted, out, removed := emitted + news, out + more, removed';
    }
  }

  lemma ElementsAre(s: seq<NodeId>)
    ensures Elements(s) == set n | n in s
  {
  }

  lemma OrderMembers(deps: Deps, news: set<NodeId>)
    requires ValidDag(deps) && news <= deps.Keys
    ensures forall n :: n in news <==> n in Order(deps, news)
  {
    OrderIsTopological(deps, news);
  }
}
