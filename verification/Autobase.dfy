/** The linearizer: a growing causal DAG under gap-free delivery, its deterministic order,
    and reconfiguration of the indexers over a pinned base. */
module Autobase {
  import opened Prelude
  import opened CausalDag
  import opened Kahn
  import opened Confirmation
  import opened FinalizedView
  import opened Finality
  import opened Walks
  import opened Machine
  import opened Driver

  datatype AddResult = Added | Duplicate | Gap(expected: nat) | MissingHead(head: NodeId)

  datatype Reconfigured =
    | Pinned
    | BaseShrinks
    | MissingNode(node: NodeId)
    | DuplicateNode(node: NodeId)
    | NotCausallyClosed(node: NodeId, missing: NodeId)
    | BeyondConfirmed(confirmed: nat, wanted: nat)

  // ---------------------------------------------------------------- delivery

  /** The dependencies a delivered node gets: its heads and its writer's previous node. */
  function DepsOf(node: NodeId, heads: seq<NodeId>): set<NodeId> {
    (set h | h in heads) + (if node.pos > 0 then {NodeId(node.key, node.pos - 1)} else {})
  }

  /** Why a node cannot be delivered yet, or that it can. */
  ghost predicate AddOutcome(deps: Deps, node: NodeId, heads: seq<NodeId>, r: AddResult) {
    match r
    case Duplicate => node in deps
    case Gap(expected) => node !in deps && expected == WriterLen(deps, node.key) && node.pos != expected
    case MissingHead(h) => node !in deps && node.pos == WriterLen(deps, node.key) && h in heads && h !in deps
    case Added => node !in deps && node.pos == WriterLen(deps, node.key) && forall h :: h in heads ==> h in deps
  }

  /** A node whose dependencies are all delivered can be delivered next. */
  lemma AddDelivers(deps: Deps, node: NodeId, added: set<NodeId>, log: seq<NodeId>)
    requires Delivery(deps, log) && node !in deps && forall d :: d in added ==> d in deps
    ensures Delivery(deps[node := added], log + [node])
  {
    var deps', log' := deps[node := added], log + [node];
    assert forall n :: n in log' <==> n in log || n == node;
    forall i, d | 0 <= i < |log'| && d in deps'[log'[i]]
      ensures d in log'[..i]
    {
      if i < |log| {
        assert log[i] in log;
        assert log'[..i] == log[..i];
        assert d in log[..i];
      } else {
        assert log'[..i] == log;
      }
    }
  }

  lemma AddCloses(deps: Deps, node: NodeId, added: set<NodeId>)
    requires Closed(deps) && Chained(deps) && node !in deps && forall d :: d in added ==> d in deps
    requires node.pos > 0 ==> NodeId(node.key, node.pos - 1) in added
    ensures Closed(deps[node := added]) && Chained(deps[node := added]) && Grows(deps, deps[node := added])
  {
  }

  lemma AddKeepsDag(deps: Deps, node: NodeId, heads: seq<NodeId>)
    requires ValidDag(deps) && AddOutcome(deps, node, heads, Added)
    ensures ValidDag(deps[node := DepsOf(node, heads)]) && Grows(deps, deps[node := DepsOf(node, heads)])
    ensures forall d :: d in DepsOf(node, heads) ==> d in deps
    ensures node !in DepsOf(node, heads)
  {
    hide Delivery, Closed, Chained, Grows, WriterLen;
    if node.pos > 0 {
      WriterRun(deps, node.key, node.pos - 1);
    }
    AddCloses(deps, node, DepsOf(node, heads));
    var log :| Delivery(deps, log);
    AddDelivers(deps, node, DepsOf(node, heads), log);
  }

  lemma AddKeepsLengths(deps: Deps, node: NodeId, added: set<NodeId>, nextSeq: Clock)
    requires ValidDag(deps) && NextSeq(deps, nextSeq) && node !in deps && node.pos == WriterLen(deps, node.key)
    ensures NextSeq(deps[node := added], nextSeq[node.key := node.pos + 1])
  {
    var deps' := deps[node := added];
    forall key
      ensures Get(nextSeq[node.key := node.pos + 1], key) == WriterLen(deps', key)
    {
      var before := set n | n in deps && n.key == key;
      var after := set n | n in deps' && n.key == key;
      assert Get(nextSeq, key) == WriterLen(deps, key);
      if key == node.key {
        assert after == before + {node};
      } else {
        assert after == before;
      }
    }
  }

  /** Reverse edges midway through an `add`: the dependencies in `todo` still lack it. */
  ghost predicate Linking(deps: Deps, dependents: Deps, node: NodeId, added: set<NodeId>, todo: set<NodeId>) {
    && dependents.Keys == deps.Keys
    && forall d, n :: (d in dependents && n in dependents[d])
                      <==> (n in deps && d in deps[n]) || (n == node && d in added && d !in todo)
  }

  lemma LinkStep(deps: Deps, dependents: Deps, node: NodeId, added: set<NodeId>, todo: set<NodeId>, d: NodeId)
    requires Linking(deps, dependents, node, added, todo) && d in todo && d in added && d in dependents
    ensures Linking(deps, dependents[d := dependents[d] + {node}], node, added, todo - {d})
  {
  }

  lemma LinkEnd(deps: Deps, dependents: Deps, node: NodeId, added: set<NodeId>)
    requires Linking(deps, dependents, node, added, {}) && node !in deps
    ensures Inverse(deps[node := added], dependents[node := {}])
  {
    var deps', dependents' := deps[node := added], dependents[node := {}];
    forall d, n
      ensures (d in dependents' && n in dependents'[d]) <==> (n in deps' && d in deps'[n])
    {
      if d == node {
        assert n in dependents'[d] <==> false;
      }
    }
  }

  // ---------------------------------------------------------------- the linearization

  /** A confirmed prefix followed by the tiebreak order of everything else. */
  ghost function Linearization(deps: Deps, confirmed: seq<NodeId>): seq<NodeId>
    requires ValidDag(deps)
  {
    confirmed + Order(deps, deps.Keys - Elements(confirmed))
  }

  /** Every delivered node, each once. */
  ghost predicate Lists(deps: Deps, out: seq<NodeId>) {
    Distinct(out) && forall n :: n in deps <==> n in out
  }

  lemma TopologicalIs(deps: Deps, out: seq<NodeId>)
    requires Lists(deps, out) && Closed(deps)
    ensures IsTopological(deps, deps.Keys, out) <==> DepsFirst(deps, out)
  {
    if IsTopological(deps, deps.Keys, out) {
      forall i, d | 0 <= i < |out| && out[i] in deps && d in deps[out[i]]
        ensures d in out[..i]
      {
        assert d in deps.Keys;
      }
    }
  }

  /** Over a closed confirmed prefix, the linearization lists every node once and starts with
      the prefix, no arrangement of the remaining nodes is smaller, and it is a causal order
      exactly when the prefix is one. */
  lemma LinearizationIsCausal(deps: Deps, confirmed: seq<NodeId>)
    requires ValidDag(deps) && Distinct(confirmed) && DownClosed(deps, confirmed)
    requires forall n :: n in confirmed ==> n in deps
    ensures Lists(deps, Linearization(deps, confirmed)) && confirmed <= Linearization(deps, confirmed)
    ensures IsTopological(deps, deps.Keys, Linearization(deps, confirmed)) <==> DepsFirst(deps, confirmed)
    ensures forall o :: IsTopological(deps, deps.Keys - Elements(confirmed), o) ==>
              LexLeq(Linearization(deps, confirmed)[|confirmed|..], o)
  {
    hide Distinct, DepsFirst, DownClosed, LexLeq;
    var rest := deps.Keys - Elements(confirmed);
    var tail := Order(deps, rest);
    OrderIsTopological(deps, rest);
    AppendOrder(deps, confirmed, rest, tail);
    var all := Linearization(deps, confirmed);
    forall n
      ensures n in deps <==> n in all
    {
      assert n in tail <==> n in rest;
    }
    FirstIff(deps, confirmed, all);
    TopologicalIs(deps, all);
    assert all[|confirmed|..] == tail;
    forall o | IsTopological(deps, rest, o)
      ensures LexLeq(tail, o)
    {
      OrderIsLeast(deps, rest, o);
    }
  }

  // ---------------------------------------------------------------- the pinned base

  /** `base` names delivered nodes once each and is causally closed; `baseClock` is its
      exact frontier. */
  ghost predicate BaseClosed(deps: Deps, base: seq<NodeId>, baseClock: Clock) {
    && Distinct(base) && baseClock == RaiseAll(map[], base)
    && (forall n :: n in base ==> n in deps)
    && DownClosed(deps, base)
    && (forall n :: n in deps ==> (n in base <==> n.pos < Get(baseClock, n.key)))
    && (forall key :: Get(baseClock, key) <= WriterLen(deps, key))
  }

  lemma BaseIsFrontier(g: Graph, base: seq<NodeId>, baseClock: Clock)
    requires BaseClosed(g.deps, base, baseClock)
    ensures Frontier(g, baseClock, base)
  {
  }

  lemma AddKeepsBase(deps: Deps, node: NodeId, added: set<NodeId>, base: seq<NodeId>, baseClock: Clock)
    requires ValidDag(deps) && BaseClosed(deps, base, baseClock)
    requires node !in deps && node.pos == WriterLen(deps, node.key)
    ensures BaseClosed(deps[node := added], base, baseClock)
    ensures DepsFirst(deps[node := added], base) <==> DepsFirst(deps, base)
  {
    var deps' := deps[node := added];
    forall key
      ensures WriterLen(deps, key) <= WriterLen(deps', key)
    {
      SubsetCard(set n | n in deps && n.key == key, set n | n in deps' && n.key == key);
    }
    assert forall i :: 0 <= i < |base| ==> base[i] in base;
  }

  lemma RecordedNone()
    ensures Recorded(map[], {})
  {
  }

  /** The clock raised over a causally closed set is its exact frontier. */
  lemma ClosedClock(deps: Deps, base: seq<NodeId>, members: set<NodeId>, clock: Clock)
    requires ValidDag(deps) && Distinct(base) && Recorded(clock, members) && clock == RaiseAll(map[], base)
    requires forall n :: n in members <==> n in base
    requires forall n :: n in base ==> n in deps
    requires forall n, d :: n in base && d in deps[n] ==> d in base
    ensures BaseClosed(deps, base, clock)
  {
    hide ValidDag, WriterLen;
    forall n | n in deps
      ensures n in base <==> n.pos < Get(clock, n.key)
    {
      if n.pos < Get(clock, n.key) {
        OwnInBase(deps, base, NodeId(n.key, Get(clock, n.key) - 1), n.pos);
        assert n == NodeId(n.key, n.pos);
      }
    }
    forall key
      ensures Get(clock, key) <= WriterLen(deps, key)
    {
      if Get(clock, key) > 0 {
        WriterRun(deps, key, Get(clock, key) - 1);
      }
    }
  }

  lemma {:induction false} OwnInBase(deps: Deps, base: seq<NodeId>, n: NodeId, q: nat)
    requires ValidDag(deps) && n in base && q <= n.pos
    requires forall n :: n in base ==> n in deps
    requires forall n, d :: n in base && d in deps[n] ==> d in base
    ensures NodeId(n.key, q) in base
    decreases n.pos
  {
    if q == n.pos {
      assert n == NodeId(n.key, q);
    } else {
      assert NodeId(n.key, n.pos - 1) in deps[n];
      OwnInBase(deps, base, NodeId(n.key, n.pos - 1), q);
    }
  }

  /** A prefix that reaches past a closed start is closed, and causal when that start is. */
  lemma PinnedFacts(deps: Deps, start: seq<NodeId>, view: seq<NodeId>, through: nat)
    requires Distinct(view) && (forall n :: n in view ==> n in deps) && |start| <= through <= |view|
    requires start <= view && DownClosed(deps, start) && DepsFirstFrom(deps, view, |start|)
    ensures var p := view[..through];
            && start <= p && Distinct(p) && DownClosed(deps, p) && (forall n :: n in p ==> n in deps)
            && (DepsFirst(deps, p) <==> DepsFirst(deps, start))
  {
    var p := view[..through];
    forall i, d | |start| <= i < |p| && p[i] in deps && d in deps[p[i]]
      ensures d in p[..i]
    {
      assert p[i] == view[i] && p[..i] == view[..i];
      assert d in view[..i];
    }
    FirstIff(deps, start, p);
    forall n, d | n in p && n in deps && d in deps[n]
      ensures d in p
    {
      var i :| 0 <= i < |p| && p[i] == n;
      if i < |start| {
        assert start[i] == n && start[i] in start;
        assert d in start;
      } else {
        assert d in p[..i];
      }
    }
  }

  /** Two nodes, and a base naming the later one first: it passes every check, and the order
      it gives is not causal. */
  lemma UnorderedBase(indexers: Option<set<nat>>)
    ensures var deps: Deps := map[NodeId(0, 0) := {}, NodeId(0, 1) := {NodeId(0, 0)}];
            var base := [NodeId(0, 1), NodeId(0, 0)];
            && ValidDag(deps) && BaseClosed(deps, base, map[0 := 2])
            && (forall r :: ReconfigureOutcome(deps, [], base, r) <==> r.Pinned?)
            && !IsTopological(deps, deps.Keys, Linearization(deps, FinalOf(deps, indexers, base, map[0 := 2])))
  {
    hide Linearization, FinalOf, IsTopological, Lists, FinalFacts, BaseClosed, ValidDag;
    var parent, child := NodeId(0, 0), NodeId(0, 1);
    var deps: Deps := map[parent := {}, child := {parent}];
    var base := [child, parent];
    TwoNodes(parent, child);
    UnorderedIsClosed(parent, child);
    assert base[0] == child && parent in deps[child] && parent !in base[..0];
    OrderIsCausal(deps, indexers, base, map[0 := 2]);
  }

  lemma TwoNodes(parent: NodeId, child: NodeId)
    requires parent == NodeId(0, 0) && child == NodeId(0, 1)
    ensures ValidDag(map[parent := {}, child := {parent}])
  {
    var log := [parent, child];
    assert log[0] == parent && log[1] == child && log[..1] == [parent];
    assert Delivery(map[parent := {}, child := {parent}], log);
  }

  lemma UnorderedIsClosed(parent: NodeId, child: NodeId)
    requires parent == NodeId(0, 0) && child == NodeId(0, 1)
    ensures BaseClosed(map[parent := {}, child := {parent}], [child, parent], map[0 := 2])
  {
    var deps: Deps, base, clock := map[parent := {}, child := {parent}], [child, parent], map[0 := 2];
    assert (set n | n in deps && n.key == 0) == {parent, child};
    assert base[1..] == [parent] && [parent][1..] == [];
    assert Raise(map[], 0, 2) == clock && Raise(clock, 0, 1) == clock;
    assert RaiseAll(clock, [parent]) == RaiseAll(clock, []);
  }

  /** What a proposed base must satisfy to be pinned, in the order it is checked. */
  ghost predicate ReconfigureOutcome(deps: Deps, base: seq<NodeId>, newBase: seq<NodeId>, r: Reconfigured) {
    match r
    case BaseShrinks => !(base <= newBase)
    case MissingNode(n) => base <= newBase && n in newBase && n !in deps
    case DuplicateNode(n) => base <= newBase && n in newBase && !Distinct(newBase)
    case NotCausallyClosed(n, d) => base <= newBase && Distinct(newBase) && n in newBase && n in deps && d in deps[n] && d !in newBase
    case Pinned => && base <= newBase && Distinct(newBase)
                   && (forall n :: n in newBase ==> n in deps) && DownClosed(deps, newBase)
    case BeyondConfirmed(_, _) => false
  }

  lemma NextIs(deps: Deps, nextSeq: Clock, key: nat)
    requires NextSeq(deps, nextSeq)
    ensures Get(nextSeq, key) == WriterLen(deps, key)
  {
  }

  lemma HeadIs(deps: Deps, dependents: Deps, n: NodeId)
    requires Inverse(deps, dependents) && n in deps
    ensures dependents[n] == {} <==> forall m :: m in deps ==> n !in deps[m]
  {
    if dependents[n] != {} {
      var m :| m in dependents[n];
      assert m in deps && n in deps[m];
    }
  }

  /** The finalized prefix: the base alone without indexers, else what they confirm on it. */
  ghost function FinalOf(deps: Deps, indexers: Option<set<nat>>, base: seq<NodeId>, baseClock: Clock): seq<NodeId>
    requires ValidDag(deps)
  {
    if indexers.None? then base else View(Graph(deps, indexers.value), baseClock, base)
  }

  /** On any base the checks let through, the finalized prefix extends it in causal order and
      the whole order lists every node once; it is causal exactly when the base is. */
  lemma OrderIsCausal(deps: Deps, indexers: Option<set<nat>>, base: seq<NodeId>, baseClock: Clock)
    requires ValidDag(deps) && BaseClosed(deps, base, baseClock)
    ensures var fin := FinalOf(deps, indexers, base, baseClock);
            var all := Linearization(deps, fin);
            && base <= fin <= all && FinalFacts(deps, base, fin) && Lists(deps, all)
            && (IsTopological(deps, deps.Keys, all) <==> DepsFirst(deps, base))
  {
    hide View, ValidDag, Lists;
    var fin := FinalOf(deps, indexers, base, baseClock);
    FinalIs(deps, indexers, base, baseClock);
    FirstIff(deps, base, fin);
    LinearizationIsCausal(deps, fin);
  }

  /** The finalized prefix lists delivered nodes once, with all they depend on, and in causal
      order past the base. */
  ghost predicate FinalFacts(deps: Deps, base: seq<NodeId>, fin: seq<NodeId>) {
    && base <= fin && Distinct(fin) && DownClosed(deps, fin) && DepsFirstFrom(deps, fin, |base|)
    && forall n :: n in fin ==> n in deps
  }

  lemma FinalIs(deps: Deps, indexers: Option<set<nat>>, base: seq<NodeId>, baseClock: Clock)
    requires ValidDag(deps) && BaseClosed(deps, base, baseClock)
    ensures FinalFacts(deps, base, FinalOf(deps, indexers, base, baseClock))
  {
    if indexers.Some? {
      var g := Graph(deps, indexers.value);
      BaseIsFrontier(g, base, baseClock);
      ViewIsFrontier(g, baseClock, base);
    }
  }

  class Linearizer {
    var deps: Deps
    var dependents: Deps
    var nextSeq: Clock
    var indexers: Option<set<nat>>
    var base: seq<NodeId>
    var baseClock: Clock

    /** What every `add` and every `reconfigure` keeps. */
    ghost predicate Valid()
      reads this
    {
      && ValidDag(deps) && Inverse(deps, dependents) && NextSeq(deps, nextSeq)
      && BaseClosed(deps, base, baseClock)
    }

    /** The base lists dependencies first. */
    ghost predicate Causal()
      reads this
    {
      DepsFirst(deps, base)
    }

    /** The finalized prefix, a function of the node set, the indexers and the base. */
    ghost function Final(): seq<NodeId>
      requires Valid()
      reads this
    {
      FinalOf(deps, indexers, base, baseClock)
    }

    constructor (indexers: Option<set<nat>>)
      ensures Valid() && Causal() && deps == map[] && base == [] && baseClock == map[] && this.indexers == indexers
    {
      deps, dependents, nextSeq, base, baseClock := map[], map[], map[], [], map[];
      this.indexers := indexers;
      new;
      assert Delivery(deps, []);
      forall key
        ensures WriterLen(deps, key) == 0
      {
        assert (set n | n in deps && n.key == key) == {};
      }
    }

    /** Deliver `node`, which references `heads`: refused if it is a duplicate, skips ahead
        of its writer's log, or references something not delivered. */
    method Add(node: NodeId, heads: seq<NodeId>) returns (r: AddResult)
      requires Valid()
      modifies this`deps, this`dependents, this`nextSeq
      ensures Valid() && AddOutcome(old(deps), node, heads, r)
      ensures r.Added? ==> deps == old(deps)[node := DepsOf(node, heads)] && Grows(old(deps), deps)
      ensures !r.Added? ==> deps == old(deps)
      ensures Causal() <==> old(Causal())
    {
      hide ValidDag, Inverse, NextSeq, BaseClosed, DepsFirst, DepsOf, Grows, WriterLen;
      if node in deps {
        return Duplicate;
      }
      NextIs(deps, nextSeq, node.key);
      var expected := Get(nextSeq, node.key);
      if node.pos != expected {
        return Gap(expected);
      }
      for i := 0 to |heads|
        invariant forall j :: 0 <= j < i ==> heads[j] in deps
      {
        if heads[i] !in deps {
          return MissingHead(heads[i]);
        }
      }
      AddKeepsDag(deps, node, heads);
      AddKeepsLengths(deps, node, DepsOf(node, heads), nextSeq);
      AddKeepsBase(deps, node, DepsOf(node, heads), base, baseClock);
      var added := DepsOf(node, heads) - {node};
      assert added == DepsOf(node, heads);
      LinkDependents(node, added);
      deps := deps[node := added];
      nextSeq := nextSeq[node.key := node.pos + 1];
      return Added;
    }

    /** Record the reverse edges of a node about to be delivered. */
    method LinkDependents(node: NodeId, added: set<NodeId>)
      requires Inverse(deps, dependents) && node !in deps && forall d :: d in added ==> d in deps
      modifies this`dependents
      ensures Inverse(deps[node := added], dependents)
    {
      var todo := added;
      while todo != {}
        invariant todo <= added && Linking(deps, dependents, node, added, todo)
        decreases todo
      {
        var d :| d in todo;
        LinkStep(deps, dependents, node, added, todo, d);
        dependents := dependents[d := dependents[d] + {node}];
        todo := todo - {d};
      }
      LinkEnd(deps, dependents, node, added);
      dependents := dependents[node := {}];
    }

    /** The nodes nothing depends on yet. */
    method Heads() returns (heads: set<NodeId>)
      requires Valid()
      ensures forall n :: n in heads <==> n in deps && forall m :: m in deps ==> n !in deps[m]
    {
      hide ValidDag, NextSeq, BaseClosed, DepsFirst;
      assert dependents.Keys == deps.Keys;
      hide Inverse;
      heads := set n | n in deps && dependents[n] == {};
      forall n | n in deps
        ensures dependents[n] == {} <==> forall m :: m in deps ==> n !in deps[m]
      {
        HeadIs(deps, dependents, n);
      }
    }

    method Finalized() returns (out: seq<NodeId>)
      requires Valid()
      ensures out == Final() && FinalFacts(deps, base, out)
      ensures DepsFirst(deps, out) <==> Causal()
    {
      hide ValidDag, Inverse, NextSeq, BaseClosed, View, Frontier, FinalFacts, DepsFirst;
      FinalIs(deps, indexers, base, baseClock);
      FinalIff(deps, base, Final());
      if indexers.None? {
        return base;
      }
      var g := Graph(deps, indexers.value);
      BaseIsFrontier(g, base, baseClock);
      out := ConfirmedView(g, dependents, nextSeq, base, baseClock);
    }

    /** The whole deterministic order: the finalized prefix, then everything else in
        tiebreak order. It is causal exactly when the base is. */
    method LinearOrder() returns (out: seq<NodeId>)
      requires Valid()
      ensures out == Linearization(deps, Final()) && Lists(deps, out) && Final() <= out
      ensures IsTopological(deps, deps.Keys, out) <==> Causal()
      ensures forall o :: IsTopological(deps, deps.Keys - Elements(Final()), o) ==> LexLeq(out[|Final()|..], o)
    {
      hide ValidDag, Inverse, NextSeq, View, Order, BaseClosed, DepsFirst, IsTopological, Distinct, FinalFacts, FinalOf, DownClosed, Lists;
      var confirmed := Finalized();
      FinalSpelled(deps, base, confirmed);
      LinearizationIsCausal(deps, confirmed);
      var emitted := set n | n in confirmed;
      ElementsAre(confirmed);
      if confirmed == [] {
        out := PlainOrder(deps, dependents);
        assert deps.Keys - emitted == deps.Keys;
        return;
      }
      var remaining := set n | n in deps && n !in emitted;
      assert remaining == deps.Keys - Elements(confirmed);
      var rest := TopoKeyOrder(deps, dependents, remaining, emitted);
      out := confirmed + rest;
    }

    /** Pin an explicit base and continue with `newIndexers` alone. The checks make the base
        causally closed; the order is causal exactly when the base also lists dependencies
        first. */
    method ReconfigureAt(newBase: seq<NodeId>, newIndexers: set<nat>) returns (r: Reconfigured)
      requires Valid()
      modifies this`base, this`baseClock, this`indexers
      ensures Valid() && ReconfigureOutcome(deps, old(base), newBase, r)
      ensures r.Pinned? ==> base == newBase && indexers == Some(newIndexers)
      ensures r.Pinned? ==>
                (IsTopological(deps, deps.Keys, Linearization(deps, Final())) <==> DepsFirst(deps, newBase))
      ensures !r.Pinned? ==> base == old(base) && baseClock == old(baseClock) && indexers == old(indexers)
    {
      hide ValidDag, Inverse, NextSeq, BaseClosed, DepsFirst, Distinct, DownClosed, Linearization, IsTopological, FinalOf, Lists, FinalFacts;
      if !(base <= newBase) {
        return BaseShrinks;
      }
      var checked := CheckMembers(newBase);
      if !checked.Pinned? {
        return checked;
      }
      var clock;
      checked, clock := CheckClosed(newBase);
      if !checked.Pinned? {
        return checked;
      }
      base, baseClock, indexers := newBase, clock, Some(newIndexers);
      OrderIsCausal(deps, indexers, base, baseClock);
      return Pinned;
    }

    /** Every base node is delivered and named once. */
    method CheckMembers(newBase: seq<NodeId>) returns (r: Reconfigured)
      requires base <= newBase
      ensures ReconfigureOutcome(deps, base, newBase, r) || r.Pinned?
      ensures r.Pinned? <==> Distinct(newBase) && forall n :: n in newBase ==> n in deps
      ensures !r.NotCausallyClosed?
    {
      var members: set<NodeId> := {};
      for i := 0 to |newBase|
        invariant members == set n | n in newBase[..i]
        invariant Distinct(newBase[..i]) && forall n :: n in newBase[..i] ==> n in deps
      {
        var node := newBase[i];
        assert newBase[..i + 1] == newBase[..i] + [node];
        if node !in deps {
          return MissingNode(node);
        }
        if node in members {
          var j :| 0 <= j < i && newBase[..i][j] == node;
          assert newBase[j] == newBase[i];
          return DuplicateNode(node);
        }
        members := members + {node};
      }
      assert newBase[..|newBase|] == newBase;
      return Pinned;
    }

    /** Every dependency of a base node is in the base; the clock is its frontier. */
    method CheckClosed(newBase: seq<NodeId>) returns (r: Reconfigured, clock: Clock)
      requires Valid() && base <= newBase && Distinct(newBase) && forall n :: n in newBase ==> n in deps
      ensures ReconfigureOutcome(deps, base, newBase, r)
      ensures r.Pinned? ==> BaseClosed(deps, newBase, clock)
    {
      hide ValidDag, Inverse, NextSeq, BaseClosed, DepsFirst, Recorded, Raise;
      clock := map[];
      ghost var done: set<NodeId> := {};
      RecordedNone();
      for i := 0 to |newBase|
        invariant Recorded(clock, done) && forall n :: n in done <==> n in newBase[..i]
        invariant RaiseAll(clock, newBase[i..]) == RaiseAll(map[], newBase)
        invariant forall j, d :: 0 <= j < i && d in deps[newBase[j]] ==> d in newBase
      {
        var node := newBase[i];
        var todo := deps[node];
        while todo != {}
          invariant todo <= deps[node] && forall d :: d in deps[node] && d !in todo ==> d in newBase
          decreases todo
        {
          var dep :| dep in todo;
          todo := todo - {dep};
          if dep !in newBase {
            return NotCausallyClosed(node, dep), clock;
          }
        }
        RecordStep(clock, done, node);
        assert newBase[i..][0] == node && newBase[i..][1..] == newBase[i + 1..];
        clock := Raise(clock, node.key, node.pos + 1);
        done := done + {node};
        assert newBase[..i + 1] == newBase[..i] + [node];
      }
      assert newBase[..|newBase|] == newBase;
      ClosedClock(deps, newBase, done, clock);
      return Pinned, clock;
    }

    /** Pin the first `through` nodes of the finalized prefix and hand confirmation over to
        `newIndexers`. */
    method Reconfigure(through: nat, newIndexers: set<nat>) returns (r: Reconfigured)
      requires Valid()
      modifies this`base, this`baseClock, this`indexers
      ensures Valid()
      ensures r == if through > |old(Final())| then BeyondConfirmed(|old(Final())|, through)
                   else if through < |old(base)| then BaseShrinks
                   else Pinned
      ensures r.Pinned? ==> base == old(Final())[..through] && indexers == Some(newIndexers)
      ensures Causal() <==> old(Causal())
      ensures !r.Pinned? ==> base == old(base) && baseClock == old(baseClock) && indexers == old(indexers)
    {
      hide ValidDag, Inverse, NextSeq, BaseClosed, DepsFirst, Distinct, FinalOf, DownClosed, FinalFacts, Linearization;
      var confirmed := Finalized();
      if through > |confirmed| {
        return BeyondConfirmed(|confirmed|, through);
      }
      PinnedOutcome(deps, base, baseClock, confirmed, through);
      var pinned := confirmed[..through];
      r := ReconfigureAt(pinned, newIndexers);
    }
  }

  lemma FinalIff(deps: Deps, base: seq<NodeId>, fin: seq<NodeId>)
    requires FinalFacts(deps, base, fin)
    ensures DepsFirst(deps, fin) <==> DepsFirst(deps, base)
  {
    FirstIff(deps, base, fin);
  }

  lemma FinalSpelled(deps: Deps, base: seq<NodeId>, fin: seq<NodeId>)
    requires FinalFacts(deps, base, fin)
    ensures base <= fin && Distinct(fin) && DownClosed(deps, fin) && forall n :: n in fin ==> n in deps
  {
  }

  /** A prefix of the finalized order is refused only for being shorter than the base. */
  lemma PinnedOutcome(deps: Deps, base: seq<NodeId>, baseClock: Clock, fin: seq<NodeId>, through: nat)
    requires BaseClosed(deps, base, baseClock) && FinalFacts(deps, base, fin) && through <= |fin|
    ensures var p := fin[..through];
            if through < |base| then forall r :: ReconfigureOutcome(deps, base, p, r) <==> r.BaseShrinks?
            else && (forall r :: ReconfigureOutcome(deps, base, p, r) <==> r.Pinned?)
                 && (DepsFirst(deps, p) <==> DepsFirst(deps, base))
  {
    if through >= |base| {
      PinnedFacts(deps, base, fin, through);
      hide DepsFirst, BaseClosed;
    }
  }
}
