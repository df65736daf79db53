/** The room: writers' feeds delivered into the linearizer as their causal past arrives, and
    a finalized and a live fold kept in step with its order. */
module Room {
  import opened Prelude
  import opened CausalDag
  import opened Kahn
  import opened Confirmation
  import opened FinalizedView
  import opened Finality
  import opened Permanence
  import opened Machine
  import opened Autobase

  /** A decoded log entry: the heads it saw and the opaque operation. */
  datatype Entry = Entry(heads: seq<NodeId>, payload: seq<int>)

  type Received = map<NodeId, Entry>

  // ---------------------------------------------------------------- causal delivery

  /** `n` and all it builds on, `k` levels down, have been received. */
  ghost predicate DeliverableIn(received: Received, n: NodeId, k: nat)
    decreases k
  {
    n in received && forall d :: d in DepsOf(n, received[n].heads) ==> k > 0 && DeliverableIn(received, d, k - 1)
  }

  /** The whole causal past of `n` has been received. */
  ghost predicate Deliverable(received: Received, n: NodeId) {
    exists k: nat :: DeliverableIn(received, n, k)
  }

  /** The DAG holds received nodes with the dependencies their entries name. */
  ghost predicate Consistent(received: Received, deps: Deps) {
    forall n :: n in deps ==> n in received && deps[n] == DepsOf(n, received[n].heads)
  }

  lemma {:induction false} DeliverableMore(received: Received, n: NodeId, k: nat, j: nat)
    requires DeliverableIn(received, n, k) && k <= j
    ensures DeliverableIn(received, n, j)
    decreases k
  {
    forall d | d in DepsOf(n, received[n].heads)
      ensures DeliverableIn(received, d, j - 1)
    {
      DeliverableMore(received, d, k - 1, j - 1);
    }
  }

  lemma {:induction false} DeliveredAt(received: Received, deps: Deps, log: seq<NodeId>, i: nat)
    requires Delivery(deps, log) && Consistent(received, deps) && i < |log|
    ensures DeliverableIn(received, log[i], i)
  {
    assert log[i] in log;
    forall d | d in DepsOf(log[i], received[log[i]].heads)
      ensures i > 0 && DeliverableIn(received, d, i - 1)
    {
      var j :| 0 <= j < i && log[j] == d;
      DeliveredAt(received, deps, log, j);
      DeliverableMore(received, d, j, i - 1);
    }
  }

  /** `n` could be added to the DAG now. */
  ghost predicate Addable(deps: Deps, n: NodeId, heads: seq<NodeId>) {
    AddOutcome(deps, n, heads, Added)
  }

  lemma ReadyIsAddable(deps: Deps, n: NodeId, heads: seq<NodeId>)
    requires ValidDag(deps) && n !in deps && forall d :: d in DepsOf(n, heads) ==> d in deps
    ensures Addable(deps, n, heads)
  {
    hide ValidDag, WriterLen;
    WriterRun(deps, n.key, n.pos);
    if n.pos > 0 {
      assert NodeId(n.key, n.pos - 1) in DepsOf(n, heads);
      WriterRun(deps, n.key, n.pos - 1);
    }
    forall h | h in heads
      ensures h in deps
    {
      assert h in DepsOf(n, heads);
    }
  }

  /** Nothing received and undelivered could be delivered. */
  ghost predicate Stuck(received: Received, deps: Deps) {
    forall n :: n in received && n !in deps ==> !Addable(deps, n, received[n].heads)
  }

  lemma {:induction false} StuckReaches(received: Received, deps: Deps, n: NodeId, k: nat)
    requires ValidDag(deps) && Stuck(received, deps) && DeliverableIn(received, n, k)
    ensures n in deps
    decreases k
  {
    forall d | d in DepsOf(n, received[n].heads)
      ensures d in deps
    {
      StuckReaches(received, deps, d, k - 1);
    }
    if n !in deps {
      ReadyIsAddable(deps, n, received[n].heads);
    }
  }

  /** A drained DAG is exactly the received nodes whose causal past has been received. */
  lemma DrainedIsExact(received: Received, deps: Deps)
    requires ValidDag(deps) && Consistent(received, deps) && Stuck(received, deps)
    ensures forall n :: n in deps <==> Deliverable(received, n)
  {
    forall n
      ensures n in deps <==> Deliverable(received, n)
    {
      if n in deps {
        var log :| Delivery(deps, log);
        var i :| 0 <= i < |log| && log[i] == n;
        DeliveredAt(received, deps, log, i);
      }
      if Deliverable(received, n) {
        var k: nat :| DeliverableIn(received, n, k);
        StuckReaches(received, deps, n, k);
      }
    }
  }

  lemma {:induction false} DeliverableDepth(received: Received, s: set<NodeId>) returns (k: nat)
    requires forall d :: d in s ==> Deliverable(received, d)
    ensures forall d :: d in s ==> DeliverableIn(received, d, k)
    decreases s
  {
    if s == {} {
      k := 0;
    } else {
      var x :| x in s;
      var i: nat :| DeliverableIn(received, x, i);
      var j := DeliverableDepth(received, s - {x});
      k := if i < j then j else i;
      forall d | d in s
        ensures DeliverableIn(received, d, k)
      {
        DeliverableMore(received, d, if d == x then i else j, k);
      }
    }
  }

  /** An entry can be delivered exactly when it was received, and its writer's previous one and
      every head it names can be. */
  lemma DeliverableIs(received: Received, n: NodeId)
    ensures Deliverable(received, n) <==>
            && n in received && (n.pos > 0 ==> Deliverable(received, NodeId(n.key, n.pos - 1)))
            && forall h :: h in received[n].heads ==> Deliverable(received, h)
  {
    if n in received {
      var deps := DepsOf(n, received[n].heads);
      if Deliverable(received, n) {
        var k: nat :| DeliverableIn(received, n, k);
        forall d | d in deps
          ensures Deliverable(received, d)
        {
          assert DeliverableIn(received, d, k - 1);
        }
      }
      if forall d :: d in deps ==> Deliverable(received, d) {
        var k := DeliverableDepth(received, deps);
        assert DeliverableIn(received, n, k + 1);
      }
    }
  }

  /** Convergence: the same received blocks give the same DAG, however they arrived. */
  lemma Converges(received: Received, deps: Deps, deps': Deps)
    requires ValidDag(deps) && Consistent(received, deps) && Stuck(received, deps)
    requires ValidDag(deps') && Consistent(received, deps') && Stuck(received, deps')
    ensures deps == deps'
  {
    DrainedIsExact(received, deps);
    DrainedIsExact(received, deps');
    assert deps.Keys == deps'.Keys;
  }

  // ---------------------------------------------------------------- folds

  /** One step of a projection: a checkpoint (empty payload) or a refused operation takes
      no effect. */
  function Step<S>(apply: (S, NodeId, seq<int>) -> Option<S>, s: S, n: NodeId, payload: seq<int>): S {
    if payload == [] then s
    else match apply(s, n, payload)
      case Some(s') => s'
      case None => s
  }

  function PayloadOf(payloads: map<NodeId, seq<int>>, n: NodeId): seq<int> {
    if n in payloads then payloads[n] else []
  }

  /** The state after folding `nodes` in order. */
  ghost function Fold<S>(apply: (S, NodeId, seq<int>) -> Option<S>, s: S, nodes: seq<NodeId>, payloads: map<NodeId, seq<int>>): S
  {
    if nodes == [] then s
    else
      var last := |nodes| - 1;
      Step(apply, Fold(apply, s, nodes[..last], payloads), nodes[last], PayloadOf(payloads, nodes[last]))
  }

  lemma {:induction false} FoldAgrees<S>(apply: (S, NodeId, seq<int>) -> Option<S>, s: S, nodes: seq<NodeId>,
                                         p: map<NodeId, seq<int>>, p': map<NodeId, seq<int>>)
    requires forall n :: n in nodes ==> PayloadOf(p, n) == PayloadOf(p', n)
    ensures Fold(apply, s, nodes, p) == Fold(apply, s, nodes, p')
  {
    if nodes != [] {
      var front := nodes[..|nodes| - 1];
      assert nodes == front + [nodes[|nodes| - 1]];
      FoldAgrees(apply, s, front, p, p');
    }
  }

  lemma FoldStep<S>(apply: (S, NodeId, seq<int>) -> Option<S>, s: S, nodes: seq<NodeId>, i: nat, payloads: map<NodeId, seq<int>>)
    requires i < |nodes|
    ensures Fold(apply, s, nodes[..i + 1], payloads)
         == Step(apply, Fold(apply, s, nodes[..i], payloads), nodes[i], PayloadOf(payloads, nodes[i]))
  {
    assert nodes[..i + 1][..i] == nodes[..i];
  }

  /** The operations `nodes` carry, in order; a node without one is a checkpoint. */
  ghost function Operations(nodes: seq<NodeId>, payloads: map<NodeId, seq<int>>): seq<(NodeId, seq<int>)> {
    if nodes == [] then []
    else
      var n, rest := nodes[0], Operations(nodes[1..], payloads);
      if n in payloads && payloads[n] != [] then [(n, payloads[n])] + rest else rest
  }

  /** Exactly the nodes with a non-empty payload, each with that payload. */
  lemma {:induction false} OperationsAre(nodes: seq<NodeId>, payloads: map<NodeId, seq<int>>, n: NodeId, payload: seq<int>)
    ensures (n, payload) in Operations(nodes, payloads) <==>
            n in nodes && n in payloads && payloads[n] == payload && payload != []
  {
    if nodes != [] {
      OperationsAre(nodes[1..], payloads, n, payload);
      assert n in nodes <==> n == nodes[0] || n in nodes[1..];
    }
  }

  /** Their order is that of the nodes. */
  lemma {:induction false} OperationsJoin(a: seq<NodeId>, b: seq<NodeId>, payloads: map<NodeId, seq<int>>)
    ensures Operations(a + b, payloads) == Operations(a, payloads) + Operations(b, payloads)
  {
    if a == [] {
      assert a + b == b;
    } else {
      OperationsJoin(a[1..], b, payloads);
      assert (a + b)[1..] == a[1..] + b;
    }
  }

  /** Run `apply` over a list of operations; one it refuses changes nothing. */
  ghost function Run<S>(apply: (S, NodeId, seq<int>) -> Option<S>, s: S, ops: seq<(NodeId, seq<int>)>): S {
    if ops == [] then s
    else
      var r := apply(s, ops[0].0, ops[0].1);
      Run(apply, if r.Some? then r.value else s, ops[1..])
  }

  lemma {:induction false} RunJoin<S>(apply: (S, NodeId, seq<int>) -> Option<S>, s: S,
                                      a: seq<(NodeId, seq<int>)>, b: seq<(NodeId, seq<int>)>)
    ensures Run(apply, s, a + b) == Run(apply, Run(apply, s, a), b)
  {
    if a == [] {
      assert a + b == b;
    } else {
      var r := apply(s, a[0].0, a[0].1);
      RunJoin(apply, if r.Some? then r.value else s, a[1..], b);
      assert (a + b)[1..] == a[1..] + b;
    }
  }

  lemma RunStep<S>(apply: (S, NodeId, seq<int>) -> Option<S>, s: S, nodes: seq<NodeId>, from: nat, i: nat, payloads: map<NodeId, seq<int>>)
    requires from <= i < |nodes|
    ensures var before := Run(apply, s, Operations(nodes[from..i], payloads));
            var payload := PayloadOf(payloads, nodes[i]);
            Run(apply, s, Operations(nodes[from..i + 1], payloads)) ==
            if payload != [] && apply(before, nodes[i], payload).Some? then apply(before, nodes[i], payload).value else before
  {
    assert nodes[from..i + 1] == nodes[from..i] + [nodes[i]];
    OperationsJoin(nodes[from..i], [nodes[i]], payloads);
    RunJoin(apply, s, Operations(nodes[from..i], payloads), Operations([nodes[i]], payloads));
  }

  /** A fold applies every operation its nodes carry, in order, and nothing else. */
  lemma {:induction false} FoldIsRun<S>(apply: (S, NodeId, seq<int>) -> Option<S>, s: S, nodes: seq<NodeId>,
                                        payloads: map<NodeId, seq<int>>)
    ensures Fold(apply, s, nodes, payloads) == Run(apply, s, Operations(nodes, payloads))
    decreases |nodes|
  {
    if nodes != [] {
      var m := |nodes| - 1;
      var front, last := nodes[..m], nodes[m];
      assert nodes == front + [last];
      FoldIsRun(apply, s, front, payloads);
      OperationsJoin(front, [last], payloads);
      RunJoin(apply, s, Operations(front, payloads), Operations([last], payloads));
    }
  }

  /** A refold by length: what is finalized past `wasLen` is applied on top of `was`, and the rest
      of the order on top of that. */
  ghost predicate Refolded<S>(apply: (S, NodeId, seq<int>) -> Option<S>, was: S, wasLen: nat, fin: seq<NodeId>, order: seq<NodeId>,
                                    payloads: map<NodeId, seq<int>>, finalized: S, finalizedLen: nat, live: S) {
    && finalizedLen == (if |fin| > wasLen then |fin| else wasLen) && finalizedLen <= |order|
    && finalized == Run(apply, was, Operations(if |fin| > wasLen then fin[wasLen..] else [], payloads))
    && live == Run(apply, finalized, Operations(order[finalizedLen..], payloads))
  }

  /** The projection that records what it is given. */
  function Recorder(seen: seq<(NodeId, seq<int>)>, n: NodeId, payload: seq<int>): Option<seq<(NodeId, seq<int>)>> {
    Some(seen + [(n, payload)])
  }

  lemma {:induction false} RunRecords(seen: seq<(NodeId, seq<int>)>, ops: seq<(NodeId, seq<int>)>)
    ensures Run(Recorder, seen, ops) == seen + ops
    decreases |ops|
  {
    if ops != [] {
      RunRecords(seen + [ops[0]], ops[1..]);
      assert ops == [ops[0]] + ops[1..];
    }
  }

  /** Folding the recorder gives back the operations themselves. */
  lemma FoldRecords(nodes: seq<NodeId>, payloads: map<NodeId, seq<int>>)
    ensures Fold(Recorder, [], nodes, payloads) == Operations(nodes, payloads)
  {
    FoldIsRun(Recorder, [], nodes, payloads);
    RunRecords([], Operations(nodes, payloads));
  }

  // ---------------------------------------------------------------- the room

  /** Growth extends the finalized prefix as long as confirmation has resolved no fork. */
  lemma FinalExtends(deps: Deps, deps': Deps, indexers: Option<set<nat>>, base: seq<NodeId>, baseClock: Clock)
    requires ValidDag(deps) && ValidDag(deps') && Grows(deps, deps')
    requires BaseClosed(deps, base, baseClock)
    requires BaseClosed(deps', base, baseClock)
    requires indexers.Some? ==> ForkFree(Graph(deps, indexers.value), baseClock)
    ensures FinalOf(deps, indexers, base, baseClock) <= FinalOf(deps', indexers, base, baseClock)
  {
    if indexers.Some? {
      var g, g' := Graph(deps, indexers.value), Graph(deps', indexers.value);
      BaseIsFrontier(g, base, baseClock);
      BaseIsFrontier(g', base, baseClock);
      ForkFreeIsFinal(g, g', baseClock, base);
    }
  }

  /** Every node of `a` is in `b`, in whatever order. */
  ghost predicate Keeps(a: seq<NodeId>, b: seq<NodeId>) {
    forall n :: n in a ==> n in b
  }

  /** Whatever the indexers and however the DAG forked, growth loses nothing finalized. */
  lemma FinalKept(deps: Deps, deps': Deps, indexers: Option<set<nat>>, base: seq<NodeId>, baseClock: Clock)
    requires ValidDag(deps) && ValidDag(deps') && Grows(deps, deps')
    requires BaseClosed(deps, base, baseClock) && BaseClosed(deps', base, baseClock)
    ensures Keeps(FinalOf(deps, indexers, base, baseClock), FinalOf(deps', indexers, base, baseClock))
  {
    if indexers.Some? {
      var g, g' := Graph(deps, indexers.value), Graph(deps', indexers.value);
      BaseIsFrontier(g, base, baseClock);
      BaseIsFrontier(g', base, baseClock);
      hide ValidDag, Grows, Frontier, View, BaseClosed, Keeps;
      ViewKept(g, g', baseClock, base);
    } else {
      KeepsSelf(base);
    }
  }

  lemma ViewKept(g: Graph, g': Graph, removed: Clock, base: seq<NodeId>)
    requires Extends(g, g') && Frontier(g, removed, base) && Frontier(g', removed, base)
    ensures Keeps(View(g, removed, base), View(g', removed, base))
  {
    hide Frontier, View, Grows;
    forall n | n in View(g, removed, base)
      ensures n in View(g', removed, base)
    {
      FinalizedIsPermanent(g, g', removed, base, n);
    }
  }

  lemma KeepsSelf(a: seq<NodeId>)
    ensures Keeps(a, a)
  {
  }

  /** The finalized fold survives growth of the DAG. */
  lemma FoldSurvives<S>(apply: (S, NodeId, seq<int>) -> Option<S>, genesis: S, deps: Deps, deps': Deps,
                        indexers: Option<set<nat>>, base: seq<NodeId>, baseClock: Clock,
                        payloads: map<NodeId, seq<int>>, payloads': map<NodeId, seq<int>>)
    requires ValidDag(deps) && ValidDag(deps') && Grows(deps, deps')
    requires BaseClosed(deps, base, baseClock)
    requires BaseClosed(deps', base, baseClock)
    requires indexers.Some? ==> ForkFree(Graph(deps, indexers.value), baseClock)
    requires forall n :: n in deps ==> PayloadOf(payloads', n) == PayloadOf(payloads, n)
    ensures var before, after := FinalOf(deps, indexers, base, baseClock), FinalOf(deps', indexers, base, baseClock);
            before <= after && Fold(apply, genesis, before, payloads) == Fold(apply, genesis, after[..|before|], payloads')
  {
    hide ValidDag, BaseClosed, DepsFirst, ForkFree, Grows, FinalOf, Fold;
    var before, after := FinalOf(deps, indexers, base, baseClock), FinalOf(deps', indexers, base, baseClock);
    FinalExtends(deps, deps', indexers, base, baseClock);
    FinalDelivered(deps, indexers, base, baseClock);
    assert after[..|before|] == before;
    FoldAgrees(apply, genesis, before, payloads, payloads');
  }

  lemma PayloadsTrans(deps: Deps, middle: Deps, a: map<NodeId, seq<int>>, b: map<NodeId, seq<int>>, c: map<NodeId, seq<int>>)
    requires Grows(deps, middle)
    requires forall n :: n in deps ==> PayloadOf(b, n) == PayloadOf(a, n)
    requires forall n :: n in middle ==> PayloadOf(c, n) == PayloadOf(b, n)
    ensures forall n :: n in deps ==> PayloadOf(c, n) == PayloadOf(a, n)
  {
  }

  lemma UnrecordedIsUndelivered(received: Received, deps: Deps, node: NodeId)
    requires Consistent(received, deps)
    ensures node !in received ==> node !in deps
  {
  }

  /** A local entry references the whole frontier, so it sees everything delivered. */
  lemma LocalSeesAll(deps: Deps, deps': Deps, received: Received, node: NodeId, heads: seq<NodeId>, frontier: set<NodeId>)
    requires ValidDag(deps) && Grows(deps, deps') && node in deps' && Consistent(received, deps')
    requires received[node].heads == heads && forall n :: n in heads <==> n in frontier
    requires forall n :: n in frontier <==> n in deps && forall m :: m in deps ==> n !in deps[m]
    ensures forall n :: n in deps ==> Sees(deps', node, n)
  {
    assert frontier <= deps'[node];
    HeadsSeeAll(deps, deps', node, frontier);
  }

  lemma GrowsTrans(a: Deps, b: Deps, c: Deps)
    requires Grows(a, b) && Grows(b, c)
    ensures Grows(a, c)
  {
  }

  /** `received` is what the accepted logs hold, by identity. */
  ghost predicate Logged(feeds: map<nat, seq<Entry>>, received: Received) {
    && (forall n :: n in received <==> n.key in feeds && n.pos < |feeds[n.key]|)
    && (forall n :: n in received ==> received[n] == feeds[n.key][n.pos])
  }

  /** The DAG holds received entries, their payloads are at hand, and every other received
      entry is in the buffer or in `todo`. */
  ghost predicate Buffered(received: Received, deps: Deps, payloads: map<NodeId, seq<int>>,
                           pending: seq<(NodeId, Entry)>, todo: seq<(NodeId, Entry)>) {
    && Consistent(received, deps)
    && (forall n :: n in deps ==> n in payloads && payloads[n] == received[n].payload)
    && (forall n :: n in received && n !in deps ==> (n, received[n]) in pending || (n, received[n]) in todo)
    && (forall p :: p in pending || p in todo ==> p.0 in received && p.1 == received[p.0])
  }

  lemma BufferSplit(received: Received, deps: Deps, payloads: map<NodeId, seq<int>>, pending: seq<(NodeId, Entry)>,
                    p: (NodeId, Entry), rest: seq<(NodeId, Entry)>)
    requires Buffered(received, deps, payloads, pending, [p] + rest)
    ensures p.0 in received && p.1 == received[p.0]
    ensures p.0 in deps ==> Buffered(received, deps, payloads, pending, rest)
    ensures Buffered(received, deps, payloads, pending + [p], rest)
    ensures p.0 !in deps ==>
              Buffered(received, deps[p.0 := DepsOf(p.0, p.1.heads)], payloads[p.0 := p.1.payload], pending, rest)
  {
    assert p in [p] + rest;
    assert forall q :: q in [p] + rest <==> q == p || q in rest;
    assert forall q :: q in pending + [p] <==> q == p || q in pending;
  }

  lemma BufferTaken(received: Received, deps: Deps, payloads: map<NodeId, seq<int>>, pending: seq<(NodeId, Entry)>)
    requires Buffered(received, deps, payloads, pending, [])
    ensures Buffered(received, deps, payloads, [], pending)
  {
  }

  lemma BufferRecorded(received: Received, deps: Deps, payloads: map<NodeId, seq<int>>, pending: seq<(NodeId, Entry)>,
                       node: NodeId, entry: Entry)
    requires Buffered(received, deps, payloads, pending, []) && node !in received
    ensures Buffered(received[node := entry], deps, payloads, pending, [(node, entry)])
  {
    assert (node, entry) in [(node, entry)];
  }

  lemma BufferStuck(received: Received, deps: Deps, payloads: map<NodeId, seq<int>>, pending: seq<(NodeId, Entry)>)
    requires Buffered(received, deps, payloads, pending, [])
    requires forall p :: p in pending ==> !Addable(deps, p.0, p.1.heads)
    ensures Stuck(received, deps)
  {
    forall n | n in received && n !in deps
      ensures !Addable(deps, n, received[n].heads)
    {
      assert (n, received[n]) in pending;
    }
  }

  lemma LogStep(feeds: map<nat, seq<Entry>>, received: Received, key: nat, entry: Entry)
    requires Logged(feeds, received)
    ensures var feed := OwnFeed(feeds, key);
            var node := NodeId(key, |feed|);
            node !in received && Logged(feeds[key := feed + [entry]], received[node := entry])
  {
  }

  lemma GrowsSelf(deps: Deps)
    ensures Grows(deps, deps)
  {
  }

  lemma NothingRun<S>(apply: (S, NodeId, seq<int>) -> Option<S>, s: S, payloads: map<NodeId, seq<int>>)
    ensures Run(apply, s, Operations([], payloads)) == s
  {
  }

  lemma FoldNone<S>(apply: (S, NodeId, seq<int>) -> Option<S>, s: S, payloads: map<NodeId, seq<int>>)
    ensures Fold(apply, s, [], payloads) == s
  {
  }

  class Room<S> {
    const apply: (S, NodeId, seq<int>) -> Option<S>
    const genesis: S
    const localKey: nat
    const lin: Linearizer
    /** Every writer's accepted log: our own and the verified replicas. */
    var feeds: map<nat, seq<Entry>>
    var payloads: map<NodeId, seq<int>>
    /** Accepted entries whose causal past is not delivered yet. */
    var pending: seq<(NodeId, Entry)>
    var finalized: S
    var live: S
    var finalizedLen: nat
    /** The accepted entries by identity. */
    ghost var received: Received

    /** What every operation keeps about delivery: the DAG holds received entries, and
        every other received entry is buffered. */
    ghost predicate Valid()
      reads this`feeds, this`payloads, this`pending, this`received, lin
    {
      Delivering([])
    }

    /** The finalized state is the fold of everything finalized, the live state the fold of
        the whole order. */
    ghost predicate Folded()
      requires Valid()
      reads this, lin
    {
      && finalizedLen == |lin.Final()|
      && finalized == Fold(apply, genesis, lin.Final(), payloads)
      && live == Fold(apply, genesis, Linearization(lin.deps, lin.Final()), payloads)
    }

    /** No more was folded as finalized than is delivered. */
    ghost predicate Counted()
      reads this`finalizedLen, lin
    {
      finalizedLen <= |lin.deps|
    }

    /** Nothing has happened to the room yet. */
    ghost predicate Unused()
      reads this
    {
      feeds == map[] && finalizedLen == 0 && finalized == genesis
    }

    /** Confirmation has resolved no fork: there are no indexers, or it never had to. */
    ghost predicate Steady()
      requires Valid()
      reads this, lin
    {
      lin.indexers.Some? ==> ForkFree(Graph(lin.deps, lin.indexers.value), lin.baseClock)
    }

    constructor (localKey: nat, indexers: Option<set<nat>>, genesis: S, apply: (S, NodeId, seq<int>) -> Option<S>)
      ensures Valid() && Counted() && Folded() && Unused() && this.localKey == localKey
      ensures fresh(lin) && lin.indexers == indexers && lin.base == []
    {
      this.localKey, this.genesis, this.apply := localKey, genesis, apply;
      var l := new Linearizer(indexers);
      lin := l;
      feeds, payloads, pending, received := map[], map[], [], map[];
      finalized, live, finalizedLen := genesis, genesis, 0;
      new;
      NothingYet(lin);
    }

    /** Delivery as it stands while the entries of `todo` are out of the buffer. */
    ghost predicate Delivering(todo: seq<(NodeId, Entry)>)
      reads this`feeds, this`payloads, this`pending, this`received, lin
    {
      Logged(feeds, received) && lin.Valid() && lin.Causal() && Buffered(received, lin.deps, payloads, pending, todo)
    }

    /** Try to deliver one entry; buffer it if something it builds on is missing. */
    method TryAdd(node: NodeId, entry: Entry, ghost rest: seq<(NodeId, Entry)>) returns (progressed: bool)
      requires Delivering([(node, entry)] + rest)
      modifies this`payloads, this`pending, lin`deps, lin`dependents, lin`nextSeq
      ensures Delivering(rest) && Grows(old(lin.deps), lin.deps)
      ensures progressed ==> pending == old(pending) && node in lin.deps
      ensures !progressed ==> pending == old(pending) + [(node, entry)] && lin.deps == old(lin.deps)
                              && !Addable(lin.deps, node, entry.heads)
      ensures forall n :: n in old(lin.deps) ==> PayloadOf(payloads, n) == PayloadOf(old(payloads), n)
    {
      hide Linearizer.Valid, DepsOf, Buffered, Logged;
      BufferSplit(received, lin.deps, payloads, pending, (node, entry), rest);
      var r := lin.Add(node, entry.heads);
      match r
      case Added =>
        payloads := payloads[node := entry.payload];
        progressed := true;
      case Duplicate =>
        progressed := true;
      case _ =>
        pending := pending + [(node, entry)];
        progressed := false;
    }

    /** Retry every buffered entry once. */
    method DrainPass() returns (progressed: bool)
      requires Delivering([])
      modifies this`payloads, this`pending, lin`deps, lin`dependents, lin`nextSeq
      ensures Delivering([]) && Grows(old(lin.deps), lin.deps)
      ensures progressed ==> |pending| < |old(pending)|
      ensures !progressed ==> lin.deps == old(lin.deps) && forall p :: p in pending ==> !Addable(lin.deps, p.0, p.1.heads)
      ensures forall n :: n in old(lin.deps) ==> PayloadOf(payloads, n) == PayloadOf(old(payloads), n)
    {
      hide Linearizer.Valid, DepsOf, Addable, PayloadOf, Buffered, Logged, Grows;
      GrowsSelf(lin.deps);
      BufferTaken(received, lin.deps, payloads, pending);
      progressed := false;
      var taken := pending;
      pending := [];
      assert taken[0..] == taken;
      for i := 0 to |taken|
        invariant Delivering(taken[i..]) && Grows(old(lin.deps), lin.deps)
        invariant |pending| <= i && (progressed ==> |pending| < i)
        invariant !progressed ==> lin.deps == old(lin.deps) && forall p :: p in pending ==> !Addable(lin.deps, p.0, p.1.heads)
        invariant forall n :: n in old(lin.deps) ==> PayloadOf(payloads, n) == PayloadOf(old(payloads), n)
      {
        var (node, entry) := taken[i];
        assert taken[i..] == [(node, entry)] + taken[i + 1..];
        ghost var before, payloads' := lin.deps, payloads;
        var added := TryAdd(node, entry, taken[i + 1..]);
        GrowsTrans(old(lin.deps), before, lin.deps);
        PayloadsTrans(old(lin.deps), before, old(payloads), payloads', payloads);
        if added {
          progressed := true;
        }
      }
    }

    /** Retry buffered entries until no further progress. */
    method DrainPending()
      requires Delivering([])
      modifies this`payloads, this`pending, lin`deps, lin`dependents, lin`nextSeq
      ensures Delivering([]) && Grows(old(lin.deps), lin.deps) && Stuck(received, lin.deps)
      ensures forall n :: n in old(lin.deps) ==> PayloadOf(payloads, n) == PayloadOf(old(payloads), n)
    {
      hide Linearizer.Valid, DepsOf, Addable, PayloadOf, Logged, Grows, Stuck, Buffered;
      GrowsSelf(lin.deps);
      while true
        invariant Delivering([]) && Grows(old(lin.deps), lin.deps)
        invariant forall n :: n in old(lin.deps) ==> PayloadOf(payloads, n) == PayloadOf(old(payloads), n)
        decreases |pending|
      {
        ghost var before, payloads' := lin.deps, payloads;
        var progressed := DrainPass();
        GrowsTrans(old(lin.deps), before, lin.deps);
        PayloadsTrans(old(lin.deps), before, old(payloads), payloads', payloads);
        if !progressed {
          BufferStuck(received, lin.deps, payloads, pending);
          break;
        }
      }
    }

    /** Fold `nodes[from..]` on top of `state`. */
    method FoldFrom(state: S, nodes: seq<NodeId>, from: nat) returns (state': S)
      requires from <= |nodes|
      ensures state == Fold(apply, genesis, nodes[..from], payloads) ==> state' == Fold(apply, genesis, nodes, payloads)
      ensures state' == Run(apply, state, Operations(nodes[from..], payloads))
    {
      state' := state;
      assert nodes[from..from] == [];
      for i := from to |nodes|
        invariant state' == Run(apply, state, Operations(nodes[from..i], payloads))
        invariant state == Fold(apply, genesis, nodes[..from], payloads) ==> state' == Fold(apply, genesis, nodes[..i], payloads)
      {
        FoldStep(apply, genesis, nodes, i, payloads);
        RunStep(apply, state, nodes, from, i, payloads);
        var payload := PayloadOf(payloads, nodes[i]);
        if payload != [] {
          match apply(state', nodes[i], payload)
          case Some(next) => state' := next;
          case None =>
        }
      }
      assert nodes[..|nodes|] == nodes && nodes[from..|nodes|] == nodes[from..];
    }

    /** Extend the finalized fold over what was newly finalized, and rebuild the live fold
        on top of it. If the finalized state was the fold of a prefix of what is finalized
        now, both states are the full folds again. */
    method Advance()
      requires Valid() && Counted()
      modifies this`finalized, this`live, this`finalizedLen
      ensures Valid() && Counted()
      ensures old(PrefixFolded()) ==> Folded()
      ensures Refolded(apply, old(finalized), old(finalizedLen), lin.Final(), Linearization(lin.deps, lin.Final()), payloads,
                       finalized, finalizedLen, live)
    {
      hide Linearizer.Valid, Linearizer.Causal, Fold, Run, Operations, Linearization, IsTopological, Delivering, FinalOf, LexLeq, Lists, FinalFacts;
      Parts([]);
      NothingRun(apply, finalized, payloads);
      ghost var prefixed := PrefixFolded();
      var fin := lin.Finalized();
      var order := lin.LinearOrder();
      OrderLength(lin.deps, order);
      if |fin| > finalizedLen {
        finalized := FoldFrom(finalized, fin, finalizedLen);
        finalizedLen := |fin|;
      }
      assert prefixed ==> fin[..finalizedLen] == fin;
      assert prefixed ==> order[..finalizedLen] == fin;
      live := FoldFrom(finalized, order, finalizedLen);
    }

    /** The finalized state is the fold of the first `finalizedLen` finalized nodes. */
    ghost predicate PrefixFolded()
      requires Valid()
      reads this, lin
    {
      finalizedLen <= |lin.Final()| && finalized == Fold(apply, genesis, lin.Final()[..finalizedLen], payloads)
    }

    /** What the delivery invariant gives about the linearizer. */
    lemma Parts(todo: seq<(NodeId, Entry)>)
      requires Delivering(todo)
      ensures lin.Valid() && lin.Causal() && Consistent(received, lin.deps)
    {
    }

    /** Append our own operation, acknowledging everything delivered so far; refused while our
        previous one is still waiting to be delivered. */
    method LocalAppend(op: seq<int>) returns (appended: bool)
      requires Valid() && Counted()
      modifies this, lin`deps, lin`dependents, lin`nextSeq
      ensures Valid() && Counted() && lin.indexers == old(lin.indexers) && lin.base == old(lin.base)
      ensures Keeps(old(lin.Final()), lin.Final()) && (old(Steady()) ==> old(lin.Final()) <= lin.Final())
      ensures old(Folded() && Steady()) ==> Folded()
      ensures appended <==> OwnFeed(old(feeds), localKey) == [] || OwnLast(old(feeds), localKey) in old(lin.deps)
      ensures !appended ==> feeds == old(feeds) && lin.deps == old(lin.deps)
      ensures !appended ==> finalized == old(finalized) && finalizedLen == old(finalizedLen) && live == old(live)
      ensures appended ==> Refolded(apply, old(finalized), old(finalizedLen), lin.Final(), Linearization(lin.deps, lin.Final()), payloads,
                                finalized, finalizedLen, live)
      ensures appended ==> var node := NodeId(localKey, |OwnFeed(old(feeds), localKey)|);
                           && node in lin.deps && received[node].payload == op && OnTop(received[node].heads, old(lin.deps))
                           && (forall n :: n in old(lin.deps) ==> Sees(lin.deps, node, n))
    {
      hide Delivering, Folded, Steady, FinalOf, ValidDag, Inverse, NextSeq, BaseClosed, DepsFirst, Sees, OwnFeed, Refolded, Linearization;
      Parts([]);
      var feed := OwnFeed(feeds, localKey);
      if feed != [] && NodeId(localKey, |feed| - 1) !in lin.deps {
        return false;
      }
      DeliverOwn(op);
      return true;
    }

    /** Record and deliver our next entry, on top of the whole frontier. */
    method DeliverOwn(op: seq<int>)
      requires Valid() && Counted()
      requires OwnFeed(feeds, localKey) == [] || NodeId(localKey, |OwnFeed(feeds, localKey)| - 1) in lin.deps
      modifies this, lin`deps, lin`dependents, lin`nextSeq
      ensures Valid() && Counted() && lin.indexers == old(lin.indexers) && lin.base == old(lin.base)
      ensures Keeps(old(lin.Final()), lin.Final()) && (old(Steady()) ==> old(lin.Final()) <= lin.Final())
      ensures old(Folded() && Steady()) ==> Folded()
      ensures Refolded(apply, old(finalized), old(finalizedLen), lin.Final(), Linearization(lin.deps, lin.Final()), payloads,
                                finalized, finalizedLen, live)
      ensures var node := NodeId(localKey, |OwnFeed(old(feeds), localKey)|);
              && node in lin.deps && node in received && received[node].payload == op && OnTop(received[node].heads, old(lin.deps))
              && (forall n :: n in old(lin.deps) ==> Sees(lin.deps, node, n))
    {
      hide Delivering, Folded, PrefixFolded, Steady, FinalOf, ValidDag, Inverse, NextSeq, BaseClosed, DepsFirst, DepsOf,
        Grows, Consistent, Addable, PayloadOf, Sees, OwnFeed, Keeps, Refolded, Linearization;
      Parts([]);
      ghost var steady := Steady();
      var frontier := lin.Heads();
      var heads := Ascending(frontier);
      ghost var node := NodeId(localKey, |OwnFeed(feeds, localKey)|);
      NextIsAddable(heads, frontier);
      var added := Receive(localKey, Entry(heads, op));
      Parts([]);
      LocalSeesAll(old(lin.deps), lin.deps, received, node, heads, frontier);
      GrowsCard(old(lin.deps), lin.deps);
      StillFinal();
      if steady {
        StillFolded();
      }
      Advance();
    }

    /** An entry on top of the frontier can be delivered at once. */
    lemma NextIsAddable(heads: seq<NodeId>, frontier: set<NodeId>)
      requires Delivering([])
      requires OwnFeed(feeds, localKey) == [] || NodeId(localKey, |OwnFeed(feeds, localKey)| - 1) in lin.deps
      requires frontier <= lin.deps.Keys && forall n :: n in heads <==> n in frontier
      ensures Addable(lin.deps, NodeId(localKey, |OwnFeed(feeds, localKey)|), heads)
    {
      hide Linearizer.Valid, Addable;
      var node := NodeId(localKey, |OwnFeed(feeds, localKey)|);
      Parts([]);
      UnrecordedIsUndelivered(received, lin.deps, node);
      LinearizerDag(lin);
      LocalIsAddable(lin.deps, node, heads, frontier);
    }

    /** Take in a writer's next entry: deliver it, or buffer it if something it builds on is
        missing. */
    method Receive(key: nat, entry: Entry) returns (added: bool)
      requires Delivering([])
      modifies this`feeds, this`received, this`payloads, this`pending, lin`deps, lin`dependents, lin`nextSeq
      ensures Delivering([]) && Grows(old(lin.deps), lin.deps)
      ensures feeds == old(feeds)[key := OwnFeed(old(feeds), key) + [entry]]
      ensures var node := NodeId(key, |OwnFeed(old(feeds), key)|);
              received == old(received)[node := entry] && (Addable(old(lin.deps), node, entry.heads) ==> node in lin.deps)
      ensures forall n :: n in old(lin.deps) ==> PayloadOf(payloads, n) == PayloadOf(old(payloads), n)
    {
      hide Delivering, Linearizer.Valid, Grows, Addable, PayloadOf, OwnFeed;
      ghost var node := NodeId(key, |OwnFeed(feeds, key)|);
      var index := |OwnFeed(feeds, key)|;
      Record(key, entry);
      assert [(node, entry)] + [] == [(node, entry)];
      added := TryAdd(NodeId(key, index), entry, []);
    }

    /** Rebuild the room from the writers' saved logs, whatever writer comes first: the same
        logs, everything deliverable delivered, and both folds exact. */
    method Replay(saved: map<nat, seq<Entry>>)
      requires Valid() && Counted() && Unused()
      modifies this, lin`deps, lin`dependents, lin`nextSeq
      ensures Valid() && Counted() && Folded() && SameFeeds(feeds, saved) && Stuck(received, lin.deps)
      ensures lin.indexers == old(lin.indexers) && lin.base == old(lin.base)
    {
      hide Delivering, PrefixFolded, FinalOf, Fold, Grows, Stuck, Addable, PayloadOf, Linearizer.Valid, SameFeeds, OwnFeed;
      ReplayAll(saved);
      GrowsCard(old(lin.deps), lin.deps);
      NothingFolded();
      Advance();
    }

    /** Feed every writer's saved entries and deliver what can be delivered. */
    method ReplayAll(saved: map<nat, seq<Entry>>)
      requires Delivering([]) && feeds == map[]
      modifies this`feeds, this`received, this`payloads, this`pending, lin`deps, lin`dependents, lin`nextSeq
      ensures Delivering([]) && Grows(old(lin.deps), lin.deps) && SameFeeds(feeds, saved) && Stuck(received, lin.deps)
    {
      hide Delivering, Grows, Stuck, Addable, PayloadOf, Linearizer.Valid;
      GrowsSelf(lin.deps);
      var todo := saved.Keys;
      while todo != {}
        invariant todo <= saved.Keys && Delivering([]) && Grows(old(lin.deps), lin.deps)
        invariant forall k :: OwnFeed(feeds, k) == if k in todo then [] else OwnFeed(saved, k)
        decreases |todo|
      {
        var w :| w in todo;
        ghost var before := lin.deps;
        ReplayWriter(w, saved[w]);
        GrowsTrans(old(lin.deps), before, lin.deps);
        todo := todo - {w};
      }
      ghost var before := lin.deps;
      DrainPending();
      GrowsTrans(old(lin.deps), before, lin.deps);
    }

    /** Feed one writer's saved entries in order. */
    method ReplayWriter(w: nat, saved: seq<Entry>)
      requires Delivering([]) && OwnFeed(feeds, w) == []
      modifies this`feeds, this`received, this`payloads, this`pending, lin`deps, lin`dependents, lin`nextSeq
      ensures Delivering([]) && Grows(old(lin.deps), lin.deps)
      ensures forall k :: OwnFeed(feeds, k) == if k == w then saved else OwnFeed(old(feeds), k)
    {
      hide Delivering, Grows, Addable, PayloadOf, Linearizer.Valid;
      GrowsSelf(lin.deps);
      for i := 0 to |saved|
        invariant Delivering([]) && Grows(old(lin.deps), lin.deps)
        invariant forall k :: OwnFeed(feeds, k) == if k == w then saved[..i] else OwnFeed(old(feeds), k)
      {
        ghost var before := lin.deps;
        var _ := Receive(w, saved[i]);
        GrowsTrans(old(lin.deps), before, lin.deps);
      }
      assert saved[..|saved|] == saved;
    }

    /** The fold of nothing is the genesis state. */
    lemma NothingFolded()
      requires Delivering([]) && finalizedLen == 0 && finalized == genesis
      ensures PrefixFolded()
    {
      hide Logged, Buffered, FinalOf;
      assert lin.Final()[..0] == [];
    }

    /** Growth of a steady DAG keeps what was finalized, and its fold. */
    twostate lemma StillFolded()
      requires old(Delivering([])) && old(Steady()) && Delivering([]) && Grows(old(lin.deps), lin.deps)
      requires lin.indexers == old(lin.indexers) && lin.base == old(lin.base) && lin.baseClock == old(lin.baseClock)
      requires finalized == old(finalized) && finalizedLen == old(finalizedLen)
      requires forall n :: n in old(lin.deps) ==> PayloadOf(payloads, n) == PayloadOf(old(payloads), n)
      ensures old(lin.Final()) <= lin.Final() && (old(Folded()) ==> PrefixFolded())
    {
      hide Logged, Buffered, FinalOf, Fold, Linearization, ValidDag, Inverse, NextSeq, BaseClosed, DepsFirst, ForkFree, Grows, PayloadOf;
      FoldSurvives(apply, genesis, old(lin.deps), lin.deps, lin.indexers, lin.base, lin.baseClock, old(payloads), payloads);
    }

    /** Growth of any DAG keeps what was finalized. */
    twostate lemma StillFinal()
      requires old(Delivering([])) && Delivering([]) && Grows(old(lin.deps), lin.deps)
      requires lin.indexers == old(lin.indexers) && lin.base == old(lin.base) && lin.baseClock == old(lin.baseClock)
      ensures Keeps(old(lin.Final()), lin.Final())
    {
      hide Logged, Buffered, FinalOf, ValidDag, Inverse, NextSeq, BaseClosed, Grows, Keeps;
      FinalKept(old(lin.deps), lin.deps, lin.indexers, lin.base, lin.baseClock);
    }

    /** Repinning the base leaves delivery as it was. */
    twostate lemma Rebased()
      requires old(Delivering([])) && lin.Valid() && lin.Causal() && lin.deps == old(lin.deps)
      requires feeds == old(feeds) && received == old(received) && payloads == old(payloads) && pending == old(pending)
      ensures Delivering([])
    {
    }

    /** Append an entry to a writer's accepted log. */
    method Record(key: nat, entry: Entry)
      requires Delivering([])
      modifies this`feeds, this`received
      ensures feeds == old(feeds)[key := OwnFeed(old(feeds), key) + [entry]]
      ensures var node := NodeId(key, |OwnFeed(old(feeds), key)|);
              node !in old(received) && received == old(received)[node := entry] && Delivering([(node, entry)])
    {
      hide Linearizer.Valid, DepsOf, Logged, Buffered;
      var feed := OwnFeed(feeds, key);
      ghost var node := NodeId(key, |feed|);
      LogStep(feeds, received, key, entry);
      BufferRecorded(received, lin.deps, payloads, pending, node, entry);
      feeds := feeds[key := feed + [entry]];
      received := received[node := entry];
    }

    /** Accept one remote writer's next block if it is the next one and verifies against the
        writer's signed head, deliver it and whatever waited on it, and refold. */
    method OnBlock(writer: nat, index: nat, entry: Entry, verified: bool) returns (accepted: bool)
      requires Valid() && Counted() && writer != localKey
      modifies this, lin`deps, lin`dependents, lin`nextSeq
      ensures Valid() && Counted() && lin.indexers == old(lin.indexers) && lin.base == old(lin.base)
      ensures Keeps(old(lin.Final()), lin.Final()) && (old(Steady()) ==> old(lin.Final()) <= lin.Final())
      ensures old(Folded() && Steady()) ==> Folded()
      ensures accepted <==> verified && index == |OwnFeed(old(feeds), writer)|
      ensures !accepted ==> feeds == old(feeds) && lin.deps == old(lin.deps)
      ensures !accepted ==> finalized == old(finalized) && finalizedLen == old(finalizedLen) && live == old(live)
      ensures accepted ==> Refolded(apply, old(finalized), old(finalizedLen), lin.Final(), Linearization(lin.deps, lin.Final()), payloads,
                                finalized, finalizedLen, live)
      ensures accepted ==> feeds == old(feeds)[writer := OwnFeed(old(feeds), writer) + [entry]]
      ensures accepted ==> Stuck(received, lin.deps) && forall n :: n in lin.deps <==> Deliverable(received, n)
    {
      hide Delivering, Folded, PrefixFolded, Steady, FinalOf, ValidDag, Inverse, NextSeq, BaseClosed, DepsFirst, DepsOf,
        Grows, Consistent, Stuck, Deliverable, PayloadOf, OwnFeed, Addable, Keeps, Refolded, Linearization;
      Parts([]);
      ghost var steady := Steady();
      KeepsSelf(lin.Final());
      if index != |OwnFeed(feeds, writer)| || !verified {
        return false;
      }
      var added := Receive(writer, entry);
      ghost var middle := lin.deps;
      ghost var payloads' := payloads;
      DrainPending();
      Parts([]);
      GrowsTrans(old(lin.deps), middle, lin.deps);
      PayloadsTrans(old(lin.deps), middle, old(payloads), payloads', payloads);
      DrainedIsExact(received, lin.deps);
      GrowsCard(old(lin.deps), lin.deps);
      StillFinal();
      if steady {
        StillFolded();
      }
      Advance();
      return true;
    }

    /** Hand confirmation to new indexers from a pinned prefix: what they do not confirm
        again is finalized no more, and the finalized state is refolded without it. */
    method Reconfigure(through: nat, indexers: set<nat>) returns (r: Reconfigured, kept: nat, dropped: nat)
      requires Valid() && Counted()
      modifies this`finalized, this`live, this`finalizedLen, lin`base, lin`baseClock, lin`indexers
      ensures Valid() && Counted() && lin.deps == old(lin.deps)
      ensures old(Folded()) ==> Folded()
      ensures lin.indexers == if r.Pinned? then Some(indexers) else old(lin.indexers)
      ensures r.Pinned? <==> |old(lin.base)| <= through <= |old(lin.Final())|
      ensures r.Pinned? ==> lin.base == old(lin.Final())[..through] && lin.base <= lin.Final()
      ensures r.Pinned? ==> IsCommonPrefix(old(lin.Final()), lin.Final(), kept)
                            && dropped == (if old(finalizedLen) > kept then old(finalizedLen) - kept else 0)
      ensures !r.Pinned? ==> finalized == old(finalized) && finalizedLen == old(finalizedLen) && live == old(live)
      ensures r.Pinned? ==> Refolded(apply, if dropped > 0 then Run(apply, genesis, Operations(lin.Final()[..kept], payloads)) else old(finalized),
                                     if dropped > 0 then kept else old(finalizedLen), lin.Final(), Linearization(lin.deps, lin.Final()),
                                     payloads, finalized, finalizedLen, live)
    {
      hide Delivering, FinalOf, Fold, Linearization, Linearizer.Valid, Linearizer.Causal, DepsOf, ForkFree, Lists, DownClosed, DepsFirstFrom, Distinct,
        Refolded, Run, Operations;
      Parts([]);
      ghost var folded := Folded();
      var before := lin.Finalized();
      r := lin.Reconfigure(through, indexers);
      Rebased();
      kept, dropped := 0, 0;
      if !r.Pinned? {
        return;
      }
      var after := lin.Finalized();
      kept := CommonPrefix(before, after);
      dropped := if finalizedLen > kept then finalizedLen - kept else 0;
      if dropped > 0 {
        assert after[..kept][..0] == [] && after[..kept][0..] == after[..kept];
        FoldNone(apply, genesis, payloads);
        finalized := FoldFrom(genesis, after[..kept], 0);
        finalizedLen := kept;
      }
      assert folded ==> before[..finalizedLen] == after[..finalizedLen];
      assert folded && finalizedLen == |before| ==> before[..finalizedLen] == before;
      Advance();
    }
  }

  /** `k` is the length of the longest common prefix. */
  ghost predicate IsCommonPrefix(a: seq<NodeId>, b: seq<NodeId>, k: nat) {
    && k <= |a| && k <= |b| && a[..k] == b[..k]
    && (k < |a| && k < |b| ==> a[k] != b[k])
  }

  method CommonPrefix(a: seq<NodeId>, b: seq<NodeId>) returns (k: nat)
    ensures IsCommonPrefix(a, b, k)
  {
    k := 0;
    while k < |a| && k < |b| && a[k] == b[k]
      invariant k <= |a| && k <= |b| && a[..k] == b[..k]
    {
      assert a[..k + 1] == a[..k] + [a[k]] && b[..k + 1] == b[..k] + [b[k]];
      k := k + 1;
    }
  }

  /** The elements of a set in ascending order. */
  method Ascending(s: set<NodeId>) returns (r: seq<NodeId>)
    ensures forall n :: n in r <==> n in s
  {
    r := [];
    var todo := s;
    while todo != {}
      invariant todo <= s && forall n :: n in r <==> n in s && n !in todo
      decreases todo
    {
      var n := Smallest(todo);
      r := r + [n];
      todo := todo - {n};
    }
  }

  /** A writer's next entry that references only delivered nodes can be added. */
  lemma LinearizerDag(lin: Linearizer)
    requires lin.Valid()
    ensures ValidDag(lin.deps)
  {
  }

  lemma LocalIsAddable(deps: Deps, node: NodeId, heads: seq<NodeId>, frontier: set<NodeId>)
    requires ValidDag(deps) && node !in deps && frontier <= deps.Keys && forall n :: n in heads <==> n in frontier
    requires node.pos > 0 ==> NodeId(node.key, node.pos - 1) in deps
    ensures Addable(deps, node, heads)
  {
    ReadyIsAddable(deps, node, heads);
  }

  lemma {:induction false} HeadAbove(deps: Deps, log: seq<NodeId>, i: nat, frontier: set<NodeId>)
    requires Delivery(deps, log) && i < |log|
    requires forall n :: n in frontier <==> n in deps && forall m :: m in deps ==> n !in deps[m]
    ensures exists h :: h in frontier && Sees(deps, h, log[i])
    decreases |log| - i
  {
    assert log[i] in log;
    if log[i] in frontier {
      SeesSelf(deps, log[i]);
    } else {
      var m :| m in deps && log[i] in deps[m];
      var j :| 0 <= j < |log| && log[j] == m;
      var k :| 0 <= k < j && log[k] == log[i];
      HeadAbove(deps, log, j, frontier);
      var h :| h in frontier && Sees(deps, h, m);
      SeesDep(deps, m, log[i]);
      SeesTrans(deps, h, m, log[i]);
    }
  }

  /** The heads are exactly the nodes nothing depends on. */
  ghost predicate OnTop(heads: seq<NodeId>, deps: Deps) {
    forall n :: n in heads <==> n in deps && forall m :: m in deps ==> n !in deps[m]
  }

  /** A node that references the whole frontier sees everything delivered. */
  lemma HeadsSeeAll(deps: Deps, deps': Deps, node: NodeId, frontier: set<NodeId>)
    requires ValidDag(deps) && Grows(deps, deps') && node in deps' && frontier <= deps'[node]
    requires forall n :: n in frontier <==> n in deps && forall m :: m in deps ==> n !in deps[m]
    ensures forall n :: n in deps ==> Sees(deps', node, n)
  {
    forall n | n in deps
      ensures Sees(deps', node, n)
    {
      var log :| Delivery(deps, log);
      var i :| 0 <= i < |log| && log[i] == n;
      HeadAbove(deps, log, i, frontier);
      var h :| h in frontier && Sees(deps, h, n);
      SeesGrows(deps, deps', h, n);
      SeesStep(deps', node, h, n);
    }
  }

  function OwnFeed(feeds: map<nat, seq<Entry>>, key: nat): seq<Entry> {
    if key in feeds then feeds[key] else []
  }

  function OwnLast(feeds: map<nat, seq<Entry>>, key: nat): NodeId
    requires OwnFeed(feeds, key) != []
  {
    NodeId(key, |OwnFeed(feeds, key)| - 1)
  }

  lemma FinalDelivered(deps: Deps, indexers: Option<set<nat>>, base: seq<NodeId>, baseClock: Clock)
    requires ValidDag(deps) && BaseClosed(deps, base, baseClock)
    ensures forall n :: n in FinalOf(deps, indexers, base, baseClock) ==> n in deps
  {
    FinalIs(deps, indexers, base, baseClock);
  }

  /** A term with one indexer has no fork to resolve, whatever the writers do. */
  lemma SoleTermIsSteady<S>(room: Room<S>)
    requires room.Valid() && room.lin.indexers.Some? && |room.lin.indexers.value| == 1
    ensures room.Steady()
  {
    hide Logged, Buffered, ForkFree, Linear;
    var g := Graph(room.lin.deps, room.lin.indexers.value);
    SoleIndexerIsLinear(g);
    LinearIsForkFree(g, room.lin.baseClock);
  }

  /** Every writer's log is the same. */
  ghost predicate SameFeeds(a: map<nat, seq<Entry>>, b: map<nat, seq<Entry>>) {
    forall k :: OwnFeed(a, k) == OwnFeed(b, k)
  }

  lemma SameReceived(a: map<nat, seq<Entry>>, b: map<nat, seq<Entry>>, ra: Received, rb: Received)
    requires SameFeeds(a, b) && Logged(a, ra) && Logged(b, rb)
    ensures ra == rb
  {
    forall n
      ensures n in ra <==> n in rb
      ensures n in ra && n in rb ==> ra[n] == rb[n]
    {
      assert OwnFeed(a, n.key) == OwnFeed(b, n.key);
    }
    assert ra.Keys == rb.Keys;
  }

  /** Drained rooms that accepted the same blocks, with the same indexers and base, agree on
      the DAG, on the finalized prefix and on the whole order; and on both states where each
      is the fold of its own. */
  lemma RoomsConverge<S>(a: Room<S>, b: Room<S>)
    requires a.Valid() && Stuck(a.received, a.lin.deps)
    requires b.Valid() && Stuck(b.received, b.lin.deps)
    requires SameFeeds(a.feeds, b.feeds) && a.lin.indexers == b.lin.indexers && a.lin.base == b.lin.base
    ensures a.lin.deps == b.lin.deps && a.lin.Final() == b.lin.Final()
    ensures Linearization(a.lin.deps, a.lin.Final()) == Linearization(b.lin.deps, b.lin.Final())
    ensures a.Folded() && b.Folded() && a.genesis == b.genesis && a.apply == b.apply ==>
              a.finalized == b.finalized && a.live == b.live
  {
    SameReceived(a.feeds, b.feeds, a.received, b.received);
    Converges(a.received, a.lin.deps, b.lin.deps);
    var deps, fin := a.lin.deps, a.lin.Final();
    assert fin == b.lin.Final();
    FinalDelivered(deps, a.lin.indexers, a.lin.base, a.lin.baseClock);
    LinearizationDelivered(deps, fin);
    FoldAgrees(a.apply, a.genesis, fin, a.payloads, b.payloads);
    FoldAgrees(a.apply, a.genesis, Linearization(deps, fin), a.payloads, b.payloads);
  }

  /** The two states of a folded room: every operation in the writers' logs that is finalized,
      or delivered, applied once in that order. */
  lemma StatesAre<S>(room: Room<S>)
    requires room.Valid() && room.Folded()
    ensures var fin := room.lin.Final();
            var order := Linearization(room.lin.deps, fin);
            && room.finalized == Run(room.apply, room.genesis, Operations(fin, room.payloads))
            && room.live == Run(room.apply, room.genesis, Operations(order, room.payloads))
            && Lists(room.lin.deps, order) && fin <= order
            && forall n :: n in order ==> n.key in room.feeds && n.pos < |room.feeds[n.key]|
                                          && n in room.payloads && room.payloads[n] == room.feeds[n.key][n.pos].payload
  {
    hide Fold, Linearization, FinalOf, Run, Operations, Lists, FinalFacts;
    var fin := room.lin.Final();
    OrderIsCausal(room.lin.deps, room.lin.indexers, room.lin.base, room.lin.baseClock);
    FoldIsRun(room.apply, room.genesis, fin, room.payloads);
    FoldIsRun(room.apply, room.genesis, Linearization(room.lin.deps, fin), room.payloads);
    ListsMembers(room.lin.deps, Linearization(room.lin.deps, fin));
  }

  lemma ListsMembers(deps: Deps, order: seq<NodeId>)
    requires Lists(deps, order)
    ensures forall n :: n in order <==> n in deps
  {
  }

  lemma LinearizationDelivered(deps: Deps, fin: seq<NodeId>)
    requires ValidDag(deps) && forall n :: n in fin ==> n in deps
    ensures forall n :: n in Linearization(deps, fin) ==> n in deps
  {
    OrderIsTopological(deps, deps.Keys - Elements(fin));
  }

  lemma NothingYet(lin: Linearizer)
    requires lin.Valid() && lin.deps == map[]
    ensures lin.Final() == [] && Linearization(lin.deps, lin.Final()) == []
  {
    FinalIs(lin.deps, lin.indexers, lin.base, lin.baseClock);
    if lin.Final() != [] {
      HasElement(lin.Final());
    }
  }

  lemma {:induction false} DistinctLength(s: seq<NodeId>, keys: set<NodeId>)
    requires (forall i, j :: 0 <= i < j < |s| ==> s[i] != s[j]) && forall n :: n in keys <==> n in s
    ensures |s| == |keys|
  {
    if s == [] {
      assert keys == {};
    } else {
      assert s == [s[0]] + s[1..];
      DistinctLength(s[1..], keys - {s[0]});
    }
  }

  lemma OrderLength(deps: Deps, o: seq<NodeId>)
    requires Lists(deps, o)
    ensures |o| == |deps|
  {
    DistinctLength(o, deps.Keys);
  }

  lemma GrowsCard(deps: Deps, deps': Deps)
    requires Grows(deps, deps')
    ensures |deps| <= |deps'|
  {
    SubsetCard(deps.Keys, deps'.Keys);
  }

  lemma HasElement(s: seq<NodeId>)
    requires s != []
    ensures exists n :: n in s
  {
    assert s[0] in s;
  }

  // ---------------------------------------------------------------- whole runs

  /** What can happen to a room. */
  datatype Event =
    | Append(op: seq<int>)
    | Block(writer: nat, index: nat, entry: Entry, verified: bool)
    | Repin(through: nat, indexers: set<nat>)

  /** The room's current term has one indexer. */
  ghost predicate SoleTerm<S>(room: Room<S>)
    reads room.lin
  {
    room.lin.indexers.Some? && |room.lin.indexers.value| == 1
  }

  /** However a room with one indexer per term is driven, its finalized state is the fold over
      everything finalized and its live state the fold over the whole order; and without a
      reconfiguration the finalized prefix only extends. */
  method RunRoom<S>(room: Room<S>, events: seq<Event>)
    requires room.Valid() && room.Counted() && room.Folded() && SoleTerm(room)
    requires forall e :: e in events ==> (e.Block? ==> e.writer != room.localKey) && (e.Repin? ==> |e.indexers| == 1)
    modifies room, room.lin
    ensures room.Valid() && room.Folded() && SoleTerm(room)
    ensures (forall e :: e in events ==> !e.Repin?) ==> old(room.lin.Final()) <= room.lin.Final()
  {
    hide Logged, Buffered, FinalOf, Fold, Linearization, ValidDag, Inverse, NextSeq, BaseClosed, DepsFirst, ForkFree;
    for i := 0 to |events|
      invariant room.Valid() && room.Counted() && room.Folded() && SoleTerm(room)
      invariant (forall e :: e in events ==> !e.Repin?) ==> old(room.lin.Final()) <= room.lin.Final()
    {
      SoleTermIsSteady(room);
      ghost var fin := room.lin.Final();
      assert events[i] in events;
      match events[i]
      case Append(op) =>
        var _ := room.LocalAppend(op);
        ExtendsOn(old(room.lin.Final()), fin, room.lin.Final());
      case Block(writer, index, entry, verified) =>
        var _ := room.OnBlock(writer, index, entry, verified);
        ExtendsOn(old(room.lin.Final()), fin, room.lin.Final());
      case Repin(through, indexers) =>
        var _, _, _ := room.Reconfigure(through, indexers);
    }
  }

  lemma ExtendsOn(a: seq<NodeId>, b: seq<NodeId>, c: seq<NodeId>)
    ensures a <= b && b <= c ==> a <= c
  {
    if a <= b && b <= c {
      PrefixTrans(a, b, c);
    }
  }

  /** Between reconfigurations, any run of any room, whatever its indexers and however its
      writers fork, loses nothing it had finalized. */
  method RunCommittee<S>(room: Room<S>, events: seq<Event>)
    requires room.Valid() && room.Counted()
    requires forall e :: e in events ==> !e.Repin? && (e.Block? ==> e.writer != room.localKey)
    modifies room, room.lin
    ensures room.Valid() && room.Counted() && Keeps(old(room.lin.Final()), room.lin.Final())
    ensures room.lin.indexers == old(room.lin.indexers) && room.lin.base == old(room.lin.base)
  {
    hide Logged, Buffered, FinalOf, Linearizer.Valid, Linearizer.Causal, Room.Folded, Room.Steady;
    for i := 0 to |events|
      invariant room.Valid() && room.Counted() && Keeps(old(room.lin.Final()), room.lin.Final())
      invariant room.lin.indexers == old(room.lin.indexers) && room.lin.base == old(room.lin.base)
    {
      assert events[i] in events;
      match events[i]
      case Append(op) =>
        var _ := room.LocalAppend(op);
      case Block(writer, index, entry, verified) =>
        var _ := room.OnBlock(writer, index, entry, verified);
    }
  }
}
