/** The causal DAG shared by the linearizer, the confirmation machine and the room: node
    identities, reachability, and the vector clock read off it. */
module CausalDag {

  /** Writer `key` (a 32-byte public key, compared as one big-endian number) and the
      0-based position `pos` in that writer's log. */
  datatype NodeId = NodeId(key: nat, pos: nat)

  /** A node's direct dependencies: the heads it referenced and its own predecessor. */
  type Deps = map<NodeId, set<NodeId>>

  /** The tiebreak: lowest key, then lowest position. */
  predicate Less(a: NodeId, b: NodeId) {
    a.key < b.key || (a.key == b.key && a.pos < b.pos)
  }

  /** `b` is reachable from `a` along at most `n` dependency edges. */
  ghost predicate SeesIn(deps: Deps, a: NodeId, b: NodeId, n: nat)
    decreases n
  {
    a == b || (n > 0 && a in deps && exists d :: d in deps[a] && SeesIn(deps, d, b, n - 1))
  }

  /** `b` is in the causal history of `a`, `a` itself included. */
  ghost predicate Sees(deps: Deps, a: NodeId, b: NodeId) {
    exists n: nat :: SeesIn(deps, a, b, n)
  }

  ghost predicate Closed(deps: Deps) {
    forall n, d :: n in deps && d in deps[n] ==> d in deps
  }

  /** Every node depends on its writer's previous one. */
  ghost predicate Chained(deps: Deps) {
    forall n :: n in deps && n.pos > 0 ==> NodeId(n.key, n.pos - 1) in deps[n]
  }

  /** `log` lists every node once, each after all it depends on. */
  ghost predicate Delivery(deps: Deps, log: seq<NodeId>) {
    && (forall i, j :: 0 <= i < j < |log| ==> log[i] != log[j])
    && (forall n :: n in deps <==> n in log)
    && (forall i, d :: 0 <= i < |log| && d in deps[log[i]] ==> d in log[..i])
  }

  ghost predicate Acyclic(deps: Deps) {
    exists log :: Delivery(deps, log)
  }

  ghost predicate ValidDag(deps: Deps) {
    Closed(deps) && Chained(deps) && Acyclic(deps)
  }

  /** `more` holds every node of `deps` with the same dependencies. */
  ghost predicate Grows(deps: Deps, more: Deps) {
    forall n :: n in deps ==> n in more && more[n] == deps[n]
  }

  ghost function Past(deps: Deps, n: NodeId): set<NodeId> {
    set m | m in deps && Sees(deps, n, m)
  }

  ghost function SeenOf(deps: Deps, n: NodeId, key: nat): set<NodeId> {
    set m | m in deps && m.key == key && Sees(deps, n, m)
  }

  /** How many of `key`'s nodes are in the history of `n`: the vector clock's entry. */
  ghost function Len(deps: Deps, n: NodeId, key: nat): nat {
    |SeenOf(deps, n, key)|
  }

  // ---------------------------------------------------------------- reachability

  lemma SeesSelf(deps: Deps, a: NodeId)
    ensures Sees(deps, a, a)
  {
    assert SeesIn(deps, a, a, 0);
  }

  lemma SeesStep(deps: Deps, a: NodeId, d: NodeId, b: NodeId)
    requires a in deps && d in deps[a] && Sees(deps, d, b)
    ensures Sees(deps, a, b)
  {
    var n: nat :| SeesIn(deps, d, b, n);
    assert SeesIn(deps, a, b, n + 1);
  }

  lemma SeesDep(deps: Deps, a: NodeId, d: NodeId)
    requires a in deps && d in deps[a]
    ensures Sees(deps, a, d)
  {
    SeesSelf(deps, d);
    SeesStep(deps, a, d, d);
  }

  /** The last edge first: a node sees another exactly when it is that node or one of its
      dependencies sees it. */
  lemma SeesUnfold(deps: Deps, a: NodeId, b: NodeId)
    ensures Sees(deps, a, b) <==> a == b || (a in deps && exists d :: d in deps[a] && Sees(deps, d, b))
  {
    if Sees(deps, a, b) && a != b {
      var n: nat :| SeesIn(deps, a, b, n);
      var d :| d in deps[a] && SeesIn(deps, d, b, n - 1);
      assert Sees(deps, d, b);
    }
    if a == b {
      SeesSelf(deps, a);
    } else if a in deps && exists d :: d in deps[a] && Sees(deps, d, b) {
      var d :| d in deps[a] && Sees(deps, d, b);
      SeesStep(deps, a, d, b);
    }
  }

  lemma {:induction false} SeesInTrans(deps: Deps, a: NodeId, b: NodeId, c: NodeId, n: nat)
    requires SeesIn(deps, a, b, n) && Sees(deps, b, c)
    ensures Sees(deps, a, c)
    decreases n
  {
    if a != b {
      var d :| d in deps[a] && SeesIn(deps, d, b, n - 1);
      SeesInTrans(deps, d, b, c, n - 1);
      SeesStep(deps, a, d, c);
    }
  }

  lemma SeesTrans(deps: Deps, a: NodeId, b: NodeId, c: NodeId)
    requires Sees(deps, a, b) && Sees(deps, b, c)
    ensures Sees(deps, a, c)
  {
    var n: nat :| SeesIn(deps, a, b, n);
    SeesInTrans(deps, a, b, c, n);
  }

  lemma {:induction false} SeesInEarlier(deps: Deps, log: seq<NodeId>, i: nat, b: NodeId, n: nat)
    requires Delivery(deps, log) && i < |log| && SeesIn(deps, log[i], b, n)
    ensures exists j :: 0 <= j <= i && log[j] == b
  {
    if log[i] != b {
      var d :| d in deps[log[i]] && SeesIn(deps, d, b, n - 1);
      var k :| 0 <= k < i && log[k] == d;
      SeesInEarlier(deps, log, k, b, n - 1);
    }
  }

  /** What a delivered node sees has been delivered. */
  lemma SeesDelivered(deps: Deps, a: NodeId, b: NodeId)
    requires ValidDag(deps) && a in deps && Sees(deps, a, b)
    ensures b in deps
  {
    var log :| Delivery(deps, log);
    var i :| 0 <= i < |log| && log[i] == a;
    var n: nat :| SeesIn(deps, a, b, n);
    SeesInEarlier(deps, log, i, b, n);
  }

  /** Causality has no cycles. */
  lemma SeesAntisym(deps: Deps, a: NodeId, b: NodeId)
    requires ValidDag(deps) && a in deps && Sees(deps, a, b) && Sees(deps, b, a)
    ensures a == b
  {
    var log :| Delivery(deps, log);
    var i :| 0 <= i < |log| && log[i] == a;
    var n: nat :| SeesIn(deps, a, b, n);
    SeesInEarlier(deps, log, i, b, n);
    var j :| 0 <= j <= i && log[j] == b;
    var m: nat :| SeesIn(deps, b, a, m);
    SeesInEarlier(deps, log, j, a, m);
    var k :| 0 <= k <= j && log[k] == a;
    assert k == i;
  }

  /** The history shrinks strictly along causality: a measure for every descent. */
  lemma PastShrinks(deps: Deps, a: NodeId, b: NodeId)
    requires ValidDag(deps) && a in deps && a != b && Sees(deps, a, b)
    ensures b in deps && |Past(deps, b)| < |Past(deps, a)|
  {
    SeesDelivered(deps, a, b);
    SeesSelf(deps, a);
    forall m | m in Past(deps, b)
      ensures m in Past(deps, a)
    {
      SeesTrans(deps, a, b, m);
    }
    if a in Past(deps, b) {
      SeesAntisym(deps, a, b);
    }
    SubsetSmaller(Past(deps, b), Past(deps, a), a);
  }

  lemma SubsetSmaller<T>(small: set<T>, big: set<T>, x: T)
    requires small <= big && x in big && x !in small
    ensures |small| < |big|
  {
    SubsetCard(small, big - {x});
  }

  lemma {:induction false} SubsetCard<T>(small: set<T>, big: set<T>)
    requires small <= big
    ensures |small| <= |big|
  {
    if small != {} {
      var x :| x in small;
      SubsetCard(small - {x}, big - {x});
    }
  }

  // ---------------------------------------------------------------- growth

  lemma {:induction false} SeesInGrows(deps: Deps, more: Deps, a: NodeId, b: NodeId, n: nat)
    requires Closed(deps) && Grows(deps, more) && a in deps
    ensures SeesIn(deps, a, b, n) <==> SeesIn(more, a, b, n)
    decreases n
  {
    if n > 0 {
      forall d | d in deps[a]
        ensures SeesIn(deps, d, b, n - 1) <==> SeesIn(more, d, b, n - 1)
      {
        SeesInGrows(deps, more, d, b, n - 1);
      }
    }
  }

  /** A delivered node's history never changes afterwards. */
  lemma SeesGrows(deps: Deps, more: Deps, a: NodeId, b: NodeId)
    requires Closed(deps) && Grows(deps, more) && a in deps
    ensures Sees(deps, a, b) <==> Sees(more, a, b)
  {
    if Sees(deps, a, b) {
      var n: nat :| SeesIn(deps, a, b, n);
      SeesInGrows(deps, more, a, b, n);
    }
    if Sees(more, a, b) {
      var n: nat :| SeesIn(more, a, b, n);
      SeesInGrows(deps, more, a, b, n);
    }
  }

  lemma LenGrows(deps: Deps, more: Deps, a: NodeId, key: nat)
    requires ValidDag(deps) && Grows(deps, more) && a in deps
    ensures Len(deps, a, key) == Len(more, a, key)
  {
    forall m
      ensures m in SeenOf(deps, a, key) <==> m in SeenOf(more, a, key)
    {
      SeesGrows(deps, more, a, m);
      if Sees(deps, a, m) {
        SeesDelivered(deps, a, m);
      }
    }
    assert SeenOf(deps, a, key) == SeenOf(more, a, key);
  }

  // ---------------------------------------------------------------- the vector clock

  lemma {:induction false} OwnEarlier(deps: Deps, n: NodeId, q: nat)
    requires ValidDag(deps) && n in deps && q <= n.pos
    ensures Sees(deps, n, NodeId(n.key, q))
    decreases n.pos
  {
    if q == n.pos {
      SeesSelf(deps, n);
    } else {
      var prev := NodeId(n.key, n.pos - 1);
      OwnEarlier(deps, prev, q);
      SeesStep(deps, n, prev, NodeId(n.key, q));
    }
  }

  /** A node set that is downward closed in one writer's log is an initial run of it. */
  lemma InitialRun(s: set<NodeId>, key: nat)
    requires forall m :: m in s ==> m.key == key
    requires forall m, q: nat :: m in s && q < m.pos ==> NodeId(key, q) in s
    ensures forall q: nat :: NodeId(key, q) in s <==> q < |s|
  {
    var run: set<NodeId> := {};
    var q := 0;
    while NodeId(key, q) in s
      invariant run <= s && |run| == q
      invariant forall m :: m in run <==> m.key == key && m.pos < q
      decreases |s| - q
    {
      SubsetSmaller(run, s, NodeId(key, q));
      run := run + {NodeId(key, q)};
      q := q + 1;
    }
    assert run == s;
  }

  /** The clock is a faithful restatement of reachability: `clock(n).includes(k, q + 1)`
      exactly when `n` sees `(k, q)`. */
  lemma ClockIsSees(deps: Deps, n: NodeId, key: nat, q: nat)
    requires ValidDag(deps) && n in deps
    ensures Sees(deps, n, NodeId(key, q)) <==> q < Len(deps, n, key)
  {
    var s := SeenOf(deps, n, key);
    forall m, p: nat | m in s && p < m.pos
      ensures NodeId(key, p) in s
    {
      OwnEarlier(deps, m, p);
      SeesTrans(deps, n, m, NodeId(key, p));
      SeesDelivered(deps, n, NodeId(key, p));
    }
    InitialRun(s, key);
    if Sees(deps, n, NodeId(key, q)) {
      SeesDelivered(deps, n, NodeId(key, q));
    }
  }

  /** Seeing a node means having seen at least as much of every writer. */
  lemma LenMonotone(deps: Deps, a: NodeId, b: NodeId, key: nat)
    requires ValidDag(deps) && a in deps && Sees(deps, a, b)
    ensures Len(deps, b, key) <= Len(deps, a, key)
  {
    forall m | m in SeenOf(deps, b, key)
      ensures m in SeenOf(deps, a, key)
    {
      SeesTrans(deps, a, b, m);
    }
    SubsetCard(SeenOf(deps, b, key), SeenOf(deps, a, key));
  }
}
