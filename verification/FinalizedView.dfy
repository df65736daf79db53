/** The finalized prefix: the machine is run from the pinned base until it is stuck, each
    confirmed batch expanded to the history it newly covers. */
module FinalizedView {
  import opened CausalDag
  import opened Kahn
  import opened Confirmation

  ghost function Elements(s: seq<NodeId>): set<NodeId> {
    set n | n in s
  }

  /** Everything some node of `batch` has seen. */
  ghost function Closure(deps: Deps, batch: seq<NodeId>): set<NodeId> {
    set m | m in deps && exists b :: b in batch && Sees(deps, b, m)
  }

  /** The history a batch newly covers. */
  ghost function Fresh(deps: Deps, batch: seq<NodeId>, out: seq<NodeId>): (r: set<NodeId>)
    ensures r <= deps.Keys
  {
    Closure(deps, batch) - Elements(out)
  }

  ghost function Unconfirmed(g: Graph, removed: Clock): set<NodeId> {
    set n | n in g.deps && n.key in g.indexers && n.pos >= Get(removed, n.key)
  }

  /** Every node of `out` comes after its dependencies. */
  ghost predicate DepsFirst(deps: Deps, out: seq<NodeId>) {
    forall i, d :: 0 <= i < |out| && out[i] in deps && d in deps[out[i]] ==> d in out[..i]
  }

  /** `out` holds the dependencies of its nodes, in whatever order. */
  ghost predicate DownClosed(deps: Deps, out: seq<NodeId>) {
    forall n, d :: n in out && n in deps && d in deps[n] ==> d in out
  }

  /** From position `k` on, every node of `out` comes after its dependencies. */
  ghost predicate DepsFirstFrom(deps: Deps, out: seq<NodeId>, k: nat) {
    forall i, d :: k <= i < |out| && out[i] in deps && d in deps[out[i]] ==> d in out[..i]
  }

  lemma FirstFromJoin(deps: Deps, start: seq<NodeId>, out: seq<NodeId>, k: nat)
    requires start <= out && DepsFirstFrom(deps, start, k) && DepsFirstFrom(deps, out, |start|)
    ensures DepsFirstFrom(deps, out, k)
  {
    forall i, d | k <= i < |start| && out[i] in deps && d in deps[out[i]]
      ensures d in out[..i]
    {
      assert out[i] == start[i] && out[..i] == start[..i];
    }
  }

  /** What follows `start` in causal order leaves the whole as causal as `start`. */
  lemma FirstIff(deps: Deps, start: seq<NodeId>, out: seq<NodeId>)
    requires start <= out && DepsFirstFrom(deps, out, |start|)
    ensures DepsFirst(deps, out) <==> DepsFirst(deps, start)
  {
    if DepsFirst(deps, start) {
      FirstFromJoin(deps, start, out, 0);
    }
    if DepsFirst(deps, out) {
      forall i, d | 0 <= i < |start| && start[i] in deps && d in deps[start[i]]
        ensures d in start[..i]
      {
        assert out[i] == start[i] && out[..i] == start[..i];
      }
    }
  }

  /** What every step keeps: `out` lists delivered nodes once, with all they depend on, and
      its indexer nodes are exactly those below the `removed` clock. */
  ghost predicate Frontier(g: Graph, removed: Clock, out: seq<NodeId>) {
    && Distinct(out) && DownClosed(g.deps, out)
    && (forall n :: n in out ==> n in g.deps)
    && (forall n :: n in g.deps && n.key in g.indexers ==> (n in out <==> n.pos < Get(removed, n.key)))
  }

  // ---------------------------------------------------------------- one step

  lemma {:induction false} RaiseAllGet(c: Clock, batch: seq<NodeId>, key: nat)
    requires Distinct(batch) && forall t :: t in batch ==> t.pos == Get(c, t.key)
    ensures Get(RaiseAll(c, batch), key) == Get(c, key) + (if NodeId(key, Get(c, key)) in batch then 1 else 0)
    decreases |batch|
  {
    if batch != [] {
      var t, rest := batch[0], batch[1..];
      var c' := Raise(c, t.key, t.pos + 1);
      assert batch == [t] + rest;
      assert t == NodeId(t.key, Get(c, t.key));
      forall u | u in rest
        ensures u.pos == Get(c', u.key) && u.key != t.key
      {
        assert u in batch && u == NodeId(u.key, Get(c, u.key));
        var i :| 0 <= i < |rest| && rest[i] == u;
        assert batch[i + 1] == u;
      }
      RaiseAllGet(c', rest, key);
      assert NodeId(t.key, Get(c', t.key)) !in rest;
    }
  }

  lemma ShiftShrinks(g: Graph, removed: Clock)
    requires Ok(g) && Shift(g, removed) != []
    ensures |Unconfirmed(g, RaiseAll(removed, Shift(g, removed)))| < |Unconfirmed(g, removed)|
  {
    var batch := Shift(g, removed);
    ShiftsTails(g, removed);
    forall t | t in batch
      ensures t in g.deps && t.key in g.indexers && t.pos == Get(removed, t.key)
    {
      TailFacts(g, t, removed);
    }
    var removed' := RaiseAll(removed, batch);
    forall key
      ensures Get(removed', key) == Get(removed, key) + (if NodeId(key, Get(removed, key)) in batch then 1 else 0)
    {
      RaiseAllGet(removed, batch, key);
    }
    var t := batch[0];
    assert t in batch && t == NodeId(t.key, Get(removed, t.key));
    SubsetSmaller(Unconfirmed(g, removed'), Unconfirmed(g, removed), t);
  }

  /** What has been emitted is causally closed. */
  lemma {:induction false} EmittedClosedIn(deps: Deps, out: seq<NodeId>, a: NodeId, m: NodeId, n: nat)
    requires DownClosed(deps, out) && a in out && SeesIn(deps, a, m, n)
    ensures m in out
    decreases n
  {
    if a != m {
      var d :| d in deps[a] && SeesIn(deps, d, m, n - 1);
      EmittedClosedIn(deps, out, d, m, n - 1);
    }
  }

  lemma EmittedClosed(deps: Deps, out: seq<NodeId>, a: NodeId, m: NodeId)
    requires DownClosed(deps, out) && a in out && Sees(deps, a, m)
    ensures m in out
  {
    var n: nat :| SeesIn(deps, a, m, n);
    EmittedClosedIn(deps, out, a, m, n);
  }

  lemma FrontierClosed(g: Graph, removed: Clock, out: seq<NodeId>)
    requires Ok(g) && Frontier(g, removed, out)
    ensures RemovedClosed(g, removed)
  {
    forall n: NodeId, m: NodeId |
      n in g.deps && n.key in g.indexers && n.pos < Get(removed, n.key) && m.key in g.indexers && Sees(g.deps, n, m)
      ensures m.pos < Get(removed, m.key)
    {
      assert n in out;
      EmittedClosed(g.deps, out, n, m);
    }
  }

  lemma FreshClosed(deps: Deps, batch: seq<NodeId>, out: seq<NodeId>, n: NodeId, d: NodeId)
    requires ValidDag(deps) && n in Fresh(deps, batch, out) && d in deps[n]
    ensures d in out || d in Fresh(deps, batch, out)
  {
    var b :| b in batch && Sees(deps, b, n);
    SeesDep(deps, n, d);
    SeesTrans(deps, b, n, d);
  }

  /** Appending a topological order of a set whose outside dependencies are all emitted. */
  lemma AppendOrder(deps: Deps, out: seq<NodeId>, news: set<NodeId>, o: seq<NodeId>)
    requires news <= deps.Keys && IsTopological(deps, news, o)
    requires Distinct(out) && DownClosed(deps, out)
    requires forall n :: n in news ==> n !in out
    requires forall n, d :: n in news && d in deps[n] ==> d in out || d in news
    ensures Distinct(out + o) && DownClosed(deps, out + o) && DepsFirstFrom(deps, out + o, |out|)
  {
    var all := out + o;
    forall i, j | 0 <= i < j < |all|
      ensures all[i] != all[j]
    {
      if i < |out| <= j {
        assert o[j - |out|] in o && all[i] in out;
      }
    }
    forall i, d | |out| <= i < |all| && all[i] in deps && d in deps[all[i]]
      ensures d in all[..i]
    {
      assert all[i] == o[i - |out|] && o[i - |out|] in o;
      assert all[..i] == out + o[..i - |out|];
    }
  }

  /** The indexer nodes a batch newly covers are the batch itself. */
  lemma FreshIndexers(g: Graph, removed: Clock, out: seq<NodeId>, batch: seq<NodeId>, n: NodeId)
    requires Ok(g) && Frontier(g, removed, out)
    requires forall t :: t in batch ==> t in Tails(g, removed)
    requires n.key in g.indexers
    ensures n in Fresh(g.deps, batch, out) <==> n in batch
  {
    if n in batch {
      TailFacts(g, n, removed);
      SeesSelf(g.deps, n);
    }
    if n in Fresh(g.deps, batch, out) {
      var b :| b in batch && Sees(g.deps, b, n);
      if n != b {
        TailHistory(g, b, n, removed);
      }
    }
  }

  lemma FrontierStep(g: Graph, removed: Clock, out: seq<NodeId>, batch: seq<NodeId>)
    requires Ok(g) && Frontier(g, removed, out) && Distinct(batch)
    requires forall t :: t in batch ==> t in Tails(g, removed)
    ensures Frontier(g, RaiseAll(removed, batch), out + Order(g.deps, Fresh(g.deps, batch, out)))
    ensures DepsFirstFrom(g.deps, out + Order(g.deps, Fresh(g.deps, batch, out)), |out|)
  {
    var news := Fresh(g.deps, batch, out);
    var o := Order(g.deps, news);
    OrderIsTopological(g.deps, news);
    forall n, d | n in news && d in g.deps[n]
      ensures d in out || d in news
    {
      FreshClosed(g.deps, batch, out, n, d);
    }
    AppendOrder(g.deps, out, news, o);
    forall n | n in g.deps && n.key in g.indexers
      ensures n in out + o <==> n.pos < Get(RaiseAll(removed, batch), n.key)
    {
      FreshIndexers(g, removed, out, batch, n);
      forall t | t in batch
        ensures t.pos == Get(removed, t.key)
      {
        TailFacts(g, t, removed);
      }
      RaiseAllGet(removed, batch, n.key);
      assert n in o <==> n in news;
      assert n in batch ==> n == NodeId(n.key, Get(removed, n.key));
    }
  }

  // ---------------------------------------------------------------- the whole run

  /** The finalized view reached from `removed` with `out` already emitted. */
  ghost function View(g: Graph, removed: Clock, out: seq<NodeId>): seq<NodeId>
    requires Ok(g)
    decreases |Unconfirmed(g, removed)|
  {
    var batch := Shift(g, removed);
    if batch == [] then out
    else
      ShiftShrinks(g, removed);
      View(g, RaiseAll(removed, batch), out + Order(g.deps, Fresh(g.deps, batch, out)))
  }

  /** The bare confirmed indexer sequence of the same run. */
  ghost function Prefix(g: Graph, removed: Clock, out: seq<NodeId>): seq<NodeId>
    requires Ok(g)
    decreases |Unconfirmed(g, removed)|
  {
    var batch := Shift(g, removed);
    if batch == [] then out
    else
      ShiftShrinks(g, removed);
      Prefix(g, RaiseAll(removed, batch), out + batch)
  }

  /** The clock on which the run ends. */
  ghost function Final(g: Graph, removed: Clock): Clock
    requires Ok(g)
    decreases |Unconfirmed(g, removed)|
  {
    var batch := Shift(g, removed);
    if batch == [] then removed
    else
      ShiftShrinks(g, removed);
      Final(g, RaiseAll(removed, batch))
  }

  lemma NothingAfter(deps: Deps, out: seq<NodeId>)
    ensures DepsFirstFrom(deps, out, |out|)
  {
  }

  /** The run keeps the frontier invariant, extends what it started from in causal order, and
      stops only where nothing more confirms. */
  lemma {:induction false} ViewIsFrontier(g: Graph, removed: Clock, out: seq<NodeId>)
    requires Ok(g) && Frontier(g, removed, out)
    ensures Frontier(g, Final(g, removed), View(g, removed, out))
    ensures out <= View(g, removed, out)
    ensures DepsFirstFrom(g.deps, View(g, removed, out), |out|)
    ensures Shift(g, Final(g, removed)) == []
    decreases |Unconfirmed(g, removed)|
  {
    hide Frontier, Shift, Fresh, RaiseAll, ValidDag, Unconfirmed, DepsFirstFrom;
    var batch := Shift(g, removed);
    if batch != [] {
      ShiftShrinks(g, removed);
      ShiftsTails(g, removed);
      FrontierStep(g, removed, out, batch);
      var next := out + Order(g.deps, Fresh(g.deps, batch, out));
      ViewIsFrontier(g, RaiseAll(removed, batch), next);
      FirstFromJoin(g.deps, next, View(g, removed, out), |out|);
    } else {
      NothingAfter(g.deps, out);
    }
  }

  /** The view's indexer nodes past the start are exactly the confirmed indexer sequence. */
  lemma {:induction false} ViewHasPrefix(g: Graph, removed: Clock, out: seq<NodeId>, acc: seq<NodeId>, n: NodeId)
    requires Ok(g) && Frontier(g, removed, out) && n.key in g.indexers
    requires n in acc <==> n in out
    ensures n in Prefix(g, removed, acc) <==> n in View(g, removed, out)
    decreases |Unconfirmed(g, removed)|
  {
    var batch := Shift(g, removed);
    if batch != [] {
      ShiftShrinks(g, removed);
      ShiftsTails(g, removed);
      FrontierStep(g, removed, out, batch);
      FreshIndexers(g, removed, out, batch, n);
      OrderIsTopological(g.deps, Fresh(g.deps, batch, out));
      hide *;
      ViewHasPrefix(g, RaiseAll(removed, batch), out + Order(g.deps, Fresh(g.deps, batch, out)), acc + batch, n);
    }
  }
}
