/** The deterministic tiebreak order: at each step emit the causally ready node with the
    smallest identity. Specified as a function of the node set alone, proved to be the
    lexicographically least topological order, and computed by in-degree counting. */
module Kahn {
  import opened CausalDag

  /** `x` is the smallest element of `s`. */
  ghost predicate IsMin(s: set<NodeId>, x: NodeId) {
    x in s && forall y :: y in s ==> x == y || Less(x, y)
  }

  lemma {:induction false} MinExists(s: set<NodeId>)
    requires s != {}
    ensures exists x :: IsMin(s, x)
  {
    var e :| e in s;
    if s == {e} {
      assert IsMin(s, e);
    } else {
      var r := s - {e};
      assert s == r + {e};
      MinExists(r);
      var x :| IsMin(r, x);
      assert IsMin(s, if Less(e, x) then e else x);
    }
  }

  ghost function Min(s: set<NodeId>): (x: NodeId)
    requires s != {}
    ensures IsMin(s, x)
  {
    MinExists(s);
    var x :| IsMin(s, x);
    x
  }

  ghost predicate NoneIn(s: set<NodeId>, rest: set<NodeId>) {
    forall d :: d in s ==> d !in rest
  }

  /** The nodes of `rest` none of whose dependencies are still in `rest`. */
  ghost function Ready(deps: Deps, rest: set<NodeId>): set<NodeId>
    requires rest <= deps.Keys
  {
    set n | n in rest && NoneIn(deps[n], rest)
  }

  lemma {:induction false} ReadyInLog(deps: Deps, rest: set<NodeId>, log: seq<NodeId>, i: nat)
    requires Delivery(deps, log) && rest <= deps.Keys
    requires i <= |log| && forall n :: n in rest ==> n !in log[..i]
    requires rest != {}
    ensures Ready(deps, rest) != {}
    decreases |log| - i
  {
    assert i < |log| by {
      var n :| n in rest;
      assert log[..|log|] == log;
    }
    if log[i] in rest {
      assert log[i] in Ready(deps, rest);
    } else {
      ReadyInLog(deps, rest, log, i + 1);
    }
  }

  lemma ReadyExists(deps: Deps, rest: set<NodeId>)
    requires ValidDag(deps) && rest <= deps.Keys && rest != {}
    ensures Ready(deps, rest) != {}
  {
    var log :| Delivery(deps, log);
    ReadyInLog(deps, rest, log, 0);
  }

  /** The order the linearizer gives to `rest`, a function of the node set alone. */
  ghost function Order(deps: Deps, rest: set<NodeId>): seq<NodeId>
    requires ValidDag(deps) && rest <= deps.Keys
  {
    if rest == {} then []
    else
      ReadyExists(deps, rest);
      var n := Min(Ready(deps, rest));
      [n] + Order(deps, rest - {n})
  }

  /** `o` lists every node of `rest` once, each after its dependencies in `rest`. */
  ghost predicate IsTopological(deps: Deps, rest: set<NodeId>, o: seq<NodeId>)
    requires rest <= deps.Keys
  {
    && (forall i, j :: 0 <= i < j < |o| ==> o[i] != o[j])
    && (forall n :: n in rest <==> n in o)
    && (forall i, d :: 0 <= i < |o| && d in deps[o[i]] && d in rest ==> d in o[..i])
  }

  /** `a` is no later than `b` in dictionary order under the tiebreak. */
  ghost predicate LexLeq(a: seq<NodeId>, b: seq<NodeId>) {
    a == [] || (b != [] && (Less(a[0], b[0]) || (a[0] == b[0] && LexLeq(a[1..], b[1..]))))
  }

  lemma TopologicalTail(deps: Deps, rest: set<NodeId>, o: seq<NodeId>)
    requires rest <= deps.Keys && IsTopological(deps, rest, o) && o != []
    ensures IsTopological(deps, rest - {o[0]}, o[1..])
    ensures o[0] in Ready(deps, rest)
  {
    var t := o[1..];
    assert o == [o[0]] + t;
    forall i, d | 0 <= i < |t| && d in deps[t[i]] && d in rest - {o[0]}
      ensures d in t[..i]
    {
      assert t[i] == o[i + 1];
      assert d in o[..i + 1];
      assert o[..i + 1] == [o[0]] + t[..i];
    }
  }

  lemma {:induction false} OrderIsTopological(deps: Deps, rest: set<NodeId>)
    requires ValidDag(deps) && rest <= deps.Keys
    ensures IsTopological(deps, rest, Order(deps, rest))
  {
    if rest != {} {
      ReadyExists(deps, rest);
      var n := Min(Ready(deps, rest));
      var r := rest - {n};
      OrderIsTopological(deps, r);
      var t := Order(deps, r);
      var o := [n] + t;
      assert NoneIn(deps[n], rest);
      forall i, d | 0 <= i < |o| && d in deps[o[i]] && d in rest
        ensures d in o[..i]
      {
        if i > 0 {
          assert o[i] == t[i - 1];
          assert o[..i] == [n] + t[..i - 1];
          if d != n {
            assert d in deps[t[i - 1]] && d in r;
            assert d in t[..i - 1];
          }
        }
      }
    }
  }

  /** No topological order of the same nodes is smaller. */
  lemma {:induction false} OrderIsLeast(deps: Deps, rest: set<NodeId>, o: seq<NodeId>)
    requires ValidDag(deps) && rest <= deps.Keys && IsTopological(deps, rest, o)
    ensures LexLeq(Order(deps, rest), o)
  {
    if rest != {} {
      ReadyExists(deps, rest);
      var n := Min(Ready(deps, rest));
      assert n in o;
      TopologicalTail(deps, rest, o);
      if o[0] == n {
        OrderIsLeast(deps, rest - {n}, o[1..]);
        assert Order(deps, rest)[1..] == Order(deps, rest - {n});
      }
    }
  }

  /** The order of a set of delivered nodes does not depend on what else is delivered. */
  lemma {:induction false} OrderGrows(deps: Deps, more: Deps, rest: set<NodeId>)
    requires ValidDag(deps) && ValidDag(more) && Grows(deps, more) && rest <= deps.Keys
    ensures Order(deps, rest) == Order(more, rest)
  {
    if rest != {} {
      assert Ready(deps, rest) == Ready(more, rest);
      ReadyExists(deps, rest);
      OrderGrows(deps, more, rest - {Min(Ready(deps, rest))});
    }
  }

  /** Ties go to the lower key, then to the lower position: a node is placed before any other
      that could have stood in its place. */
  lemma {:induction false} OrderBreaksTies(deps: Deps, rest: set<NodeId>, i: nat, j: nat)
    requires ValidDag(deps) && rest <= deps.Keys && i < j < |Order(deps, rest)|
    requires var o := Order(deps, rest); o[j] in deps && forall d :: d in deps[o[j]] && d in rest ==> d in o[..i]
    ensures var o := Order(deps, rest);
            o[i].key < o[j].key || (o[i].key == o[j].key && o[i].pos < o[j].pos)
    decreases |rest|
  {
    hide ValidDag, Ready, Order;
    var o := Order(deps, rest);
    var n := OrderFirst(deps, rest);
    var tail := Order(deps, rest - {n});
    assert o[j] == tail[j - 1];
    if i == 0 {
      OrderHas(deps, rest, j);
      assert o[..0] == [];
      ReadyIs(deps, rest, o[j]);
      assert tail[j - 1] != n by {
        OrderHas(deps, rest - {n}, j - 1);
      }
    } else {
      assert o[..i] == [n] + tail[..i - 1];
      OrderBreaksTies(deps, rest - {n}, i - 1, j - 1);
    }
  }

  lemma ReadyIs(deps: Deps, rest: set<NodeId>, x: NodeId)
    requires rest <= deps.Keys && x in rest && forall d :: d in deps[x] && d in rest ==> d in []
    ensures x in Ready(deps, rest)
  {
  }

  lemma OrderHas(deps: Deps, rest: set<NodeId>, j: nat)
    requires ValidDag(deps) && rest <= deps.Keys && j < |Order(deps, rest)|
    ensures Order(deps, rest)[j] in rest
  {
    OrderIsTopological(deps, rest);
    assert Order(deps, rest)[j] in Order(deps, rest);
  }

  lemma OrderFirst(deps: Deps, rest: set<NodeId>) returns (n: NodeId)
    requires ValidDag(deps) && rest <= deps.Keys && Order(deps, rest) != []
    ensures n in rest && Order(deps, rest) == [n] + Order(deps, rest - {n})
    ensures forall y :: y in Ready(deps, rest) ==> n == y || Less(n, y)
  {
    hide ValidDag;
    ReadyExists(deps, rest);
    n := Min(Ready(deps, rest));
  }

  lemma OrderUnfold(deps: Deps, rest: set<NodeId>, n: NodeId)
    requires ValidDag(deps) && rest <= deps.Keys
    requires IsMin(Ready(deps, rest), n)
    ensures Order(deps, rest) == [n] + Order(deps, rest - {n})
  {
    assert n == Min(Ready(deps, rest));
  }

  // ---------------------------------------------------------------- the counting loop

  /** `dependents` is the exact inverse of `deps`. */
  ghost predicate Inverse(deps: Deps, dependents: Deps) {
    && dependents.Keys == deps.Keys
    && forall d, n :: (d in dependents && n in dependents[d]) <==> (n in deps && d in deps[n])
  }

  /** How many of the dependencies `s` are still in `rest`. */
  ghost function Unmet(s: set<NodeId>, rest: set<NodeId>): nat {
    |s * rest|
  }

  /** What in-degree counting keeps: `indegree` counts unmet dependencies, the frontier is
      the ready set, and what has left `rest` depends on nothing in it. */
  ghost predicate Counting(deps: Deps, nodes: set<NodeId>, rest: set<NodeId>,
                           indegree: map<NodeId, int>, frontier: set<NodeId>)
    requires nodes <= deps.Keys
  {
    && rest <= nodes && indegree.Keys == nodes
    && (forall n :: n in rest ==> indegree[n] == Unmet(deps[n], rest))
    && frontier == Ready(deps, rest)
    && (forall n :: n in nodes && n !in rest ==> NoneIn(deps[n], rest))
  }

  lemma CountingStart(deps: Deps, nodes: set<NodeId>, indegree: map<NodeId, int>, frontier: set<NodeId>)
    requires nodes <= deps.Keys && indegree.Keys == nodes
    requires forall n :: n in nodes ==> indegree[n] == |deps[n] * nodes|
    requires forall n :: n in frontier <==> n in nodes && indegree[n] == 0
    ensures Counting(deps, nodes, nodes, indegree, frontier)
  {
    forall n | n in nodes
      ensures indegree[n] == 0 <==> NoneIn(deps[n], nodes)
    {
      EmptyCount(deps[n], nodes);
    }
    assert frontier == Ready(deps, nodes);
  }

  lemma UnmetCount(s: set<NodeId>, rest: set<NodeId>, n: NodeId)
    requires n in rest
    ensures n in s ==> Unmet(s, rest - {n}) == Unmet(s, rest) - 1
    ensures n !in s ==> Unmet(s, rest - {n}) == Unmet(s, rest)
  {
    if n in s {
      assert s * rest == (s * (rest - {n})) + {n};
    } else {
      assert s * rest == s * (rest - {n});
    }
  }

  lemma EmptyCount(s: set<NodeId>, rest: set<NodeId>)
    ensures Unmet(s, rest) == 0 <==> NoneIn(s, rest)
  {
    if |s * rest| == 0 {
      assert forall d :: d in s && d in rest ==> d in s * rest;
    } else {
      var d :| d in s * rest;
    }
  }

  /** Midway through releasing the dependents of `node`: those in `todo` still count it. */
  ghost predicate Releasing(deps: Deps, nodes: set<NodeId>, rest: set<NodeId>, node: NodeId, todo: set<NodeId>,
                            indegree: map<NodeId, int>, frontier: set<NodeId>)
    requires rest <= nodes <= deps.Keys
  {
    && indegree.Keys == nodes
    && (forall n :: n in rest && n != node ==> indegree[n] == Unmet(deps[n], if n in todo then rest else rest - {node}))
    && (forall n :: n in frontier <==> n in rest && n != node && n !in todo && NoneIn(deps[n], rest - {node}))
  }

  lemma ReleaseStart(deps: Deps, dependents: Deps, nodes: set<NodeId>, rest: set<NodeId>, node: NodeId,
                     indegree: map<NodeId, int>, frontier: set<NodeId>)
    requires Inverse(deps, dependents) && nodes <= deps.Keys
    requires node in frontier && Counting(deps, nodes, rest, indegree, frontier)
    ensures Releasing(deps, nodes, rest, node, dependents[node], indegree, frontier - {node})
  {
    forall n | n in rest && n != node
      ensures n in frontier <==> n !in dependents[node] && NoneIn(deps[n], rest - {node})
      ensures n !in dependents[node] ==> Unmet(deps[n], rest - {node}) == Unmet(deps[n], rest)
    {
      assert n in dependents[node] <==> node in deps[n];
      UnmetCount(deps[n], rest, node);
    }
  }

  lemma ReleaseStep(deps: Deps, nodes: set<NodeId>, rest: set<NodeId>, node: NodeId, todo: set<NodeId>, child: NodeId,
                    indegree: map<NodeId, int>, frontier: set<NodeId>)
    requires rest <= nodes <= deps.Keys && node in rest
    requires Releasing(deps, nodes, rest, node, todo, indegree, frontier)
    requires child in todo && child in rest && child != node && node in deps[child]
    ensures indegree[child] > 0
    ensures var left := indegree[child] - 1;
            Releasing(deps, nodes, rest, node, todo - {child}, indegree[child := left],
                      if left == 0 then frontier + {child} else frontier)
  {
    hide NoneIn, Unmet;
    UnmetCount(deps[child], rest, node);
    EmptyCount(deps[child], rest - {node});
    ReleaseFrontier(deps, rest, node, todo, child, frontier, indegree[child] == 1);
  }

  lemma ReleaseFrontier(deps: Deps, rest: set<NodeId>, node: NodeId, todo: set<NodeId>, child: NodeId,
                        frontier: set<NodeId>, met: bool)
    requires rest <= deps.Keys && child in todo && child in rest && child != node
    requires met <==> NoneIn(deps[child], rest - {node})
    requires forall n :: n in frontier <==> n in rest && n != node && n !in todo && NoneIn(deps[n], rest - {node})
    ensures var frontier' := if met then frontier + {child} else frontier;
            forall n :: n in frontier' <==> n in rest && n != node && n !in todo - {child} && NoneIn(deps[n], rest - {node})
  {
    hide NoneIn;
  }

  lemma ReleaseEnd(deps: Deps, nodes: set<NodeId>, rest: set<NodeId>, node: NodeId,
                   indegree: map<NodeId, int>, frontier: set<NodeId>)
    requires rest <= nodes <= deps.Keys && node in rest && NoneIn(deps[node], rest)
    requires forall n :: n in nodes && n !in rest ==> NoneIn(deps[n], rest)
    requires Releasing(deps, nodes, rest, node, {}, indegree, frontier)
    ensures Counting(deps, nodes, rest - {node}, indegree, frontier)
  {
    assert frontier == Ready(deps, rest - {node});
  }

  /** Release the dependents of the emitted `node`. */
  method Release(deps: Deps, dependents: Deps, nodes: set<NodeId>, ghost rest: set<NodeId>, node: NodeId,
                 indegree: map<NodeId, int>, frontier: set<NodeId>)
    returns (indegree': map<NodeId, int>, frontier': set<NodeId>)
    requires Inverse(deps, dependents) && nodes <= deps.Keys
    requires node in frontier && Counting(deps, nodes, rest, indegree, frontier)
    ensures Counting(deps, nodes, rest - {node}, indegree', frontier')
  {
    hide Unmet;
    ReleaseStart(deps, dependents, nodes, rest, node, indegree, frontier);
    indegree', frontier' := indegree, frontier - {node};
    var todo := dependents[node];
    while todo != {}
      invariant todo <= dependents[node]
      invariant Releasing(deps, nodes, rest, node, todo, indegree', frontier')
      decreases todo
    {
      var child :| child in todo;
      assert child in deps && node in deps[child] && NoneIn(deps[node], rest);
      if child in indegree' {
        ReleaseStep(deps, nodes, rest, node, todo, child, indegree', frontier');
        indegree' := indegree'[child := indegree'[child] - 1];
        if indegree'[child] == 0 {
          frontier' := frontier' + {child};
        }
      }
      todo := todo - {child};
    }
    ReleaseEnd(deps, nodes, rest, node, indegree', frontier');
  }

  lemma DrainStep(deps: Deps, nodes: set<NodeId>, rest: set<NodeId>, node: NodeId,
                  indegree: map<NodeId, int>, frontier: set<NodeId>)
    requires ValidDag(deps) && nodes <= deps.Keys && Counting(deps, nodes, rest, indegree, frontier)
    requires IsMin(frontier, node)
    ensures node in rest && Order(deps, rest) == [node] + Order(deps, rest - {node})
  {
    OrderUnfold(deps, rest, node);
  }

  lemma DrainEnd(deps: Deps, nodes: set<NodeId>, rest: set<NodeId>, indegree: map<NodeId, int>, frontier: set<NodeId>)
    requires ValidDag(deps) && nodes <= deps.Keys && Counting(deps, nodes, rest, indegree, frontier)
    requires frontier == {}
    ensures Order(deps, rest) == []
  {
    if rest != {} {
      ReadyExists(deps, rest);
    }
  }

  /** The emission loop: pop the smallest ready node until none is left. */
  method Drain(deps: Deps, dependents: Deps, nodes: set<NodeId>, indegree: map<NodeId, int>, frontier: set<NodeId>)
    returns (out: seq<NodeId>)
    requires ValidDag(deps) && Inverse(deps, dependents)
    requires nodes <= deps.Keys && Counting(deps, nodes, nodes, indegree, frontier)
    ensures out == Order(deps, nodes)
  {
    hide ValidDag, Inverse, NoneIn, Ready, Counting, Order, Closed;
    var indegree, frontier := indegree, frontier;
    ghost var rest := nodes;
    out := [];
    while frontier != {}
      invariant rest <= nodes && Counting(deps, nodes, rest, indegree, frontier)
      invariant out + Order(deps, rest) == Order(deps, nodes)
      decreases rest
    {
      MinExists(frontier);
      var node :| node in frontier && forall y :: y in frontier ==> node == y || Less(node, y);
      DrainStep(deps, nodes, rest, node, indegree, frontier);
      assert out + Order(deps, rest) == out + [node] + Order(deps, rest - {node});
      out := out + [node];
      indegree, frontier := Release(deps, dependents, nodes, rest, node, indegree, frontier);
      rest := rest - {node};
    }
    DrainEnd(deps, nodes, rest, indegree, frontier);
  }

  /** Priority order over `nodes`, whatever is in `emitted` counting as satisfied. */
  method TopoKeyOrder(deps: Deps, dependents: Deps, nodes: set<NodeId>, emitted: set<NodeId>) returns (out: seq<NodeId>)
    requires ValidDag(deps) && Inverse(deps, dependents)
    requires nodes <= deps.Keys && nodes !! emitted
    ensures out == Order(deps, nodes)
  {
    hide *;
    var indegree: map<NodeId, int> :=
      map n | n in nodes :: |set d | d in deps[n] && d in nodes && d !in emitted|;
    var frontier := set n | n in nodes && indegree[n] == 0;
    forall n | n in nodes
      ensures indegree[n] == |deps[n] * nodes|
    {
      assert (set d | d in deps[n] && d in nodes && d !in emitted) == deps[n] * nodes;
    }
    CountingStart(deps, nodes, indegree, frontier);
    out := Drain(deps, dependents, nodes, indegree, frontier);
  }

  lemma PlainStart(deps: Deps, indegree: map<NodeId, int>, frontier: set<NodeId>)
    requires ValidDag(deps) && indegree.Keys == deps.Keys
    requires forall n :: n in deps ==> indegree[n] == |deps[n]|
    requires forall n :: n in frontier <==> n in deps && indegree[n] == 0
    ensures Counting(deps, deps.Keys, deps.Keys, indegree, frontier)
  {
    forall n | n in deps
      ensures indegree[n] == |deps[n] * deps.Keys|
    {
      assert deps[n] * deps.Keys == deps[n];
    }
    CountingStart(deps, deps.Keys, indegree, frontier);
  }

  /** Priority order over every delivered node. */
  method PlainOrder(deps: Deps, dependents: Deps) returns (out: seq<NodeId>)
    requires ValidDag(deps) && Inverse(deps, dependents)
    ensures out == Order(deps, deps.Keys)
  {
    hide *;
    var indegree: map<NodeId, int> := map n | n in deps :: |deps[n]|;
    var frontier := set n | n in deps && indegree[n] == 0;
    PlainStart(deps, indegree, frontier);
    out := Drain(deps, dependents, deps.Keys, indegree, frontier);
  }
}
