/** Stack-and-visited-set walks of the DAG: reachability and the vector clock. */
module Walks {
  import opened CausalDag
  import opened Confirmation

  /** `seen` minus the nodes still on the stack is closed under dependencies. */
  ghost predicate Walked(deps: Deps, start: NodeId, seen: set<NodeId>, stack: seq<NodeId>) {
    && start in seen && seen <= deps.Keys
    && (forall n :: n in stack ==> n in seen)
    && (forall n, d :: n in seen && n !in stack && d in deps[n] ==> d in seen)
    && (forall n :: n in seen ==> Sees(deps, start, n))
  }

  lemma {:induction false} ClosedIn(deps: Deps, seen: set<NodeId>, a: NodeId, b: NodeId, n: nat)
    requires seen <= deps.Keys && a in seen && SeesIn(deps, a, b, n)
    requires forall n, d :: n in seen && d in deps[n] ==> d in seen
    ensures b in seen
    decreases n
  {
    if a != b {
      var d :| d in deps[a] && SeesIn(deps, d, b, n - 1);
      ClosedIn(deps, seen, d, b, n - 1);
    }
  }

  lemma WalkStarts(deps: Deps, start: NodeId)
    requires start in deps
    ensures Walked(deps, start, {start}, [start])
    ensures Recorded(map[], {}) && Pending({start}, {}, [start])
  {
    SeesSelf(deps, start);
  }

  /** A finished walk has visited exactly the history of its start. */
  lemma WalkEnds(deps: Deps, start: NodeId, seen: set<NodeId>)
    requires ValidDag(deps) && Walked(deps, start, seen, [])
    ensures seen == Past(deps, start)
  {
    forall m | m in deps && Sees(deps, start, m)
      ensures m in seen
    {
      var n: nat :| SeesIn(deps, start, m, n);
      ClosedIn(deps, seen, start, m, n);
    }
  }

  /** Push the dependencies of the popped `node` that were not visited before. */
  method Expand(deps: Deps, ghost start: NodeId, node: NodeId, seen: set<NodeId>, stack: seq<NodeId>)
    returns (seen': set<NodeId>, stack': seq<NodeId>)
    requires ValidDag(deps) && node in seen && Walked(deps, start, seen, stack + [node])
    ensures Walked(deps, start, seen', stack') && seen <= seen'
    ensures seen' == seen ==> stack' == stack
    ensures deps[node] <= seen' && stack <= stack'
    ensures forall n :: n in seen' && n !in seen ==> n in stack'
  {
    seen', stack' := seen, stack;
    var todo := deps[node];
    while todo != {}
      invariant todo <= deps[node] && deps[node] - todo <= seen'
      invariant seen <= seen' <= deps.Keys && stack <= stack'
      invariant seen' == seen ==> stack' == stack
      invariant forall n :: n in stack' ==> n in seen'
      invariant forall n :: n in seen' && n !in seen ==> n in stack'
      invariant forall n :: n in seen' ==> Sees(deps, start, n)
      decreases todo
    {
      var d :| d in todo;
      todo := todo - {d};
      if d !in seen' {
        SeesDep(deps, node, d);
        SeesTrans(deps, start, node, d);
        seen' := seen' + {d};
        stack' := stack' + [d];
      }
    }
    forall n, d | n in seen' && n !in stack' && d in deps[n]
      ensures d in seen'
    {
      if n != node {
        assert n in seen && n !in stack + [node];
      }
    }
  }

  lemma UnknownUnseen(deps: Deps, a: NodeId, b: NodeId)
    requires ValidDag(deps) && a != b && (a !in deps || b !in deps)
    ensures !Sees(deps, a, b)
  {
    SeesUnfold(deps, a, b);
    if a in deps && Sees(deps, a, b) {
      SeesDelivered(deps, a, b);
    }
  }

  /** Depth-first search for `b` below `a`. */
  method SeesWalk(deps: Deps, a: NodeId, b: NodeId) returns (r: bool)
    requires ValidDag(deps)
    ensures r <==> Sees(deps, a, b)
  {
    hide ValidDag, Sees;
    SeesSelf(deps, a);
    if a == b {
      return true;
    }
    if a !in deps || b !in deps {
      UnknownUnseen(deps, a, b);
      return false;
    }
    WalkStarts(deps, a);
    var stack, seen := [a], {a};
    while stack != []
      invariant Walked(deps, a, seen, stack) && b !in seen
      decreases deps.Keys - seen, |stack|
    {
      var node := stack[|stack| - 1];
      assert stack == stack[..|stack| - 1] + [node];
      seen, stack := Expand(deps, a, node, seen, stack[..|stack| - 1]);
      if b in deps[node] {
        return true;
      }
      if b in seen {
        return true;
      }
    }
    WalkEnds(deps, a, seen);
    return false;
  }

  lemma RaiseGet(c: Clock, key: nat, length: nat, k: nat)
    ensures Get(Raise(c, key, length), k) == if k == key && length > Get(c, k) then length else Get(c, k)
  {
  }

  /** Everything popped so far has been recorded. */
  ghost predicate Recorded(c: Clock, popped: set<NodeId>) {
    && (forall n :: n in popped ==> n.pos < Get(c, n.key))
    && (forall key :: Get(c, key) > 0 ==> NodeId(key, Get(c, key) - 1) in popped)
  }

  lemma RecordStep(c: Clock, popped: set<NodeId>, n: NodeId)
    requires Recorded(c, popped)
    ensures Recorded(Raise(c, n.key, n.pos + 1), popped + {n})
  {
    var c' := Raise(c, n.key, n.pos + 1);
    assert n == NodeId(n.key, n.pos);
    forall key | Get(c', key) > 0
      ensures NodeId(key, Get(c', key) - 1) in popped + {n}
    {
      RaiseGet(c, n.key, n.pos + 1, key);
    }
  }

  lemma RecordEnds(deps: Deps, node: NodeId, c: Clock, key: nat)
    requires ValidDag(deps) && node in deps && Recorded(c, Past(deps, node))
    ensures Get(c, key) == Len(deps, node, key)
  {
    hide ValidDag, Sees, Len, Get;
    if Get(c, key) < Len(deps, node, key) {
      var m := NodeId(key, Get(c, key));
      ClockIsSees(deps, node, key, m.pos);
      SeesDelivered(deps, node, m);
    }
    if Get(c, key) > Len(deps, node, key) {
      ClockIsSees(deps, node, key, Get(c, key) - 1);
    }
  }

  lemma UnknownClock(deps: Deps, node: NodeId, key: nat)
    requires node !in deps
    ensures Len(deps, node, key) == 0
  {
    forall m | m in SeenOf(deps, node, key)
      ensures false
    {
      SeesUnfold(deps, node, m);
    }
    assert SeenOf(deps, node, key) == {};
  }

  /** Every visited node is recorded or still on the stack. */
  ghost predicate Pending(seen: set<NodeId>, popped: set<NodeId>, stack: seq<NodeId>) {
    popped <= seen && forall n :: n in seen && n !in popped ==> n in stack
  }

  lemma PendingStep(seen: set<NodeId>, popped: set<NodeId>, stack: seq<NodeId>, v: NodeId,
                    seen': set<NodeId>, stack': seq<NodeId>)
    requires Pending(seen, popped, stack + [v]) && v in seen
    requires seen <= seen' && stack <= stack' && forall n :: n in seen' && n !in seen ==> n in stack'
    ensures Pending(seen', popped + {v}, stack')
  {
    forall n | n in seen' && n !in popped + {v}
      ensures n in stack'
    {
      if n in seen {
        assert n in stack + [v];
        assert n in stack;
      }
    }
  }

  lemma ClockEnds(deps: Deps, node: NodeId, seen: set<NodeId>, popped: set<NodeId>, c: Clock)
    requires ValidDag(deps) && node in deps && Walked(deps, node, seen, [])
    requires Pending(seen, popped, []) && Recorded(c, popped)
    ensures forall key :: Get(c, key) == Len(deps, node, key)
  {
    assert popped == seen;
    WalkEnds(deps, node, seen);
    forall key
      ensures Get(c, key) == Len(deps, node, key)
    {
      RecordEnds(deps, node, c, key);
    }
  }

  /** The vector clock of `node`, read off one walk of its history. */
  method ClockOf(deps: Deps, node: NodeId) returns (c: Clock)
    requires ValidDag(deps)
    ensures forall key :: Get(c, key) == Len(deps, node, key)
    ensures node in deps ==> forall key, length: nat :: Includes(c, key, length) <==> length > 0 && Sees(deps, node, NodeId(key, length - 1))
  {
    hide ValidDag, Len, Recorded, Pending, Sees, Includes;
    c := map[];
    if node !in deps {
      forall key
        ensures Len(deps, node, key) == 0
      {
        UnknownClock(deps, node, key);
      }
      return;
    }
    var stack, seen := [node], {node};
    ghost var popped: set<NodeId> := {};
    WalkStarts(deps, node);
    while stack != []
      invariant Walked(deps, node, seen, stack) && Recorded(c, popped) && Pending(seen, popped, stack)
      decreases deps.Keys - seen, |stack|
    {
      var v, below := stack[|stack| - 1], stack[..|stack| - 1];
      assert stack == below + [v];
      RecordStep(c, popped, v);
      c := Raise(c, v.key, v.pos + 1);
      var seen', stack' := Expand(deps, node, v, seen, below);
      PendingStep(seen, popped, below, v, seen', stack');
      popped := popped + {v};
      seen, stack := seen', stack';
    }
    ClockEnds(deps, node, seen, popped, c);
    forall key, length: nat
      ensures Includes(c, key, length) <==> length > 0 && Sees(deps, node, NodeId(key, length - 1))
    {
      IncludesIs(deps, node, c, key, length);
    }
  }

  /** A clock includes a length exactly when the node has seen that many of the writer's nodes. */
  lemma IncludesIs(deps: Deps, node: NodeId, c: Clock, key: nat, length: nat)
    requires ValidDag(deps) && node in deps && Get(c, key) == Len(deps, node, key)
    ensures Includes(c, key, length) <==> length > 0 && Sees(deps, node, NodeId(key, length - 1))
  {
    hide ValidDag, Sees, Len;
    if length > 0 {
      ClockIsSees(deps, node, key, length - 1);
    }
  }
}
