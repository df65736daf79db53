/** Quorum degrees: the recursive definition over causal histories, and the single pass
    over a topological order that computes it. */
module Quorum {
  import opened CausalDag
  import opened Kahn
  import opened Confirmation

  /** Indexer `w` has a node in `v`'s history that witnesses degree `k` over `target`. */
  ghost predicate Vouch(g: Graph, target: NodeId, v: NodeId, w: nat, k: nat)
    decreases k, 1
  {
    w in g.indexers && exists u :: u in Past(g.deps, v) && u.key == w && Witness(g, target, u, k)
  }

  /** `v` witnesses degree 0 by seeing the target, and degree `k` when a majority of the
      indexers vouch for degree `k - 1` in its history. */
  ghost predicate Witness(g: Graph, target: NodeId, v: NodeId, k: nat)
    decreases k, 0
  {
    && Sees(g.deps, v, target)
    && (k > 0 ==> |set w | w in g.indexers && Vouch(g, target, v, w, k - 1)| >= Majority(g))
  }

  /** `d` is the highest degree any delivered node witnesses. */
  ghost predicate IsDegree(g: Graph, target: NodeId, d: nat) {
    && (exists v :: v in g.deps && Witness(g, target, v, d))
    && (forall v, k: nat :: v in g.deps && Witness(g, target, v, k) ==> k <= d)
  }

  ghost function Vouchers(g: Graph, target: NodeId, v: NodeId, k: nat): set<nat> {
    set w | w in g.indexers && Vouch(g, target, v, w, k)
  }

  lemma {:induction false} WitnessDown(g: Graph, target: NodeId, v: NodeId, k: nat, j: nat)
    requires Witness(g, target, v, k) && j <= k
    ensures Witness(g, target, v, j)
    decreases k
  {
    if 0 < j < k {
      forall w | w in g.indexers && Vouch(g, target, v, w, k - 1)
        ensures Vouch(g, target, v, w, j - 1)
      {
        var u :| u in Past(g.deps, v) && u.key == w && Witness(g, target, u, k - 1);
        WitnessDown(g, target, u, k - 1, j - 1);
      }
      SubsetCard(Vouchers(g, target, v, k - 1), Vouchers(g, target, v, j - 1));
      assert Vouchers(g, target, v, k - 1) == set w | w in g.indexers && Vouch(g, target, v, w, k - 1);
      assert Vouchers(g, target, v, j - 1) == set w | w in g.indexers && Vouch(g, target, v, w, j - 1);
    }
  }

  lemma MoreThanOne<T>(s: set<T>, x: T) returns (y: T)
    requires |s| >= 2
    ensures y in s && y != x
  {
    if s - {x} == {} {
      SubsetCard(s, {x});
    }
    y :| y in s - {x};
  }

  /** There is not exactly one indexer, or the only one has not seen the target. */
  ghost predicate Levelling(g: Graph, target: NodeId) {
    |g.indexers| != 1 || forall v :: v in g.deps && v.key in g.indexers ==> !Sees(g.deps, v, target)
  }

  /** A vote for a degree above 0 comes from another writer's earlier node. */
  lemma EarlierVoter(g: Graph, target: NodeId, v: NodeId, k: nat) returns (u: NodeId)
    requires Levelling(g, target) && Witness(g, target, v, k) && k > 0
    ensures u in Past(g.deps, v) && u != v && Witness(g, target, u, k - 1)
  {
    var voters := set w | w in g.indexers && Vouch(g, target, v, w, k - 1);
    SubsetCard(voters, g.indexers);
    var w :| w in voters;
    u :| u in Past(g.deps, v) && u.key == w && Witness(g, target, u, k - 1);
    if u == v {
      w := MoreThanOne(voters, v.key);
      u :| u in Past(g.deps, v) && u.key == w && Witness(g, target, u, k - 1);
    }
  }

  /** Unless a sole indexer has seen the target, degrees are bounded by the history. */
  lemma {:induction false} WitnessBound(g: Graph, target: NodeId, v: NodeId, k: nat)
    requires Ok(g) && Levelling(g, target) && v in g.deps && Witness(g, target, v, k)
    ensures k <= |Past(g.deps, v)|
    decreases k
  {
    if k > 0 {
      var u := EarlierVoter(g, target, v, k);
      PastShrinks(g.deps, v, u);
      WitnessBound(g, target, u, k - 1);
    }
  }

  /** A sole indexer's node that sees the target witnesses every degree. */
  lemma {:induction false} SoleIndexerUnbounded(g: Graph, target: NodeId, v: NodeId, k: nat)
    requires Ok(g) && |g.indexers| == 1 && v in g.deps && v.key in g.indexers && Sees(g.deps, v, target)
    ensures Witness(g, target, v, k)
    decreases k
  {
    if k > 0 {
      SoleIndexerUnbounded(g, target, v, k - 1);
      SeesSelf(g.deps, v);
      assert Vouch(g, target, v, v.key, k - 1);
      SubsetCard({v.key}, set w | w in g.indexers && Vouch(g, target, v, w, k - 1));
    }
  }

  /** A delivered target has a highest degree exactly when no sole indexer has seen it. */
  lemma DegreeExists(g: Graph, target: NodeId)
    requires Ok(g) && target in g.deps
    ensures (exists d :: IsDegree(g, target, d)) <==> Levelling(g, target)
  {
    if Levelling(g, target) {
      HighestDegree(g, target, |g.deps|);
    } else {
      var v :| v in g.deps && v.key in g.indexers && Sees(g.deps, v, target);
      forall d: nat
        ensures !IsDegree(g, target, d)
      {
        SoleIndexerUnbounded(g, target, v, d + 1);
      }
    }
  }

  /** Descend from a bound on every degree to the highest one witnessed. */
  lemma {:induction false} HighestDegree(g: Graph, target: NodeId, top: nat)
    requires Ok(g) && target in g.deps && Levelling(g, target)
    requires forall v, k: nat :: v in g.deps && Witness(g, target, v, k) && k > top ==> k > |g.deps|
    ensures exists d :: IsDegree(g, target, d)
    decreases top
  {
    SeesSelf(g.deps, target);
    assert Witness(g, target, target, 0);
    forall v, k: nat | v in g.deps && Witness(g, target, v, k)
      ensures k <= top
    {
      WitnessBound(g, target, v, k);
      SubsetCard(Past(g.deps, v), g.deps.Keys);
    }
    if exists v :: v in g.deps && Witness(g, target, v, top) {
      assert IsDegree(g, target, top);
    } else {
      HighestDegree(g, target, top - 1);
    }
  }

  /** One node written by the only indexer: its degree has no highest value. */
  lemma SoleVoteHasNoDegree()
    ensures var n := NodeId(0, 0);
            var g := Graph(map[n := {}], {0});
            Ok(g) && n in g.deps && !exists d :: IsDegree(g, n, d)
  {
    var n := NodeId(0, 0);
    var g := Graph(map[n := {}], {0});
    assert Delivery(g.deps, [n]);
    SeesSelf(g.deps, n);
    DegreeExists(g, n);
  }

  // ---------------------------------------------------------------- the one-pass table

  /** `bd` records, per indexer, the best degree reached in `v`'s history. */
  ghost predicate TableAt(g: Graph, target: NodeId, v: NodeId, bd: map<nat, nat>) {
    forall w, k: nat :: Vouch(g, target, v, w, k) <==> w in bd && k <= bd[w]
  }

  /** Some dependency of `v` in `from` vouches. */
  ghost predicate VouchFrom(g: Graph, target: NodeId, from: set<NodeId>, w: nat, k: nat) {
    exists d :: d in from && Vouch(g, target, d, w, k)
  }

  ghost predicate TableFrom(g: Graph, target: NodeId, from: set<NodeId>, pre: map<nat, nat>) {
    forall w, k: nat :: VouchFrom(g, target, from, w, k) <==> w in pre && k <= pre[w]
  }

  function Join(pre: map<nat, nat>, bd: map<nat, nat>): map<nat, nat> {
    map w | w in pre.Keys + bd.Keys ::
      if w in pre && w in bd then (if pre[w] > bd[w] then pre[w] else bd[w]) else if w in pre then pre[w] else bd[w]
  }

  lemma JoinStep(g: Graph, target: NodeId, from: set<NodeId>, d: NodeId, pre: map<nat, nat>, bd: map<nat, nat>)
    requires TableFrom(g, target, from, pre) && TableAt(g, target, d, bd)
    ensures TableFrom(g, target, from + {d}, Join(pre, bd))
  {
    forall w, k: nat
      ensures VouchFrom(g, target, from + {d}, w, k) <==> w in Join(pre, bd) && k <= Join(pre, bd)[w]
    {
      assert VouchFrom(g, target, from, w, k) <==> w in pre && k <= pre[w];
      assert Vouch(g, target, d, w, k) <==> w in bd && k <= bd[w];
      if VouchFrom(g, target, from, w, k) {
        var e :| e in from && Vouch(g, target, e, w, k);
        assert e in from + {d};
      }
      if Vouch(g, target, d, w, k) {
        assert d in from + {d};
      }
    }
  }

  /** A node's history is itself and its dependencies' histories. */
  lemma VouchUnfold(g: Graph, target: NodeId, v: NodeId, w: nat, k: nat)
    requires Ok(g) && v in g.deps
    ensures Vouch(g, target, v, w, k)
      <==> VouchFrom(g, target, g.deps[v], w, k) || (w == v.key && w in g.indexers && Witness(g, target, v, k))
  {
    SeesSelf(g.deps, v);
    if Vouch(g, target, v, w, k) {
      var u :| u in Past(g.deps, v) && u.key == w && Witness(g, target, u, k);
      SeesUnfold(g.deps, v, u);
      if u != v {
        var d :| d in g.deps[v] && Sees(g.deps, d, u);
        assert Vouch(g, target, d, w, k);
      }
    }
    if VouchFrom(g, target, g.deps[v], w, k) {
      var d :| d in g.deps[v] && Vouch(g, target, d, w, k);
      var u :| u in Past(g.deps, d) && u.key == w && Witness(g, target, u, k);
      SeesStep(g.deps, v, d, u);
    }
  }

  /** Other indexers already at `level` in the table. */
  function Others(indexers: set<nat>, author: nat, pre: map<nat, nat>, level: nat): set<nat> {
    set w | w in indexers && w != author && w in pre && pre[w] >= level
  }

  lemma VouchByTable(g: Graph, target: NodeId, v: NodeId, pre: map<nat, nat>, w: nat, level: nat)
    requires Ok(g) && v in g.deps && w in g.indexers && Witness(g, target, v, level)
    requires TableFrom(g, target, g.deps[v], pre)
    ensures Vouch(g, target, v, w, level) <==> w == v.key || (w in pre && pre[w] >= level)
  {
    VouchUnfold(g, target, v, w, level);
    assert VouchFrom(g, target, g.deps[v], w, level) <==> w in pre && level <= pre[w];
  }

  /** The level test of the loop is the definition. */
  lemma LevelTest(g: Graph, target: NodeId, v: NodeId, pre: map<nat, nat>, d: nat)
    requires Ok(g) && v in g.deps && d > 0 && Witness(g, target, v, d - 1)
    requires TableFrom(g, target, g.deps[v], pre)
    ensures Witness(g, target, v, d)
      <==> |Others(g.indexers, v.key, pre, d - 1)| + (if v.key in g.indexers then 1 else 0) >= Majority(g)
  {
    var voters := set w | w in g.indexers && Vouch(g, target, v, w, d - 1);
    var others := Others(g.indexers, v.key, pre, d - 1);
    forall w | w in g.indexers
      ensures Vouch(g, target, v, w, d - 1) <==> w == v.key || (w in pre && pre[w] >= d - 1)
    {
      VouchByTable(g, target, v, pre, w, d - 1);
    }
    hide Vouch, TableFrom, ValidDag;
    if v.key in g.indexers {
      assert voters == others + {v.key};
    } else {
      assert voters == others;
    }
  }

  /** Count the other indexers at `level`. */
  method CountOthers(indexers: set<nat>, author: nat, pre: map<nat, nat>, level: nat) returns (count: nat)
    ensures count == |Others(indexers, author, pre, level)|
  {
    count := 0;
    var todo := indexers;
    ghost var counted: set<nat> := {};
    while todo != {}
      invariant todo <= indexers && count == |counted| && counted !! todo
      invariant forall w :: w in indexers && w !in todo ==> (w in counted <==> w in Others(indexers, author, pre, level))
      invariant counted <= Others(indexers, author, pre, level)
      decreases todo
    {
      var w :| w in todo;
      todo := todo - {w};
      if w == author {
        continue;
      }
      if w in pre && pre[w] >= level {
        count := count + 1;
        counted := counted + {w};
      }
    }
    assert counted == Others(indexers, author, pre, level);
  }

  /** The degree `v` itself witnesses: raise the level until the vote fails. */
  method OwnDegree(g: Graph, target: NodeId, v: NodeId, pre: map<nat, nat>) returns (degree: nat)
    requires Ok(g) && Levelling(g, target) && v in g.deps && Sees(g.deps, v, target)
    requires TableFrom(g, target, g.deps[v], pre)
    ensures Witness(g, target, v, degree) && !Witness(g, target, v, degree + 1)
  {
    hide ValidDag, Sees, TableFrom, Past, Others, Levelling;
    degree := 0;
    WitnessZero(g, target, v);
    hide Witness;
    var selfVote := if v.key in g.indexers then 1 else 0;
    var d := 1;
    while true
      invariant d == degree + 1 && Witness(g, target, v, degree)
      decreases |Past(g.deps, v)| - degree
    {
      LevelTest(g, target, v, pre, d);
      var count := CountOthers(g.indexers, v.key, pre, d - 1);
      if count + selfVote >= Majority(g) {
        WitnessBound(g, target, v, d);
        degree := d;
        d := d + 1;
      } else {
        return;
      }
    }
  }

  lemma WitnessZero(g: Graph, target: NodeId, v: NodeId)
    ensures Witness(g, target, v, 0) <==> Sees(g.deps, v, target)
  {
  }

  /** Fold `v`'s own vote into what its dependencies recorded. */
  lemma OwnVote(g: Graph, target: NodeId, v: NodeId, pre: map<nat, nat>, degree: nat, bd: map<nat, nat>)
    requires Ok(g) && v in g.deps && TableFrom(g, target, g.deps[v], pre)
    requires Sees(g.deps, v, target) ==> Witness(g, target, v, degree) && !Witness(g, target, v, degree + 1)
    requires bd == if Sees(g.deps, v, target) && v.key in g.indexers then Join(pre, map[v.key := degree]) else pre
    ensures TableAt(g, target, v, bd)
  {
    forall w, k: nat
      ensures Vouch(g, target, v, w, k) <==> w in bd && k <= bd[w]
    {
      VouchUnfold(g, target, v, w, k);
      assert VouchFrom(g, target, g.deps[v], w, k) <==> w in pre && k <= pre[w];
      OwnLevels(g, target, v, degree, k);
    }
  }

  lemma OwnLevels(g: Graph, target: NodeId, v: NodeId, degree: nat, k: nat)
    requires Sees(g.deps, v, target) ==> Witness(g, target, v, degree) && !Witness(g, target, v, degree + 1)
    ensures Witness(g, target, v, k) <==> Sees(g.deps, v, target) && k <= degree
  {
    if Sees(g.deps, v, target) {
      if k <= degree {
        WitnessDown(g, target, v, degree, k);
      } else if Witness(g, target, v, k) {
        WitnessDown(g, target, v, k, degree + 1);
      }
    }
  }

  /** The table and reachability of every node processed so far. */
  ghost predicate Processed(g: Graph, target: NodeId, done: set<NodeId>, best: map<NodeId, map<nat, nat>>, sees: map<NodeId, bool>) {
    && best.Keys == done && sees.Keys == done && done <= g.deps.Keys
    && (forall v :: v in done ==> TableAt(g, target, v, best[v]))
    && (forall v :: v in done ==> (sees[v] <==> Sees(g.deps, v, target)))
  }

  /** Merge what the dependencies recorded. */
  method Merge(g: Graph, target: NodeId, v: NodeId, ghost done: set<NodeId>,
               best: map<NodeId, map<nat, nat>>, sees: map<NodeId, bool>)
    returns (pre: map<nat, nat>, seesTarget: bool)
    requires Ok(g) && v in g.deps && g.deps[v] <= done && Processed(g, target, done, best, sees)
    ensures TableFrom(g, target, g.deps[v], pre)
    ensures seesTarget <==> Sees(g.deps, v, target)
  {
    hide ValidDag, Sees, TableAt, TableFrom, Join;
    pre, seesTarget := map[], v == target;
    TableNone(g, target);
    var todo := g.deps[v];
    ghost var from: set<NodeId> := {};
    while todo != {}
      invariant from + todo == g.deps[v] && from !! todo && TableFrom(g, target, from, pre)
      invariant seesTarget <==> v == target || exists d :: d in from && Sees(g.deps, d, target)
      decreases todo
    {
      var d :| d in todo;
      todo := todo - {d};
      if sees[d] {
        seesTarget := true;
      }
      JoinStep(g, target, from, d, pre, best[d]);
      pre := Join(pre, best[d]);
      from := from + {d};
    }
    assert from == g.deps[v];
    SeesUnfold(g.deps, v, target);
  }

  lemma TableNone(g: Graph, target: NodeId)
    ensures TableFrom(g, target, {}, map[])
  {
  }

  /** The highest degree among the nodes processed so far, 0 before any sees the target. */
  ghost predicate DegreeSoFar(g: Graph, target: NodeId, done: set<NodeId>, degree: nat) {
    && (degree > 0 ==> exists v :: v in done && Witness(g, target, v, degree))
    && (forall v, k: nat :: v in done && Witness(g, target, v, k) ==> k <= degree)
  }

  lemma DegreeStep(g: Graph, target: NodeId, done: set<NodeId>, degree: nat, v: NodeId, own: nat)
    requires DegreeSoFar(g, target, done, degree)
    requires Sees(g.deps, v, target) ==> Witness(g, target, v, own) && !Witness(g, target, v, own + 1)
    ensures DegreeSoFar(g, target, done + {v}, if Sees(g.deps, v, target) && own > degree then own else degree)
  {
    forall u, k: nat | u in done + {v} && Witness(g, target, u, k)
      ensures k <= if Sees(g.deps, v, target) && own > degree then own else degree
    {
      if u == v {
        OwnLevels(g, target, v, own, k);
      }
    }
    if degree > 0 {
      var u :| u in done && Witness(g, target, u, degree);
      assert u in done + {v};
    }
    assert v in done + {v};
  }

  lemma DegreeEnds(g: Graph, target: NodeId, degree: nat)
    requires Ok(g) && target in g.deps && DegreeSoFar(g, target, g.deps.Keys, degree)
    ensures IsDegree(g, target, degree)
  {
    SeesSelf(g.deps, target);
    WitnessZero(g, target, target);
    if degree == 0 {
      assert target in g.deps && Witness(g, target, target, degree);
    } else {
      var v :| v in g.deps.Keys && Witness(g, target, v, degree);
      assert v in g.deps;
    }
  }

  lemma ProcessedStep(g: Graph, target: NodeId, done: set<NodeId>, best: map<NodeId, map<nat, nat>>,
                      sees: map<NodeId, bool>, v: NodeId, bd: map<nat, nat>, seesTarget: bool)
    requires Processed(g, target, done, best, sees) && v in g.deps && TableAt(g, target, v, bd)
    requires seesTarget <==> Sees(g.deps, v, target)
    ensures Processed(g, target, done + {v}, best[v := bd], sees[v := seesTarget])
  {
  }

  /** One node of the pass: merge, find its own degree, record its vote. */
  method Visit(g: Graph, target: NodeId, v: NodeId, ghost done: set<NodeId>,
               best: map<NodeId, map<nat, nat>>, sees: map<NodeId, bool>, degree: nat)
    returns (best': map<NodeId, map<nat, nat>>, sees': map<NodeId, bool>, degree': nat)
    requires Ok(g) && Levelling(g, target) && v in g.deps && g.deps[v] <= done
    requires Processed(g, target, done, best, sees) && DegreeSoFar(g, target, done, degree)
    ensures Processed(g, target, done + {v}, best', sees') && DegreeSoFar(g, target, done + {v}, degree')
  {
    hide ValidDag, Sees, Witness, TableAt, TableFrom, DegreeSoFar, Join, Processed, Levelling;
    var pre, seesTarget := Merge(g, target, v, done, best, sees);
    sees' := sees[v := seesTarget];
    var own := 0;
    if seesTarget {
      own := OwnDegree(g, target, v, pre);
    }
    var bd := if seesTarget && v.key in g.indexers then Join(pre, map[v.key := own]) else pre;
    OwnVote(g, target, v, pre, own, bd);
    ProcessedStep(g, target, done, best, sees, v, bd, seesTarget);
    DegreeStep(g, target, done, degree, v, own);
    best' := best[v := bd];
    degree' := degree;
    if seesTarget && own > degree {
      degree' := own;
    }
  }

  /** The quorum degree reached over `target`, wherever a highest one exists. */
  method QuorumDegree(g: Graph, dependents: Deps, target: NodeId) returns (degree: nat)
    requires Ok(g) && Inverse(g.deps, dependents)
    requires target in g.deps ==> Levelling(g, target)
    ensures target in g.deps ==> IsDegree(g, target, degree)
    ensures target !in g.deps ==> degree == 0
  {
    hide ValidDag, Inverse, DegreeSoFar, IsDegree, Order, Processed, IsTopological, Levelling;
    degree := 0;
    if target !in g.deps {
      return;
    }
    var best: map<NodeId, map<nat, nat>> := map[];
    var sees: map<NodeId, bool> := map[];
    ghost var done: set<NodeId> := {};
    DegreeNone(g, target);
    var order := PlainOrder(g.deps, dependents);
    OrderIsTopological(g.deps, g.deps.Keys);
    for i := 0 to |order|
      invariant forall n :: n in done <==> n in order[..i]
      invariant Processed(g, target, done, best, sees) && DegreeSoFar(g, target, done, degree)
    {
      var v := order[i];
      assert order[..i + 1] == order[..i] + [v];
      OrderedNext(g.deps, order, i, done);
      best, sees, degree := Visit(g, target, v, done, best, sees, degree);
      done := done + {v};
    }
    AllVisited(g.deps, order, done);
    DegreeEnds(g, target, degree);
  }

  lemma AllVisited(deps: Deps, order: seq<NodeId>, done: set<NodeId>)
    requires IsTopological(deps, deps.Keys, order) && forall n :: n in done <==> n in order[..|order|]
    ensures done == deps.Keys
  {
    assert order[..|order|] == order;
  }

  lemma DegreeNone(g: Graph, target: NodeId)
    ensures DegreeSoFar(g, target, {}, 0) && Processed(g, target, {}, map[], map[])
  {
  }

  lemma OrderedNext(deps: Deps, order: seq<NodeId>, i: nat, done: set<NodeId>)
    requires ValidDag(deps) && IsTopological(deps, deps.Keys, order) && i < |order|
    requires forall n :: n in done <==> n in order[..i]
    ensures order[i] in deps && order[i] !in done && deps[order[i]] <= done
  {
    assert order[i] in order;
    forall d | d in deps[order[i]]
      ensures d in done
    {
      assert d in deps.Keys;
    }
  }
}
