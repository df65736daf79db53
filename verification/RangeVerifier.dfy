/** The range proof's verifier as it runs. The ghost argument `b` of a verifying
    method is any block list: it has no part in what is computed. */
module RangeVerifier {
  import opened Prelude
  import opened Flat
  import opened Merkle
  import opened MerkleProof
  import opened MerkleTree
  import opened MerkleUpgrade
  import opened MerkleRange
  import opened UpgradeVerifier

  // ---------------------------------------------------------------- one level

  /** The least depth in a non-empty set. */
  method LeastDepth(nodes: set<nat>) returns (d: nat)
    requires nodes != {}
    ensures (exists i :: i in nodes && Depth(i) == d) && forall i :: i in nodes ==> d <= Depth(i)
  {
    hide Depth;
    var i :| i in nodes;
    d := Depth(i);
    var todo := nodes;
    while todo != {}
      invariant todo <= nodes && (exists i :: i in nodes && Depth(i) == d)
      invariant forall i :: i in nodes && i !in todo ==> d <= Depth(i)
      decreases |todo|
    {
      var j :| j in todo;
      if Depth(j) < d {
        d := Depth(j);
      }
      todo := todo - {j};
    }
  }

  /** What every level keeps, whatever the proof: active nodes are known under their own
      indices, and if they are all true then so is the claim. */
  ghost predicate Binding(have: map<nat, Node>, active: set<nat>, claim: bool, b: seq<Bytes>) {
    && Indexed(have) && active <= have.Keys && (AllTrue(have, active, b) ==> claim)
  }

  lemma BindingStep(have: map<nat, Node>, active: set<nat>, claim: bool, b: seq<Bytes>, c: nat, sib: Node)
    requires Binding(have, active, claim, b) && c in active && Parent(c) !in active
    requires sib.index == Sibling(c) && (Sibling(c) in have ==> sib == have[Sibling(c)])
    ensures Binding(have[Parent(c) := ClimbStep(have[c], sib)], Merged(active, c), claim, b)
  {
    hide AllTrue, ClimbStep, Parent, Sibling, Indexed;
    StepIndexed(have, c, sib);
    if AllTrue(have[Parent(c) := ClimbStep(have[c], sib)], Merged(active, c), b) {
      MergeCommits(have, active, c, sib, b);
    }
  }

  /** What an honest climb keeps. */
  ghost predicate Truthful(have: map<nat, Node>, active: set<nat>, todo: set<nat>,
                           b: seq<Bytes>, start: nat, end: nat, d: nat) {
    && Holds(have, b) && Front(active, todo, |b|, start, end, d)
  }

  lemma ClimbableParent(n: nat, start: nat, end: nat, rootSet: set<nat>, c: nat)
    requires Touches(n, start, end, c) && (forall i :: i in rootSet <==> IsRoot(n, i)) && c !in rootSet
    ensures End(Parent(c)) <= n
  {
    hide Parent, First, End;
    assert !IsRoot(n, c);
  }

  lemma FrontTouches(active: set<nat>, todo: set<nat>, n: nat, start: nat, end: nat, d: nat, c: nat)
    requires Front(active, todo, n, start, end, d) && c in active
    ensures Touches(n, start, end, c)
  {
  }

  /** The sibling an honest climb asks for is there, and true. */
  lemma SiblingThere(have: map<nat, Node>, table: map<nat, Node>, active: set<nat>, todo: set<nat>, rootSet: set<nat>,
                     b: seq<Bytes>, start: nat, end: nat, d: nat, c: nat)
    requires Truthful(have, active, todo, b, start, end, d) && Level(active, todo, rootSet, d)
    requires Supplied(table, rootSet, b, start, end) && active <= have.Keys
    requires c in todo && c in active && c !in rootSet
    ensures End(Parent(c)) <= |b| && End(Sibling(c)) <= |b|
    ensures Sibling(c) in have || Sibling(c) in table
    ensures Sibling(c) in have ==> have[Sibling(c)] == At(b, Sibling(c))
    ensures Sibling(c) in table ==> table[Sibling(c)] == At(b, Sibling(c))
  {
    hide At, Parent, Sibling, First, End, Level, Front, Needed, IsRoot;
    FrontTouches(active, todo, |b|, start, end, d, c);
    ClimbableParent(|b|, start, end, rootSet, c);
    OffFront(active, todo, rootSet, |b|, start, end, d, c);
  }

  lemma TruthfulStep(have: map<nat, Node>, active: set<nat>, todo: set<nat>, rootSet: set<nat>,
                     b: seq<Bytes>, start: nat, end: nat, d: nat, c: nat, sib: Node)
    requires Truthful(have, active, todo, b, start, end, d) && Level(active, todo, rootSet, d)
    requires c in todo && c in active && c in have && End(Parent(c)) <= |b| && End(Sibling(c)) <= |b|
    requires sib == At(b, Sibling(c))
    ensures Truthful(have[Parent(c) := ClimbStep(have[c], sib)], Merged(active, c), todo - {c}, b, start, end, d)
  {
    hide At, Parent, Sibling, First, End, Level, Front, Holds, ClimbStep, Merged;
    FrontStep(active, todo, rootSet, |b|, start, end, d, c);
    MergeTrue(have, c, sib, b);
  }

  lemma TruthfulSkip(have: map<nat, Node>, active: set<nat>, todo: set<nat>, rootSet: set<nat>,
                     b: seq<Bytes>, start: nat, end: nat, d: nat, c: nat)
    requires Truthful(have, active, todo, b, start, end, d) && Level(active, todo, rootSet, d)
    requires c in todo && c !in active
    ensures Truthful(have, active, todo - {c}, b, start, end, d)
  {
    hide At, Parent, Sibling, First, End, Level, Front, Holds;
    FrontStep(active, todo, rootSet, |b|, start, end, d, c);
  }

  lemma BindingHas(have: map<nat, Node>, active: set<nat>, claim: bool, b: seq<Bytes>, i: nat)
    requires Binding(have, active, claim, b)
    ensures i in active ==> i in have
    ensures i in have ==> have[i].index == i
    ensures active <= have.Keys && Indexed(have)
  {
  }

  datatype State = State(have: map<nat, Node>, active: set<nat>)

  /** Merge every node of `level` with its sibling; none if a sibling is nowhere to be found. */
  method ClimbLevel(have0: map<nat, Node>, active0: set<nat>, level: set<nat>, table: map<nat, Node>,
                    ghost rootSet: set<nat>, ghost d: nat, ghost claim: bool, ghost honest: bool,
                    ghost b: seq<Bytes>, ghost start: nat, ghost end: nat)
    returns (r: Option<State>)
    requires Level(active0, level, rootSet, d) && Binding(have0, active0, claim, b) && Indexed(table)
    requires forall i :: i in level ==> i !in rootSet
    requires honest ==> Supplied(table, rootSet, b, start, end) && Truthful(have0, active0, level, b, start, end, d)
    ensures honest ==> r.Some?
    ensures r.Some? ==> Level(r.value.active, {}, rootSet, d) && Binding(r.value.have, r.value.active, claim, b)
    ensures r.Some? && honest ==> Truthful(r.value.have, r.value.active, {}, b, start, end, d)
  {
    hide Level, Binding, Supplied, Truthful, At, Sibling, Parent, Depth, End, First, ClimbStep, Merged;
    var have: map<nat, Node>, active: set<nat>, todo: set<nat> := have0, active0, level;
    while todo != {}
      invariant todo <= level
      invariant Level(active, todo, rootSet, d) && Binding(have, active, claim, b)
      invariant honest ==> Truthful(have, active, todo, b, start, end, d)
      decreases |todo|
    {
      var cur :| cur in todo;
      LevelStep(active, todo, rootSet, d, cur);
      if cur !in active {
        if honest {
          TruthfulSkip(have, active, todo, rootSet, b, start, end, d, cur);
        }
      } else {
        BindingHas(have, active, claim, b, cur);
        var sibIdx := Sibling(cur);
        BindingHas(have, active, claim, b, sibIdx);
        if honest {
          SiblingThere(have, table, active, todo, rootSet, b, start, end, d, cur);
        }
        if sibIdx !in have && sibIdx !in table {
          return None;
        }
        var sib := if sibIdx in have then have[sibIdx] else table[sibIdx];
        ParentInactive(active, todo, rootSet, d, cur);
        BindingStep(have, active, claim, b, cur, sib);
        if honest {
          TruthfulStep(have, active, todo, rootSet, b, start, end, d, cur, sib);
        }
        StepIs(have[cur], sib);
        have := have[Parent(cur) := ClimbStep(have[cur], sib)];
        active := Merged(active, cur);
      }
      todo := todo - {cur};
    }
    r := Some(State(have, active));
  }

  lemma StepIs(node: Node, sib: Node)
    ensures ClimbStep(node, sib) == if sib.index < node.index then Combine(Parent(node.index), sib, node)
                                    else Combine(Parent(node.index), node, sib)
  {
  }

  // ---------------------------------------------------------------- the verifier

  method HashLeaves(p: RangeProof, data: seq<Bytes>) returns (have: Option<map<nat, Node>>)
    requires |data| == |p.leafSizes|
    ensures have.Some? <==> forall k :: 0 <= k < |data| ==> |data[k]| == p.leafSizes[k]
    ensures have.Some? ==> Indexed(have.value) && forall i :: i in have.value <==> i in Leaves(p.start, p.start + |data|)
    ensures have.Some? ==> LeavesOf(have.value, data, p.start)
  {
    var m: map<nat, Node> := map[];
    for k := 0 to |data|
      invariant forall j :: 0 <= j < k ==> |data[j]| == p.leafSizes[j]
      invariant Indexed(m) && forall i :: i in m <==> i in Leaves(p.start, p.start + k)
      invariant LeavesOf(m, data[..k], p.start)
    {
      if |data[k]| != p.leafSizes[k] {
        return None;
      }
      MoreLeaves(p.start, p.start + k);
      var idx := (p.start + k) * 2;
      m := m[idx := Node(idx, LeafHash(data[k]), |data[k]|)];
    }
    assert data[..|data|] == data;
    have := Some(m);
  }

  lemma MoreLeaves(start: nat, end: nat)
    requires start <= end
    ensures Leaves(start, end + 1) == Leaves(start, end) + {2 * end}
  {
  }

  /** Climb until every active node is a root. */
  method ClimbToRoots(have0: map<nat, Node>, active0: set<nat>, table: map<nat, Node>, rootSet: set<nat>,
                      ghost claim: bool, ghost honest: bool, ghost b: seq<Bytes>, ghost start: nat, ghost end: nat)
    returns (r: Option<State>)
    requires Levelled(active0, rootSet, 0) && Binding(have0, active0, claim, b) && Indexed(table)
    requires honest ==> Supplied(table, rootSet, b, start, end) && Holds(have0, b)
    requires honest ==> Covers(active0, |b|, start, end, 0) && Log2(|b|) < 256
    ensures r.Some? ==> Binding(r.value.have, r.value.active, claim, b) && r.value.active <= rootSet
    ensures honest ==> r.Some? && Holds(r.value.have, b)
  {
    hide Level, Levelled, Binding, Supplied, Truthful, Front, Covers, Holds, Depth, Log2, Indexed;
    var have: map<nat, Node>, active: set<nat>, guard := have0, active0, 0;
    while exists i :: i in active && i !in rootSet
      invariant 0 <= guard <= MAX_LEVELS
      invariant Levelled(active, rootSet, guard) && Binding(have, active, claim, b)
      invariant honest ==> Holds(have, b) && Covers(active, |b|, start, end, guard)
      decreases MAX_LEVELS - guard
    {
      ghost var d := guard;
      guard := guard + 1;
      var climbing := Climbing(active, rootSet);
      assert climbing != {} by {
        var i :| i in active && i !in rootSet;
        assert i in climbing;
      }
      var least := LeastDepth(climbing);
      LevelIs(active, rootSet, d, least);
      var level := set i | i in climbing && Depth(i) == least;
      assert level == climbing;
      if guard > MAX_LEVELS {
        if honest {
          TooDeep(active, rootSet, b, start, end, d);
        }
        return None;
      }
      LevelStart(active, rootSet, d);
      if honest {
        SuppliedRoots(table, rootSet, b, start, end);
        FrontStart(active, rootSet, |b|, start, end, d);
        TruthfulIs(have, active, level, b, start, end, d);
      }
      var next := ClimbLevel(have, active, level, table, rootSet, d, claim, honest, b, start, end);
      if next.None? {
        return None;
      }
      have, active := next.value.have, next.value.active;
      LevelEnd(active, rootSet, d);
      if honest {
        TruthfulIs(have, active, {}, b, start, end, d);
        FrontEnd(active, |b|, start, end, d);
      }
    }
    r := Some(State(have, active));
  }

  lemma TruthfulIs(have: map<nat, Node>, active: set<nat>, todo: set<nat>, b: seq<Bytes>, start: nat, end: nat, d: nat)
    ensures Truthful(have, active, todo, b, start, end, d) <==> Holds(have, b) && Front(active, todo, |b|, start, end, d)
  {
    hide Holds, Front;
  }

  lemma SuppliedRoots(table: map<nat, Node>, rootSet: set<nat>, b: seq<Bytes>, start: nat, end: nat)
    requires Supplied(table, rootSet, b, start, end)
    ensures (forall i :: i in rootSet <==> IsRoot(|b|, i)) && start < end
  {
    hide Holds, IsRoot, Needed;
  }

  lemma LevelIs(active: set<nat>, rootSet: set<nat>, d: nat, least: nat)
    requires Levelled(active, rootSet, d) && exists i :: i in Climbing(active, rootSet) && Depth(i) == least
    ensures least == d && forall i :: i in Climbing(active, rootSet) ==> Depth(i) == d
  {
    hide Depth;
  }

  lemma TooDeep(active: set<nat>, rootSet: set<nat>, b: seq<Bytes>, start: nat, end: nat, d: nat)
    requires Levelled(active, rootSet, d) && Covers(active, |b|, start, end, d) && exists i :: i in active && i !in rootSet
    ensures d <= Log2(|b|)
  {
    hide Depth, Log2, End, First;
    var i :| i in active && i !in rootSet;
    TouchDepth(|b|, start, end, i);
  }

  /** Substitute every recomputed root. */
  method SubstituteAll(roots0: seq<Node>, st: State, ghost b: seq<Bytes>, ghost honest: bool)
    returns (r: Option<seq<Node>>)
    requires st.active <= st.have.Keys && Indexed(st.have)
    requires honest ==> roots0 == RootNodes(b) && Holds(st.have, b) && forall i :: i in st.active ==> IsRoot(|b|, i)
    ensures r.Some? ==> forall i :: i in st.active ==> st.have[i] in r.value
    ensures honest ==> r == Some(roots0)
  {
    hide At, End, Parent, IsRoot, RootNodes, Holds;
    var roots, todo := roots0, st.active;
    while todo != {}
      invariant todo <= st.active && forall i :: i in st.active && i !in todo ==> st.have[i] in roots
      invariant honest ==> roots == roots0
      decreases |todo|
    {
      var idx :| idx in todo;
      var node := st.have[idx];
      var next := SubstituteIn(roots, node);
      if honest {
        HoldsAt(st.have, b, idx);
        SubstituteTrue(b, idx);
      }
      if next.None? {
        return None;
      }
      SubstituteKeeps(roots, node);
      roots := next.value;
      todo := todo - {idx};
    }
    r := Some(roots);
  }

  lemma HoldsAt(nodes: map<nat, Node>, b: seq<Bytes>, i: nat)
    requires Holds(nodes, b) && i in nodes
    ensures End(i) <= |b| && nodes[i] == At(b, i)
  {
  }

  lemma SubstituteKeeps(roots: seq<Node>, top: Node)
    requires Substitute(roots, top).Some?
    ensures top in Substitute(roots, top).value
    ensures forall n :: n in roots && n.index != top.index ==> n in Substitute(roots, top).value
  {
    SubstituteFacts(roots, top);
    var rs := Substitute(roots, top).value;
    forall n | n in roots && n.index != top.index
      ensures n in rs
    {
      var k :| 0 <= k < |roots| && roots[k] == n;
      assert rs[k] == n;
    }
  }

  /** The run of an honest proof: `b`'s root hash, data, roots and needed nodes. */
  ghost predicate HonestRun(p: RangeProof, data: seq<Bytes>, root: Hash, b: seq<Bytes>) {
    root == RootHash(b) && HonestRange(p, b) && data == b[p.start..p.end] && Log2(|b|) < 256
  }

  lemma HonestShape(p: RangeProof, data: seq<Bytes>, root: Hash, b: seq<Bytes>)
    requires HonestRun(p, data, root, b)
    ensures p.start < p.end <= |b| && |p.leafSizes| == p.end - p.start == |data|
    ensures forall k :: 0 <= k < |data| ==> |data[k]| == p.leafSizes[k]
    ensures Matches(data, p.start, b) && p.roots == RootNodes(b) && root == TreeHash(p.roots) && Log2(|b|) < 256
  {
    hide At, Needed, RootNodes, End, Log2, Names;
  }

  /** How the climb begins. */
  lemma ClimbStart(p: RangeProof, data: seq<Bytes>, have: map<nat, Node>, root: Hash, b: seq<Bytes>)
    requires p.end == p.start + |data| && data != [] && Indexed(have)
    requires forall i :: i in have <==> i in Leaves(p.start, p.end)
    requires LeavesOf(have, data, p.start)
    ensures var active, rootSet := Leaves(p.start, p.end), RootIndices(p.roots);
            && Binding(have, active, Matches(data, p.start, b), b) && Levelled(active, rootSet, 0)
            && Indexed(IndexedBy(p.nodes, map[]))
            && (HonestRun(p, data, root, b) ==>
                && Supplied(IndexedBy(p.nodes, map[]), rootSet, b, p.start, p.end) && Holds(have, b)
                && Covers(active, |b|, p.start, p.end, 0))
  {
    hide Leaves, Matches, Levelled, Supplied, Covers, RootIndices, HonestRange, IndexedBy, LeavesOf, RootHash, Log2, At, End;
    LeavesLevelled(p.start, p.end, RootIndices(p.roots));
    LeavesClaim(have, data, p.start, b);
    IndexedByFacts(p.nodes, map[]);
    if HonestRun(p, data, root, b) {
      HonestShape(p, data, root, b);
      HonestSupplies(p, b);
      LeavesCover(|b|, p.start, p.end);
    }
  }

  /** How it ends: the recomputed roots are the true ones. */
  lemma ClimbEnds(have: map<nat, Node>, active: set<nat>, roots: seq<Node>, data: seq<Bytes>, start: nat, b: seq<Bytes>)
    requires Binding(have, active, Matches(data, start, b), b) && TreeHash(roots) == RootHash(b)
    requires forall i :: i in active ==> i in have && have[i] in roots
    ensures start + |data| <= |b| && data == b[start..start + |data|]
  {
    hide At, End, RootHash;
    forall i | i in active
      ensures End(i) <= |b| && have[i] == At(b, i)
    {
      TrueRoot(b, roots, have[i]);
    }
  }

  lemma RunRoots(p: RangeProof, data: seq<Bytes>, root: Hash, b: seq<Bytes>)
    requires HonestRun(p, data, root, b)
    ensures forall i :: i in RootIndices(p.roots) ==> IsRoot(|b|, i)
  {
    hide HonestRange, IsRoot, Supplied, RootIndices;
    HonestSupplies(p, b);
    SuppliedRoots(IndexedBy(p.nodes, map[]), RootIndices(p.roots), b, p.start, p.end);
  }

  /** Verify `data` as the blocks `[start, end)`. For every block list `b` that the root hash is
      of: acceptance means the data is `b`'s, whatever boundary nodes and roots the proof
      carries; and a proof with `b`'s roots and the needed nodes is accepted for `b`'s data. */
  method VerifyRange(p: RangeProof, data: seq<Bytes>, root: Hash, ghost b: seq<Bytes>) returns (ok: bool)
    ensures ok && root == RootHash(b) ==> p.start < p.end <= |b| && data == b[p.start..p.end]
    ensures HonestRun(p, data, root, b) ==> ok
    ensures ok ==> p.start < p.end && |data| == |p.leafSizes| == p.end - p.start
    ensures ok ==> forall k :: 0 <= k < |data| ==> |data[k]| == p.leafSizes[k]
  {
    hide Binding, Levelled, Supplied, Holds, Covers, HonestRun, RootIndices, Leaves, RootHash, RootNodes, IsRoot, Matches,
         Indexed, IndexedBy, Log2, LeavesOf;
    ghost var honest := HonestRun(p, data, root, b);
    if honest {
      HonestShape(p, data, root, b);
    }
    if p.start >= p.end {
      return false;
    }
    var n := p.end - p.start;
    if |data| != n || |p.leafSizes| != n {
      return false;
    }
    var have := HashLeaves(p, data);
    if have.None? {
      return false;
    }
    var table := IndexRoots(p.nodes);
    var rootSet := RootIndices(p.roots);
    ghost var claim := Matches(data, p.start, b);
    ClimbStart(p, data, have.value, root, b);
    var st := ClimbToRoots(have.value, Leaves(p.start, p.end), table, rootSet, claim, honest, b, p.start, p.end);
    if st.None? {
      return false;
    }
    BindingHas(st.value.have, st.value.active, claim, b, 0);
    if honest {
      RunRoots(p, data, root, b);
    }
    var roots := SubstituteAll(p.roots, st.value, b, honest);
    if roots.None? {
      return false;
    }
    ok := TreeHash(roots.value) == root;
    if ok && root == RootHash(b) {
      ClimbEnds(st.value.have, st.value.active, roots.value, data, p.start, b);
    }
  }
}
