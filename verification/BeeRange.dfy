/** Ordered reads: the eager range, and the lazy iterator with an explicit stack that yields
    exactly the same entries. */
module BeeRange {
  import opened Prelude
  import opened BeeKeys
  import opened BeeNodes
  import opened BeeDelete

  /** Bounds of a read; an unset bound is open. */
  datatype Range = Range(gt: Option<Key>, gte: Option<Key>, lt: Option<Key>, lte: Option<Key>,
                         reverse: bool, limit: Option<nat>)

  predicate InBounds(b: Range, k: Key) {
    && (b.gt.Some? ==> LexLess(b.gt.value, k)) && (b.gte.Some? ==> !LexLess(k, b.gte.value))
    && (b.lt.Some? ==> LexLess(k, b.lt.value)) && (b.lte.Some? ==> !LexLess(b.lte.value, k))
  }

  function Filter(b: Range, s: seq<Entry>): seq<Entry> {
    if s == [] then []
    else if InBounds(b, s[0].key) then [s[0]] + Filter(b, s[1..])
    else Filter(b, s[1..])
  }

  function Reversed<T>(s: seq<T>): (r: seq<T>)
    ensures |r| == |s|
  {
    if s == [] then [] else Reversed(s[1..]) + [s[0]]
  }

  function Take(limit: Option<nat>, s: seq<Entry>): seq<Entry> {
    if limit.Some? && limit.value < |s| then s[..limit.value] else s
  }

  /** The entries of `s` in a range, in the order asked for, up to the limit. */
  function Ranged(b: Range, s: seq<Entry>): seq<Entry> {
    var kept := Filter(b, s);
    Take(b.limit, if b.reverse then Reversed(kept) else kept)
  }

  lemma {:induction false} ReversedJoin<T>(a: seq<T>, b: seq<T>)
    ensures Reversed(a + b) == Reversed(b) + Reversed(a)
  {
    if a == [] {
      assert a + b == b;
    } else {
      ReversedJoin(a[1..], b);
      assert (a + b)[1..] == a[1..] + b;
    }
  }

  lemma {:induction false} FilterJoin(r: Range, a: seq<Entry>, b: seq<Entry>)
    ensures Filter(r, a + b) == Filter(r, a) + Filter(r, b)
  {
    if a == [] {
      assert a + b == b;
    } else {
      FilterJoin(r, a[1..], b);
      assert (a + b)[1..] == a[1..] + b;
    }
  }

  lemma {:induction false} FilterReversed(r: Range, s: seq<Entry>)
    ensures Filter(r, Reversed(s)) == Reversed(Filter(r, s))
  {
    if s != [] {
      FilterReversed(r, s[1..]);
      FilterJoin(r, Reversed(s[1..]), [s[0]]);
    }
  }

  /** A key lies within every bound that is set, the inclusive ones included. */
  ghost predicate Within(b: Range, k: Key) {
    && (b.gt.Some? ==> Rank(b.gt.value) < Rank(k)) && (b.gte.Some? ==> Rank(b.gte.value) <= Rank(k))
    && (b.lt.Some? ==> Rank(k) < Rank(b.lt.value)) && (b.lte.Some? ==> Rank(k) <= Rank(b.lte.value))
  }

  lemma {:induction false} FilterIs(b: Range, s: seq<Entry>, e: Entry)
    ensures e in Filter(b, s) <==> e in s && Within(b, e.key)
  {
    hide Rank;
    if s != [] {
      FilterIs(b, s[1..], e);
      assert e in s <==> e == s[0] || e in s[1..];
      BoundsAre(b, s[0].key);
    }
  }

  lemma BoundsAre(b: Range, k: Key)
    ensures InBounds(b, k) <==> Within(b, k)
  {
    hide Rank, LexLess;
    if b.gt.Some? {
      RankOrder(b.gt.value, k);
    }
    if b.gte.Some? {
      RankOrder(k, b.gte.value);
    }
    if b.lt.Some? {
      RankOrder(k, b.lt.value);
    }
    if b.lte.Some? {
      RankOrder(b.lte.value, k);
    }
  }

  lemma {:induction false} FilterSorted(b: Range, s: seq<Entry>)
    requires Sorted(s)
    ensures Sorted(Filter(b, s))
  {
    hide Rank, InBounds;
    if s != [] {
      forall i, j | 0 <= i < j < |s[1..]|
        ensures Rank(s[1..][i].key) < Rank(s[1..][j].key)
      {
        assert s[1..][i] == s[i + 1] && s[1..][j] == s[j + 1];
      }
      FilterSorted(b, s[1..]);
      var rest := Filter(b, s[1..]);
      forall i | 0 <= i < |rest|
        ensures Rank(s[0].key) < Rank(rest[i].key)
      {
        FilterIs(b, s[1..], rest[i]);
        var j :| 0 <= j < |s[1..]| && s[1..][j] == rest[i];
        assert s[j + 1] == rest[i];
      }
    }
  }

  lemma {:induction false} ReversedAt<T>(s: seq<T>, i: nat)
    requires i < |s|
    ensures Reversed(s)[i] == s[|s| - 1 - i]
  {
    if i < |s| - 1 {
      ReversedAt(s[1..], i);
    }
  }

  /** A read without a limit gives exactly the entries within the bounds, by ascending key, or
      descending when reversed. */
  lemma RangedIs(b: Range, s: seq<Entry>, e: Entry)
    requires Sorted(s) && b.limit.None?
    ensures e in Ranged(b, s) <==> e in s && Within(b, e.key)
    ensures forall i, j :: 0 <= i < j < |Ranged(b, s)| ==>
              if b.reverse then Rank(Ranged(b, s)[j].key) < Rank(Ranged(b, s)[i].key)
              else Rank(Ranged(b, s)[i].key) < Rank(Ranged(b, s)[j].key)
  {
    hide Rank, Within, Filter;
    var kept := Filter(b, s);
    FilterIs(b, s, e);
    FilterSorted(b, s);
    forall i | 0 <= i < |kept|
      ensures Reversed(kept)[i] == kept[|kept| - 1 - i]
    {
      ReversedAt(kept, i);
    }
    if b.reverse && e in kept {
      var i :| 0 <= i < |kept| && kept[i] == e;
      assert Reversed(kept)[|kept| - 1 - i] == e;
    }
  }

  /** A limit keeps that many entries from the front of the unlimited read. */
  lemma LimitIs(b: Range, s: seq<Entry>)
    requires b.limit.Some?
    ensures var all := Ranged(b.(limit := None), s);
            Ranged(b, s) == if b.limit.value <= |all| then all[..b.limit.value] else all
  {
    SameFilter(b, b.(limit := None), s);
  }

  lemma {:induction false} SameFilter(a: Range, b: Range, s: seq<Entry>)
    requires a.gt == b.gt && a.gte == b.gte && a.lt == b.lt && a.lte == b.lte
    ensures Filter(a, s) == Filter(b, s)
  {
    if s != [] {
      SameFilter(a, b, s[1..]);
    }
  }

  // ---------------------------------------------------------------- what a frame has left

  /** The entries in traversal order. */
  ghost function Along(rev: bool, s: seq<Entry>): seq<Entry> {
    if rev then Reversed(s) else s
  }

  /** What a node has left from `slot` on: even slots are children, odd ones entries. */
  ghost function Ahead(es: seq<Entry>, ls: seq<seq<Entry>>, slot: nat, rev: bool): seq<Entry>
    requires ls == [] || |ls| == |es| + 1
  {
    var n, k := |es|, slot / 2;
    if ls == [] then
      if slot >= n then [] else if rev then Reversed(es[..n - slot]) else es[slot..]
    else if slot > 2 * n then []
    else if slot % 2 == 0 then
      if rev then Reversed(Weave(es[..n - k], ls[..n - k + 1])) else Weave(es[k..], ls[k..])
    else if rev then Reversed(Weave(es[..n - 1 - k], ls[..n - k]) + [es[n - 1 - k]])
    else [es[k]] + Weave(es[k + 1..], ls[k + 1..])
  }

  lemma AheadStart(es: seq<Entry>, ls: seq<seq<Entry>>, rev: bool)
    requires ls == [] || |ls| == |es| + 1
    ensures Ahead(es, ls, 0, rev) == Along(rev, Weave(es, ls))
  {
    assert es[..|es|] == es && ls[..|ls|] == ls && es[0..] == es && ls[0..] == ls;
  }

  lemma AheadLeaf(es: seq<Entry>, slot: nat, rev: bool)
    requires slot < |es|
    ensures Ahead(es, [], slot, rev) == [es[if rev then |es| - 1 - slot else slot]] + Ahead(es, [], slot + 1, rev)
  {
    if rev {
      var m := |es| - slot;
      assert es[..m] == es[..m - 1] + [es[m - 1]];
      ReversedJoin(es[..m - 1], [es[m - 1]]);
    }
  }

  lemma WeaveFront(es: seq<Entry>, ls: seq<seq<Entry>>, k: nat)
    requires |ls| == |es| + 1 && k <= |es|
    ensures k < |es| ==> Weave(es[k..], ls[k..]) == ls[k] + ([es[k]] + Weave(es[k + 1..], ls[k + 1..]))
    ensures k == |es| ==> Weave(es[k..], ls[k..]) == ls[k]
  {
    if k < |es| {
      assert es[k..][1..] == es[k + 1..] && ls[k..][1..] == ls[k + 1..];
    }
  }

  lemma WeaveBack(es: seq<Entry>, ls: seq<seq<Entry>>, m: nat)
    requires |ls| == |es| + 1 && m <= |es|
    ensures m > 0 ==> Weave(es[..m], ls[..m + 1]) == (Weave(es[..m - 1], ls[..m]) + [es[m - 1]]) + ls[m]
    ensures m == 0 ==> Weave(es[..m], ls[..m + 1]) == ls[m]
  {
    hide Weave;
    if m > 0 {
      WeaveCut(es[..m], ls[..m + 1], m - 1);
      assert es[..m][..m - 1] == es[..m - 1] && ls[..m + 1][..m] == ls[..m];
      assert es[..m][m..] == [] && ls[..m + 1][m..] == [ls[m]];
      WeaveOne(ls[m]);
    } else {
      assert es[..0] == [] && ls[..1] == [ls[0]];
      WeaveOne(ls[0]);
    }
  }

  /** An even slot is a child followed by the next slot. */
  lemma AheadChild(es: seq<Entry>, ls: seq<seq<Entry>>, slot: nat, rev: bool)
    requires |ls| == |es| + 1 && slot <= 2 * |es| && slot % 2 == 0
    ensures var k := slot / 2;
            Ahead(es, ls, slot, rev) == Along(rev, ls[if rev then |es| - k else k]) + Ahead(es, ls, slot + 1, rev)
  {
    hide Weave, Reversed;
    var k := slot / 2;
    assert (slot + 1) / 2 == k;
    if rev {
      var m := |es| - k;
      WeaveBack(es, ls, m);
      if m > 0 {
        ReversedJoin(Weave(es[..m - 1], ls[..m]) + [es[m - 1]], ls[m]);
      }
    } else {
      WeaveFront(es, ls, k);
    }
  }

  /** An odd slot is an entry followed by the next slot. */
  lemma AheadEntry(es: seq<Entry>, ls: seq<seq<Entry>>, slot: nat, rev: bool)
    requires |ls| == |es| + 1 && slot <= 2 * |es| && slot % 2 == 1
    ensures var k := slot / 2;
            Ahead(es, ls, slot, rev) == [es[if rev then |es| - 1 - k else k]] + Ahead(es, ls, slot + 1, rev)
  {
    hide Weave, Reversed;
    var k := slot / 2;
    assert (slot + 1) / 2 == k + 1;
    if rev {
      var m := |es| - 1 - k;
      ReversedJoin(Weave(es[..m], ls[..m + 1]), [es[m]]);
      ReversedOne(es[m]);
    }
  }

  lemma ReversedOne<T>(x: T)
    ensures Reversed([x]) == [x]
  {
  }

  // ---------------------------------------------------------------- the steps left

  /** Steps to walk all of the subtree under block `s`. */
  ghost function Cost(blocks: seq<Node>, s: nat): nat
    requires Formed(blocks) && s < |blocks|
    decreases s, 1
  {
    2 * |blocks[s].entries| + 2 + CostOf(blocks, blocks[s].children, s)
  }

  ghost function CostOf(blocks: seq<Node>, cs: seq<nat>, bound: nat): nat
    requires Formed(blocks) && bound <= |blocks| && Under(cs, bound)
    decreases bound, 0, |cs|
  {
    if cs == [] then 0 else Cost(blocks, cs[0]) + CostOf(blocks, cs[1..], bound)
  }

  lemma {:induction false} CostSplit(blocks: seq<Node>, a: seq<nat>, b: seq<nat>, bound: nat)
    requires Formed(blocks) && bound <= |blocks| && Under(a, bound) && Under(b, bound)
    ensures Under(a + b, bound) && CostOf(blocks, a + b, bound) == CostOf(blocks, a, bound) + CostOf(blocks, b, bound)
  {
    hide Cost, Formed;
    if a == [] {
      assert a + b == b;
    } else {
      CostSplit(blocks, a[1..], b, bound);
      assert (a + b)[1..] == a[1..] + b;
    }
  }

  lemma {:induction false} CostBound(blocks: seq<Node>, cs: seq<nat>, a: nat, b: nat)
    requires Formed(blocks) && a <= b <= |blocks| && Under(cs, a)
    ensures Under(cs, b) && CostOf(blocks, cs, a) == CostOf(blocks, cs, b)
  {
    hide Cost, Formed;
    if cs != [] {
      CostBound(blocks, cs[1..], a, b);
    }
  }

  /** Steps a node has left from `slot` on. */
  ghost function Toil(blocks: seq<Node>, n: Node, slot: nat, rev: bool): nat
    requires Formed(blocks) && Shaped(n, |blocks|)
  {
    var m, k := |n.entries|, (slot + 1) / 2;
    (if slot > 2 * m + 1 then 0 else 2 * m + 2 - slot)
    + if n.IsLeaf() || k > m then 0 else CostOf(blocks, if rev then n.children[..m - k + 1] else n.children[k..], |blocks|)
  }

  lemma ToilStart(blocks: seq<Node>, s: nat, rev: bool)
    requires Formed(blocks) && s < |blocks|
    ensures Shaped(blocks[s], |blocks|) && Toil(blocks, blocks[s], 0, rev) == Cost(blocks, s)
  {
    hide CostOf, Formed, NodeFlat, Flat, Under;
    var n := blocks[s];
    FlatIs(blocks, s);
    assert Shaped(n, s) by { FormedAt(blocks, s); }
    CostBound(blocks, n.children, s, |blocks|);
    CostNone(blocks, s);
    assert n.children[..|n.children|] == n.children && n.children[0..] == n.children;
  }

  lemma CostNone(blocks: seq<Node>, bound: nat)
    requires Formed(blocks) && bound <= |blocks|
    ensures CostOf(blocks, [], bound) == 0
  {
  }

  lemma FormedAt(blocks: seq<Node>, s: nat)
    requires Formed(blocks) && s < |blocks|
    ensures Shaped(blocks[s], s)
  {
  }

  /** A child is left for its own steps. */
  lemma ToilChild(blocks: seq<Node>, n: Node, slot: nat, rev: bool)
    requires Formed(blocks) && Shaped(n, |blocks|) && !n.IsLeaf() && slot <= 2 * |n.entries| && slot % 2 == 0
    ensures var m, k := |n.entries|, slot / 2;
            var c := n.children[if rev then m - k else k];
            c < |blocks| && Toil(blocks, n, slot, rev) > Toil(blocks, n, slot + 1, rev) + Cost(blocks, c)
  {
    hide Cost, CostOf, Formed;
    var m, k, cs := |n.entries|, slot / 2, n.children;
    assert (slot + 1) / 2 == k && (slot + 2) / 2 == k + 1;
    if rev {
      CostLast(blocks, cs, m - k);
    } else {
      CostFirst(blocks, cs, k);
    }
  }

  lemma CostLast(blocks: seq<Node>, cs: seq<nat>, j: nat)
    requires Formed(blocks) && Under(cs, |blocks|) && j < |cs|
    ensures CostOf(blocks, cs[..j + 1], |blocks|) == CostOf(blocks, cs[..j], |blocks|) + Cost(blocks, cs[j])
    ensures CostOf(blocks, [], |blocks|) == 0
  {
    hide Cost, Formed;
    assert cs[..j + 1] == cs[..j] + [cs[j]];
    CostSplit(blocks, cs[..j], [cs[j]], |blocks|);
  }

  lemma CostFirst(blocks: seq<Node>, cs: seq<nat>, k: nat)
    requires Formed(blocks) && Under(cs, |blocks|) && k < |cs|
    ensures CostOf(blocks, cs[k..], |blocks|) == Cost(blocks, cs[k]) + CostOf(blocks, cs[k + 1..], |blocks|)
    ensures CostOf(blocks, [], |blocks|) == 0
  {
    hide Cost, Formed;
    assert cs[k..][1..] == cs[k + 1..];
  }

  lemma ToilStep(blocks: seq<Node>, n: Node, slot: nat, rev: bool)
    requires Formed(blocks) && Shaped(n, |blocks|) && slot <= 2 * |n.entries| + 1 && (n.IsLeaf() || slot % 2 == 1)
    ensures Toil(blocks, n, slot, rev) > Toil(blocks, n, slot + 1, rev)
  {
    hide CostOf, Formed;
  }

  // ---------------------------------------------------------------- the iterator's stack

  datatype Frame = Frame(node: Node, slot: nat)

  ghost predicate FrameOk(blocks: seq<Node>, f: Frame) {
    && Shaped(f.node, |blocks|)
    && f.slot <= if f.node.IsLeaf() then |f.node.entries| else 2 * |f.node.entries| + 1
  }

  ghost predicate StackOk(blocks: seq<Node>, stack: seq<Frame>) {
    Formed(blocks) && forall i :: 0 <= i < |stack| ==> FrameOk(blocks, stack[i])
  }

  /** What a frame has left. */
  ghost function FrameAhead(blocks: seq<Node>, f: Frame, rev: bool): seq<Entry>
    requires Formed(blocks) && FrameOk(blocks, f)
  {
    Ahead(f.node.entries, Lists(blocks, f.node.children), f.slot, rev)
  }

  /** What the stack has left: the top frame first. */
  ghost function Rest(blocks: seq<Node>, stack: seq<Frame>, rev: bool): seq<Entry>
    requires StackOk(blocks, stack)
  {
    if stack == [] then []
    else FrameAhead(blocks, stack[|stack| - 1], rev) + Rest(blocks, stack[..|stack| - 1], rev)
  }

  ghost function Work(blocks: seq<Node>, stack: seq<Frame>, rev: bool): nat
    requires StackOk(blocks, stack)
  {
    if stack == [] then 0
    else
      var f := stack[|stack| - 1];
      Toil(blocks, f.node, f.slot, rev) + Work(blocks, stack[..|stack| - 1], rev)
  }

  /** The frame advanced one slot. */
  function Advanced(stack: seq<Frame>): seq<Frame>
    requires stack != []
  {
    var top := |stack| - 1;
    stack[top := Frame(stack[top].node, stack[top].slot + 1)]
  }

  lemma RestTop(blocks: seq<Node>, below: seq<Frame>, f: Frame, rev: bool)
    requires StackOk(blocks, below) && FrameOk(blocks, f)
    ensures StackOk(blocks, below + [f])
    ensures Rest(blocks, below + [f], rev) == FrameAhead(blocks, f, rev) + Rest(blocks, below, rev)
    ensures Work(blocks, below + [f], rev) == Toil(blocks, f.node, f.slot, rev) + Work(blocks, below, rev)
  {
    hide FrameAhead, Toil, FrameOk, Formed;
    assert (below + [f])[..|below|] == below;
  }

  lemma StackTop(blocks: seq<Node>, stack: seq<Frame>)
    requires StackOk(blocks, stack) && stack != []
    ensures var below, f := stack[..|stack| - 1], stack[|stack| - 1];
            stack == below + [f] && StackOk(blocks, below) && FrameOk(blocks, f) && Formed(blocks)
  {
    hide FrameOk, Formed;
  }

  /** A finished frame has nothing left. */
  lemma PopStep(blocks: seq<Node>, stack: seq<Frame>, rev: bool)
    requires StackOk(blocks, stack) && stack != []
    requires var f := stack[|stack| - 1]; f.slot >= if f.node.IsLeaf() then |f.node.entries| else 2 * |f.node.entries| + 1
    ensures var below := stack[..|stack| - 1];
            StackOk(blocks, below) && Rest(blocks, stack, rev) == Rest(blocks, below, rev)
            && Work(blocks, below, rev) < Work(blocks, stack, rev)
  {
    hide Rest, Work, CostOf, Formed, Weave;
    var below, f := stack[..|stack| - 1], stack[|stack| - 1];
    StackTop(blocks, stack);
    RestTop(blocks, below, f, rev);
    assert FrameAhead(blocks, f, rev) == [];
  }

  /** Emitting the entry of a leaf slot or an odd slot. */
  lemma EmitStep(blocks: seq<Node>, stack: seq<Frame>, rev: bool)
    requires StackOk(blocks, stack) && stack != []
    requires var f := stack[|stack| - 1];
             if f.node.IsLeaf() then f.slot < |f.node.entries| else f.slot <= 2 * |f.node.entries| && f.slot % 2 == 1
    ensures var f := stack[|stack| - 1];
            var k := if f.node.IsLeaf() then f.slot else f.slot / 2;
            var e := f.node.entries[if rev then |f.node.entries| - 1 - k else k];
            && StackOk(blocks, Advanced(stack)) && Rest(blocks, stack, rev) == [e] + Rest(blocks, Advanced(stack), rev)
            && Work(blocks, Advanced(stack), rev) < Work(blocks, stack, rev)
  {
    hide Rest, Work, Toil, Formed, Ahead, Lists;
    var below, f := stack[..|stack| - 1], stack[|stack| - 1];
    var f' := Frame(f.node, f.slot + 1);
    StackTop(blocks, stack);
    assert Advanced(stack) == below + [f'];
    RestTop(blocks, below, f, rev);
    RestTop(blocks, below, f', rev);
    ToilStep(blocks, f.node, f.slot, rev);
    if f.node.IsLeaf() {
      assert Lists(blocks, f.node.children) == [];
      AheadLeaf(f.node.entries, f.slot, rev);
    } else {
      AheadEntry(f.node.entries, Lists(blocks, f.node.children), f.slot, rev);
    }
  }

  /** Descending into the child of an even slot. */
  lemma DescendStep(blocks: seq<Node>, stack: seq<Frame>, rev: bool)
    requires StackOk(blocks, stack) && stack != []
    requires var f := stack[|stack| - 1]; !f.node.IsLeaf() && f.slot <= 2 * |f.node.entries| && f.slot % 2 == 0
    ensures var f := stack[|stack| - 1];
            var c := f.node.children[if rev then |f.node.entries| - f.slot / 2 else f.slot / 2];
            && c < |blocks|
            && var next := Advanced(stack) + [Frame(blocks[c], 0)];
               && StackOk(blocks, next) && Rest(blocks, next, rev) == Rest(blocks, stack, rev)
               && Work(blocks, next, rev) < Work(blocks, stack, rev)
  {
    hide Rest, Work, Toil, Formed, Ahead, Lists, Cost, Flat, Weave;
    var below, f := stack[..|stack| - 1], stack[|stack| - 1];
    var f' := Frame(f.node, f.slot + 1);
    StackTop(blocks, stack);
    assert Advanced(stack) == below + [f'];
    RestTop(blocks, below, f, rev);
    RestTop(blocks, below, f', rev);
    ToilChild(blocks, f.node, f.slot, rev);
    AheadChild(f.node.entries, Lists(blocks, f.node.children), f.slot, rev);
    var c := f.node.children[if rev then |f.node.entries| - f.slot / 2 else f.slot / 2];
    SeedStep(blocks, below + [f'], c, rev);
    assert FrameAhead(blocks, f, rev) == Along(rev, Flat(blocks, c)) + FrameAhead(blocks, f', rev);
    assert Along(rev, Flat(blocks, c)) + (FrameAhead(blocks, f', rev) + Rest(blocks, below, rev))
        == Along(rev, Flat(blocks, c)) + FrameAhead(blocks, f', rev) + Rest(blocks, below, rev);
  }

  /** Pushing a block puts its entries in front. */
  lemma SeedStep(blocks: seq<Node>, stack: seq<Frame>, c: nat, rev: bool)
    requires StackOk(blocks, stack) && c < |blocks|
    ensures var next := stack + [Frame(blocks[c], 0)];
            && StackOk(blocks, next) && Rest(blocks, next, rev) == Along(rev, Flat(blocks, c)) + Rest(blocks, stack, rev)
            && Work(blocks, next, rev) == Cost(blocks, c) + Work(blocks, stack, rev)
  {
    hide Rest, Work, Toil, Formed, Ahead, Lists, Cost, Flat, Weave;
    FlatIs(blocks, c);
    ToilStart(blocks, c, rev);
    RestTop(blocks, stack, Frame(blocks[c], 0), rev);
    AheadStart(blocks[c].entries, Lists(blocks, blocks[c].children), rev);
  }

  // ---------------------------------------------------------------- the iterator

  lemma FilterCons(b: Range, e: Entry, s: seq<Entry>)
    ensures Filter(b, [e] + s) == if InBounds(b, e.key) then [e] + Filter(b, s) else Filter(b, s)
  {
    assert ([e] + s)[1..] == s;
  }

  /** A lazy reader over the blocks it borrowed. */
  class RangeIter {
    const blocks: seq<Node>
    const bounds: Range
    var stack: seq<Frame>
    var start: Option<nat>
    var remaining: Option<nat>
    var done: bool

    ghost predicate Valid()
      reads this
    {
      && StackOk(blocks, stack) && (start.Some? ==> start.value < |blocks| && stack == [])
    }

    /** The entries in range still to be read. */
    ghost function Left(): seq<Entry>
      requires Valid()
      reads this
    {
      Filter(bounds, if start.Some? then Along(bounds.reverse, Flat(blocks, start.value)) else Rest(blocks, stack, bounds.reverse))
    }

    /** What the iterator has yet to yield. */
    ghost function Pending(): seq<Entry>
      requires Valid()
      reads this
    {
      if done then [] else Take(remaining, Left())
    }

    /** Over the tree under `root`, if any: it will yield what the eager range returns. */
    constructor (blocks: seq<Node>, root: Option<nat>, bounds: Range)
      requires Formed(blocks) && (root.Some? ==> root.value < |blocks|)
      ensures Valid() && Pending() == Ranged(bounds, if root.Some? then Flat(blocks, root.value) else [])
    {
      this.blocks, this.bounds := blocks, bounds;
      stack, start, remaining, done := [], root, bounds.limit, false;
      new;
      FilterReversed(bounds, if root.Some? then Flat(blocks, root.value) else []);
    }

    /** Count one yielded entry against the limit. */
    method DecLimit()
      requires remaining.Some? ==> remaining.value > 0
      modifies this`remaining, this`done
      ensures remaining == (if old(remaining).Some? then Some(old(remaining).value - 1) else None)
      ensures done == (old(done) || remaining == Some(0))
    {
      if remaining.Some? {
        remaining := Some(remaining.value - 1);
        if remaining.value == 0 {
          done := true;
        }
      }
    }

    /** One turn of the loop: pop a finished frame, descend, or come to an entry. */
    method Turn() returns (e: Option<Entry>)
      requires Valid() && start.None? && stack != []
      modifies this`stack
      ensures Valid() && Work(blocks, stack, bounds.reverse) < old(Work(blocks, stack, bounds.reverse))
      ensures old(Rest(blocks, stack, bounds.reverse))
              == (if e.Some? then [e.value] else []) + Rest(blocks, stack, bounds.reverse)
    {
      hide StackOk, Rest, Work, Formed, Flat;
      var reverse := bounds.reverse;
      var frame := |stack| - 1;
      var node, slot := stack[frame].node, stack[frame].slot;
      var n := |node.entries|;
      StackTop(blocks, stack);
      e := None;
      if node.IsLeaf() {
        if slot >= n {
          PopStep(blocks, stack, reverse);
          stack := stack[..frame];
        } else {
          EmitStep(blocks, stack, reverse);
          e := Some(node.entries[if reverse then n - 1 - slot else slot]);
          stack := Advanced(stack);
        }
      } else if slot > 2 * n {
        PopStep(blocks, stack, reverse);
        stack := stack[..frame];
      } else {
        var k := slot / 2;
        if slot % 2 == 0 {
          DescendStep(blocks, stack, reverse);
          var child := node.children[if reverse then n - k else k];
          stack := Advanced(stack) + [Frame(blocks[child], 0)];
        } else {
          EmitStep(blocks, stack, reverse);
          e := Some(node.entries[if reverse then n - 1 - k else k]);
          stack := Advanced(stack);
        }
      }
      assert [] + Rest(blocks, stack, reverse) == Rest(blocks, stack, reverse);
    }

    /** Yield the next entry, if any. */
    method Next() returns (r: Option<Entry>)
      requires Valid()
      modifies this
      ensures Valid()
      ensures r == if old(Pending()) == [] then None else Some(old(Pending())[0])
      ensures Pending() == if old(Pending()) == [] then [] else old(Pending())[1..]
    {
      hide StackOk, Rest, Work, Formed, Flat, InBounds, Filter, Along, Take;
      if done {
        return None;
      }
      ghost var left := Left();
      TakeFacts(remaining, left);
      if remaining == Some(0) {
        done := true;
        return None;
      }
      if start.Some? {
        SeedStep(blocks, stack, start.value, bounds.reverse);
        RestNone(blocks, stack, bounds.reverse);
        assert Along(bounds.reverse, Flat(blocks, start.value)) + [] == Along(bounds.reverse, Flat(blocks, start.value));
        stack := stack + [Frame(blocks[start.value], 0)];
        start := None;
      }
      while true
        invariant Valid() && start.None? && !done && remaining == old(remaining) && remaining != Some(0) && Left() == left
        decreases Work(blocks, stack, bounds.reverse)
      {
        if stack == [] {
          RestNone(blocks, stack, bounds.reverse);
          NoneLeft(bounds);
          done := true;
          return None;
        }
        ghost var rest := Rest(blocks, stack, bounds.reverse);
        var e := Turn();
        assert [] + Rest(blocks, stack, bounds.reverse) == Rest(blocks, stack, bounds.reverse);
        if e.Some? {
          FilterCons(bounds, e.value, Rest(blocks, stack, bounds.reverse));
          if InBounds(bounds, e.value.key) {
            TakeFacts(remaining, Left());
            TakeNext(remaining, e.value, Left());
            DecLimit();
            return e;
          }
        }
      }
    }
  }

  lemma TakeFacts(limit: Option<nat>, s: seq<Entry>)
    ensures limit == Some(0) ==> Take(limit, s) == []
    ensures s == [] ==> Take(limit, s) == []
  {
  }

  /** Counting one entry off the front. */
  lemma TakeNext(limit: Option<nat>, e: Entry, s: seq<Entry>)
    requires limit != Some(0)
    ensures var next := if limit.Some? then Some(limit.value - 1) else None;
            Take(limit, [e] + s) == [e] + Take(next, s) && (next == Some(0) ==> Take(next, s) == [])
  {
  }

  lemma RestNone(blocks: seq<Node>, stack: seq<Frame>, rev: bool)
    requires StackOk(blocks, stack)
    ensures StackOk(blocks, []) && Rest(blocks, [], rev) == []
  {
  }

  lemma NoneLeft(b: Range)
    ensures Filter(b, []) == []
  {
  }
}
