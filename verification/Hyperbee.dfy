/** The ordered key/value tree over a log: operations, batches and versions. */
module Hyperbee {
  import opened Prelude
  import opened BeeKeys
  import opened BeeNodes
  import opened BeePut
  import opened BeeDelete
  import opened BeeRange

  // ---------------------------------------------------------------- lookups by descent

  lemma {:induction false} LookupJoin(a: seq<Entry>, b: seq<Entry>, k: Key)
    ensures Lookup(a + b, k) == if Lookup(a, k).Some? then Lookup(a, k) else Lookup(b, k)
  {
    if a == [] {
      assert a + b == b;
    } else {
      LookupJoin(a[1..], b, k);
      assert (a + b)[1..] == a[1..] + b;
    }
  }

  /** A key's place decides where it can be found. */
  lemma LookupWithin(p: seq<Entry>, f: seq<Entry>, q: seq<Entry>, k: Key)
    requires AllBelow(p, k) && AllAbove(q, k)
    ensures Lookup(p + f + q, k) == Lookup(f, k)
  {
    hide Rank, Lookup;
    LookupJoin(p + f, q, k);
    LookupJoin(p, f, k);
    LookupIn(p, k);
    LookupIn(q, k);
    LookupIn(f, k);
  }

  /** What a search of node `n` settles, and what it leaves to child `i`. */
  lemma SearchNode(blocks: seq<Node>, n: Node, k: Key)
    requires Formed(blocks) && Shaped(n, |blocks|) && Sorted(NodeFlat(blocks, n))
    ensures var i := Pos(n.entries, k);
            && (FoundAt(n.entries, k, i) ==> Lookup(NodeFlat(blocks, n), k) == Some(n.entries[i].value))
            && (!FoundAt(n.entries, k, i) && n.IsLeaf() ==> Lookup(NodeFlat(blocks, n), k).None?)
            && (!FoundAt(n.entries, k, i) && !n.IsLeaf() ==>
                && Sorted(Flat(blocks, n.children[i])) && Lookup(NodeFlat(blocks, n), k) == Lookup(Flat(blocks, n.children[i]), k))
  {
    hide Flat, Formed, Rank, Pos, Lookup, Sorted, Lists, Weave, Before, After, AllBelow, AllAbove, NodeFlat;
    var i, es := Pos(n.entries, k), n.entries;
    if n.IsLeaf() {
      LeafFlat(blocks, n);
      LeafSearch(es, k);
      if FoundAt(es, k, i) {
        LookupWithin(es[..i], [es[i]], es[i + 1..], k);
        LookupSelf(es[i]);
      } else {
        LookupWithin(es[..i], [], es[i..], k);
        LookupNone(k);
      }
    } else if FoundAt(es, k, i) {
      FoundInner(blocks, n, i);
    } else {
      UnderChild(blocks, n, k);
      var ls := Lists(blocks, n.children);
      LookupWithin(Before(es[..i], ls[..i]), ls[i], After(es[i..], ls[i + 1..]), k);
    }
  }

  lemma LookupSelf(e: Entry)
    ensures Lookup([e], e.key) == Some(e.value)
  {
  }

  lemma LookupNone(k: Key)
    ensures Lookup([], k).None?
  {
  }

  lemma FoundInner(blocks: seq<Node>, n: Node, i: nat)
    requires Formed(blocks) && Shaped(n, |blocks|) && Sorted(NodeFlat(blocks, n)) && !n.IsLeaf() && i < |n.entries|
    ensures Lookup(NodeFlat(blocks, n), n.entries[i].key) == Some(n.entries[i].value)
  {
    hide Flat, Formed, Rank, Lookup, Sorted, Lists, Weave, AllBelow, AllAbove;
    var es, ls := n.entries, Lists(blocks, n.children);
    InnerFound(es, ls, i);
    LookupWithin(Weave(es[..i], ls[..i + 1]), [es[i]], Weave(es[i + 1..], ls[i + 1..]), es[i].key);
    LookupSelf(es[i]);
  }

  // ---------------------------------------------------------------- runs and versions

  datatype Op = PutOp(key: Key, value: seq<Byte>) | DelOp(key: Key)

  /** The blocks after one operation. */
  ghost function RunOp(blocks: seq<Node>, op: Op): seq<Node>
    requires Sound(blocks)
  {
    match op
    case PutOp(k, v) => PutAll(blocks, k, v)
    case DelOp(k) => DelAll(blocks, k).0
  }

  /** The map after one operation. */
  function Act(s: seq<Entry>, op: Op): seq<Entry> {
    match op
    case PutOp(k, v) => Put(s, k, v)
    case DelOp(k) => Remove(s, k)
  }

  function ActAll(s: seq<Entry>, ops: seq<Op>): seq<Entry> {
    if ops == [] then s else Act(ActAll(s, ops[..|ops| - 1]), ops[|ops| - 1])
  }

  lemma RunOpFacts(blocks: seq<Node>, op: Op)
    requires Sound(blocks)
    ensures Sound(RunOp(blocks, op)) && blocks <= RunOp(blocks, op) && Entries(RunOp(blocks, op)) == Act(Entries(blocks), op)
  {
    hide Sound, PutAll, DelAll, Entries, Put, Remove;
    match op
    case PutOp(k, v) => PutFacts(blocks, k, v);
    case DelOp(k) => DelFacts(blocks, k);
  }

  /** The blocks after a run of operations. */
  ghost function Run(blocks: seq<Node>, ops: seq<Op>): (r: seq<Node>)
    requires Sound(blocks)
    ensures Sound(r)
  {
    if ops == [] then blocks
    else
      var before := Run(blocks, ops[..|ops| - 1]);
      RunOpFacts(before, ops[|ops| - 1]);
      RunOp(before, ops[|ops| - 1])
  }

  /** Every run keeps the tree balanced and sorted, and acts as its puts and removals act on
      the map. */
  lemma {:induction false} RunFacts(blocks: seq<Node>, ops: seq<Op>)
    requires Sound(blocks)
    ensures Sound(Run(blocks, ops)) && blocks <= Run(blocks, ops) && Entries(Run(blocks, ops)) == ActAll(Entries(blocks), ops)
  {
    if ops != [] {
      var before := Run(blocks, ops[..|ops| - 1]);
      hide Sound, Entries, RunOp, Act;
      RunFacts(blocks, ops[..|ops| - 1]);
      RunOpFacts(before, ops[|ops| - 1]);
      PrefixTrans(blocks, before, Run(blocks, ops));
    }
  }

  lemma {:induction false} RunSplit(blocks: seq<Node>, a: seq<Op>, b: seq<Op>)
    requires Sound(blocks)
    ensures Run(blocks, a + b) == Run(Run(blocks, a), b)
    decreases |b|
  {
    hide Sound, RunOp, Run;
    if b == [] {
      assert a + b == a;
      RunNone(Run(blocks, a));
    } else {
      var m, ab := |b| - 1, a + b;
      RunSplit(blocks, a, b[..m]);
      RunLast(blocks, ab);
      RunLast(Run(blocks, a), b);
      assert ab[..|ab| - 1] == a + b[..m] && ab[|ab| - 1] == b[m];
    }
  }

  lemma RunNone(blocks: seq<Node>)
    requires Sound(blocks)
    ensures Run(blocks, []) == blocks
  {
  }

  lemma RunLast(blocks: seq<Node>, ops: seq<Op>)
    requires Sound(blocks) && ops != []
    ensures Run(blocks, ops) == RunOp(Run(blocks, ops[..|ops| - 1]), ops[|ops| - 1])
  {
    hide Sound, RunOp;
  }

  /** Old versions never change: the blocks up to the version after the first `i` operations
      are still those, and stand for the map as it was then. */
  lemma OldVersions(blocks: seq<Node>, ops: seq<Op>, i: nat)
    requires Sound(blocks) && i <= |ops|
    ensures var v := |Run(blocks, ops[..i])|; var now := Run(blocks, ops);
            && v <= |now| && now[..v] == Run(blocks, ops[..i])
            && Entries(Run(blocks, ops[..i])) == ActAll(Entries(blocks), ops[..i])
  {
    hide Sound, Entries, Run;
    RunFacts(blocks, ops[..i]);
    RunFacts(Run(blocks, ops[..i]), ops[i..]);
    RunSplit(blocks, ops[..i], ops[i..]);
    assert ops[..i] + ops[i..] == ops;
  }

  /** The tree at a version is the tree of the blocks up to it. */
  lemma VersionFlat(blocks: seq<Node>, v: nat)
    requires Formed(blocks) && 0 < v <= |blocks|
    ensures Formed(blocks[..v]) && Flat(blocks, v - 1) == Entries(blocks[..v])
  {
    hide Flat;
    FlatStays(blocks[..v], blocks, v - 1);
  }

  // ---------------------------------------------------------------- the tree

  /** A batch's blocks, and the log length they were staged on. */
  datatype Staging = Staging(base: nat, blocks: seq<Node>)

  class Bee {
    var core: seq<Node>
    var pending: Option<Staging>

    /** All blocks, the staged ones last. */
    ghost function Blocks(): seq<Node>
      reads this
    {
      if pending.Some? then core + pending.value.blocks else core
    }

    ghost predicate Valid()
      reads this
    {
      Sound(core) && Sound(Blocks()) && (pending.Some? ==> pending.value.base == |core|)
    }

    constructor ()
      ensures Valid() && core == [] && pending == None
    {
      core, pending := [], None;
    }

    /** Appending stages into an open batch and leaves the log alone. */
    twostate predicate Staged()
      reads this
    {
      && pending.Some? == old(pending.Some?)
      && (pending.Some? ==> core == old(core) && pending.value.base == old(pending.value.base))
    }

    function NodeAt(s: nat): (n: Node)
      requires s < |Blocks()|
      reads this
      ensures n == Blocks()[s]
    {
      if pending.Some? && s >= |core| then pending.value.blocks[s - |core|] else core[s]
    }

    function RootSeq(): (r: Option<nat>)
      reads this
      ensures r == if Blocks() == [] then None else Some(|Blocks()| - 1)
    {
      if pending.Some? && |pending.value.blocks| > 0 then Some(|core| + |pending.value.blocks| - 1)
      else if |core| == 0 then None
      else Some(|core| - 1)
    }

    method AppendNode(n: Node) returns (at: nat)
      modifies this
      ensures Blocks() == old(Blocks()) + [n] && at == |old(Blocks())| && Staged()
    {
      if pending.Some? {
        pending := Some(pending.value.(blocks := pending.value.blocks + [n]));
        at := |core| + |pending.value.blocks| - 1;
      } else {
        core := core + [n];
        at := |core| - 1;
      }
    }

    // -------------------------------------------------------------- reading

    /** Descend from block `start` looking up `key`. */
    method GetFrom(start: nat, key: Key) returns (r: Option<seq<Byte>>)
      requires Formed(Blocks()) && start < |Blocks()| && Sorted(Flat(Blocks(), start))
      ensures r == Lookup(Flat(Blocks(), start), key)
    {
      hide Flat, Formed, Sorted, Lookup, Pos, NodeFlat;
      var s: nat := start;
      while true
        invariant s < |Blocks()| && Sorted(Flat(Blocks(), s)) && Lookup(Flat(Blocks(), s), key) == Lookup(Flat(Blocks(), start), key)
        decreases s
      {
        var node := NodeAt(s);
        var i := Pos(node.entries, key);
        FlatIs(Blocks(), s);
        FormedAt(Blocks(), s);
        SearchNode(Blocks(), node, key);
        if FoundAt(node.entries, key, i) {
          return Some(node.entries[i].value);
        }
        if node.IsLeaf() {
          return None;
        }
        s := node.children[i];
      }
    }

    method Get(key: Key) returns (r: Option<seq<Byte>>)
      requires Valid()
      ensures r == Lookup(Entries(Blocks()), key)
    {
      if RootSeq().None? {
        return None;
      }
      r := GetFrom(RootSeq().value, key);
    }

    /** The value at a past version, which some operation ended at. */
    method GetAt(version: nat, key: Key) returns (r: Option<seq<Byte>>)
      requires Valid() && Sound(core[..if version < |core| then version else |core|])
      ensures r == Lookup(Entries(core[..if version < |core| then version else |core|]), key)
    {
      hide Flat, Sorted;
      var v := if version < |core| then version else |core|;
      if v == 0 {
        return None;
      }
      VersionFlat(core, v);
      FlatStays(core, Blocks(), v - 1);
      r := GetFrom(v - 1, key);
    }

    /** In-order traversal. */
    method Collect(s: nat, out0: seq<Entry>) returns (out: seq<Entry>)
      requires Formed(Blocks()) && s < |Blocks()|
      ensures out == out0 + Flat(Blocks(), s)
      decreases s
    {
      hide Flat, Formed, Weave, Before, Lists;
      var node := NodeAt(s);
      FlatIs(Blocks(), s);
      FormedAt(Blocks(), s);
      if node.IsLeaf() {
        LeafFlat(Blocks(), node);
        out := out0 + node.entries;
      } else {
        ghost var es, ls := node.entries, Lists(Blocks(), node.children);
        out := out0;
        BeforeNone(es[..0], ls[..0]);
        for i := 0 to |node.entries|
          invariant out == out0 + Before(es[..i], ls[..i])
        {
          out := Collect(node.children[i], out);
          out := out + [node.entries[i]];
          BeforeLast(es[..i + 1], ls[..i + 1]);
          assert es[..i + 1][..i] == es[..i] && ls[..i + 1][..i] == ls[..i];
        }
        var m := |node.entries|;
        out := Collect(node.children[m], out);
        WeaveAt(es, ls, m);
        AfterNone(es[m..], ls[m + 1..]);
        assert out == out0 + (Before(es[..m], ls[..m]) + ls[m] + []);
      }
    }

    /** All entries under `root` in the range, materialized. */
    method RangeFrom(root: Option<nat>, bounds: Range) returns (out: seq<Entry>)
      requires Formed(Blocks()) && (root.Some? ==> root.value < |Blocks()|)
      ensures out == Ranged(bounds, if root.Some? then Flat(Blocks(), root.value) else [])
    {
      hide Flat, Formed;
      out := [];
      if root.Some? {
        out := Collect(root.value, out);
        assert [] + Flat(Blocks(), root.value) == Flat(Blocks(), root.value);
      }
      out := Filter(bounds, out);
      if bounds.reverse {
        out := Reversed(out);
      }
      if bounds.limit.Some? {
        out := Take(bounds.limit, out);
      }
    }

    method RangeOf(bounds: Range) returns (out: seq<Entry>)
      requires Valid()
      ensures out == Ranged(bounds, Entries(Blocks()))
    {
      hide Flat, Ranged, Sorted, Rooted, Formed;
      out := RangeFrom(RootSeq(), bounds);
    }

    method RangeAt(version: nat, bounds: Range) returns (out: seq<Entry>)
      requires Valid()
      ensures var v := if version < |core| then version else |core|;
              Formed(core[..v]) && out == Ranged(bounds, Entries(core[..v]))
    {
      hide Flat, Sorted, Ranged;
      var v := if version < |core| then version else |core|;
      if v == 0 {
        out := RangeFrom(None, bounds);
      } else {
        VersionFlat(core, v);
        FlatStays(core, Blocks(), v - 1);
        out := RangeFrom(Some(v - 1), bounds);
      }
    }

    /** The lazy reader over the current tree. */
    method Iter(bounds: Range) returns (it: RangeIter)
      requires Valid()
      ensures fresh(it) && it.Valid() && it.Pending() == Ranged(bounds, Entries(Blocks()))
    {
      hide Flat, Ranged;
      var blocks := if pending.Some? then core + pending.value.blocks else core;
      it := new RangeIter(blocks, RootSeq(), bounds);
    }

    // -------------------------------------------------------------- put

    method FinishNode(n: Node) returns (r: Ins)
      modifies this
      ensures Blocks() == Finish(old(Blocks()), n).blocks && r == Finish(old(Blocks()), n).ins && Staged()
    {
      if |n.entries| < MAX_CHILDREN {
        var at := AppendNode(n);
        return Down(at);
      }
      ghost var before := Blocks();
      var median := n.entries[|n.entries| / 2];
      var left := AppendNode(LeftHalf(n));
      var right := AppendNode(RightHalf(n));
      assert before + [LeftHalf(n)] + [RightHalf(n)] == before + [LeftHalf(n), RightHalf(n)];
      r := Split(left, median, right);
    }

    method InsertAt(s: nat, key: Key, value: seq<Byte>) returns (r: Ins)
      requires Formed(Blocks()) && s < |Blocks()|
      modifies this
      ensures var x := Insert(old(Blocks()), s, key, value); Blocks() == x.blocks && r == x.ins
      ensures Staged()
      decreases s
    {
      hide Formed, Pos, Finish, WithEntry, WithLeaf, WithChild, WithSplit;
      var node := NodeAt(s);
      var i := Pos(node.entries, key);
      FormedAt(Blocks(), s);
      if FoundAt(node.entries, key, i) {
        node := WithEntry(node, i, Entry(node.entries[i].key, value));
        var at := AppendNode(node);
        r := Down(at);
      } else if node.IsLeaf() {
        node := WithLeaf(node, i, Entry(key, value));
        r := FinishNode(node);
      } else {
        var below := InsertAt(node.children[i], key, value);
        match below
        case Down(child) =>
          node := WithChild(node, i, child);
          var at := AppendNode(node);
          r := Down(at);
        case Split(left, median, right) =>
          node := WithSplit(node, i, left, median, right);
          r := FinishNode(node);
      }
    }

    /** Insert or overwrite `key`. */
    method PutKey(key: Key, value: seq<Byte>)
      requires Valid()
      modifies this
      ensures Valid() && Blocks() == RunOp(old(Blocks()), PutOp(key, value)) && Staged()
      ensures Entries(Blocks()) == Put(old(Entries(Blocks())), key, value)
    {
      hide Formed, Sound, Put, Insert, Entries;
      RunOpFacts(Blocks(), PutOp(key, value));
      SoundFormed(Blocks());
      if RootSeq().None? {
        var root := Node([Entry(key, value)], []);
        assert [] + [root] == [root];
        var _ := AppendNode(root);
      } else {
        var r := InsertAt(RootSeq().value, key, value);
        if r.Split? {
          var _ := AppendNode(Node([r.median], [r.left, r.right]));
        }
      }
      CoreSound();
    }

    lemma CoreSound()
      requires Sound(Blocks()) && (pending.Some? ==> Sound(core) && pending.value.base == |core|)
      ensures Valid()
    {
    }

    // -------------------------------------------------------------- del

    method BoundaryLen(start: nat, leftmost: bool) returns (len: nat)
      requires Formed(Blocks()) && start < |Blocks()|
      ensures len == BoundaryLeafLen(Blocks(), start, leftmost)
    {
      hide Formed;
      ghost var s: nat := start;
      var node := NodeAt(start);
      FormedAt(Blocks(), s);
      while !node.IsLeaf()
        invariant s < |Blocks()| && node == Blocks()[s] && Shaped(node, s)
        invariant BoundaryLeafLen(Blocks(), s, leftmost) == BoundaryLeafLen(Blocks(), start, leftmost)
        decreases s
      {
        var c := if leftmost then node.children[0] else node.children[|node.children| - 1];
        node := NodeAt(c);
        s := c;
        FormedAt(Blocks(), s);
      }
      len := |node.entries|;
    }

    /** Borrow for or merge the short child `i` of `n`. */
    method RebalanceChild(n: Node, i: nat) returns (r: Node)
      requires Shape(n, |Blocks()|) && 0 < |n.entries| && i <= |n.entries|
      modifies this
      ensures var x := Rebalance(old(Blocks()), n, i); Blocks() == x.blocks && r == x.node
      ensures Staged()
    {
      hide WithoutLast, WithoutFirst, TakeFromLeft, TakeFromRight, Joined;
      ghost var before := Blocks();
      if i > 0 {
        var left := NodeAt(n.children[i - 1]);
        if |left.entries| > MIN_KEYS {
          var child := NodeAt(n.children[i]);
          child := TakeFromLeft(left, n.entries[i - 1], child);
          var spare := left.entries[|left.entries| - 1];
          left := WithoutLast(left);
          var a := AppendNode(left);
          var b := AppendNode(child);
          assert before + [left] + [child] == before + [left, child];
          return WithPair(n, i - 1, a, spare, b);
        }
      }
      if i + 1 < |n.children| {
        var right := NodeAt(n.children[i + 1]);
        if |right.entries| > MIN_KEYS {
          var child := NodeAt(n.children[i]);
          child := TakeFromRight(child, n.entries[i], right);
          var spare := right.entries[0];
          right := WithoutFirst(right);
          var a := AppendNode(child);
          var b := AppendNode(right);
          assert before + [child] + [right] == before + [child, right];
          return WithPair(n, i, a, spare, b);
        }
      }
      var li := if i > 0 then i - 1 else i;
      var left, right := NodeAt(n.children[li]), NodeAt(n.children[li + 1]);
      left := Joined(left, n.entries[li], right);
      var merged := AppendNode(left);
      r := WithMerged(n, li, merged);
    }

    method FixNode(n: Node, i: nat, under: bool) returns (r: Del)
      requires Shape(n, |Blocks()|) && 0 < |n.entries| && i <= |n.entries|
      modifies this
      ensures var x := FixChild(old(Blocks()), n, i, under); Blocks() == x.blocks && r == x.del
      ensures Staged()
    {
      hide Rebalance;
      var node := n;
      if under {
        node := RebalanceChild(node, i);
      }
      var at := AppendNode(node);
      r := Removed(at, |node.entries| < MIN_KEYS);
    }

    method TakeMin(s: nat, ghost h: nat) returns (entry: Entry, at: nat, under: bool)
      requires Balanced(Blocks(), s, h, MIN_KEYS)
      modifies this
      ensures var t := DeleteMin(old(Blocks()), s, h); Blocks() == t.blocks && entry == t.entry && at == t.at && under == t.underflow
      ensures Staged()
      decreases h
    {
      hide Balanced, FixChild;
      BalancedNode(Blocks(), s, h, MIN_KEYS);
      var node := NodeAt(s);
      if node.IsLeaf() {
        entry := node.entries[0];
        node := Node(node.entries[1..], []);
        under := |node.entries| < MIN_KEYS;
        at := AppendNode(node);
      } else {
        var child, childUnder;
        entry, child, childUnder := TakeMin(node.children[0], h - 1);
        node := WithChild(node, 0, child);
        var d := FixNode(node, 0, childUnder);
        at, under := d.at, d.underflow;
      }
    }

    method TakeMax(s: nat, ghost h: nat) returns (entry: Entry, at: nat, under: bool)
      requires Balanced(Blocks(), s, h, MIN_KEYS)
      modifies this
      ensures var t := DeleteMax(old(Blocks()), s, h); Blocks() == t.blocks && entry == t.entry && at == t.at && under == t.underflow
      ensures Staged()
      decreases h
    {
      hide Balanced, FixChild;
      BalancedNode(Blocks(), s, h, MIN_KEYS);
      var node := NodeAt(s);
      var last := |node.entries|;
      if node.IsLeaf() {
        entry := node.entries[last - 1];
        node := Node(node.entries[..last - 1], []);
        under := |node.entries| < MIN_KEYS;
        at := AppendNode(node);
      } else {
        var child, childUnder;
        entry, child, childUnder := TakeMax(node.children[last], h - 1);
        node := WithChild(node, last, child);
        var d := FixNode(node, last, childUnder);
        at, under := d.at, d.underflow;
      }
    }

    method DeleteAt(s: nat, key: Key, ghost h: nat) returns (r: Del)
      requires Balanced(Blocks(), s, h, Least(h))
      modifies this
      ensures var x := Delete(old(Blocks()), s, key, h); Blocks() == x.blocks && r == x.del
      ensures Staged()
      decreases h
    {
      hide Balanced, FixChild, Pos, Delete, SeparatorReplaced, FoundAt;
      BalancedNode(Blocks(), s, h, Least(h));
      BalancedFormed(Blocks(), s, h, Least(h));
      var node := NodeAt(s);
      var i := Pos(node.entries, key);
      if node.IsLeaf() {
        DeleteLeafIs(Blocks(), s, key, h);
        if !FoundAt(node.entries, key, i) {
          return NotFound;
        }
        node := WithoutEntry(node, i);
        var under := |node.entries| < MIN_KEYS;
        var at := AppendNode(node);
        return Removed(at, under);
      }
      if FoundAt(node.entries, key, i) {
        DeleteSepIs(Blocks(), s, key, h);
        r := ReplaceSeparator(node, i, h);
      } else {
        DeleteBelowIs(Blocks(), s, key, h);
        var below := DeleteAt(node.children[i], key, h - 1);
        if below.NotFound? {
          return NotFound;
        }
        node := WithChild(node, i, below.at);
        r := FixNode(node, i, below.underflow);
      }
    }

    /** Put an in-order neighbour, from the side with the fuller boundary leaf, in the place of
        separator `i`. */
    method ReplaceSeparator(n: Node, i: nat, ghost h: nat) returns (r: Del)
      requires Formed(Blocks()) && Shape(n, |Blocks()|) && i < |n.entries| && h > 0
      requires Balanced(Blocks(), n.children[i], h - 1, MIN_KEYS) && Balanced(Blocks(), n.children[i + 1], h - 1, MIN_KEYS)
      modifies this
      ensures var x := SeparatorReplaced(old(Blocks()), n, i, h); Blocks() == x.blocks && r == x.del
      ensures Staged()
    {
      hide Balanced, FixChild, BoundaryLeafLen, DeleteMin, DeleteMax, Formed;
      var node, leftChild, rightChild := n, n.children[i], n.children[i + 1];
      var ls := BoundaryLen(leftChild, false);
      var rs := BoundaryLen(rightChild, true);
      if ls < rs {
        var succ, newRight, under := TakeMin(rightChild, h - 1);
        node := WithChild(WithEntry(node, i, succ), i + 1, newRight);
        r := FixNode(node, i + 1, under);
      } else {
        var pred, newLeft, under := TakeMax(leftChild, h - 1);
        node := WithChild(WithEntry(node, i, pred), i, newLeft);
        r := FixNode(node, i, under);
      }
    }

    /** Delete `key`; false, and nothing appended, if it is absent. */
    method DelKey(key: Key) returns (found: bool)
      requires Valid()
      modifies this
      ensures Valid() && Blocks() == RunOp(old(Blocks()), DelOp(key)) && Staged()
      ensures Entries(Blocks()) == Remove(old(Entries(Blocks())), key)
      ensures found == old(Lookup(Entries(Blocks()), key)).Some? && (!found ==> Blocks() == old(Blocks()))
    {
      hide Sound, Remove, Delete, Entries, Lookup, Height, Balanced, DelAll, Shrink, Flat, Formed, Sorted;
      ghost var before := Blocks();
      RunOpFacts(before, DelOp(key));
      DelFacts(before, key);
      DelIs(before, key);
      found := false;
      if RootSeq().Some? {
        SoundFormed(before);
        ghost var h := Height(before, |before| - 1);
        var r := DeleteAt(RootSeq().value, key, h);
        if r.Removed? {
          found := true;
          RootChild(before, key, Blocks(), h, r);
          ShrinkIs(Blocks());
          var node := NodeAt(r.at);
          if node.entries == [] && !node.IsLeaf() {
            var child := NodeAt(node.children[0]);
            var _ := AppendNode(child);
          }
        }
      }
      CoreSound();
    }

    // -------------------------------------------------------------- batches

    /** Open a batch: later operations stage their blocks. */
    method BeginBatch()
      requires Valid()
      modifies this`pending
      ensures Valid() && Blocks() == core && pending == Some(Staging(|core|, []))
    {
      assert core + [] == core;
      pending := Some(Staging(|core|, []));
    }

    /** Land the staged blocks in the log, all or none: `failAt` is the write that fails, if one
        does. A batch is never stale, since nothing else appends while it is open. */
    method CommitBatch(failAt: Option<nat>) returns (ok: bool)
      requires Valid()
      modifies this
      ensures Valid() && pending == None
      ensures ok <==> !(failAt.Some? && old(pending.Some?) && failAt.value < |old(pending.value.blocks)|)
      ensures core == if ok then old(Blocks()) else old(core)
    {
      ok := true;
      if pending.Some? {
        var batch := pending.value;
        pending := None;
        if batch.base != |core| {
          assert false;
        }
        if failAt.Some? && failAt.value < |batch.blocks| {
          return false;
        }
        core := core + batch.blocks;
      }
    }

    /** Discard the staged blocks. */
    method DropBatch()
      requires Valid()
      modifies this`pending
      ensures Valid() && pending == None && Blocks() == core
    {
      pending := None;
    }

    /** Any sequence of operations, staged or direct: the same blocks either way. */
    method Apply(ops: seq<Op>)
      requires Valid()
      modifies this
      ensures Valid() && Staged() && Blocks() == Run(old(Blocks()), ops)
    {
      hide Sound, RunOp, Entries;
      assert ops[..0] == [];
      for i := 0 to |ops|
        invariant Valid() && Staged() && Blocks() == Run(old(Blocks()), ops[..i])
      {
        assert ops[..i + 1][..i] == ops[..i];
        match ops[i]
        case PutOp(k, v) => PutKey(k, v);
        case DelOp(k) => var _ := DelKey(k);
      }
      assert ops[..|ops|] == ops;
    }

    /** A committed batch appends the blocks its operations would have appended directly; one
        that is dropped, or whose commit fails at a write, leaves the log as it was. */
    method RunBatch(ops: seq<Op>, commit: bool, failAt: Option<nat>) returns (ok: bool)
      requires Valid() && pending == None
      modifies this
      ensures Valid() && pending == None
      ensures core == if ok then Run(old(core), ops) else old(core)
      ensures ok <==> commit && !(failAt.Some? && |old(core)| + failAt.value < |Run(old(core), ops)|)
    {
      hide Sound, Run;
      BeginBatch();
      Apply(ops);
      ok := false;
      if commit {
        ok := CommitBatch(failAt);
      } else {
        DropBatch();
      }
    }
  }

  /** What replacing separator `i` comes to. */
  ghost function SeparatorReplaced(blocks: seq<Node>, n: Node, i: nat, h: nat): Deleted
    requires Formed(blocks) && Shape(n, |blocks|) && i < |n.entries| && h > 0
    requires Balanced(blocks, n.children[i], h - 1, MIN_KEYS) && Balanced(blocks, n.children[i + 1], h - 1, MIN_KEYS)
  {
    if BoundaryLeafLen(blocks, n.children[i], false) < BoundaryLeafLen(blocks, n.children[i + 1], true) then
      var t := DeleteMin(blocks, n.children[i + 1], h - 1);
      FixChild(t.blocks, WithChild(WithEntry(n, i, t.entry), i + 1, t.at), i + 1, t.underflow)
    else
      var t := DeleteMax(blocks, n.children[i], h - 1);
      FixChild(t.blocks, WithChild(WithEntry(n, i, t.entry), i, t.at), i, t.underflow)
  }

  lemma DeleteLeafIs(blocks: seq<Node>, s: nat, k: Key, h: nat)
    requires Balanced(blocks, s, h, Least(h)) && blocks[s].IsLeaf()
    ensures var n, i, r := blocks[s], Pos(blocks[s].entries, k), Delete(blocks, s, k, h);
            && (!FoundAt(n.entries, k, i) ==> r == Deleted(blocks, NotFound))
            && (FoundAt(n.entries, k, i) ==>
                i < |n.entries| && r == Deleted(blocks + [WithoutEntry(n, i)], Removed(|blocks|, Short(WithoutEntry(n, i)))))
  {
    hide Balanced, Pos;
    BalancedNode(blocks, s, h, Least(h));
  }

  lemma DeleteSepIs(blocks: seq<Node>, s: nat, k: Key, h: nat)
    requires Balanced(blocks, s, h, Least(h)) && !blocks[s].IsLeaf() && FoundAt(blocks[s].entries, k, Pos(blocks[s].entries, k))
    ensures var n, i := blocks[s], Pos(blocks[s].entries, k);
            && h > 0 && Formed(blocks) && Shape(n, |blocks|) && i < |n.entries|
            && Balanced(blocks, n.children[i], h - 1, MIN_KEYS) && Balanced(blocks, n.children[i + 1], h - 1, MIN_KEYS)
            && Delete(blocks, s, k, h) == SeparatorReplaced(blocks, n, i, h)
  {
    hide Balanced, Pos, FixChild, BoundaryLeafLen, DeleteMin, DeleteMax;
    BalancedNode(blocks, s, h, Least(h));
    BalancedFormed(blocks, s, h, Least(h));
  }

  lemma DeleteBelowIs(blocks: seq<Node>, s: nat, k: Key, h: nat)
    requires Balanced(blocks, s, h, Least(h)) && !blocks[s].IsLeaf() && !FoundAt(blocks[s].entries, k, Pos(blocks[s].entries, k))
    ensures var n, i := blocks[s], Pos(blocks[s].entries, k);
            && h > 0 && Shape(n, |blocks|) && 0 < |n.entries| && Balanced(blocks, n.children[i], h - 1, Least(h - 1))
            && var x := Delete(blocks, n.children[i], k, h - 1);
               && blocks <= x.blocks
               && match x.del
                  case NotFound => Delete(blocks, s, k, h) == x && x.blocks == blocks
                  case Removed(c, under) => c < |x.blocks| && Delete(blocks, s, k, h) == FixChild(x.blocks, WithChild(n, i, c), i, under)
  {
    hide Balanced, Pos, FixChild, FoundAt;
    BalancedNode(blocks, s, h, Least(h));
    LowerFill(blocks, blocks[s].children[Pos(blocks[s].entries, k)], h - 1);
  }

  /** What a deletion from the root comes to. */
  lemma DelIs(blocks: seq<Node>, k: Key)
    requires Sound(blocks)
    ensures blocks == [] ==> DelAll(blocks, k) == (blocks, false)
    ensures blocks != [] ==>
              var s := |blocks| - 1; var h := Height(blocks, s);
              && Balanced(blocks, s, h, Least(h)) && Sorted(Flat(blocks, s))
              && var x := Delete(blocks, s, k, h);
                 && (x.del.NotFound? ==> DelAll(blocks, k) == (blocks, false) && x.blocks == blocks)
                 && (x.del.Removed? ==> DelAll(blocks, k) == (Shrink(x.blocks), true) && x.del.at + 1 == |x.blocks|)
  {
    hide Balanced, Delete, Height, Flat, Shrink, Sorted;
    if blocks != [] {
      SoundRoot(blocks);
    }
  }

  lemma SoundFormed(blocks: seq<Node>)
    requires Sound(blocks)
    ensures Formed(blocks)
  {
  }

  lemma BalancedFormed(blocks: seq<Node>, s: nat, h: nat, lo: nat)
    requires Balanced(blocks, s, h, lo)
    ensures Formed(blocks)
  {
  }

  /** The only child of an emptied root is a block. */
  lemma RootChild(blocks: seq<Node>, k: Key, later: seq<Node>, h: nat, d: Del)
    requires blocks != [] && Balanced(blocks, |blocks| - 1, h, Least(h)) && Sorted(Flat(blocks, |blocks| - 1))
    requires Delete(blocks, |blocks| - 1, k, h) == Deleted(later, d) && d.Removed? && d.at < |later|
    ensures !later[d.at].IsLeaf() ==> later[d.at].children[0] < |later|
  {
    hide Flat, Sorted, Delete, Heads, Formed;
    DeleteFacts(blocks, |blocks| - 1, k, h, Least(h));
    HoldsParts(later, d.at, d.underflow, h, Least(h), Remove(Flat(blocks, |blocks| - 1), k));
    FlatIs(later, d.at);
  }

  lemma ShrinkIs(blocks: seq<Node>)
    requires blocks != [] && (!blocks[|blocks| - 1].IsLeaf() ==> blocks[|blocks| - 1].children[0] < |blocks|)
    ensures var n := blocks[|blocks| - 1];
            Shrink(blocks) == if n.entries == [] && !n.IsLeaf() then blocks + [blocks[n.children[0]]] else blocks
  {
  }
}
