/** Insertion into the B-tree: what the rewritten path stands for, and that it stays balanced. */
module BeePut {
  import opened Prelude
  import opened BeeKeys
  import opened BeeNodes

  // ---------------------------------------------------------------- searching a node

  /** The number of leading keys below `k`: where a binary search of sorted keys ends. */
  function Pos(es: seq<Entry>, k: Key): (i: nat)
    ensures i <= |es|
    ensures forall j :: 0 <= j < i ==> LexLess(es[j].key, k)
    ensures i < |es| ==> !LexLess(es[i].key, k)
  {
    if es == [] || !LexLess(es[0].key, k) then 0 else 1 + Pos(es[1..], k)
  }

  predicate FoundAt(es: seq<Entry>, k: Key, i: nat) {
    i < |es| && es[i].key == k
  }

  /** Where `k` stands among sorted keys. */
  lemma PosFacts(es: seq<Entry>, k: Key)
    ensures var i := Pos(es, k);
            && (i > 0 ==> Rank(es[i - 1].key) < Rank(k))
            && (i < |es| && !FoundAt(es, k, i) ==> Rank(k) < Rank(es[i].key))
  {
    hide Rank, LexLess, Pos;
    var i := Pos(es, k);
    if i > 0 {
      RankOrder(es[i - 1].key, k);
    }
    if i < |es| {
      RankOrder(es[i].key, k);
      if Rank(es[i].key) == Rank(k) {
        RankInjective(es[i].key, k);
      }
    }
  }

  lemma SplitAt(es: seq<Entry>, i: nat)
    requires Sorted(es) && i < |es|
    ensures es == es[..i] + [es[i]] + es[i + 1..] && es[..i + 1] == es[..i] + [es[i]] && es[i..] == [es[i]] + es[i + 1..]
    ensures AllBelow(es[..i], es[i].key) && AllAbove(es[i + 1..], es[i].key)
  {
    hide Rank;
    assert es == es[..i] + [es[i]] + es[i + 1..];
    SortedAround(es[..i], es[i], es[i + 1..]);
  }

  /** The keys a node has below and above `k`, and the one at it. */
  lemma LeafSearch(es: seq<Entry>, k: Key)
    requires Sorted(es)
    ensures var i := Pos(es, k);
            && AllBelow(es[..i], k)
            && (if FoundAt(es, k, i) then es == es[..i] + [es[i]] + es[i + 1..] && AllAbove(es[i + 1..], k)
                else es == es[..i] + [] + es[i..] && AllAbove(es[i..], k))
  {
    hide Rank, Pos, Sorted, LexLess;
    var i := Pos(es, k);
    PosFacts(es, k);
    if i > 0 {
      SplitAt(es, i - 1);
    }
    if i < |es| {
      SplitAt(es, i);
    }
  }

  lemma {:induction false} BeforeLast(es: seq<Entry>, ls: seq<seq<Entry>>)
    requires |ls| == |es| > 0
    ensures var m := |es| - 1; Before(es, ls) == Before(es[..m], ls[..m]) + ls[m] + [es[m]]
  {
    var m := |es| - 1;
    if m > 0 {
      BeforeLast(es[1..], ls[1..]);
      assert es[1..][..m - 1] == es[..m][1..] && ls[1..][..m - 1] == ls[..m][1..];
      var b := Before(es[..m][1..], ls[..m][1..]);
      assert ls[0] + [es[0]] + (b + ls[m] + [es[m]]) == (ls[0] + [es[0]] + b) + ls[m] + [es[m]];
    }
  }

  /** What a woven list has before and after child `i` is below and above `k`. */
  lemma InnerSearch(es: seq<Entry>, ls: seq<seq<Entry>>, k: Key)
    requires |ls| == |es| + 1 && Sorted(Weave(es, ls)) && !FoundAt(es, k, Pos(es, k))
    ensures var i := Pos(es, k);
            AllBelow(Before(es[..i], ls[..i]), k) && AllAbove(After(es[i..], ls[i + 1..]), k) && Sorted(ls[i])
  {
    hide Rank, Pos, Weave, Before, After, LexLess;
    var i := Pos(es, k);
    PosFacts(es, k);
    WeaveAt(es, ls, i);
    var b, a := Before(es[..i], ls[..i]), After(es[i..], ls[i + 1..]);
    SortedThree(b, ls[i], a);
    if i > 0 {
      BeforeLast(es[..i], ls[..i]);
      assert es[..i][..i - 1] == es[..i - 1] && ls[..i][..i - 1] == ls[..i - 1];
      BelowLast(Before(es[..i - 1], ls[..i - 1]) + ls[i - 1], es[i - 1], k);
    } else {
      BeforeNone(es[..i], ls[..i]);
    }
    if i < |es| {
      AfterHead(es, ls, i);
      AboveFirst(es[i], ls[i + 1], After(es[i + 1..], ls[i + 2..]), k);
    } else {
      AfterNone(es[i..], ls[i + 1..]);
    }
  }

  lemma BeforeNone(es: seq<Entry>, ls: seq<seq<Entry>>)
    requires es == [] && ls == []
    ensures Before(es, ls) == []
  {
  }

  lemma SortedThree(b: seq<Entry>, m: seq<Entry>, a: seq<Entry>)
    requires Sorted(b + m + a)
    ensures Sorted(b) && Sorted(m) && Sorted(a)
  {
    hide Rank;
    SortedParts(b + m, a);
    SortedParts(b, m);
  }

  lemma BelowLast(b: seq<Entry>, e: Entry, k: Key)
    requires Sorted(b + [e]) && Rank(e.key) < Rank(k)
    ensures AllBelow(b + [e], k)
  {
    hide Rank;
    SortedParts(b, [e]);
    assert e in [e];
  }

  lemma AboveFirst(e: Entry, l: seq<Entry>, a: seq<Entry>, k: Key)
    requires Sorted([e] + l + a) && Rank(k) < Rank(e.key)
    ensures AllAbove([e] + l + a, k)
  {
    hide Rank;
    assert [e] + l + a == [e] + (l + a);
    SortedParts([e], l + a);
    assert e in [e];
  }

  /** A woven list around a key found in the node. */
  lemma InnerFound(es: seq<Entry>, ls: seq<seq<Entry>>, i: nat)
    requires |ls| == |es| + 1 && Sorted(Weave(es, ls)) && i < |es|
    ensures var p, q := Weave(es[..i], ls[..i + 1]), Weave(es[i + 1..], ls[i + 1..]);
            Weave(es, ls) == p + [es[i]] + q && AllBelow(p, es[i].key) && AllAbove(q, es[i].key)
  {
    hide Rank, Weave;
    WeaveCut(es, ls, i);
    SortedAround(Weave(es[..i], ls[..i + 1]), es[i], Weave(es[i + 1..], ls[i + 1..]));
  }

  // ---------------------------------------------------------------- insertion

  /** The rewritten block, or two halves around a median. */
  datatype Ins = Down(at: nat) | Split(left: nat, median: Entry, right: nat)

  datatype Inserted = Inserted(blocks: seq<Node>, ins: Ins)

  ghost predicate Within(i: Ins, n: nat) {
    match i
    case Down(at) => at < n
    case Split(l, _, r) => l < n && r < n
  }

  /** The entries an insertion's result stands for. */
  ghost function InsFlat(r: Inserted): seq<Entry>
    requires Formed(r.blocks) && Within(r.ins, |r.blocks|)
  {
    match r.ins
    case Down(at) => Flat(r.blocks, at)
    case Split(left, m, right) => Flat(r.blocks, left) + [m] + Flat(r.blocks, right)
  }

  ghost predicate InsTree(r: Inserted, h: nat, lo: nat) {
    match r.ins
    case Down(at) => Tree(r.blocks, at, h, lo)
    case Split(left, m, right) => Tree(r.blocks, left, h, MIN_KEYS) && Tree(r.blocks, right, h, MIN_KEYS)
  }

  function LeftHalf(n: Node): Node
    requires |n.entries| >= 1
  {
    var mid := |n.entries| / 2;
    Node(n.entries[..mid], if mid + 1 <= |n.children| then n.children[..mid + 1] else n.children)
  }

  function RightHalf(n: Node): Node
    requires |n.entries| >= 1
  {
    var mid := |n.entries| / 2;
    Node(n.entries[mid + 1..], if mid + 1 <= |n.children| then n.children[mid + 1..] else [])
  }

  /** Append a node, in two halves if it is over-full. */
  function Finish(blocks: seq<Node>, n: Node): (r: Inserted) {
    if |n.entries| < MAX_CHILDREN then Inserted(blocks + [n], Down(|blocks|))
    else Inserted(blocks + [LeftHalf(n), RightHalf(n)], Split(|blocks|, n.entries[|n.entries| / 2], |blocks| + 1))
  }

  lemma HalvesShaped(n: Node, bound: nat)
    requires Shaped(n, bound) && |n.entries| >= MAX_CHILDREN
    ensures Shaped(LeftHalf(n), bound) && Shaped(RightHalf(n), bound)
  {
  }

  lemma FinishFormed(blocks: seq<Node>, n: Node)
    requires Formed(blocks) && Shaped(n, |blocks|)
    ensures var r := Finish(blocks, n); Formed(r.blocks) && blocks <= r.blocks && Within(r.ins, |r.blocks|)
  {
    hide LeftHalf, RightHalf, Shaped, Formed;
    if |n.entries| < MAX_CHILDREN {
      AppendFacts(blocks, n);
    } else {
      var l, r := LeftHalf(n), RightHalf(n);
      HalvesShaped(n, |blocks|);
      AppendFacts(blocks, l);
      ShapedMore(r, |blocks|, |blocks + [l]|);
      AppendFacts(blocks + [l], r);
      assert blocks + [l] + [r] == blocks + [l, r];
    }
  }

  lemma ShapedMore(n: Node, a: nat, b: nat)
    requires Shaped(n, a) && a <= b
    ensures Shaped(n, b)
  {
  }

  /** Two appends in a row. */
  lemma AppendTwo(blocks: seq<Node>, l: Node, r: Node)
    requires Formed(blocks) && Shaped(l, |blocks|) && Shaped(r, |blocks|)
    ensures var later := blocks + [l, r];
            && Formed(later) && blocks <= later && later[|blocks|] == l && later[|blocks| + 1] == r
            && Flat(later, |blocks|) == NodeFlat(blocks, l) && Flat(later, |blocks| + 1) == NodeFlat(blocks, r)
  {
    hide Shaped, Formed, NodeFlat, Flat;
    var b1 := blocks + [l];
    AppendFacts(blocks, l);
    ShapedMore(r, |blocks|, |b1|);
    AppendFacts(b1, r);
    assert b1 + [r] == blocks + [l, r];
    FlatStays(b1, b1 + [r], |blocks|);
    NodeFlatStays(blocks, b1, r);
  }

  /** Both halves with the median between them are the node. */
  lemma HalvesFlat(blocks: seq<Node>, n: Node)
    requires Formed(blocks) && Shaped(n, |blocks|) && |n.entries| >= MAX_CHILDREN
    ensures Shaped(LeftHalf(n), |blocks|) && Shaped(RightHalf(n), |blocks|)
    ensures NodeFlat(blocks, LeftHalf(n)) + [n.entries[|n.entries| / 2]] + NodeFlat(blocks, RightHalf(n)) == NodeFlat(blocks, n)
  {
    HalvesShaped(n, |blocks|);
    var mid := |n.entries| / 2;
    var ls := Lists(blocks, n.children);
    if n.IsLeaf() {
      assert n.entries == n.entries[..mid] + [n.entries[mid]] + n.entries[mid + 1..];
    } else {
      hide Flat, Weave, Lists, Formed;
      WeaveCut(n.entries, ls, mid);
      ListsSlice(blocks, n.children, mid + 1);
    }
  }

  lemma ListsSlice(blocks: seq<Node>, cs: seq<nat>, i: nat)
    requires Formed(blocks) && Under(cs, |blocks|) && i <= |cs|
    ensures Under(cs[..i], |blocks|) && Under(cs[i..], |blocks|)
    ensures Lists(blocks, cs[..i]) == Lists(blocks, cs)[..i] && Lists(blocks, cs[i..]) == Lists(blocks, cs)[i..]
  {
    hide Lists, Flat, Formed;
  }

  lemma ListsJoin(blocks: seq<Node>, a: seq<nat>, b: seq<nat>)
    requires Formed(blocks) && Under(a, |blocks|) && Under(b, |blocks|)
    ensures Under(a + b, |blocks|) && Lists(blocks, a + b) == Lists(blocks, a) + Lists(blocks, b)
  {
    hide Lists, Flat, Formed;
  }

  lemma ListsOne(blocks: seq<Node>, c: nat)
    requires Formed(blocks) && c < |blocks|
    ensures Under([c], |blocks|) && Lists(blocks, [c]) == [Flat(blocks, c)]
  {
    hide Lists, Flat, Formed;
  }

  /** Finishing a node with nine keys or fewer keeps its entries and balances the halves. */
  lemma FinishFacts(blocks: seq<Node>, n: Node, h: nat, lo: nat)
    requires Formed(blocks) && Shaped(n, |blocks|) && lo <= |n.entries| <= MAX_CHILDREN && Kids(blocks, n.children, h)
    ensures var r := Finish(blocks, n);
            Formed(r.blocks) && Within(r.ins, |r.blocks|) && InsFlat(r) == NodeFlat(blocks, n) && InsTree(r, h, lo)
  {
    hide Shaped, Formed, NodeFlat, Flat, Kids, LeftHalf, RightHalf;
    FinishFormed(blocks, n);
    if |n.entries| < MAX_CHILDREN {
      AppendFacts(blocks, n);
      AppendTree(blocks, n, h, lo);
    } else {
      var l, r := LeftHalf(n), RightHalf(n);
      HalvesFlat(blocks, n);
      AppendTwo(blocks, l, r);
      HalvesKids(blocks, n, h);
      KidsStay(blocks, blocks + [l, r], l.children, h);
      KidsStay(blocks, blocks + [l, r], r.children, h);
    }
  }

  lemma HalvesKids(blocks: seq<Node>, n: Node, h: nat)
    requires Shaped(n, |blocks|) && |n.entries| == MAX_CHILDREN && Kids(blocks, n.children, h)
    ensures |LeftHalf(n).entries| == MIN_KEYS == |RightHalf(n).entries|
    ensures Kids(blocks, LeftHalf(n).children, h) && Kids(blocks, RightHalf(n).children, h)
  {
    hide Heads;
  }

  // ---------------------------------------------------------------- the recursive insertion

  function WithEntry(n: Node, i: nat, e: Entry): Node
    requires i < |n.entries|
  {
    Node(n.entries[i := e], n.children)
  }

  function WithChild(n: Node, i: nat, c: nat): Node
    requires i < |n.children|
  {
    Node(n.entries, n.children[i := c])
  }

  /** Child `i` replaced by two with an entry between. */
  function WithSplit(n: Node, i: nat, l: nat, m: Entry, r: nat): Node
    requires i < |n.children| && i <= |n.entries|
  {
    Node(n.entries[..i] + [m] + n.entries[i..], n.children[..i] + [l, r] + n.children[i + 1..])
  }

  function WithLeaf(n: Node, i: nat, e: Entry): Node
    requires i <= |n.entries|
  {
    Node(n.entries[..i] + [e] + n.entries[i..], n.children)
  }

  /** Insert under block `s`: rewrite the path, splitting what overflows. */
  ghost function Insert(blocks: seq<Node>, s: nat, k: Key, v: seq<Byte>): (r: Inserted)
    requires Formed(blocks) && s < |blocks|
    ensures Formed(r.blocks) && blocks <= r.blocks && Within(r.ins, |r.blocks|)
    decreases s
  {
    var n := blocks[s];
    var i := Pos(n.entries, k);
    ShapedMore(n, s, |blocks|);
    if FoundAt(n.entries, k, i) then
      var n' := WithEntry(n, i, Entry(n.entries[i].key, v));
      AppendFacts(blocks, n');
      Inserted(blocks + [n'], Down(|blocks|))
    else if n.IsLeaf() then
      var n' := WithLeaf(n, i, Entry(k, v));
      FinishFormed(blocks, n');
      Finish(blocks, n')
    else
      var r := Insert(blocks, n.children[i], k, v);
      ShapedMore(n, |blocks|, |r.blocks|);
      match r.ins
      case Down(c) =>
        var n' := WithChild(n, i, c);
        AppendFacts(r.blocks, n');
        assert blocks <= r.blocks + [n'];
        Inserted(r.blocks + [n'], Down(|r.blocks|))
      case Split(left, m, right) =>
        var n' := WithSplit(n, i, left, m, right);
        SplitShaped(n, i, left, m, right, |r.blocks|);
        FinishFormed(r.blocks, n');
        Finish(r.blocks, n')
  }

  lemma SplitShaped(n: Node, i: nat, l: nat, m: Entry, r: nat, bound: nat)
    requires Shaped(n, bound) && i < |n.children| && i <= |n.entries| && l < bound && r < bound
    ensures Shaped(WithSplit(n, i, l, m, r), bound)
  {
  }

  /** Replacing child `i` replaces its stretch of the entries. */
  lemma ChildReplaced(blocks: seq<Node>, n: Node, i: nat, c: nat)
    requires Formed(blocks) && Shaped(n, |blocks|) && i < |n.children| && c < |blocks|
    ensures Shaped(WithChild(n, i, c), |blocks|)
    ensures var ls := Lists(blocks, n.children);
            && NodeFlat(blocks, n) == Before(n.entries[..i], ls[..i]) + ls[i] + After(n.entries[i..], ls[i + 1..])
            && NodeFlat(blocks, WithChild(n, i, c))
               == Before(n.entries[..i], ls[..i]) + Flat(blocks, c) + After(n.entries[i..], ls[i + 1..])
  {
    hide Flat, Weave, Lists, Formed, Before, After;
    var ls, n' := Lists(blocks, n.children), WithChild(n, i, c);
    WeaveAt(n.entries, ls, i);
    var ls' := Lists(blocks, n'.children);
    WeaveAt(n'.entries, ls', i);
    assert ls'[..i] == ls[..i] && ls'[i + 1..] == ls[i + 1..];
  }

  lemma ChildSplit(blocks: seq<Node>, n: Node, i: nat, l: nat, m: Entry, r: nat)
    requires Formed(blocks) && Shaped(n, |blocks|) && i < |n.children| && l < |blocks| && r < |blocks|
    ensures Shaped(WithSplit(n, i, l, m, r), |blocks|)
    ensures var ls := Lists(blocks, n.children);
            NodeFlat(blocks, WithSplit(n, i, l, m, r))
            == Before(n.entries[..i], ls[..i]) + (Flat(blocks, l) + [m] + Flat(blocks, r)) + After(n.entries[i..], ls[i + 1..])
  {
    hide Flat, Weave, Lists, Formed, Before, After;
    var ls, es := Lists(blocks, n.children), n.entries;
    SplitShaped(n, i, l, m, r, |blocks|);
    var cs := n.children[..i] + [l, r] + n.children[i + 1..];
    WeavePair(es[..i], ls[..i], Flat(blocks, l), m, Flat(blocks, r), es[i..], ls[i + 1..]);
    assert Lists(blocks, cs) == ls[..i] + [Flat(blocks, l), Flat(blocks, r)] + ls[i + 1..];
  }

  lemma KidsReplaced(blocks: seq<Node>, cs: seq<nat>, h: nat, i: nat, c: nat)
    requires h > 0 && Kids(blocks, cs, h) && i < |cs| && Tree(blocks, c, h - 1, MIN_KEYS)
    ensures Kids(blocks, cs[i := c], h)
  {
    hide Heads;
  }

  lemma KidsSplit(blocks: seq<Node>, cs: seq<nat>, h: nat, i: nat, l: nat, r: nat)
    requires h > 0 && Kids(blocks, cs, h) && i < |cs| && Tree(blocks, l, h - 1, MIN_KEYS) && Tree(blocks, r, h - 1, MIN_KEYS)
    ensures Kids(blocks, cs[..i] + [l, r] + cs[i + 1..], h)
  {
    hide Heads;
  }

  /** Found here: only the value changes. */
  lemma InsertFound(blocks: seq<Node>, n: Node, k: Key, v: seq<Byte>)
    requires Formed(blocks) && Shaped(n, |blocks|) && Sorted(NodeFlat(blocks, n)) && FoundAt(n.entries, k, Pos(n.entries, k))
    ensures var n' := WithEntry(n, Pos(n.entries, k), Entry(k, v));
            Shaped(n', |blocks|) && NodeFlat(blocks, n') == Put(NodeFlat(blocks, n), k, v)
  {
    hide Flat, Lists, Formed, Rank, Put, Pos, Sorted, Weave;
    var i, es, ls := Pos(n.entries, k), n.entries, Lists(blocks, n.children);
    if n.IsLeaf() {
      LeafFlat(blocks, n);
      LeafFlat(blocks, WithEntry(n, i, Entry(k, v)));
      FoundInLeaf(es, k, v);
    } else {
      FoundInInner(es, ls, i, v);
    }
  }

  lemma FoundInLeaf(es: seq<Entry>, k: Key, v: seq<Byte>)
    requires Sorted(es) && FoundAt(es, k, Pos(es, k))
    ensures es[Pos(es, k) := Entry(k, v)] == Put(es, k, v)
  {
    hide Rank, Put, Pos, Sorted;
    var i := Pos(es, k);
    LeafSearch(es, k);
    CutAt(es[..i], [es[i]], es[i + 1..], k, v);
  }

  lemma FoundInInner(es: seq<Entry>, ls: seq<seq<Entry>>, i: nat, v: seq<Byte>)
    requires |ls| == |es| + 1 && Sorted(Weave(es, ls)) && i < |es|
    ensures Weave(es[i := Entry(es[i].key, v)], ls) == Put(Weave(es, ls), es[i].key, v)
  {
    hide Rank, Put, Sorted, Weave;
    var es' := es[i := Entry(es[i].key, v)];
    InnerFound(es, ls, i);
    WeaveCut(es', ls, i);
    assert es'[..i] == es[..i] && es'[i + 1..] == es[i + 1..];
    CutAt(Weave(es[..i], ls[..i + 1]), [es[i]], Weave(es[i + 1..], ls[i + 1..]), es[i].key, v);
  }

  /** Not found in a leaf: a new entry in its place. */
  lemma InsertLeaf(blocks: seq<Node>, n: Node, k: Key, v: seq<Byte>)
    requires Formed(blocks) && n.IsLeaf() && Sorted(n.entries) && !FoundAt(n.entries, k, Pos(n.entries, k))
    ensures var n' := WithLeaf(n, Pos(n.entries, k), Entry(k, v));
            && Shaped(n, |blocks|) && Shaped(n', |blocks|)
            && NodeFlat(blocks, n) == n.entries && NodeFlat(blocks, n') == Put(n.entries, k, v)
  {
    hide Flat, Formed, Rank, Put, Pos;
    var i, es := Pos(n.entries, k), n.entries;
    LeafSearch(es, k);
    CutAt(es[..i], [], es[i..], k, v);
  }

  /** Insertion does to the entries what a put does to the map, and keeps the tree balanced. */
  lemma {:induction false} InsertFacts(blocks: seq<Node>, s: nat, k: Key, v: seq<Byte>, h: nat, lo: nat)
    requires Formed(blocks) && Tree(blocks, s, h, lo) && Sorted(Flat(blocks, s))
    ensures var r := Insert(blocks, s, k, v); InsFlat(r) == Put(Flat(blocks, s), k, v) && InsTree(r, h, lo)
    decreases h
  {
    hide Flat, NodeFlat, Formed, Sorted, Put, Pos, Kids, Shaped, Finish, WithEntry, WithLeaf, WithChild, WithSplit, FoundAt;
    var n := blocks[s];
    var i := Pos(n.entries, k);
    FlatIs(blocks, s);
    if FoundAt(n.entries, k, i) {
      FoundKey(n.entries, k, i);
      InsertFound(blocks, n, k, v);
      var n' := WithEntry(n, i, Entry(k, v));
      AppendFacts(blocks, n');
      WithEntryTree(blocks, n, i, Entry(k, v), h, lo);
      AppendTree(blocks, n', h, lo);
    } else if n.IsLeaf() {
      LeafFlat(blocks, n);
      InsertLeaf(blocks, n, k, v);
      WithLeafTree(blocks, n, i, Entry(k, v), h, lo);
      FinishFacts(blocks, WithLeaf(n, i, Entry(k, v)), h, lo);
    } else {
      InsertBelow(blocks, s, k, v, h, lo);
    }
  }

  lemma FoundKey(es: seq<Entry>, k: Key, i: nat)
    requires FoundAt(es, k, i)
    ensures i < |es| && es[i].key == k
  {
  }

  lemma LeafFlat(blocks: seq<Node>, n: Node)
    requires Formed(blocks) && Shaped(n, |blocks|) && n.IsLeaf()
    ensures NodeFlat(blocks, n) == n.entries
  {
  }

  lemma WithEntryTree(blocks: seq<Node>, n: Node, i: nat, e: Entry, h: nat, lo: nat)
    requires Heads(blocks, n, h, lo) && i < |n.entries|
    ensures Heads(blocks, WithEntry(n, i, e), h, lo)
  {
  }

  lemma WithLeafTree(blocks: seq<Node>, n: Node, i: nat, e: Entry, h: nat, lo: nat)
    requires Heads(blocks, n, h, lo) && i <= |n.entries|
    ensures var n' := WithLeaf(n, i, e); lo <= |n'.entries| <= MAX_CHILDREN && Kids(blocks, n'.children, h)
  {
  }

  lemma KidAt(blocks: seq<Node>, n: Node, h: nat, i: nat)
    requires Shaped(n, |blocks|) && Kids(blocks, n.children, h) && !n.IsLeaf() && i <= |n.entries|
    ensures h > 0 && |n.children| == |n.entries| + 1 && Tree(blocks, n.children[i], h - 1, MIN_KEYS)
  {
    hide Heads;
  }

  lemma {:induction false} InsertBelow(blocks: seq<Node>, s: nat, k: Key, v: seq<Byte>, h: nat, lo: nat)
    requires Formed(blocks) && Tree(blocks, s, h, lo) && Sorted(Flat(blocks, s))
    requires !blocks[s].IsLeaf() && !FoundAt(blocks[s].entries, k, Pos(blocks[s].entries, k))
    ensures var r := Insert(blocks, s, k, v); InsFlat(r) == Put(Flat(blocks, s), k, v) && InsTree(r, h, lo)
    decreases h, 0
  {
    hide Flat, Formed, Sorted, Put, Pos, Kids, Shaped, Finish, WithChild, WithSplit, FoundAt, Weave, Lists, Before, After;
    var n := blocks[s];
    var i := Pos(n.entries, k);
    FlatIs(blocks, s);
    KidAt(blocks, n, h, i);
    var c := n.children[i];
    var r := Insert(blocks, c, k, v);
    UnderChild(blocks, n, k);
    InsertFacts(blocks, c, k, v, h - 1, MIN_KEYS);
    NodeFlatStays(blocks, r.blocks, n);
    KidsStay(blocks, r.blocks, n.children, h);
    match r.ins
    case Down(c') =>
      PutUnder(blocks, n, k, v, r.blocks, Flat(r.blocks, c'));
      ChildReplaced(r.blocks, n, i, c');
      AppendFacts(r.blocks, WithChild(n, i, c'));
      WithChildTree(r.blocks, n, i, c', h, lo);
      AppendTree(r.blocks, WithChild(n, i, c'), h, lo);
    case Split(left, m, right) =>
      PutUnder(blocks, n, k, v, r.blocks, Flat(r.blocks, left) + [m] + Flat(r.blocks, right));
      ChildSplit(r.blocks, n, i, left, m, right);
      WithSplitTree(r.blocks, n, i, left, m, right, h, lo);
      FinishFacts(r.blocks, WithSplit(n, i, left, m, right), h, lo);
  }

  lemma WithChildTree(blocks: seq<Node>, n: Node, i: nat, c: nat, h: nat, lo: nat)
    requires Heads(blocks, n, h, lo) && h > 0 && i < |n.children| && Tree(blocks, c, h - 1, MIN_KEYS)
    ensures Heads(blocks, WithChild(n, i, c), h, lo)
  {
    hide Kids;
    KidsReplaced(blocks, n.children, h, i, c);
  }

  lemma WithSplitTree(blocks: seq<Node>, n: Node, i: nat, l: nat, m: Entry, r: nat, h: nat, lo: nat)
    requires Heads(blocks, n, h, lo) && h > 0 && i < |n.children| && i <= |n.entries|
    requires Tree(blocks, l, h - 1, MIN_KEYS) && Tree(blocks, r, h - 1, MIN_KEYS)
    ensures var n' := WithSplit(n, i, l, m, r); lo <= |n'.entries| <= MAX_CHILDREN && Kids(blocks, n'.children, h)
  {
    hide Kids;
    KidsSplit(blocks, n.children, h, i, l, r);
  }

  /** The child the search descends to holds a sorted stretch with `k`'s place in it. */
  lemma UnderChild(blocks: seq<Node>, n: Node, k: Key)
    requires Formed(blocks) && Shaped(n, |blocks|) && Sorted(NodeFlat(blocks, n)) && !n.IsLeaf()
    requires !FoundAt(n.entries, k, Pos(n.entries, k))
    ensures var i, ls := Pos(n.entries, k), Lists(blocks, n.children);
            && Sorted(Flat(blocks, n.children[i])) && ls[i] == Flat(blocks, n.children[i])
            && AllBelow(Before(n.entries[..i], ls[..i]), k) && AllAbove(After(n.entries[i..], ls[i + 1..]), k)
            && NodeFlat(blocks, n) == Before(n.entries[..i], ls[..i]) + ls[i] + After(n.entries[i..], ls[i + 1..])
  {
    hide Flat, Formed, Sorted, Pos, FoundAt, Weave, Lists, Before, After, AllBelow, AllAbove;
    InnerSearch(n.entries, Lists(blocks, n.children), k);
    WeaveAt(n.entries, Lists(blocks, n.children), Pos(n.entries, k));
  }

  /** Putting under the child is putting in the node. */
  lemma PutUnder(blocks: seq<Node>, n: Node, k: Key, v: seq<Byte>, later: seq<Node>, l: seq<Entry>)
    requires Formed(blocks) && Shaped(n, |blocks|) && Sorted(NodeFlat(blocks, n)) && !n.IsLeaf()
    requires !FoundAt(n.entries, k, Pos(n.entries, k)) && Formed(later) && blocks <= later
    requires l == Put(Flat(blocks, n.children[Pos(n.entries, k)]), k, v)
    ensures Shaped(n, |later|)
    ensures var i, ls := Pos(n.entries, k), Lists(later, n.children);
            Before(n.entries[..i], ls[..i]) + l + After(n.entries[i..], ls[i + 1..]) == Put(NodeFlat(blocks, n), k, v)
  {
    hide Flat, Formed, Sorted, Pos, FoundAt, Weave, Lists, Before, After, AllBelow, AllAbove, NodeFlat, Put;
    UnderChild(blocks, n, k);
    ListsStay(blocks, later, n.children);
    var i, ls := Pos(n.entries, k), Lists(blocks, n.children);
    CutMiddle(Before(n.entries[..i], ls[..i]), ls[i], After(n.entries[i..], ls[i + 1..]), k, v);
  }

  // ---------------------------------------------------------------- put

  /** Insert or overwrite: the new root is the last block. */
  ghost function PutAll(blocks: seq<Node>, k: Key, v: seq<Byte>): (r: seq<Node>)
    requires Formed(blocks)
  {
    if blocks == [] then [Node([Entry(k, v)], [])]
    else
      var r := Insert(blocks, |blocks| - 1, k, v);
      match r.ins
      case Down(_) => r.blocks
      case Split(left, m, right) => r.blocks + [Node([m], [left, right])]
  }

  /** The entries a tree of blocks holds: those under its last block. */
  ghost function Entries(blocks: seq<Node>): seq<Entry>
    requires Formed(blocks)
  {
    if blocks == [] then [] else Flat(blocks, |blocks| - 1)
  }

  /** A balanced tree of sorted keys over well-formed blocks, or no tree yet. */
  ghost predicate Sound(blocks: seq<Node>) {
    Formed(blocks) && Sorted(Entries(blocks)) && (blocks == [] || exists h: nat :: Rooted(blocks, h))
  }

  /** Block `s` lies `d` levels below block `r`. */
  ghost predicate Lies(blocks: seq<Node>, r: nat, s: nat, d: nat)
    decreases d
  {
    if d == 0 then s == r
    else r < |blocks| && exists i :: 0 <= i < |blocks[r].children| && Lies(blocks, blocks[r].children[i], s, d - 1)
  }

  lemma {:induction false} SizesBelow(blocks: seq<Node>, r: nat, h: nat, lo: nat, s: nat, d: nat)
    requires Formed(blocks) && Tree(blocks, r, h, lo) && Lies(blocks, r, s, d)
    ensures d <= h && s < |blocks| && (if d == 0 then lo else 4) <= |blocks[s].entries| <= 8
    ensures if d < h then |blocks[s].children| == |blocks[s].entries| + 1 else blocks[s].children == []
    decreases d
  {
    if d > 0 {
      var i :| 0 <= i < |blocks[r].children| && Lies(blocks, blocks[r].children[i], s, d - 1);
      assert Kids(blocks, blocks[r].children, h);
      var c := blocks[r].children[i];
      assert Heads(blocks, blocks[c], h - 1, MIN_KEYS);
      SizesBelow(blocks, c, h - 1, MIN_KEYS, s, d - 1);
    } else {
      assert Shaped(blocks[s], s) && Kids(blocks, blocks[s].children, h);
    }
  }

  /** In a sound tree of height `h` every node has at most eight entries and every node but the
      root at least four; an inner node has one child more than entries, and all leaves lie
      equally deep. */
  lemma NodeSizes(blocks: seq<Node>, h: nat, s: nat, d: nat)
    requires Sound(blocks) && Rooted(blocks, h) && Lies(blocks, |blocks| - 1, s, d)
    ensures d <= h && s < |blocks| && |blocks[s].entries| <= 8 && (d > 0 ==> |blocks[s].entries| >= 4)
    ensures if d < h then |blocks[s].children| == |blocks[s].entries| + 1 else blocks[s].children == []
  {
    hide Flat, Sorted, Lies;
    SizesBelow(blocks, |blocks| - 1, h, if h == 0 then 0 else 1, s, d);
  }

  /** An insertion's rewritten block is the last one. */
  lemma InsertLast(blocks: seq<Node>, s: nat, k: Key, v: seq<Byte>)
    requires Formed(blocks) && s < |blocks|
    ensures var r := Insert(blocks, s, k, v); r.ins.Down? ==> r.ins.at + 1 == |r.blocks|
  {
    hide Pos, Formed, Flat;
  }

  lemma NewRoot(blocks: seq<Node>, left: nat, m: Entry, right: nat, h: nat)
    requires Formed(blocks) && Tree(blocks, left, h, MIN_KEYS) && Tree(blocks, right, h, MIN_KEYS)
    ensures var later := blocks + [Node([m], [left, right])];
            Formed(later) && Entries(later) == Flat(blocks, left) + [m] + Flat(blocks, right) && Rooted(later, h + 1)
  {
    hide Formed, Flat, Heads;
    var root := Node([m], [left, right]);
    AppendFacts(blocks, root);
    assert Lists(blocks, root.children) == [Flat(blocks, left), Flat(blocks, right)];
    WeaveTwo(Flat(blocks, left), m, Flat(blocks, right));
    TwoKids(blocks, left, right, h);
    RootHeads(blocks, root, h + 1);
    AppendTree(blocks, root, h + 1, 1);
  }

  lemma WeaveTwo(l: seq<Entry>, m: Entry, r: seq<Entry>)
    ensures Weave([m], [l, r]) == l + [m] + r
  {
    assert [m][1..] == [] && [l, r][1..] == [r];
  }

  lemma TwoKids(blocks: seq<Node>, left: nat, right: nat, h: nat)
    requires Tree(blocks, left, h, MIN_KEYS) && Tree(blocks, right, h, MIN_KEYS)
    ensures Kids(blocks, [left, right], h + 1)
  {
    hide Heads;
  }

  lemma RootHeads(blocks: seq<Node>, n: Node, h: nat)
    requires |n.entries| == 1 && Kids(blocks, n.children, h)
    ensures Heads(blocks, n, h, 1)
  {
  }

  /** A put acts on the tree as on the map it stands for, keeps it balanced and sorted, and
      leaves every earlier block in place. */
  lemma PutFacts(blocks: seq<Node>, k: Key, v: seq<Byte>)
    requires Sound(blocks)
    ensures var r := PutAll(blocks, k, v);
            Sound(r) && blocks < r && Entries(r) == Put(Entries(blocks), k, v)
  {
    hide Formed, Flat, Rooted, Put, Insert;
    CutSorted(Entries(blocks), k, v);
    if blocks == [] {
      FirstPut(k, v);
    } else {
      var s, r := |blocks| - 1, Insert(blocks, |blocks| - 1, k, v);
      var h: nat :| Rooted(blocks, h);
      var lo := if h == 0 then 0 else 1;
      RootTree(blocks, h);
      InsertFacts(blocks, s, k, v, h, lo);
      InsertGrows(blocks, s, k, v);
      match r.ins
      case Down(at) =>
        InsertLast(blocks, s, k, v);
        TreeRoot(r.blocks, h);
      case Split(left, m, right) =>
        NewRoot(r.blocks, left, m, right, h);
    }
  }

  lemma FirstPut(k: Key, v: seq<Byte>)
    ensures var r := [Node([Entry(k, v)], [])];
            Formed(r) && Entries(r) == Put(Entries([]), k, v) && Rooted(r, 0)
  {
    assert Put([], k, v) == [Entry(k, v)];
  }

  lemma RootTree(blocks: seq<Node>, h: nat)
    requires Rooted(blocks, h)
    ensures Tree(blocks, |blocks| - 1, h, if h == 0 then 0 else 1)
  {
  }

  lemma TreeRoot(blocks: seq<Node>, h: nat)
    requires blocks != [] && Tree(blocks, |blocks| - 1, h, if h == 0 then 0 else 1)
    ensures Rooted(blocks, h)
  {
  }

  lemma InsertGrows(blocks: seq<Node>, s: nat, k: Key, v: seq<Byte>)
    requires Formed(blocks) && s < |blocks|
    ensures var r := Insert(blocks, s, k, v); blocks < r.blocks && Formed(r.blocks) && Within(r.ins, |r.blocks|)
  {
    hide Formed, Pos, Flat;
  }
}
