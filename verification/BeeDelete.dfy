/** Deletion from the B-tree: rotations and merges keep the entries, and the rewritten path
    stands for the map without the key. */
module BeeDelete {
  import opened Prelude
  import opened BeeKeys
  import opened BeeNodes
  import opened BeePut

  // ---------------------------------------------------------------- rotations

  /** Give the child `e` and the left sibling's last subtree. */
  function TakeFromLeft(left: Node, e: Entry, child: Node): Node {
    Node([e] + child.entries, if left.IsLeaf() then child.children else [left.children[|left.children| - 1]] + child.children)
  }

  function WithoutLast(n: Node): Node
    requires n.entries != []
  {
    Node(n.entries[..|n.entries| - 1], if n.IsLeaf() then [] else n.children[..|n.children| - 1])
  }

  /** Give the child `e` and the right sibling's first subtree. */
  function TakeFromRight(child: Node, e: Entry, right: Node): Node {
    Node(child.entries + [e], if right.IsLeaf() then child.children else child.children + [right.children[0]])
  }

  function WithoutFirst(n: Node): Node
    requires n.entries != []
  {
    Node(n.entries[1..], if n.IsLeaf() then [] else n.children[1..])
  }

  function Joined(left: Node, e: Entry, right: Node): Node {
    Node(left.entries + [e] + right.entries, left.children + right.children)
  }

  /** Neighbours of one height: both leaves or both with children. */
  ghost predicate Alike(blocks: seq<Node>, a: Node, b: Node) {
    Formed(blocks) && Shaped(a, |blocks|) && Shaped(b, |blocks|) && (a.IsLeaf() <==> b.IsLeaf())
  }

  lemma WeaveOne(l: seq<Entry>)
    ensures Weave([], [l]) == l
  {
  }

  lemma WeaveJoin(es: seq<Entry>, ls: seq<seq<Entry>>, e: Entry, fs: seq<Entry>, ms: seq<seq<Entry>>)
    requires |ls| == |es| + 1 && |ms| == |fs| + 1
    ensures Weave(es + [e] + fs, ls + ms) == Weave(es, ls) + [e] + Weave(fs, ms)
  {
    hide Weave;
    var all, lists := es + [e] + fs, ls + ms;
    WeaveCut(all, lists, |es|);
    assert all[..|es|] == es && all[|es| + 1..] == fs && lists[..|es| + 1] == ls && lists[|es| + 1..] == ms;
  }

  lemma JoinedFlat(blocks: seq<Node>, left: Node, e: Entry, right: Node)
    requires Alike(blocks, left, right)
    ensures Shaped(Joined(left, e, right), |blocks|)
    ensures NodeFlat(blocks, Joined(left, e, right)) == NodeFlat(blocks, left) + [e] + NodeFlat(blocks, right)
  {
    hide Flat, Lists, Formed;
    if left.IsLeaf() {
    } else {
      hide Weave;
      ListsJoin(blocks, left.children, right.children);
      WeaveJoin(left.entries, Lists(blocks, left.children), e, right.entries, Lists(blocks, right.children));
    }
  }

  lemma LastSplit(blocks: seq<Node>, n: Node)
    requires Formed(blocks) && Shaped(n, |blocks|) && n.entries != []
    ensures Shaped(WithoutLast(n), |blocks|)
    ensures n.IsLeaf() ==> NodeFlat(blocks, n) == NodeFlat(blocks, WithoutLast(n)) + [n.entries[|n.entries| - 1]]
    ensures !n.IsLeaf() ==> NodeFlat(blocks, n) == NodeFlat(blocks, WithoutLast(n)) + [n.entries[|n.entries| - 1]]
                                                 + Flat(blocks, n.children[|n.children| - 1])
  {
    hide Flat, Lists, Formed;
    var m, es := |n.entries| - 1, n.entries;
    if n.IsLeaf() {
    } else {
      hide Weave;
      var ls := Lists(blocks, n.children);
      WeaveCut(es, ls, m);
      ListsSlice(blocks, n.children, m + 1);
      assert es[m + 1..] == [] && ls[m + 1..] == [ls[m + 1]];
      WeaveOne(ls[m + 1]);
    }
  }

  lemma FirstSplit(blocks: seq<Node>, n: Node)
    requires Formed(blocks) && Shaped(n, |blocks|) && n.entries != []
    ensures Shaped(WithoutFirst(n), |blocks|)
    ensures n.IsLeaf() ==> NodeFlat(blocks, n) == [n.entries[0]] + NodeFlat(blocks, WithoutFirst(n))
    ensures !n.IsLeaf() ==> NodeFlat(blocks, n) == Flat(blocks, n.children[0]) + [n.entries[0]] + NodeFlat(blocks, WithoutFirst(n))
  {
    hide Flat, Lists, Formed;
    if !n.IsLeaf() {
      ListsSlice(blocks, n.children, 1);
    }
  }

  lemma FirstJoined(blocks: seq<Node>, left: Node, e: Entry, child: Node)
    requires Alike(blocks, left, child)
    ensures Shaped(TakeFromLeft(left, e, child), |blocks|)
    ensures left.IsLeaf() ==> NodeFlat(blocks, TakeFromLeft(left, e, child)) == [e] + NodeFlat(blocks, child)
    ensures !left.IsLeaf() ==> NodeFlat(blocks, TakeFromLeft(left, e, child))
                               == Flat(blocks, left.children[|left.children| - 1]) + [e] + NodeFlat(blocks, child)
  {
    hide Flat, Lists, Formed;
    if !left.IsLeaf() {
      var c := left.children[|left.children| - 1];
      ListsOne(blocks, c);
      ListsJoin(blocks, [c], child.children);
      var es, ls := [e] + child.entries, [Flat(blocks, c)] + Lists(blocks, child.children);
      assert es[1..] == child.entries && ls[1..] == Lists(blocks, child.children);
    }
  }

  lemma LastJoined(blocks: seq<Node>, child: Node, e: Entry, right: Node)
    requires Alike(blocks, child, right)
    ensures Shaped(TakeFromRight(child, e, right), |blocks|)
    ensures right.IsLeaf() ==> NodeFlat(blocks, TakeFromRight(child, e, right)) == NodeFlat(blocks, child) + [e]
    ensures !right.IsLeaf() ==> NodeFlat(blocks, TakeFromRight(child, e, right))
                                == NodeFlat(blocks, child) + [e] + Flat(blocks, right.children[0])
  {
    hide Flat, Lists, Formed;
    if !right.IsLeaf() {
      hide Weave;
      var c := right.children[0];
      ListsOne(blocks, c);
      ListsJoin(blocks, child.children, [c]);
      WeaveJoin(child.entries, Lists(blocks, child.children), e, [], [Flat(blocks, c)]);
      WeaveOne(Flat(blocks, c));
      assert child.entries + [e] + [] == child.entries + [e];
    }
  }

  /** A rotation from the left keeps the entries of the two nodes and the one between. */
  lemma RotateRight(blocks: seq<Node>, left: Node, e: Entry, child: Node)
    requires Alike(blocks, left, child) && left.entries != []
    ensures Shaped(WithoutLast(left), |blocks|) && Shaped(TakeFromLeft(left, e, child), |blocks|)
    ensures NodeFlat(blocks, WithoutLast(left)) + [left.entries[|left.entries| - 1]] + NodeFlat(blocks, TakeFromLeft(left, e, child))
            == NodeFlat(blocks, left) + [e] + NodeFlat(blocks, child)
  {
    hide NodeFlat, Flat, Formed, Shaped, WithoutLast, TakeFromLeft;
    LastSplit(blocks, left);
    FirstJoined(blocks, left, e, child);
  }

  lemma RotateLeft(blocks: seq<Node>, child: Node, e: Entry, right: Node)
    requires Alike(blocks, child, right) && right.entries != []
    ensures Shaped(TakeFromRight(child, e, right), |blocks|) && Shaped(WithoutFirst(right), |blocks|)
    ensures NodeFlat(blocks, TakeFromRight(child, e, right)) + [right.entries[0]] + NodeFlat(blocks, WithoutFirst(right))
            == NodeFlat(blocks, child) + [e] + NodeFlat(blocks, right)
  {
    hide NodeFlat, Flat, Formed, Shaped, WithoutFirst, TakeFromRight;
    LastJoined(blocks, child, e, right);
    FirstSplit(blocks, right);
  }

  // ---------------------------------------------------------------- neighbours replaced in their parent

  function WithPair(n: Node, j: nat, a: nat, e: Entry, b: nat): Node
    requires j < |n.entries| && j + 1 < |n.children|
  {
    Node(n.entries[j := e], n.children[j := a][j + 1 := b])
  }

  function WithMerged(n: Node, j: nat, a: nat): Node
    requires j < |n.entries| && j + 1 < |n.children|
  {
    Node(n.entries[..j] + n.entries[j + 1..], n.children[..j] + [a] + n.children[j + 2..])
  }

  /** The node's entries around the neighbours `j` and `j + 1`. */
  lemma PairParts(blocks: seq<Node>, n: Node, j: nat)
    requires Formed(blocks) && Shaped(n, |blocks|) && !n.IsLeaf() && j < |n.entries|
    ensures var es, ls := n.entries, Lists(blocks, n.children);
            NodeFlat(blocks, n)
            == Before(es[..j], ls[..j]) + (Flat(blocks, n.children[j]) + [es[j]] + Flat(blocks, n.children[j + 1]))
               + After(es[j + 1..], ls[j + 2..])
  {
    hide Flat, Lists, Formed, Weave, Before, After;
    var es, ls := n.entries, Lists(blocks, n.children);
    WeavePair(es[..j], ls[..j], ls[j], es[j], ls[j + 1], es[j + 1..], ls[j + 2..]);
    assert es[..j] + [es[j]] + es[j + 1..] == es;
    assert ls[..j] + [ls[j], ls[j + 1]] + ls[j + 2..] == ls;
  }

  lemma PairReplaced(blocks: seq<Node>, later: seq<Node>, n: Node, j: nat, a: nat, e: Entry, b: nat)
    requires Formed(blocks) && Formed(later) && blocks <= later && Shaped(n, |blocks|) && !n.IsLeaf() && j < |n.entries|
    requires a < |later| && b < |later|
    requires Flat(later, a) + [e] + Flat(later, b) == Flat(blocks, n.children[j]) + [n.entries[j]] + Flat(blocks, n.children[j + 1])
    ensures Shaped(WithPair(n, j, a, e, b), |later|) && NodeFlat(later, WithPair(n, j, a, e, b)) == NodeFlat(blocks, n)
  {
    hide Flat, Lists, Formed, Weave, Before, After, NodeFlat;
    var n' := WithPair(n, j, a, e, b);
    PairParts(blocks, n, j);
    PairParts(later, n', j);
    ListsStay(blocks, later, n.children);
    var ls, ls' := Lists(later, n.children), Lists(later, n'.children);
    assert ls'[..j] == ls[..j] && ls'[j + 2..] == ls[j + 2..];
    assert n'.entries[..j] == n.entries[..j] && n'.entries[j + 1..] == n.entries[j + 1..];
  }

  lemma PairMerged(blocks: seq<Node>, later: seq<Node>, n: Node, j: nat, a: nat)
    requires Formed(blocks) && Formed(later) && blocks <= later && Shaped(n, |blocks|) && !n.IsLeaf() && j < |n.entries|
    requires a < |later|
    requires Flat(later, a) == Flat(blocks, n.children[j]) + [n.entries[j]] + Flat(blocks, n.children[j + 1])
    ensures Shaped(WithMerged(n, j, a), |later|) && NodeFlat(later, WithMerged(n, j, a)) == NodeFlat(blocks, n)
  {
    hide Flat, Lists, Formed, Weave, Before, After;
    var n' := WithMerged(n, j, a);
    PairParts(blocks, n, j);
    ListsStay(blocks, later, n.children);
    var es, ls, ls' := n.entries, Lists(later, n.children), Lists(later, n'.children);
    WeaveParts(es[..j], ls[..j], Flat(later, a), es[j + 1..], ls[j + 2..]);
    assert ls' == ls[..j] + [Flat(later, a)] + ls[j + 2..];
  }

  // ---------------------------------------------------------------- rebalancing

  datatype Rewritten = Rewritten(blocks: seq<Node>, node: Node)

  /** Restore the fill of child `i` by borrowing from a neighbour, or merge it with one. */
  function Rebalance(blocks: seq<Node>, n: Node, i: nat): Rewritten
    requires Shape(n, |blocks|) && 0 < |n.entries| && i <= |n.entries|
  {
    var cs := n.children;
    if i > 0 && |blocks[cs[i - 1]].entries| > MIN_KEYS then
      var left, child := blocks[cs[i - 1]], blocks[cs[i]];
      Rewritten(blocks + [WithoutLast(left), TakeFromLeft(left, n.entries[i - 1], child)],
                WithPair(n, i - 1, |blocks|, left.entries[|left.entries| - 1], |blocks| + 1))
    else if i + 1 < |cs| && |blocks[cs[i + 1]].entries| > MIN_KEYS then
      var child, right := blocks[cs[i]], blocks[cs[i + 1]];
      Rewritten(blocks + [TakeFromRight(child, n.entries[i], right), WithoutFirst(right)],
                WithPair(n, i, |blocks|, right.entries[0], |blocks| + 1))
    else
      var li := if i > 0 then i - 1 else i;
      Rewritten(blocks + [Joined(blocks[cs[li]], n.entries[li], blocks[cs[li + 1]])], WithMerged(n, li, |blocks|))
  }

  /** A child is refilled from the left neighbour if that has a key to spare, else from the right
      one if that does, else merged, with the left neighbour if there is one. */
  lemma RebalanceCases(blocks: seq<Node>, n: Node, i: nat)
    requires Shape(n, |blocks|) && 0 < |n.entries| && i <= |n.entries|
    ensures var r, cs, k := Rebalance(blocks, n, i), n.children, |blocks|;
            var child := blocks[cs[i]].entries;
            if i > 0 && |blocks[cs[i - 1]].entries| > 4 then
              var left := blocks[cs[i - 1]].entries;
              && |r.blocks| == k + 2 && |r.node.entries| == |n.entries| && r.node.children == cs[i - 1 := k][i := k + 1]
              && r.blocks[k].entries == left[..|left| - 1] && r.blocks[k + 1].entries == [n.entries[i - 1]] + child
              && r.node.entries == n.entries[i - 1 := left[|left| - 1]]
            else if i < |n.entries| && |blocks[cs[i + 1]].entries| > 4 then
              var right := blocks[cs[i + 1]].entries;
              && |r.blocks| == k + 2 && |r.node.entries| == |n.entries| && r.node.children == cs[i := k][i + 1 := k + 1]
              && r.blocks[k].entries == child + [n.entries[i]] && r.blocks[k + 1].entries == right[1..]
              && r.node.entries == n.entries[i := right[0]]
            else
              var l := if i > 0 then i - 1 else i;
              && |r.blocks| == k + 1 && |r.node.entries| == |n.entries| - 1
              && r.blocks[k].entries == blocks[cs[l]].entries + [n.entries[l]] + blocks[cs[l + 1]].entries
              && r.node.entries == n.entries[..l] + n.entries[l + 1..]
              && r.node.children == cs[..l] + [k] + cs[l + 2..]
  {
  }

  /** An inner node with its children below `bound`. */
  predicate Shape(n: Node, bound: nat) {
    |n.children| == |n.entries| + 1 && forall i :: 0 <= i < |n.children| ==> n.children[i] < bound
  }

  /** Children of height `h - 1`, all legally filled but `i`, which may lack one key. */
  ghost predicate KidsBut(blocks: seq<Node>, cs: seq<nat>, h: nat, i: nat) {
    && h > 0 && i < |cs|
    && forall j :: 0 <= j < |cs| ==> cs[j] < |blocks| && Heads(blocks, blocks[cs[j]], h - 1, if j == i then MIN_KEYS - 1 else MIN_KEYS)
  }

  lemma KidsButAt(blocks: seq<Node>, cs: seq<nat>, h: nat, i: nat, j: nat)
    requires KidsBut(blocks, cs, h, i) && j < |cs|
    ensures h > 0 && cs[j] < |blocks| && Heads(blocks, blocks[cs[j]], h - 1, if j == i then MIN_KEYS - 1 else MIN_KEYS)
  {
  }

  /** Two children of one node are alike. */
  lemma Neighbours(blocks: seq<Node>, cs: seq<nat>, h: nat, i: nat, j: nat)
    requires Formed(blocks) && KidsBut(blocks, cs, h, i) && j + 1 < |cs|
    ensures cs[j] < |blocks| && cs[j + 1] < |blocks| && Alike(blocks, blocks[cs[j]], blocks[cs[j + 1]])
    ensures Flat(blocks, cs[j]) == NodeFlat(blocks, blocks[cs[j]]) && Flat(blocks, cs[j + 1]) == NodeFlat(blocks, blocks[cs[j + 1]])
  {
    hide Flat, NodeFlat, Formed, Heads, Kids, KidsBut, Shaped;
    Kind(blocks, cs, h, i, j);
    Kind(blocks, cs, h, i, j + 1);
  }

  lemma Kind(blocks: seq<Node>, cs: seq<nat>, h: nat, i: nat, j: nat)
    requires Formed(blocks) && KidsBut(blocks, cs, h, i) && j < |cs|
    ensures h > 0 && cs[j] < |blocks| && (blocks[cs[j]].IsLeaf() <==> h - 1 == 0)
    ensures Shaped(blocks[cs[j]], |blocks|) && Flat(blocks, cs[j]) == NodeFlat(blocks, blocks[cs[j]])
  {
    hide Flat, NodeFlat, Formed, Heads, Kids, KidsBut;
    KidsButAt(blocks, cs, h, i, j);
    HeadsParts(blocks, blocks[cs[j]], h - 1, if j == i then MIN_KEYS - 1 else MIN_KEYS);
    LeafKids(blocks, blocks[cs[j]], h - 1);
    FlatIs(blocks, cs[j]);
  }

  /** The kids after two neighbours, one of them the short one, are rewritten. */
  lemma KidsPair(blocks: seq<Node>, cs: seq<nat>, h: nat, i: nat, j: nat, a: Node, b: Node)
    requires KidsBut(blocks, cs, h, i) && j + 1 < |cs| && (i == j || i == j + 1)
    requires Heads(blocks, a, h - 1, MIN_KEYS) && Heads(blocks, b, h - 1, MIN_KEYS)
    ensures Kids(blocks + [a, b], cs[j := |blocks|][j + 1 := |blocks| + 1], h)
  {
    hide Kids, Heads;
    var later, cs' := blocks + [a, b], cs[j := |blocks|][j + 1 := |blocks| + 1];
    HeadsStay(blocks, later, a, h - 1, MIN_KEYS);
    HeadsStay(blocks, later, b, h - 1, MIN_KEYS);
    forall x | 0 <= x < |cs'|
      ensures cs'[x] < |later| && Heads(later, later[cs'[x]], h - 1, MIN_KEYS)
    {
      if x != j && x != j + 1 {
        assert later[cs[x]] == blocks[cs[x]];
        HeadsStay(blocks, later, blocks[cs[x]], h - 1, MIN_KEYS);
      }
    }
    KidsAre(later, cs', h);
  }

  lemma KidsMerged(blocks: seq<Node>, cs: seq<nat>, h: nat, i: nat, j: nat, a: Node)
    requires KidsBut(blocks, cs, h, i) && j + 1 < |cs| && (i == j || i == j + 1) && Heads(blocks, a, h - 1, MIN_KEYS)
    ensures Kids(blocks + [a], cs[..j] + [|blocks|] + cs[j + 2..], h)
  {
    hide Kids, Heads;
    var later, cs' := blocks + [a], cs[..j] + [|blocks|] + cs[j + 2..];
    HeadsStay(blocks, later, a, h - 1, MIN_KEYS);
    forall x | 0 <= x < |cs'|
      ensures cs'[x] < |later| && Heads(later, later[cs'[x]], h - 1, MIN_KEYS)
    {
      if x != j {
        var y := if x < j then x else x + 1;
        assert cs'[x] == cs[y] && later[cs[y]] == blocks[cs[y]];
        HeadsStay(blocks, later, blocks[cs[y]], h - 1, MIN_KEYS);
      }
    }
    KidsAre(later, cs', h);
  }

  lemma KidsAre(blocks: seq<Node>, cs: seq<nat>, h: nat)
    requires h > 0 && cs != [] && forall x :: 0 <= x < |cs| ==> cs[x] < |blocks| && Heads(blocks, blocks[cs[x]], h - 1, MIN_KEYS)
    ensures Kids(blocks, cs, h)
  {
    hide Heads;
  }

  lemma HeadsStay(blocks: seq<Node>, later: seq<Node>, n: Node, h: nat, lo: nat)
    requires blocks <= later && Heads(blocks, n, h, lo)
    ensures Heads(later, n, h, lo)
  {
    hide Kids;
    KidsStay(blocks, later, n.children, h);
  }

  lemma HeadsParts(blocks: seq<Node>, n: Node, h: nat, lo: nat)
    ensures Heads(blocks, n, h, lo) <==> lo <= |n.entries| < MAX_CHILDREN && Kids(blocks, n.children, h)
  {
    hide Kids;
  }

  lemma KidsJoin(blocks: seq<Node>, a: seq<nat>, b: seq<nat>, h: nat)
    requires Kids(blocks, a, h) && Kids(blocks, b, h)
    ensures Kids(blocks, a + b, h)
  {
    hide Heads;
  }

  lemma KidsSlices(blocks: seq<Node>, a: seq<nat>, h: nat, i: nat)
    requires Kids(blocks, a, h) && 0 < i < |a|
    ensures Kids(blocks, a[..i], h) && Kids(blocks, a[i..], h)
  {
    hide Heads;
  }

  lemma LeafKids(blocks: seq<Node>, n: Node, h: nat)
    requires Kids(blocks, n.children, h)
    ensures n.IsLeaf() <==> h == 0
  {
    hide Heads;
  }

  /** What rebalancing child `i` keeps and restores. */
  ghost predicate Restored(blocks: seq<Node>, n: Node, h: nat, r: Rewritten)
    requires Formed(blocks) && Shaped(n, |blocks|)
  {
    && Formed(r.blocks) && blocks <= r.blocks && Shaped(r.node, |r.blocks|)
    && Kids(r.blocks, r.node.children, h) && NodeFlat(r.blocks, r.node) == NodeFlat(blocks, n)
    && |n.entries| - 1 <= |r.node.entries| <= |n.entries|
  }

  /** The nodes a rotation or merge makes are legally filled. */
  lemma RotatedRightFill(blocks: seq<Node>, left: Node, e: Entry, child: Node, h: nat)
    requires Shaped(left, |blocks|) && Heads(blocks, left, h, MIN_KEYS + 1) && Heads(blocks, child, h, MIN_KEYS - 1)
    requires |child.entries| < MIN_KEYS
    ensures Heads(blocks, WithoutLast(left), h, MIN_KEYS) && Heads(blocks, TakeFromLeft(left, e, child), h, MIN_KEYS)
  {
    hide Kids;
    LeafKids(blocks, left, h);
    if !left.IsLeaf() {
      var m := |left.children| - 1;
      KidsSlices(blocks, left.children, h, m);
      assert left.children[m..] == [left.children[m]];
      KidsJoin(blocks, left.children[m..], child.children, h);
    }
  }

  lemma RotatedLeftFill(blocks: seq<Node>, child: Node, e: Entry, right: Node, h: nat)
    requires Shaped(right, |blocks|) && Heads(blocks, right, h, MIN_KEYS + 1) && Heads(blocks, child, h, MIN_KEYS - 1)
    requires |child.entries| < MIN_KEYS
    ensures Heads(blocks, WithoutFirst(right), h, MIN_KEYS) && Heads(blocks, TakeFromRight(child, e, right), h, MIN_KEYS)
  {
    hide Kids;
    LeafKids(blocks, right, h);
    if !right.IsLeaf() {
      KidsSlices(blocks, right.children, h, 1);
      assert right.children[..1] == [right.children[0]];
      KidsJoin(blocks, child.children, right.children[..1], h);
    }
  }

  lemma JoinedFill(blocks: seq<Node>, left: Node, e: Entry, right: Node, h: nat)
    requires Heads(blocks, left, h, MIN_KEYS - 1) && Heads(blocks, right, h, MIN_KEYS - 1)
    requires |left.entries| + |right.entries| == 2 * MIN_KEYS - 1
    ensures Heads(blocks, Joined(left, e, right), h, MIN_KEYS)
  {
    hide Kids;
    KidsJoin(blocks, left.children, right.children, h);
  }

  lemma BorrowedLeft(blocks: seq<Node>, n: Node, i: nat, h: nat)
    requires Formed(blocks) && Shaped(n, |blocks|) && !n.IsLeaf() && 0 < i <= |n.entries| && KidsBut(blocks, n.children, h, i)
    requires |blocks[n.children[i]].entries| < MIN_KEYS < |blocks[n.children[i - 1]].entries|
    ensures Restored(blocks, n, h, Rebalance(blocks, n, i))
  {
    hide Flat, NodeFlat, Formed, Kids, Heads, KidsBut, TakeFromLeft, WithoutLast;
    var cs, j := n.children, i - 1;
    var left, child, e := blocks[cs[j]], blocks[cs[i]], n.entries[j];
    var a, b := WithoutLast(left), TakeFromLeft(left, e, child);
    Neighbours(blocks, cs, h, i, j);
    RotateRight(blocks, left, e, child);
    AppendTwo(blocks, a, b);
    PairReplaced(blocks, blocks + [a, b], n, j, |blocks|, left.entries[|left.entries| - 1], |blocks| + 1);
    KidsButAt(blocks, cs, h, i, j);
    KidsButAt(blocks, cs, h, i, i);
    HeadsParts(blocks, left, h - 1, MIN_KEYS);
    HeadsParts(blocks, left, h - 1, MIN_KEYS + 1);
    RotatedRightFill(blocks, left, e, child, h - 1);
    KidsPair(blocks, cs, h, i, j, a, b);
  }

  lemma BorrowedRight(blocks: seq<Node>, n: Node, i: nat, h: nat)
    requires Formed(blocks) && Shaped(n, |blocks|) && !n.IsLeaf() && i < |n.entries| && KidsBut(blocks, n.children, h, i)
    requires |blocks[n.children[i]].entries| < MIN_KEYS < |blocks[n.children[i + 1]].entries|
    requires i > 0 ==> |blocks[n.children[i - 1]].entries| <= MIN_KEYS
    ensures Restored(blocks, n, h, Rebalance(blocks, n, i))
  {
    hide Flat, NodeFlat, Formed, Kids, Heads, KidsBut, TakeFromRight, WithoutFirst;
    var cs := n.children;
    var child, right, e := blocks[cs[i]], blocks[cs[i + 1]], n.entries[i];
    var a, b := TakeFromRight(child, e, right), WithoutFirst(right);
    Neighbours(blocks, cs, h, i, i);
    RotateLeft(blocks, child, e, right);
    AppendTwo(blocks, a, b);
    PairReplaced(blocks, blocks + [a, b], n, i, |blocks|, right.entries[0], |blocks| + 1);
    KidsButAt(blocks, cs, h, i, i);
    KidsButAt(blocks, cs, h, i, i + 1);
    HeadsParts(blocks, right, h - 1, MIN_KEYS);
    HeadsParts(blocks, right, h - 1, MIN_KEYS + 1);
    RotatedLeftFill(blocks, child, e, right, h - 1);
    KidsPair(blocks, cs, h, i, i, a, b);
  }

  lemma MergedFacts(blocks: seq<Node>, n: Node, i: nat, h: nat)
    requires Formed(blocks) && Shaped(n, |blocks|) && !n.IsLeaf() && 0 < |n.entries| && i <= |n.entries|
    requires KidsBut(blocks, n.children, h, i) && |blocks[n.children[i]].entries| < MIN_KEYS
    requires i > 0 ==> |blocks[n.children[i - 1]].entries| <= MIN_KEYS
    requires i < |n.entries| ==> |blocks[n.children[i + 1]].entries| <= MIN_KEYS
    ensures Restored(blocks, n, h, Rebalance(blocks, n, i))
  {
    hide Flat, NodeFlat, Formed, Kids, Heads, KidsBut, Joined;
    var cs, j := n.children, if i > 0 then i - 1 else i;
    var left, right, e := blocks[cs[j]], blocks[cs[j + 1]], n.entries[j];
    var a := Joined(left, e, right);
    Neighbours(blocks, cs, h, i, j);
    JoinedFlat(blocks, left, e, right);
    AppendFacts(blocks, a);
    PairMerged(blocks, blocks + [a], n, j, |blocks|);
    KidsButAt(blocks, cs, h, i, j);
    KidsButAt(blocks, cs, h, i, j + 1);
    MergeFill(blocks, left, e, right, h - 1, i == j);
    KidsMerged(blocks, cs, h, i, j, a);
  }

  lemma MergeFill(blocks: seq<Node>, left: Node, e: Entry, right: Node, h: nat, first: bool)
    requires Heads(blocks, left, h, if first then MIN_KEYS - 1 else MIN_KEYS)
    requires Heads(blocks, right, h, if first then MIN_KEYS else MIN_KEYS - 1)
    requires |left.entries| <= MIN_KEYS && |right.entries| <= MIN_KEYS
    requires if first then |left.entries| < MIN_KEYS else |right.entries| < MIN_KEYS
    ensures Heads(blocks, Joined(left, e, right), h, MIN_KEYS)
  {
    hide Kids, Joined;
    JoinedFill(blocks, left, e, right, h);
  }

  lemma RebalanceFacts(blocks: seq<Node>, n: Node, i: nat, h: nat)
    requires Formed(blocks) && Shaped(n, |blocks|) && !n.IsLeaf() && 0 < |n.entries| && i <= |n.entries|
    requires KidsBut(blocks, n.children, h, i) && |blocks[n.children[i]].entries| < MIN_KEYS
    ensures Restored(blocks, n, h, Rebalance(blocks, n, i))
  {
    hide Flat, NodeFlat, Formed, Kids, Heads, KidsBut, Restored, Rebalance;
    if i > 0 && |blocks[n.children[i - 1]].entries| > MIN_KEYS {
      BorrowedLeft(blocks, n, i, h);
    } else if i < |n.entries| && |blocks[n.children[i + 1]].entries| > MIN_KEYS {
      BorrowedRight(blocks, n, i, h);
    } else {
      MergedFacts(blocks, n, i, h);
    }
  }

  // ---------------------------------------------------------------- deletion

  datatype Del = NotFound | Removed(at: nat, underflow: bool)

  datatype Deleted = Deleted(blocks: seq<Node>, del: Del)

  /** A boundary entry taken out of a subtree. */
  datatype Taken = Taken(blocks: seq<Node>, entry: Entry, at: nat, underflow: bool)

  predicate Short(n: Node) {
    |n.entries| < MIN_KEYS
  }

  /** Rebalance child `i` if it fell short, then append the node. */
  function FixChild(blocks: seq<Node>, n: Node, i: nat, under: bool): (r: Deleted)
    requires Shape(n, |blocks|) && 0 < |n.entries| && i <= |n.entries|
    ensures blocks <= r.blocks && r.del.Removed? && r.del.at + 1 == |r.blocks|
  {
    var r := if under then Rebalance(blocks, n, i) else Rewritten(blocks, n);
    Deleted(r.blocks + [r.node], Removed(|r.blocks|, Short(r.node)))
  }

  /** A subtree with its shape: what the recursive deletions walk down. */
  ghost predicate Balanced(blocks: seq<Node>, s: nat, h: nat, lo: nat) {
    Formed(blocks) && Tree(blocks, s, h, lo)
  }

  lemma BalancedNode(blocks: seq<Node>, s: nat, h: nat, lo: nat)
    requires Balanced(blocks, s, h, lo)
    ensures s < |blocks| && lo <= |blocks[s].entries| < MAX_CHILDREN && (blocks[s].IsLeaf() <==> h == 0)
    ensures Shaped(blocks[s], |blocks|) && Kids(blocks, blocks[s].children, h)
    ensures h > 0 ==> Shape(blocks[s], |blocks|)
    ensures h > 0 ==> forall i :: 0 <= i < |blocks[s].children| ==>
                        blocks[s].children[i] < s && Balanced(blocks, blocks[s].children[i], h - 1, MIN_KEYS)
  {
    hide Heads;
    HeadsParts(blocks, blocks[s], h, lo);
    LeafKids(blocks, blocks[s], h);
    ShapedMore(blocks[s], s, |blocks|);
  }

  /** The number of keys in the leftmost or rightmost leaf under block `s`. */
  function BoundaryLeafLen(blocks: seq<Node>, s: nat, leftmost: bool): nat
    requires Formed(blocks) && s < |blocks|
    decreases s
  {
    var n := blocks[s];
    assert Shaped(n, s);
    if n.IsLeaf() then |n.entries|
    else BoundaryLeafLen(blocks, if leftmost then n.children[0] else n.children[|n.children| - 1], leftmost)
  }

  /** Take out the smallest entry under block `s`. */
  ghost function DeleteMin(blocks: seq<Node>, s: nat, h: nat): (r: Taken)
    requires Balanced(blocks, s, h, MIN_KEYS)
    ensures blocks <= r.blocks && r.at + 1 == |r.blocks|
    decreases h
  {
    BalancedNode(blocks, s, h, MIN_KEYS);
    var n := blocks[s];
    if n.IsLeaf() then
      var n' := Node(n.entries[1..], []);
      Taken(blocks + [n'], n.entries[0], |blocks|, Short(n'))
    else
      var t := DeleteMin(blocks, n.children[0], h - 1);
      var d := FixChild(t.blocks, WithChild(n, 0, t.at), 0, t.underflow);
      PrefixTrans(blocks, t.blocks, d.blocks);
      Taken(d.blocks, t.entry, d.del.at, d.del.underflow)
  }

  /** Take out the largest entry under block `s`. */
  ghost function DeleteMax(blocks: seq<Node>, s: nat, h: nat): (r: Taken)
    requires Balanced(blocks, s, h, MIN_KEYS)
    ensures blocks <= r.blocks && r.at + 1 == |r.blocks|
    decreases h
  {
    BalancedNode(blocks, s, h, MIN_KEYS);
    var n := blocks[s];
    var last := |n.entries|;
    if n.IsLeaf() then
      var n' := Node(n.entries[..last - 1], []);
      Taken(blocks + [n'], n.entries[last - 1], |blocks|, Short(n'))
    else
      var t := DeleteMax(blocks, n.children[last], h - 1);
      var d := FixChild(t.blocks, WithChild(n, last, t.at), last, t.underflow);
      PrefixTrans(blocks, t.blocks, d.blocks);
      Taken(d.blocks, t.entry, d.del.at, d.del.underflow)
  }

  function WithoutEntry(n: Node, i: nat): Node
    requires i < |n.entries|
  {
    Node(n.entries[..i] + n.entries[i + 1..], n.children)
  }

  /** A node's own least fill: a root may be an empty leaf or have one key. */
  function Least(h: nat): nat {
    if h == 0 then 0 else 1
  }

  /** Delete `k` under block `s`, rewriting the path; nothing is appended if it is absent. */
  ghost function Delete(blocks: seq<Node>, s: nat, k: Key, h: nat): (r: Deleted)
    requires Balanced(blocks, s, h, Least(h))
    ensures blocks <= r.blocks && (r.del.NotFound? ==> r.blocks == blocks)
    ensures r.del.Removed? ==> r.del.at + 1 == |r.blocks|
    decreases h
  {
    BalancedNode(blocks, s, h, Least(h));
    var n := blocks[s];
    var i := Pos(n.entries, k);
    if n.IsLeaf() then
      if FoundAt(n.entries, k, i) then
        var n' := WithoutEntry(n, i);
        Deleted(blocks + [n'], Removed(|blocks|, Short(n')))
      else Deleted(blocks, NotFound)
    else if FoundAt(n.entries, k, i) then
      if BoundaryLeafLen(blocks, n.children[i], false) < BoundaryLeafLen(blocks, n.children[i + 1], true) then
        var t := DeleteMin(blocks, n.children[i + 1], h - 1);
        var d := FixChild(t.blocks, WithChild(WithEntry(n, i, t.entry), i + 1, t.at), i + 1, t.underflow);
        PrefixTrans(blocks, t.blocks, d.blocks);
        d
      else
        var t := DeleteMax(blocks, n.children[i], h - 1);
        var d := FixChild(t.blocks, WithChild(WithEntry(n, i, t.entry), i, t.at), i, t.underflow);
        PrefixTrans(blocks, t.blocks, d.blocks);
        d
    else
      LowerFill(blocks, n.children[i], h - 1);
      var r := Delete(blocks, n.children[i], k, h - 1);
      match r.del
      case NotFound => r
      case Removed(c, under) =>
        var d := FixChild(r.blocks, WithChild(n, i, c), i, under);
        PrefixTrans(blocks, r.blocks, d.blocks);
        d
  }

  /** The leftmost or rightmost leaf under block `s`. */
  ghost function Edge(blocks: seq<Node>, s: nat, leftmost: bool): (e: nat)
    requires Formed(blocks) && s < |blocks|
    ensures e <= s && blocks[e].IsLeaf()
    decreases s
  {
    var n := blocks[s];
    assert Shaped(n, s);
    if n.children == [] then s else Edge(blocks, if leftmost then n.children[0] else n.children[|n.children| - 1], leftmost)
  }

  lemma {:induction false} EdgeLen(blocks: seq<Node>, s: nat, leftmost: bool)
    requires Formed(blocks) && s < |blocks|
    ensures BoundaryLeafLen(blocks, s, leftmost) == |blocks[Edge(blocks, s, leftmost)].entries|
    decreases s
  {
    var n := blocks[s];
    assert Shaped(n, s);
    if n.children != [] {
      EdgeLen(blocks, if leftmost then n.children[0] else n.children[|n.children| - 1], leftmost);
    }
  }

  /** Taking out the smallest entry first rewrites the leftmost leaf without it. */
  lemma {:induction false} MinFirst(blocks: seq<Node>, s: nat, h: nat)
    requires Balanced(blocks, s, h, MIN_KEYS)
    ensures var low := blocks[Edge(blocks, s, true)].entries;
            var min := DeleteMin(blocks, s, h);
            |low| > 0 && |min.blocks| > |blocks| && min.blocks[|blocks|] == Node(low[1..], []) && min.entry == low[0]
    decreases h
  {
    hide Rebalance, FixChild, WithChild, Balanced, Shaped;
    BalancedNode(blocks, s, h, MIN_KEYS);
    if !blocks[s].IsLeaf() {
      MinFirst(blocks, blocks[s].children[0], h - 1);
    }
  }

  /** Taking out the largest entry first rewrites the rightmost leaf without it. */
  lemma {:induction false} MaxFirst(blocks: seq<Node>, s: nat, h: nat)
    requires Balanced(blocks, s, h, MIN_KEYS)
    ensures var high := blocks[Edge(blocks, s, false)].entries;
            var max := DeleteMax(blocks, s, h);
            && |high| > 0 && |max.blocks| > |blocks| && max.blocks[|blocks|] == Node(high[..|high| - 1], [])
            && max.entry == high[|high| - 1]
    decreases h
  {
    hide Rebalance, FixChild, WithChild, Balanced, Shaped;
    BalancedNode(blocks, s, h, MIN_KEYS);
    if !blocks[s].IsLeaf() {
      MaxFirst(blocks, blocks[s].children[|blocks[s].entries|], h - 1);
    }
  }

  /** A separator deleted from an inner node is replaced from whichever side's boundary leaf is
      longer, from the left one when they are equal: that leaf is the first block written. */
  lemma SeparatorFrom(blocks: seq<Node>, s: nat, k: Key, h: nat, i: nat)
    requires Balanced(blocks, s, h, Least(h)) && blocks[s].children != []
    requires i < |blocks[s].entries| && blocks[s].entries[i].key == k && i == Pos(blocks[s].entries, k)
    ensures |blocks[s].children| == |blocks[s].entries| + 1
            && blocks[s].children[i] < |blocks| && blocks[s].children[i + 1] < |blocks|
    ensures var left := blocks[Edge(blocks, blocks[s].children[i], false)].entries;
            var right := blocks[Edge(blocks, blocks[s].children[i + 1], true)].entries;
            var r := Delete(blocks, s, k, h).blocks;
            && |left| > 0 && |right| > 0 && |r| > |blocks|
            && r[|blocks|] == if |left| < |right| then Node(right[1..], []) else Node(left[..|left| - 1], [])
  {
    hide Edge, BoundaryLeafLen, DeleteMin, DeleteMax, FixChild, WithChild, WithEntry, Rebalance, Pos;
    BalancedNode(blocks, s, h, Least(h));
    var n := blocks[s];
    EdgeLen(blocks, n.children[i], false);
    EdgeLen(blocks, n.children[i + 1], true);
    MaxFirst(blocks, n.children[i], h - 1);
    MinFirst(blocks, n.children[i + 1], h - 1);
  }

  lemma LowerFill(blocks: seq<Node>, s: nat, h: nat)
    requires Balanced(blocks, s, h, MIN_KEYS)
    ensures Balanced(blocks, s, h, Least(h))
  {
  }

  // ---------------------------------------------------------------- what deletion does

  /** Block `at` heads a tree of height `h` that may lack one key against `lo`, standing for
      `entries`, and `under` says whether it fell short. */
  ghost predicate Holds(blocks: seq<Node>, at: nat, under: bool, h: nat, lo: nat, entries: seq<Entry>) {
    && Formed(blocks) && Tree(blocks, at, h, if lo == 0 then 0 else lo - 1)
    && (under <==> Short(blocks[at])) && Flat(blocks, at) == entries
  }

  /** One child replaced by a rewritten one, which may fall short. */
  lemma KidsButOne(blocks: seq<Node>, later: seq<Node>, cs: seq<nat>, h: nat, i: nat, c: nat)
    requires blocks <= later && Kids(blocks, cs, h) && h > 0 && i < |cs| && Tree(later, c, h - 1, MIN_KEYS - 1)
    ensures KidsBut(later, cs[i := c], h, i)
  {
    hide Heads, Kids;
    var cs' := cs[i := c];
    forall j | 0 <= j < |cs'|
      ensures cs'[j] < |later| && Heads(later, later[cs'[j]], h - 1, if j == i then MIN_KEYS - 1 else MIN_KEYS)
    {
      if j != i {
        KidHeads(blocks, cs, h, j);
        assert later[cs[j]] == blocks[cs[j]];
        HeadsStay(blocks, later, blocks[cs[j]], h - 1, MIN_KEYS);
      }
    }
  }

  lemma KidHeads(blocks: seq<Node>, cs: seq<nat>, h: nat, j: nat)
    requires Kids(blocks, cs, h) && h > 0 && j < |cs|
    ensures cs[j] < |blocks| && Heads(blocks, blocks[cs[j]], h - 1, MIN_KEYS)
  {
    hide Heads;
  }

  /** All children legally filled after all. */
  lemma KidsButFull(blocks: seq<Node>, cs: seq<nat>, h: nat, i: nat)
    requires KidsBut(blocks, cs, h, i) && !Short(blocks[cs[i]])
    ensures Kids(blocks, cs, h)
  {
    hide Heads, Kids;
    forall j | 0 <= j < |cs|
      ensures cs[j] < |blocks| && Heads(blocks, blocks[cs[j]], h - 1, MIN_KEYS)
    {
      KidsButAt(blocks, cs, h, i, j);
      HeadsParts(blocks, blocks[cs[j]], h - 1, MIN_KEYS - 1);
      HeadsParts(blocks, blocks[cs[j]], h - 1, MIN_KEYS);
    }
    KidsAre(blocks, cs, h);
  }

  /** Fixing a child keeps the node's entries and leaves it at most one key short. */
  lemma FixChildFacts(blocks: seq<Node>, n: Node, i: nat, under: bool, h: nat, lo: nat)
    requires Formed(blocks) && Shaped(n, |blocks|) && !n.IsLeaf() && 0 < |n.entries| && i <= |n.entries|
    requires lo <= |n.entries| < MAX_CHILDREN && KidsBut(blocks, n.children, h, i)
    requires under <==> Short(blocks[n.children[i]])
    ensures Shape(n, |blocks|)
    ensures var d := FixChild(blocks, n, i, under); Holds(d.blocks, d.del.at, d.del.underflow, h, lo, NodeFlat(blocks, n))
  {
    hide Flat, NodeFlat, Formed, Kids, Heads, KidsBut, Rebalance;
    if under {
      RebalanceFacts(blocks, n, i, h);
      var r := Rebalance(blocks, n, i);
      FixedHolds(r.blocks, r.node, h, lo);
    } else {
      KidsButFull(blocks, n.children, h, i);
      FixedHolds(blocks, n, h, lo);
    }
  }

  lemma FixedHolds(blocks: seq<Node>, n: Node, h: nat, lo: nat)
    requires Formed(blocks) && Shaped(n, |blocks|) && Kids(blocks, n.children, h)
    requires (if lo == 0 then 0 else lo - 1) <= |n.entries| < MAX_CHILDREN
    ensures Holds(blocks + [n], |blocks|, Short(n), h, lo, NodeFlat(blocks, n))
  {
    hide Flat, NodeFlat, Formed, Kids, Heads, Shaped;
    AppendFacts(blocks, n);
    HeadsParts(blocks, n, h, if lo == 0 then 0 else lo - 1);
    AppendTree(blocks, n, h, if lo == 0 then 0 else lo - 1);
  }

  /** Fixing the node after its child `i` became `c`. */
  lemma FixReplaced(blocks: seq<Node>, later: seq<Node>, n: Node, i: nat, c: nat, under: bool, h: nat, lo: nat)
    requires Formed(blocks) && blocks <= later && Shaped(n, |blocks|) && 0 < |n.entries| && i < |n.children|
    requires h > 0 && lo <= |n.entries| < MAX_CHILDREN && Kids(blocks, n.children, h)
    requires Formed(later) && Tree(later, c, h - 1, MIN_KEYS - 1) && (under <==> Short(later[c]))
    ensures Shape(WithChild(n, i, c), |later|)
    ensures var ls := Lists(blocks, n.children);
            var d := FixChild(later, WithChild(n, i, c), i, under);
            Holds(d.blocks, d.del.at, d.del.underflow, h, lo,
                  Before(n.entries[..i], ls[..i]) + Flat(later, c) + After(n.entries[i..], ls[i + 1..]))
  {
    hide Flat, Formed, Kids, Heads, KidsBut, FixChild, Lists, Before, After, Holds, NodeFlat;
    KidsButOne(blocks, later, n.children, h, i, c);
    NodeFlatStays(blocks, later, n);
    ChildReplaced(later, n, i, c);
    ListsStay(blocks, later, n.children);
    FixChildFacts(later, WithChild(n, i, c), i, under, h, lo);
  }

  /** The smallest entry comes out, and the rest is what is left. */
  lemma {:induction false} DeleteMinFacts(blocks: seq<Node>, s: nat, h: nat)
    requires Balanced(blocks, s, h, MIN_KEYS)
    ensures var t := DeleteMin(blocks, s, h);
            && Formed(t.blocks) && Holds(t.blocks, t.at, t.underflow, h, MIN_KEYS, Flat(t.blocks, t.at))
            && Flat(blocks, s) == [t.entry] + Flat(t.blocks, t.at)
    decreases h
  {
    hide Flat, Kids, Heads, Lists, Before, After, Holds, FixChild, Formed, NodeFlat, Weave;
    BalancedNode(blocks, s, h, MIN_KEYS);
    FlatIs(blocks, s);
    var n := blocks[s];
    if n.IsLeaf() {
      LeafFlat(blocks, n);
      var n' := Node(n.entries[1..], []);
      LeafFlat(blocks, n');
      FixedHolds(blocks, n', h, MIN_KEYS);
      HoldsFlat(blocks + [n'], |blocks|, Short(n'), h, MIN_KEYS, n'.entries);
      assert n.entries == [n.entries[0]] + n.entries[1..];
    } else {
      var t := DeleteMin(blocks, n.children[0], h - 1);
      DeleteMinFacts(blocks, n.children[0], h - 1);
      HoldsParts(t.blocks, t.at, t.underflow, h - 1, MIN_KEYS, Flat(t.blocks, t.at));
      FixReplaced(blocks, t.blocks, n, 0, t.at, t.underflow, h, MIN_KEYS);
      ChildReplaced(blocks, n, 0, n.children[0]);
      var ls := Lists(blocks, n.children);
      BeforeNone(n.entries[..0], ls[..0]);
      var d := FixChild(t.blocks, WithChild(n, 0, t.at), 0, t.underflow);
      var a := After(n.entries[0..], ls[1..]);
      HoldsFlat(d.blocks, d.del.at, d.del.underflow, h, MIN_KEYS, [] + Flat(t.blocks, t.at) + a);
      assert [] + ([t.entry] + Flat(t.blocks, t.at)) + a == [t.entry] + ([] + Flat(t.blocks, t.at) + a);
    }
  }

  lemma HoldsFlat(blocks: seq<Node>, at: nat, under: bool, h: nat, lo: nat, entries: seq<Entry>)
    requires Holds(blocks, at, under, h, lo, entries)
    ensures Formed(blocks) && at < |blocks| && Flat(blocks, at) == entries
    ensures Holds(blocks, at, under, h, lo, Flat(blocks, at))
  {
    hide Heads, Formed, Flat;
  }

  lemma HoldsParts(blocks: seq<Node>, at: nat, under: bool, h: nat, lo: nat, entries: seq<Entry>)
    requires Holds(blocks, at, under, h, lo, entries)
    ensures Formed(blocks) && Tree(blocks, at, h, if lo == 0 then 0 else lo - 1) && (under <==> Short(blocks[at]))
  {
    hide Heads, Formed, Flat;
  }

  /** The largest entry comes out, and the rest is what is left. */
  lemma {:induction false} DeleteMaxFacts(blocks: seq<Node>, s: nat, h: nat)
    requires Balanced(blocks, s, h, MIN_KEYS)
    ensures var t := DeleteMax(blocks, s, h);
            && Formed(t.blocks) && Holds(t.blocks, t.at, t.underflow, h, MIN_KEYS, Flat(t.blocks, t.at))
            && Flat(blocks, s) == Flat(t.blocks, t.at) + [t.entry]
    decreases h
  {
    hide Flat, Kids, Heads, Lists, Before, After, Holds, FixChild, Formed, NodeFlat, Weave;
    BalancedNode(blocks, s, h, MIN_KEYS);
    FlatIs(blocks, s);
    var n := blocks[s];
    var last := |n.entries|;
    if n.IsLeaf() {
      LeafFlat(blocks, n);
      var n' := Node(n.entries[..last - 1], []);
      LeafFlat(blocks, n');
      FixedHolds(blocks, n', h, MIN_KEYS);
      HoldsFlat(blocks + [n'], |blocks|, Short(n'), h, MIN_KEYS, n'.entries);
      assert n.entries == n.entries[..last - 1] + [n.entries[last - 1]];
    } else {
      var t := DeleteMax(blocks, n.children[last], h - 1);
      DeleteMaxFacts(blocks, n.children[last], h - 1);
      HoldsParts(t.blocks, t.at, t.underflow, h - 1, MIN_KEYS, Flat(t.blocks, t.at));
      FixReplaced(blocks, t.blocks, n, last, t.at, t.underflow, h, MIN_KEYS);
      ChildReplaced(blocks, n, last, n.children[last]);
      var ls := Lists(blocks, n.children);
      AfterNone(n.entries[last..], ls[last + 1..]);
      var d := FixChild(t.blocks, WithChild(n, last, t.at), last, t.underflow);
      var b := Before(n.entries[..last], ls[..last]);
      HoldsFlat(d.blocks, d.del.at, d.del.underflow, h, MIN_KEYS, b + Flat(t.blocks, t.at) + []);
      assert b + (Flat(t.blocks, t.at) + [t.entry]) + [] == b + Flat(t.blocks, t.at) + [] + [t.entry];
    }
  }

  // ---------------------------------------------------------------- removing a separator

  /** Taking the separator `i` out of a sorted node: what is left of it and right of it. */
  lemma SeparatorOut(blocks: seq<Node>, n: Node, i: nat)
    requires Formed(blocks) && Shaped(n, |blocks|) && !n.IsLeaf() && i < |n.entries| && Sorted(NodeFlat(blocks, n))
    ensures var es, ls := n.entries, Lists(blocks, n.children);
            Remove(NodeFlat(blocks, n), es[i].key)
            == Before(es[..i], ls[..i]) + (ls[i] + ls[i + 1]) + After(es[i + 1..], ls[i + 2..])
  {
    hide Flat, Formed, Lists, Before, After, Weave, Sorted, Remove, Rank;
    var es, ls := n.entries, Lists(blocks, n.children);
    PairParts(blocks, n, i);
    var b, a := Before(es[..i], ls[..i]), After(es[i + 1..], ls[i + 2..]);
    Regrouped(b, ls[i], es[i], ls[i + 1], a);
    SortedAround(b + ls[i], es[i], ls[i + 1] + a);
    CutAt(b + ls[i], [es[i]], ls[i + 1] + a, es[i].key, []);
  }

  lemma Regrouped(b: seq<Entry>, l: seq<Entry>, e: Entry, r: seq<Entry>, a: seq<Entry>)
    ensures b + (l + [e] + r) + a == (b + l) + [e] + (r + a)
    ensures (b + l) + (r + a) == b + (l + r) + a
  {
  }

  /** The node with separator `i` replaced by `e` and child `j` by `c`. */
  lemma SeparatorSwapped(blocks: seq<Node>, later: seq<Node>, n: Node, i: nat, e: Entry, j: nat, c: nat, under: bool, h: nat, lo: nat)
    requires Formed(blocks) && blocks <= later && Shaped(n, |blocks|) && h > 0 && lo <= |n.entries| < MAX_CHILDREN
    requires Kids(blocks, n.children, h) && !n.IsLeaf() && i < |n.entries| && (j == i || j == i + 1)
    requires Formed(later) && Tree(later, c, h - 1, MIN_KEYS - 1) && (under <==> Short(later[c]))
    ensures Shape(WithChild(WithEntry(n, i, e), j, c), |later|)
    ensures var es, ls := n.entries, Lists(blocks, n.children);
            var d := FixChild(later, WithChild(WithEntry(n, i, e), j, c), j, under);
            Holds(d.blocks, d.del.at, d.del.underflow, h, lo,
                  Before(es[..i], ls[..i])
                  + (if j == i then Flat(later, c) + [e] + ls[i + 1] else ls[i] + [e] + Flat(later, c))
                  + After(es[i + 1..], ls[i + 2..]))
  {
    hide Flat, Formed, Kids, Heads, KidsBut, FixChild, Lists, Before, After, Holds, NodeFlat;
    var n1 := WithEntry(n, i, e);
    var n2 := WithChild(n1, j, c);
    KidsButOne(blocks, later, n.children, h, j, c);
    ListsStay(blocks, later, n.children);
    ShapedMore(n, |blocks|, |later|);
    SwappedShape(n, i, e, j, c, |later|);
    var es, ls, ls2 := n.entries, Lists(later, n.children), Lists(later, n2.children);
    PairParts(later, n2, i);
    assert ls2[..i] == ls[..i] && ls2[i + 2..] == ls[i + 2..];
    assert n2.entries[..i] == es[..i] && n2.entries[i + 1..] == es[i + 1..];
    FixChildFacts(later, n2, j, under, h, lo);
  }

  lemma SwappedShape(n: Node, i: nat, e: Entry, j: nat, c: nat, bound: nat)
    requires Shaped(n, bound) && !n.IsLeaf() && i < |n.entries| && j < |n.children| && c < bound
    ensures Shaped(WithChild(WithEntry(n, i, e), j, c), bound)
  {
  }

  /** What a deletion's result is, for a block of at least `lo` keys. */
  ghost predicate Deletes(blocks: seq<Node>, s: nat, k: Key, r: Deleted, h: nat, lo: nat)
    requires Formed(blocks) && s < |blocks|
  {
    match r.del
    case NotFound => Lookup(Flat(blocks, s), k).None?
    case Removed(at, under) =>
      Lookup(Flat(blocks, s), k).Some? && Holds(r.blocks, at, under, h, lo, Remove(Flat(blocks, s), k))
  }

  lemma DeleteLeaf(blocks: seq<Node>, s: nat, k: Key, lo: nat)
    requires Balanced(blocks, s, 0, lo) && Sorted(Flat(blocks, s))
    ensures Balanced(blocks, s, 0, Least(0)) && Deletes(blocks, s, k, Delete(blocks, s, k, 0), 0, lo)
  {
    hide Flat, Kids, Heads, Holds, Formed, NodeFlat, Rank, Pos, FoundAt;
    BalancedNode(blocks, s, 0, lo);
    LowerTo(blocks, s, 0, lo, 0);
    FlatIs(blocks, s);
    var n := blocks[s];
    LeafFlat(blocks, n);
    var es, i := n.entries, Pos(n.entries, k);
    LeafSearch(es, k);
    if FoundAt(es, k, i) {
      FoundKey(es, k, i);
      CutAt(es[..i], [es[i]], es[i + 1..], k, []);
      LookupHit(es, i);
      var n' := WithoutEntry(n, i);
      LeafFlat(blocks, n');
      FixedHolds(blocks, n', 0, lo);
    } else {
      LeafMiss(es[..i], es[i..], k);
      assert es[..i] + es[i..] == es;
    }
  }

  lemma LowerTo(blocks: seq<Node>, s: nat, h: nat, lo: nat, lower: nat)
    requires Balanced(blocks, s, h, lo) && lower <= lo
    ensures Balanced(blocks, s, h, lower)
  {
  }

  lemma LookupHit(es: seq<Entry>, i: nat)
    requires i < |es|
    ensures Lookup(es, es[i].key).Some?
  {
    LookupIn(es, es[i].key);
    assert es[i] in es;
  }

  lemma LeafMiss(p: seq<Entry>, q: seq<Entry>, k: Key)
    requires AllBelow(p, k) && AllAbove(q, k)
    ensures Lookup(p + q, k).None?
  {
    hide Rank;
    LookupIn(p + q, k);
  }

  lemma DeleteSeparator(blocks: seq<Node>, s: nat, k: Key, h: nat, lo: nat)
    requires Least(h) <= lo && Balanced(blocks, s, h, lo) && Sorted(Flat(blocks, s)) && h > 0
    requires FoundAt(blocks[s].entries, k, Pos(blocks[s].entries, k))
    ensures Balanced(blocks, s, h, Least(h)) && Deletes(blocks, s, k, Delete(blocks, s, k, h), h, lo)
  {
    hide Flat, Kids, Heads, Holds, Formed, NodeFlat, Rank, Pos, Lists, Before, After, FixChild, Sorted, Remove, Shaped,
         BoundaryLeafLen, Lookup;
    BalancedNode(blocks, s, h, lo);
    LowerTo(blocks, s, h, lo, Least(h));
    FlatIs(blocks, s);
    var n := blocks[s];
    var i, ls := Pos(n.entries, k), Lists(blocks, n.children);
    SeparatorOut(blocks, n, i);
    SeparatorFound(blocks, n, i);
    if BoundaryLeafLen(blocks, n.children[i], false) < BoundaryLeafLen(blocks, n.children[i + 1], true) {
      var t := DeleteMin(blocks, n.children[i + 1], h - 1);
      DeleteMinFacts(blocks, n.children[i + 1], h - 1);
      HoldsParts(t.blocks, t.at, t.underflow, h - 1, MIN_KEYS, Flat(t.blocks, t.at));
      SeparatorSwapped(blocks, t.blocks, n, i, t.entry, i + 1, t.at, t.underflow, h, lo);
      assert ls[i] + ([t.entry] + Flat(t.blocks, t.at)) == ls[i] + [t.entry] + Flat(t.blocks, t.at);
    } else {
      var t := DeleteMax(blocks, n.children[i], h - 1);
      DeleteMaxFacts(blocks, n.children[i], h - 1);
      HoldsParts(t.blocks, t.at, t.underflow, h - 1, MIN_KEYS, Flat(t.blocks, t.at));
      SeparatorSwapped(blocks, t.blocks, n, i, t.entry, i, t.at, t.underflow, h, lo);
    }
  }

  lemma SeparatorFound(blocks: seq<Node>, n: Node, i: nat)
    requires Formed(blocks) && Shaped(n, |blocks|) && !n.IsLeaf() && i < |n.entries|
    ensures Lookup(NodeFlat(blocks, n), n.entries[i].key).Some?
  {
    hide Flat, Formed, Lists, Before, After, Lookup, NodeFlat;
    PairParts(blocks, n, i);
    LookupIn(NodeFlat(blocks, n), n.entries[i].key);
    assert n.entries[i] in NodeFlat(blocks, n);
  }

  lemma LookupMiddle(p: seq<Entry>, f: seq<Entry>, q: seq<Entry>, k: Key)
    requires AllBelow(p, k) && AllAbove(q, k)
    ensures Lookup(p + f + q, k).Some? <==> Lookup(f, k).Some?
  {
    hide Rank, Lookup;
    LookupIn(p + f + q, k);
    LookupIn(f, k);
  }

  lemma {:induction false} DeleteBelow(blocks: seq<Node>, s: nat, k: Key, h: nat, lo: nat)
    requires Least(h) <= lo && Balanced(blocks, s, h, lo) && Sorted(Flat(blocks, s)) && h > 0
    requires !FoundAt(blocks[s].entries, k, Pos(blocks[s].entries, k))
    ensures Balanced(blocks, s, h, Least(h)) && Deletes(blocks, s, k, Delete(blocks, s, k, h), h, lo)
    decreases h, 0
  {
    hide Flat, Kids, Heads, Holds, Formed, NodeFlat, Rank, Pos, Lists, Before, After, FixChild, Sorted, Remove, Shaped,
         Lookup, FoundAt, AllBelow, AllAbove;
    BalancedNode(blocks, s, h, lo);
    LowerTo(blocks, s, h, lo, Least(h));
    FlatIs(blocks, s);
    var n := blocks[s];
    var i, ls := Pos(n.entries, k), Lists(blocks, n.children);
    var c := n.children[i];
    UnderChild(blocks, n, k);
    LookupMiddle(Before(n.entries[..i], ls[..i]), ls[i], After(n.entries[i..], ls[i + 1..]), k);
    CutMiddle(Before(n.entries[..i], ls[..i]), ls[i], After(n.entries[i..], ls[i + 1..]), k, []);
    LowerFill(blocks, c, h - 1);
    DeleteFacts(blocks, c, k, h - 1, MIN_KEYS);
    var r := Delete(blocks, c, k, h - 1);
    if r.del.Removed? {
      HoldsParts(r.blocks, r.del.at, r.del.underflow, h - 1, MIN_KEYS, Remove(Flat(blocks, c), k));
      HoldsFlat(r.blocks, r.del.at, r.del.underflow, h - 1, MIN_KEYS, Remove(Flat(blocks, c), k));
      FixReplaced(blocks, r.blocks, n, i, r.del.at, r.del.underflow, h, lo);
    }
  }

  /** Deletion does to the entries what a removal does to the map, and says whether the key
      was there. */
  lemma {:induction false} DeleteFacts(blocks: seq<Node>, s: nat, k: Key, h: nat, lo: nat)
    requires Least(h) <= lo && Balanced(blocks, s, h, lo) && Sorted(Flat(blocks, s))
    ensures Balanced(blocks, s, h, Least(h)) && Deletes(blocks, s, k, Delete(blocks, s, k, h), h, lo)
    decreases h, 1
  {
    if h == 0 {
      DeleteLeaf(blocks, s, k, lo);
    } else if FoundAt(blocks[s].entries, k, Pos(blocks[s].entries, k)) {
      DeleteSeparator(blocks, s, k, h, lo);
    } else {
      DeleteBelow(blocks, s, k, h, lo);
    }
  }

  // ---------------------------------------------------------------- del

  /** The height of the tree under block `s`. */
  ghost function Height(blocks: seq<Node>, s: nat): nat
    requires Formed(blocks) && s < |blocks|
    decreases s
  {
    assert Shaped(blocks[s], s);
    if blocks[s].IsLeaf() then 0 else 1 + Height(blocks, blocks[s].children[0])
  }

  lemma {:induction false} HeightIs(blocks: seq<Node>, s: nat, h: nat, lo: nat)
    requires Balanced(blocks, s, h, lo)
    ensures s < |blocks| && Height(blocks, s) == h
    decreases h
  {
    BalancedNode(blocks, s, h, lo);
    if h > 0 {
      HeightIs(blocks, blocks[s].children[0], h - 1, MIN_KEYS);
    }
  }

  lemma SoundRoot(blocks: seq<Node>)
    requires Sound(blocks) && blocks != []
    ensures var s := |blocks| - 1; var h := Height(blocks, s);
            Balanced(blocks, s, h, Least(h)) && Sorted(Flat(blocks, s)) && Entries(blocks) == Flat(blocks, s)
  {
    hide Flat, Sorted;
    var h: nat :| Rooted(blocks, h);
    HeightIs(blocks, |blocks| - 1, h, Least(h));
  }

  /** A root left without keys gives way to its only child. */
  function Shrink(blocks: seq<Node>): seq<Node>
    requires blocks != []
  {
    var n := blocks[|blocks| - 1];
    if n.entries == [] && !n.IsLeaf() && n.children[0] < |blocks| then blocks + [blocks[n.children[0]]] else blocks
  }

  /** Delete `k`: the new blocks, and whether it was there. */
  ghost function DelAll(blocks: seq<Node>, k: Key): (seq<Node>, bool)
    requires Sound(blocks)
  {
    if blocks == [] then (blocks, false)
    else
      SoundRoot(blocks);
      var r := Delete(blocks, |blocks| - 1, k, Height(blocks, |blocks| - 1));
      match r.del
      case NotFound => (blocks, false)
      case Removed(at, _) => (Shrink(r.blocks), true)
  }

  lemma ShrinkFacts(blocks: seq<Node>, h: nat, lo: nat, under: bool, entries: seq<Entry>)
    requires blocks != [] && Holds(blocks, |blocks| - 1, under, h, lo, entries) && lo <= 1 && Sorted(entries)
    ensures Sound(Shrink(blocks)) && Entries(Shrink(blocks)) == entries
  {
    hide Flat, Heads, Kids, Formed, Holds, Sorted, Lists;
    var s := |blocks| - 1;
    HoldsParts(blocks, s, under, h, lo, entries);
    HoldsFlat(blocks, s, under, h, lo, entries);
    BalancedNode(blocks, s, h, 0);
    var n := blocks[s];
    if n.entries == [] && !n.IsLeaf() {
      var c := n.children[0];
      BalancedNode(blocks, c, h - 1, MIN_KEYS);
      FlatIs(blocks, s);
      WeaveOne(Flat(blocks, c));
      assert Lists(blocks, n.children) == [Flat(blocks, c)];
      FlatIs(blocks, c);
      AppendFacts(blocks, blocks[c]);
      HeadsParts(blocks, blocks[c], h - 1, Least(h - 1));
      AppendTree(blocks, blocks[c], h - 1, Least(h - 1));
      assert Rooted(blocks + [blocks[c]], h - 1);
    } else {
      HeadsParts(blocks, n, h, Least(h));
      assert Rooted(blocks, h);
    }
  }

  /** A deletion acts on the tree as on the map it stands for, keeps it balanced and sorted,
      and appends nothing if the key is absent. */
  lemma DelFacts(blocks: seq<Node>, k: Key)
    requires Sound(blocks)
    ensures var (r, found) := DelAll(blocks, k);
            && Sound(r) && blocks <= r && Entries(r) == Remove(Entries(blocks), k)
            && (found <==> Lookup(Entries(blocks), k).Some?) && (!found ==> r == blocks)
  {
    hide Flat, Balanced, Sorted, Remove, Lookup, Entries, Height, DelAll, Rooted, Formed;
    if blocks == [] {
      DelNone(k);
    } else {
      var s, h := |blocks| - 1, Height(blocks, |blocks| - 1);
      SoundRoot(blocks);
      DelRoot(blocks, k, s, h);
    }
  }

  lemma DelNone(k: Key)
    ensures Sound([]) && DelAll([], k) == ([], false) && Entries([]) == [] == Remove([], k) && Lookup([], k).None?
  {
  }

  lemma DelRoot(blocks: seq<Node>, k: Key, s: nat, h: nat)
    requires Sound(blocks) && s + 1 == |blocks| && h == Height(blocks, s) && Balanced(blocks, s, h, Least(h))
    requires Sorted(Flat(blocks, s)) && Entries(blocks) == Flat(blocks, s)
    ensures var (r, found) := DelAll(blocks, k);
            && Sound(r) && blocks <= r && Entries(r) == Remove(Entries(blocks), k)
            && (found <==> Lookup(Entries(blocks), k).Some?) && (!found ==> r == blocks)
  {
    hide Flat, Balanced, Holds, Sorted, Remove, Sound, Lookup, Entries, Delete, Height, Shrink;
    DeleteFacts(blocks, s, k, h, Least(h));
    CutSorted(Flat(blocks, s), k, []);
    var r := Delete(blocks, s, k, h);
    if r.del.NotFound? {
      RemoveAbsent(Flat(blocks, s), k);
    } else {
      ShrinkFacts(r.blocks, h, Least(h), r.del.underflow, Remove(Flat(blocks, s), k));
      ShrinkGrows(r.blocks);
      PrefixTrans(blocks, r.blocks, Shrink(r.blocks));
    }
  }

  lemma ShrinkGrows(blocks: seq<Node>)
    requires blocks != []
    ensures blocks <= Shrink(blocks)
  {
  }
}
