/** B-tree nodes as append-only blocks: the entry list a block stands for, and the shape of the
    subtree under it. */
module BeeNodes {
  import opened BeeKeys

  /** A node splits once it would hold this many keys. */
  const MAX_CHILDREN: nat := 9

  /** The least number of keys of a node that is not the root. */
  const MIN_KEYS: nat := 4

  datatype Node = Node(entries: seq<Entry>, children: seq<nat>) {
    predicate IsLeaf() {
      children == []
    }
  }

  // ---------------------------------------------------------------- weaving entries and lists

  /** The lists of the children with the entries between them; a leaf's entries alone. */
  ghost function Weave(es: seq<Entry>, ls: seq<seq<Entry>>): seq<Entry> {
    if ls == [] then es
    else if es == [] then ls[0]
    else ls[0] + [es[0]] + Weave(es[1..], ls[1..])
  }

  /** Each list followed by its entry. */
  ghost function Before(es: seq<Entry>, ls: seq<seq<Entry>>): seq<Entry>
    requires |ls| == |es|
  {
    if es == [] then [] else ls[0] + [es[0]] + Before(es[1..], ls[1..])
  }

  /** Each entry followed by its list. */
  ghost function After(es: seq<Entry>, ls: seq<seq<Entry>>): seq<Entry>
    requires |ls| == |es|
  {
    if es == [] then [] else [es[0]] + ls[0] + After(es[1..], ls[1..])
  }

  lemma {:induction false} WeaveAfter(es: seq<Entry>, ls: seq<seq<Entry>>)
    requires |ls| == |es| + 1
    ensures Weave(es, ls) == ls[0] + After(es, ls[1..])
  {
    if es != [] {
      WeaveAfter(es[1..], ls[1..]);
      assert ls[0] + [es[0]] + (ls[1] + After(es[1..], ls[1..][1..])) == ls[0] + ([es[0]] + ls[1] + After(es[1..], ls[1..][1..]));
    }
  }

  /** The woven list around child `i`. */
  lemma {:induction false} WeaveAt(es: seq<Entry>, ls: seq<seq<Entry>>, i: nat)
    requires |ls| == |es| + 1 && i <= |es|
    ensures Weave(es, ls) == Before(es[..i], ls[..i]) + ls[i] + After(es[i..], ls[i + 1..])
  {
    if i == 0 {
      WeaveAfter(es, ls);
      assert es[0..] == es && Before(es[..0], ls[..0]) == [];
    } else {
      WeaveAt(es[1..], ls[1..], i - 1);
      assert es[1..][..i - 1] == es[..i][1..] && ls[1..][..i - 1] == ls[..i][1..];
      assert es[1..][i - 1..] == es[i..] && ls[1..][i..] == ls[i + 1..];
      var b, a := Before(es[..i][1..], ls[..i][1..]), After(es[i..], ls[i + 1..]);
      assert ls[0] + [es[0]] + (b + ls[i] + a) == (ls[0] + [es[0]] + b) + ls[i] + a;
    }
  }

  lemma AfterCons(e: Entry, l: seq<Entry>, es: seq<Entry>, ls: seq<seq<Entry>>)
    requires |ls| == |es|
    ensures After([e] + es, [l] + ls) == [e] + l + After(es, ls)
  {
    assert ([e] + es)[1..] == es && ([l] + ls)[1..] == ls;
  }

  /** Weaving from the parts around child `i`. */
  lemma WeaveParts(es1: seq<Entry>, ls1: seq<seq<Entry>>, l: seq<Entry>, es2: seq<Entry>, ls2: seq<seq<Entry>>)
    requires |ls1| == |es1| && |ls2| == |es2|
    ensures Weave(es1 + es2, ls1 + [l] + ls2) == Before(es1, ls1) + l + After(es2, ls2)
  {
    var es, ls, i := es1 + es2, ls1 + [l] + ls2, |es1|;
    hide Weave, Before, After;
    WeaveAt(es, ls, i);
    assert es[..i] == es1 && es[i..] == es2 && ls[..i] == ls1 && ls[i] == l && ls[i + 1..] == ls2;
  }

  /** Weaving from the parts around two neighbours. */
  lemma WeavePair(es1: seq<Entry>, ls1: seq<seq<Entry>>, l: seq<Entry>, e: Entry, r: seq<Entry>,
                  es2: seq<Entry>, ls2: seq<seq<Entry>>)
    requires |ls1| == |es1| && |ls2| == |es2|
    ensures Weave(es1 + [e] + es2, ls1 + [l, r] + ls2) == Before(es1, ls1) + (l + [e] + r) + After(es2, ls2)
  {
    hide Weave, Before, After;
    WeaveParts(es1, ls1, l, [e] + es2, [r] + ls2);
    AfterCons(e, r, es2, ls2);
    Regroup(es1, [e], es2);
    assert [l] + [r] == [l, r];
    Regroup(ls1, [l], [r] + ls2);
    Regroup([l], [r], ls2);
    Regroup(ls1, [l, r], ls2);
    Around(Before(es1, ls1), l, e, r, After(es2, ls2));
  }

  lemma Regroup<T>(a: seq<T>, b: seq<T>, c: seq<T>)
    ensures a + (b + c) == a + b + c
  {
  }

  lemma Around(b: seq<Entry>, l: seq<Entry>, e: Entry, r: seq<Entry>, a: seq<Entry>)
    ensures b + l + ([e] + r + a) == b + (l + [e] + r) + a
    ensures b + l + ([e] + r + a) == (b + l + []) + [e] + (r + a)
  {
  }

  /** A woven list cut at entry `m` is two woven lists. */
  lemma WeaveCut(es: seq<Entry>, ls: seq<seq<Entry>>, m: nat)
    requires |ls| == |es| + 1 && m < |es|
    ensures Weave(es, ls) == Weave(es[..m], ls[..m + 1]) + [es[m]] + Weave(es[m + 1..], ls[m + 1..])
  {
    hide Weave, Before, After;
    WeaveAt(es, ls, m);
    CutLeft(es, ls, m);
    WeaveAfter(es[m + 1..], ls[m + 1..]);
    AfterHead(es, ls, m);
    Around(Before(es[..m], ls[..m]), ls[m], es[m], ls[m + 1], After(es[m + 1..], ls[m + 2..]));
  }

  lemma CutLeft(es: seq<Entry>, ls: seq<seq<Entry>>, m: nat)
    requires |ls| == |es| + 1 && m < |es|
    ensures Weave(es[..m], ls[..m + 1]) == Before(es[..m], ls[..m]) + ls[m] + []
  {
    hide Weave, Before, After;
    WeaveAt(es[..m], ls[..m + 1], m);
    assert es[..m][..m] == es[..m] && ls[..m + 1][..m] == ls[..m];
    AfterNone(es[..m][m..], ls[..m + 1][m + 1..]);
  }

  lemma AfterHead(es: seq<Entry>, ls: seq<seq<Entry>>, m: nat)
    requires |ls| == |es| + 1 && m < |es|
    ensures After(es[m..], ls[m + 1..]) == [es[m]] + ls[m + 1] + After(es[m + 1..], ls[m + 2..])
    ensures ls[m + 1..][0] == ls[m + 1] && ls[m + 1..][1..] == ls[m + 2..]
  {
    assert es[m..][1..] == es[m + 1..] && ls[m + 1..][1..] == ls[m + 2..];
  }

  lemma AfterNone(es: seq<Entry>, ls: seq<seq<Entry>>)
    requires es == [] && ls == []
    ensures After(es, ls) == []
  {
  }

  // ---------------------------------------------------------------- blocks

  ghost predicate Under(cs: seq<nat>, bound: nat) {
    forall i :: 0 <= i < |cs| ==> cs[i] < bound
  }

  /** Children point below `bound`, and there are none or one more than the entries. */
  ghost predicate Shaped(n: Node, bound: nat) {
    (n.IsLeaf() || |n.children| == |n.entries| + 1) && Under(n.children, bound)
  }

  /** Every block points only at earlier ones. */
  ghost predicate Formed(blocks: seq<Node>) {
    forall s :: 0 <= s < |blocks| ==> Shaped(blocks[s], s)
  }

  /** The entries under block `s`, in order. */
  ghost function Flat(blocks: seq<Node>, s: nat): seq<Entry>
    requires Formed(blocks) && s < |blocks|
    decreases s, 1
  {
    Weave(blocks[s].entries, ListsBelow(blocks, blocks[s].children, s))
  }

  ghost function ListsBelow(blocks: seq<Node>, cs: seq<nat>, bound: nat): (r: seq<seq<Entry>>)
    requires Formed(blocks) && bound <= |blocks| && Under(cs, bound)
    ensures |r| == |cs| && forall i :: 0 <= i < |cs| ==> r[i] == Flat(blocks, cs[i])
    decreases bound, 0, |cs|
  {
    hide Weave, Shaped;
    if cs == [] then [] else [Flat(blocks, cs[0])] + ListsBelow(blocks, cs[1..], bound)
  }

  /** The entry lists of the blocks `cs`. */
  ghost function Lists(blocks: seq<Node>, cs: seq<nat>): (r: seq<seq<Entry>>)
    requires Formed(blocks) && Under(cs, |blocks|)
    ensures |r| == |cs| && forall i :: 0 <= i < |cs| ==> r[i] == Flat(blocks, cs[i])
  {
    ListsBelow(blocks, cs, |blocks|)
  }

  /** The entries under a node over `blocks`. */
  ghost function NodeFlat(blocks: seq<Node>, n: Node): seq<Entry>
    requires Formed(blocks) && Shaped(n, |blocks|)
  {
    Weave(n.entries, Lists(blocks, n.children))
  }

  lemma FlatIs(blocks: seq<Node>, s: nat)
    requires Formed(blocks) && s < |blocks|
    ensures Shaped(blocks[s], |blocks|) && Flat(blocks, s) == NodeFlat(blocks, blocks[s])
  {
    hide Weave;
    assert Shaped(blocks[s], s);
    var cs := blocks[s].children;
    assert ListsBelow(blocks, cs, s) == Lists(blocks, cs);
  }

  /** Later blocks change nothing under earlier ones. */
  lemma {:induction false} FlatStays(blocks: seq<Node>, later: seq<Node>, s: nat)
    requires Formed(blocks) && Formed(later) && blocks <= later && s < |blocks|
    ensures Flat(later, s) == Flat(blocks, s)
    decreases s
  {
    hide Weave;
    var cs := blocks[s].children;
    assert later[s] == blocks[s] && Shaped(blocks[s], s);
    forall i | 0 <= i < |cs|
      ensures Flat(later, cs[i]) == Flat(blocks, cs[i])
    {
      FlatStays(blocks, later, cs[i]);
    }
    assert ListsBelow(later, cs, s) == ListsBelow(blocks, cs, s);
  }

  lemma ListsStay(blocks: seq<Node>, later: seq<Node>, cs: seq<nat>)
    requires Formed(blocks) && Formed(later) && blocks <= later && Under(cs, |blocks|)
    ensures Lists(later, cs) == Lists(blocks, cs)
  {
    hide Flat;
    forall i | 0 <= i < |cs|
      ensures Flat(later, cs[i]) == Flat(blocks, cs[i])
    {
      FlatStays(blocks, later, cs[i]);
    }
  }

  lemma NodeFlatStays(blocks: seq<Node>, later: seq<Node>, n: Node)
    requires Formed(blocks) && Formed(later) && blocks <= later && Shaped(n, |blocks|)
    ensures Shaped(n, |later|) && NodeFlat(later, n) == NodeFlat(blocks, n)
  {
    hide Weave, Lists;
    ListsStay(blocks, later, n.children);
  }

  /** Appending a node. */
  lemma AppendFacts(blocks: seq<Node>, n: Node)
    requires Formed(blocks) && Shaped(n, |blocks|)
    ensures Formed(blocks + [n]) && blocks <= blocks + [n] && Flat(blocks + [n], |blocks|) == NodeFlat(blocks, n)
  {
    hide Weave, NodeFlat, Flat;
    var later := blocks + [n];
    forall s | 0 <= s < |later|
      ensures Shaped(later[s], s)
    {
    }
    FlatIs(later, |blocks|);
    NodeFlatStays(blocks, later, n);
  }

  // ---------------------------------------------------------------- balance

  /** Node `n` heads a tree of height `h` over `blocks`, with at least `lo` keys itself and a
      legal fill below. */
  ghost predicate Heads(blocks: seq<Node>, n: Node, h: nat, lo: nat)
    decreases h, 1
  {
    lo <= |n.entries| < MAX_CHILDREN && Kids(blocks, n.children, h)
  }

  /** `cs` are the roots of the subtrees of a node at height `h`. */
  ghost predicate Kids(blocks: seq<Node>, cs: seq<nat>, h: nat)
    decreases h, 0
  {
    if h == 0 then cs == []
    else cs != [] && forall i :: 0 <= i < |cs| ==> cs[i] < |blocks| && Heads(blocks, blocks[cs[i]], h - 1, MIN_KEYS)
  }

  ghost predicate Tree(blocks: seq<Node>, s: nat, h: nat, lo: nat) {
    s < |blocks| && Heads(blocks, blocks[s], h, lo)
  }

  lemma {:induction false} KidsStay(blocks: seq<Node>, later: seq<Node>, cs: seq<nat>, h: nat)
    requires blocks <= later && Kids(blocks, cs, h)
    ensures Kids(later, cs, h)
    decreases h
  {
    if h > 0 {
      forall i | 0 <= i < |cs|
        ensures cs[i] < |later| && Heads(later, later[cs[i]], h - 1, MIN_KEYS)
      {
        assert later[cs[i]] == blocks[cs[i]];
        KidsStay(blocks, later, blocks[cs[i]].children, h - 1);
      }
    }
  }

  /** An appended node heads its tree. */
  lemma AppendTree(blocks: seq<Node>, n: Node, h: nat, lo: nat)
    requires Heads(blocks, n, h, lo)
    ensures Tree(blocks + [n], |blocks|, h, lo)
  {
    hide Kids;
    KidsStay(blocks, blocks + [n], n.children, h);
  }

  /** The last block is the root: at least one key unless it is a leaf. */
  ghost predicate Rooted(blocks: seq<Node>, h: nat) {
    blocks != [] && Tree(blocks, |blocks| - 1, h, if h == 0 then 0 else 1)
  }
}
