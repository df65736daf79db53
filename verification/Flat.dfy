/** Flat-tree index arithmetic: leaves at even indices, a node at depth `d` covering `2^d`
    consecutive blocks. */
module Flat {

  function Pow2(n: nat): (p: nat)
    ensures p >= 1
  {
    if n == 0 then 1 else 2 * Pow2(n - 1)
  }

  /** Trailing zeros of `i + 1`. */
  function Depth(i: nat): nat {
    if i % 2 == 0 then 0 else 1 + Depth(i / 2)
  }

  /** Horizontal offset of a node within its depth. */
  function Offset(i: nat): nat {
    if i % 2 == 0 then i / 2
    else
      OddQuotient(i);
      ((i + 1) / Pow2(Depth(i)) - 1) / 2
  }

  function Index(depth: nat, offset: nat): nat {
    IndexPositive(depth, offset);
    (1 + 2 * offset) * Pow2(depth) - 1
  }

  function Parent(i: nat): nat {
    Index(Depth(i) + 1, Offset(i) / 2)
  }

  function Sibling(i: nat): nat {
    Index(Depth(i), if Offset(i) % 2 == 0 then Offset(i) + 1 else Offset(i) - 1)
  }

  function Left(i: nat): nat
    requires i % 2 == 1
  {
    Index(Depth(i) - 1, Offset(i) * 2)
  }

  function Right(i: nat): nat
    requires i % 2 == 1
  {
    Index(Depth(i) - 1, Offset(i) * 2 + 1)
  }

  /** The blocks `[First(i), End(i))` that node `i` covers. */
  function First(i: nat): nat {
    Offset(i) * Pow2(Depth(i))
  }

  function End(i: nat): nat {
    First(i) + Pow2(Depth(i))
  }

  // ---------------------------------------------------------------- depth and offset

  lemma MulMono(a: nat, b: nat, c: nat)
    requires a <= b
    ensures a * c <= b * c
  {
  }

  lemma IndexPositive(depth: nat, offset: nat)
    ensures (1 + 2 * offset) * Pow2(depth) >= 1
  {
    MulMono(1, 1 + 2 * offset, Pow2(depth));
  }

  lemma {:induction false} IndexStep(d: nat, o: nat)
    ensures Index(d + 1, o) == 2 * Index(d, o) + 1
    ensures Index(0, o) == 2 * o
  {
    var m := 1 + 2 * o;
    assert m * (2 * Pow2(d)) == 2 * (m * Pow2(d));
  }

  lemma MulDiv(a: nat, p: nat)
    requires p >= 1
    ensures (a * p) / p == a
  {
    var q := (a * p) / p;
    assert q * p + (a * p) % p == a * p;
    if q < a {
      MulMono(q + 1, a, p);
    }
    if q > a {
      MulMono(a + 1, q, p);
    }
  }

  /** Every node is the one at its own depth and offset. */
  lemma {:induction false} OddQuotient(i: nat)
    ensures exists o: nat :: i == Index(Depth(i), o)
    ensures (i + 1) / Pow2(Depth(i)) >= 1
  {
    hide Index, Pow2;
    if i % 2 == 0 {
      IndexStep(0, i / 2);
      IndexQuotient(Depth(i), i / 2);
    } else {
      OddQuotient(i / 2);
      var o: nat :| i / 2 == Index(Depth(i / 2), o);
      IndexStep(Depth(i / 2), o);
      IndexQuotient(Depth(i), o);
    }
  }

  lemma IndexQuotient(d: nat, o: nat)
    ensures (Index(d, o) + 1) / Pow2(d) == 1 + 2 * o
  {
    MulDiv(1 + 2 * o, Pow2(d));
  }

  lemma IndexOf(i: nat)
    ensures Index(Depth(i), Offset(i)) == i
  {
    hide Index, Pow2;
    OddQuotient(i);
    var o: nat :| i == Index(Depth(i), o);
    IndexQuotient(Depth(i), o);
    IndexStep(0, o);
  }

  lemma {:induction false} DepthOfIndex(d: nat, o: nat)
    ensures Depth(Index(d, o)) == d
  {
    hide Index, Pow2;
    IndexStep(0, o);
    if d > 0 {
      IndexStep(d - 1, o);
      DepthOfIndex(d - 1, o);
    }
  }

  lemma OffsetOfIndex(d: nat, o: nat)
    ensures Depth(Index(d, o)) == d && Offset(Index(d, o)) == o
  {
    DepthOfIndex(d, o);
    IndexStep(0, o);
    var i := Index(d, o);
    if d > 0 {
      IndexStep(d - 1, o);
      MulDiv(1 + 2 * o, Pow2(d));
    }
  }

  lemma DepthParity(i: nat)
    ensures Depth(i) > 0 <==> i % 2 == 1
  {
  }

  // ---------------------------------------------------------------- the tree structure

  /** A leaf covers exactly its block. */
  lemma LeafFacts(k: nat)
    ensures Depth(2 * k) == 0 && First(2 * k) == k && End(2 * k) == k + 1
  {
  }

  lemma LeafOf(i: nat)
    requires i % 2 == 0
    ensures Depth(i) == 0 && First(i) == i / 2 && End(i) == i / 2 + 1
  {
  }

  lemma RangeNonEmpty(i: nat)
    ensures First(i) < End(i)
  {
  }

  lemma ChildIndex(d: nat, o: nat)
    requires d > 0
    ensures Index(d - 1, 2 * o) + Pow2(d - 1) == Index(d, o) && Index(d - 1, 2 * o + 1) == Index(d, o) + Pow2(d - 1)
  {
    var p := Pow2(d - 1);
    assert Pow2(d) == 2 * p;
    var x := o * p;
    assert (1 + 2 * o) * (2 * p) == 4 * x + 2 * p;
    assert (1 + 2 * (2 * o)) * p == 4 * x + p;
    assert (1 + 2 * (2 * o + 1)) * p == 4 * x + 3 * p;
  }

  lemma ChildRange(d: nat, o: nat)
    requires d > 0
    ensures (2 * o) * Pow2(d - 1) == o * Pow2(d)
    ensures (2 * o + 1) * Pow2(d - 1) == o * Pow2(d) + Pow2(d - 1)
    ensures Pow2(d) == 2 * Pow2(d - 1)
  {
    var p := Pow2(d - 1);
    assert Pow2(d) == 2 * p;
    assert (2 * o) * p == 2 * (o * p) == o * (2 * p);
    assert (2 * o + 1) * p == (2 * o) * p + p;
  }

  /** A parent covers its left child's blocks, then its right child's. */
  lemma ChildFacts(i: nat)
    requires i % 2 == 1
    ensures Depth(i) > 0 && Depth(Left(i)) == Depth(i) - 1 && Depth(Right(i)) == Depth(i) - 1
    ensures Parent(Left(i)) == i && Parent(Right(i)) == i
    ensures Sibling(Left(i)) == Right(i) && Sibling(Right(i)) == Left(i)
    ensures First(Left(i)) == First(i) && End(Left(i)) == First(Right(i)) && End(Right(i)) == End(i)
    ensures Left(i) < i < Right(i)
  {
    var d, o := Depth(i), Offset(i);
    DepthParity(i);
    IndexOf(i);
    hide Index, Pow2, Depth, Offset;
    OffsetOfIndex(d - 1, 2 * o);
    OffsetOfIndex(d - 1, 2 * o + 1);
    ChildIndex(d, o);
    ChildRange(d, o);
    assert Offset(i) * 2 == 2 * o && (2 * o) / 2 == o && (2 * o + 1) / 2 == o;
  }

  /** A node and its sibling are the two children of their parent. */
  lemma SiblingFacts(c: nat)
    ensures Parent(c) % 2 == 1 && Depth(Parent(c)) == Depth(c) + 1
    ensures if Sibling(c) < c then Left(Parent(c)) == Sibling(c) && Right(Parent(c)) == c
            else Left(Parent(c)) == c && Right(Parent(c)) == Sibling(c)
    ensures Sibling(c) != c && Depth(Sibling(c)) == Depth(c)
    ensures Sibling(Sibling(c)) == c && Parent(Sibling(c)) == Parent(c)
  {
    hide Index, Pow2, Depth, Offset, Sibling;
    var d, o := Depth(c), Offset(c);
    IndexOf(c);
    var p, h := Parent(c), o / 2;
    OffsetOfIndex(d + 1, h);
    DepthParity(p);
    ChildFacts(p);
    assert Left(p) == Index(d, h * 2) && Right(p) == Index(d, h * 2 + 1);
    if o % 2 == 0 {
      assert o == h * 2;
    } else {
      assert o == h * 2 + 1;
    }
    SiblingIs(c);
  }

  lemma SiblingIs(c: nat)
    ensures Offset(c) % 2 == 0 ==> Sibling(c) == Index(Depth(c), Offset(c) / 2 * 2 + 1)
    ensures Offset(c) % 2 == 1 ==> Sibling(c) == Index(Depth(c), Offset(c) / 2 * 2)
  {
    hide Index, Depth, Offset;
    var o := Offset(c);
    assert o % 2 == 0 ==> o + 1 == o / 2 * 2 + 1;
    assert o % 2 == 1 ==> o - 1 == o / 2 * 2;
  }

  /** An index is determined by the blocks it covers. */
  lemma IndexIs(i: nat)
    ensures i == First(i) + End(i) - 1
  {
    hide Index, Pow2, Depth, Offset;
    IndexOf(i);
    IndexValue(Depth(i), Offset(i));
  }

  // ---------------------------------------------------------------- laminar ranges

  lemma SameBlock(a: nat, b: nat, p: nat, x: nat)
    requires p >= 1 && a * p <= x < a * p + p && b * p <= x < b * p + p
    ensures a == b
  {
    if a < b {
      MulMono(a + 1, b, p);
    }
    if b < a {
      MulMono(b + 1, a, p);
    }
  }

  /** A node lies inside its parent. */
  lemma InParent(i: nat)
    ensures First(Parent(i)) <= First(i) && End(i) <= End(Parent(i)) && Depth(Parent(i)) == Depth(i) + 1
    ensures First(i) <= First(Sibling(i)) ==> End(i) == First(Sibling(i))
    ensures First(Parent(i)) <= First(Sibling(i)) && End(Sibling(i)) <= End(Parent(i))
  {
    SiblingFacts(i);
    ChildFacts(Parent(i));
    RangeNonEmpty(Left(Parent(i)));
    RangeNonEmpty(Right(Parent(i)));
  }

  /** Two nodes covering a common block are nested by depth, and a strictly deeper node's
      parent is nested too. */
  lemma {:induction false} Nested(i: nat, j: nat, b: nat)
    requires First(i) <= b < End(i) && First(j) <= b < End(j) && Depth(i) <= Depth(j)
    ensures First(j) <= First(i) && End(i) <= End(j)
    ensures Depth(i) == Depth(j) ==> i == j
    ensures Depth(i) < Depth(j) ==> First(j) <= First(Parent(i)) && End(Parent(i)) <= End(j)
    decreases Depth(j) - Depth(i)
  {
    if Depth(i) == Depth(j) {
      SameBlock(Offset(i), Offset(j), Pow2(Depth(i)), b);
      IndexOf(i);
      IndexOf(j);
    } else {
      hide First, End, Parent, Sibling, Depth;
      InParent(i);
      Nested(Parent(i), j, b);
    }
  }

  // ---------------------------------------------------------------- roots

  /** `i` is a maximal complete subtree of the first `n` blocks. */
  predicate IsRoot(n: nat, i: nat) {
    End(i) <= n < End(Parent(i))
  }

  function Log2(n: nat): nat {
    if n < 2 then 0 else 1 + Log2(n / 2)
  }

  lemma {:induction false} Log2Bounds(n: nat)
    requires n > 0
    ensures Pow2(Log2(n)) <= n < 2 * Pow2(Log2(n))
  {
    if n >= 2 {
      Log2Bounds(n / 2);
    }
  }

  /** The roots of `rest` blocks starting at block `first`: the largest power of two first. */
  function RootsFrom(first: nat, rest: nat): seq<nat>
    decreases rest
  {
    if rest == 0 then []
    else
      Log2Bounds(rest);
      var factor := Pow2(Log2(rest));
      [first * 2 + factor - 1] + RootsFrom(first + factor, rest - factor)
  }

  function Roots(n: nat): seq<nat> {
    RootsFrom(0, n)
  }

  /** `roots` covers `[first, end)` left to right without gaps. */
  ghost predicate Tiles(roots: seq<nat>, first: nat, end: nat) {
    if roots == [] then first == end
    else First(roots[0]) == first && Tiles(roots[1..], End(roots[0]), end)
  }

  /** `first` is a multiple of a power of two above `rest`. */
  ghost predicate Aligned(first: nat, rest: nat) {
    exists k: nat, d: nat :: AlignedTo(first, rest, k, d)
  }

  ghost predicate AlignedTo(first: nat, rest: nat, k: nat, d: nat) {
    first == k * Pow2(d) && rest < Pow2(d)
  }

  lemma {:induction false} Pow2Less(a: nat, b: nat)
    requires Pow2(a) < Pow2(b)
    ensures a < b
  {
    if a >= b {
      Pow2Mono(b, a);
    }
  }

  lemma {:induction false} Pow2Mono(a: nat, b: nat)
    requires a <= b
    ensures Pow2(a) <= Pow2(b)
    decreases b
  {
    if a < b {
      Pow2Mono(a, b - 1);
    }
  }

  lemma {:induction false} Pow2Sum(a: nat, b: nat)
    ensures Pow2(a + b) == Pow2(a) * Pow2(b)
    decreases b
  {
    if b > 0 {
      Pow2Sum(a, b - 1);
      assert Pow2(a) * (2 * Pow2(b - 1)) == 2 * (Pow2(a) * Pow2(b - 1));
    } else {
      assert Pow2(a) * 1 == Pow2(a);
    }
  }

  /** A multiple of a larger power of two is an even multiple of a smaller one. */
  lemma EvenMultiple(k: nat, d: nat, e: nat) returns (h: nat)
    requires e < d
    ensures k * Pow2(d) == (2 * h) * Pow2(e)
  {
    var q := Pow2(d - e - 1);
    assert Pow2(d - e) == 2 * q;
    hide Pow2;
    Pow2Sum(e, d - e);
    h := k * q;
    Shuffle(k, Pow2(e), q);
  }

  lemma Shuffle(k: nat, p: nat, q: nat)
    ensures k * (p * (2 * q)) == (2 * (k * q)) * p
  {
    var x := k * q;
    assert p * (2 * q) == 2 * (p * q);
    assert k * (2 * (p * q)) == 2 * (k * (p * q));
    assert k * (p * q) == x * p;
  }

  lemma IndexValue(d: nat, o: nat)
    ensures Index(d, o) == 2 * (o * Pow2(d)) + Pow2(d) - 1
  {
    var p := Pow2(d);
    assert (1 + 2 * o) * p == 2 * (o * p) + p;
  }

  lemma RangeOfIndex(d: nat, o: nat)
    ensures First(Index(d, o)) == o * Pow2(d) && End(Index(d, o)) == o * Pow2(d) + Pow2(d)
  {
    OffsetOfIndex(d, o);
  }

  lemma ParentOfEven(d: nat, h: nat)
    ensures Parent(Index(d, 2 * h)) == Index(d + 1, h)
  {
    OffsetOfIndex(d, 2 * h);
    assert (2 * h) / 2 == h;
  }

  /** A node at an even offset ends where its parent's first half does. */
  lemma EvenNode(e: nat, h: nat, first: nat)
    requires first == (2 * h) * Pow2(e)
    ensures var r := first * 2 + Pow2(e) - 1;
            First(r) == first && End(r) == first + Pow2(e) && End(Parent(r)) == first + 2 * Pow2(e)
  {
    hide *;
    IndexValue(e, 2 * h);
    RangeOfIndex(e, 2 * h);
    RangeOfIndex(e + 1, h);
    ParentOfEven(e, h);
    ChildRange(e + 1, h);
  }

  lemma FrontParts(first: nat, rest: nat) returns (h: nat)
    requires rest > 0 && Aligned(first, rest)
    ensures first == (2 * h) * Pow2(Log2(rest)) && Pow2(Log2(rest)) <= rest < 2 * Pow2(Log2(rest))
  {
    var k: nat, d: nat :| AlignedTo(first, rest, k, d);
    Log2Bounds(rest);
    Pow2Less(Log2(rest), d);
    h := EvenMultiple(k, d, Log2(rest));
  }

  /** The root at the front of an aligned run. */
  lemma FrontRoot(first: nat, rest: nat)
    requires rest > 0 && Aligned(first, rest)
    ensures var factor := Pow2(Log2(rest));
            var r := first * 2 + factor - 1;
            && factor <= rest && First(r) == first && End(r) == first + factor
            && IsRoot(first + rest, r) && Aligned(first + factor, rest - factor)
  {
    hide Pow2, Log2, First, End, Parent;
    var h := FrontParts(first, rest);
    var e := Log2(rest);
    EvenNode(e, h, first);
    assert AlignedTo(first + Pow2(e), rest - Pow2(e), 2 * h + 1, e) by {
      assert (2 * h + 1) * Pow2(e) == (2 * h) * Pow2(e) + Pow2(e);
    }
  }

  lemma ConsRoots(r: nat, roots: seq<nat>, first: nat, n: nat)
    requires First(r) == first && Tiles(roots, End(r), n) && IsRoot(n, r)
    requires forall q :: q in roots ==> IsRoot(n, q) && First(q) >= End(r)
    ensures Tiles([r] + roots, first, n) && forall q :: q in [r] + roots ==> IsRoot(n, q) && First(q) >= first
  {
    hide IsRoot, First, End;
    RangeNonEmpty(r);
    assert ([r] + roots)[1..] == roots;
  }

  lemma {:induction false} RootsTile(first: nat, rest: nat)
    requires Aligned(first, rest)
    ensures Tiles(RootsFrom(first, rest), first, first + rest)
    ensures forall r :: r in RootsFrom(first, rest) ==> IsRoot(first + rest, r) && First(r) >= first
    decreases rest
  {
    hide Pow2, Log2, First, End, Parent, IsRoot, Aligned, Tiles;
    TilesNone(first);
    if rest > 0 {
      FrontRoot(first, rest);
      var factor := Pow2(Log2(rest));
      RootsTile(first + factor, rest - factor);
      ConsRoots(first * 2 + factor - 1, RootsFrom(first + factor, rest - factor), first, first + rest);
    }
  }

  lemma TilesNone(first: nat)
    ensures Tiles([], first, first)
  {
  }

  lemma {:induction false} TileAt(roots: seq<nat>, first: nat, end: nat, b: nat)
    requires Tiles(roots, first, end) && first <= b < end
    ensures exists r :: r in roots && First(r) <= b < End(r)
  {
    var r := roots[0];
    RangeNonEmpty(r);
    if b < End(r) {
      assert r in roots;
    } else {
      TileAt(roots[1..], End(r), end, b);
      var q :| q in roots[1..] && First(q) <= b < End(q);
      assert q in roots;
    }
  }

  lemma AlignedStart(n: nat)
    ensures Aligned(0, n)
  {
    if n > 0 {
      Log2Bounds(n);
    }
    var d := Log2(n) + 1;
    assert Pow2(d) == 2 * Pow2(Log2(n));
    assert AlignedTo(0, n, 0, d);
  }

  /** Two maximal subtrees covering a common block are the same. */
  lemma RootsMeet(n: nat, i: nat, j: nat, b: nat)
    requires IsRoot(n, i) && IsRoot(n, j) && First(i) <= b < End(i) && First(j) <= b < End(j)
    ensures i == j
  {
    if Depth(i) <= Depth(j) {
      Nested(i, j, b);
    } else {
      Nested(j, i, b);
    }
  }

  /** The roots tile all `n` blocks and are exactly the maximal complete subtrees. */
  lemma RootsFacts(n: nat)
    ensures Tiles(Roots(n), 0, n)
    ensures forall i :: i in Roots(n) <==> IsRoot(n, i)
  {
    AlignedStart(n);
    RootsTile(0, n);
    forall i | IsRoot(n, i)
      ensures i in Roots(n)
    {
      RangeNonEmpty(i);
      TileAt(Roots(n), 0, n, First(i));
      var r :| r in Roots(n) && First(r) <= First(i) < End(r);
      RootsMeet(n, i, r, First(i));
    }
  }

  /** The largest power of two not above `index`. */
  method LargestFactor(index: nat) returns (factor: nat)
    requires index > 0
    ensures factor == Pow2(Log2(index)) <= index
  {
    factor := 1;
    ghost var e: nat := 0;
    while factor * 2 <= index
      invariant factor == Pow2(e) <= index
      decreases index - factor
    {
      factor := factor * 2;
      e := e + 1;
    }
    LogUnique(index, e);
  }

  /** The loop that lists the roots of `idx / 2` blocks. */
  method FullRoots(idx: nat) returns (result: seq<nat>)
    requires idx % 2 == 0
    ensures result == Roots(idx / 2)
  {
    hide Pow2, Log2;
    result := [];
    var index: nat, offset: nat := idx / 2, 0;
    while index > 0
      invariant result + RootsFrom(offset, index) == Roots(idx / 2)
      decreases index
    {
      var factor := LargestFactor(index);
      assert result + RootsFrom(offset, index)
          == result + [offset * 2 + factor - 1] + RootsFrom(offset + factor, index - factor);
      result := result + [offset * 2 + factor - 1];
      offset := offset + factor;
      index := index - factor;
    }
  }

  lemma LogUnique(n: nat, e: nat)
    requires Pow2(e) <= n < 2 * Pow2(e)
    ensures Log2(n) == e
  {
    Log2Bounds(n);
    Pow2Less(Log2(n), e + 1);
    Pow2Less(e, Log2(n) + 1);
  }
}
