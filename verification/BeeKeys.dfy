/** Byte-string keys in bytewise order, and sorted entry lists as the abstract map. */
module BeeKeys {
  import opened Prelude

  type Key = seq<Byte>

  datatype Entry = Entry(key: Key, value: seq<Byte>)

  // ---------------------------------------------------------------- bytewise order

  /** Bytewise (lexicographic) order. */
  predicate LexLess(a: Key, b: Key) {
    b != [] && (a == [] || a[0] < b[0] || (a[0] == b[0] && LexLess(a[1..], b[1..])))
  }

  /** A real number in `[0, 1)` that orders keys the same way. */
  ghost function Rank(k: Key): (r: real)
    ensures 0.0 <= r < 1.0
  {
    if k == [] then 0.0 else (k[0] as real + 1.0 + Rank(k[1..])) / 257.0
  }

  /** Bytewise order is the order of ranks. */
  lemma {:induction false} RankOrder(a: Key, b: Key)
    ensures LexLess(a, b) <==> Rank(a) < Rank(b)
  {
    if a != [] && b != [] {
      RankOrder(a[1..], b[1..]);
      assert a[0] < b[0] ==> a[0] as real + 1.0 <= b[0] as real;
      assert b[0] < a[0] ==> b[0] as real + 1.0 <= a[0] as real;
    }
  }

  lemma {:induction false} LexTotal(a: Key, b: Key)
    ensures a == b || LexLess(a, b) || LexLess(b, a)
  {
    if a != [] && b != [] {
      LexTotal(a[1..], b[1..]);
      assert a == [a[0]] + a[1..] && b == [b[0]] + b[1..];
    }
  }

  /** Keys of one rank are one key. */
  lemma RankInjective(a: Key, b: Key)
    requires Rank(a) == Rank(b)
    ensures a == b
  {
    hide Rank;
    LexTotal(a, b);
    RankOrder(a, b);
    RankOrder(b, a);
  }

  // ---------------------------------------------------------------- sorted entry lists

  ghost predicate Sorted(s: seq<Entry>) {
    forall i, j :: 0 <= i < j < |s| ==> Rank(s[i].key) < Rank(s[j].key)
  }

  ghost predicate AllBelow(s: seq<Entry>, k: Key) {
    forall e :: e in s ==> Rank(e.key) < Rank(k)
  }

  ghost predicate AllAbove(s: seq<Entry>, k: Key) {
    forall e :: e in s ==> Rank(k) < Rank(e.key)
  }

  /** The entries before `k`. */
  function Below(s: seq<Entry>, k: Key): seq<Entry> {
    if s == [] || !LexLess(s[0].key, k) then [] else [s[0]] + Below(s[1..], k)
  }

  /** The entries after `k`. */
  function Above(s: seq<Entry>, k: Key): seq<Entry> {
    if s == [] then [] else if LexLess(k, s[0].key) then s else Above(s[1..], k)
  }

  function Put(s: seq<Entry>, k: Key, v: seq<Byte>): seq<Entry> {
    Below(s, k) + [Entry(k, v)] + Above(s, k)
  }

  function Remove(s: seq<Entry>, k: Key): seq<Entry> {
    Below(s, k) + Above(s, k)
  }

  function Lookup(s: seq<Entry>, k: Key): Option<seq<Byte>> {
    if s == [] then None else if s[0].key == k then Some(s[0].value) else Lookup(s[1..], k)
  }

  lemma SortedParts(a: seq<Entry>, b: seq<Entry>)
    requires Sorted(a + b)
    ensures Sorted(a) && Sorted(b) && forall x, y :: x in a && y in b ==> Rank(x.key) < Rank(y.key)
  {
    hide Rank;
    var s := a + b;
    forall i, j | 0 <= i < j < |b|
      ensures Rank(b[i].key) < Rank(b[j].key)
    {
      assert s[|a| + i] == b[i] && s[|a| + j] == b[j];
    }
    forall i, j | 0 <= i < j < |a|
      ensures Rank(a[i].key) < Rank(a[j].key)
    {
      assert s[i] == a[i] && s[j] == a[j];
    }
    forall x, y | x in a && y in b
      ensures Rank(x.key) < Rank(y.key)
    {
      var i :| 0 <= i < |a| && a[i] == x;
      var j :| 0 <= j < |b| && b[j] == y;
      assert s[i] == x && s[|a| + j] == y;
    }
  }

  lemma SortedJoin(a: seq<Entry>, b: seq<Entry>)
    requires Sorted(a) && Sorted(b) && forall x, y :: x in a && y in b ==> Rank(x.key) < Rank(y.key)
    ensures Sorted(a + b)
  {
    hide Rank;
    var s := a + b;
    forall i, j | 0 <= i < j < |s|
      ensures Rank(s[i].key) < Rank(s[j].key)
    {
      if j < |a| {
        assert s[i] == a[i] && s[j] == a[j];
      } else if i < |a| {
        assert a[i] in a && b[j - |a|] in b;
      } else {
        assert s[i] == b[i - |a|] && s[j] == b[j - |a|];
      }
    }
  }

  /** A sorted list around a key: what is before it, at it, and after it. */
  lemma SortedAround(a: seq<Entry>, m: Entry, b: seq<Entry>)
    requires Sorted(a + [m] + b)
    ensures Sorted(a) && Sorted(b) && AllBelow(a, m.key) && AllAbove(b, m.key)
    ensures forall x, y :: x in a && y in b ==> Rank(x.key) < Rank(y.key)
  {
    hide Rank;
    assert a + [m] + b == a + ([m] + b);
    SortedParts(a, [m] + b);
    SortedParts([m], b);
    assert m in [m] && m in [m] + b && forall y :: y in b ==> y in [m] + b;
  }

  lemma AroundSorted(a: seq<Entry>, m: Entry, b: seq<Entry>)
    requires Sorted(a) && Sorted(b) && AllBelow(a, m.key) && AllAbove(b, m.key)
    ensures Sorted(a + [m] + b) && Sorted(a + b)
  {
    hide Rank;
    SortedJoin([m], b);
    SortedJoin(a, [m] + b);
    SortedJoin(a, b);
    assert a + [m] + b == a + ([m] + b);
  }

  lemma AllAboveIsAbove(s: seq<Entry>, k: Key)
    requires AllAbove(s, k)
    ensures Above(s, k) == s && Below(s, k) == []
  {
    hide Rank;
    if s != [] {
      assert s[0] in s;
      RankOrder(k, s[0].key);
      RankOrder(s[0].key, k);
    }
  }

  /** Everything below `k` in front of a list stays in front of the cut. */
  lemma {:induction false} CutAfter(p: seq<Entry>, s: seq<Entry>, k: Key)
    requires AllBelow(p, k)
    ensures Below(p + s, k) == p + Below(s, k) && Above(p + s, k) == Above(s, k)
  {
    hide Rank;
    if p == [] {
      assert p + s == s;
    } else {
      assert p[0] in p && p == [p[0]] + p[1..];
      RankOrder(p[0].key, k);
      RankOrder(k, p[0].key);
      CutAfter(p[1..], s, k);
      assert (p + s)[1..] == p[1..] + s;
    }
  }

  /** Everything above `k` behind a list stays behind the cut. */
  lemma {:induction false} CutBefore(s: seq<Entry>, q: seq<Entry>, k: Key)
    requires AllAbove(q, k)
    ensures Below(s + q, k) == Below(s, k) && Above(s + q, k) == Above(s, k) + q
  {
    hide Rank;
    if s == [] {
      assert s + q == q;
      AllAboveIsAbove(q, k);
    } else {
      CutBefore(s[1..], q, k);
      assert (s + q)[1..] == s[1..] + q;
    }
  }

  /** A put or a removal inside a list leaves what is below and above it. */
  lemma CutMiddle(p: seq<Entry>, s: seq<Entry>, q: seq<Entry>, k: Key, v: seq<Byte>)
    requires AllBelow(p, k) && AllAbove(q, k)
    ensures Put(p + s + q, k, v) == p + Put(s, k, v) + q
    ensures Remove(p + s + q, k) == p + Remove(s, k) + q
  {
    hide Rank, Below, Above;
    assert p + s + q == p + (s + q);
    CutAfter(p, s + q, k);
    CutBefore(s, q, k);
  }

  /** Putting or removing at a known place. */
  lemma CutAt(p: seq<Entry>, m: seq<Entry>, q: seq<Entry>, k: Key, v: seq<Byte>)
    requires AllBelow(p, k) && AllAbove(q, k) && (m == [] || (|m| == 1 && m[0].key == k))
    ensures Put(p + m + q, k, v) == p + [Entry(k, v)] + q && Remove(p + m + q, k) == p + q
  {
    hide Rank;
    CutMiddle(p, m, q, k, v);
    RankOrder(k, k);
    assert Below(m, k) == [] && Above(m, k) == [];
    assert Put(m, k, v) == [Entry(k, v)] && Remove(m, k) == [];
    assert p + [] + q == p + q;
  }

  lemma {:induction false} BelowFacts(s: seq<Entry>, k: Key)
    requires Sorted(s)
    ensures Sorted(Below(s, k)) && Sorted(Above(s, k)) && AllBelow(Below(s, k), k) && AllAbove(Above(s, k), k)
    ensures forall e :: e in Below(s, k) || e in Above(s, k) ==> e in s
  {
    hide Rank;
    if s != [] {
      var e, rest := s[0], s[1..];
      assert s == [e] + rest;
      SortedParts([e], rest);
      assert e in [e];
      RankOrder(e.key, k);
      RankOrder(k, e.key);
      BelowFacts(rest, k);
      if Rank(e.key) < Rank(k) {
        SortedJoin([e], Below(rest, k));
      }
    }
  }

  /** Puts and removals keep a list sorted. */
  lemma CutSorted(s: seq<Entry>, k: Key, v: seq<Byte>)
    requires Sorted(s)
    ensures Sorted(Put(s, k, v)) && Sorted(Remove(s, k))
  {
    hide Rank, Below, Above;
    BelowFacts(s, k);
    AroundSorted(Below(s, k), Entry(k, v), Above(s, k));
  }

  // ---------------------------------------------------------------- as a map

  lemma {:induction false} LookupIn(s: seq<Entry>, k: Key)
    ensures Lookup(s, k).Some? <==> exists e :: e in s && e.key == k
  {
    if s != [] {
      assert s == [s[0]] + s[1..];
      LookupIn(s[1..], k);
    }
  }

  lemma AboveLacks(s: seq<Entry>, k: Key)
    requires AllAbove(s, k)
    ensures Lookup(s, k).None?
  {
    hide Rank;
    LookupIn(s, k);
  }

  /** Puts and removals, by where the first key stands. */
  lemma CutCons(s: seq<Entry>, k: Key, v: seq<Byte>)
    requires s != [] && Sorted(s)
    ensures Sorted(s[1..])
    ensures Rank(s[0].key) < Rank(k) ==> Put(s, k, v) == [s[0]] + Put(s[1..], k, v) && Remove(s, k) == [s[0]] + Remove(s[1..], k)
    ensures Rank(k) < Rank(s[0].key) ==> Put(s, k, v) == [Entry(k, v)] + s && Remove(s, k) == s && AllAbove(s, k)
    ensures Rank(k) == Rank(s[0].key) ==>
              && s[0].key == k && Put(s, k, v) == [Entry(k, v)] + s[1..] && Remove(s, k) == s[1..] && AllAbove(s[1..], k)
  {
    hide Rank, Below, Above, Sorted;
    var e, rest := s[0], s[1..];
    assert s == [e] + rest;
    SortedParts([e], rest);
    assert e in [e];
    if Rank(e.key) < Rank(k) {
      CutAfter([e], rest, k);
      assert Put(s, k, v) == [e] + Put(rest, k, v);
    } else if Rank(k) < Rank(e.key) {
      AllAboveIsAbove(s, k);
    } else {
      RankInjective(e.key, k);
      assert s == [] + [e] + rest;
      CutAt([], [e], rest, k, v);
    }
  }

  lemma LookupCons(e: Entry, s: seq<Entry>, k: Key)
    ensures Lookup([e] + s, k) == if e.key == k then Some(e.value) else Lookup(s, k)
  {
    assert ([e] + s)[1..] == s;
  }

  /** A put is the map update, and a removal the map removal. */
  lemma {:induction false} MapLaws(s: seq<Entry>, k: Key, v: seq<Byte>, j: Key)
    requires Sorted(s)
    ensures Lookup(Put(s, k, v), j) == if j == k then Some(v) else Lookup(s, j)
    ensures Lookup(Remove(s, k), j) == if j == k then None else Lookup(s, j)
  {
    if s == [] {
      assert Put(s, k, v) == [Entry(k, v)];
    } else {
      hide Rank, Put, Remove, Lookup, Sorted;
      var e, rest := s[0], s[1..];
      assert s == [e] + rest;
      CutCons(s, k, v);
      LookupCons(e, rest, j);
      if Rank(e.key) < Rank(k) {
        MapLaws(rest, k, v, j);
        LookupCons(e, Put(rest, k, v), j);
        LookupCons(e, Remove(rest, k), j);
      } else if Rank(k) < Rank(e.key) {
        LookupCons(Entry(k, v), s, j);
        AboveLacks(s, k);
      } else {
        LookupCons(Entry(k, v), rest, j);
        AboveLacks(rest, k);
      }
    }
  }

  /** Removing an absent key is the only removal that changes nothing. */
  lemma RemoveAbsent(s: seq<Entry>, k: Key)
    requires Sorted(s)
    ensures Remove(s, k) == s <==> Lookup(s, k).None?
  {
    hide Rank, Remove, Sorted;
    MapLaws(s, k, [], k);
    if Lookup(s, k).None? {
      RemoveLacking(s, k);
    }
  }

  lemma {:induction false} RemoveLacking(s: seq<Entry>, k: Key)
    requires Sorted(s) && Lookup(s, k).None?
    ensures Remove(s, k) == s
  {
    if s != [] {
      hide Rank, Remove, Sorted;
      CutCons(s, k, []);
      RemoveLacking(s[1..], k);
      assert s == [s[0]] + s[1..];
    }
  }

  lemma TailAbove(s: seq<Entry>)
    requires Sorted(s) && s != []
    ensures Sorted(s[1..]) && AllAbove(s[1..], s[0].key)
  {
    hide Rank;
    assert s == [] + [s[0]] + s[1..];
    SortedAround([], s[0], s[1..]);
  }

  /** No key of a list with the same lookups is below its first. */
  lemma HeadIsLeast(s: seq<Entry>, t: seq<Entry>)
    requires Sorted(s) && s != [] && t != [] && Lookup(s, t[0].key) == Lookup(t, t[0].key)
    ensures Rank(s[0].key) <= Rank(t[0].key)
  {
    hide Rank, Sorted;
    TailAbove(s);
    LookupIn(s, t[0].key);
    var e :| e in s && e.key == t[0].key;
    assert s == [s[0]] + s[1..];
  }

  /** A sorted list is determined by the map it stands for. */
  lemma {:induction false} SortedUnique(s: seq<Entry>, t: seq<Entry>)
    requires Sorted(s) && Sorted(t) && forall k :: Lookup(s, k) == Lookup(t, k)
    ensures s == t
  {
    hide Rank, Sorted, AllAbove;
    if s != [] && t != [] {
      var a, b := s[0], t[0];
      assert s == [a] + s[1..] && t == [b] + t[1..];
      HeadIsLeast(s, t);
      HeadIsLeast(t, s);
      RankInjective(a.key, b.key);
      TailAbove(s);
      TailAbove(t);
      AboveLacks(s[1..], a.key);
      AboveLacks(t[1..], a.key);
      forall k
        ensures Lookup(s[1..], k) == Lookup(t[1..], k)
      {
        assert Lookup(s, k) == Lookup(t, k);
      }
      SortedUnique(s[1..], t[1..]);
    } else if s != [] {
      LookupIn(t, s[0].key);
    } else if t != [] {
      LookupIn(s, t[0].key);
    }
  }
}
