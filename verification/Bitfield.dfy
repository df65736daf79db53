/** The sparse paged bitfield, against a plain set of naturals. */
module Bitfield {
  import opened Prelude
  import opened Flat
  import opened Words

  const BITS_PER_PAGE: nat := 32768
  const WORDS_PER_PAGE: nat := 512

  /** The words of a page. */
  type Page = seq<nat>

  ghost predicate PageOk(p: Page) {
    |p| == WORDS_PER_PAGE && forall k :: 0 <= k < |p| ==> p[k] < Pow2(WORD)
  }

  function EmptyPage(): (p: Page)
    ensures |p| == WORDS_PER_PAGE && forall k :: 0 <= k < |p| ==> p[k] == 0
  {
    seq(WORDS_PER_PAGE, _ => 0)
  }

  /** Bit `b` of a page lives in word `b / 64`, position `b % 64`. */
  predicate PageBit(p: Page, b: nat)
    requires |p| == WORDS_PER_PAGE && b < BITS_PER_PAGE
  {
    Bit(p[b / WORD], b % WORD)
  }

  lemma EmptyBits()
    ensures PageOk(EmptyPage()) && forall b: nat :: b < BITS_PER_PAGE ==> !PageBit(EmptyPage(), b)
  {
    forall b: nat | b < BITS_PER_PAGE
      ensures !PageBit(EmptyPage(), b)
    {
      ZeroBits(b % WORD);
    }
  }

  // ---------------------------------------------------------------- page helpers

  /** One word with a range of its bits set or cleared. */
  function Masked(w: nat, mask: nat, value: bool): nat {
    if value then Or(w, mask) else AndNot(w, mask)
  }

  lemma MaskedBits(w: nat, lo: nat, hi: nat, value: bool, i: nat)
    requires w < Pow2(WORD) && lo <= hi <= WORD
    ensures Masked(w, WordMask(lo, hi), value) < Pow2(WORD)
    ensures Bit(Masked(w, WordMask(lo, hi), value), i) == if lo <= i < hi then value else Bit(w, i)
  {
    hide Bit, Or, AndNot, WordMask, Pow2;
    MaskBits(lo, hi, i);
    MaskFits(lo, hi);
    OrBits(w, WordMask(lo, hi), i);
    AndNotBits(w, WordMask(lo, hi), i);
    OrFits(w, WordMask(lo, hi), WORD);
    AndNotFits(w, WordMask(lo, hi));
  }

  /** Setting the part of a range that falls in one word. */
  lemma WordStep(page: Page, b: nat, top: nat, value: bool, x: nat)
    requires PageOk(page) && b < top <= BITS_PER_PAGE && top <= (b / WORD + 1) * WORD && x < BITS_PER_PAGE
    ensures var word := b / WORD;
            var next := page[word := Masked(page[word], WordMask(b % WORD, top - word * WORD), value)];
            && PageOk(next) && PageBit(next, x) == if b <= x < top then value else PageBit(page, x)
  {
    hide Bit, Masked, WordMask, Pow2;
    var word := b / WORD;
    MaskedBits(page[word], b % WORD, top - word * WORD, value, x % WORD);
    assert x == x / WORD * WORD + x % WORD && b == word * WORD + b % WORD;
  }

  method PageSetRange(page0: Page, lo: nat, hi: nat, value: bool) returns (page: Page)
    requires PageOk(page0) && lo <= hi <= BITS_PER_PAGE
    ensures PageOk(page) && forall x: nat :: x < BITS_PER_PAGE ==> PageBit(page, x) == if lo <= x < hi then value else PageBit(page0, x)
  {
    hide PageBit, Masked, WordMask, Pow2;
    page := page0;
    var b: nat := lo;
    while b < hi
      invariant lo <= b <= hi && PageOk(page)
      invariant forall x: nat :: x < BITS_PER_PAGE ==> PageBit(page, x) == if lo <= x < b then value else PageBit(page0, x)
    {
      var word := b / WORD;
      var wordTop := (word + 1) * WORD;
      var top := if hi < wordTop then hi else wordTop;
      var mask := WordMask(b % WORD, top - word * WORD);
      var next := page[word := Masked(page[word], mask, value)];
      forall x: nat | x < BITS_PER_PAGE
        ensures PageOk(next) && PageBit(next, x) == if b <= x < top then value else PageBit(page, x)
      {
        WordStep(page, b, top, value, x);
      }
      assert PageOk(next) by {
        WordStep(page, b, top, value, 0);
      }
      page := next;
      b := top;
    }
  }

  /** Bits set in a page's `[lo, hi)`. */
  ghost function PageTally(p: Page, lo: nat, hi: nat): nat
    requires |p| == WORDS_PER_PAGE && lo <= hi <= BITS_PER_PAGE
    decreases hi
  {
    if lo == hi then 0 else PageTally(p, lo, hi - 1) + B(PageBit(p, hi - 1))
  }

  lemma {:induction false} PageTallySplit(p: Page, lo: nat, m: nat, hi: nat)
    requires |p| == WORDS_PER_PAGE && lo <= m <= hi <= BITS_PER_PAGE
    ensures PageTally(p, lo, hi) == PageTally(p, lo, m) + PageTally(p, m, hi)
    decreases hi
  {
    hide PageBit;
    if m < hi {
      PageTallySplit(p, lo, m, hi - 1);
    }
  }

  /** Inside one word the page's count is the word's. */
  lemma {:induction false} WordTally(p: Page, word: nat, x: nat, y: nat)
    requires |p| == WORDS_PER_PAGE && word < WORDS_PER_PAGE && x <= y <= WORD
    ensures PageTally(p, word * WORD + x, word * WORD + y) == BitTally(p[word], x, y)
    decreases y
  {
    hide Bit;
    if x < y {
      WordTally(p, word, x, y - 1);
      var b := word * WORD + y - 1;
      assert b / WORD == word && b % WORD == y - 1;
    }
  }

  method PageCountSet(page: Page, lo: nat, hi: nat) returns (c: nat)
    requires PageOk(page) && lo <= hi <= BITS_PER_PAGE
    ensures c == PageTally(page, lo, hi)
  {
    hide PageBit, WordMask, Pow2, And, CountOnes, BitTally;
    var b: nat := lo;
    c := 0;
    while b < hi
      invariant lo <= b <= hi && c == PageTally(page, lo, b)
    {
      var word := b / WORD;
      var wordTop := (word + 1) * WORD;
      var top := if hi < wordTop then hi else wordTop;
      var x, y := b % WORD, top - word * WORD;
      MaskedCount(page[word], x, y);
      WordTally(page, word, x, y);
      PageTallySplit(page, lo, b, top);
      c := c + CountOnes(And(page[word], WordMask(x, y)));
      b := top;
    }
  }

  /** The word as asked for: its ones, or its zeros as ones. */
  function Sought(w: nat, value: bool): nat
    requires w < Pow2(WORD)
  {
    if value then w else Not(w, WORD)
  }

  lemma SoughtBits(w: nat, value: bool, i: nat)
    requires w < Pow2(WORD) && i < WORD
    ensures Sought(w, value) < Pow2(WORD) && (Bit(Sought(w, value), i) <==> Bit(w, i) == value)
  {
    NotBits(w, WORD, i);
  }

  /** The sought bits of a word within `[lo, hi)`. */
  lemma SoughtMasked(w: nat, value: bool, lo: nat, hi: nat, i: nat)
    requires w < Pow2(WORD) && lo <= hi <= WORD
    ensures Bit(And(Sought(w, value), WordMask(lo, hi)), i) <==> lo <= i < hi && Bit(w, i) == value
  {
    hide Bit, And, WordMask, Pow2, Sought;
    AndBits(Sought(w, value), WordMask(lo, hi), i);
    MaskBits(lo, hi, i);
    if i < WORD {
      SoughtBits(w, value, i);
    }
  }

  /** The first sought bit at or above `lo` in a word. */
  lemma FirstInWord(w: nat, value: bool, lo: nat, hi: nat)
    requires w < Pow2(WORD) && lo <= hi <= WORD
    ensures var m := And(Sought(w, value), WordMask(lo, hi));
            && (m == 0 ==> forall i :: lo <= i < hi ==> Bit(w, i) != value)
            && (m > 0 ==> var t := TrailingZeros(m);
                lo <= t < hi && Bit(w, t) == value && forall i :: lo <= i < t ==> Bit(w, i) != value)
            && (m > 0 ==> var t := TopBit(m);
                lo <= t < hi && Bit(w, t) == value && forall i :: t < i < hi ==> Bit(w, i) != value)
  {
    hide Bit, And, WordMask, Pow2, Sought, TrailingZeros, TopBit;
    var m := And(Sought(w, value), WordMask(lo, hi));
    forall i: nat
      ensures Bit(m, i) <==> lo <= i < hi && Bit(w, i) == value
    {
      SoughtMasked(w, value, lo, hi, i);
    }
    if m > 0 {
      LowestBit(m);
      HighestBit(m);
    } else {
      forall i: nat
        ensures !Bit(m, i)
      {
        ZeroBits(i);
      }
    }
  }

  /** No bit of the page in `[lo, hi)` is `value`. */
  ghost predicate Lacks(p: Page, value: bool, lo: int, hi: int)
    requires |p| == WORDS_PER_PAGE && 0 <= lo && hi <= BITS_PER_PAGE
  {
    forall x :: lo <= x < hi ==> PageBit(p, x) != value
  }

  lemma WordLacks(p: Page, value: bool, word: nat, lo: nat, hi: nat)
    requires |p| == WORDS_PER_PAGE && word < WORDS_PER_PAGE && lo <= hi <= WORD
    requires forall i :: lo <= i < hi ==> Bit(p[word], i) != value
    ensures Lacks(p, value, word * WORD + lo, word * WORD + hi)
  {
    hide Bit;
    forall x | word * WORD + lo <= x < word * WORD + hi
      ensures PageBit(p, x) != value
    {
      assert x / WORD == word && x % WORD == x - word * WORD;
    }
  }

  /** The first offset at or above `lo` whose bit is `value`. */
  method PageFindFirst(page: Page, value: bool, lo: nat) returns (r: Option<nat>)
    requires PageOk(page) && lo <= BITS_PER_PAGE
    ensures r.None? ==> Lacks(page, value, lo, BITS_PER_PAGE)
    ensures r.Some? ==> lo <= r.value < BITS_PER_PAGE && PageBit(page, r.value) == value && Lacks(page, value, lo, r.value)
  {
    hide Bit, WordMask, Pow2, And, Sought, TrailingZeros, TopBit;
    var b: nat := lo;
    while b < BITS_PER_PAGE
      invariant lo <= b <= BITS_PER_PAGE && Lacks(page, value, lo, b)
    {
      var word, bit := b / WORD, b % WORD;
      var masked := And(Sought(page[word], value), WordMask(bit, WORD));
      FirstInWord(page[word], value, bit, WORD);
      if masked != 0 {
        var t := TrailingZeros(masked);
        WordLacks(page, value, word, bit, t);
        var off := word * WORD + t;
        assert off / WORD == word && off % WORD == t;
        return Some(off);
      }
      WordLacks(page, value, word, bit, WORD);
      b := (word + 1) * WORD;
    }
    return None;
  }

  /** The last offset at or below `hi` whose bit is `value`. */
  method PageFindLast(page: Page, value: bool, hi: nat) returns (r: Option<nat>)
    requires PageOk(page) && hi < BITS_PER_PAGE
    ensures r.None? ==> Lacks(page, value, 0, hi + 1)
    ensures r.Some? ==> r.value <= hi && PageBit(page, r.value) == value && Lacks(page, value, r.value + 1, hi + 1)
  {
    hide Bit, WordMask, Pow2, And, Sought, TrailingZeros, TopBit;
    var word: int := hi / WORD;
    while word >= 0
      invariant -1 <= word <= hi / WORD
      invariant var from := (word + 1) * WORD; word == hi / WORD || Lacks(page, value, from, hi + 1)
      decreases word
    {
      var top := if word * WORD + 63 <= hi then WORD else hi % WORD + 1;
      var masked := And(Sought(page[word], value), WordMask(0, top));
      FirstInWord(page[word], value, 0, top);
      assert word * WORD + top <= hi + 1 && (word == hi / WORD ==> word * WORD + top == hi + 1);
      if masked != 0 {
        var t := TopBit(masked);
        WordLacks(page, value, word, t + 1, top);
        var off := word * WORD + t;
        assert off / WORD == word && off % WORD == t;
        return Some(off);
      }
      WordLacks(page, value, word, 0, top);
      word := word - 1;
    }
    return None;
  }

  // ---------------------------------------------------------------- the field

  ghost predicate PagesOk(pages: map<nat, Page>) {
    forall p :: p in pages ==> PageOk(pages[p])
  }

  /** Bit `i` of the field: false where no page is. */
  ghost predicate Has(pages: map<nat, Page>, i: nat)
    requires PagesOk(pages)
  {
    i / BITS_PER_PAGE in pages && PageBit(pages[i / BITS_PER_PAGE], i % BITS_PER_PAGE)
  }

  /** A bit of page `p`. */
  lemma HasIn(pages: map<nat, Page>, p: nat, b: nat)
    requires PagesOk(pages) && b < BITS_PER_PAGE
    ensures var i := p * BITS_PER_PAGE + b;
            i / BITS_PER_PAGE == p && i % BITS_PER_PAGE == b && (Has(pages, i) <==> p in pages && PageBit(pages[p], b))
  {
    hide Bit;
    var i := p * BITS_PER_PAGE + b;
    assert i / BITS_PER_PAGE == p && i % BITS_PER_PAGE == b;
  }

  /** Bits equal to `value` in `[lo, hi)`. */
  ghost function Tally(pages: map<nat, Page>, value: bool, lo: nat, hi: nat): nat
    requires PagesOk(pages) && lo <= hi
    decreases hi
  {
    if lo == hi then 0 else Tally(pages, value, lo, hi - 1) + B(Has(pages, hi - 1) == value)
  }

  ghost function Matching(pages: map<nat, Page>, value: bool, lo: nat, hi: nat): set<nat>
    requires PagesOk(pages)
  {
    set i: nat | lo <= i < hi && Has(pages, i) == value
  }

  /** The count is the size of the set of matching indices. */
  lemma {:induction false} TallyIsCard(pages: map<nat, Page>, value: bool, lo: nat, hi: nat)
    requires PagesOk(pages) && lo <= hi
    ensures Tally(pages, value, lo, hi) == |Matching(pages, value, lo, hi)|
    decreases hi
  {
    hide Has;
    if lo < hi {
      TallyIsCard(pages, value, lo, hi - 1);
      var m, n := Matching(pages, value, lo, hi - 1), Matching(pages, value, lo, hi);
      if Has(pages, hi - 1) == value {
        assert n == m + {hi - 1};
      } else {
        assert n == m;
      }
    } else {
      assert Matching(pages, value, lo, hi) == {};
    }
  }

  lemma {:induction false} FieldTallySplit(pages: map<nat, Page>, value: bool, lo: nat, m: nat, hi: nat)
    requires PagesOk(pages) && lo <= m <= hi
    ensures Tally(pages, value, lo, hi) == Tally(pages, value, lo, m) + Tally(pages, value, m, hi)
    decreases hi
  {
    hide Has;
    if m < hi {
      FieldTallySplit(pages, value, lo, m, hi - 1);
    }
  }

  /** Within one page the field's count is the page's, or nothing if the page is missing. */
  lemma {:induction false} PageShare(pages: map<nat, Page>, value: bool, p: nat, x: nat, y: nat)
    requires PagesOk(pages) && x <= y <= BITS_PER_PAGE
    ensures var ones := if p in pages then PageTally(pages[p], x, y) else 0;
            ones <= y - x
            && Tally(pages, value, p * BITS_PER_PAGE + x, p * BITS_PER_PAGE + y) == if value then ones else y - x - ones
    decreases y
  {
    hide Has, PageBit;
    if x < y {
      PageShare(pages, value, p, x, y - 1);
      HasIn(pages, p, y - 1);
    }
  }

  method Least(s: set<nat>) returns (m: nat)
    requires s != {}
    ensures m in s && forall x :: x in s ==> m <= x
  {
    m :| m in s;
    var todo := s;
    while todo != {}
      invariant todo <= s && m in s && forall x :: x in s && x !in todo ==> m <= x
      decreases |todo|
    {
      var x :| x in todo;
      if x < m {
        m := x;
      }
      todo := todo - {x};
    }
  }

  method Greatest(s: set<nat>) returns (m: nat)
    requires s != {}
    ensures m in s && forall x :: x in s ==> x <= m
  {
    m :| m in s;
    var todo := s;
    while todo != {}
      invariant todo <= s && m in s && forall x :: x in s && x !in todo ==> x <= m
      decreases |todo|
    {
      var x :| x in todo;
      if m < x {
        m := x;
      }
      todo := todo - {x};
    }
  }

  class Field {
    var pages: map<nat, Page>

    ghost predicate Valid()
      reads this
    {
      PagesOk(pages)
    }

    constructor ()
      ensures Valid() && forall i :: !Has(pages, i)
    {
      pages := map[];
    }

    method Get(index: nat) returns (r: bool)
      requires Valid()
      ensures r == Has(pages, index)
    {
      var page, b := index / BITS_PER_PAGE, index % BITS_PER_PAGE;
      if page !in pages {
        return false;
      }
      r := Bit(pages[page][b / WORD], b % WORD);
    }

    /** Set one bit; every other keeps its value, and clearing never adds a page. */
    method Set(index: nat, value: bool)
      requires Valid()
      modifies this
      ensures Valid() && forall j: nat :: Has(pages, j) == if j == index then value else old(Has(pages, j))
      ensures !value ==> pages.Keys == old(pages.Keys)
    {
      hide Has, PageBit, Bit;
      var page, b := index / BITS_PER_PAGE, index % BITS_PER_PAGE;
      assert index == page * BITS_PER_PAGE + b;
      if value || page in pages {
        var p: Page := if page in pages then pages[page] else EmptyPage();
        var word := b / WORD;
        var bit := b % WORD;
        ghost var before := pages;
        if page !in pages {
          EmptyBits();
        }
        assert b + 1 - word * WORD == bit + 1;
        var next: Page := p[word := Masked(p[word], WordMask(bit, bit + 1), value)];
        forall x: nat | x < BITS_PER_PAGE
          ensures PageOk(next) && PageBit(next, x) == if b <= x < b + 1 then value else PageBit(p, x)
        {
          WordStep(p, b, b + 1, value, x);
        }
        assert PageOk(next) by {
          WordStep(p, b, b + 1, value, 0);
        }
        PageReplaced(before, page, next, b, b + 1, value);
        pages := pages[page := next];
      } else {
        MissingPage(pages, page, b, b + 1);
      }
    }

    /** Set every bit of `[start, end)`. */
    method SetRange(start: nat, end: nat, value: bool)
      requires Valid()
      modifies this
      ensures Valid() && forall j: nat :: Has(pages, j) == if start <= j < end then value else old(Has(pages, j))
      ensures !value ==> pages.Keys == old(pages.Keys)
    {
      hide Has, PageBit, SetTo;
      var i := start;
      ghost var first := pages;
      SetNothing(pages, start, value);
      while i < end
        invariant start <= i && (i <= end || i == start) && Valid() && SetTo(first, pages, start, i, value)
        invariant !value ==> pages.Keys == first.Keys
        decreases end - i
      {
        var page := i / BITS_PER_PAGE;
        var base := page * BITS_PER_PAGE;
        var chunkEnd := if end < base + BITS_PER_PAGE then end else base + BITS_PER_PAGE;
        ghost var before := pages;
        if value || page in pages {
          var p: Page := if page in pages then pages[page] else EmptyPage();
          if page !in pages {
            EmptyBits();
          }
          var next := PageSetRange(p, i - base, chunkEnd - base, value);
          PageReplaced(before, page, next, i - base, chunkEnd - base, value);
          pages := pages[page := next];
        } else {
          MissingPage(pages, page, i - base, chunkEnd - base);
        }
        SetFurther(first, before, pages, start, i, chunkEnd, value);
        i := chunkEnd;
      }
      SetAll(first, pages, start, i, end, value);
    }

    /** The number of bits equal to `value` in `[start, start + length)`. */
    method Count(start: nat, length: nat, value: bool) returns (c: nat)
      requires Valid()
      ensures c == |Matching(pages, value, start, start + length)|
    {
      hide Has, PageBit, PageTally;
      var end := start + length;
      var i := start;
      c := 0;
      while i < end
        invariant start <= i <= end && c == Tally(pages, value, start, i)
      {
        var page := i / BITS_PER_PAGE;
        var base := page * BITS_PER_PAGE;
        var chunkEnd := if end < base + BITS_PER_PAGE then end else base + BITS_PER_PAGE;
        var range := chunkEnd - i;
        var ones := 0;
        if page in pages {
          ones := PageCountSet(pages[page], i - base, chunkEnd - base);
        }
        PageShare(pages, value, page, i - base, chunkEnd - base);
        FieldTallySplit(pages, value, start, i, chunkEnd);
        c := c + if value then ones else range - ones;
        i := chunkEnd;
      }
      TallyIsCard(pages, value, start, end);
    }

    /** The smallest set index at or above `position`. */
    method FindFirstSet(position: nat) returns (r: Option<nat>)
      requires Valid()
      ensures r.None? ==> forall j: nat :: j >= position ==> !Has(pages, j)
      ensures r.Some? ==> r.value >= position && Has(pages, r.value) && forall j: nat :: position <= j < r.value ==> !Has(pages, j)
    {
      hide PageBit;
      var startPage := position / BITS_PER_PAGE;
      var todo := set p | p in pages && p >= startPage;
      while todo != {}
        invariant todo <= pages.Keys && forall p :: p in todo ==> p >= startPage
        invariant forall j: nat :: j >= position && Has(pages, j) ==> j / BITS_PER_PAGE in todo
        decreases |todo|
      {
        var page := Least(todo);
        var lo := if page == startPage then position % BITS_PER_PAGE else 0;
        var off := PageFindFirst(pages[page], true, lo);
        if off.Some? {
          HasIn(pages, page, off.value);
          return Some(page * BITS_PER_PAGE + off.value);
        }
        todo := todo - {page};
      }
      return None;
    }

    /** The smallest unset index at or above `position`: there always is one. */
    method FindFirstUnset(position: nat) returns (r: nat)
      requires Valid()
      ensures r >= position && !Has(pages, r) && forall j: nat :: position <= j < r ==> Has(pages, j)
    {
      hide PageBit;
      var startPage := position / BITS_PER_PAGE;
      var page := startPage;
      while true
        invariant page >= startPage && forall j: nat :: position <= j < page * BITS_PER_PAGE ==> Has(pages, j)
        decreases |PagesFrom(pages, page)|
      {
        var lo := if page == startPage then position % BITS_PER_PAGE else 0;
        HasIn(pages, page, lo);
        if page !in pages {
          return page * BITS_PER_PAGE + lo;
        }
        var off := PageFindFirst(pages[page], false, lo);
        if off.Some? {
          HasIn(pages, page, off.value);
          return page * BITS_PER_PAGE + off.value;
        }
        FewerPages(pages, page);
        page := page + 1;
      }
    }

    /** The largest set index at or below `position`. */
    method FindLastSet(position: nat) returns (r: Option<nat>)
      requires Valid()
      ensures r.None? ==> forall j: nat :: j <= position ==> !Has(pages, j)
      ensures r.Some? ==> r.value <= position && Has(pages, r.value) && forall j: nat :: r.value < j <= position ==> !Has(pages, j)
    {
      hide PageBit;
      var startPage := position / BITS_PER_PAGE;
      var todo := set p | p in pages && p <= startPage;
      while todo != {}
        invariant todo <= pages.Keys && forall p :: p in todo ==> p <= startPage
        invariant forall j: nat :: j <= position && Has(pages, j) ==> j / BITS_PER_PAGE in todo
        decreases |todo|
      {
        var page := Greatest(todo);
        var hi := if page == startPage then position % BITS_PER_PAGE else BITS_PER_PAGE - 1;
        var off := PageFindLast(pages[page], true, hi);
        if off.Some? {
          HasIn(pages, page, off.value);
          return Some(page * BITS_PER_PAGE + off.value);
        }
        todo := todo - {page};
      }
      return None;
    }

    /** The largest unset index at or below `position`; none exactly when all are set. */
    method FindLastUnset(position: nat) returns (r: Option<nat>)
      requires Valid()
      ensures r.None? <==> forall j: nat :: j <= position ==> Has(pages, j)
      ensures r.Some? ==> r.value <= position && !Has(pages, r.value) && forall j: nat :: r.value < j <= position ==> Has(pages, j)
    {
      hide PageBit;
      var startPage := position / BITS_PER_PAGE;
      var page: int := startPage;
      while page >= 0
        invariant -1 <= page <= startPage && forall j: nat :: (page + 1) * BITS_PER_PAGE <= j <= position ==> Has(pages, j)
        decreases page
      {
        var hi := if page == startPage then position % BITS_PER_PAGE else BITS_PER_PAGE - 1;
        HasIn(pages, page, hi);
        if page !in pages {
          return Some(page * BITS_PER_PAGE + hi);
        }
        var off := PageFindLast(pages[page], false, hi);
        if off.Some? {
          HasIn(pages, page, off.value);
          return Some(page * BITS_PER_PAGE + off.value);
        }
        page := page - 1;
      }
      return None;
    }
  }

  ghost function PagesFrom(pages: map<nat, Page>, page: nat): set<nat> {
    set p | p in pages && p >= page
  }

  lemma FewerPages(pages: map<nat, Page>, page: nat)
    requires page in pages
    ensures |PagesFrom(pages, page + 1)| < |PagesFrom(pages, page)|
  {
    assert PagesFrom(pages, page) == PagesFrom(pages, page + 1) + {page};
  }

  /** Rewriting a range of one page rewrites that range of the field. */
  lemma PageReplaced(pages: map<nat, Page>, page: nat, next: Page, x: nat, y: nat, value: bool)
    requires PagesOk(pages) && PageOk(next) && x <= y <= BITS_PER_PAGE
    requires forall b: nat :: b < BITS_PER_PAGE ==>
               PageBit(next, b) == if x <= b < y then value else page in pages && PageBit(pages[page], b)
    ensures SetTo(pages, pages[page := next], page * BITS_PER_PAGE + x, page * BITS_PER_PAGE + y, value)
  {
    hide PageBit;
  }

  /** A missing page is already all zeros. */
  lemma MissingPage(pages: map<nat, Page>, page: nat, x: nat, y: nat)
    requires PagesOk(pages) && page !in pages && x <= y <= BITS_PER_PAGE
    ensures SetTo(pages, pages, page * BITS_PER_PAGE + x, page * BITS_PER_PAGE + y, false)
  {
    hide PageBit;
  }

  /** `after` is `before` with every bit of `[lo, hi)` set to `value`. */
  ghost predicate SetTo(before: map<nat, Page>, after: map<nat, Page>, lo: nat, hi: nat, value: bool) {
    PagesOk(before) && PagesOk(after) && forall j: nat :: Has(after, j) == if lo <= j < hi then value else Has(before, j)
  }

  lemma SetNothing(pages: map<nat, Page>, lo: nat, value: bool)
    requires PagesOk(pages)
    ensures SetTo(pages, pages, lo, lo, value)
  {
    hide Has;
  }

  lemma SetFurther(first: map<nat, Page>, before: map<nat, Page>, after: map<nat, Page>, lo: nat, i: nat, hi: nat, value: bool)
    requires SetTo(first, before, lo, i, value) && SetTo(before, after, i, hi, value) && lo <= i <= hi
    ensures PagesOk(after) && SetTo(first, after, lo, hi, value)
  {
    hide Has;
  }

  lemma SetAll(first: map<nat, Page>, pages: map<nat, Page>, lo: nat, i: nat, hi: nat, value: bool)
    requires SetTo(first, pages, lo, i, value) && i >= hi && (i <= hi || i == lo)
    ensures PagesOk(pages) && forall j: nat :: Has(pages, j) == if lo <= j < hi then value else Has(first, j)
  {
    hide Has;
  }
}
