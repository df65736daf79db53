/** 64-bit words as natural numbers: the masks, bitwise operations and bit counts that a bitfield
    page is built from, each tied to the bits it stands for. */
module Words {
  import opened Flat

  const WORD: nat := 64

  /** Bit `i` of a word. */
  predicate Bit(w: nat, i: nat) {
    if i == 0 then w % 2 == 1 else Bit(w / 2, i - 1)
  }

  function B(x: bool): nat {
    if x then 1 else 0
  }

  function Or(a: nat, b: nat): nat {
    if a == 0 then b else B(a % 2 == 1 || b % 2 == 1) + 2 * Or(a / 2, b / 2)
  }

  function And(a: nat, b: nat): nat {
    if a == 0 then 0 else B(a % 2 == 1 && b % 2 == 1) + 2 * And(a / 2, b / 2)
  }

  /** `a & !b`. */
  function AndNot(a: nat, b: nat): nat {
    if a == 0 then 0 else B(a % 2 == 1 && b % 2 == 0) + 2 * AndNot(a / 2, b / 2)
  }

  /** `!w` of a `k`-bit word. */
  function Not(w: nat, k: nat): nat
    requires w < Pow2(k)
  {
    Pow2(k) - 1 - w
  }

  /** The bits `[lo, hi)` of a word. */
  function WordMask(lo: nat, hi: nat): nat
    requires lo <= hi <= WORD
  {
    var n := hi - lo;
    if n == 0 then 0 else if n == WORD then Pow2(WORD) - 1 else (Pow2(n) - 1) * Pow2(lo)
  }

  function CountOnes(w: nat): nat {
    if w == 0 then 0 else w % 2 + CountOnes(w / 2)
  }

  function TrailingZeros(w: nat): nat
    requires w > 0
  {
    if w % 2 == 1 then 0 else 1 + TrailingZeros(w / 2)
  }

  /** The highest one bit: 63 less the leading zeros. */
  function TopBit(w: nat): nat
    requires w > 0
  {
    if w == 1 then 0 else 1 + TopBit(w / 2)
  }

  // ---------------------------------------------------------------- bits of the operations

  lemma {:induction false} ZeroBits(i: nat)
    ensures !Bit(0, i)
  {
    if i > 0 {
      ZeroBits(i - 1);
    }
  }

  lemma Halves(x: nat, y: nat)
    requires x < 2
    ensures (x + 2 * y) / 2 == y && (x + 2 * y) % 2 == x
  {
  }

  lemma {:induction false} OrBits(a: nat, b: nat, i: nat)
    ensures Bit(Or(a, b), i) <==> Bit(a, i) || Bit(b, i)
  {
    if a == 0 {
      ZeroBits(i);
    } else if i > 0 {
      OrBits(a / 2, b / 2, i - 1);
      assert Or(a, b) / 2 == Or(a / 2, b / 2);
    }
  }

  lemma {:induction false} AndBits(a: nat, b: nat, i: nat)
    ensures Bit(And(a, b), i) <==> Bit(a, i) && Bit(b, i)
  {
    if a == 0 {
      ZeroBits(i);
    } else {
      Halves(B(a % 2 == 1 && b % 2 == 1), And(a / 2, b / 2));
      if i > 0 {
        AndBits(a / 2, b / 2, i - 1);
      }
    }
  }

  lemma {:induction false} AndNotBits(a: nat, b: nat, i: nat)
    ensures Bit(AndNot(a, b), i) <==> Bit(a, i) && !Bit(b, i)
  {
    if a == 0 {
      ZeroBits(i);
    } else {
      Halves(B(a % 2 == 1 && b % 2 == 0), AndNot(a / 2, b / 2));
      if i > 0 {
        AndNotBits(a / 2, b / 2, i - 1);
      }
    }
  }

  lemma {:induction false} NotBits(w: nat, k: nat, i: nat)
    requires w < Pow2(k) && i < k
    ensures Bit(Not(w, k), i) <==> !Bit(w, i)
  {
    if i > 0 {
      NotBits(w / 2, k - 1, i - 1);
      assert Not(w, k) / 2 == Not(w / 2, k - 1);
    }
  }

  lemma {:induction false} OnesBits(n: nat, i: nat)
    ensures Bit(Pow2(n) - 1, i) <==> i < n
  {
    if n == 0 {
      ZeroBits(i);
    } else if i > 0 {
      OnesBits(n - 1, i - 1);
      assert (Pow2(n) - 1) / 2 == Pow2(n - 1) - 1;
    }
  }

  lemma {:induction false} ShiftBits(x: nat, lo: nat, i: nat)
    ensures Bit(x * Pow2(lo), i) <==> lo <= i && Bit(x, i - lo)
  {
    if lo == 0 {
      assert x * Pow2(0) == x;
    } else {
      var y := x * Pow2(lo - 1);
      assert x * Pow2(lo) == 2 * y by {
        assert x * (2 * Pow2(lo - 1)) == 2 * (x * Pow2(lo - 1));
      }
      if i > 0 {
        ShiftBits(x, lo - 1, i - 1);
        assert (2 * y) / 2 == y;
      }
    }
  }

  /** A mask has exactly the bits it names. */
  lemma MaskBits(lo: nat, hi: nat, i: nat)
    requires lo <= hi <= WORD
    ensures Bit(WordMask(lo, hi), i) <==> lo <= i < hi
  {
    hide Bit, Pow2;
    var n := hi - lo;
    if n == 0 {
      ZeroBits(i);
    } else if n == WORD {
      OnesBits(WORD, i);
    } else {
      ShiftBits(Pow2(n) - 1, lo, i);
      if i >= lo {
        OnesBits(n, i - lo);
      }
    }
  }

  // ---------------------------------------------------------------- widths

  lemma {:induction false} OrFits(a: nat, b: nat, k: nat)
    requires a < Pow2(k) && b < Pow2(k)
    ensures Or(a, b) < Pow2(k)
    decreases k
  {
    if a > 0 {
      OrFits(a / 2, b / 2, k - 1);
    }
  }

  lemma {:induction false} AndNotFits(a: nat, b: nat)
    ensures AndNot(a, b) <= a && And(a, b) <= a
  {
    if a > 0 {
      AndNotFits(a / 2, b / 2);
    }
  }

  lemma MaskFits(lo: nat, hi: nat)
    requires lo <= hi <= WORD
    ensures WordMask(lo, hi) < Pow2(WORD)
  {
    hide Pow2;
    var n := hi - lo;
    if 0 < n < WORD {
      Pow2Sum(n, lo);
      Pow2Mono(hi, WORD);
      assert (Pow2(n) - 1) * Pow2(lo) == Pow2(n) * Pow2(lo) - Pow2(lo);
    }
  }

  // ---------------------------------------------------------------- lowest, highest, number

  lemma {:induction false} LowestBit(w: nat)
    requires w > 0
    ensures Bit(w, TrailingZeros(w)) && forall i :: 0 <= i < TrailingZeros(w) ==> !Bit(w, i)
  {
    if w % 2 == 0 {
      LowestBit(w / 2);
      forall i | 0 <= i < TrailingZeros(w)
        ensures !Bit(w, i)
      {
        if i > 0 {
          assert !Bit(w / 2, i - 1);
        }
      }
    }
  }

  lemma {:induction false} HighestBit(w: nat)
    requires w > 0
    ensures Bit(w, TopBit(w)) && forall i :: i > TopBit(w) ==> !Bit(w, i)
  {
    if w == 1 {
      forall i | i > 0
        ensures !Bit(w, i)
      {
        ZeroBits(i - 1);
      }
    } else {
      HighestBit(w / 2);
      forall i | i > TopBit(w)
        ensures !Bit(w, i)
      {
        assert !Bit(w / 2, i - 1);
      }
    }
  }

  /** The number of one bits in `[x, y)`. */
  function BitTally(w: nat, x: nat, y: nat): nat
    requires x <= y
    decreases y
  {
    if x == y then 0 else BitTally(w, x, y - 1) + B(Bit(w, y - 1))
  }

  lemma {:induction false} TallySplit(w: nat, x: nat, m: nat, y: nat)
    requires x <= m <= y
    ensures BitTally(w, x, y) == BitTally(w, x, m) + BitTally(w, m, y)
    decreases y
  {
    if m < y {
      TallySplit(w, x, m, y - 1);
    }
  }

  lemma {:induction false} TallyHalf(w: nat, k: nat)
    ensures BitTally(w, 1, k + 1) == BitTally(w / 2, 0, k)
  {
    if k > 0 {
      TallyHalf(w, k - 1);
    }
  }

  lemma {:induction false} TallySame(v: nat, w: nat, x: nat, y: nat)
    requires x <= y && forall i :: x <= i < y ==> Bit(v, i) == Bit(w, i)
    ensures BitTally(v, x, y) == BitTally(w, x, y)
    decreases y
  {
    if x < y {
      TallySame(v, w, x, y - 1);
    }
  }

  lemma {:induction false} OnesTally(w: nat, k: nat)
    requires w < Pow2(k)
    ensures CountOnes(w) == BitTally(w, 0, k)
    decreases k
  {
    if k == 0 {
    } else {
      TallySplit(w, 0, 1, k);
      TallyHalf(w, k - 1);
      OnesTally(w / 2, k - 1);
      assert BitTally(w, 0, 1) == w % 2;
    }
  }

  lemma TallyNone(x: nat, y: nat)
    requires x <= y
    ensures BitTally(0, x, y) == 0
    decreases y
  {
    if x < y {
      TallyNone(x, y - 1);
      ZeroBits(y - 1);
    }
  }

  /** Counting the ones under a mask counts the ones in its range. */
  lemma MaskedCount(w: nat, lo: nat, hi: nat)
    requires w < Pow2(WORD) && lo <= hi <= WORD
    ensures CountOnes(And(w, WordMask(lo, hi))) == BitTally(w, lo, hi)
  {
    hide Bit, Pow2, And, WordMask, CountOnes;
    var v := And(w, WordMask(lo, hi));
    forall i: nat
      ensures Bit(v, i) <==> Bit(w, i) && lo <= i < hi
    {
      AndBits(w, WordMask(lo, hi), i);
      MaskBits(lo, hi, i);
      ZeroBits(i);
    }
    AndNotFits(w, WordMask(lo, hi));
    OnesTally(v, WORD);
    TallySplit(v, 0, lo, WORD);
    TallySplit(v, lo, hi, WORD);
    forall i: nat
      ensures !Bit(0, i)
    {
      ZeroBits(i);
    }
    TallySame(v, 0, 0, lo);
    TallySame(v, w, lo, hi);
    TallySame(v, 0, hi, WORD);
    TallyNone(0, lo);
    TallyNone(hi, WORD);
  }
}
