/** Bitwise operations on natural numbers: masks, bytes of words, and counting bits. */
module Bits {
  import opened Words

  /** a & ~b. */
  function AndNot(a: nat, b: nat): nat
    decreases a
  {
    if a == 0 then 0 else (if a % 2 == 1 && b % 2 == 0 then 1 else 0) + 2 * AndNot(a / 2, b / 2)
  }

  /** All bits below k. */
  function Ones(k: nat): nat {
    Pow2(k) - 1
  }

  lemma {:induction false} Halving(a: nat, k: nat)
    requires k > 0
    ensures a % Pow2(k) == a % 2 + 2 * (a / 2 % Pow2(k - 1))
  {
    ModStep(a, 2, Pow2(k - 1), Pow2(k));
  }

  /** Or-ing in the low k bits fills them. */
  lemma {:induction false} OrOnes(a: nat, k: nat)
    ensures BitOr(a, Ones(k)) == a - a % Pow2(k) + Ones(k)
  {
    if k == 0 {
      OrNothing(a);
    } else {
      OrOnes(a / 2, k - 1);
      Halving(a, k);
      OrOddHalves(a, Ones(k - 1));
    }
  }

  lemma {:induction false} OrOddHalves(a: nat, half: nat)
    ensures BitOr(a, 2 * half + 1) == 1 + 2 * BitOr(a / 2, half)
  {
    OrStep(a, 2 * half + 1);
  }

  lemma {:induction false} OrNothing(a: nat)
    ensures BitOr(a, 0) == a
  {
    if a != 0 {
      OrNothing(a / 2);
    }
  }

  /** Masking out the low k bits clears them. */
  lemma {:induction false} AndNotOnes(a: nat, k: nat)
    ensures AndNot(a, Ones(k)) == a - a % Pow2(k)
  {
    if k == 0 {
      AndNotNothing(a);
    } else {
      AndNotOnes(a / 2, k - 1);
      Halving(a, k);
      AndNotOddHalves(a, Ones(k - 1));
    }
  }

  lemma {:induction false} AndNotOddHalves(a: nat, half: nat)
    ensures AndNot(a, 2 * half + 1) == 2 * AndNot(a / 2, half)
  {
    AndNotStep(a, 2 * half + 1);
  }

  lemma {:induction false} AndNotNothing(a: nat)
    ensures AndNot(a, 0) == a
  {
    if a != 0 {
      AndNotNothing(a / 2);
    }
  }

  // ---------------------------------------------------------------- words and their bytes

  /** a without its n low bits. */
  function HighBits(n: nat, a: nat): nat {
    if n == 0 then a else HighBits(n - 1, a / 2)
  }

  lemma {:induction false} LowStep(n: nat, a: nat)
    requires n > 0
    ensures LowBits(n, a) % 2 == a % 2 && LowBits(n, a) / 2 == LowBits(n - 1, a / 2)
  {
  }

  lemma {:induction false} SameHalves(a: nat, b: nat)
    requires a % 2 == b % 2 && a / 2 == b / 2
    ensures a == b
  {
  }

  lemma {:induction false} OrStep(a: nat, b: nat)
    ensures BitOr(a, b) % 2 == if a % 2 == 1 || b % 2 == 1 then 1 else 0
    ensures BitOr(a, b) / 2 == BitOr(a / 2, b / 2)
  {
  }

  lemma {:induction false} AndNotStep(a: nat, b: nat)
    ensures AndNot(a, b) % 2 == if a % 2 == 1 && b % 2 == 0 then 1 else 0
    ensures AndNot(a, b) / 2 == AndNot(a / 2, b / 2)
  {
  }

  /** Both operations work on the low n bits and on those above separately. */
  lemma {:induction false} OrSplits(a: nat, b: nat, n: nat)
    ensures LowBits(n, BitOr(a, b)) == BitOr(LowBits(n, a), LowBits(n, b))
    ensures HighBits(n, BitOr(a, b)) == BitOr(HighBits(n, a), HighBits(n, b))
  {
    OrLow(a, b, n);
    OrHigh(a, b, n);
  }

  lemma {:induction false} OrLow(a: nat, b: nat, n: nat)
    ensures LowBits(n, BitOr(a, b)) == BitOr(LowBits(n, a), LowBits(n, b))
    decreases n, 1
  {
    if n == 0 {
      OrZero(0);
    } else {
      OrLowHalves(a, b, n);
      SameHalves(LowBits(n, BitOr(a, b)), BitOr(LowBits(n, a), LowBits(n, b)));
    }
  }

  lemma {:induction false} OrLowHalves(a: nat, b: nat, n: nat)
    requires n > 0
    ensures LowBits(n, BitOr(a, b)) % 2 == BitOr(LowBits(n, a), LowBits(n, b)) % 2
    ensures LowBits(n, BitOr(a, b)) / 2 == BitOr(LowBits(n, a), LowBits(n, b)) / 2
    decreases n, 0
  {
    hide BitOr, LowBits;
    OrLow(a / 2, b / 2, n - 1);
    OrStep(a, b);
    OrStep(LowBits(n, a), LowBits(n, b));
    LowStep(n, a);
    LowStep(n, b);
    LowStep(n, BitOr(a, b));
  }

  lemma {:induction false} OrHigh(a: nat, b: nat, n: nat)
    ensures HighBits(n, BitOr(a, b)) == BitOr(HighBits(n, a), HighBits(n, b))
  {
    hide BitOr;
    if n > 0 {
      OrHigh(a / 2, b / 2, n - 1);
      OrStep(a, b);
    }
  }

  lemma {:induction false} AndNotSplits(a: nat, b: nat, n: nat)
    ensures LowBits(n, AndNot(a, b)) == AndNot(LowBits(n, a), LowBits(n, b))
    ensures HighBits(n, AndNot(a, b)) == AndNot(HighBits(n, a), HighBits(n, b))
  {
    AndNotLow(a, b, n);
    AndNotHigh(a, b, n);
  }

  lemma {:induction false} AndNotLow(a: nat, b: nat, n: nat)
    ensures LowBits(n, AndNot(a, b)) == AndNot(LowBits(n, a), LowBits(n, b))
    decreases n, 1
  {
    if n == 0 {
      AndNotNothing(0);
    } else {
      AndNotLowHalves(a, b, n);
      SameHalves(LowBits(n, AndNot(a, b)), AndNot(LowBits(n, a), LowBits(n, b)));
    }
  }

  lemma {:induction false} AndNotLowHalves(a: nat, b: nat, n: nat)
    requires n > 0
    ensures LowBits(n, AndNot(a, b)) % 2 == AndNot(LowBits(n, a), LowBits(n, b)) % 2
    ensures LowBits(n, AndNot(a, b)) / 2 == AndNot(LowBits(n, a), LowBits(n, b)) / 2
    decreases n, 0
  {
    hide AndNot, LowBits;
    AndNotLow(a / 2, b / 2, n - 1);
    AndNotStep(a, b);
    AndNotStep(LowBits(n, a), LowBits(n, b));
    LowStep(n, a);
    LowStep(n, b);
    LowStep(n, AndNot(a, b));
  }

  lemma {:induction false} AndNotHigh(a: nat, b: nat, n: nat)
    ensures HighBits(n, AndNot(a, b)) == AndNot(HighBits(n, a), HighBits(n, b))
  {
    hide AndNot;
    if n > 0 {
      AndNotHigh(a / 2, b / 2, n - 1);
      AndNotStep(a, b);
    }
  }

  lemma {:induction false} HighBitsIsDiv(n: nat, a: nat)
    ensures HighBits(n, a) == a / Pow2(n)
  {
    if n > 0 {
      HighBitsIsDiv(n - 1, a / 2);
      ModStep(a, 2, Pow2(n - 1), Pow2(n));
    }
  }

  lemma {:induction false} ByteIsLowBits(a: nat)
    ensures LowBits(8, a) == a % 256 && HighBits(8, a) == a / 256
  {
    LowBitsIsMod(8, a);
    HighBitsIsDiv(8, a);
    WordSizes();
  }

  /** The number with the n low bits of x, and y above them. */
  function Cat(n: nat, x: nat, y: nat): nat {
    if n == 0 then y else x % 2 + 2 * Cat(n - 1, x / 2, y)
  }

  lemma {:induction false} CatStep(n: nat, x: nat, y: nat)
    requires n > 0
    ensures Cat(n, x, y) % 2 == x % 2 && Cat(n, x, y) / 2 == Cat(n - 1, x / 2, y)
    ensures Cat(n, x, y) == x % 2 + 2 * Cat(n - 1, x / 2, y)
  {
  }

  lemma {:induction false} CatIsSum(n: nat, x: nat, y: nat)
    requires x < Pow2(n)
    ensures Cat(n, x, y) == x + Pow2(n) * y
  {
    if n > 0 {
      CatIsSum(n - 1, x / 2, y);
      TwiceHalf(n, y);
      CatStep(n, x, y);
    }
  }

  lemma {:induction false} OrCat(n: nat, x: nat, y: nat, x': nat, y': nat)
    ensures BitOr(Cat(n, x, y), Cat(n, x', y')) == Cat(n, BitOr(x, x'), BitOr(y, y'))
    decreases n, 1
  {
    hide BitOr;
    if n > 0 {
      OrCatHalves(n, x, y, x', y');
      SameHalves(BitOr(Cat(n, x, y), Cat(n, x', y')), Cat(n, BitOr(x, x'), BitOr(y, y')));
    }
  }

  lemma {:induction false} OrCatHalves(n: nat, x: nat, y: nat, x': nat, y': nat)
    requires n > 0
    ensures BitOr(Cat(n, x, y), Cat(n, x', y')) % 2 == Cat(n, BitOr(x, x'), BitOr(y, y')) % 2
    ensures BitOr(Cat(n, x, y), Cat(n, x', y')) / 2 == Cat(n, BitOr(x, x'), BitOr(y, y')) / 2
    decreases n, 0
  {
    hide BitOr, Cat;
    OrCat(n - 1, x / 2, y, x' / 2, y');
    OrStep(Cat(n, x, y), Cat(n, x', y'));
    OrStep(x, x');
    CatStep(n, x, y);
    CatStep(n, x', y');
    CatStep(n, BitOr(x, x'), BitOr(y, y'));
  }

  lemma {:induction false} AndNotCat(n: nat, x: nat, y: nat, x': nat, y': nat)
    ensures AndNot(Cat(n, x, y), Cat(n, x', y')) == Cat(n, AndNot(x, x'), AndNot(y, y'))
    decreases n, 1
  {
    hide AndNot;
    if n > 0 {
      AndNotCatHalves(n, x, y, x', y');
      SameHalves(AndNot(Cat(n, x, y), Cat(n, x', y')), Cat(n, AndNot(x, x'), AndNot(y, y')));
    }
  }

  lemma {:induction false} AndNotCatHalves(n: nat, x: nat, y: nat, x': nat, y': nat)
    requires n > 0
    ensures AndNot(Cat(n, x, y), Cat(n, x', y')) % 2 == Cat(n, AndNot(x, x'), AndNot(y, y')) % 2
    ensures AndNot(Cat(n, x, y), Cat(n, x', y')) / 2 == Cat(n, AndNot(x, x'), AndNot(y, y')) / 2
    decreases n, 0
  {
    hide AndNot, Cat;
    AndNotCat(n - 1, x / 2, y, x' / 2, y');
    AndNotStep(Cat(n, x, y), Cat(n, x', y'));
    AndNotStep(x, x');
    CatStep(n, x, y);
    CatStep(n, x', y');
    CatStep(n, AndNot(x, x'), AndNot(y, y'));
  }

  /** Swapping puts the lowest byte on top of the swapped others. */
  lemma {:induction false} SwapIsCat(v: nat, w: nat)
    requires w > 0
    ensures ByteSwap(v, w) == Cat(8 * (w - 1), ByteSwap(v / 256, w - 1), v % 256)
  {
    ByteSwapShifts(v, w);
    Pow256IsPow2(w - 1);
    CatIsSum(8 * (w - 1), ByteSwap(v / 256, w - 1), v % 256);
  }

  lemma {:induction false} OrByte(a: nat, b: nat)
    ensures BitOr(a, b) % 256 == BitOr(a % 256, b % 256) && BitOr(a, b) / 256 == BitOr(a / 256, b / 256)
  {
    OrSplits(a, b, 8);
    ByteIsLowBits(a);
    ByteIsLowBits(b);
    ByteIsLowBits(BitOr(a, b));
  }

  lemma {:induction false} AndNotByte(a: nat, b: nat)
    ensures AndNot(a, b) % 256 == AndNot(a % 256, b % 256) && AndNot(a, b) / 256 == AndNot(a / 256, b / 256)
  {
    AndNotSplits(a, b, 8);
    ByteIsLowBits(a);
    ByteIsLowBits(b);
    ByteIsLowBits(AndNot(a, b));
  }

  /** Swapping the bytes of a word commutes with both operations. */
  lemma {:induction false} SwapOr(a: nat, b: nat, w: nat)
    ensures ByteSwap(BitOr(a, b), w) == BitOr(ByteSwap(a, w), ByteSwap(b, w))
  {
    if w > 0 {
      SwapOr(a / 256, b / 256, w - 1);
      SwapIsCat(a, w);
      SwapIsCat(b, w);
      SwapIsCat(BitOr(a, b), w);
      OrByte(a, b);
      OrCat(8 * (w - 1), ByteSwap(a / 256, w - 1), a % 256, ByteSwap(b / 256, w - 1), b % 256);
    }
  }

  lemma {:induction false} SwapAndNot(a: nat, b: nat, w: nat)
    ensures ByteSwap(AndNot(a, b), w) == AndNot(ByteSwap(a, w), ByteSwap(b, w))
  {
    if w > 0 {
      SwapAndNot(a / 256, b / 256, w - 1);
      SwapIsCat(a, w);
      SwapIsCat(b, w);
      SwapIsCat(AndNot(a, b), w);
      AndNotByte(a, b);
      AndNotCat(8 * (w - 1), ByteSwap(a / 256, w - 1), a % 256, ByteSwap(b / 256, w - 1), b % 256);
    }
  }

  // ---------------------------------------------------------------- counting bits

  function PopCount(v: nat): nat {
    if v == 0 then 0 else v % 2 + PopCount(v / 2)
  }

  /** value & (value - 1) drops the lowest set bit. */
  lemma {:induction false} ClearLowest(v: nat)
    requires v > 0
    ensures BitAnd(v, v - 1) < v && PopCount(BitAnd(v, v - 1)) == PopCount(v) - 1
  {
    hide PopCount, BitAnd;
    if v % 2 == 1 {
      AndOddLowest(v);
      PopStep(v);
      PopStep(v - 1);
    } else {
      ClearLowest(v / 2);
      AndEvenLowest(v);
      PopStep(v);
      PopStep(BitAnd(v, v - 1));
    }
  }

  lemma {:induction false} AndOddLowest(v: nat)
    requires v % 2 == 1
    ensures BitAnd(v, v - 1) == v - 1
  {
    AndSame(v / 2);
    AndHalves(v, v - 1);
  }

  lemma {:induction false} AndEvenLowest(v: nat)
    requires v > 0 && v % 2 == 0
    ensures BitAnd(v, v - 1) == 2 * BitAnd(v / 2, v / 2 - 1)
  {
    assert (v - 1) / 2 == v / 2 - 1 && (v - 1) % 2 == 1;
    AndHalves(v, v - 1);
  }

  lemma {:induction false} PopZero()
    ensures PopCount(0) == 0
  {
  }

  lemma {:induction false} PopStep(v: nat)
    ensures PopCount(v) == v % 2 + PopCount(v / 2)
  {
  }

  lemma {:induction false} AndHalves(a: nat, b: nat)
    ensures BitAnd(a, b) == (if a % 2 == 1 && b % 2 == 1 then 1 else 0) + 2 * BitAnd(a / 2, b / 2)
  {
  }

  lemma {:induction false} AndSame(v: nat)
    ensures BitAnd(v, v) == v
  {
    if v != 0 {
      AndSame(v / 2);
    }
  }

  /** CountBits: one turn per set bit, and their number. */
  method CountBits(v: nat) returns (result: nat)
    ensures result == PopCount(v)
  {
    var value := v;
    result := 0;
    while value > 0
      invariant result + PopCount(value) == PopCount(v)
    {
      result := result + 1;
      ClearLowest(value);
      value := BitAnd(value, value - 1);
    }
  }

  /** The complement of a word of n bits has the other bits. */
  lemma {:induction false} PopComplement(v: nat, n: nat)
    requires v < Pow2(n)
    ensures PopCount(Ones(n) - v) == n - PopCount(v)
  {
    hide PopCount;
    if n == 0 {
      PopZero();
    } else {
      PopComplement(v / 2, n - 1);
      PopStep(v);
      PopStep(Ones(n) - v);
      assert (Ones(n) - v) / 2 == Ones(n - 1) - v / 2;
    }
  }

  lemma {:induction false} PopOnes(k: nat)
    ensures PopCount(Ones(k)) == k
  {
    hide PopCount;
    if k == 0 {
      PopZero();
    } else {
      PopOnes(k - 1);
      PopStep(Ones(k));
    }
  }

  lemma {:induction false} PopCat(n: nat, x: nat, y: nat)
    requires x < Pow2(n)
    ensures PopCount(Cat(n, x, y)) == PopCount(x) + PopCount(y)
  {
    hide PopCount;
    if n == 0 {
      PopZero();
    } else {
      PopCat(n - 1, x / 2, y);
      PopStep(Cat(n, x, y));
      PopStep(x);
      CatStep(n, x, y);
    }
  }

  lemma {:induction false} ByteOnTop(v: nat)
    ensures v == Cat(8, v % 256, v / 256) && v % 256 < Pow2(8)
  {
    WordSizes();
    CatIsSum(8, v % 256, v / 256);
  }

  /** The bytes of a word have its bits, in whatever order. */
  lemma {:induction false} PopSwap(v: nat, w: nat)
    requires v < Pow256(w)
    ensures PopCount(ByteSwap(v, w)) == PopCount(v)
  {
    if w > 0 {
      PopSwap(v / 256, w - 1);
      SwapIsCat(v, w);
      Pow256IsPow2(w - 1);
      PopCat(8 * (w - 1), ByteSwap(v / 256, w - 1), v % 256);
      ByteOnTop(v);
      PopCat(8, v % 256, v / 256);
    }
  }
}
