/** Unsigned words as naturals, bit by bit: core/primitives/bits.h and the masks used with it. */
module Bits {
  import opened Machine
  import opened Arithmetic

  type Word = w: nat | w < 0x1_0000_0000_0000_0000

  function Pow2(k: nat): (p: nat)
    ensures p > 0
  {
    if k == 0 then 1 else 2 * Pow2(k - 1)
  }

  lemma WordPow2()
    ensures Pow2(64) == USIZE_MOD
  {
    assert Pow2(2) == 4;
    Pow2Sum(2, 2);
    assert Pow2(4) == 16;
    Pow2Sum(4, 4);
    assert Pow2(8) == 0x100;
    Pow2Sum(8, 8);
    assert Pow2(16) == 0x1_0000;
    Pow2Sum(16, 16);
    assert Pow2(32) == 0x1_0000_0000;
    Pow2Sum(32, 32);
  }

  lemma {:induction false} Pow2Sum(a: nat, b: nat)
    ensures Pow2(a + b) == Pow2(a) * Pow2(b)
    decreases b
  {
    if b > 0 {
      Pow2Sum(a, b - 1);
      assert Pow2(a + b) == 2 * Pow2(a + (b - 1));
    }
  }

  /** Bit i of w, the least significant first. */
  predicate Bit(w: nat, i: nat)
    decreases i
  {
    if i == 0 then w % 2 == 1 else Bit(w / 2, i - 1)
  }

  function B2N(b: bool): nat {
    if b then 1 else 0
  }

  // ---------------------------------------------------------------- gates

  datatype Gate = AND | OR | XOR | ANDNOT {
    predicate Apply(a: bool, b: bool) {
      match this
      case AND => a && b
      case OR => a || b
      case XOR => a != b
      case ANDNOT => a && !b
    }
  }

  /** The bitwise operation on the low n bits. */
  function Combine(g: Gate, x: nat, y: nat, n: nat): nat
    decreases n, x, y
  {
    if n == 0 then 0
    else B2N(g.Apply(x % 2 == 1, y % 2 == 1)) + 2 * Combine(g, x / 2, y / 2, n - 1)
  }

  lemma {:induction false} CombineBits(g: Gate, x: nat, y: nat, n: nat, i: nat)
    ensures Bit(Combine(g, x, y, n), i) <==> i < n && g.Apply(Bit(x, i), Bit(y, i))
    decreases n
  {
    if n == 0 {
      ZeroBits(i);
    } else if i > 0 {
      CombineBits(g, x / 2, y / 2, n - 1, i - 1);
    }
  }

  lemma {:induction false} CombineRange(g: Gate, x: nat, y: nat, n: nat)
    ensures Combine(g, x, y, n) < Pow2(n)
    decreases n
  {
    if n > 0 { CombineRange(g, x / 2, y / 2, n - 1); }
  }

  /** `x & y`, `x | y`, `x ^ y` and `x & ~y` on words. */
  function Op(g: Gate, x: Word, y: Word): (r: Word)
    ensures forall i: nat :: Bit(r, i) <==> i < 64 && g.Apply(Bit(x, i), Bit(y, i))
  {
    CombineRange(g, x, y, 64);
    WordPow2();
    var r := Combine(g, x, y, 64);
    assert forall i: nat :: Bit(r, i) <==> i < 64 && g.Apply(Bit(x, i), Bit(y, i)) by {
      forall i: nat ensures Bit(r, i) <==> i < 64 && g.Apply(Bit(x, i), Bit(y, i)) {
        CombineBits(g, x, y, 64, i);
      }
    }
    r
  }

  /** `~x` */
  function Not(x: Word): (r: Word)
    ensures forall i: nat :: Bit(r, i) <==> i < 64 && !Bit(x, i)
  {
    AllOnes();
    Op(ANDNOT, USIZE_MAX, x)
  }

  // ---------------------------------------------------------------- single bits

  lemma {:induction false} ZeroBits(i: nat)
    ensures !Bit(0, i)
    decreases i
  {
    if i > 0 { ZeroBits(i - 1); }
  }

  lemma {:induction false} Pow2Bits(k: nat, i: nat)
    ensures Bit(Pow2(k), i) <==> i == k
    decreases i
  {
    if k == 0 {
      if i > 0 { ZeroBits(i - 1); }
    } else if i > 0 {
      Pow2Bits(k - 1, i - 1);
    }
  }

  /** The mask `(1 << k) - 1` holds the bits below k. */
  lemma {:induction false} MaskBits(k: nat, i: nat)
    ensures Bit(Pow2(k) - 1, i) <==> i < k
    decreases k
  {
    if k == 0 {
      ZeroBits(i);
    } else if i > 0 {
      MaskBits(k - 1, i - 1);
      assert (Pow2(k) - 1) / 2 == Pow2(k - 1) - 1;
    }
  }

  lemma AllOnes()
    ensures forall i: nat :: Bit(USIZE_MAX, i) <==> i < 64
  {
    WordPow2();
    forall i: nat ensures Bit(USIZE_MAX, i) <==> i < 64 { MaskBits(64, i); }
  }

  lemma {:induction false} Pow2Range(k: nat, n: nat)
    requires k < n
    ensures 2 * Pow2(k) <= Pow2(n)
    decreases n
  {
    if k < n - 1 { Pow2Range(k, n - 1); }
  }

  /** `1 << k` */
  function MaskOf(k: nat): (r: Word)
    requires k < 64
    ensures r == Pow2(k)
    ensures forall i: nat :: Bit(r, i) <==> i == k
  {
    Pow2Range(k, 64);
    WordPow2();
    assert forall i: nat :: Bit(Pow2(k), i) <==> i == k by {
      forall i: nat ensures Bit(Pow2(k), i) <==> i == k { Pow2Bits(k, i); }
    }
    Pow2(k)
  }

  /** `(1 << k) - 1` */
  function MaskBelow(k: nat): (r: Word)
    requires k < 64
    ensures r == Pow2(k) - 1
    ensures forall i: nat :: Bit(r, i) <==> i < k
  {
    var m := MaskOf(k) - 1;
    assert forall i: nat :: Bit(m, i) <==> i < k by {
      forall i: nat ensures Bit(m, i) <==> i < k { MaskBits(k, i); }
    }
    m
  }

  /** `w >> k` */
  function Shr(w: nat, k: nat): (r: nat)
    ensures r <= w
    decreases k
  {
    if k == 0 then w else Shr(w / 2, k - 1)
  }

  lemma {:induction false} ShrBits(w: nat, k: nat, i: nat)
    ensures Bit(Shr(w, k), i) == Bit(w, k + i)
    decreases k
  {
    if k > 0 { ShrBits(w / 2, k - 1, i); }
  }

  lemma {:induction false} BitsBelow(w: nat, n: nat, i: nat)
    requires w < Pow2(n) && n <= i
    ensures !Bit(w, i)
    decreases n
  {
    if n == 0 { ZeroBits(i); } else { BitsBelow(w / 2, n - 1, i - 1); }
  }

  lemma WordBits(w: Word, i: nat)
    requires i >= 64
    ensures !Bit(w, i)
  {
    WordPow2();
    BitsBelow(w, 64, i);
  }

  /** Shifting divides, and bit i is the parity of what is left after i shifts. */
  lemma {:induction false} ShrDivides(w: nat, k: nat)
    ensures Shr(w, k) == w / Pow2(k)
    ensures Bit(w, k) <==> w / Pow2(k) % 2 == 1
    decreases k
  {
    if k > 0 {
      ShrDivides(w / 2, k - 1);
      HalveQuotient(w, Pow2(k - 1));
    }
  }

  // ---------------------------------------------------------------- counting and searching

  /** bits_popcount */
  function Popcount(w: nat): nat {
    if w == 0 then 0 else w % 2 + Popcount(w / 2)
  }

  /** The number of set bits among the low n. */
  function CountBelow(w: nat, n: nat): nat
    decreases n, w
  {
    if n == 0 then 0 else CountBelow(w, n - 1) + B2N(Bit(w, n - 1))
  }

  lemma {:induction false} CountBelowShift(w: nat, n: nat)
    ensures CountBelow(w, n + 1) == w % 2 + CountBelow(w / 2, n)
    decreases n
  {
    if n > 0 { CountBelowShift(w, n - 1); }
  }

  lemma {:induction false} PopcountCounts(w: nat, n: nat)
    requires w < Pow2(n)
    ensures Popcount(w) == CountBelow(w, n)
    decreases n
  {
    if n > 0 {
      CountBelowShift(w, n - 1);
      if w > 0 { PopcountCounts(w / 2, n - 1); } else { PopcountCounts(0, n - 1); }
    }
  }

  /** bits_ctz; 64 for zero. */
  function Ctz(w: Word): (c: nat) {
    if w == 0 then 64 else LowBit(w)
  }

  function LowBit(w: nat): nat
    requires w > 0
  {
    if w % 2 == 1 then 0 else 1 + LowBit(w / 2)
  }

  lemma {:induction false} LowBitIsLeast(w: nat, i: nat)
    requires w > 0
    ensures Bit(w, LowBit(w))
    ensures Bit(w, i) ==> LowBit(w) <= i
    decreases w
  {
    if w % 2 == 0 { LowBitIsLeast(w / 2, if i > 0 then i - 1 else 0); }
  }

  lemma {:induction false} LowBitDivides(x: nat, k: nat)
    requires x > 0
    ensures x % Pow2(k) == 0 <==> k <= LowBit(x)
    decreases k
  {
    if k > 0 {
      ModDouble(x, Pow2(k - 1));
      if x % 2 == 0 { LowBitDivides(x / 2, k - 1); }
    }
  }

  lemma CtzIsLeast(w: Word)
    requires w != 0
    ensures Ctz(w) < 64 && Bit(w, Ctz(w))
    ensures forall i: nat | Bit(w, i) :: Ctz(w) <= i
  {
    forall i: nat ensures Bit(w, LowBit(w)) && (Bit(w, i) ==> Ctz(w) <= i) { LowBitIsLeast(w, i); }
    if LowBit(w) >= 64 { WordBits(w, LowBit(w)); }
  }

  /** bits_clz; 64 for zero. */
  function Clz(w: Word): int {
    if w == 0 then 64 else 63 - HighBit(w)
  }

  function HighBit(w: nat): nat
    requires w > 0
  {
    if w == 1 then 0 else 1 + HighBit(w / 2)
  }

  lemma {:induction false} HighBitIsGreatest(w: nat, i: nat)
    requires w > 0
    ensures Bit(w, HighBit(w))
    ensures Bit(w, i) ==> i <= HighBit(w)
    decreases w
  {
    if w == 1 {
      if i > 0 { ZeroBits(i - 1); }
    } else {
      HighBitIsGreatest(w / 2, if i > 0 then i - 1 else 0);
    }
  }

  lemma ClzIsGreatest(w: Word)
    requires w != 0
    ensures 0 <= 63 - Clz(w) < 64 && Bit(w, 63 - Clz(w))
    ensures forall i: nat | Bit(w, i) :: i <= 63 - Clz(w)
  {
    forall i: nat ensures Bit(w, HighBit(w)) && (Bit(w, i) ==> i <= HighBit(w)) { HighBitIsGreatest(w, i); }
    if HighBit(w) >= 64 { WordBits(w, HighBit(w)); }
  }

  /** A word is zero exactly when it has no bit. */
  lemma ZeroExactly(w: Word)
    ensures w == 0 ==> forall i: nat :: !Bit(w, i)
    ensures w != 0 ==> exists i: nat :: i < 64 && Bit(w, i)
  {
    if w == 0 {
      forall i: nat ensures !Bit(w, i) { ZeroBits(i); }
    } else {
      CtzIsLeast(w);
      assert Bit(w, Ctz(w));
    }
  }

  // ---------------------------------------------------------------- powers of two

  /** is_power_of_two */
  predicate IsPowerOfTwo(n: Word) {
    n > 0 && Op(AND, n, n - 1) == 0
  }

  lemma {:induction false} CombineSelf(x: nat, n: nat)
    requires x < Pow2(n)
    ensures Combine(AND, x, x, n) == x
    decreases n
  {
    if n > 0 { CombineSelf(x / 2, n - 1); }
  }

  lemma {:induction false} LoneBit(x: nat, n: nat) returns (k: nat)
    requires 0 < x < Pow2(n) && Combine(AND, x, x - 1, n) == 0
    ensures k < n && x == Pow2(k)
    decreases n
  {
    if x % 2 == 1 {
      CombineSelf(x / 2, n - 1);
      k := 0;
    } else {
      assert (x - 1) / 2 == x / 2 - 1;
      k := LoneBit(x / 2, n - 1);
      k := k + 1;
    }
  }

  lemma {:induction false} Pow2LoneBit(k: nat, n: nat)
    requires k < n
    ensures Combine(AND, Pow2(k), Pow2(k) - 1, n) == 0
    decreases n
  {
    if k == 0 {
      assert Combine(AND, 0, 0, n - 1) == 0 by { CombineSelf(0, n - 1); }
    } else {
      assert (Pow2(k) - 1) / 2 == Pow2(k - 1) - 1;
      Pow2LoneBit(k - 1, n - 1);
    }
  }

  /** The bit test decides the powers of two exactly. */
  lemma PowerOfTwoExactly(n: Word)
    ensures IsPowerOfTwo(n) <==> exists k: nat :: k < 64 && n == Pow2(k)
  {
    WordPow2();
    if IsPowerOfTwo(n) {
      var k := LoneBit(n, 64);
    }
    if k: nat :| k < 64 && n == Pow2(k) {
      Pow2LoneBit(k, 64);
    }
  }

  lemma OddHalves(p: nat)
    requires p > 0
    ensures (2 * p - 1) % 2 == 1 && (2 * p - 1) / 2 == p - 1
  {
  }

  /** The number that the low k bits make. */
  function LowBits(x: nat, k: nat): nat
    decreases k
  {
    if k == 0 then 0 else x % 2 + 2 * LowBits(x / 2, k - 1)
  }

  lemma {:induction false} LowPart(x: nat, k: nat, n: nat)
    requires k <= n
    ensures Combine(AND, x, Pow2(k) - 1, n) == LowBits(x, k)
    decreases n
  {
    if k == 0 {
      AndZero(x, n);
    } else {
      LowPart(x / 2, k - 1, n - 1);
      NextAnd(x, Pow2(k - 1), n - 1);
    }
  }

  lemma {:induction false} LowBitsIsRemainder(x: nat, k: nat)
    ensures LowBits(x, k) == x % Pow2(k)
    decreases k
  {
    if k > 0 {
      LowBitsIsRemainder(x / 2, k - 1);
      ModDouble(x, Pow2(k - 1));
    }
  }

  lemma LowPartIsRemainder(x: nat, k: nat, n: nat)
    requires k <= n
    ensures Combine(AND, x, Pow2(k) - 1, n) == x % Pow2(k)
  {
    LowPart(x, k, n);
    LowBitsIsRemainder(x, k);
  }

  lemma {:induction false} NextAnd(x: nat, p: nat, n: nat)
    requires p > 0
    ensures Combine(AND, x, 2 * p - 1, n + 1) == x % 2 + 2 * Combine(AND, x / 2, p - 1, n)
  {
    OddHalves(p);
  }

  lemma {:induction false} AndZero(x: nat, n: nat)
    ensures Combine(AND, x, 0, n) == 0
    decreases n
  {
    if n > 0 { AndZero(x / 2, n - 1); }
  }

  lemma {:induction false} SplitByMask(x: nat, y: nat, n: nat)
    requires x < Pow2(n)
    ensures Combine(AND, x, y, n) + Combine(ANDNOT, x, y, n) == x
    decreases n
  {
    if n > 0 { SplitByMask(x / 2, y / 2, n - 1); }
  }

  /** `x & (a - 1)` for a power of two a is the remainder, and `x & ~(a - 1)` what is left. */
  lemma MaskIsRemainder(x: Word, a: Word)
    requires IsPowerOfTwo(a)
    ensures Op(AND, x, a - 1) == x % a
    ensures Op(ANDNOT, x, a - 1) == x - x % a
  {
    PowerOfTwoExactly(a);
    var k: nat :| k < 64 && a == Pow2(k);
    LowPartIsRemainder(x, k, 64);
    WordPow2();
    SplitByMask(x, a - 1, 64);
  }
}
