/**
 * The fallbacks of core/primitives/bits.h for compilers without bit-counting builtins: the parallel bit count and the
 * two binary searches, proved to compute what the builtins do.
 */
module BitsFallback {
  import opened Machine
  import opened Bits

  // ---------------------------------------------------------------- population count

  const PAIR_MASK: Word := 0x5555_5555_5555_5555
  const NIBBLE_MASK: Word := 0x3333_3333_3333_3333
  const BYTE_MASK: Word := 0x0F0F_0F0F_0F0F_0F0F

  /** The mask of n fields, 1 in every two bits, 3 in every four, 15 in every eight. */
  function PairMask(n: nat): nat {
    if n == 0 then 0 else 1 + 4 * PairMask(n - 1)
  }

  function NibbleMask(n: nat): nat {
    if n == 0 then 0 else 3 + 16 * NibbleMask(n - 1)
  }

  function ByteMask(n: nat): nat {
    if n == 0 then 0 else 15 + 256 * ByteMask(n - 1)
  }

  lemma {:induction false} PairMaskInClosedForm(n: nat)
    ensures 3 * PairMask(n) + 1 == Pow2(2 * n)
    decreases n
  {
    if n > 0 {
      PairMaskInClosedForm(n - 1);
      FourDoublings(2 * (n - 1));
    }
  }

  lemma {:induction false} NibbleMaskInClosedForm(n: nat)
    ensures 5 * NibbleMask(n) + 1 == Pow2(4 * n)
    decreases n
  {
    if n > 0 {
      NibbleMaskInClosedForm(n - 1);
      FourDoublings(4 * (n - 1));
    }
  }

  lemma {:induction false} ByteMaskInClosedForm(n: nat)
    ensures 17 * ByteMask(n) + 1 == Pow2(8 * n)
    decreases n
  {
    if n > 0 {
      ByteMaskInClosedForm(n - 1);
      FourDoublings(8 * (n - 1));
      FourDoublings(8 * (n - 1) + 4);
    }
  }

  lemma {:induction false} FourDoublings(k: nat)
    ensures Pow2(k + 2) == 4 * Pow2(k) && Pow2(k + 4) == 16 * Pow2(k)
  {
    assert Pow2(k + 1) == 2 * Pow2(k);
    assert Pow2(k + 2) == 2 * Pow2(k + 1);
    assert Pow2(k + 3) == 2 * Pow2(k + 2);
    assert Pow2(k + 4) == 2 * Pow2(k + 3);
  }

  lemma {:induction false} MaskValues(n: nat)
    requires n == 8
    ensures PairMask(4 * n) == PAIR_MASK && NibbleMask(2 * n) == NIBBLE_MASK && ByteMask(n) == BYTE_MASK
  {
    WordPow2();
    PairMaskInClosedForm(4 * n);
    NibbleMaskInClosedForm(2 * n);
    ByteMaskInClosedForm(n);
  }

  lemma {:induction false} NextMasks(n: nat)
    requires n > 0
    ensures PairMask(n) == 1 + 4 * PairMask(n - 1)
    ensures NibbleMask(n) == 3 + 16 * NibbleMask(n - 1)
    ensures ByteMask(n) == 15 + 256 * ByteMask(n - 1)
  {
  }

  lemma LowPair(x: nat, r: nat, q: nat)
    requires r < 4 && x == r + 4 * q
    ensures x % 4 == r && x / 4 == q
  {
  }

  lemma {:induction false} NextPair(x: nat, r: nat, q: nat, n: nat)
    requires n > 0 && r < 4 && x == r + 4 * q
    ensures Pairs(x, n) == Popcount(r) + 4 * Pairs(q, n - 1)
  {
    LowPair(x, r, q);
  }

  lemma LowNibble(x: nat, r: nat, q: nat)
    requires r < 16 && x == r + 16 * q
    ensures x % 16 == r && x / 16 == q
  {
  }

  lemma {:induction false} NextNibble(x: nat, r: nat, q: nat, n: nat)
    requires n > 0 && r < 16 && x == r + 16 * q
    ensures Nibbles(x, n) == Popcount(r) + 16 * Nibbles(q, n - 1)
  {
    LowNibble(x, r, q);
  }

  lemma LowByte(x: nat, r: nat, q: nat)
    requires r < 256 && x == r + 256 * q
    ensures x % 256 == r && x / 256 == q
  {
  }

  lemma {:induction false} NextByte(x: nat, r: nat, q: nat, n: nat)
    requires n > 0 && r < 256 && x == r + 256 * q
    ensures Bytes(x, n) == Popcount(r) + 256 * Bytes(q, n - 1)
  {
    LowByte(x, r, q);
  }

  /** x with every field of two, four or eight bits replaced by the number of bits set in that field. */
  function Pairs(x: nat, n: nat): nat
    decreases n, x
  {
    if n == 0 then 0 else Popcount(x % 4) + 4 * Pairs(x / 4, n - 1)
  }

  function Nibbles(x: nat, n: nat): nat
    decreases n, x
  {
    if n == 0 then 0 else Popcount(x % 16) + 16 * Nibbles(x / 16, n - 1)
  }

  function Bytes(x: nat, n: nat): nat
    decreases n, x
  {
    if n == 0 then 0 else Popcount(x % 256) + 256 * Bytes(x / 256, n - 1)
  }

  lemma {:induction false} PopcountSplits2(b: nat, q: nat)
    requires b < 2
    ensures Popcount(b + 2 * q) == b + Popcount(q)
  {
    assert (b + 2 * q) % 2 == b && (b + 2 * q) / 2 == q;
  }

  lemma {:induction false} PopcountSplits4(r: nat, q: nat)
    requires r < 4
    ensures Popcount(r + 4 * q) == Popcount(r) + Popcount(q)
    ensures Popcount(r) == r % 2 + r / 2
  {
    PopcountOfTwoBits(r % 2, r / 2, q);
  }

  lemma {:induction false} PopcountOfTwoBits(a: nat, b: nat, q: nat)
    requires a < 2 && b < 2
    ensures Popcount(a + 2 * b + 4 * q) == Popcount(a + 2 * b) + Popcount(q)
    ensures Popcount(a + 2 * b) == a + b
  {
    assert a + 2 * (b + 2 * q) == a + 2 * b + 4 * q;
    PopcountSplits2(a, b + 2 * q);
    PopcountSplits2(b, q);
    PopcountSplits2(a, b);
    PopcountSplits2(b, 0);
  }

  lemma {:induction false} PopcountSplits16(a: nat, b: nat, q: nat)
    requires a < 4 && b < 4
    ensures Popcount(a + 4 * b + 16 * q) == Popcount(a + 4 * b) + Popcount(q)
    ensures Popcount(a + 4 * b) == Popcount(a) + Popcount(b) && Popcount(a) <= 2 && Popcount(b) <= 2
  {
    assert a + 4 * (b + 4 * q) == a + 4 * b + 16 * q;
    PopcountSplits4(a, b + 4 * q);
    PopcountSplits4(b, q);
    PopcountSplits4(a, b);
  }

  lemma {:induction false} PopcountSplits256(a: nat, b: nat, q: nat)
    requires a < 16 && b < 16
    ensures Popcount(a + 16 * b + 256 * q) == Popcount(a + 16 * b) + Popcount(q)
    ensures Popcount(a + 16 * b) == Popcount(a) + Popcount(b) && Popcount(a) <= 4 && Popcount(b) <= 4
  {
    PopcountOfPairs(a % 4, a / 4, b + 16 * q, a);
    PopcountOfPairs(b % 4, b / 4, q, b);
    PopcountOfPairs(a % 4, a / 4, b, a);
  }

  lemma {:induction false} PopcountOfPairs(a0: nat, a1: nat, q: nat, a: nat)
    requires a0 < 4 && a1 < 4 && a == a0 + 4 * a1
    ensures Popcount(a + 16 * q) == Popcount(a) + Popcount(q) && Popcount(a) <= 4
  {
    PopcountSplits16(a0, a1, q);
  }

  /** x as its two lowest pairs of bits and the rest. */
  lemma {:induction false} PairsOf(x: nat) returns (a: nat, b: nat, q: nat)
    ensures a < 4 && b < 4 && x == a + 4 * b + 16 * q
  {
    a, b, q := x % 4, x / 4 % 4, x / 16;
  }

  /** x as its two lowest nibbles and the rest. */
  lemma {:induction false} NibblesOf(x: nat) returns (a: nat, b: nat, q: nat)
    ensures a < 16 && b < 16 && x == a + 16 * b + 256 * q
  {
    a, b, q := x % 16, x / 16 % 16, x / 256;
  }

  // The lemmas below take a word as its low fields and the rest.

  lemma {:induction false} AndBit(a: nat, q: nat, c: nat, m: nat, k: nat)
    requires a < 2 && c < 2
    ensures Combine(AND, a + 2 * q, c + 2 * m, k + 1) == (if c == 1 then a else 0) + 2 * Combine(AND, q, m, k)
  {
    assert (a + 2 * q) % 2 == a && (a + 2 * q) / 2 == q && (c + 2 * m) % 2 == c && (c + 2 * m) / 2 == m;
  }

  lemma {:induction false} AndOnes(r: nat, q: nat, m: nat, k: nat)
    requires r < 4
    ensures Combine(AND, r + 4 * q, 3 + 4 * m, k + 2) == r + 4 * Combine(AND, q, m, k)
  {
    AndTwoOnes(r % 2, r / 2, q, m, k);
  }

  lemma {:induction false} AndTwoOnes(a: nat, b: nat, q: nat, m: nat, k: nat)
    requires a < 2 && b < 2
    ensures Combine(AND, a + 2 * b + 4 * q, 3 + 4 * m, k + 2) == a + 2 * b + 4 * Combine(AND, q, m, k)
  {
    assert a + 2 * (b + 2 * q) == a + 2 * b + 4 * q && 1 + 2 * (1 + 2 * m) == 3 + 4 * m;
    AndBit(a, b + 2 * q, 1, 1 + 2 * m, k + 1);
    AndBit(b, q, 1, m, k);
  }

  lemma {:induction false} AndZeros(r: nat, q: nat, m: nat, k: nat)
    requires r < 4
    ensures Combine(AND, r + 4 * q, 4 * m, k + 2) == 4 * Combine(AND, q, m, k)
  {
    AndBit(r % 2, r / 2 + 2 * q, 0, 2 * m, k + 1);
    AndBit(r / 2, q, 0, m, k);
  }

  lemma {:induction false} AndNibble(a: nat, b: nat, q: nat, m: nat, k: nat)
    requires a < 4 && b < 4
    ensures Combine(AND, a + 4 * b + 16 * q, 3 + 16 * m, k + 4) == a + 16 * Combine(AND, q, m, k)
  {
    AndOnes(a, b + 4 * q, 4 * m, k + 2);
    AndZeros(b, q, m, k);
  }

  lemma {:induction false} AndByte(a: nat, b: nat, q: nat, m: nat, k: nat)
    requires a < 16 && b < 16
    ensures Combine(AND, a + 16 * b + 256 * q, 15 + 256 * m, k + 8) == a + 256 * Combine(AND, q, m, k)
  {
    AndLowNibble(a % 4, a / 4, b + 16 * q, 16 * m, k + 4);
    AndHighNibble(b % 4, b / 4, q, m, k);
  }

  lemma {:induction false} AndLowNibble(a: nat, b: nat, q: nat, m: nat, k: nat)
    requires a < 4 && b < 4
    ensures Combine(AND, a + 4 * b + 16 * q, 15 + 16 * m, k + 4) == a + 4 * b + 16 * Combine(AND, q, m, k)
  {
    AndOnes(a, b + 4 * q, 3 + 4 * m, k + 2);
    AndOnes(b, q, m, k);
  }

  lemma {:induction false} AndHighNibble(a: nat, b: nat, q: nat, m: nat, k: nat)
    requires a < 4 && b < 4
    ensures Combine(AND, a + 4 * b + 16 * q, 16 * m, k + 4) == 16 * Combine(AND, q, m, k)
  {
    AndZeros(a, b + 4 * q, 4 * m, k + 2);
    AndZeros(b, q, m, k);
  }

  /** `x - ((x >> 1) & 0x5555...)` counts in pairs. */
  lemma {:induction false} CountsPairs(x: nat, n: nat)
    requires x < Pow2(2 * n)
    ensures x == Pairs(x, n) + Combine(AND, x / 2, PairMask(n), 2 * n)
    decreases n
  {
    if n > 0 {
      FourDoublings(2 * (n - 1));
      CountsPairs(x / 4, n - 1);
      NextMasks(n);
      NextPair(x, x % 4, x / 4, n);
      PopcountSplits4(x % 4, x / 4);
      PairStep(x, x % 4, x / 4, PairMask(n), PairMask(n - 1), 2 * n, 2 * (n - 1));
    }
  }

  lemma {:induction false} PairStep(x: nat, r: nat, q: nat, mask: nat, m: nat, bits: nat, k: nat)
    requires r < 4 && x == r + 4 * q && mask == 1 + 4 * m && bits == k + 2
    ensures Combine(AND, x / 2, mask, bits) == r / 2 + 4 * Combine(AND, q / 2, m, k)
  {
    assert x / 2 == r / 2 + 2 * q && q == q % 2 + 2 * (q / 2);
    AndOneZero(r / 2, q % 2, q / 2, m, k);
  }

  lemma {:induction false} AndOneZero(a: nat, b: nat, q: nat, m: nat, k: nat)
    requires a < 2 && b < 2
    ensures Combine(AND, a + 2 * (b + 2 * q), 1 + 4 * m, k + 2) == a + 4 * Combine(AND, q, m, k)
  {
    assert 1 + 2 * (2 * m) == 1 + 4 * m;
    AndBit(a, b + 2 * q, 1, 2 * m, k + 1);
    AndBit(b, q, 0, m, k);
  }

  lemma {:induction false} NextPairs(x: nat, a: nat, b: nat, q: nat, n: nat, k: nat)
    requires n == k + 2 && a < 4 && b < 4 && x == a + 4 * b + 16 * q
    ensures Pairs(x, n) == Popcount(a) + 4 * Popcount(b) + 16 * Pairs(q, k)
  {
    NextPair(x, a, b + 4 * q, n);
    NextPair(b + 4 * q, b, q, k + 1);
  }

  /** The counts of the lowest nibble's two pairs, and the bits above it. */
  lemma {:induction false} LowestNibble(x: nat, n: nat) returns (low: nat, high: nat, q: nat)
    requires n > 0
    ensures low < 4 && high < 4
    ensures Pairs(x, 2 * n) == low + 4 * high + 16 * Pairs(q, 2 * (n - 1))
    ensures Nibbles(x, n) == low + high + 16 * Nibbles(q, n - 1)
  {
    var a, b;
    a, b, q := PairsOf(x);
    low, high := Popcount(a), Popcount(b);
    NextPairs(x, a, b, q, 2 * n, 2 * (n - 1));
    PopcountSplits16(a, b, q);
    NextNibble(x, a + 4 * b, q, n);
  }

  /** `(v & 0x3333...) + ((v >> 2) & 0x3333...)` adds the two halves of every nibble. */
  lemma {:induction false} CountsNibbles(x: nat, n: nat, v: nat)
    requires v == Pairs(x, 2 * n)
    ensures Combine(AND, v, NibbleMask(n), 4 * n) + Combine(AND, v / 4, NibbleMask(n), 4 * n) == Nibbles(x, n)
    decreases n
  {
    if n > 0 {
      var low, high, q := LowestNibble(x, n);
      var w := Pairs(q, 2 * (n - 1));
      CountsNibbles(q, n - 1, w);
      NextMasks(n);
      NibbleStep(v, low, high, w, NibbleMask(n), NibbleMask(n - 1), 4 * n, 4 * (n - 1));
    }
  }

  lemma {:induction false} NibbleStep(v: nat, low: nat, high: nat, w: nat, mask: nat, m: nat, bits: nat, k: nat)
    requires low < 4 && high < 4 && v == low + 4 * high + 16 * w && mask == 3 + 16 * m && bits == k + 4
    ensures Combine(AND, v, mask, bits) + Combine(AND, v / 4, mask, bits)
         == low + high + 16 * (Combine(AND, w, m, k) + Combine(AND, w / 4, m, k))
  {
    AndNibble(low, high, w, m, k);
    AndNibble(high, w % 4, w / 4, m, k);
    assert v / 4 == high + 4 * w;
  }

  lemma {:induction false} NextNibbles(x: nat, a: nat, b: nat, q: nat, n: nat, k: nat)
    requires n == k + 2 && a < 16 && b < 16 && x == a + 16 * b + 256 * q
    ensures Nibbles(x, n) == Popcount(a) + 16 * Popcount(b) + 256 * Nibbles(q, k)
  {
    NextNibble(x, a, b + 16 * q, n);
    NextNibble(b + 16 * q, b, q, k + 1);
  }

  /** The counts of the lowest byte's two nibbles, and the bits above it. */
  lemma {:induction false} LowestByte(x: nat, n: nat) returns (low: nat, high: nat, q: nat)
    requires n > 0
    ensures low <= 4 && high <= 4
    ensures Nibbles(x, 2 * n) == low + 16 * high + 256 * Nibbles(q, 2 * (n - 1))
    ensures Bytes(x, n) == low + high + 256 * Bytes(q, n - 1)
  {
    var a, b;
    a, b, q := NibblesOf(x);
    low, high := Popcount(a), Popcount(b);
    NextNibbles(x, a, b, q, 2 * n, 2 * (n - 1));
    PopcountSplits256(a, b, q);
    NextByte(x, a + 16 * b, q, n);
  }

  /** The counts leave room: a nibble holds at most 4. */
  lemma {:induction false} NibblesSmall(x: nat, n: nat)
    ensures 3 * Nibbles(x, n) < Pow2(4 * n)
    decreases n
  {
    if n > 0 {
      var r, q := x % 16, x / 16;
      FourDoublings(4 * (n - 1));
      NibblesSmall(q, n - 1);
      NextNibble(x, r, q, n);
      PopcountSplits256(r, 0, 0);
    }
  }

  lemma {:induction false} LowNibbleSmall(x: nat, n: nat)
    ensures Nibbles(x, n) % 16 <= 4
  {
    if n > 0 {
      var r, q := x % 16, x / 16;
      NextNibble(x, r, q, n);
      PopcountSplits256(r, 0, 0);
      LowNibble(Nibbles(x, n), Popcount(r), Nibbles(q, n - 1));
    }
  }

  /** `(v + (v >> 4)) & 0x0F0F...` adds the two halves of every byte; no addition carries into the next one. */
  lemma {:induction false} CountsBytes(x: nat, n: nat, v: nat)
    requires v == Nibbles(x, 2 * n)
    ensures Combine(AND, v + v / 16, ByteMask(n), 8 * n) == Bytes(x, n)
    decreases n
  {
    if n > 0 {
      var low, high, q := LowestByte(x, n);
      var w := Nibbles(q, 2 * (n - 1));
      CountsBytes(q, n - 1, w);
      NextMasks(n);
      LowNibbleSmall(q, 2 * (n - 1));
      ByteStep(v, low, high, w, ByteMask(n), ByteMask(n - 1), 8 * n, 8 * (n - 1));
    }
  }

  lemma {:induction false} ByteStep(v: nat, low: nat, high: nat, w: nat, mask: nat, m: nat, bits: nat, k: nat)
    requires low <= 4 && high <= 4 && w % 16 <= 4 && v == low + 16 * high + 256 * w
    requires mask == 15 + 256 * m && bits == k + 8
    ensures Combine(AND, v + v / 16, mask, bits) == low + high + 256 * Combine(AND, w + w / 16, m, k)
  {
    assert v / 16 == high + 16 * w && w == w % 16 + 16 * (w / 16);
    AndByte(low + high, high + w % 16, w + w / 16, m, k);
  }

  /** Multiplying by 0x0101... gathers the sum of the bytes in the top byte of the wrapped product. */
  lemma GathersBytes(b0: nat, b1: nat, b2: nat, b3: nat, b4: nat, b5: nat, b6: nat, b7: nat, v: nat)
    requires b0 + b1 + b2 + b3 + b4 + b5 + b6 + b7 <= 64
    requires v == b0 + 0x100 * b1 + 0x1_0000 * b2 + 0x100_0000 * b3 + 0x1_0000_0000 * b4
                + 0x100_0000_0000 * b5 + 0x1_0000_0000_0000 * b6 + 0x100_0000_0000_0000 * b7
    ensures Wrap(v * 0x0101_0101_0101_0101) / 0x100_0000_0000_0000 == b0 + b1 + b2 + b3 + b4 + b5 + b6 + b7
  {
    var s1 := b0 + b1;
    var s2 := s1 + b2;
    var s3 := s2 + b3;
    var s4 := s3 + b4;
    var s5 := s4 + b5;
    var s6 := s5 + b6;
    var s7 := s6 + b7;
    var low := b0 + 0x100 * s1 + 0x1_0000 * s2 + 0x100_0000 * s3 + 0x1_0000_0000 * s4
               + 0x100_0000_0000 * s5 + 0x1_0000_0000_0000 * s6;
    var over := (s7 - b0) + 0x100 * (s7 - s1) + 0x1_0000 * (s7 - s2) + 0x100_0000 * (s7 - s3)
                + 0x1_0000_0000 * (s7 - s4) + 0x100_0000_0000 * (s7 - s5) + 0x1_0000_0000_0000 * (s7 - s6);
    TopByte(v * 0x0101_0101_0101_0101, low, s7, over);
  }

  lemma TopByte(product: nat, low: nat, top: nat, over: nat)
    requires low < 0x100_0000_0000_0000 && top < 256
    requires product == low + 0x100_0000_0000_0000 * top + 0x1_0000_0000_0000_0000 * over
    ensures Wrap(product) / 0x100_0000_0000_0000 == top
  {
  }

  lemma {:induction false} OneByte(x: nat, n: nat) returns (b: nat, rest: nat)
    requires n > 0
    ensures b <= 8 && x / 256 == rest
    ensures Bytes(x, n) == b + 256 * Bytes(rest, n - 1)
    ensures Popcount(x) == b + Popcount(rest)
  {
    var low, high;
    low, high, rest := NibblesOf(x);
    b := Popcount(low + 16 * high);
    PopcountSplits256(low, high, rest);
    NextByte(x, low + 16 * high, rest, n);
  }

  /** The byte counts of a word of four and of eight bytes. */
  lemma {:induction false} FourBytes(x: nat, n: nat) returns (b0: nat, b1: nat, b2: nat, b3: nat, rest: nat)
    requires n >= 4
    ensures b0 <= 8 && b1 <= 8 && b2 <= 8 && b3 <= 8 && rest == x / 0x1_0000_0000
    ensures Bytes(x, n) == b0 + 0x100 * b1 + 0x1_0000 * b2 + 0x100_0000 * b3 + 0x1_0000_0000 * Bytes(rest, n - 4)
    ensures Popcount(x) == b0 + b1 + b2 + b3 + Popcount(rest)
  {
    var x1, x2, x3;
    b0, x1 := OneByte(x, n);
    b1, x2 := OneByte(x1, n - 1);
    b2, x3 := OneByte(x2, n - 2);
    b3, rest := OneByte(x3, n - 3);
  }

  lemma {:induction false} SumsBytes(x: Word)
    ensures Wrap(Bytes(x, 8) * 0x0101_0101_0101_0101) / 0x100_0000_0000_0000 == Popcount(x)
  {
    var b0, b1, b2, b3, high := FourBytes(x, 8);
    var b4, b5, b6, b7, none := FourBytes(high, 4);
    assert none == 0;
    GathersBytes(b0, b1, b2, b3, b4, b5, b6, b7, Bytes(x, 8));
  }

  lemma {:induction false} SmallShifts(w: nat)
    ensures Shr(w, 1) == w / 2 && Shr(w, 2) == w / 4 && Shr(w, 4) == w / 16
  {
    assert Shr(w, 2) == Shr(w / 2, 1) && Shr(w / 2, 1) == w / 2 / 2;
    assert Shr(w, 4) == Shr(w / 2, 3) && Shr(w / 2, 3) == Shr(w / 4, 2) && Shr(w / 4, 2) == Shr(w / 8, 1);
  }

  /** The three stages on words: no borrow, no carry out of the word, and the counts as stated. */
  lemma {:induction false} PairStage(x: Word, shifted: Word, n: nat)
    requires n == 8 && shifted == x / 2
    ensures x - Op(AND, shifted, PAIR_MASK) == Pairs(x, 4 * n)
  {
    MaskValues(n);
    WordPow2();
    CountsPairs(x, 4 * n);
  }

  lemma {:induction false} NibbleStage(x: Word, v: Word, shifted: Word, n: nat)
    requires n == 8 && v == Pairs(x, 4 * n) && shifted == v / 4
    ensures Op(AND, v, NIBBLE_MASK) + Op(AND, shifted, NIBBLE_MASK) == Nibbles(x, 2 * n)
    ensures Nibbles(x, 2 * n) + Nibbles(x, 2 * n) / 16 < USIZE_MOD
  {
    MaskValues(n);
    WordPow2();
    CountsNibbles(x, 2 * n, v);
    NibblesSmall(x, 2 * n);
  }

  lemma {:induction false} ByteStage(x: Word, v: Word, sum: Word, n: nat)
    requires n == 8 && v == Nibbles(x, 2 * n) && sum == v + v / 16
    ensures Op(AND, sum, BYTE_MASK) == Bytes(x, n)
  {
    MaskValues(n);
    CountsBytes(x, n, v);
  }

  /** The parallel count of bits_popcount, in wrapping arithmetic, counts the set bits of every word. */
  method PopcountFallback(value: Word) returns (count: nat)
    ensures count == Popcount(value)
  {
    SmallShifts(value);
    PairStage(value, Shr(value, 1), 8);
    var v: Word := Wrap(value - Op(AND, Shr(value, 1), PAIR_MASK));
    SmallShifts(v);
    NibbleStage(value, v, Shr(v, 2), 8);
    v := Wrap(Op(AND, v, NIBBLE_MASK) + Op(AND, Shr(v, 2), NIBBLE_MASK));
    SmallShifts(v);
    ByteStage(value, v, Wrap(v + Shr(v, 4)), 8);
    v := Op(AND, Wrap(v + Shr(v, 4)), BYTE_MASK);
    SumsBytes(value);
    count := Wrap(v * 0x0101_0101_0101_0101) / 0x100_0000_0000_0000;
  }

  // ---------------------------------------------------------------- trailing zeros

  lemma SomePowers()
    ensures Pow2(1) == 2 && Pow2(2) == 4 && Pow2(4) == 0x10 && Pow2(8) == 0x100 && Pow2(16) == 0x1_0000
    ensures Pow2(32) == 0x1_0000_0000
  {
    assert Pow2(1) == 2;
    Pow2Sum(1, 1);
    Pow2Sum(2, 2);
    Pow2Sum(4, 4);
    Pow2Sum(8, 8);
    Pow2Sum(16, 16);
  }

  lemma {:induction false} ShiftLowBit(v: nat, h: nat)
    requires v > 0 && h <= LowBit(v)
    ensures Shr(v, h) > 0 && LowBit(Shr(v, h)) == LowBit(v) - h
    decreases h
  {
    if h > 0 { ShiftLowBit(v / 2, h - 1); }
  }

  /** One step of the search: the lowest set bit lies in the low 2h bits before it, and in the low h after it. */
  method HalveLow(v: Word, count: nat, mask: Word, h: nat) returns (w: Word, c: nat)
    requires v > 0 && LowBit(v) < 2 * h <= 64 && mask == Pow2(h) - 1
    ensures w > 0 && LowBit(w) < h && c + LowBit(w) == count + LowBit(v)
  {
    LowPartIsRemainder(v, h, 64);
    LowBitDivides(v, h);
    w, c := v, count;
    if Op(AND, v, mask) == 0 {
      ShiftLowBit(v, h);
      c := count + h;
      w := Shr(v, h);
    }
  }

  /** The binary search of bits_ctz finds the lowest set bit of every word. */
  method CtzFallback(value: Word) returns (count: nat)
    ensures count == Ctz(value) && (value == 0 <==> count == 64)
  {
    if value == 0 { return 64; }
    SomePowers();
    CtzIsLeast(value);
    var v := value;
    v, count := HalveLow(v, 0, 0xFFFF_FFFF, 32);
    v, count := HalveLow(v, count, 0xFFFF, 16);
    v, count := HalveLow(v, count, 0xFF, 8);
    v, count := HalveLow(v, count, 0xF, 4);
    v, count := HalveLow(v, count, 0x3, 2);
    LowPartIsRemainder(v, 1, 64);
    LowBitDivides(v, 1);
    if Op(AND, v, 0x1) == 0 { count := count + 1; }
  }

  // ---------------------------------------------------------------- leading zeros

  /** `w << k`, before it is cut to a word. */
  function Shl(w: nat, k: nat): nat
    decreases k
  {
    if k == 0 then w else 2 * Shl(w, k - 1)
  }

  lemma {:induction false} ShiftHighBit(v: nat, h: nat)
    requires v > 0
    ensures Shl(v, h) > 0 && HighBit(Shl(v, h)) == HighBit(v) + h
    decreases h
  {
    if h > 0 {
      ShiftHighBit(v, h - 1);
      assert Shl(v, h) / 2 == Shl(v, h - 1);
    }
  }

  lemma {:induction false} HighBitBound(v: nat, k: nat)
    requires v > 0
    ensures v < Pow2(k) <==> HighBit(v) < k
    decreases k
  {
    if k > 0 && v > 1 { HighBitBound(v / 2, k - 1); }
  }

  lemma {:induction false} AllKept(x: nat, mask: nat, n: nat)
    requires x < Pow2(n) && mask + 1 == Pow2(n)
    ensures Combine(AND, x, mask, n) == x
    decreases n
  {
    if n > 0 {
      AllKept(x / 2, mask / 2, n - 1);
      AndBit(x % 2, x / 2, 1, mask / 2, n - 1);
    }
  }

  /** The bits from k on are clear exactly when the value is below 2^k. */
  lemma {:induction false} HighPartIsZero(x: nat, mask: nat, k: nat, n: nat)
    requires k <= n && x < Pow2(n) && mask + Pow2(k) == Pow2(n)
    ensures Combine(AND, x, mask, n) == 0 <==> x < Pow2(k)
    decreases k
  {
    if k == 0 {
      AllKept(x, mask, n);
    } else {
      HighPartIsZero(x / 2, mask / 2, k - 1, n - 1);
      AndBit(x % 2, x / 2, 0, mask / 2, n - 1);
    }
  }

  /** The mask of a word's h highest bits. */
  predicate IsHighMask(mask: Word, h: nat)
    requires h <= 64
  {
    mask + Pow2(64 - h) == USIZE_MOD
  }

  /** One step of the search: the highest set bit lies in the high 2h bits before it, and in the high h after it. */
  method HalveHigh(v: Word, count: nat, mask: Word, h: nat) returns (w: Word, c: nat)
    requires v > 0 && 64 - 2 * h <= HighBit(v) < 64 && h <= 32 && IsHighMask(mask, h)
    ensures w > 0 && 64 - h <= HighBit(w) < 64 && c + 63 - HighBit(w) == count + 63 - HighBit(v)
  {
    WordPow2();
    HighPartIsZero(v, mask, 64 - h, 64);
    HighBitBound(v, 64 - h);
    w, c := v, count;
    if Op(AND, v, mask) == 0 {
      ShiftHighBit(v, h);
      HighBitBound(Shl(v, h), 64);
      c := count + h;
      w := Wrap(Shl(v, h));
    }
  }

  lemma MorePowers()
    ensures Pow2(48) == 0x1_0000_0000_0000 && Pow2(56) == 0x100_0000_0000_0000 && Pow2(60) == 0x1000_0000_0000_0000
    ensures Pow2(62) == 0x4000_0000_0000_0000 && Pow2(63) == 0x8000_0000_0000_0000
  {
    SomePowers();
    Pow2Sum(32, 16);
    Pow2Sum(48, 8);
    Pow2Sum(56, 4);
    Pow2Sum(60, 2);
    Pow2Sum(62, 1);
  }

  lemma HighMasks()
    ensures IsHighMask(0xFFFF_FFFF_0000_0000, 32) && IsHighMask(0xFFFF_0000_0000_0000, 16)
    ensures IsHighMask(0xFF00_0000_0000_0000, 8) && IsHighMask(0xF000_0000_0000_0000, 4)
    ensures IsHighMask(0xC000_0000_0000_0000, 2)
  {
    SomePowers();
    MorePowers();
  }

  lemma TestsTop(v: Word)
    requires v > 0 && 62 <= HighBit(v) < 64
    ensures Op(AND, v, 0x8000_0000_0000_0000) == 0 <==> HighBit(v) == 62
  {
    WordPow2();
    MorePowers();
    HighPartIsZero(v, 0x8000_0000_0000_0000, 63, 64);
    HighBitBound(v, 63);
  }

  /** The binary search of bits_clz counts the leading zeros of every word. */
  method ClzFallback(value: Word) returns (count: nat)
    ensures count == Clz(value) && (value == 0 <==> count == 64)
  {
    if value == 0 { return 64; }
    HighMasks();
    ClzIsGreatest(value);
    var v := value;
    v, count := HalveHigh(v, 0, 0xFFFF_FFFF_0000_0000, 32);
    v, count := HalveHigh(v, count, 0xFFFF_0000_0000_0000, 16);
    v, count := HalveHigh(v, count, 0xFF00_0000_0000_0000, 8);
    v, count := HalveHigh(v, count, 0xF000_0000_0000_0000, 4);
    v, count := HalveHigh(v, count, 0xC000_0000_0000_0000, 2);
    TestsTop(v);
    if Op(AND, v, 0x8000_0000_0000_0000) == 0 { count := count + 1; }
  }
}
