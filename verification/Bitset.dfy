/** The bits of a word array as a set of naturals: what the operations of data/bitset.h mean. */
module BitsetSpec {
  import opened Machine
  import opened Bits

  /** BITSET_WORD_COUNT, in wrapping arithmetic. */
  function WordCount(capacity: nat): nat {
    Wrap(capacity + 63) / 64
  }

  predicate BitAt(ws: seq<Word>, i: nat) {
    i < 64 * |ws| && Bit(ws[i / 64], i % 64)
  }

  function Below(n: nat): (s: set<nat>)
    ensures forall i: nat :: i in s <==> i < n
  {
    if n == 0 then {} else Below(n - 1) + {n - 1}
  }

  /** The set bits below n. */
  function BitsUpTo(ws: seq<Word>, n: nat): set<nat> {
    set i: nat | i < n && BitAt(ws, i)
  }

  /** All set bits, padding included. */
  function Raw(ws: seq<Word>): set<nat> {
    BitsUpTo(ws, 64 * |ws|)
  }

  /** The masking form of the padding invariant: nothing at or above capacity in the last word. */
  predicate Padded(ws: seq<Word>, capacity: nat)
    requires |ws| > 0
  {
    capacity % 64 == 0 || Shr(ws[|ws| - 1], capacity % 64) == 0
  }

  /** The masking form means exactly that no bit at or above capacity is set. */
  lemma PaddingMeaning(ws: seq<Word>, capacity: nat)
    requires 0 < capacity && |ws| == (capacity + 63) / 64
    ensures Padded(ws, capacity) <==> forall i: nat | capacity <= i < 64 * |ws| :: !BitAt(ws, i)
  {
    if Padded(ws, capacity) {
      forall i: nat | capacity <= i < 64 * |ws| ensures !BitAt(ws, i) { PaddedBit(ws, capacity, i); }
    } else {
      var i := DirtyBit(ws, capacity);
    }
  }

  lemma PaddedBit(ws: seq<Word>, capacity: nat, i: nat)
    requires 0 < capacity && |ws| == (capacity + 63) / 64
    requires Padded(ws, capacity) && capacity <= i < 64 * |ws|
    ensures !BitAt(ws, i)
  {
    var rem := capacity % 64;
    ShrBits(ws[|ws| - 1], rem, i % 64 - rem);
    ZeroBits(i % 64 - rem);
  }

  lemma DirtyBit(ws: seq<Word>, capacity: nat) returns (i: nat)
    requires 0 < capacity && |ws| == (capacity + 63) / 64 && !Padded(ws, capacity)
    ensures capacity <= i < 64 * |ws| && BitAt(ws, i)
  {
    var rem, last := capacity % 64, ws[|ws| - 1];
    ZeroExactly(Shr(last, rem));
    var k: nat :| k < 64 && Bit(Shr(last, rem), k);
    ShrBits(last, rem, k);
    if rem + k >= 64 { WordBits(last, rem + k); }
    i := 64 * (|ws| - 1) + (rem + k);
    assert i / 64 == |ws| - 1 && i % 64 == rem + k;
  }

  /** In terms of sets: every set bit is below capacity. */
  lemma PaddingForms(ws: seq<Word>, capacity: nat)
    requires 0 < capacity && |ws| == (capacity + 63) / 64
    ensures Padded(ws, capacity) <==> Raw(ws) <= Below(capacity)
    ensures Padded(ws, capacity) <==> Raw(ws) == BitsUpTo(ws, capacity)
  {
    PaddingMeaning(ws, capacity);
    if i: nat :| capacity <= i < 64 * |ws| && BitAt(ws, i) {
      assert i in Raw(ws) && i !in Below(capacity) && i !in BitsUpTo(ws, capacity);
    }
  }

  // ---------------------------------------------------------------- bulk operations

  function WordAt(ws: seq<Word>, k: nat): Word {
    if k < |ws| then ws[k] else 0
  }

  /** r is the bitwise combination of w and v. */
  ghost predicate Combined(g: Gate, w: Word, v: Word, r: Word) {
    forall i: nat | i < 64 :: Bit(r, i) <==> g.Apply(Bit(w, i), Bit(v, i))
  }

  lemma NothingCombined(w: Word)
    ensures Combined(AND, w, 0, 0) && Combined(OR, w, 0, w) && Combined(XOR, w, 0, w)
  {
    forall i: nat | i < 64 ensures !Bit(0, i) { ZeroBits(i); }
  }

  /** Combining word by word, missing words counting as zero, combines bit by bit. */
  lemma CombineWords(g: Gate, ws: seq<Word>, vs: seq<Word>, rs: seq<Word>)
    requires |rs| == |ws| && forall k: nat | k < |rs| :: Combined(g, ws[k], WordAt(vs, k), rs[k])
    ensures forall i: nat | i < 64 * |ws| :: BitAt(rs, i) <==> g.Apply(BitAt(ws, i), BitAt(vs, i))
  {
    forall i: nat | i < 64 * |ws| ensures BitAt(rs, i) <==> g.Apply(BitAt(ws, i), BitAt(vs, i)) {
      assert Combined(g, ws[i / 64], WordAt(vs, i / 64), rs[i / 64]);
      ZeroBits(i % 64);
    }
  }

  // ---------------------------------------------------------------- counting

  lemma BitsUpToNext(ws: seq<Word>, n: nat)
    ensures BitsUpTo(ws, n + 1) == if BitAt(ws, n) then BitsUpTo(ws, n) + {n} else BitsUpTo(ws, n)
    ensures |BitsUpTo(ws, n + 1)| == |BitsUpTo(ws, n)| + B2N(BitAt(ws, n))
  {
    assert n !in BitsUpTo(ws, n);
    assert BitsUpTo(ws, n + 1) == if BitAt(ws, n) then BitsUpTo(ws, n) + {n} else BitsUpTo(ws, n);
  }

  lemma {:induction false} CountInWord(ws: seq<Word>, w: nat, n: nat)
    requires w < |ws| && n <= 64
    ensures |BitsUpTo(ws, 64 * w + n)| == |BitsUpTo(ws, 64 * w)| + CountBelow(ws[w], n)
    decreases n
  {
    if n > 0 {
      CountInWord(ws, w, n - 1);
      BitsUpToNext(ws, 64 * w + (n - 1));
      assert (64 * w + (n - 1)) / 64 == w;
    }
  }

  /** One more word adds its popcount. */
  lemma CountNextWord(ws: seq<Word>, w: nat)
    requires w < |ws|
    ensures |BitsUpTo(ws, 64 * (w + 1))| == |BitsUpTo(ws, 64 * w)| + Popcount(ws[w])
  {
    CountInWord(ws, w, 64);
    WordPow2();
    PopcountCounts(ws[w], 64);
  }

  lemma {:induction false} BelowSize(n: nat)
    ensures |Below(n)| == n
    decreases n
  {
    if n > 0 { BelowSize(n - 1); }
  }

  lemma SubsetSize(a: set<nat>, b: set<nat>)
    requires a <= b
    ensures |a| <= |b|
    ensures |a| == |b| ==> a == b
  {
    assert b == a + (b - a);
    assert |b| == |a| + |b - a|;
  }

  // ---------------------------------------------------------------- operations on the words

  /** The operand of a bulk operation is the other bitset's words. */
  datatype BitOp =
    | OpSet(i: nat) | OpClear(i: nat) | OpToggle(i: nat) | OpAssign(i: nat, value: bool)
    | OpSetAll | OpClearAll | OpNot
    | OpAnd(other: seq<Word>) | OpOr(other: seq<Word>) | OpXor(other: seq<Word>)

  /** A capacity and the words it takes. */
  predicate Sized(ws: seq<Word>, capacity: nat) {
    0 < capacity && |ws| == (capacity + 63) / 64
  }

  predicate InRange(capacity: nat, op: BitOp) {
    match op
    case OpSet(i) => i < capacity
    case OpClear(i) => i < capacity
    case OpToggle(i) => i < capacity
    case OpAssign(i, _) => i < capacity
    case _ => true
  }

  /** What bitset_clear_padding leaves. */
  function Masked(ws: seq<Word>, capacity: nat): (rs: seq<Word>)
    requires |ws| > 0
    ensures |rs| == |ws|
  {
    if capacity % 64 == 0 then ws
    else ws[|ws| - 1 := Op(AND, ws[|ws| - 1], MaskBelow(capacity % 64))]
  }

  function SetBit(ws: seq<Word>, i: nat): (rs: seq<Word>)
    requires i < 64 * |ws|
    ensures |rs| == |ws|
  {
    ws[i / 64 := Op(OR, ws[i / 64], MaskOf(i % 64))]
  }

  function ClearBit(ws: seq<Word>, i: nat): (rs: seq<Word>)
    requires i < 64 * |ws|
    ensures |rs| == |ws|
  {
    ws[i / 64 := Op(AND, ws[i / 64], Not(MaskOf(i % 64)))]
  }

  function ToggleBit(ws: seq<Word>, i: nat): (rs: seq<Word>)
    requires i < 64 * |ws|
    ensures |rs| == |ws|
  {
    ws[i / 64 := Op(XOR, ws[i / 64], MaskOf(i % 64))]
  }

  /** The gate over the words both operands have; past them `and` leaves zero and the others the word as it was. */
  function Bulk(g: Gate, ws: seq<Word>, vs: seq<Word>): (rs: seq<Word>)
    ensures |rs| == |ws|
    ensures forall k: nat | k < |ws| ::
              rs[k] == if k < |vs| then Op(g, ws[k], vs[k]) else if g == AND then 0 else ws[k]
  {
    seq(|ws|, k requires 0 <= k < |ws| => if k < |vs| then Op(g, ws[k], vs[k]) else if g == AND then 0 else ws[k])
  }

  function Inverted(ws: seq<Word>): (rs: seq<Word>)
    ensures |rs| == |ws| && forall k | 0 <= k < |ws| :: rs[k] == Not(ws[k])
  {
    seq(|ws|, k requires 0 <= k < |ws| => Not(ws[k]))
  }

  /** What each operation leaves in the words. */
  function StepWords(ws: seq<Word>, capacity: nat, op: BitOp): (rs: seq<Word>)
    requires Sized(ws, capacity) && InRange(capacity, op)
    ensures |rs| == |ws|
  {
    match op
    case OpSet(i) => SetBit(ws, i)
    case OpClear(i) => ClearBit(ws, i)
    case OpToggle(i) => ToggleBit(ws, i)
    case OpAssign(i, value) => if value then SetBit(ws, i) else ClearBit(ws, i)
    case OpSetAll => Masked(seq(|ws|, _ => USIZE_MAX), capacity)
    case OpClearAll => seq(|ws|, _ => 0)
    case OpNot => Masked(Inverted(ws), capacity)
    case OpAnd(vs) => Bulk(AND, ws, vs)
    case OpOr(vs) => Bulk(OR, ws, vs)
    case OpXor(vs) => Masked(Bulk(XOR, ws, vs), capacity)
  }

  // ---------------------------------------------------------------- what they mean

  function SymmetricDifference(a: set<nat>, b: set<nat>): (d: set<nat>)
    ensures forall x :: x in d <==> ((x in a) != (x in b))
  {
    (a - b) + (b - a)
  }

  /** The operations on sets of naturals below the capacity. */
  function StepSet(capacity: nat, m: set<nat>, op: BitOp): set<nat> {
    match op
    case OpSet(i) => m + {i}
    case OpClear(i) => m - {i}
    case OpToggle(i) => SymmetricDifference(m, {i})
    case OpAssign(i, value) => if value then m + {i} else m - {i}
    case OpSetAll => Below(capacity)
    case OpClearAll => {}
    case OpNot => Below(capacity) - m
    case OpAnd(vs) => m * Raw(vs)
    case OpOr(vs) => m + Raw(vs) * Below(capacity)
    case OpXor(vs) => SymmetricDifference(m, Raw(vs)) * Below(capacity)
  }

  /** For `or` the other set must have no bit in this set's padding. */
  ghost predicate OrFits(ws: seq<Word>, capacity: nat, op: BitOp) {
    op.OpOr? ==> Raw(op.other) * Below(64 * |ws|) <= Below(capacity)
  }

  lemma OneWord(ws: seq<Word>, w: nat, v: Word)
    requires w < |ws|
    ensures forall i: nat | i / 64 != w :: BitAt(ws[w := v], i) == BitAt(ws, i)
    ensures forall i: nat | i / 64 == w :: BitAt(ws[w := v], i) == Bit(v, i % 64)
    ensures forall i: nat | i / 64 == w :: BitAt(ws, i) == Bit(ws[w], i % 64)
  {
  }

  lemma SetsBit(ws: seq<Word>, i: nat)
    requires i < 64 * |ws|
    ensures Raw(SetBit(ws, i)) == Raw(ws) + {i}
  {
    OneWord(ws, i / 64, Op(OR, ws[i / 64], MaskOf(i % 64)));
  }

  lemma ClearsBit(ws: seq<Word>, i: nat)
    requires i < 64 * |ws|
    ensures Raw(ClearBit(ws, i)) == Raw(ws) - {i}
  {
    OneWord(ws, i / 64, Op(AND, ws[i / 64], Not(MaskOf(i % 64))));
  }

  lemma TogglesBit(ws: seq<Word>, i: nat)
    requires i < 64 * |ws|
    ensures Raw(ToggleBit(ws, i)) == SymmetricDifference(Raw(ws), {i})
  {
    OneWord(ws, i / 64, Op(XOR, ws[i / 64], MaskOf(i % 64)));
  }

  /** Clearing the padding drops exactly the bits at or above the capacity. */
  lemma MaskedBits(ws: seq<Word>, capacity: nat)
    requires Sized(ws, capacity)
    ensures Raw(Masked(ws, capacity)) == Raw(ws) * Below(capacity)
    ensures Padded(Masked(ws, capacity), capacity)
  {
    var rs := Masked(ws, capacity);
    forall i: nat ensures i in Raw(rs) <==> i in Raw(ws) && i < capacity { MaskedBit(ws, capacity, i); }
    PaddingForms(rs, capacity);
  }

  lemma MaskedBit(ws: seq<Word>, capacity: nat, i: nat)
    requires Sized(ws, capacity)
    ensures BitAt(Masked(ws, capacity), i) <==> BitAt(ws, i) && i < capacity
  {
    var rem, last := capacity % 64, |ws| - 1;
    if rem != 0 { OneWord(ws, last, Op(AND, ws[last], MaskBelow(rem))); }
  }

  lemma AllSet(n: nat)
    ensures Raw(seq(n, _ => USIZE_MAX)) == Below(64 * n)
  {
    AllOnes();
  }

  lemma NoneSet(n: nat)
    ensures Raw(seq(n, _ => 0)) == {}
  {
    var zeros: seq<Word> := seq(n, _ => 0);
    forall i: nat ensures !BitAt(zeros, i) { ZeroBits(i % 64); }
  }

  lemma InvertedBits(ws: seq<Word>)
    ensures Raw(Inverted(ws)) == Below(64 * |ws|) - Raw(ws)
  {
    assert forall i: nat | i < 64 * |ws| :: BitAt(Inverted(ws), i) <==> !BitAt(ws, i);
  }

  lemma BulkBits(g: Gate, ws: seq<Word>, vs: seq<Word>)
    requires g != ANDNOT
    ensures forall i: nat | i < 64 * |ws| :: BitAt(Bulk(g, ws, vs), i) <==> g.Apply(BitAt(ws, i), BitAt(vs, i))
  {
    var rs := Bulk(g, ws, vs);
    forall k: nat | k < |ws| ensures Combined(g, ws[k], WordAt(vs, k), rs[k]) {
      NothingCombined(ws[k]);
    }
    CombineWords(g, ws, vs, rs);
  }

  /** Which bits the words hold after each operation, the padding included, whatever it held before. */
  lemma StepBits(ws: seq<Word>, capacity: nat, op: BitOp)
    requires Sized(ws, capacity) && InRange(capacity, op)
    ensures Raw(StepWords(ws, capacity, op)) ==
            if op.OpOr? then Raw(ws) + Raw(op.other) * Below(64 * |ws|) else StepSet(capacity, Raw(ws), op)
  {
    match op
    case OpSet(i) => SetsBit(ws, i);
    case OpClear(i) => ClearsBit(ws, i);
    case OpToggle(i) => TogglesBit(ws, i);
    case OpAssign(i, value) => if value { SetsBit(ws, i); } else { ClearsBit(ws, i); }
    case OpSetAll => SetAllBits(|ws|, capacity);
    case OpClearAll => NoneSet(|ws|);
    case OpNot => NotBits(ws, capacity);
    case OpAnd(vs) => AndBits(ws, vs);
    case OpOr(vs) => OrBits(ws, vs);
    case OpXor(vs) => XorBits(ws, vs, capacity);
  }

  lemma BelowWithin(a: nat, b: nat)
    requires a <= b
    ensures Below(b) * Below(a) == Below(a)
  {
  }

  lemma SetAllBits(n: nat, capacity: nat)
    requires 0 < capacity && n == (capacity + 63) / 64
    ensures Raw(Masked(seq(n, _ => USIZE_MAX), capacity)) == Below(capacity)
  {
    AllSet(n);
    MaskedBits(seq(n, _ => USIZE_MAX), capacity);
    BelowWithin(capacity, 64 * n);
  }

  lemma NotBits(ws: seq<Word>, capacity: nat)
    requires Sized(ws, capacity)
    ensures Raw(Masked(Inverted(ws), capacity)) == Below(capacity) - Raw(ws)
  {
    InvertedBits(ws);
    MaskedBits(Inverted(ws), capacity);
    BelowWithin(capacity, 64 * |ws|);
  }

  lemma AndBits(ws: seq<Word>, vs: seq<Word>)
    ensures Raw(Bulk(AND, ws, vs)) == Raw(ws) * Raw(vs)
  {
    BulkBits(AND, ws, vs);
  }

  lemma OrBits(ws: seq<Word>, vs: seq<Word>)
    ensures Raw(Bulk(OR, ws, vs)) == Raw(ws) + Raw(vs) * Below(64 * |ws|)
  {
    BulkBits(OR, ws, vs);
  }

  lemma XorBits(ws: seq<Word>, vs: seq<Word>, capacity: nat)
    requires Sized(ws, capacity)
    ensures Raw(Masked(Bulk(XOR, ws, vs), capacity)) == SymmetricDifference(Raw(ws), Raw(vs)) * Below(capacity)
  {
    BulkBits(XOR, ws, vs);
    MaskedBits(Bulk(XOR, ws, vs), capacity);
  }

  /** From clean padding an operation does to the words what it does to the set; exactly an unfit `or` dirties it. */
  lemma StepRefinesSet(ws: seq<Word>, capacity: nat, op: BitOp)
    requires Sized(ws, capacity) && InRange(capacity, op) && Padded(ws, capacity)
    ensures Padded(StepWords(ws, capacity, op), capacity) <==> OrFits(ws, capacity, op)
    ensures BitsUpTo(StepWords(ws, capacity, op), capacity) == StepSet(capacity, BitsUpTo(ws, capacity), op)
  {
    var rs := StepWords(ws, capacity, op);
    StepBits(ws, capacity, op);
    PaddingForms(ws, capacity);
    PaddingForms(rs, capacity);
    assert BitsUpTo(rs, capacity) == Raw(rs) * Below(capacity);
  }

  // ---------------------------------------------------------------- runs

  ghost predicate Admissible(ws: seq<Word>, capacity: nat, ops: seq<BitOp>) {
    forall op | op in ops :: InRange(capacity, op) && OrFits(ws, capacity, op)
  }

  function AfterWords(ws: seq<Word>, capacity: nat, ops: seq<BitOp>): (rs: seq<Word>)
    requires Sized(ws, capacity) && forall op | op in ops :: InRange(capacity, op)
    ensures |rs| == |ws|
    decreases |ops|
  {
    if |ops| == 0 then ws else AfterWords(StepWords(ws, capacity, ops[0]), capacity, ops[1..])
  }

  function AfterSet(capacity: nat, m: set<nat>, ops: seq<BitOp>): set<nat>
    decreases |ops|
  {
    if |ops| == 0 then m else AfterSet(capacity, StepSet(capacity, m, ops[0]), ops[1..])
  }

  /** After every run of admissible operations the padding is clear and the words stand for the set the run computes. */
  lemma {:induction false} RunRefinesSet(ws: seq<Word>, capacity: nat, ops: seq<BitOp>)
    requires Sized(ws, capacity) && Padded(ws, capacity) && Admissible(ws, capacity, ops)
    ensures Padded(AfterWords(ws, capacity, ops), capacity)
    ensures BitsUpTo(AfterWords(ws, capacity, ops), capacity) == AfterSet(capacity, BitsUpTo(ws, capacity), ops)
    decreases |ops|
  {
    if |ops| > 0 {
      var op, rest := ops[0], ops[1..];
      assert op in ops;
      StepRefinesSet(ws, capacity, op);
      var rs := StepWords(ws, capacity, op);
      assert Admissible(rs, capacity, rest) by {
        forall o | o in rest ensures InRange(capacity, o) && OrFits(rs, capacity, o) { assert o in ops; }
      }
      RunRefinesSet(rs, capacity, rest);
    }
  }

  /** `or` with a bitset that has a bit in this one's padding: one word, capacities 1 and 2. */
  lemma OrLeavesPaddingDirty()
    ensures WordCount(1) == WordCount(2) == 1
    ensures Padded([0], 1) && Padded([2], 2)
    ensures StepWords([0], 1, OpOr([2])) == [2] && !Padded([2], 1)
    ensures BitsUpTo([2], 1) == {} && |Raw([2])| == 1
  {
    TwoAlone(2);
    OrOfTwo(2);
  }

  lemma OrOfTwo(two: Word)
    requires two == 2
    ensures StepWords([0], 1, OpOr([two])) == [two]
  {
    assert Op(OR, 0, two) == two by { WordPow2(); OrZero(two, 64); }
    BulkOfOne(OR, 0, two);
  }

  lemma BulkOfOne(g: Gate, w: Word, v: Word)
    ensures Bulk(g, [w], [v]) == [Op(g, w, v)]
  {
    assert Bulk(g, [w], [v])[0] == Op(g, w, v);
  }

  /** The word with bit 1 only, as a set of one bit of capacity 1 and 2. */
  lemma TwoAlone(two: Word)
    requires two == 2
    ensures Raw([two]) == {1} && BitsUpTo([two], 1) == {}
    ensures Padded([two], 2) && !Padded([two], 1)
  {
    assert two == Pow2(1);
    forall i: nat ensures Bit(two, i) <==> i == 1 { Pow2Bits(1, i); }
    assert BitAt([two], 1);
    PaddingForms([two], 2);
    PaddingForms([two], 1);
  }

  lemma {:induction false} OrZero(x: nat, n: nat)
    requires x < Pow2(n)
    ensures Combine(OR, 0, x, n) == x
    decreases n
  {
    if n > 0 { OrZero(x / 2, n - 1); }
  }
}

/** The fixed-capacity bitset of data/bitset.h over a word array the caller owns. */
module Bitsets {
  import opened Machine
  import opened Bits
  import opened BitsetSpec

  /** BITSET_NPOS */
  const NPOS: nat := USIZE_MAX

  class Bitset {
    const words: array<Word>
    const capacity: nat
    const wordCount: nat

    ghost predicate Valid() {
      && 0 < capacity <= USIZE_MAX - 63
      && wordCount == WordCount(capacity)
      && wordCount <= words.Length
    }

    ghost function Words(): (ws: seq<Word>)
      requires Valid()
      reads words
      ensures |ws| == wordCount == (capacity + 63) / 64 > 0
    {
      words[..wordCount]
    }

    /** All bits of the backing words. */
    ghost function Raw(): set<nat>
      requires Valid()
      reads words
    {
      BitsetSpec.Raw(Words())
    }

    /** The set the bitset stands for. */
    ghost function Members(): set<nat>
      requires Valid()
      reads words
    {
      BitsUpTo(Words(), capacity)
    }

    /** The words past the last are not the bitset's. */
    twostate predicate Framed()
      requires Valid()
      reads words
    {
      words[wordCount..] == old(words[wordCount..])
    }

    constructor (buffer: array<Word>, capacity: nat)
      requires 0 < capacity <= USIZE_MAX - 63 && WordCount(capacity) <= buffer.Length
      modifies buffer
      ensures Valid() && words == buffer && this.capacity == capacity
      ensures Raw() == {} && Padded(Words(), capacity)
      ensures buffer[wordCount..] == old(buffer[WordCount(capacity)..])
    {
      words := buffer;
      this.capacity := capacity;
      wordCount := WordCount(capacity);
      new;
      for w := 0 to wordCount
        invariant forall k | 0 <= k < w :: words[k] == 0
        invariant words[wordCount..] == old(buffer[WordCount(capacity)..])
      {
        words[w] := 0;
      }
      EmptyExactly(Words());
      PaddingForms(Words(), capacity);
    }

    method Set(i: nat)
      requires Valid() && i < capacity
      modifies words
      ensures Words() == StepWords(old(Words()), capacity, OpSet(i)) && Framed()
      ensures Raw() == old(Raw()) + {i}
    {
      StepBits(Words(), capacity, OpSet(i));
      words[i / 64] := Op(OR, words[i / 64], MaskOf(i % 64));
    }

    method Clear(i: nat)
      requires Valid() && i < capacity
      modifies words
      ensures Words() == StepWords(old(Words()), capacity, OpClear(i)) && Framed()
      ensures Raw() == old(Raw()) - {i}
    {
      StepBits(Words(), capacity, OpClear(i));
      words[i / 64] := Op(AND, words[i / 64], Not(MaskOf(i % 64)));
    }

    method Toggle(i: nat)
      requires Valid() && i < capacity
      modifies words
      ensures Words() == StepWords(old(Words()), capacity, OpToggle(i)) && Framed()
      ensures Raw() == SymmetricDifference(old(Raw()), {i})
    {
      StepBits(Words(), capacity, OpToggle(i));
      words[i / 64] := Op(XOR, words[i / 64], MaskOf(i % 64));
    }

    method Assign(i: nat, value: bool)
      requires Valid() && i < capacity
      modifies words
      ensures Words() == StepWords(old(Words()), capacity, OpAssign(i, value)) && Framed()
      ensures Raw() == if value then old(Raw()) + {i} else old(Raw()) - {i}
    {
      if value { Set(i); } else { Clear(i); }
    }

    method Test(i: nat) returns (r: bool)
      requires Valid() && i < capacity
      ensures r <==> i in Members()
    {
      var bit := Op(AND, words[i / 64], MaskOf(i % 64));
      ZeroExactly(bit);
      r := bit != 0;
    }

    /** bitset_clear_padding */
    method ClearPadding()
      requires Valid()
      modifies words
      ensures Words() == Masked(old(Words()), capacity) && Framed()
      ensures Raw() == old(Raw()) * Below(capacity) && Padded(Words(), capacity)
    {
      MaskedBits(Words(), capacity);
      var rem := capacity % 64;
      if rem != 0 { words[wordCount - 1] := Op(AND, words[wordCount - 1], MaskBelow(rem)); }
    }

    method ClearAll()
      requires Valid()
      modifies words
      ensures Words() == StepWords(old(Words()), capacity, OpClearAll) && Framed()
      ensures Raw() == {}
    {
      StepBits(Words(), capacity, OpClearAll);
      for w := 0 to wordCount
        invariant forall k | 0 <= k < w :: words[k] == 0
        invariant Framed()
      {
        words[w] := 0;
      }
      assert Words() == seq(wordCount, _ => 0);
    }

    method SetAll()
      requires Valid()
      modifies words
      ensures Words() == StepWords(old(Words()), capacity, OpSetAll) && Framed()
      ensures Raw() == Members() == Below(capacity)
    {
      StepBits(Words(), capacity, OpSetAll);
      for w := 0 to wordCount
        invariant forall k | 0 <= k < w :: words[k] == USIZE_MAX
        invariant Framed()
      {
        words[w] := USIZE_MAX;
      }
      assert Words() == seq(wordCount, _ => USIZE_MAX);
      ClearPadding();
    }

    method Complement()
      requires Valid()
      modifies words
      ensures Words() == StepWords(old(Words()), capacity, OpNot) && Framed()
      ensures Raw() == Members() == Below(capacity) - old(Members())
    {
      StepBits(Words(), capacity, OpNot);
      for w := 0 to wordCount
        invariant forall k | 0 <= k < w :: words[k] == Not(old(words[k]))
        invariant forall k | w <= k < wordCount :: words[k] == old(words[k])
        invariant Framed()
      {
        words[w] := Not(words[w]);
      }
      assert Words() == Inverted(old(Words()));
      ClearPadding();
    }

    /** The gate over the words both operands have; the other operand may be this bitset, or share its words. */
    method Gates(g: Gate, other: Bitset)
      requires Valid() && other.Valid()
      modifies words
      ensures Framed()
      ensures forall k: nat | k < wordCount :: words[k] ==
                if k < other.wordCount then Op(g, old(words[k]), old(other.words[k])) else old(words[k])
    {
      var n := if wordCount < other.wordCount then wordCount else other.wordCount;
      for w := 0 to n
        invariant forall k | 0 <= k < w :: words[k] == Op(g, old(words[k]), old(other.words[k]))
        invariant forall k | w <= k < wordCount :: words[k] == old(words[k])
        invariant forall k | w <= k < other.wordCount :: other.words[k] == old(other.words[k])
        invariant Framed()
      {
        words[w] := Op(g, words[w], other.words[w]);
      }
    }

    method And(other: Bitset)
      requires Valid() && other.Valid()
      modifies words
      ensures Words() == StepWords(old(Words()), capacity, OpAnd(old(other.Words()))) && Framed()
      ensures Raw() == old(Raw()) * old(other.Raw())
    {
      ghost var ws, vs := Words(), other.Words();
      StepBits(ws, capacity, OpAnd(vs));
      Gates(AND, other);
      var n := if wordCount < other.wordCount then wordCount else other.wordCount;
      for w := n to wordCount
        invariant forall k: nat | k < n :: words[k] == Op(AND, ws[k], vs[k])
        invariant forall k | n <= k < w :: words[k] == 0
        invariant Framed()
      {
        words[w] := 0;
      }
      assert Words() == Bulk(AND, ws, vs);
    }

    method Or(other: Bitset)
      requires Valid() && other.Valid()
      modifies words
      ensures Words() == StepWords(old(Words()), capacity, OpOr(old(other.Words()))) && Framed()
      ensures Raw() == old(Raw()) + old(other.Raw()) * Below(64 * wordCount)
      ensures Padded(Words(), capacity) <==>
                old(Padded(Words(), capacity)) && old(other.Raw()) * Below(64 * wordCount) <= Below(capacity)
    {
      ghost var ws, vs := Words(), other.Words();
      StepBits(ws, capacity, OpOr(vs));
      Gates(OR, other);
      assert Words() == Bulk(OR, ws, vs);
      PaddingForms(ws, capacity);
      PaddingForms(Words(), capacity);
    }

    method Xor(other: Bitset)
      requires Valid() && other.Valid()
      modifies words
      ensures Words() == StepWords(old(Words()), capacity, OpXor(old(other.Words()))) && Framed()
      ensures Raw() == Members() == SymmetricDifference(old(Raw()), old(other.Raw())) * Below(capacity)
    {
      ghost var ws, vs := Words(), other.Words();
      StepBits(ws, capacity, OpXor(vs));
      Gates(XOR, other);
      assert Words() == Bulk(XOR, ws, vs);
      ClearPadding();
    }

    // -------------------------------------------------------------- queries

    method Count() returns (total: nat)
      requires Valid()
      ensures total == |Raw()| <= 64 * wordCount
      ensures Padded(Words(), capacity) ==> total == |Members()| <= capacity
    {
      total := 0;
      assert BitsUpTo(Words(), 0) == {};
      for w := 0 to wordCount
        invariant total == |BitsUpTo(Words(), 64 * w)|
      {
        CountNextWord(Words(), w);
        UpToSize(Words(), 64 * (w + 1));
        total := Wrap(total + Popcount(words[w]));
      }
      UpToSize(Words(), 64 * wordCount);
      UpToSize(Words(), capacity);
      PaddingForms(Words(), capacity);
    }

    method IsEmpty() returns (r: bool)
      requires Valid()
      ensures r <==> Raw() == {}
    {
      for w := 0 to wordCount
        invariant forall k | 0 <= k < w :: words[k] == 0
      {
        if words[w] != 0 {
          EmptyExactly(Words());
          return false;
        }
      }
      EmptyExactly(Words());
      r := true;
    }

    method IsFull() returns (r: bool)
      requires Valid()
      ensures r <==> |Raw()| == capacity
      ensures Padded(Words(), capacity) ==> (r <==> Members() == Below(capacity))
    {
      var n := Count();
      r := n == capacity;
      BelowSize(capacity);
      SubsetSize(Members(), Below(capacity));
    }

    method IsDisjoint(other: Bitset) returns (r: bool)
      requires Valid() && other.Valid()
      ensures r <==> Raw() * other.Raw() == {}
    {
      var n := if wordCount < other.wordCount then wordCount else other.wordCount;
      for w := 0 to n
        invariant forall i: nat | i < 64 * w :: !(BitAt(Words(), i) && BitAt(other.Words(), i))
      {
        if Op(AND, words[w], other.words[w]) != 0 {
          ghost var i := SharedBit(Words(), other.Words(), w);
          assert i in Raw() * other.Raw();
          return false;
        }
        NoSharedBit(Words(), other.Words(), w);
      }
      r := true;
    }

    method FindFirst() returns (r: nat)
      requires Valid()
      ensures LeastAbove(Members(), -1, r)
    {
      r := FindFrom(0, 0);
    }

    /** The loop over the words from `first` on, given there is no bit from `start` up to them. */
    method FindFrom(first: nat, ghost start: nat) returns (r: nat)
      requires Valid() && first <= wordCount
      requires forall i: nat | start <= i < 64 * first :: !BitAt(Words(), i)
      requires start <= 64 * first
      ensures LeastAbove(Members(), start - 1, r)
    {
      for w := first to wordCount
        invariant forall i: nat | start <= i < 64 * w :: !BitAt(Words(), i)
      {
        LowestFrom(Words(), w, 0);
        if words[w] != 0 {
          var bit := Wrap(w * 64 + Ctz(words[w]));
          return if bit < capacity then bit else NPOS;
        }
      }
      r := NPOS;
    }

    method FindNext(prev: nat) returns (r: nat)
      requires Valid() && prev <= USIZE_MAX
      ensures LeastAbove(Members(), prev, r)
    {
      if prev >= capacity { return NPOS; }
      var start := Wrap(prev + 1);
      if start >= capacity { return NPOS; }
      var w, bit := start / 64, start % 64;
      var word := Shr(words[w], bit);
      LowestFrom(Words(), w, bit);
      if word != 0 {
        var found := Wrap(w * 64 + bit + Ctz(word));
        return if found < capacity then found else NPOS;
      }
      r := FindFrom(w + 1, start);
    }

    /** Unlike the two searches from below, the search from above depends on clean padding. */
    method FindLast() returns (r: nat)
      requires Valid()
      ensures r == NPOS <==> Members() == {} || !Padded(Words(), capacity)
      ensures r != NPOS ==> r in Members() && forall i | i in Members() :: i <= r
    {
      PaddingForms(Words(), capacity);
      var w := wordCount;
      while w > 0
        invariant w <= wordCount
        invariant forall i: nat | 64 * w <= i :: !BitAt(Words(), i)
      {
        w := w - 1;
        HighestIn(Words(), w);
        if words[w] != 0 {
          var bit := Wrap(w * 64 + (63 - Clz(words[w])));
          assert if bit < capacity then bit in Members() else bit in Raw();
          return if bit < capacity then bit else NPOS;
        }
      }
      r := NPOS;
    }

    /** BITSET_FOR_EACH with a body that records the index and leaves the bitset alone. */
    method ForEach() returns (visited: seq<nat>)
      requires Valid()
      ensures forall a, b | 0 <= a < b < |visited| :: visited[a] < visited[b]
      ensures forall i: nat :: i in visited <==> i in Members()
      ensures |visited| == |Members()|
    {
      visited := [];
      var i := FindFirst();
      while i != NPOS
        invariant forall a, b | 0 <= a < b < |visited| :: visited[a] < visited[b]
        invariant i != NPOS ==> i in Members() && forall a | 0 <= a < |visited| :: visited[a] < i
        invariant forall j: nat :: j in visited <==> j in Members() && (i == NPOS || j < i)
        decreases if i == NPOS then 0 else 1 + capacity - i
      {
        visited := visited + [i];
        i := FindNext(i);
      }
      IncreasingSize(visited, Members());
    }
  }

  /** r is the least member above prev, or the sentinel when there is none. */
  ghost predicate LeastAbove(members: set<nat>, prev: int, r: nat) {
    if r == NPOS then forall i | i in members :: i <= prev
    else r in members && r > prev && forall i | i in members && i > prev :: r <= i
  }

  lemma SharedBit(ws: seq<Word>, vs: seq<Word>, w: nat) returns (i: nat)
    requires w < |ws| && w < |vs| && Op(AND, ws[w], vs[w]) != 0
    ensures BitAt(ws, i) && BitAt(vs, i)
  {
    var both := Op(AND, ws[w], vs[w]);
    ZeroExactly(both);
    var k: nat :| k < 64 && Bit(both, k);
    i := 64 * w + k;
    assert i / 64 == w && i % 64 == k;
  }

  lemma NoSharedBit(ws: seq<Word>, vs: seq<Word>, w: nat)
    requires w < |ws| && w < |vs| && Op(AND, ws[w], vs[w]) == 0
    ensures forall i: nat | 64 * w <= i < 64 * (w + 1) :: !(BitAt(ws, i) && BitAt(vs, i))
  {
    ZeroExactly(Op(AND, ws[w], vs[w]));
    forall i: nat | 64 * w <= i < 64 * (w + 1) ensures !(BitAt(ws, i) && BitAt(vs, i)) {
      assert i / 64 == w && !Bit(Op(AND, ws[w], vs[w]), i % 64);
    }
  }

  /** The lowest bit of word w shifted down by `bit` is the first set bit from 64w + bit on. */
  lemma LowestFrom(ws: seq<Word>, w: nat, bit: nat)
    requires w < |ws| && bit < 64
    ensures var word: Word := Shr(ws[w], bit);
            if word == 0 then forall i: nat | 64 * w + bit <= i < 64 * (w + 1) :: !BitAt(ws, i)
            else BitAt(ws, 64 * w + bit + Ctz(word)) &&
                 forall i: nat | 64 * w + bit <= i && BitAt(ws, i) :: 64 * w + bit + Ctz(word) <= i
  {
    var word: Word := Shr(ws[w], bit);
    if word == 0 {
      forall i: nat | 64 * w + bit <= i < 64 * (w + 1) ensures !BitAt(ws, i) {
        ShrBits(ws[w], bit, i % 64 - bit);
        ZeroBits(i % 64 - bit);
      }
    } else {
      CtzIsLeast(word);
      var c := Ctz(word);
      ShrBits(ws[w], bit, c);
      if bit + c >= 64 { WordBits(ws[w], bit + c); }
      assert (64 * w + bit + c) / 64 == w && (64 * w + bit + c) % 64 == bit + c;
      forall i: nat | 64 * w + bit <= i && BitAt(ws, i) ensures 64 * w + bit + c <= i {
        if i / 64 == w { ShrBits(ws[w], bit, i % 64 - bit); }
      }
    }
  }

  /** The highest bit of word w is the last set bit below 64(w + 1). */
  lemma HighestIn(ws: seq<Word>, w: nat)
    requires w < |ws|
    ensures if ws[w] == 0 then forall i: nat | 64 * w <= i < 64 * (w + 1) :: !BitAt(ws, i)
            else 0 <= 63 - Clz(ws[w]) && BitAt(ws, 64 * w + (63 - Clz(ws[w]))) &&
                 forall i: nat | i < 64 * (w + 1) && BitAt(ws, i) :: i <= 64 * w + (63 - Clz(ws[w]))
  {
    if ws[w] == 0 {
      forall i: nat | 64 * w <= i < 64 * (w + 1) ensures !BitAt(ws, i) { ZeroBits(i % 64); }
    } else {
      ClzIsGreatest(ws[w]);
      var c := 63 - Clz(ws[w]);
      assert (64 * w + c) / 64 == w && (64 * w + c) % 64 == c;
      forall i: nat | i < 64 * (w + 1) && BitAt(ws, i) ensures i <= 64 * w + c {
        if i / 64 == w { assert Bit(ws[w], i % 64); }
      }
    }
  }

  lemma EmptyExactly(ws: seq<Word>)
    ensures BitsetSpec.Raw(ws) == {} <==> forall w | 0 <= w < |ws| :: ws[w] == 0
  {
    forall w | 0 <= w < |ws| ensures BitsetSpec.Raw(ws) == {} ==> ws[w] == 0 {
      ZeroExactly(ws[w]);
      if ws[w] != 0 {
        var k: nat :| k < 64 && Bit(ws[w], k);
        assert (64 * w + k) / 64 == w && (64 * w + k) % 64 == k;
        assert 64 * w + k in BitsetSpec.Raw(ws);
      }
    }
    if forall w | 0 <= w < |ws| :: ws[w] == 0 {
      forall i: nat ensures !BitAt(ws, i) { ZeroBits(i % 64); }
    }
  }

  lemma UpToSize(ws: seq<Word>, n: nat)
    ensures |BitsUpTo(ws, n)| <= n
  {
    BelowSize(n);
    SubsetSize(BitsUpTo(ws, n), Below(n));
  }

  /** A strictly increasing enumeration lists as many elements as the set has. */
  lemma {:induction false} IncreasingSize(s: seq<nat>, m: set<nat>)
    requires forall a, b | 0 <= a < b < |s| :: s[a] < s[b]
    requires forall i: nat :: i in s <==> i in m
    ensures |s| == |m|
    decreases |s|
  {
    if |s| == 0 {
      assert m == {};
    } else {
      var t, x := s[..|s| - 1], s[|s| - 1];
      assert s == t + [x];
      IncreasingSize(t, m - {x});
    }
  }
}
