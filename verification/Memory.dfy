/** Alignment arithmetic of core/memory.h and core/primitives/ptr.h, on addresses as integers. */
module Alignment {
  import opened Machine
  import opened Arithmetic
  import opened Bits

  /** C99 builds and the verified configuration align to 16 by default. */
  const DEFAULT_ALIGN: Word := 16

  lemma DefaultAlignIsPowerOfTwo()
    ensures IsPowerOfTwo(DEFAULT_ALIGN)
  {
    assert Pow2(2) == 4;
    Pow2Sum(2, 2);
    PowerOfTwoExactly(DEFAULT_ALIGN);
  }

  /** A power of two divides the size of the address space. */
  lemma DividesAddressSpace(align: Word) returns (c: nat)
    requires IsPowerOfTwo(align)
    ensures c * align == USIZE_MOD
  {
    PowerOfTwoExactly(align);
    var k: nat :| k < 64 && align == Pow2(k);
    WordPow2();
    Pow2Sum(64 - k, k);
    c := Pow2(64 - k);
  }

  lemma NegateWraps(n: Word)
    ensures Wrap(0 - n) == if n == 0 then 0 else USIZE_MOD - n
  {
  }

  /** align_padding: `(0 - n) & (align - 1)`. */
  function AlignPadding(n: Word, align: Word): Word
    requires align > 0
  {
    Op(AND, Wrap(0 - n), align - 1)
  }

  /** The padding is the least number of bytes that brings n to a multiple of align, for every n. */
  lemma PaddingIsLeast(n: Word, align: Word)
    requires IsPowerOfTwo(align)
    ensures AlignPadding(n, align) < align
    ensures Aligned(n + AlignPadding(n, align), align)
    ensures forall x | n <= x < n + AlignPadding(n, align) :: !Aligned(x, align)
  {
    var pad := AlignPadding(n, align);
    var c := DividesAddressSpace(align);
    var m := if n == 0 then 0 else c;
    NegateWraps(n);
    MaskIsRemainder(Wrap(0 - n), align);
    PadReaches(n, align, m);
    forall x | n <= x < n + pad ensures !Aligned(x, align) {
      if Aligned(x, align) { NoCloserMultiple(x, n + pad, align); }
    }
  }

  lemma PaddingIsZeroExactly(n: Word, align: Word)
    requires IsPowerOfTwo(align)
    ensures AlignPadding(n, align) == 0 <==> Aligned(n, align)
  {
    PaddingIsLeast(n, align);
  }

  /** align_up: `(n + align - 1) & ~(align - 1)`. */
  function AlignUp(n: Word, align: Word): Word
    requires align > 0
  {
    Op(ANDNOT, Wrap(n + align - 1), align - 1)
  }

  /** Below the stated bound, rounding up gives the only multiple in [n, n + align). */
  lemma AlignUpIsLeast(n: Word, align: Word)
    requires IsPowerOfTwo(align) && n <= USIZE_MAX - (align - 1)
    ensures Aligned(AlignUp(n, align), align)
    ensures n <= AlignUp(n, align) < n + align
  {
    MaskRoundsDown(n + align - 1, align);
  }

  lemma MaskRoundsDown(x: Word, a: Word)
    requires IsPowerOfTwo(a)
    ensures Aligned(Op(ANDNOT, x, a - 1), a) && x - a < Op(ANDNOT, x, a - 1) <= x
  {
    MaskIsRemainder(x, a);
    RoundDown(x, a);
  }

  /** mem_align, with its overflow sentinel. */
  function MemAlign(size: Word): Word {
    if size == 0 then 0
    else if size > USIZE_MAX - (DEFAULT_ALIGN - 1) then USIZE_MAX
    else AlignUp(size, DEFAULT_ALIGN)
  }

  /** The sentinel means overflow and nothing else: it is returned exactly when no multiple fits. */
  lemma MemAlignRounds(size: Word)
    ensures MemAlign(size) == USIZE_MAX <==> size > USIZE_MAX - 15
    ensures MemAlign(size) != USIZE_MAX ==> Aligned(MemAlign(size), DEFAULT_ALIGN) && size <= MemAlign(size) < size + 16
  {
    DefaultAlignIsPowerOfTwo();
    if 0 < size <= USIZE_MAX - 15 { AlignUpIsLeast(size, DEFAULT_ALIGN); }
  }

  /** mem_get_alignment: `addr & (~addr + 1)`. */
  function GetAlignment(addr: Word): Word {
    if addr == 0 then 0 else Op(AND, addr, Wrap(Not(addr) + 1))
  }

  lemma {:induction false} CombineNot(x: nat, n: nat)
    requires x < Pow2(n)
    ensures Combine(ANDNOT, Pow2(n) - 1, x, n) == Pow2(n) - 1 - x
    decreases n
  {
    if n > 0 {
      CombineNot(x / 2, n - 1);
      OddHalves(Pow2(n - 1));
    }
  }

  lemma NotIsComplement(x: Word)
    ensures Not(x) == USIZE_MAX - x
  {
    WordPow2();
    CombineNot(x, 64);
  }

  lemma {:induction false} NotShares(x: nat, n: nat)
    requires x < Pow2(n)
    ensures Combine(AND, x, Pow2(n) - 1 - x, n) == 0
    decreases n
  {
    if n > 0 {
      NotShares(x / 2, n - 1);
      assert (Pow2(n) - 1 - x) / 2 == Pow2(n - 1) - 1 - x / 2;
    }
  }

  lemma {:induction false} NegateShares(x: nat, n: nat)
    requires 0 < x < Pow2(n)
    ensures Combine(AND, x, Pow2(n) - x, n) == Pow2(LowBit(x))
    decreases n
  {
    if x % 2 == 1 {
      assert (Pow2(n) - x) / 2 == Pow2(n - 1) - 1 - x / 2;
      NotShares(x / 2, n - 1);
    } else {
      assert (Pow2(n) - x) / 2 == Pow2(n - 1) - x / 2;
      NegateShares(x / 2, n - 1);
    }
  }

  /** `addr & (~addr + 1)` is the lowest set bit. */
  lemma GetAlignmentIsLowBit(addr: Word)
    requires addr != 0
    ensures LowBit(addr) < 64 && GetAlignment(addr) == Pow2(LowBit(addr))
  {
    CtzIsLeast(addr);
    NotIsComplement(addr);
    WordPow2();
    NegateShares(addr, 64);
    var y: Word := USIZE_MOD - addr;
    assert Wrap(Not(addr) + 1) == y == Pow2(64) - addr;
    assert Op(AND, addr, y) == Combine(AND, addr, y, 64);
  }

  /** Only address zero has alignment zero. */
  lemma GetAlignmentIsZeroExactly(addr: Word)
    ensures GetAlignment(addr) == 0 <==> addr == 0
  {
    if addr != 0 { GetAlignmentIsLowBit(addr); }
  }

  /** The result is a power of two, and the powers of two up to it are exactly those that divide the address. */
  lemma GetAlignmentIsGreatest(addr: Word, k: nat)
    requires addr != 0
    ensures LowBit(addr) < 64 && GetAlignment(addr) == Pow2(LowBit(addr))
    ensures addr % Pow2(k) == 0 <==> Pow2(k) <= GetAlignment(addr)
  {
    GetAlignmentIsLowBit(addr);
    var b := LowBit(addr);
    LowBitDivides(addr, k);
    if k < b { Pow2Range(k, b); } else if b < k { Pow2Range(b, k); }
  }
}

/** Byte regions of core/memory.h: overlap, copy, move, and the two swap paths of the priority queue. */
module Memory {
  import opened Machine
  import opened Arithmetic
  import Heap

  type Byte = b: nat | b < 256

  /** CANON_MEM_SWAP_MAX */
  const SWAP_MAX: nat := 256

  /** mem_regions_overlap on addresses, zero standing for NULL. */
  predicate RegionsOverlap(a: nat, b: nat, size: nat) {
    if a == 0 || b == 0 || size == 0 then false
    else if a <= b then b - a < size else a - b < size
  }

  predicate InRegion(x: nat, start: nat, size: nat) {
    start <= x < start + size
  }

  /** The comparison of address differences decides exactly whether the two regions share a byte. */
  lemma OverlapIsSharedByte(a: nat, b: nat, size: nat)
    ensures RegionsOverlap(a, b, size) <==>
              a != 0 && b != 0 && exists x: nat :: InRegion(x, a, size) && InRegion(x, b, size)
  {
    if RegionsOverlap(a, b, size) {
      var x: nat := if a <= b then b else a;
      assert InRegion(x, a, size) && InRegion(x, b, size);
    }
  }

  /** dst with bytes written over it from position d. */
  function Splice<T>(dst: seq<T>, d: nat, bytes: seq<T>): (r: seq<T>)
    requires d + |bytes| <= |dst|
    ensures |r| == |dst|
    ensures forall k {:trigger r[k]} | 0 <= k < |r| :: r[k] == if d <= k < d + |bytes| then bytes[k - d] else dst[k]
  {
    dst[..d] + bytes + dst[d + |bytes|..]
  }

  /** memcpy: the regions must not overlap. */
  method Copy<T>(dst: array<T>, d: nat, src: array<T>, s: nat, n: nat)
    requires d + n <= dst.Length && s + n <= src.Length
    requires dst == src ==> d + n <= s || s + n <= d
    modifies dst
    ensures dst[..] == Splice(old(dst[..]), d, old(src[s..s + n]))
  {
    for k := 0 to n
      invariant forall j | 0 <= j < dst.Length ::
                  dst[j] == if d <= j < d + k then old(src[s + (j - d)]) else old(dst[j])
      invariant forall j | s <= j < s + n :: src[j] == old(src[j])
    {
      dst[d + k] := src[s + k];
    }
  }

  /** memmove: as if through a temporary array, so the regions may overlap. */
  method Move<T(0)>(dst: array<T>, d: nat, src: array<T>, s: nat, n: nat)
    requires d + n <= dst.Length && s + n <= src.Length
    modifies dst
    ensures dst[..] == Splice(old(dst[..]), d, old(src[s..s + n]))
  {
    var tmp := new T[n];
    Copy(tmp, 0, src, s, n);
    assert tmp[0..n] == old(src[s..s + n]);
    Copy(dst, d, tmp, 0, n);
  }

  /** The bytes of a value stored from position d on, one by one. */
  method Write<T>(dst: array<T>, d: nat, bytes: seq<T>)
    requires d + |bytes| <= dst.Length
    modifies dst
    ensures dst[..] == Splice(old(dst[..]), d, bytes)
  {
    for k := 0 to |bytes|
      invariant dst[..] == Splice(old(dst[..]), d, bytes[..k])
    {
      dst[d + k] := bytes[k];
    }
    assert bytes[..|bytes|] == bytes;
  }

  /** mem_zero and mem_secure_zero */
  method Zero(mem: array<Byte>, d: nat, n: nat)
    requires d + n <= mem.Length
    modifies mem
    ensures forall k | 0 <= k < mem.Length :: mem[k] == if d <= k < d + n then 0 else old(mem[k])
  {
    for i := 0 to n
      invariant forall k | 0 <= k < mem.Length :: mem[k] == if d <= k < d + i then 0 else old(mem[k])
    {
      mem[d + i] := 0;
    }
  }

  // ---------------------------------------------------------------- element slots

  predicate Fits(i: nat, es: nat, length: nat) {
    Offset(i, es) + es <= length
  }

  lemma SlotFits(i: nat, n: nat, es: nat, length: nat)
    requires i < n && Offset(n, es) <= length
    ensures Fits(i, es, length)
  {
    OffsetOrder(i, n, es);
  }

  /** The i-th slot of es bytes. */
  function Slot<T>(bytes: seq<T>, es: nat, i: nat): (slot: seq<T>)
    requires Fits(i, es, |bytes|)
    ensures |slot| == es
  {
    bytes[Offset(i, es)..Offset(i, es) + es]
  }

  /** A buffer of n slots as the sequence of its elements. */
  function Elements<T>(bytes: seq<T>, es: nat, n: nat): (s: seq<seq<T>>)
    requires Offset(n, es) <= |bytes|
    ensures |s| == n
    ensures forall i: nat | i < n :: Fits(i, es, |bytes|) && s[i] == Slot(bytes, es, i)
  {
    if n == 0 then []
    else
      Elements(bytes, es, n - 1) + [Slot(bytes, es, n - 1)]
  }

  predicate Apart(a: nat, b: nat, size: nat) {
    a + size <= b || b + size <= a
  }

  lemma SlotsApart(a: nat, b: nat, es: nat)
    ensures a == b || Apart(Offset(a, es), Offset(b, es), es)
  {
    OffsetOrder(a, b, es);
    OffsetOrder(b, a, es);
  }

  /** Different slots do not overlap, wherever the buffer lies. */
  lemma SlotsDoNotOverlap(buffer: nat, a: nat, b: nat, es: nat)
    requires buffer > 0 && es > 0 && a != b
    ensures !RegionsOverlap(buffer + Offset(a, es), buffer + Offset(b, es), es)
  {
    SlotsApart(a, b, es);
  }

  /** The size bytes at a and the size bytes at b exchanged. */
  function SwapRegions<T>(s: seq<T>, a: nat, b: nat, size: nat): (r: seq<T>)
    requires a + size <= |s| && b + size <= |s| && (a == b || Apart(a, b, size))
    ensures |r| == |s|
    ensures forall k {:trigger r[k]} | 0 <= k < |s| ::
              r[k] == if a <= k < a + size then s[b + (k - a)] else if b <= k < b + size then s[a + (k - b)] else s[k]
  {
    seq(|s|, k requires 0 <= k < |s| =>
      if a <= k < a + size then s[b + (k - a)] else if b <= k < b + size then s[a + (k - b)] else s[k])
  }

  function SwapSlots<T>(bytes: seq<T>, es: nat, a: nat, b: nat): (r: seq<T>)
    requires Fits(a, es, |bytes|) && Fits(b, es, |bytes|) && es > 0
    ensures |r| == |bytes|
  {
    SlotsApart(a, b, es);
    SwapRegions(bytes, Offset(a, es), Offset(b, es), es)
  }

  lemma RegionOfSwap<T>(s: seq<T>, a: nat, b: nat, size: nat, c: nat)
    requires a + size <= |s| && b + size <= |s| && (a == b || Apart(a, b, size))
    requires c + size <= |s|
    requires (c == a || Apart(c, a, size)) && (c == b || Apart(c, b, size))
    ensures var d := if c == b then a else if c == a then b else c;
            SwapRegions(s, a, b, size)[c..c + size] == s[d..d + size]
  {
    RegionOfSwapped(s, SwapRegions(s, a, b, size), a, b, size, c);
  }

  /** t is s with the two regions exchanged, byte by byte. */
  ghost predicate Swapped<T>(s: seq<T>, t: seq<T>, a: nat, b: nat, size: nat)
    requires a + size <= |s| && b + size <= |s|
  {
    && |t| == |s|
    && forall k {:trigger t[k]} | 0 <= k < |s| ::
         t[k] == if a <= k < a + size then s[b + (k - a)] else if b <= k < b + size then s[a + (k - b)] else s[k]
  }

  lemma RegionOfSwapped<T>(s: seq<T>, t: seq<T>, a: nat, b: nat, size: nat, c: nat)
    requires a + size <= |s| && b + size <= |s| && (a == b || Apart(a, b, size)) && Swapped(s, t, a, b, size)
    requires c + size <= |s| && (c == a || Apart(c, a, size)) && (c == b || Apart(c, b, size))
    ensures var d := if c == b then a else if c == a then b else c;
            t[c..c + size] == s[d..d + size]
  {
    if c == b {
      SameBytes(t, c, s, a, size);
    } else if c == a {
      SameBytes(t, c, s, b, size);
    } else {
      SameBytes(t, c, s, c, size);
    }
  }

  lemma SameBytes<T>(t: seq<T>, c: nat, s: seq<T>, d: nat, size: nat)
    requires c + size <= |t| && d + size <= |s|
    requires forall j {:trigger t[j]} | c <= j < c + size :: t[j] == s[d + (j - c)]
    ensures t[c..c + size] == s[d..d + size]
  {
    var after, before := t[c..c + size], s[d..d + size];
    forall k | 0 <= k < size ensures after[k] == before[k] {
      assert after[k] == t[c + k];
    }
  }

  lemma SlotOfSwap<T>(bytes: seq<T>, es: nat, i: nat, a: nat, b: nat)
    requires Fits(i, es, |bytes|) && Fits(a, es, |bytes|) && Fits(b, es, |bytes|) && es > 0
    ensures Slot(SwapSlots(bytes, es, a, b), es, i)
         == Slot(bytes, es, if i == b then a else if i == a then b else i)
  {
    SlotsApart(i, a, es);
    SlotsApart(i, b, es);
    SlotsApart(a, b, es);
    RegionOfSwap(bytes, Offset(a, es), Offset(b, es), es, Offset(i, es));
  }

  /** Swapping the bytes of two slots swaps the two elements and leaves every other one unchanged. */
  lemma SwapSlotsSwapsElements<T>(bytes: seq<T>, es: nat, n: nat, a: nat, b: nat)
    requires es > 0 && a < n && b < n && Offset(n, es) <= |bytes|
    ensures Fits(a, es, |bytes|) && Fits(b, es, |bytes|)
    ensures Elements(SwapSlots(bytes, es, a, b), es, n) == Heap.Swap(Elements(bytes, es, n), a, b)
    ensures SwapSlots(bytes, es, a, b)[Offset(n, es)..] == bytes[Offset(n, es)..]
  {
    SlotFits(a, n, es, |bytes|);
    SlotFits(b, n, es, |bytes|);
    SlotFits(a, n, es, Offset(n, es));
    SlotFits(b, n, es, Offset(n, es));
    var two := SwapSlots(bytes, es, a, b);
    var before, after := Elements(bytes, es, n), Elements(two, es, n);
    forall i: nat | i < n ensures after[i] == Heap.Swap(before, a, b)[i] {
      SlotFits(i, n, es, |bytes|);
      SlotOfSwap(bytes, es, i, a, b);
    }
  }

  /** mem_swap: three block copies through a stack buffer. */
  method SwapThroughBuffer<T(0)>(mem: array<T>, a: nat, b: nat, size: nat)
    requires size <= SWAP_MAX && a + size <= mem.Length && b + size <= mem.Length
    requires Apart(a, b, size)
    modifies mem
    ensures mem[..] == SwapRegions(old(mem[..]), a, b, size)
  {
    ghost var s := mem[..];
    var tmp := new T[SWAP_MAX];
    Copy(tmp, 0, mem, a, size);
    ghost var saved := tmp[0..size];
    assert saved == s[a..a + size] && mem[b..b + size] == s[b..b + size];
    Copy(mem, a, mem, b, size);
    assert mem[..] == Splice(s, a, s[b..b + size]) && tmp[0..size] == saved;
    Copy(mem, b, tmp, 0, size);
    TwoSplices(s, a, b, size);
  }

  lemma TwoSplices<T>(s: seq<T>, a: nat, b: nat, size: nat)
    requires a + size <= |s| && b + size <= |s| && Apart(a, b, size)
    ensures Splice(Splice(s, a, s[b..b + size]), b, s[a..a + size]) == SwapRegions(s, a, b, size)
  {
    var t := Splice(Splice(s, a, s[b..b + size]), b, s[a..a + size]);
    assert Swapped(s, t, a, b, size);
    SwappedIsUnique(s, t, SwapRegions(s, a, b, size), a, b, size);
  }

  lemma SwappedIsUnique<T>(s: seq<T>, t: seq<T>, u: seq<T>, a: nat, b: nat, size: nat)
    requires a + size <= |s| && b + size <= |s| && Swapped(s, t, a, b, size) && Swapped(s, u, a, b, size)
    ensures t == u
  {
    forall k | 0 <= k < |s| ensures t[k] == u[k] {}
  }

  lemma SwapRegionsGrow<T>(s: seq<T>, a: nat, b: nat, k: nat)
    requires a + k < |s| && b + k < |s| && Apart(a, b, k + 1)
    ensures SwapRegions(s, a, b, k)[a + k] == s[a + k] && SwapRegions(s, a, b, k)[b + k] == s[b + k]
    ensures SwapRegions(s, a, b, k + 1) == SwapRegions(s, a, b, k)[a + k := s[b + k]][b + k := s[a + k]]
  {
  }

  /** The queue's loop for elements that do not fit the stack buffer. */
  method SwapByteByByte<T>(mem: array<T>, a: nat, b: nat, size: nat)
    requires a + size <= mem.Length && b + size <= mem.Length
    requires Apart(a, b, size)
    modifies mem
    ensures mem[..] == SwapRegions(old(mem[..]), a, b, size)
  {
    for k := 0 to size
      invariant mem[..] == SwapRegions(old(mem[..]), a, b, k)
    {
      ghost var s := mem[..];
      SwapRegionsGrow(old(mem[..]), a, b, k);
      var t := mem[a + k];
      mem[a + k] := mem[b + k];
      mem[b + k] := t;
      assert mem[..] == s[a + k := s[b + k]][b + k := s[a + k]];
    }
  }

  /** pq_swap_ on the bytes of a queue's buffer at address `buffer`: both paths exchange two elements. */
  method SwapElements<T(0)>(mem: array<T>, buffer: nat, es: nat, n: nat, a: nat, b: nat)
    requires buffer > 0 && es > 0 && a < n && b < n && Offset(n, es) <= mem.Length
    modifies mem
    ensures Elements(mem[..], es, n) == Heap.Swap(old(Elements(mem[..], es, n)), a, b)
    ensures mem[..][Offset(n, es)..] == old(mem[..])[Offset(n, es)..]
  {
    ghost var was := mem[..];
    SwapSlotsSwapsElements(was, es, n, a, b);
    ghost var now := SwapSlots(was, es, a, b);
    if a == b {
      assert now == was;
      return;
    }
    SlotsApart(a, b, es);
    SlotsDoNotOverlap(buffer, a, b, es);
    var pa, pb := Offset(a, es), Offset(b, es);
    if es <= SWAP_MAX {
      assert !RegionsOverlap(buffer + Offset(a, es), buffer + Offset(b, es), es);  // mem_swap's run-time check passes
      SwapThroughBuffer(mem, pa, pb, es);
    } else {
      SwapByteByByte(mem, pa, pb, es);
    }
    assert mem[..] == now;
  }
}
