/** The fixed-size object pool of core/pool.h: slots carved from one arena block. */
module PoolModel {
  import opened Machine
  import opened Arithmetic
  import opened Bits
  import opened Alignment
  import opened ArenaModel

  /** The Pool's fields, the arena it is bound to by identity. */
  datatype Pool = Pool(arena: object?, objectSize: Word, capacity: nat, used: nat, baseMark: nat, endMark: nat)

  /** Where slot i starts, as an offset in the arena's buffer. */
  function SlotStart(p: Pool, i: nat): nat {
    p.baseMark + Offset(i, p.objectSize)
  }

  /** pool_invariant, and what it leaves out: the region's start is aligned and its size is not zero. */
  ghost predicate Usable(s: State, p: Pool) {
    && Invariant(s)
    && p.objectSize > 0 && Aligned(p.objectSize, DEFAULT_ALIGN)
    && 0 < p.capacity && p.used <= p.capacity
    && p.baseMark + Offset(p.capacity, p.objectSize) == p.endMark <= s.capacity
    && p.baseMark <= s.offset
    && Aligned(s.buffer + p.baseMark, DEFAULT_ALIGN)
  }

  /** The arena has not been rolled back below the pool's end. */
  ghost predicate PoolInvariant(s: State, p: Pool) {
    Usable(s, p) && p.endMark <= s.offset
  }

  /** The arena block at index k is the pool's region. */
  ghost predicate Owns(s: State, p: Pool, k: nat) {
    k < |s.live| && p.baseMark <= p.endMark && s.live[k] == Block(p.baseMark, p.endMark - p.baseMark, DEFAULT_ALIGN)
  }

  /** checked_mul on the reservation: the product, if it fits. */
  function CheckedMul(a: Word, b: Word): Option<nat> {
    if a * b <= USIZE_MAX then Some(a * b) else None
  }

  /** What pool_init does: the new arena, the new pool fields, and the answer. */
  function Init(s: State, p: Pool, a: object, objectSize: Word, maxObjects: Word): (State, Pool, bool)
    requires s.Valid()
  {
    var aligned := MemAlign(objectSize);
    if aligned == USIZE_MAX then (s, p, false)
    else
      var needed := CheckedMul(aligned, maxObjects);
      if needed == None || needed.value > s.capacity - s.offset then (s, p, false)
      else
        var q := p.(arena := a, objectSize := aligned, capacity := maxObjects, used := 0);
        var (t, region) := s.Alloc(needed.value, DEFAULT_ALIGN);
        if region == None then (t, q, false)
        else (t, q.(baseMark := region.value, endMark := t.offset), true)
  }

  /** When pool_init fails: no multiple, no product, or no room for the padding and the slots. */
  ghost predicate TooBig(s: State, objectSize: Word, maxObjects: Word)
    requires s.Valid()
  {
    || MemAlign(objectSize) == USIZE_MAX
    || s.offset + s.Pad(DEFAULT_ALIGN) + MemAlign(objectSize) * maxObjects > s.capacity
  }

  lemma ProductPositive(a: nat, b: nat)
    ensures a > 0 && b > 0 ==> a * b > 0
  {
  }

  /** The answer is exact; success reserves the region as one more live block, failure leaves the arena alone. */
  lemma InitReserves(s: State, p: Pool, a: object, objectSize: Word, maxObjects: Word)
    requires Invariant(s) && objectSize > 0 && maxObjects > 0
    ensures var (t, q, ok) := Init(s, p, a, objectSize, maxObjects);
            && (ok <==> !TooBig(s, objectSize, maxObjects))
            && (!ok ==> t == s)
            && (ok ==> PoolInvariant(t, q) && q.arena == a && q.used == 0 && q.endMark == t.offset
                       && q.capacity == maxObjects && objectSize <= q.objectSize < objectSize + DEFAULT_ALIGN
                       && Owns(t, q, |s.live|) && t.live[..|s.live|] == s.live)
  {
    MemAlignRounds(objectSize);
    var aligned := MemAlign(objectSize);
    ProductPositive(aligned, maxObjects);
    OffsetIsProduct(maxObjects, aligned);
    assert maxObjects * aligned == aligned * maxObjects;
    if aligned != USIZE_MAX && aligned * maxObjects <= s.capacity - s.offset {
      var (t, start) := s.Alloc(aligned * maxObjects, DEFAULT_ALIGN);
      BlockReserved(s, aligned, maxObjects, Offset(maxObjects, aligned), t, start);
    }
  }

  /** The reservation succeeds exactly when padding and slots fit, and its block is the pool's region. */
  lemma BlockReserved(s: State, aligned: Word, maxObjects: Word, size: Word, t: State, start: Option<nat>)
    requires Invariant(s) && size == Offset(maxObjects, aligned) > 0 && (t, start) == s.Alloc(size, DEFAULT_ALIGN)
    ensures start == None <==> s.offset + s.Pad(DEFAULT_ALIGN) + size > s.capacity
    ensures start == None ==> t == s
    ensures start.Some? ==>
              && Invariant(t) && Aligned(t.buffer + start.value, DEFAULT_ALIGN)
              && start.value + size == t.offset <= t.capacity
              && t.live == s.live + [Block(start.value, size, DEFAULT_ALIGN)] && t.live[..|s.live|] == s.live
  {
    DefaultAlignIsPowerOfTwo();
    AllocPlaces(s, size, DEFAULT_ALIGN);
    AllocKeepsInvariant(s, size, DEFAULT_ALIGN);
  }

  /** The fields that pool_init stores before the reservation; the marks stay those of the pool's previous life. */
  function Stored(p: Pool, a: object, aligned: Word, maxObjects: nat): Pool {
    p.(arena := a, objectSize := aligned, capacity := maxObjects, used := 0)
  }

  /**
   * The header promises an untouched pool on failure. It is kept if and only if the request is turned down before the
   * reservation, or the pool held the values already; else the old marks are left with the new arena and sizes.
   */
  lemma InitFailureTouchesPool(s: State, p: Pool, a: object, objectSize: Word, maxObjects: Word)
    requires Invariant(s) && objectSize > 0 && maxObjects > 0 && TooBig(s, objectSize, maxObjects)
    ensures var (t, q, ok) := Init(s, p, a, objectSize, maxObjects);
            var stored := Stored(p, a, MemAlign(objectSize), maxObjects);
            && !ok && t == s && (q == p || q == stored)
            && (q == p <==> MemAlign(objectSize) == USIZE_MAX
                            || MemAlign(objectSize) * maxObjects > s.capacity - s.offset || p == stored)
            && q.baseMark == p.baseMark && q.endMark == p.endMark
  {
    InitReserves(s, p, a, objectSize, maxObjects);
  }

  lemma PadIsPositive(s: State, align: Word)
    requires s.Valid() && IsPowerOfTwo(align) && !Aligned(s.buffer + s.offset, align)
    ensures s.Pad(align) > 0
  {
    PaddingIsZeroExactly(s.buffer + s.offset, align);
  }

  /** Requests that overwrite the pool and fail: for exactly the bytes left, when the bump pointer is not aligned. */
  lemma PaddingAloneFails(s: State, p: Pool, a: object, objectSize: Word, maxObjects: Word)
    requires Invariant(s) && objectSize > 0 && maxObjects > 0 && !Aligned(s.buffer + s.offset, DEFAULT_ALIGN)
    requires MemAlign(objectSize) * maxObjects == s.capacity - s.offset
    ensures Init(s, p, a, objectSize, maxObjects) == (s, Stored(p, a, MemAlign(objectSize), maxObjects), false)
  {
    DefaultAlignIsPowerOfTwo();
    PadIsPositive(s, DEFAULT_ALIGN);
    AlignedIsNotSentinel(s, objectSize, maxObjects);
    InitFailureTouchesPool(s, p, a, objectSize, maxObjects);
  }

  lemma AlignedIsNotSentinel(s: State, objectSize: Word, maxObjects: Word)
    requires Invariant(s) && maxObjects > 0 && MemAlign(objectSize) * maxObjects == s.capacity - s.offset
    ensures MemAlign(objectSize) != USIZE_MAX
  {
    MulMonotone(1, maxObjects, MemAlign(objectSize));
  }

  /** For one: a 16-byte object in the last 16 bytes of a 17-byte buffer. */
  lemma InitFailureExample(s: State, p: Pool, a: object, size: Word)
    requires s == State(16, 17, 1, 0, []) && size == 16
    ensures Init(s, p, a, size, 1) == (s, p.(arena := a, objectSize := 16, capacity := 1, used := 0), false)
  {
    MemAlignRounds(size);
    assert MemAlign(size) == 16;
    PaddingAloneFails(s, p, a, size, 1);
  }

  // ---------------------------------------------------------------- slots

  function Alloc(p: Pool): (Pool, Option<nat>) {
    if p.used >= p.capacity then (p, None) else (p.(used := p.used + 1), Some(SlotStart(p, p.used)))
  }

  function Get(p: Pool, i: nat): Option<nat> {
    if i >= p.used then None else Some(SlotStart(p, i))
  }

  /** A slot is handed out exactly while some are left: the next one, behind all that are in use. */
  lemma AllocHandsOut(s: State, p: Pool)
    requires Usable(s, p)
    ensures var (q, slot) := Alloc(p);
            && (slot.Some? <==> p.used < p.capacity)
            && (slot == None ==> q == p)
            && (slot.Some? ==>
                  && q == p.(used := p.used + 1) && slot.value + p.objectSize <= p.endMark
                  && (forall i: nat | i < p.used :: SlotStart(p, i) + p.objectSize <= slot.value)
                  && (p.used == 0 ==> slot.value == p.baseMark))
  {
    OffsetOrder(p.used, p.capacity, p.objectSize);
    forall i: nat | i < p.used ensures SlotStart(p, i) + p.objectSize <= SlotStart(p, p.used) {
      OffsetOrder(i, p.used, p.objectSize);
    }
  }

  /** pool_get answers exactly for the slots in use, with slot i at i strides from the region's start. */
  lemma GetAnswers(p: Pool, i: nat)
    ensures Get(p, i).Some? <==> i < p.used
    ensures i < p.used ==> Get(p, i) == Some(p.baseMark + i * p.objectSize)
  {
    OffsetIsProduct(i, p.objectSize);
  }

  /** Slots have equal stride, lie in the region, are aligned, and do not overlap. */
  lemma SlotsAreSeparate(s: State, p: Pool, i: nat, j: nat)
    requires Usable(s, p) && i < j < p.capacity
    ensures p.baseMark <= SlotStart(p, i)
    ensures SlotStart(p, i) + p.objectSize <= SlotStart(p, j)
    ensures SlotStart(p, j) + p.objectSize <= p.endMark
    ensures SlotStart(p, i + 1) == SlotStart(p, i) + p.objectSize
    ensures Aligned(s.buffer + SlotStart(p, i), DEFAULT_ALIGN)
  {
    OffsetOrder(i, j, p.objectSize);
    OffsetOrder(j, p.capacity, p.objectSize);
    OffsetAligned(s.buffer + p.baseMark, i, p.objectSize);
  }

  lemma {:induction false} OffsetAligned(base: nat, i: nat, es: nat)
    requires Aligned(base, DEFAULT_ALIGN) && Aligned(es, DEFAULT_ALIGN)
    ensures Aligned(base + Offset(i, es), DEFAULT_ALIGN)
    decreases i
  {
    if i > 0 {
      OffsetAligned(base, i - 1, es);
      AlignedSum(base + Offset(i - 1, es), es, DEFAULT_ALIGN);
    }
  }

  /** pool_reset: roll the arena back to the region's start, then reserve the region again. */
  function Reset(s: State, p: Pool): (State, Pool)
    requires s.Valid() && p.baseMark <= s.offset
  {
    var needed := p.objectSize * p.capacity;
    (s.ResetTo(p.baseMark).Alloc(Wrap(needed), DEFAULT_ALIGN).0, p.(used := 0))
  }

  /** The region before index k ends where the pool's begins, and what follows starts where it ends. */
  lemma RegionNeighbours(s: State, p: Pool, k: nat)
    requires PoolInvariant(s, p) && Owns(s, p, k)
    ensures forall b | b in s.live[..k] :: b.End() <= p.baseMark
    ensures forall i | k < i < |s.live| :: s.live[i].start >= p.endMark
  {
    forall b | b in s.live[..k] ensures b.End() <= p.baseMark {
      var i :| 0 <= i < k && s.live[i] == b;
      assert s.live[i].End() <= s.live[k].start;
    }
  }

  lemma RegionSize(s: State, p: Pool)
    requires Usable(s, p)
    ensures p.objectSize * p.capacity == p.endMark - p.baseMark > 0
  {
    OffsetIsProduct(p.capacity, p.objectSize);
    OffsetOrder(0, p.capacity, p.objectSize);
    assert p.objectSize * p.capacity == p.capacity * p.objectSize;
  }

  /** The rollback releases the region and everything after it, and nothing before it. */
  lemma RollbackKeepsPrefix(s: State, p: Pool, k: nat)
    requires PoolInvariant(s, p) && Owns(s, p, k)
    ensures s.ResetTo(p.baseMark).live == s.live[..k]
  {
    RegionNeighbours(s, p, k);
    forall i | k <= i < |s.live| ensures s.live[i].start >= p.baseMark && s.live[i].size > 0 {
      assert s.live[i] in s.live;
    }
    KeepExactly(s.live[..k], s.live, p.baseMark);
  }

  /** The reservation after a rollback needs no padding and lands on the same region. */
  lemma ResetLandsOnSameRegion(s: State, p: Pool, k: nat)
    requires PoolInvariant(s, p) && Owns(s, p, k)
    ensures var (t, q) := Reset(s, p);
            && t.offset == p.endMark && q == p.(used := 0)
            && t.live == s.live[..k + 1]
            && PoolInvariant(t, q) && Owns(t, q, k)
  {
    ResetReserves(s, p);
    RollbackKeepsPrefix(s, p, k);
    SameRegion(s, p, k, Reset(s, p).0);
  }

  /** Even after a rollback into the region the reset reserves all of it again, at the same place. */
  lemma ResetReserves(s: State, p: Pool)
    requires Usable(s, p)
    ensures var (t, q) := Reset(s, p);
            && t.offset == p.endMark && q == p.(used := 0)
            && t.live == Keep(s.live, p.baseMark) + [Block(p.baseMark, p.endMark - p.baseMark, DEFAULT_ALIGN)]
            && t.buffer == s.buffer && t.capacity == s.capacity && Invariant(t)
  {
    RegionSize(s, p);
    var r, size := s.ResetTo(p.baseMark), p.endMark - p.baseMark;
    StepKeepsInvariant(s, OpResetTo(p.baseMark));
    ReservesAt(r, size);
  }

  /** A reservation that fits at an aligned bump pointer. */
  lemma ReservesAt(r: State, size: Word)
    requires Invariant(r) && Aligned(r.buffer + r.offset, DEFAULT_ALIGN) && size > 0 && r.offset + size <= r.capacity
    ensures var t := r.Alloc(size, DEFAULT_ALIGN).0;
            && Invariant(t) && t.offset == r.offset + size && t.live == r.live + [Block(r.offset, size, DEFAULT_ALIGN)]
            && t.buffer == r.buffer && t.capacity == r.capacity
  {
    DefaultAlignIsPowerOfTwo();
    AllocPlaces(r, size, DEFAULT_ALIGN);
    NoPadding(r, DEFAULT_ALIGN);
    var (t, start) := r.Alloc(size, DEFAULT_ALIGN);
    ReserveFits(r, size, t, start);
  }

  /** So a reset makes any usable pool exclusive again. */
  lemma ResetRecovers(s: State, p: Pool)
    requires Usable(s, p)
    ensures var (t, q) := Reset(s, p);
            PoolInvariant(t, q) && |t.live| > 0 && Owns(t, q, |t.live| - 1)
  {
    ResetReserves(s, p);
  }

  /** At an aligned bump pointer a reservation that fits is placed right there. */
  lemma ReserveFits(r: State, size: nat, t: State, start: Option<nat>)
    requires Invariant(r) && Aligned(r.buffer + r.offset, DEFAULT_ALIGN) && Allocates(r, size, DEFAULT_ALIGN, t, start)
    requires start.Some?
    ensures start.value == r.offset && Invariant(t)
    ensures t == r.(offset := r.offset + size, padding := t.padding,
                    live := r.live + [Block(r.offset, size, DEFAULT_ALIGN)])
  {
    AllocatesKeepsInvariant(r, size, DEFAULT_ALIGN, t, start);
  }

  lemma SameRegion(s: State, p: Pool, k: nat, t: State)
    requires PoolInvariant(s, p) && Owns(s, p, k) && Invariant(t) && t.buffer == s.buffer
    requires t.live == s.live[..k] + [s.live[k]] && t.offset == p.endMark
    ensures t.live == s.live[..k + 1] && PoolInvariant(t, p.(used := 0)) && Owns(t, p.(used := 0), k)
  {
  }

  lemma NoPadding(s: State, align: Word)
    requires s.Valid() && IsPowerOfTwo(align) && Aligned(s.buffer + s.offset, align)
    ensures s.Pad(align) == 0
  {
    PaddingIsZeroExactly(s.buffer + s.offset, align);
  }

  // ---------------------------------------------------------------- runs of a pool and its arena

  datatype Op = PoolAlloc | PoolReset | ArenaOp(op: ArenaModel.Op)

  /** The pool stays exclusive while no arena call goes below its end. */
  predicate Admissible(s: State, p: Pool, op: Op)
    requires s.Valid()
  {
    match op
    case ArenaOp(op) => ArenaModel.Admissible(s, op) && ArenaModel.Step(s, op).offset >= p.endMark
    case _ => true
  }

  function Step(s: State, p: Pool, op: Op): (State, Pool)
    requires s.Valid() && p.baseMark <= s.offset && Admissible(s, p, op)
  {
    match op
    case PoolAlloc => (s, Alloc(p).0)
    case PoolReset => Reset(s, p)
    case ArenaOp(op) => (ArenaModel.Step(s, op), p)
  }

  lemma StepKeepsPool(s: State, p: Pool, k: nat, op: Op)
    requires PoolInvariant(s, p) && Owns(s, p, k) && Admissible(s, p, op)
    ensures var (t, q) := Step(s, p, op);
            && PoolInvariant(t, q) && Owns(t, q, k)
            && q == p.(used := q.used) && t.live[..k] == s.live[..k]
  {
    match op
    case PoolAlloc =>
    case PoolReset => ResetLandsOnSameRegion(s, p, k);
    case ArenaOp(op) =>
      StepKeepsInvariant(s, op);
      RegionSurvives(s, p, k, op);
  }

  /** An arena call that stays above the region's end keeps the region and everything before it. */
  lemma RegionSurvives(s: State, p: Pool, k: nat, op: ArenaModel.Op)
    requires PoolInvariant(s, p) && Owns(s, p, k)
    requires ArenaModel.Admissible(s, op) && ArenaModel.Step(s, op).offset >= p.endMark
    ensures var t := ArenaModel.Step(s, op);
            k < |t.live| && t.live[..k + 1] == s.live[..k + 1] && t.live[k] == s.live[k] && t.live[..k] == s.live[..k]
  {
    var before := s.live[..k + 1];
    RegionNeighbours(s, p, k);
    assert before == s.live[..k] + [s.live[k]];
    StepSurvives(before, p.endMark, s, op);
    PrefixAgrees(before, ArenaModel.Step(s, op).live, k);
  }

  lemma PrefixAgrees(before: seq<Block>, live: seq<Block>, k: nat)
    requires before <= live && |before| == k + 1
    ensures live[..k + 1] == before && live[k] == before[k] && live[..k] == before[..k]
  {
  }

  /** Every call of the run is admissible where it is made. */
  ghost predicate IsRun(s: State, p: Pool, ops: seq<Op>)
    decreases |ops|
  {
    s.Valid() && p.baseMark <= s.offset &&
    (|ops| > 0 ==> Admissible(s, p, ops[0]) &&
                   var (t, q) := Step(s, p, ops[0]); IsRun(t, q, ops[1..]))
  }

  function After(s: State, p: Pool, ops: seq<Op>): (State, Pool)
    requires IsRun(s, p, ops)
    decreases |ops|
  {
    if |ops| == 0 then (s, p) else var (t, q) := Step(s, p, ops[0]); After(t, q, ops[1..])
  }

  /** Slots handed out since the last reset, given how many were handed out before the run. */
  function HandedOut(p: Pool, ops: seq<Op>, since: nat): nat
    decreases |ops|
  {
    if |ops| == 0 then since
    else HandedOut(p, ops[1..],
           match ops[0]
           case PoolAlloc => if since < p.capacity then since + 1 else since
           case PoolReset => 0
           case ArenaOp(_) => since)
  }

  /** Over every run the region keeps its place, size and stride, and only the count of slots in use changes. */
  lemma {:induction false} RunKeepsPool(s: State, p: Pool, k: nat, ops: seq<Op>)
    requires PoolInvariant(s, p) && Owns(s, p, k) && IsRun(s, p, ops)
    ensures var (t, q) := After(s, p, ops);
            PoolInvariant(t, q) && Owns(t, q, k) && q == p.(used := HandedOut(p, ops, p.used))
    decreases |ops|
  {
    if |ops| > 0 {
      var (t, q) := Step(s, p, ops[0]);
      StepKeepsPool(s, p, k, ops[0]);
      HandedOutOf(p, q, ops[1..], q.used);
      RunKeepsPool(t, q, k, ops[1..]);
    }
  }

  /** While the pool is exclusive, no other live block of the arena reaches into its region. */
  lemma RegionIsExclusive(s: State, p: Pool, k: nat, i: nat)
    requires PoolInvariant(s, p) && Owns(s, p, k) && i < |s.live| && i != k
    ensures Disjoint(s.live[i], s.live[k])
  {
    RegionNeighbours(s, p, k);
    if i < k { assert s.live[i] in s.live[..k]; }
  }

  /** So in every run pool_get(i) is, for every slot handed out since the last reset, the slot pool_alloc gave. */
  lemma {:induction false} GetFindsAllocated(
      s: State, p: Pool, k: nat, before: seq<Op>, t: State, q: Pool, r: Pool, after: seq<Op>, i: nat)
    requires PoolInvariant(s, p) && Owns(s, p, k) && IsRun(s, p, before) && After(s, p, before) == (t, q)
    requires i == q.used < q.capacity && r == Alloc(q).0 && IsRun(t, r, after) && i < HandedOut(p, after, i + 1)
    ensures Alloc(q).1 == Some(SlotStart(p, i))
    ensures Get(After(t, r, after).1, i) == Some(SlotStart(p, i))
  {
    RunKeepsPool(s, p, k, before);
    SameSlots(p, q, r, i);
    StepKeepsPool(t, q, k, PoolAlloc);
    HandedOutOf(p, r, after, i + 1);
    HandedOutStays(t, r, k, after, i);
  }

  /** At the end of every run pool_get answers exactly for the slots handed out since the last reset. */
  lemma {:induction false} GetOverRun(s: State, p: Pool, k: nat, ops: seq<Op>, i: nat)
    requires PoolInvariant(s, p) && Owns(s, p, k) && IsRun(s, p, ops)
    ensures Get(After(s, p, ops).1, i) ==
            if i < HandedOut(p, ops, p.used) then Some(p.baseMark + i * p.objectSize) else None
  {
    RunKeepsPool(s, p, k, ops);
    GetAnswers(After(s, p, ops).1, i);
  }

  lemma SameSlots(p: Pool, q: Pool, r: Pool, i: nat)
    requires q == p.(used := q.used) && i == q.used < q.capacity && r == Alloc(q).0
    ensures r.used == i + 1 && r.capacity == p.capacity && SlotStart(r, i) == SlotStart(p, i)
    ensures Alloc(q).1 == Some(SlotStart(p, i))
  {
  }

  /** A slot that counts as handed out at the end of a run is found where it was at the start. */
  lemma {:induction false} HandedOutStays(s: State, p: Pool, k: nat, ops: seq<Op>, i: nat)
    requires PoolInvariant(s, p) && Owns(s, p, k) && IsRun(s, p, ops) && i < HandedOut(p, ops, p.used)
    ensures Get(After(s, p, ops).1, i) == Some(SlotStart(p, i))
  {
    RunKeepsPool(s, p, k, ops);
  }

  lemma {:induction false} HandedOutOf(p: Pool, q: Pool, ops: seq<Op>, since: nat)
    requires p.capacity == q.capacity
    ensures HandedOut(p, ops, since) == HandedOut(q, ops, since)
    decreases |ops|
  {
    if |ops| > 0 {
      HandedOutOf(p, q, ops[1..],
        match ops[0]
        case PoolAlloc => if since < p.capacity then since + 1 else since
        case PoolReset => 0
        case ArenaOp(_) => since);
    }
  }
}

/** The Pool struct and its operations in place. */
module Pools {
  import opened Machine
  import opened Arithmetic
  import opened Bits
  import opened Alignment
  import opened ArenaModel
  import opened Memory
  import PoolModel
  import opened Arenas

  class Pool {
    var arena: Arena?
    var objectSize: Word
    var capacity: nat
    var used: nat
    var baseMark: nat
    var endMark: nat
    ghost var block: nat  // which live block of the arena is the pool's region

    ghost function Model(): PoolModel.Pool
      reads this
    {
      PoolModel.Pool(arena, objectSize, capacity, used, baseMark, endMark)
    }

    ghost predicate Valid()
      reads this, arena
    {
      arena != null && arena.Valid() && PoolModel.Usable(arena.Model(), Model())
    }

    /** No rollback has gone below the pool's end: the region is a live block of the arena. */
    ghost predicate Exclusive()
      reads this, arena
    {
      && Valid()
      && PoolModel.PoolInvariant(arena.Model(), Model())
      && PoolModel.Owns(arena.Model(), Model(), block)
    }

    /** An uninitialized Pool. */
    constructor () {
      arena := null;
    }

    method Init(a: Arena, size: Word, maxObjects: Word) returns (ok: bool)
      requires a.Valid() && size > 0 && maxObjects > 0
      modifies this, a
      ensures a.Valid() && (a.Model(), Model(), ok) == PoolModel.Init(old(a.Model()), old(Model()), a, size, maxObjects)
      ensures ok ==> Exclusive() && arena == a
    {
      ghost var s, p := a.Model(), Model();
      PoolModel.InitReserves(s, p, a, size, maxObjects);
      var aligned := MemAlign(size);
      if aligned == USIZE_MAX { return false; }
      var needed := PoolModel.CheckedMul(aligned, maxObjects);
      if needed == None || needed.value > a.capacity - a.offset { return false; }
      arena := a;
      objectSize := aligned;
      capacity := maxObjects;
      used := 0;
      var region := a.Alloc(needed.value);
      if region == None { return false; }
      baseMark := region.value;
      endMark := a.Mark();
      block := |s.live|;
      ok := true;
    }

    method Alloc() returns (slot: Option<nat>)
      requires Valid()
      modifies this
      ensures Valid() && arena == old(arena) && (Model(), slot) == PoolModel.Alloc(old(Model()))
      ensures old(Exclusive()) ==> Exclusive()
      ensures slot.Some? ==> slot.value + objectSize <= endMark <= arena.mem.Length
      ensures slot.Some? <==> old(used) < capacity
      ensures slot.Some? ==> forall i: nat | i < old(used) :: PoolModel.SlotStart(Model(), i) + objectSize <= slot.value
    {
      ghost var p := Model();
      PoolModel.AllocHandsOut(arena.Model(), p);
      if used >= capacity { return None; }
      OffsetOrder(used, capacity, objectSize);
      slot := Some(Wrap(baseMark + Offset(used, objectSize)));
      used := used + 1;
      forall i: nat | i < p.used ensures PoolModel.SlotStart(Model(), i) == PoolModel.SlotStart(p, i) {}
    }

    method AllocZero() returns (slot: Option<nat>)
      requires Valid()
      modifies this, arena.mem
      ensures Valid() && arena == old(arena) && (Model(), slot) == PoolModel.Alloc(old(Model()))
      ensures old(Exclusive()) ==> Exclusive()
      ensures forall k | 0 <= k < arena.mem.Length :: arena.mem[k] ==
                if slot.Some? && slot.value <= k < slot.value + objectSize then 0 else old(arena.mem[k])
    {
      slot := Alloc();
      if slot.Some? { Zero(arena.mem, slot.value, objectSize); }
    }

    /** The run-time check that the address lies in the reserved region always passes. */
    method Get(i: nat) returns (slot: Option<nat>)
      requires Valid()
      ensures slot == PoolModel.Get(Model(), i)
      ensures slot.Some? ==> baseMark <= slot.value && slot.value + objectSize <= endMark
      ensures slot.Some? <==> i < used
    {
      if i >= used { return None; }
      OffsetOrder(i, capacity, objectSize);
      slot := Some(Wrap(baseMark + Offset(i, objectSize)));
    }

    method Reset()
      requires Valid()
      modifies this, arena
      ensures Exclusive() && arena == old(arena)
      ensures (arena.Model(), Model()) == PoolModel.Reset(old(arena.Model()), old(Model()))
      ensures Model() == old(Model()).(used := 0) && arena.offset == endMark
    {
      PoolModel.ResetReserves(arena.Model(), Model());
      PoolModel.ResetRecovers(arena.Model(), Model());
      PoolModel.RegionSize(arena.Model(), Model());
      arena.ResetTo(baseMark);
      used := 0;
      var needed := Wrap(objectSize * capacity);
      var region := arena.Alloc(needed);
      block := |arena.live| - 1;
    }

    /** The bytes of the slots in use are zeroed, and no other byte of the buffer is touched. */
    method ResetSecure()
      requires Valid()
      modifies this, arena, arena.mem
      ensures Exclusive() && arena == old(arena)
      ensures (arena.Model(), Model()) == PoolModel.Reset(old(arena.Model()), old(Model()))
      ensures forall k | 0 <= k < arena.mem.Length :: arena.mem[k] ==
                if baseMark <= k < old(PoolModel.SlotStart(Model(), used)) then 0 else old(arena.mem[k])
    {
      ZeroUsed();
      Reset();
    }

    /** The zeroing of pool_reset_secure. */
    method ZeroUsed()
      requires Valid()
      modifies arena.mem
      ensures forall k | 0 <= k < arena.mem.Length :: arena.mem[k] ==
                if baseMark <= k < PoolModel.SlotStart(Model(), used) then 0 else old(arena.mem[k])
    {
      if used > 0 {
        OffsetIsProduct(used, objectSize);
        OffsetOrder(used, capacity, objectSize);
        assert objectSize * used == used * objectSize;
        Zero(arena.mem, baseMark, Wrap(objectSize * used));
      }
    }
  }
}
