/** The bump allocator of core/arena.h as a state machine over the blocks it has handed out. */
module ArenaModel {
  import opened Machine
  import opened Arithmetic
  import opened Bits
  import opened Alignment

  /** A block handed out: its offset in the buffer, its size, and the alignment it was asked for. */
  datatype Block = Block(start: nat, size: nat, align: Word) {
    function End(): nat { start + size }
  }

  predicate Disjoint(a: Block, b: Block) {
    a.End() <= b.start || b.End() <= a.start
  }

  /** The Arena's fields, `buffer` as an address, and the blocks not yet released. */
  datatype State = State(buffer: nat, capacity: nat, offset: nat, padding: Word, live: seq<Block>) {
    predicate Valid() {
      && 0 < buffer && buffer + capacity <= USIZE_MAX
      && 0 < capacity
      && offset <= capacity
    }

    /** arena_alloc_aligned's padding, from the address as an integer. */
    function Pad(align: Word): Word
      requires Valid() && align > 0
    {
      AlignPadding(buffer + offset, align)
    }

    /** The three-part guard in wrapping arithmetic; true when the request is refused. */
    predicate Refuses(size: Word, align: Word)
      requires Valid() && align > 0
    {
      || offset > USIZE_MAX - Pad(align)
      || Wrap(offset + Pad(align)) > USIZE_MAX - size
      || Wrap(Wrap(offset + Pad(align)) + size) > capacity
    }

    /** arena_alloc_aligned: the new state and the offset of the block, if any. */
    function Alloc(size: Word, align: Word): (State, Option<nat>)
      requires Valid() && align > 0
    {
      if size == 0 || Refuses(size, align) then (this, None)
      else
        var start := Wrap(offset + Pad(align));
        (this.(offset := Wrap(start + size), padding := Wrap(padding + Pad(align)),
               live := live + [Block(start, size, align)]),
         Some(start))
    }

    /** arena_reset_to, which ends the life of every block that reaches past the mark. */
    function ResetTo(mark: nat): State
      requires mark <= offset
    {
      this.(offset := mark, live := Keep(live, mark))
    }

    function Reset(): State {
      this.(offset := 0, padding := 0, live := [])
    }
  }

  /** The blocks up to the last one that ends at or below the mark. */
  function Keep(live: seq<Block>, mark: nat): (kept: seq<Block>)
    ensures |kept| <= |live| && kept == live[..|kept|]
    ensures |kept| > 0 ==> kept[|kept| - 1].End() <= mark
    decreases |live|
  {
    if |live| == 0 || live[|live| - 1].End() <= mark then live else Keep(live[..|live| - 1], mark)
  }

  /** The guard succeeds exactly when the request fits, over the integers. */
  lemma GuardIsExact(s: State, size: Word, align: Word)
    requires s.Valid() && align > 0
    ensures s.Refuses(size, align) <==> s.offset + s.Pad(align) + size > s.capacity
  {
  }

  // ---------------------------------------------------------------- runs

  datatype Op = OpAlloc(size: Word, align: Word) | OpResetTo(mark: nat) | OpReset

  /** What the calls ask for: a power-of-two alignment, and a mark not ahead of the offset. */
  predicate Admissible(s: State, op: Op) {
    match op
    case OpAlloc(size, align) => IsPowerOfTwo(align)
    case OpResetTo(mark) => mark <= s.offset
    case OpReset => true
  }

  function Step(s: State, op: Op): State
    requires s.Valid() && Admissible(s, op)
  {
    match op
    case OpAlloc(size, align) => s.Alloc(size, align).0
    case OpResetTo(mark) => s.ResetTo(mark)
    case OpReset => s.Reset()
  }

  /** The block is not empty, lies below the bump pointer, and is aligned as requested. */
  predicate Placed(s: State, b: Block) {
    b.size > 0 && b.align > 0 && b.End() <= s.offset && Aligned(s.buffer + b.start, b.align)
  }

  /** Every block lies wholly before the next. */
  ghost predicate Ordered(live: seq<Block>) {
    forall i, j | 0 <= i < j < |live| :: live[i].End() <= live[j].start
  }

  ghost predicate Invariant(s: State) {
    s.Valid() && Ordered(s.live) && forall b | b in s.live :: Placed(s, b)
  }

  /** Live blocks are inside the buffer and pairwise disjoint. */
  lemma LiveBlocksAreDisjoint(s: State, i: nat, j: nat)
    requires Invariant(s) && i < j < |s.live|
    ensures s.live[j].End() <= s.capacity && Disjoint(s.live[i], s.live[j])
  {
    assert s.live[j] in s.live;
  }

  /** What an allocation does: nothing, or a block at the first aligned address at or after the bump pointer. */
  ghost predicate Allocates(s: State, size: nat, align: Word, t: State, r: Option<nat>)
    requires align > 0
  {
    match r
    case None => t == s
    case Some(start) =>
      && size > 0 && s.offset <= start && start + size <= s.capacity
      && Aligned(s.buffer + start, align)
      && (forall x | s.buffer + s.offset <= x < s.buffer + start :: !Aligned(x, align))
      && t == s.(offset := start + size, padding := t.padding, live := s.live + [Block(start, size, align)])
  }

  /** Every call allocates so, and is refused exactly when it asks for nothing or for more than fits. */
  lemma AllocPlaces(s: State, size: Word, align: Word)
    requires s.Valid() && IsPowerOfTwo(align)
    ensures var (t, r) := s.Alloc(size, align);
            && Allocates(s, size, align, t, r)
            && (r == None <==> size == 0 || s.offset + s.Pad(align) + size > s.capacity)
            && (r.Some? ==> r.value == s.offset + s.Pad(align) && t.padding == Wrap(s.padding + s.Pad(align)))
  {
    PaddingIsLeast(s.buffer + s.offset, align);
    GuardIsExact(s, size, align);
  }

  /** The bytes taken are the padding and the block, and the padding is counted. */
  lemma AllocAccounts(s: State, size: Word, align: Word)
    requires s.Valid() && IsPowerOfTwo(align)
    ensures var (t, r) := s.Alloc(size, align);
            && (r == None ==> t.offset == s.offset && t.padding == s.padding)
            && (r.Some? ==>
                  && s.offset <= r.value && t.offset == r.value + size <= s.capacity
                  && t.padding == Wrap(s.padding + (r.value - s.offset)))
  {
    AllocPlaces(s, size, align);
  }

  /** A rollback moves the bump pointer alone, and a reset leaves the arena as it was initialized. */
  lemma RollbackAndReset(s: State, mark: nat)
    requires s.Valid() && mark <= s.offset
    ensures s.ResetTo(mark) == s.(offset := mark, live := s.ResetTo(mark).live)
    ensures s.Reset() == State(s.buffer, s.capacity, 0, 0, []) && Balanced(s.Reset())
  {
  }

  lemma KeptEndBelow(live: seq<Block>, mark: nat, b: Block)
    requires Ordered(live) && b in Keep(live, mark) && forall c | c in live :: c.size > 0
    ensures b.End() <= mark && b in live
  {
    var kept := Keep(live, mark);
    var i :| 0 <= i < |kept| && kept[i] == b;
    var last := live[|kept| - 1];
    assert last in live;
    assert i < |kept| - 1 ==> live[i].End() <= last.start;
  }

  lemma AllocatesKeepsInvariant(s: State, size: nat, align: Word, t: State, r: Option<nat>)
    requires Invariant(s) && align > 0 && Allocates(s, size, align, t, r)
    ensures Invariant(t)
  {
    if r.Some? {
      forall c | c in t.live ensures Placed(t, c) {
        assert c == Block(r.value, size, align) || c in s.live;
      }
      forall i, j | 0 <= i < j < |t.live| ensures t.live[i].End() <= t.live[j].start {
        assert t.live[i] in s.live;
      }
    }
  }

  lemma AllocKeepsInvariant(s: State, size: Word, align: Word)
    requires Invariant(s) && IsPowerOfTwo(align)
    ensures Invariant(s.Alloc(size, align).0)
  {
    AllocPlaces(s, size, align);
    var (t, r) := s.Alloc(size, align);
    AllocatesKeepsInvariant(s, size, align, t, r);
  }

  lemma StepKeepsInvariant(s: State, op: Op)
    requires Invariant(s) && Admissible(s, op)
    ensures Invariant(Step(s, op))
  {
    match op
    case OpAlloc(size, align) => AllocKeepsInvariant(s, size, align);
    case OpResetTo(mark) => ResetKeepsInvariant(s, mark);
    case OpReset =>
  }

  lemma ResetKeepsInvariant(s: State, mark: nat)
    requires Invariant(s) && mark <= s.offset
    ensures Invariant(s.ResetTo(mark))
  {
    var kept := Keep(s.live, mark);
    forall b | b in kept ensures b.End() <= mark && b in s.live {
      KeptEndBelow(s.live, mark, b);
    }
    KeptPlaced(s, s.ResetTo(mark), kept);
  }

  /** Some of the blocks in the same order, under a lower bump pointer they still lie below. */
  lemma KeptPlaced(s: State, t: State, kept: seq<Block>)
    requires Invariant(s) && t == s.(offset := t.offset, live := kept) && t.offset <= s.offset
    requires kept <= s.live && forall b | b in kept :: b.End() <= t.offset && b in s.live
    ensures Invariant(t)
  {
    forall b | b in kept ensures Placed(t, b) { assert Placed(s, b); }
  }

  /** Every call of the run is admissible where it is made. */
  predicate IsRun(s: State, ops: seq<Op>)
    decreases |ops|
  {
    s.Valid() && (|ops| > 0 ==> Admissible(s, ops[0]) && IsRun(Step(s, ops[0]), ops[1..]))
  }

  function After(s: State, ops: seq<Op>): State
    requires IsRun(s, ops)
    decreases |ops|
  {
    if |ops| == 0 then s else After(Step(s, ops[0]), ops[1..])
  }

  /** In every run the live blocks stay inside the buffer, aligned as requested and in order, hence disjoint. */
  lemma {:induction false} RunKeepsInvariant(s: State, ops: seq<Op>)
    requires Invariant(s) && IsRun(s, ops)
    ensures Invariant(After(s, ops))
    decreases |ops|
  {
    if |ops| > 0 {
      StepKeepsInvariant(s, ops[0]);
      RunKeepsInvariant(Step(s, ops[0]), ops[1..]);
    }
  }

  /** No call of the run moves the bump pointer below the mark. */
  predicate StaysAbove(s: State, ops: seq<Op>, mark: nat)
    requires IsRun(s, ops)
    decreases |ops|
  {
    s.offset >= mark && (|ops| > 0 ==> StaysAbove(Step(s, ops[0]), ops[1..], mark))
  }

  /** `before` is still live, below the mark, and everything after it in the list starts at or above the mark. */
  ghost predicate Survives(before: seq<Block>, mark: nat, s: State) {
    && before <= s.live
    && (forall b | b in before :: b.End() <= mark)
    && (forall i | |before| <= i < |s.live| :: s.live[i].start >= mark)
  }

  lemma KeepAtLeast(before: seq<Block>, live: seq<Block>, low: nat, mark: nat)
    requires before <= live && low <= mark && forall b | b in before :: b.End() <= low
    ensures before <= Keep(live, mark)
    decreases |live|
  {
    if |live| > |before| {
      KeepAtLeast(before, live[..|live| - 1], low, mark);
    }
  }

  lemma PositiveMark(before: seq<Block>, mark: nat, s: State)
    requires Invariant(s) && Survives(before, mark, s)
    ensures before != [] ==> mark > 0
  {
    if before != [] {
      assert before[0] in before && before[0] in s.live;
    }
  }

  lemma StepSurvives(before: seq<Block>, mark: nat, s: State, op: Op)
    requires Invariant(s) && Admissible(s, op) && Survives(before, mark, s)
    requires s.offset >= mark && Step(s, op).offset >= mark
    ensures Survives(before, mark, Step(s, op))
  {
    match op
    case OpAlloc(size, align) => AllocPlaces(s, size, align);
    case OpResetTo(m) => KeepAtLeast(before, s.live, mark, m);
    case OpReset => PositiveMark(before, mark, s);
  }

  lemma {:induction false} RunSurvives(before: seq<Block>, mark: nat, s: State, ops: seq<Op>)
    requires Invariant(s) && IsRun(s, ops) && StaysAbove(s, ops, mark) && Survives(before, mark, s)
    ensures Survives(before, mark, After(s, ops)) && After(s, ops).offset >= mark
    decreases |ops|
  {
    if |ops| > 0 {
      var t := Step(s, ops[0]);
      assert StaysAbove(t, ops[1..], mark);
      StepKeepsInvariant(s, ops[0]);
      StepSurvives(before, mark, s, ops[0]);
      RunSurvives(before, mark, t, ops[1..]);
    }
  }

  /** The blocks that end below the mark are kept, and none of the others, given they start at or above it. */
  lemma KeepExactly(before: seq<Block>, live: seq<Block>, mark: nat)
    requires before <= live && forall b | b in before :: b.End() <= mark
    requires forall i | |before| <= i < |live| :: live[i].start >= mark && live[i].size > 0
    ensures Keep(live, mark) == before
    decreases |live|
  {
    if |live| > |before| {
      KeepExactly(before, live[..|live| - 1], mark);
    } else {
      assert live == before;
      if |live| > 0 { assert live[|live| - 1] in before; }
    }
  }

  /**
   * Blocks allocated before a mark are live at every later point of a run that does not go below the mark,
   * every block allocated since lies above them all, and rolling back to the mark leaves exactly them.
   */
  lemma MarkProtects(s: State, ops: seq<Op>)
    requires Invariant(s) && IsRun(s, ops) && StaysAbove(s, ops, s.offset)
    ensures var t := After(s, ops);
            && s.live <= t.live
            && (forall b, i | b in s.live && |s.live| <= i < |t.live| :: Disjoint(b, t.live[i]))
            && s.offset <= t.offset
            && t.ResetTo(s.offset).live == s.live && t.ResetTo(s.offset).offset == s.offset
  {
    var t := After(s, ops);
    RunSurvives(s.live, s.offset, s, ops);
    RunKeepsInvariant(s, ops);
    forall i | |s.live| <= i < |t.live| ensures t.live[i].size > 0 { assert t.live[i] in t.live; }
    KeepExactly(s.live, t.live, s.offset);
  }

  // ---------------------------------------------------------------- accounting

  function TotalSize(live: seq<Block>): nat {
    if |live| == 0 then 0 else TotalSize(live[..|live| - 1]) + live[|live| - 1].size
  }

  /** The bytes consumed are the live blocks and the padding, to the byte. */
  predicate Balanced(s: State) {
    s.offset == s.padding + TotalSize(s.live)
  }

  /** The bytes from the mark up to `top` that lie in no block: what a rollback to the mark gives back beside blocks. */
  function Gaps(live: seq<Block>, mark: nat, top: nat): int
    decreases |live|
  {
    if |live| == 0 || live[|live| - 1].End() <= mark then top - mark
    else
      var last := live[|live| - 1];
      top - last.End() + if last.start <= mark then 0 else Gaps(live[..|live| - 1], mark, last.start)
  }

  /** The bytes below the mark of a block that the mark cuts. */
  function CutBytes(live: seq<Block>, mark: nat): nat
    decreases |live|
  {
    if |live| == 0 || live[|live| - 1].End() <= mark then 0
    else
      var last := live[|live| - 1];
      if last.start <= mark then mark - last.start else CutBytes(live[..|live| - 1], mark)
  }

  /** Every block released ends where the next one starts, the last at `top`, and the first starts at the mark. */
  predicate Gapless(live: seq<Block>, mark: nat, top: nat)
    decreases |live|
  {
    if |live| == 0 || live[|live| - 1].End() <= mark then top == mark
    else
      var last := live[|live| - 1];
      last.End() == top && (last.start == mark || Gapless(live[..|live| - 1], mark, last.start))
  }

  /** The mark lies inside no block. */
  predicate Boundary(live: seq<Block>, mark: nat) {
    forall b | b in live :: b.End() <= mark || mark <= b.start
  }

  /** Blocks of positive size, in order, below `top`. */
  ghost predicate Stacked(live: seq<Block>, top: nat) {
    Ordered(live) && forall b | b in live :: b.size > 0 && b.End() <= top
  }

  lemma StackedBelow(live: seq<Block>, top: nat)
    requires Stacked(live, top) && |live| > 0
    ensures var last := live[|live| - 1];
            last in live && last.size > 0 && last.End() <= top && Stacked(live[..|live| - 1], last.start)
  {
    var init, last := live[..|live| - 1], live[|live| - 1];
    forall b | b in init ensures b.End() <= last.start {
      var i :| 0 <= i < |init| && init[i] == b;
      assert live[i].End() <= live[|live| - 1].start;
    }
  }

  /** What lies between the mark and the top is blocks given back, less what is left of a cut one, and gaps. */
  lemma {:induction false} RollbackAccounts(live: seq<Block>, mark: nat, top: nat)
    requires Stacked(live, top) && mark <= top
    ensures top - mark == TotalSize(live) - TotalSize(Keep(live, mark)) - CutBytes(live, mark) + Gaps(live, mark, top)
    decreases |live|
  {
    if |live| > 0 && live[|live| - 1].End() > mark {
      StackedBelow(live, top);
      var last := live[|live| - 1];
      if last.start > mark {
        RollbackAccounts(live[..|live| - 1], mark, last.start);
      } else {
        KeepsAllBelow(live[..|live| - 1], last.start, mark);
      }
    }
  }

  lemma KeepsAllBelow(live: seq<Block>, top: nat, mark: nat)
    requires Stacked(live, top) && top <= mark
    ensures Keep(live, mark) == live
  {
    if |live| > 0 { StackedBelow(live, top); }
  }

  /** At a boundary no block is cut, and there are no gaps exactly when the released blocks touch all the way. */
  lemma {:induction false} GaplessIsNoGaps(live: seq<Block>, mark: nat, top: nat)
    requires Stacked(live, top) && mark <= top && Boundary(live, mark)
    ensures CutBytes(live, mark) == 0 && Gaps(live, mark, top) >= 0
    ensures Gapless(live, mark, top) <==> Gaps(live, mark, top) == 0
    decreases |live|
  {
    if |live| > 0 && live[|live| - 1].End() > mark {
      StackedBelow(live, top);
      var init, last := live[..|live| - 1], live[|live| - 1];
      assert forall b | b in init :: b in live;
      if last.start > mark { GaplessIsNoGaps(init, mark, last.start); }
    }
  }

  /** A rollback keeps the balance if and only if the padding it gives back is what it leaves of the block it cuts. */
  lemma RollbackBalances(s: State, mark: nat)
    requires Invariant(s) && mark <= s.offset && Balanced(s)
    ensures Balanced(s.ResetTo(mark)) <==> Gaps(s.live, mark, s.offset) == CutBytes(s.live, mark)
    ensures Boundary(s.live, mark) ==> (Balanced(s.ResetTo(mark)) <==> Gapless(s.live, mark, s.offset))
  {
    RollbackAccounts(s.live, mark, s.offset);
    if Boundary(s.live, mark) { GaplessIsNoGaps(s.live, mark, s.offset); }
  }

  predicate KeepsBalance(s: State, op: Op) {
    op.OpResetTo? ==> Gaps(s.live, op.mark, s.offset) == CutBytes(s.live, op.mark)
  }

  lemma AllocBalances(s: State, size: Word, align: Word)
    requires Invariant(s) && IsPowerOfTwo(align) && Balanced(s)
    ensures Balanced(s.Alloc(size, align).0)
  {
    AllocPlaces(s, size, align);
    var t := s.Alloc(size, align).0;
    if t != s {
      assert t.live[..|t.live| - 1] == s.live;
      GuardIsExact(s, size, align);
    }
  }

  /** Every other call keeps the balance. */
  lemma StepBalances(s: State, op: Op)
    requires Invariant(s) && Admissible(s, op) && Balanced(s)
    ensures Balanced(Step(s, op)) <==> KeepsBalance(s, op)
  {
    match op
    case OpAlloc(size, align) => AllocBalances(s, size, align);
    case OpResetTo(mark) => RollbackBalances(s, mark);
    case OpReset =>
  }

  predicate RunKeepsBalance(s: State, ops: seq<Op>)
    requires IsRun(s, ops)
    decreases |ops|
  {
    |ops| > 0 ==> KeepsBalance(s, ops[0]) && RunKeepsBalance(Step(s, ops[0]), ops[1..])
  }

  lemma {:induction false} RunBalances(s: State, ops: seq<Op>)
    requires Invariant(s) && IsRun(s, ops) && Balanced(s) && RunKeepsBalance(s, ops)
    ensures Balanced(After(s, ops))
    decreases |ops|
  {
    if |ops| > 0 {
      StepKeepsInvariant(s, ops[0]);
      StepBalances(s, ops[0]);
      RunBalances(Step(s, ops[0]), ops[1..]);
    }
  }

  /** Undoing an allocation by rolling back to before it keeps the balance if and only if it took no padding. */
  lemma UndoBalances(s: State, size: Word, align: Word)
    requires Invariant(s) && IsPowerOfTwo(align) && Balanced(s) && s.Alloc(size, align).1.Some?
    ensures Balanced(s.Alloc(size, align).0.ResetTo(s.offset)) <==> s.Pad(align) == 0
  {
    AllocPlaces(s, size, align);
    AllocKeepsInvariant(s, size, align);
    AllocBalances(s, size, align);
    var t := s.Alloc(size, align).0;
    OneBlockMore(s.live, Block(s.offset + s.Pad(align), size, align), s.offset);
    RollbackBalances(t, s.offset);
  }

  lemma OneBlockMore(live: seq<Block>, b: Block, mark: nat)
    requires b.size > 0 && mark <= b.start && forall c | c in live :: c.End() <= mark
    ensures Boundary(live + [b], mark)
    ensures Gapless(live + [b], mark, b.End()) <==> b.start == mark
  {
    var more := live + [b];
    assert more[..|more| - 1] == live && more[|more| - 1] == b;
    if |live| > 0 { assert live[|live| - 1] in live; }
    assert Gapless(live, mark, b.start) <==> b.start == mark;
  }

  /** padding_accum is not rolled back: after 1 byte, 4 more aligned to 4, and a rollback to the first, it counts 3. */
  lemma RollbackKeepsPadding(s: State)
    requires s == State(16, 64, 8, 3, [Block(0, 1, 1), Block(4, 4, 4)])
    ensures Balanced(s) && Boundary(s.live, 1)
    ensures s.ResetTo(1) == State(16, 64, 1, 3, [Block(0, 1, 1)]) && !Balanced(s.ResetTo(1))
  {
    var one := Block(0, 1, 1);
    assert s.live[..1] == [one] && [one][..0] == [];
    assert TotalSize([one]) == TotalSize([]) + 1;
    assert TotalSize(s.live) == TotalSize([one]) + 4;
    KeepExactly([one], s.live, 1);
  }
}

/** The Arena struct and its operations in place. */
module Arenas {
  import opened Machine
  import opened Arithmetic
  import opened Bits
  import opened Alignment
  import opened ArenaModel
  import opened Memory

  class Arena {
    const buffer: nat         // the address of the block managed
    const mem: array<Byte>    // its bytes
    const capacity: nat
    var offset: nat
    var padding: Word
    ghost var live: seq<Block>

    ghost predicate Valid()
      reads this
    {
      mem.Length == capacity && Model().Valid() && ArenaModel.Invariant(Model())
    }

    ghost function Model(): State
      reads this
    {
      State(buffer, capacity, offset, padding, live)
    }

    constructor (buffer: nat, mem: array<Byte>)
      requires 0 < mem.Length
      requires 0 < buffer && buffer + mem.Length <= USIZE_MAX
      ensures Valid() && Model() == State(buffer, mem.Length, 0, 0, []) && this.mem == mem
    {
      this.buffer := buffer;
      this.mem := mem;
      capacity := mem.Length;
      offset := 0;
      padding := 0;
      live := [];
    }

    method AllocAligned(size: Word, align: Word) returns (r: Option<nat>)
      requires Valid() && IsPowerOfTwo(align)
      modifies this
      ensures Valid() && (Model(), r) == old(Model()).Alloc(size, align)
      ensures r == None ==> offset == old(offset) && padding == old(padding)
      ensures r.Some? ==>
                && old(offset) <= r.value && offset == r.value + size <= capacity
                && padding == Wrap(old(padding) + (r.value - old(offset)))
    {
      ghost var s := Model();
      AllocKeepsInvariant(s, size, align);
      AllocAccounts(s, size, align);
      if size == 0 { return None; }
      var pad := AlignPadding(buffer + offset, align);
      if || offset > USIZE_MAX - pad
         || Wrap(offset + pad) > USIZE_MAX - size
         || Wrap(Wrap(offset + pad) + size) > capacity
      {
        assert s.Refuses(size, align);
        return None;
      }
      assert !s.Refuses(size, align);
      offset := Wrap(offset + pad);
      padding := Wrap(padding + pad);
      r := Some(offset);
      live := live + [Block(offset, size, align)];
      offset := Wrap(offset + size);
      assert (Model(), r) == s.Alloc(size, align);
    }

    method Alloc(size: Word) returns (r: Option<nat>)
      requires Valid()
      modifies this
      ensures Valid() && (Model(), r) == old(Model()).Alloc(size, DEFAULT_ALIGN)
    {
      DefaultAlignIsPowerOfTwo();
      r := AllocAligned(size, DEFAULT_ALIGN);
    }

    /** arena_alloc_aligned_zero: the block is zeroed and no other byte of the buffer is touched. */
    method AllocAlignedZero(size: Word, align: Word) returns (r: Option<nat>)
      requires Valid() && IsPowerOfTwo(align)
      modifies this, mem
      ensures Valid() && (Model(), r) == old(Model()).Alloc(size, align)
      ensures forall k | 0 <= k < mem.Length ::
                mem[k] == if r.Some? && r.value <= k < r.value + size then 0 else old(mem[k])
    {
      AllocPlaces(Model(), size, align);
      r := AllocAligned(size, align);
      if r.Some? { Zero(mem, r.value, size); }
    }

    method Reset()
      requires Valid()
      modifies this
      ensures Valid() && Model() == old(Model()).Reset()
      ensures offset == 0 && padding == 0 && live == []
    {
      offset, padding, live := 0, 0, [];
    }

    method Mark() returns (mark: nat)
      requires Valid()
      ensures mark == offset
    {
      mark := offset;
    }

    method ResetTo(mark: nat)
      requires Valid() && mark <= offset
      modifies this
      ensures Valid() && Model() == old(Model()).ResetTo(mark)
      ensures offset == mark && padding == old(padding)
    {
      StepKeepsInvariant(Model(), OpResetTo(mark));
      live := Keep(live, mark);
      offset := mark;
    }
  }
}
