/** The fixed-capacity priority queue of data/priority_queue.h: a buffer the caller owns and its live length. */
module PriorityQueueState {
  import opened Machine
  import opened Heap

  /** A queue as a value: the whole buffer, its first `len` slots live. */
  datatype Queue<T> = Queue(buffer: seq<T>, len: nat) {
    ghost predicate Valid() {
      len <= |buffer|
    }

    function Live(): seq<T>
      requires Valid()
    {
      buffer[..len]
    }

    /** The queue with live contents s, the slots from |s| on as they were. */
    function With(s: seq<T>): (q: Queue<T>)
      requires |s| <= |buffer|
      ensures q.Valid() && q.Live() == s && |q.buffer| == |buffer|
    {
      Queue(s + buffer[|s|..], |s|)
    }
  }

  datatype Op<T> =
    | OpPush(x: T)
    | OpPop
    | OpPeek
    | OpRemoveAt(i: nat)
    | OpHeapify(fill: seq<T>, n: nat)  // the caller writes `fill` at the front of the buffer, then calls pq_heapify(n)

  datatype Outcome<T> = Status(r: Result) | Item(x: Option<T>) | Nothing

  function PushStep<T>(cmp: (T, T) -> int, q: Queue<T>, x: T): (Queue<T>, Result)
    requires q.Valid()
  {
    if q.len >= |q.buffer| then (q, Err(CapacityExceeded)) else (q.With(Push(cmp, q.Live(), x)), Ok)
  }

  function PopStep<T>(cmp: (T, T) -> int, q: Queue<T>): (Queue<T>, Option<T>)
    requires q.Valid()
  {
    if q.len == 0 then (q, None) else (q.With(Pop(cmp, q.Live())), Some(q.buffer[0]))
  }

  function RemoveAtStep<T>(cmp: (T, T) -> int, q: Queue<T>, i: nat): (Queue<T>, Result)
    requires q.Valid()
  {
    if i >= q.len then (q, Err(OutOfRange)) else (q.With(RemoveAt(cmp, q.Live(), i)), Ok)
  }

  function HeapifyStep<T>(cmp: (T, T) -> int, q: Queue<T>, n: nat): Queue<T>
    requires q.Valid()
  {
    q.With(Heapify(cmp, q.buffer[..Min(n, |q.buffer|)]))
  }

  /** The caller's write of `fill` over the front of the buffer, as far as the buffer goes. */
  function Fill<T>(q: Queue<T>, fill: seq<T>): (r: Queue<T>)
    requires q.Valid()
    ensures r.Valid() && |r.buffer| == |q.buffer|
    ensures forall j | 0 <= j < |r.buffer| :: r.buffer[j] == if j < |fill| then fill[j] else q.buffer[j]
  {
    var k := Min(|fill|, |q.buffer|);
    Queue(fill[..k] + q.buffer[k..], q.len)
  }

  function Step<T>(cmp: (T, T) -> int, q: Queue<T>, op: Op<T>): (r: (Queue<T>, Outcome<T>))
    requires q.Valid()
    ensures r.0.Valid() && |r.0.buffer| == |q.buffer|
  {
    match op
    case OpPush(x) => var (q', r) := PushStep(cmp, q, x); (q', Status(r))
    case OpPop => var (q', x) := PopStep(cmp, q); (q', Item(x))
    case OpPeek => (q, Item(if q.len == 0 then None else Some(q.buffer[0])))
    case OpRemoveAt(i) => var (q', r) := RemoveAtStep(cmp, q, i); (q', Status(r))
    case OpHeapify(fill, n) => (HeapifyStep(cmp, Fill(q, fill), n), Nothing)
  }

  /** What one operation may do to a bounded multiset of elements. */
  ghost predicate BagStep<T>(cmp: (T, T) -> int, cap: nat, q: Queue<T>, op: Op<T>, out: Outcome<T>, q': Queue<T>)
    requires q.Valid() && q'.Valid() && cap == |q.buffer|
  {
    var m, m' := multiset(q.Live()), multiset(q'.Live());
    match op
    case OpPush(x) =>
      if |m| < cap then out == Status(Ok) && m' == m + multiset{x}
      else out == Status(Err(CapacityExceeded)) && q' == q
    case OpPop =>
      if |m| == 0 then out == Item(None) && q' == q
      else out.Item? && out.x.Some? && Least(cmp, out.x.value, m) && m' == m - multiset{out.x.value}
    case OpPeek =>
      && q' == q
      && if |m| == 0 then out == Item(None) else out.Item? && out.x.Some? && Least(cmp, out.x.value, m)
    case OpRemoveAt(i) =>
      if i < |m| then out == Status(Ok) && m' == m - multiset{q.Live()[i]}
      else out == Status(Err(OutOfRange)) && q' == q
    case OpHeapify(fill, n) =>
      m' == multiset(Fill(q, fill).buffer[..Min(n, cap)])
  }

  lemma HeapifyRefinesBag<T(!new)>(cmp: (T, T) -> int, q: Queue<T>, fill: seq<T>, n: nat)
    requires TotalPreorder(cmp) && q.Valid()
    ensures var q', t := HeapifyStep(cmp, Fill(q, fill), n), Fill(q, fill).buffer[..Min(n, |q.buffer|)];
            IsHeap(cmp, q'.Live()) && multiset(q'.Live()) == multiset(t)
  {
    var t := Fill(q, fill).buffer[..Min(n, |q.buffer|)];
    HeapifyRestores(cmp, t);
    HeapifyContents(cmp, t);
  }

  lemma StepRefinesBag<T(!new)>(cmp: (T, T) -> int, q: Queue<T>, op: Op<T>)
    requires TotalPreorder(cmp) && q.Valid() && IsHeap(cmp, q.Live())
    ensures IsHeap(cmp, Step(cmp, q, op).0.Live())
    ensures BagStep(cmp, |q.buffer|, q, op, Step(cmp, q, op).1, Step(cmp, q, op).0)
  {
    var s := q.Live();
    if |s| > 0 { RootIsLeast(cmp, s); }
    match op
    case OpPush(x) =>
      if q.len < |q.buffer| {
        PushRestores(cmp, s, x);
        PushContents(cmp, s, x);
      }
    case OpPop =>
      if q.len > 0 {
        PopRestores(cmp, s);
        PopContents(cmp, s);
      }
    case OpPeek =>
    case OpRemoveAt(i) =>
      if i < q.len {
        RemoveAtRestores(cmp, s, i);
        RemoveAtContents(cmp, s, i);
      }
    case OpHeapify(fill, n) => HeapifyRefinesBag(cmp, q, fill, n);
  }

  /** The states of a run, the first included. */
  function Run<T>(cmp: (T, T) -> int, q: Queue<T>, ops: seq<Op<T>>): (qs: seq<Queue<T>>)
    requires q.Valid()
    ensures |qs| == |ops| + 1 && qs[0] == q
    ensures forall k | 0 <= k < |qs| :: qs[k].Valid() && |qs[k].buffer| == |q.buffer|
    decreases |ops|
  {
    if |ops| == 0 then [q] else [q] + Run(cmp, Step(cmp, q, ops[0]).0, ops[1..])
  }

  /** In every run the queue is a heap throughout and every operation acts as on a bounded multiset. */
  lemma {:induction false} RunRefinesBag<T(!new)>(cmp: (T, T) -> int, q: Queue<T>, ops: seq<Op<T>>)
    requires TotalPreorder(cmp) && q.Valid() && IsHeap(cmp, q.Live())
    ensures forall k | 0 <= k <= |ops| :: IsHeap(cmp, Run(cmp, q, ops)[k].Live())
    ensures forall k | 0 <= k < |ops| ::
              var qs := Run(cmp, q, ops);
              && qs[k + 1] == Step(cmp, qs[k], ops[k]).0
              && BagStep(cmp, |q.buffer|, qs[k], ops[k], Step(cmp, qs[k], ops[k]).1, qs[k + 1])
    decreases |ops|
  {
    if |ops| > 0 {
      StepRefinesBag(cmp, q, ops[0]);
      var q1 := Step(cmp, q, ops[0]).0;
      RunRefinesBag(cmp, q1, ops[1..]);
      var qs, rest := Run(cmp, q, ops), Run(cmp, q1, ops[1..]);
      assert qs == [q] + rest;
      forall k | 0 <= k < |ops|
        ensures qs[k + 1] == Step(cmp, qs[k], ops[k]).0
        ensures BagStep(cmp, |q.buffer|, qs[k], ops[k], Step(cmp, qs[k], ops[k]).1, qs[k + 1])
      {
        if k > 0 { assert qs[k] == rest[k - 1] && ops[k] == ops[1..][k - 1]; }
      }
    }
  }

  /** After pq_init the queue is empty, so every run from it is covered. */
  lemma RunFromInit<T(!new)>(cmp: (T, T) -> int, buffer: seq<T>, ops: seq<Op<T>>)
    requires TotalPreorder(cmp)
    ensures forall k | 0 <= k <= |ops| :: IsHeap(cmp, Run(cmp, Queue(buffer, 0), ops)[k].Live())
  {
    RunRefinesBag(cmp, Queue(buffer, 0), ops);
  }

  // ---------------------------------------------------------------- draining

  /** The answers of a run. */
  function Outcomes<T>(cmp: (T, T) -> int, q: Queue<T>, ops: seq<Op<T>>): (out: seq<Outcome<T>>)
    requires q.Valid()
    ensures |out| == |ops|
    decreases |ops|
  {
    if |ops| == 0 then [] else var (t, r) := Step(cmp, q, ops[0]); [r] + Outcomes(cmp, t, ops[1..])
  }

  function Pops<T>(n: nat): (ops: seq<Op<T>>)
    ensures |ops| == n && forall k | 0 <= k < n :: ops[k] == OpPop
  {
    if n == 0 then [] else [OpPop] + Pops(n - 1)
  }

  /** As many pops as there are elements answer with the drained heap, one element each. */
  lemma {:induction false} PopsDrain<T>(cmp: (T, T) -> int, q: Queue<T>, n: nat)
    requires q.Valid() && n == q.len
    ensures forall k | 0 <= k < n :: Outcomes(cmp, q, Pops(n))[k] == Item(Some(Drain(cmp, q.Live())[k]))
    decreases n
  {
    if n > 0 {
      var t := PopStep(cmp, q).0;
      PopsDrain(cmp, t, n - 1);
      NextPop(cmp, q, n);
    }
  }

  lemma {:induction false} NextPop<T>(cmp: (T, T) -> int, q: Queue<T>, n: nat)
    requires q.Valid() && n == q.len > 0
    ensures var (t, x) := PopStep(cmp, q);
            && t.Valid() && t.len == n - 1
            && Outcomes(cmp, q, Pops(n)) == [Item(x)] + Outcomes(cmp, t, Pops(n - 1))
            && x.Some? && Drain(cmp, q.Live()) == [x.value] + Drain(cmp, t.Live())
  {
    assert Pops<T>(n)[0] == OpPop && Pops<T>(n)[1..] == Pops(n - 1);
  }

  /** At the end of every run from an initialized queue, draining it yields a sorted permutation of what it holds. */
  lemma RunThenDrain<T(!new)>(cmp: (T, T) -> int, buffer: seq<T>, ops: seq<Op<T>>)
    requires TotalPreorder(cmp)
    ensures var q := Run(cmp, Queue(buffer, 0), ops)[|ops|];
            exists d: seq<T> ::
              && |d| == q.len && Sorted(cmp, d) && multiset(d) == multiset(q.Live())
              && forall k | 0 <= k < q.len :: Outcomes(cmp, q, Pops(q.len))[k] == Item(Some(d[k]))
  {
    var q := Run(cmp, Queue(buffer, 0), ops)[|ops|];
    RunFromInit(cmp, buffer, ops);
    DrainSorts(cmp, q.Live());
    PopsDrain(cmp, q, q.len);
    var d := Drain(cmp, q.Live());
    assert |d| == q.len && Sorted(cmp, d) && multiset(d) == multiset(q.Live());
  }
}

module PriorityQueues {
  import opened Machine
  import opened PriorityQueueState
  import H = Heap
  import opened HeapCost

  /** Children as the source computes them, in wrapping unsigned arithmetic. */
  function LeftChild(i: nat): nat { Wrap(2 * i + 1) }

  function RightChild(i: nat): nat { Wrap(2 * i + 2) }

  /** The largest capacity whose child indices cannot wrap; the header's own bound is one less. */
  const MAX_CAPACITY: int := USIZE_MAX / 2

  /** The right child of i is 2i + 2 if and only if i is below the bound, and then the left one is 2i + 1. */
  lemma ChildBoundIsExact(i: nat)
    requires i <= USIZE_MAX
    ensures RightChild(i) == 2 * i + 2 <==> i < MAX_CAPACITY
    ensures i < MAX_CAPACITY ==> LeftChild(i) == 2 * i + 1
  {
    if i >= MAX_CAPACITY {
      assert 2 * i + 2 >= USIZE_MOD;
    }
  }

  /** No child index of a queue wraps if and only if its capacity is within the bound. */
  lemma CapacityBoundIsExact(capacity: nat)
    requires capacity <= USIZE_MAX
    ensures (forall i: nat | i < capacity :: LeftChild(i) == 2 * i + 1 && RightChild(i) == 2 * i + 2)
            <==> capacity <= MAX_CAPACITY
  {
    forall i: nat | i < capacity
      ensures capacity <= MAX_CAPACITY ==> LeftChild(i) == 2 * i + 1 && RightChild(i) == 2 * i + 2
    {
      ChildBoundIsExact(i);
    }
    if capacity > MAX_CAPACITY {
      ChildBoundIsExact(capacity - 1);
      assert RightChild(capacity - 1) != 2 * (capacity - 1) + 2;
    }
  }

  class PriorityQueue<T(!new)> {
    const data: array<T>  // the caller's buffer, one slot an element
    const capacity: nat
    const cmp: (T, T) -> int
    var len: nat
    ghost var cost: Cost  // swaps done and comparator calls made since initialization

    ghost predicate Valid()
      reads this
    {
      len <= capacity == data.Length && 0 < capacity <= MAX_CAPACITY
    }

    ghost function State(): (q: Queue<T>)
      requires Valid()
      reads this, data
      ensures q.Valid() && |q.buffer| == capacity && q.Live() == Live()
    {
      Queue(data[..], len)
    }

    ghost function Live(): (s: seq<T>)
      requires Valid()
      reads this, data
      ensures |s| == len
    {
      data[..len]
    }

    /** The slots from n on are as they were. */
    twostate predicate Framed(n: nat)
      requires n <= data.Length
      reads data
    {
      data[n..] == old(data[n..])
    }

    /** A framed change is described by the live contents alone. */
    twostate lemma StateFromLive()
      requires old(Valid()) && Valid() && Framed(len)
      ensures State() == old(State()).With(Live())
    {
      assert data[..] == data[..len] + data[len..];
      assert old(data[..])[len..] == old(data[len..]);
    }

    constructor (buffer: array<T>, cmp: (T, T) -> int)
      requires 0 < buffer.Length <= MAX_CAPACITY
      ensures Valid() && data == buffer && State() == Queue(buffer[..], 0)
      ensures this.cmp == cmp && cost == FREE
    {
      data := buffer;
      capacity := buffer.Length;
      this.cmp := cmp;
      len := 0;
      cost := FREE;
    }

    method Compare(a: nat, b: nat) returns (r: int)
      requires Valid() && a < len && b < len
      modifies `cost
      ensures r == cmp(data[a], data[b])
      ensures cost == old(cost).Plus(Cost(0, 1))
    {
      cost := cost.Plus(Cost(0, 1));
      r := cmp(data[a], data[b]);
    }

    method Swap(a: nat, b: nat)
      requires Valid() && a < len && b < len
      modifies `cost, data
      ensures Live() == H.Swap(old(Live()), a, b) && Framed(len)
      ensures cost == old(cost).Plus(if a == b then FREE else Cost(1, 0))
    {
      if a == b { return; }
      data[a], data[b] := data[b], data[a];
      cost := cost.Plus(Cost(1, 0));
    }

    method SiftUp(i: nat)
      requires Valid() && i < len
      modifies `cost, data
      ensures Live() == H.SiftUp(cmp, old(Live()), i) && Framed(len)
      ensures cost == old(cost).Plus(SiftUpCost(cmp, old(Live()), i))
    {
      var idx := i;
      while idx > 0
        invariant 0 <= idx <= i && Framed(len)
        invariant H.SiftUp(cmp, Live(), idx) == H.SiftUp(cmp, old(Live()), i)
        invariant cost.Plus(SiftUpCost(cmp, Live(), idx)) == old(cost).Plus(SiftUpCost(cmp, old(Live()), i))
      {
        var p := H.Parent(idx);
        var c := Compare(p, idx);
        if c <= 0 { break; }
        Swap(p, idx);
        idx := p;
      }
    }

    /** The comparisons of one sift-down iteration. */
    method FindSmallest(idx: nat) returns (smallest: nat)
      requires Valid() && idx < len
      modifies `cost
      ensures smallest == H.Smallest(cmp, Live(), idx)
      ensures cost == old(cost).Plus(Cost(0, SmallestCompares(len, idx)))
    {
      ChildBoundIsExact(idx);
      smallest := idx;
      var left, right := LeftChild(idx), RightChild(idx);
      if left < len {
        var c := Compare(left, smallest);
        if c < 0 { smallest := left; }
      }
      if right < len {
        var c := Compare(right, smallest);
        if c < 0 { smallest := right; }
      }
    }

    method SiftDown(i: nat)
      requires Valid() && i < len
      modifies `cost, data
      ensures Live() == H.SiftDown(cmp, old(Live()), i) && Framed(len)
      ensures cost == old(cost).Plus(SiftDownCost(cmp, old(Live()), i))
    {
      var idx := i;
      while true
        invariant 0 <= idx < len && Framed(len)
        invariant H.SiftDown(cmp, Live(), idx) == H.SiftDown(cmp, old(Live()), i)
        invariant cost.Plus(SiftDownCost(cmp, Live(), idx)) == old(cost).Plus(SiftDownCost(cmp, old(Live()), i))
        decreases len - idx
      {
        var smallest := FindSmallest(idx);
        if smallest == idx { break; }
        Swap(idx, smallest);
        idx := smallest;
      }
    }

    /** Floyd's loop over the live slots. */
    method Floyd()
      requires Valid() && len >= 2
      modifies `cost, data
      ensures Live() == H.Heapify(cmp, old(Live())) && Framed(len)
      ensures cost == old(cost).Plus(HeapifyCost(cmp, old(Live())))
    {
      ghost var s, c := Live(), cost;
      var i := H.Parent(len - 1) + 1;
      while i > 0
        invariant 0 <= i <= len
        invariant Framed(len)
        invariant H.Floyd(cmp, Live(), i) == H.Heapify(cmp, s)
        invariant cost.Plus(FloydCost(cmp, Live(), i)) == c.Plus(HeapifyCost(cmp, s))
      {
        ghost var t, d := Live(), cost;
        i := i - 1;
        SiftDown(i);
        NextFloydCost(cmp, t, i, Live());
        PlusIsAssociative(d, SiftDownCost(cmp, t, i), FloydCost(cmp, Live(), i));
      }
    }

    method Heapify(n: nat)
      requires Valid()
      modifies `len, `cost, data
      ensures Valid() && Framed(len)
      ensures State() == HeapifyStep(cmp, old(State()), n)
      ensures cost == old(cost).Plus(HeapifyCost(cmp, old(State()).buffer[..len]))
    {
      if n == 0 {
        len := 0;
        StateFromLive();
        return;
      }
      len := if n > capacity then capacity else n;
      assert Live() == old(State()).buffer[..len];
      if len >= 2 { Floyd(); }
      StateFromLive();
    }

    method Push(x: T) returns (r: Result)
      requires Valid()
      modifies `len, `cost, data
      ensures Valid() && Framed(len)
      ensures (State(), r) == PushStep(cmp, old(State()), x)
      ensures r.Ok? ==> cost == old(cost).Plus(SiftUpCost(cmp, old(Live()) + [x], old(len)))
    {
      if len >= capacity { return Err(CapacityExceeded); }
      ghost var s := Live();
      data[len] := x;
      len := len + 1;
      assert Live() == s + [x];
      SiftUp(len - 1);
      assert Live() == H.Push(cmp, s, x);
      StateFromLive();
      r := Ok;
    }

    method Pop() returns (out: Option<T>)
      requires Valid()
      modifies `len, `cost, data
      ensures Valid() && Framed(len)
      ensures (State(), out) == PopStep(cmp, old(State()))
      ensures out.Some? ==> cost == old(cost).Plus(PopCost(cmp, old(Live())))
    {
      if len == 0 { return None; }
      ghost var s := Live();
      out := Some(data[0]);
      len := len - 1;
      if len > 0 {
        data[0] := data[len];
        assert Live() == s[..len][0 := s[len]];
        SiftDown(0);
      }
      assert Live() == H.Pop(cmp, s);
      StateFromLive();
    }

    method Peek() returns (top: Option<T>)
      requires Valid()
      ensures (State(), Item(top)) == Step(cmp, State(), OpPeek)
    {
      if len == 0 { return None; }
      top := Some(data[0]);
    }

    method SiftBoth(i: nat)
      requires Valid() && i < len
      modifies `cost, data
      ensures Live() == H.SiftDown(cmp, H.SiftUp(cmp, old(Live()), i), i) && Framed(len)
      ensures cost == old(cost).Plus(SiftBothCost(cmp, old(Live()), i))
    {
      ghost var s, c := Live(), cost;
      SiftUp(i);
      ghost var t := Live();
      assert t == H.SiftUp(cmp, s, i) && cost == c.Plus(SiftUpCost(cmp, s, i));
      SiftDown(i);
      assert Live() == H.SiftDown(cmp, t, i);
      PlusIsAssociative(c, SiftUpCost(cmp, s, i), SiftDownCost(cmp, t, i));
    }

    /** The element behind the live ones moves into slot i, and from there to where it belongs. */
    method Replace(i: nat)
      requires Valid() && i < len < capacity
      modifies `cost, data
      ensures Framed(len)
      ensures var t := old(Live())[i := old(data[len])];
              && Live() == H.SiftDown(cmp, H.SiftUp(cmp, t, i), i)
              && cost == old(cost).Plus(SiftBothCost(cmp, t, i))
    {
      ghost var t := Live()[i := data[len]];
      data[i] := data[len];
      assert Live() == t;
      SiftBoth(i);
    }

    method RemoveAt(i: nat) returns (r: Result)
      requires Valid()
      modifies `len, `cost, data
      ensures Valid() && Framed(len)
      ensures (State(), r) == RemoveAtStep(cmp, old(State()), i)
      ensures r.Ok? ==> cost == old(cost).Plus(RemoveAtCost(cmp, old(Live()), i))
    {
      if i >= len { return Err(OutOfRange); }
      ghost var s, c := Live(), cost;
      len := len - 1;
      r := Ok;
      ghost var t := s[..|s| - 1];
      assert Live() == t && |t| == len;
      if i < len {
        assert data[len] == s[|t|];
        Replace(i);
      }
      RemoveAtIs(cmp, s, i, t, Live(), c, cost);
      StateFromLive();
    }
  }
}
