/** What the queue needs of a comparator, against what core/primitives/compare.h lists. */
module ComparatorContract {
  import opened Heap
  import opened PriorityQueueState

  /** The listed clauses: nothing is said of how ties compose, nor of the reverse of a positive answer. */
  ghost predicate DocumentedOrder<T(!new)>(cmp: (T, T) -> int) {
    && (forall x :: cmp(x, x) == 0)
    && (forall x, y :: cmp(x, y) < 0 ==> cmp(y, x) > 0)
    && (forall x, y, z :: cmp(x, y) < 0 && cmp(y, z) < 0 ==> cmp(x, z) < 0)
  }

  /** Orders integers that are two or more apart and ties the others. */
  function FarApart(x: int, y: int): int {
    if x + 2 <= y then -1 else if y + 2 <= x then 1 else 0
  }

  /** The clauses are not enough for the top: pushes make a heap whose top is not least. */
  lemma DocumentedOrderIsTooWeak()
    ensures DocumentedOrder(FarApart)
    ensures Push(FarApart, [2], 1) == [2, 1]
    ensures Push(FarApart, [2, 1], 1) == [2, 1, 1]
    ensures Push(FarApart, [2, 1, 1], 0) == [2, 1, 1, 0]
    ensures IsHeap(FarApart, [2, 1, 1, 0]) && FarApart(0, [2, 1, 1, 0][0]) < 0
  {
  }

  /** Nor for heap order: one more push breaks it. */
  lemma DocumentedOrderLosesHeap()
    ensures IsHeap(FarApart, [2, 1, 1, 0])
    ensures Push(FarApart, [2, 1, 1, 0], -1) == [-1, 2, 1, 0, 1]
    ensures !IsHeap(FarApart, [-1, 2, 1, 0, 1])
  {
    var s := [2, 1, 1, 0, -1];
    assert Swap(s, 1, 4) == [2, -1, 1, 0, 1];
    assert Swap([2, -1, 1, 0, 1], 0, 1) == [-1, 2, 1, 0, 1];
    assert SiftUp(FarApart, [-1, 2, 1, 0, 1], 0) == [-1, 2, 1, 0, 1];
    assert SiftUp(FarApart, [2, -1, 1, 0, 1], 1) == [-1, 2, 1, 0, 1];
    assert !Edge(FarApart, [-1, 2, 1, 0, 1], 3);
  }

  // ---------------------------------------------------------------- exactly when

  ghost predicate AllHeaps<T>(cmp: (T, T) -> int, qs: seq<Queue<T>>) {
    forall q | q in qs :: q.Valid() && IsHeap(cmp, q.Live())
  }

  ghost predicate AllTopsLeast<T>(cmp: (T, T) -> int, qs: seq<Queue<T>>) {
    forall q | q in qs :: q.Valid() && (q.len > 0 ==> Least(cmp, q.buffer[0], multiset(q.Live())))
  }

  /** Heap order holds throughout every run of an initialized queue. */
  ghost predicate OrderHolds<T(!new)>(cmp: (T, T) -> int) {
    forall buffer: seq<T>, ops: seq<Op<T>> :: AllHeaps(cmp, Run(cmp, Queue(buffer, 0), ops))
  }

  /** Throughout every run of an initialized queue its top is least. */
  ghost predicate TopsAreLeast<T(!new)>(cmp: (T, T) -> int) {
    forall buffer: seq<T>, ops: seq<Op<T>> :: AllTopsLeast(cmp, Run(cmp, Queue(buffer, 0), ops))
  }

  lemma SmallestOfHeap<T(!new)>(cmp: (T, T) -> int, s: seq<T>, i: nat)
    requires DocumentedOrder(cmp) && IsHeap(cmp, s) && i < |s|
    ensures Smallest(cmp, s, i) == i
  {
    if 2 * i + 1 < |s| { assert Edge(cmp, s, 2 * i + 1); }
    if 2 * i + 2 < |s| { assert Edge(cmp, s, 2 * i + 2); }
  }

  lemma {:induction false} FloydOfHeap<T(!new)>(cmp: (T, T) -> int, s: seq<T>, k: nat)
    requires DocumentedOrder(cmp) && IsHeap(cmp, s) && k <= |s|
    ensures Floyd(cmp, s, k) == s
    decreases k
  {
    if k > 0 {
      SmallestOfHeap(cmp, s, k - 1);
      FloydOfHeap(cmp, s, k - 1);
    }
  }

  lemma {:induction false} TwoSteps<T>(cmp: (T, T) -> int, q: Queue<T>, a: Op<T>, b: Op<T>)
    requires q.Valid()
    ensures var q1 := Step(cmp, q, a).0; Run(cmp, q, [a, b]) == [q, q1, Step(cmp, q1, b).0]
  {
    var q1 := Step(cmp, q, a).0;
    var q2 := Step(cmp, q1, b).0;
    assert [a, b][1..] == [b] && [b][1..] == [];
    assert Run(cmp, q2, []) == [q2];
    assert Run(cmp, q1, [b]) == [q1] + [q2];
  }

  /** The queue after heapifying a buffer, and after one removal from it. */
  lemma {:induction false} HeapifyRun<T(!new)>(cmp: (T, T) -> int, s: seq<T>, i: nat)
    requires i < |s|
    ensures var h, qs := Heapify(cmp, s), Run(cmp, Queue(s, 0), [OpHeapify([], |s|), OpRemoveAt(i)]);
            && |qs| == 3 && qs[1].Valid() && qs[1].Live() == h
            && qs[2].Valid() && qs[2].Live() == RemoveAt(cmp, h, i)
  {
    TwoSteps(cmp, Queue(s, 0), OpHeapify([], |s|), OpRemoveAt(i));
    HeapifyWhole(cmp, s);
  }

  lemma HeapifyWhole<T>(cmp: (T, T) -> int, s: seq<T>)
    ensures var t := Step(cmp, Queue(s, 0), OpHeapify([], |s|)).0;
            t.Valid() && t.Live() == Heapify(cmp, s)
  {
    var q := Queue(s, 0);
    assert Fill(q, []) == q && q.buffer[..|s|] == s;
  }

  /** A positive answer whose reverse is not negative: two elements defeat heapify. */
  lemma OneSided<T(!new)>(cmp: (T, T) -> int, x: T, y: T)
    requires cmp(x, y) > 0 && cmp(y, x) >= 0
    ensures !OrderHolds(cmp) && !TopsAreLeast(cmp)
  {
    var s := [x, y];
    assert Smallest(cmp, s, 0) == 0;
    assert Heapify(cmp, s) == s by { assert Floyd(cmp, s, 1) == Floyd(cmp, SiftDown(cmp, s, 0), 0); }
    Defeats(cmp, s, 0);
    assert !Edge(cmp, s, 1);
    assert y == s[1] && y in multiset(s);
  }

  /** A heapified buffer, or one removal from it, that is no heap or has no least top. */
  lemma Defeats<T(!new)>(cmp: (T, T) -> int, s: seq<T>, i: nat)
    requires i < |s|
    ensures var h := Heapify(cmp, s);
            && (OrderHolds(cmp) ==> IsHeap(cmp, h) && IsHeap(cmp, RemoveAt(cmp, h, i)))
            && (TopsAreLeast(cmp) ==> Least(cmp, h[0], multiset(h)))
  {
    HeapifyRun(cmp, s, i);
    var qs := Run(cmp, Queue(s, 0), [OpHeapify([], |s|), OpRemoveAt(i)]);
    assert qs[1] in qs && qs[2] in qs;
    assert OrderHolds(cmp) ==> AllHeaps(cmp, qs);
    assert TopsAreLeast(cmp) ==> AllTopsLeast(cmp, qs);
  }

  /** Ties that do not compose: four elements hide a lesser one, and nine make removal break heap order. */
  lemma TiesDoNotCompose<T(!new)>(cmp: (T, T) -> int, x: T, y: T, z: T)
    requires DocumentedOrder(cmp) && cmp(x, y) <= 0 && cmp(y, z) <= 0 && cmp(x, z) > 0 && cmp(z, x) < 0
    ensures !OrderHolds(cmp) && !TopsAreLeast(cmp)
  {
    HidesLesser(cmp, x, y, z);
    BreaksOnRemoval(cmp, x, y, z);
  }

  lemma FourHeap<T>(cmp: (T, T) -> int, s: seq<T>)
    requires |s| == 4 && cmp(s[0], s[1]) <= 0 && cmp(s[0], s[2]) <= 0 && cmp(s[1], s[3]) <= 0
    ensures IsHeap(cmp, s)
  {
    forall j | 0 < j < |s| ensures Edge(cmp, s, j) { assert j == 1 || j == 2 || j == 3; }
  }

  lemma HidesLesser<T(!new)>(cmp: (T, T) -> int, x: T, y: T, z: T)
    requires DocumentedOrder(cmp) && cmp(x, y) <= 0 && cmp(y, z) <= 0 && cmp(x, z) > 0
    ensures !TopsAreLeast(cmp)
  {
    var s := [x, y, x, z];
    FourHeap(cmp, s);
    FloydOfHeap(cmp, s, 2);
    Defeats(cmp, s, 0);
    assert z == s[3] && z in multiset(s);
  }

  lemma BreaksOnRemoval<T(!new)>(cmp: (T, T) -> int, x: T, y: T, z: T)
    requires DocumentedOrder(cmp) && cmp(x, y) <= 0 && cmp(y, z) <= 0 && cmp(x, z) > 0 && cmp(z, x) < 0
    ensures !OrderHolds(cmp)
  {
    var s := [x, x, x, y, x, x, x, z, z];
    assert IsHeap(cmp, s);
    FloydOfHeap(cmp, s, 4);
    Defeats(cmp, s, 3);
    RemovalOf(cmp, s, x, y, z);
  }

  /** The last element rises past two others, and the sift down from the slot then leaves one below a greater. */
  lemma RemovalOf<T(!new)>(cmp: (T, T) -> int, s: seq<T>, x: T, y: T, z: T)
    requires s == [x, x, x, y, x, x, x, z, z] && cmp(x, z) > 0 && cmp(z, x) < 0
    ensures RemoveAt(cmp, s, 3) == [z, x, x, z, x, x, x, x]
    ensures !IsHeap(cmp, RemoveAt(cmp, s, 3))
  {
    var t0 := [x, x, x, z, x, x, x, z];
    var t1 := [x, z, x, x, x, x, x, z];
    var t2 := [z, x, x, x, x, x, x, z];
    var t3 := [z, x, x, z, x, x, x, x];
    assert s[..8][3 := s[8]] == t0;
    assert Swap(t0, 1, 3) == t1 && Swap(t1, 0, 1) == t2 && Swap(t2, 3, 7) == t3;
    assert SiftUp(cmp, t1, 1) == SiftUp(cmp, t2, 0) == t2;
    assert SiftUp(cmp, t0, 3) == t2;
    assert Smallest(cmp, t2, 3) == 7 && Smallest(cmp, t3, 7) == 7;
    assert SiftDown(cmp, t2, 3) == SiftDown(cmp, t3, 7) == t3;
    assert !Edge(cmp, t3, 3);
  }

  /** Given the listed clauses, heap order holds in every run if and only if `cmp` is a total preorder by sign. */
  lemma HeapOrderExactly<T(!new)>(cmp: (T, T) -> int)
    requires DocumentedOrder(cmp)
    ensures TotalPreorder(cmp) <==> OrderHolds(cmp)
  {
    if TotalPreorder(cmp) { PreorderSuffices(cmp); } else { PreorderIsNeeded(cmp); }
  }

  /** And so does "the top is least". */
  lemma TopIsLeastExactly<T(!new)>(cmp: (T, T) -> int)
    requires DocumentedOrder(cmp)
    ensures TotalPreorder(cmp) <==> TopsAreLeast(cmp)
  {
    if TotalPreorder(cmp) { PreorderSuffices(cmp); } else { PreorderIsNeeded(cmp); }
  }

  lemma PreorderSuffices<T(!new)>(cmp: (T, T) -> int)
    requires TotalPreorder(cmp)
    ensures OrderHolds(cmp) && TopsAreLeast(cmp)
  {
    forall buffer: seq<T>, ops: seq<Op<T>>
      ensures AllHeaps(cmp, Run(cmp, Queue(buffer, 0), ops)) && AllTopsLeast(cmp, Run(cmp, Queue(buffer, 0), ops))
    {
      RunFromInit(cmp, buffer, ops);
      forall q | q in Run(cmp, Queue(buffer, 0), ops)
        ensures q.Valid() && IsHeap(cmp, q.Live()) && (q.len > 0 ==> Least(cmp, q.buffer[0], multiset(q.Live())))
      {
        if q.len > 0 { RootIsLeast(cmp, q.Live()); }
      }
    }
  }

  lemma PreorderIsNeeded<T(!new)>(cmp: (T, T) -> int)
    requires DocumentedOrder(cmp) && !TotalPreorder(cmp)
    ensures !OrderHolds(cmp) && !TopsAreLeast(cmp)
  {
    if x, y :| cmp(x, y) > 0 && cmp(y, x) >= 0 {
      OneSided(cmp, x, y);
    } else {
      var x, y, z :| cmp(x, y) <= 0 && cmp(y, z) <= 0 && cmp(x, z) > 0;
      TiesDoNotCompose(cmp, x, y, z);
    }
  }
}
