/** The binary min-heap of data/priority_queue.h on values: the sift functions and what they restore. */
module Heap {

  /** The comparator contract, by sign: the result of `cmp` orders the elements totally, up to ties. */
  ghost predicate TotalPreorder<T(!new)>(cmp: (T, T) -> int) {
    && (forall x, y :: cmp(x, y) < 0 <==> cmp(y, x) > 0)
    && (forall x, y, z :: cmp(x, y) <= 0 && cmp(y, z) <= 0 ==> cmp(x, z) <= 0)
  }

  function Parent(i: nat): (p: nat)
    requires i > 0
    ensures p < i
  {
    (i - 1) / 2
  }

  function Swap<T>(s: seq<T>, a: nat, b: nat): (t: seq<T>)
    requires a < |s| && b < |s|
    ensures |t| == |s|
  {
    s[a := s[b]][b := s[a]]
  }

  function SiftUp<T>(cmp: (T, T) -> int, s: seq<T>, i: nat): (t: seq<T>)
    requires i < |s|
    ensures |t| == |s|
    decreases i
  {
    if i == 0 || cmp(s[Parent(i)], s[i]) <= 0 then s
    else SiftUp(cmp, Swap(s, Parent(i), i), Parent(i))
  }

  /** The slot that sift-down moves slot i's element to; i itself when it may stay. */
  function Smallest<T>(cmp: (T, T) -> int, s: seq<T>, i: nat): (m: nat)
    requires i < |s|
    ensures m == i || (m < |s| && (m == 2 * i + 1 || m == 2 * i + 2))
  {
    var m := if 2 * i + 1 < |s| && cmp(s[2 * i + 1], s[i]) < 0 then 2 * i + 1 else i;
    if 2 * i + 2 < |s| && cmp(s[2 * i + 2], s[m]) < 0 then 2 * i + 2 else m
  }

  function SiftDown<T>(cmp: (T, T) -> int, s: seq<T>, i: nat): (t: seq<T>)
    requires i < |s|
    ensures |t| == |s|
    decreases |s| - i
  {
    var m := Smallest(cmp, s, i);
    if m == i then s else SiftDown(cmp, Swap(s, i, m), m)
  }

  /** Floyd's loop: sift down from k - 1, k - 2, ..., 0. */
  function Floyd<T>(cmp: (T, T) -> int, s: seq<T>, k: nat): (t: seq<T>)
    requires k <= |s|
    ensures |t| == |s|
    decreases k
  {
    if k == 0 then s else Floyd(cmp, SiftDown(cmp, s, k - 1), k - 1)
  }

  function Heapify<T>(cmp: (T, T) -> int, s: seq<T>): (t: seq<T>)
    ensures |t| == |s|
  {
    if |s| < 2 then s else Floyd(cmp, s, Parent(|s| - 1) + 1)
  }

  function Push<T>(cmp: (T, T) -> int, s: seq<T>, x: T): (t: seq<T>)
    ensures |t| == |s| + 1
  {
    SiftUp(cmp, s + [x], |s|)
  }

  function Pop<T>(cmp: (T, T) -> int, s: seq<T>): (t: seq<T>)
    requires |s| > 0
    ensures |t| == |s| - 1
  {
    var t := s[..|s| - 1];
    if |t| == 0 then t else SiftDown(cmp, t[0 := s[|t|]], 0)
  }

  function RemoveAt<T>(cmp: (T, T) -> int, s: seq<T>, i: nat): (t: seq<T>)
    requires i < |s|
    ensures |t| == |s| - 1
  {
    var t := s[..|s| - 1];
    if i == |t| then t else SiftDown(cmp, SiftUp(cmp, t[i := s[|t|]], i), i)
  }

  // ---------------------------------------------------------------- heap order

  /** The edge from slot j up to its parent is in order. */
  predicate Edge<T>(cmp: (T, T) -> int, s: seq<T>, j: nat)
    requires 0 < j < |s|
  {
    cmp(s[Parent(j)], s[j]) <= 0
  }

  /** Every edge whose parent is slot k or a later one is in order. */
  ghost predicate HeapFrom<T>(cmp: (T, T) -> int, s: seq<T>, k: nat) {
    forall j | 0 < j < |s| && Parent(j) >= k :: Edge(cmp, s, j)
  }

  ghost predicate IsHeap<T>(cmp: (T, T) -> int, s: seq<T>) {
    HeapFrom(cmp, s, 0)
  }

  /** The children of slot i are in order with i's own parent, when that is slot k or later. */
  ghost predicate Grandparent<T>(cmp: (T, T) -> int, s: seq<T>, i: nat, k: nat)
    requires i < |s|
  {
    i > 0 && Parent(i) >= k ==>
      forall j | 0 < j < |s| && Parent(j) == i :: cmp(s[Parent(i)], s[j]) <= 0
  }

  /** A heap but for the edges at slot i, above it when `up` and below it when `down`. */
  ghost predicate HeapExcept<T>(cmp: (T, T) -> int, s: seq<T>, i: nat, k: nat, up: bool, down: bool)
    requires i < |s|
  {
    && (forall j | 0 < j < |s| && Parent(j) >= k :: Edge(cmp, s, j) || (up && j == i) || (down && Parent(j) == i))
    && Grandparent(cmp, s, i, k)
  }

  /** One step of sift-up moves the only broken edge to the parent slot. */
  lemma SiftUpStep<T(!new)>(cmp: (T, T) -> int, s: seq<T>, i: nat)
    requires TotalPreorder(cmp) && 0 < i < |s| && HeapExcept(cmp, s, i, 0, true, false)
    requires cmp(s[Parent(i)], s[i]) > 0
    ensures HeapExcept(cmp, Swap(s, Parent(i), i), Parent(i), 0, true, false)
  {
    var p := Parent(i);
    var t := Swap(s, p, i);
    assert cmp(s[i], s[p]) < 0;
    forall j | 0 < j < |t| && j != p ensures Edge(cmp, t, j) {
      assert j != i ==> Edge(cmp, s, j);
    }
    if p > 0 {
      assert Edge(cmp, s, p);
      forall j | 0 < j < |t| && Parent(j) == p ensures cmp(t[Parent(p)], t[j]) <= 0 {
        assert j != i ==> Edge(cmp, s, j);
      }
    }
  }

  lemma {:induction false} SiftUpRestores<T(!new)>(cmp: (T, T) -> int, s: seq<T>, i: nat)
    requires TotalPreorder(cmp) && i < |s| && HeapExcept(cmp, s, i, 0, true, false)
    ensures IsHeap(cmp, SiftUp(cmp, s, i))
    decreases i
  {
    if i > 0 && cmp(s[Parent(i)], s[i]) > 0 {
      SiftUpStep(cmp, s, i);
      SiftUpRestores(cmp, Swap(s, Parent(i), i), Parent(i));
    }
  }

  /** The smallest of slot i and its children is in order with all three; among ties it is the first. */
  lemma SmallestIsLeast<T(!new)>(cmp: (T, T) -> int, s: seq<T>, i: nat, j: nat)
    requires TotalPreorder(cmp) && i < |s| && j < |s| && (j == i || (j > 0 && Parent(j) == i))
    ensures cmp(s[Smallest(cmp, s, i)], s[j]) <= 0
    ensures j < Smallest(cmp, s, i) ==> cmp(s[Smallest(cmp, s, i)], s[j]) < 0
  {
    assert j == i || j == 2 * i + 1 || j == 2 * i + 2;
  }

  /** One step of sift-down moves the only broken edges to the slot below. */
  lemma SiftDownStep<T(!new)>(cmp: (T, T) -> int, s: seq<T>, i: nat, k: nat)
    requires TotalPreorder(cmp) && k <= i < |s| && HeapExcept(cmp, s, i, k, false, true)
    requires Smallest(cmp, s, i) != i
    ensures HeapExcept(cmp, Swap(s, i, Smallest(cmp, s, i)), Smallest(cmp, s, i), k, false, true)
  {
    var m := Smallest(cmp, s, i);
    var t := Swap(s, i, m);
    forall j | 0 < j < |t| && Parent(j) >= k ensures Edge(cmp, t, j) || Parent(j) == m {
      if j == m {
        SmallestIsLeast(cmp, s, i, i);
      } else if Parent(j) == i {
        SmallestIsLeast(cmp, s, i, j);
      } else if j == i {
        assert Parent(m) == i;
      } else {
        assert Edge(cmp, s, j);
      }
    }
    forall j | 0 < j < |t| && Parent(j) == m ensures cmp(t[Parent(m)], t[j]) <= 0 {
      assert Edge(cmp, s, j);
    }
  }

  lemma {:induction false} SiftDownRestores<T(!new)>(cmp: (T, T) -> int, s: seq<T>, i: nat, k: nat)
    requires TotalPreorder(cmp) && k <= i < |s| && HeapExcept(cmp, s, i, k, false, true)
    ensures HeapFrom(cmp, SiftDown(cmp, s, i), k)
    decreases |s| - i
  {
    var m := Smallest(cmp, s, i);
    if m == i {
      forall j | 0 < j < |s| && Parent(j) == i ensures Edge(cmp, s, j) {
        SmallestIsLeast(cmp, s, i, j);
      }
    } else {
      SiftDownStep(cmp, s, i, k);
      SiftDownRestores(cmp, Swap(s, i, m), m, k);
    }
  }

  lemma {:induction false} FloydRestores<T(!new)>(cmp: (T, T) -> int, s: seq<T>, k: nat)
    requires TotalPreorder(cmp) && k <= |s| && HeapFrom(cmp, s, k)
    ensures IsHeap(cmp, Floyd(cmp, s, k))
    decreases k
  {
    if k > 0 {
      SiftDownRestores(cmp, s, k - 1, k - 1);
      FloydRestores(cmp, SiftDown(cmp, s, k - 1), k - 1);
    }
  }

  /** Floyd's heapify turns any sequence into a heap. */
  lemma HeapifyRestores<T(!new)>(cmp: (T, T) -> int, s: seq<T>)
    requires TotalPreorder(cmp)
    ensures IsHeap(cmp, Heapify(cmp, s))
  {
    if |s| >= 2 {
      FloydRestores(cmp, s, Parent(|s| - 1) + 1);
    }
  }

  lemma PushRestores<T(!new)>(cmp: (T, T) -> int, s: seq<T>, x: T)
    requires TotalPreorder(cmp) && IsHeap(cmp, s)
    ensures IsHeap(cmp, Push(cmp, s, x))
  {
    var t := s + [x];
    forall j | 0 < j < |s| ensures Edge(cmp, t, j) {
      assert Edge(cmp, s, j);
    }
    SiftUpRestores(cmp, t, |s|);
  }

  /** Sifting up and then down repairs a heap whose slot i was overwritten, whichever way is needed. */
  lemma SiftBothRestores<T(!new)>(cmp: (T, T) -> int, s: seq<T>, i: nat)
    requires TotalPreorder(cmp) && i < |s| && HeapExcept(cmp, s, i, 0, true, true)
    ensures IsHeap(cmp, SiftDown(cmp, SiftUp(cmp, s, i), i))
  {
    if i == 0 || cmp(s[Parent(i)], s[i]) <= 0 {
      SiftDownRestores(cmp, s, i, 0);
    } else {
      forall j | 0 < j < |s| && Parent(j) == i ensures Edge(cmp, s, j) {
        assert cmp(s[i], s[Parent(i)]) <= 0;
      }
      SiftUpRestores(cmp, s, i);
      SiftDownOfHeap(cmp, SiftUp(cmp, s, i), i);
    }
  }

  /** Sift-up leaves a heap alone: ties do not move. */
  lemma SiftUpOfHeap<T(!new)>(cmp: (T, T) -> int, s: seq<T>, i: nat)
    requires TotalPreorder(cmp) && i < |s| && IsHeap(cmp, s)
    ensures SiftUp(cmp, s, i) == s
  {
    if i > 0 { assert Edge(cmp, s, i); }
  }

  /** Sift-down leaves a heap alone. */
  lemma SiftDownOfHeap<T(!new)>(cmp: (T, T) -> int, s: seq<T>, i: nat)
    requires TotalPreorder(cmp) && i < |s| && IsHeap(cmp, s)
    ensures SiftDown(cmp, s, i) == s
  {
    if 2 * i + 1 < |s| {
      assert Edge(cmp, s, 2 * i + 1);
      assert cmp(s[2 * i + 1], s[i]) >= 0;
    }
    if 2 * i + 2 < |s| {
      assert Edge(cmp, s, 2 * i + 2);
      assert cmp(s[2 * i + 2], s[i]) >= 0;
    }
  }

  /** Overwriting slot i of a heap with any element leaves it a heap but for the edges at i. */
  lemma Overwrite<T(!new)>(cmp: (T, T) -> int, s: seq<T>, i: nat, x: T)
    requires TotalPreorder(cmp) && i < |s| && IsHeap(cmp, s)
    ensures HeapExcept(cmp, s[i := x], i, 0, true, true)
  {
    var t := s[i := x];
    forall j | 0 < j < |t| && j != i && Parent(j) != i ensures Edge(cmp, t, j) {
      assert Edge(cmp, s, j);
    }
    if i > 0 {
      forall j | 0 < j < |t| && Parent(j) == i ensures cmp(t[Parent(i)], t[j]) <= 0 {
        assert Edge(cmp, s, i) && Edge(cmp, s, j);
      }
    }
  }

  lemma PrefixHeap<T>(cmp: (T, T) -> int, s: seq<T>, n: nat)
    requires n <= |s| && IsHeap(cmp, s)
    ensures IsHeap(cmp, s[..n])
  {
    forall j | 0 < j < n ensures Edge(cmp, s[..n], j) {
      assert Edge(cmp, s, j);
    }
  }

  /** Removing any slot restores heap order, though the element moved there may belong above or below. */
  lemma RemoveAtRestores<T(!new)>(cmp: (T, T) -> int, s: seq<T>, i: nat)
    requires TotalPreorder(cmp) && i < |s| && IsHeap(cmp, s)
    ensures IsHeap(cmp, RemoveAt(cmp, s, i))
  {
    var t := s[..|s| - 1];
    PrefixHeap(cmp, s, |t|);
    if i < |t| {
      Overwrite(cmp, t, i, s[|t|]);
      SiftBothRestores(cmp, t[i := s[|t|]], i);
    }
  }

  lemma PopRestores<T(!new)>(cmp: (T, T) -> int, s: seq<T>)
    requires TotalPreorder(cmp) && |s| > 0 && IsHeap(cmp, s)
    ensures IsHeap(cmp, Pop(cmp, s))
  {
    RemoveAtRestores(cmp, s, 0);
    assert Pop(cmp, s) == RemoveAt(cmp, s, 0);
  }

  // ---------------------------------------------------------------- contents

  lemma SwapContents<T>(s: seq<T>, a: nat, b: nat)
    requires a < |s| && b < |s|
    ensures multiset(Swap(s, a, b)) == multiset(s)
  {
  }

  lemma {:induction false} SiftUpContents<T>(cmp: (T, T) -> int, s: seq<T>, i: nat)
    requires i < |s|
    ensures multiset(SiftUp(cmp, s, i)) == multiset(s)
    decreases i
  {
    if i > 0 && cmp(s[Parent(i)], s[i]) > 0 {
      SwapContents(s, Parent(i), i);
      SiftUpContents(cmp, Swap(s, Parent(i), i), Parent(i));
    }
  }

  lemma {:induction false} SiftDownContents<T>(cmp: (T, T) -> int, s: seq<T>, i: nat)
    requires i < |s|
    ensures multiset(SiftDown(cmp, s, i)) == multiset(s)
    decreases |s| - i
  {
    var m := Smallest(cmp, s, i);
    if m != i {
      SwapContents(s, i, m);
      SiftDownContents(cmp, Swap(s, i, m), m);
    }
  }

  lemma {:induction false} FloydContents<T>(cmp: (T, T) -> int, s: seq<T>, k: nat)
    requires k <= |s|
    ensures multiset(Floyd(cmp, s, k)) == multiset(s)
    decreases k
  {
    if k > 0 {
      SiftDownContents(cmp, s, k - 1);
      FloydContents(cmp, SiftDown(cmp, s, k - 1), k - 1);
    }
  }

  lemma HeapifyContents<T>(cmp: (T, T) -> int, s: seq<T>)
    ensures multiset(Heapify(cmp, s)) == multiset(s)
  {
    if |s| >= 2 {
      FloydContents(cmp, s, Parent(|s| - 1) + 1);
    }
  }

  lemma PushContents<T>(cmp: (T, T) -> int, s: seq<T>, x: T)
    ensures multiset(Push(cmp, s, x)) == multiset(s) + multiset{x}
  {
    SiftUpContents(cmp, s + [x], |s|);
  }

  /** Moving the last element over slot i drops exactly one occurrence of the old s[i]. */
  lemma MoveLast<T>(s: seq<T>, i: nat)
    requires i < |s| - 1
    ensures multiset(s[..|s| - 1][i := s[|s| - 1]]) == multiset(s) - multiset{s[i]}
  {
    assert s == s[..|s| - 1] + [s[|s| - 1]];
  }

  lemma RemoveAtContents<T>(cmp: (T, T) -> int, s: seq<T>, i: nat)
    requires i < |s|
    ensures multiset(RemoveAt(cmp, s, i)) == multiset(s) - multiset{s[i]}
  {
    var t := s[..|s| - 1];
    assert s == t + [s[|t|]];
    if i < |t| {
      MoveLast(s, i);
      SiftUpContents(cmp, t[i := s[|t|]], i);
      SiftDownContents(cmp, SiftUp(cmp, t[i := s[|t|]], i), i);
    }
  }

  lemma PopContents<T>(cmp: (T, T) -> int, s: seq<T>)
    requires |s| > 0
    ensures multiset(Pop(cmp, s)) == multiset(s) - multiset{s[0]}
  {
    RemoveAtContents(cmp, s, 0);
    assert Pop(cmp, s) == RemoveAt(cmp, s, 0);
  }

  // ---------------------------------------------------------------- the top

  ghost predicate Least<T>(cmp: (T, T) -> int, x: T, m: multiset<T>) {
    x in m && forall y | y in m :: cmp(x, y) <= 0
  }

  lemma {:induction false} RootBelow<T(!new)>(cmp: (T, T) -> int, s: seq<T>, j: nat)
    requires TotalPreorder(cmp) && IsHeap(cmp, s) && j < |s|
    ensures cmp(s[0], s[j]) <= 0
  {
    if j > 0 {
      RootBelow(cmp, s, Parent(j));
      assert Edge(cmp, s, j);
    }
  }

  lemma RootIsLeast<T(!new)>(cmp: (T, T) -> int, s: seq<T>)
    requires TotalPreorder(cmp) && IsHeap(cmp, s) && |s| > 0
    ensures Least(cmp, s[0], multiset(s))
  {
    forall y | y in multiset(s) ensures cmp(s[0], y) <= 0 {
      var j :| 0 <= j < |s| && s[j] == y;
      RootBelow(cmp, s, j);
    }
  }

  /** Popping until empty. */
  function Drain<T>(cmp: (T, T) -> int, s: seq<T>): (d: seq<T>)
    ensures |d| == |s|
    decreases |s|
  {
    if |s| == 0 then [] else [s[0]] + Drain(cmp, Pop(cmp, s))
  }

  ghost predicate Sorted<T>(cmp: (T, T) -> int, s: seq<T>) {
    forall i, j | 0 <= i < j < |s| :: cmp(s[i], s[j]) <= 0
  }

  /** A least element in front of a sorted sequence leaves it sorted. */
  lemma SortedCons<T>(cmp: (T, T) -> int, x: T, d: seq<T>)
    requires Sorted(cmp, d) && forall y | y in multiset(d) :: cmp(x, y) <= 0
    ensures Sorted(cmp, [x] + d)
  {
    forall j | 0 <= j < |d| ensures cmp(x, d[j]) <= 0 {
      assert d[j] in multiset(d);
    }
  }

  lemma {:induction false} DrainSorts<T(!new)>(cmp: (T, T) -> int, s: seq<T>)
    requires TotalPreorder(cmp) && IsHeap(cmp, s)
    ensures Sorted(cmp, Drain(cmp, s))
    ensures multiset(Drain(cmp, s)) == multiset(s)
    decreases |s|
  {
    if |s| > 0 {
      var rest := Pop(cmp, s);
      PopRestores(cmp, s);
      PopContents(cmp, s);
      DrainSorts(cmp, rest);
      RootIsLeast(cmp, s);
      SortedCons(cmp, s[0], Drain(cmp, rest));
    }
  }

  /** Heapify followed by draining is a sort of any input. */
  lemma HeapSort<T(!new)>(cmp: (T, T) -> int, s: seq<T>)
    requires TotalPreorder(cmp)
    ensures Sorted(cmp, Drain(cmp, Heapify(cmp, s)))
    ensures multiset(Drain(cmp, Heapify(cmp, s))) == multiset(s)
  {
    HeapifyRestores(cmp, s);
    HeapifyContents(cmp, s);
    DrainSorts(cmp, Heapify(cmp, s));
  }
}
