/** What the sift functions of the heap cost, in swaps and comparator calls. */
module HeapCost {
  import opened Arithmetic
  import opened Bits
  import opened Heap

  datatype Cost = Cost(swaps: nat, compares: nat) {
    function Plus(other: Cost): Cost {
      Cost(swaps + other.swaps, compares + other.compares)
    }
  }

  const FREE := Cost(0, 0)

  lemma PlusIsAssociative(a: Cost, b: Cost, c: Cost)
    ensures a.Plus(b).Plus(c) == a.Plus(b.Plus(c))
  {
  }

  lemma NextFloydCost<T>(cmp: (T, T) -> int, s: seq<T>, k: nat, t: seq<T>)
    requires k < |s| && t == SiftDown(cmp, s, k)
    ensures FloydCost(cmp, s, k + 1) == SiftDownCost(cmp, s, k).Plus(FloydCost(cmp, t, k))
    ensures Floyd(cmp, s, k + 1) == Floyd(cmp, t, k)
  {
  }

  /** floor(log2 n) */
  function Log2(n: nat): nat
    requires n > 0
  {
    if n == 1 then 0 else 1 + Log2(n / 2)
  }

  lemma {:induction false} Log2IsFloor(n: nat)
    requires n > 0
    ensures Pow2(Log2(n)) <= n < 2 * Pow2(Log2(n))
    decreases n
  {
    if n > 1 { Log2IsFloor(n / 2); }
  }

  lemma QuotientPositive(n: nat, m: nat)
    requires 0 < m <= n
    ensures n / m >= 1
  {
    DivAntitone(n, m, n);
  }

  /** floor(log2(n / (i + 1))): the levels below node i in a heap of n nodes. */
  function Levels(n: nat, i: nat): nat
    requires i < n
  {
    QuotientPositive(n, i + 1);
    Log2(n / (i + 1))
  }

  function SiftUpCost<T>(cmp: (T, T) -> int, s: seq<T>, i: nat): Cost
    requires i < |s|
    decreases i
  {
    if i == 0 then FREE
    else if cmp(s[Parent(i)], s[i]) <= 0 then Cost(0, 1)
    else Cost(1, 1).Plus(SiftUpCost(cmp, Swap(s, Parent(i), i), Parent(i)))
  }

  /** Comparator calls made to find the smallest of slot i and its children: one a child. */
  function SmallestCompares(n: nat, i: nat): nat {
    (if 2 * i + 1 < n then 1 else 0) + (if 2 * i + 2 < n then 1 else 0)
  }

  function SiftDownCost<T>(cmp: (T, T) -> int, s: seq<T>, i: nat): Cost
    requires i < |s|
    decreases |s| - i
  {
    var m := Smallest(cmp, s, i);
    var here := SmallestCompares(|s|, i);
    if m == i then Cost(0, here)
    else Cost(1, here).Plus(SiftDownCost(cmp, Swap(s, i, m), m))
  }

  function FloydCost<T>(cmp: (T, T) -> int, s: seq<T>, k: nat): Cost
    requires k <= |s|
    decreases k
  {
    if k == 0 then FREE
    else SiftDownCost(cmp, s, k - 1).Plus(FloydCost(cmp, SiftDown(cmp, s, k - 1), k - 1))
  }

  function HeapifyCost<T>(cmp: (T, T) -> int, s: seq<T>): Cost {
    if |s| < 2 then FREE else FloydCost(cmp, s, Parent(|s| - 1) + 1)
  }

  function PopCost<T>(cmp: (T, T) -> int, s: seq<T>): Cost
    requires |s| > 0
  {
    var t := s[..|s| - 1];
    if |t| == 0 then FREE else SiftDownCost(cmp, t[0 := s[|t|]], 0)
  }

  function SiftBothCost<T>(cmp: (T, T) -> int, s: seq<T>, i: nat): Cost
    requires i < |s|
  {
    SiftUpCost(cmp, s, i).Plus(SiftDownCost(cmp, SiftUp(cmp, s, i), i))
  }

  function RemoveAtCost<T>(cmp: (T, T) -> int, s: seq<T>, i: nat): Cost
    requires i < |s|
  {
    var t := s[..|s| - 1];
    if i == |t| then FREE else SiftBothCost(cmp, t[i := s[|t|]], i)
  }

  /** What a removal that drops the last slot, and fills slot i from it unless that was the last, leaves and costs. */
  lemma RemoveAtIs<T>(cmp: (T, T) -> int, s: seq<T>, i: nat, t: seq<T>, u: seq<T>, before: Cost, after: Cost)
    requires i < |s| && t == s[..|s| - 1]
    requires i < |t| ==> u == SiftDown(cmp, SiftUp(cmp, t[i := s[|t|]], i), i)
    requires i < |t| ==> after == before.Plus(SiftBothCost(cmp, t[i := s[|t|]], i))
    requires i == |t| ==> u == t && after == before
    ensures u == RemoveAt(cmp, s, i) && after == before.Plus(RemoveAtCost(cmp, s, i))
  {
  }

  lemma {:induction false} Log2Monotone(a: nat, b: nat)
    requires 0 < a <= b
    ensures Log2(a) <= Log2(b)
    decreases b
  {
    if a > 1 { Log2Monotone(a / 2, b / 2); }
  }

  /** Sift-up from i makes at most floor(log2(i + 1)) swaps and as many comparator calls. */
  lemma {:induction false} SiftUpBound<T>(cmp: (T, T) -> int, s: seq<T>, i: nat)
    requires i < |s|
    ensures SiftUpCost(cmp, s, i).swaps <= Log2(i + 1)
    ensures SiftUpCost(cmp, s, i).compares <= Log2(i + 1)
    decreases i
  {
    if i > 0 && cmp(s[Parent(i)], s[i]) > 0 {
      SiftUpBound(cmp, Swap(s, Parent(i), i), Parent(i));
      assert Parent(i) + 1 == (i + 1) / 2;
    }
  }

  /** A child has at least one level fewer below it. */
  lemma ChildLevels(n: nat, i: nat, c: nat)
    requires (c == 2 * i + 1 || c == 2 * i + 2) && c < n
    ensures 1 + Levels(n, c) <= Levels(n, i)
  {
    QuotientPositive(n, c + 1);
    DivAntitone(n, 2 * (i + 1), c + 1);
    HalveQuotient(n, i + 1);
    Log2Monotone(n / (c + 1), n / (i + 1) / 2);
  }

  /** Sift-down from i swaps at most floor(log2(len / (i + 1))) times, two comparisons a level. */
  lemma {:induction false} SiftDownBound<T>(cmp: (T, T) -> int, s: seq<T>, i: nat)
    requires i < |s|
    ensures SiftDownCost(cmp, s, i).swaps <= Levels(|s|, i)
    ensures SiftDownCost(cmp, s, i).compares <= 2 * Levels(|s|, i)
    decreases |s| - i
  {
    var m := Smallest(cmp, s, i);
    if m != i {
      SiftDownBound(cmp, Swap(s, i, m), m);
      ChildLevels(|s|, i, m);
    } else if 2 * i + 1 < |s| {
      ChildLevels(|s|, i, 2 * i + 1);
    }
  }

  /** The levels below the first k nodes of a heap of n, added up. */
  function HeightSum(n: nat, k: nat): nat
    requires k <= n
    decreases k
  {
    if k == 0 then 0 else Levels(n, k - 1) + HeightSum(n, k - 1)
  }

  /** A node of the first half has one level more than in a heap of half the size. */
  lemma {:induction false} HeightSumHalves(n: nat, k: nat)
    requires k <= n / 2
    ensures HeightSum(n, k) == k + HeightSum(n / 2, k)
    decreases k
  {
    if k > 0 {
      HeightSumHalves(n, k - 1);
      QuotientPositive(n / 2, k);
      HalveQuotient(n, k);
      assert n / k >= 2;
      assert Levels(n, k - 1) == 1 + Levels(n / 2, k - 1);
    }
  }

  /** The nodes of the second half are leaves. */
  lemma {:induction false} HeightSumTail(n: nat, k: nat)
    requires n / 2 <= k <= n
    ensures HeightSum(n, k) == HeightSum(n, n / 2)
    decreases k
  {
    if k > n / 2 {
      DivBetween(n, k, 1, 2);
      assert Levels(n, k - 1) == 0;
      HeightSumTail(n, k - 1);
    }
  }

  lemma {:induction false} HeightSumBound(n: nat)
    requires n > 0
    ensures HeightSum(n, n / 2) < n
    decreases n
  {
    HeightSumHalves(n, n / 2);
    if n > 1 {
      HeightSumTail(n / 2, n / 2);
      HeightSumBound(n / 2);
    }
  }

  lemma {:induction false} FloydBound<T>(cmp: (T, T) -> int, s: seq<T>, k: nat)
    requires k <= |s|
    ensures FloydCost(cmp, s, k).swaps <= HeightSum(|s|, k)
    ensures FloydCost(cmp, s, k).compares <= 2 * HeightSum(|s|, k)
    decreases k
  {
    if k > 0 {
      SiftDownBound(cmp, s, k - 1);
      FloydBound(cmp, SiftDown(cmp, s, k - 1), k - 1);
    }
  }

  /** Heapify of n elements makes fewer than n swaps and at most 2n - 2 comparator calls. */
  lemma HeapifyBound<T>(cmp: (T, T) -> int, s: seq<T>)
    requires |s| > 0
    ensures HeapifyCost(cmp, s).swaps < |s|
    ensures HeapifyCost(cmp, s).compares <= 2 * |s| - 2
  {
    if |s| >= 2 {
      assert Parent(|s| - 1) + 1 == |s| / 2;
      FloydBound(cmp, s, |s| / 2);
      HeightSumBound(|s|);
    }
  }

  lemma {:induction false} Log2Splits(n: nat, m: nat, q: nat)
    requires 0 < m <= n && q == n / m
    ensures q >= 1 && Log2(m) + Log2(q) <= Log2(n)
    decreases m
  {
    QuotientPositive(n, m);
    if m > 1 {
      var h := QuotientOfHalves(n, m, q);
      Log2Splits(n / 2, m / 2, h);
      Log2Monotone(q, h);
    }
  }

  lemma QuotientOfHalves(n: nat, m: nat, q: nat) returns (h: nat)
    requires 1 < m <= n && q == n / m
    ensures h == n / 2 / (m / 2) && q <= h
  {
    h := n / 2 / (m / 2);
    HalveQuotient(n, m / 2);
    DivAntitone(n, 2 * (m / 2), m);
  }

  /** The levels above a node and the levels below it are together no more than the heap's. */
  lemma LevelsAdd(n: nat, i: nat)
    requires i < n
    ensures Log2(i + 1) + Levels(n, i) <= Log2(n)
  {
    Log2Splits(n, i + 1, n / (i + 1));
  }

  /** Sifting both ways from the same slot is logarithmic. */
  lemma SiftBothBound<T>(cmp: (T, T) -> int, s: seq<T>, i: nat, n: nat)
    requires i < |s| == n
    ensures SiftBothCost(cmp, s, i).swaps <= Log2(n)
    ensures SiftBothCost(cmp, s, i).compares <= 2 * Log2(n)
  {
    SiftUpBound(cmp, s, i);
    SiftDownBound(cmp, SiftUp(cmp, s, i), i);
    LevelsAdd(n, i);
  }

  /** Push makes at most floor(log2 len) swaps and as many comparator calls, len counted after it. */
  lemma PushBound<T>(cmp: (T, T) -> int, s: seq<T>, x: T)
    ensures SiftUpCost(cmp, s + [x], |s|).swaps <= Log2(|s| + 1)
    ensures SiftUpCost(cmp, s + [x], |s|).compares <= Log2(|s| + 1)
  {
    SiftUpBound(cmp, s + [x], |s|);
  }

  /** The levels below the root of n elements; none when there are none. */
  function Height(n: nat): nat {
    if n == 0 then 0 else Log2(n)
  }

  /** Removing any slot makes at most floor(log2 len) swaps, len counted after it, and the last slot is free. */
  lemma RemoveAtBound<T>(cmp: (T, T) -> int, s: seq<T>, i: nat)
    requires i < |s|
    ensures RemoveAtCost(cmp, s, i).swaps <= Height(|s| - 1)
    ensures RemoveAtCost(cmp, s, i).compares <= 2 * Height(|s| - 1)
    ensures i == |s| - 1 ==> RemoveAtCost(cmp, s, i) == FREE
  {
    var t := s[..|s| - 1];
    if i < |t| {
      SiftBothBound(cmp, t[i := s[|t|]], i, |t|);
    }
  }

  lemma SiftDownRootBound<T>(cmp: (T, T) -> int, s: seq<T>, n: nat)
    requires 0 < |s| == n
    ensures SiftDownCost(cmp, s, 0).swaps <= Log2(n)
    ensures SiftDownCost(cmp, s, 0).compares <= 2 * Log2(n)
  {
    SiftDownBound(cmp, s, 0);
    LevelsAdd(n, 0);
  }

  lemma PopBound<T>(cmp: (T, T) -> int, s: seq<T>)
    requires |s| > 0
    ensures PopCost(cmp, s).swaps <= Height(|s| - 1)
    ensures PopCost(cmp, s).compares <= 2 * Height(|s| - 1)
  {
    var t := s[..|s| - 1];
    if |t| > 0 {
      SiftDownRootBound(cmp, t[0 := s[|t|]], |t|);
    }
  }
}
