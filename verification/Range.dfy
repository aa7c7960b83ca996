/** The integer ranges of data/range.h, over machine integers: every operation below is checked not to overflow. */
module Ranges {
  import opened Arithmetic

  newtype isize = x: int | -0x8000_0000_0000_0000 <= x < 0x8000_0000_0000_0000
  newtype usize = x: int | 0 <= x < 0x1_0000_0000_0000_0000

  const ISIZE_MAX: isize := 0x7FFF_FFFF_FFFF_FFFF
  const ISIZE_MIN: isize := -0x8000_0000_0000_0000

  // ---------------------------------------------------------------- what iteration means

  /** Whether another value is due, over the integers. */
  predicate Due(current: int, end: int, step: int) {
    if step > 0 then current < end else step < 0 && current > end
  }

  function Distance(current: int, end: int, step: int): nat {
    if !Due(current, end, step) then 0 else if step > 0 then end - current else current - end
  }

  /** The values a range yields: start, start + step, ... as long as they lie before the end. */
  function Values(current: int, end: int, step: int): seq<int>
    decreases Distance(current, end, step)
  {
    if !Due(current, end, step) then [] else [current] + Values(current + step, end, step)
  }

  lemma {:induction false} ValuesAreSteps(current: int, end: int, step: int, k: nat)
    requires k < |Values(current, end, step)|
    ensures Values(current, end, step)[k] == current + k * step
    decreases k
  {
    if k > 0 {
      ValuesAreSteps(current + step, end, step, k - 1);
      assert k * step == (k - 1) * step + step;
    }
  }

  /** Which values there are: current + k * step for exactly the k for which it lies before the end. */
  lemma {:induction false} ValuesExactly(current: int, end: int, step: int, k: nat)
    requires step != 0
    ensures k < |Values(current, end, step)| <==>
              if step > 0 then current + k * step < end else current + k * step > end
    decreases k
  {
    if k > 0 {
      assert k * step == (k - 1) * step + step;
      ValuesExactly(current + step, end, step, k - 1);
      if !Due(current, end, step) { BeyondEnd(step, k); }
      if Due(current, end, step) {
        assert |Values(current, end, step)| == 1 + |Values(current + step, end, step)|;
      }
    }
  }

  lemma BeyondEnd(step: int, k: nat)
    ensures step > 0 ==> k * step >= 0
    ensures step < 0 ==> k * step <= 0
  {
  }

  function Abs(x: int): nat {
    if x < 0 then -x else x
  }

  lemma DivStep(a: nat, b: nat)
    requires b > 0 && a >= b
    ensures (a - b) / b == a / b - 1
  {
    assert (a / b - 1) * b <= a - b < (a / b) * b;
    DivBetween(a - b, b, a / b - 1, a / b);
  }

  /** The number of values yielded, in closed form. */
  lemma {:induction false} ValuesCount(current: int, end: int, step: int)
    requires Due(current, end, step)
    ensures |Values(current, end, step)| == (Distance(current, end, step) - 1) / Abs(step) + 1
    decreases Distance(current, end, step)
  {
    var d, s := Distance(current, end, step), Abs(step);
    if Due(current + step, end, step) {
      ValuesCount(current + step, end, step);
      DivStep(d - 1, s);
    } else {
      DivBetween(d - 1, s, 0, 1);
    }
  }

  // ---------------------------------------------------------------- guarded steps on values

  datatype State = State(current: isize, end: isize, step: isize) {
    predicate Valid() {
      step != 0 && step != ISIZE_MIN
    }

    predicate Empty() {
      !Due(current as int, end as int, step as int)
    }

    /** The values still to come. */
    function Remaining(): seq<int> {
      Values(current as int, end as int, step as int)
    }

    /** One guarded range_next: nothing on an empty range, else the current value moves on, at most to the end. */
    function Next(): State {
      if Empty() then this
      else
        var next := current as int + step as int;
        this.(current := if Due(next, end as int, step as int) then next as isize else end)
    }

    function Nexts(n: nat): State
      decreases n
    {
      if n == 0 then this else Next().Nexts(n - 1)
    }
  }

  lemma NextDropsFirst(s: State)
    requires !s.Empty()
    ensures s.Remaining() != [] && s.Remaining()[0] == s.current as int
    ensures s.Next().Remaining() == s.Remaining()[1..]
  {
    var rest := Values(s.current as int + s.step as int, s.end as int, s.step as int);
    assert s.Remaining() == [s.current as int] + rest;
    assert s.Next().Remaining() == rest;
  }

  /** n guarded steps drop the first n values; short of exhaustion the current value has moved n strides. */
  lemma {:induction false} NextsMove(s: State, n: nat)
    ensures s.Nexts(n).Remaining() == s.Remaining()[if n < |s.Remaining()| then n else |s.Remaining()|..]
    ensures n == 0 || s.Empty() || n >= |s.Remaining()| || s.Nexts(n).current as int == s.Remaining()[n]
    ensures n > 0 && !s.Empty() && n >= |s.Remaining()| ==> s.Nexts(n) == s.(current := s.end)
    ensures s.Empty() ==> s.Nexts(n) == s
    ensures s.Nexts(n) == s.(current := s.Nexts(n).current)
    decreases n
  {
    if n > 0 {
      NextsMove(s.Next(), n - 1);
      if !s.Empty() {
        NextDropsFirst(s);
        if s.Next().Empty() { assert s.Next() == s.(current := s.end); }
      }
    }
  }

  /** Where a distance in the direction of the step leads. */
  function Moved(current: isize, step: isize, distance: usize): int {
    if step > 0 then current as int + distance as int else current as int - distance as int
  }

  /** The test of checked_add_isize. */
  predicate AddOverflows(a: isize, b: isize) {
    (a > 0 && b > 0 && b > ISIZE_MAX - a) || (a < 0 && b < 0 && b < ISIZE_MIN - a)
  }

  lemma MoveFirst(v: seq<int>, r: seq<int>)
    requires |r| > 0
    ensures v + r == (v + [r[0]]) + r[1..]
  {
  }

  // ---------------------------------------------------------------- the range struct

  class Range {
    var current: isize
    const end: isize
    const step: isize

    ghost function Model(): State
      reads this
    {
      State(current, end, step)
    }

    ghost predicate Valid()
      reads this
    {
      Model().Valid()
    }

    /** range_make: a zero step becomes 1. */
    constructor (start: isize, end: isize, step: isize)
      requires step != ISIZE_MIN
      ensures Valid() && Model() == State(start, end, if step == 0 then 1 else step)
    {
      current := start;
      this.end := end;
      this.step := if step == 0 then 1 else step;
    }

    predicate IsEmpty()
      reads this
      ensures IsEmpty() <==> Model().Empty()
    {
      if step > 0 then current >= end
      else if step < 0 then current <= end
      else true
    }

    /** range_len: constant time, exact for every range, and no intermediate overflows. */
    method Len() returns (n: usize)
      requires Valid()
      ensures n as int == |Model().Remaining()|
    {
      if IsEmpty() { return 0; }
      var absStep: usize := if step > 0 then step as usize else (-step) as usize;
      var lo, hi := if step > 0 then current else end, if step > 0 then end else current;
      var span: usize;
      if lo >= 0 || hi < 0 {
        var diff := hi - lo;
        span := diff as usize;
      } else {
        var negLoM1 := -(lo + 1);
        span := hi as usize + negLoM1 as usize + 1;
      }
      ValuesCount(current as int, end as int, step as int);
      CountFits(span as int - 1, absStep as int);
      n := (span - 1) / absStep + 1;
    }

    /** range_next, with checked_add_isize: an addition that would overflow exhausts the range. */
    method Next() returns (value: isize)
      requires Valid() && !IsEmpty()
      modifies this
      ensures value as int == old(Model().Remaining())[0]
      ensures Model() == old(Model()).Next() && Model().Remaining() == old(Model().Remaining())[1..]
    {
      NextDropsFirst(Model());
      value := current;
      if !AddOverflows(current, step) {
        current := current + step;
        if step > 0 && current >= end {
          current := end;
        } else if step < 0 && current <= end {
          current := end;
        }
      } else {
        current := end;
      }
    }

    method Reset(newStart: isize)
      requires Valid()
      modifies this
      ensures Valid() && Model() == old(Model()).(current := newStart)
    {
      current := newStart;
    }

    /** range_skip: constant time, and the same as n guarded steps for every n. */
    method Skip(n: usize)
      requires Valid()
      modifies this
      ensures Valid() && Model() == old(Model()).Nexts(n as int)
      ensures var left := old(|Model().Remaining()|);
              |Model().Remaining()| == if n as int < left then left - n as int else 0
    {
      ghost var s := Model();
      NextsMove(s, n as int);
      if n == 0 || IsEmpty() { return; }
      var count := Len();
      if n >= count {
        current := end;
        return;
      }
      SkipOffset(s.current as int, s.end as int, s.step as int, n as int);
      var absStep: usize := if step > 0 then step as usize else (-step) as usize;
      OffsetIsProduct(n as int, absStep as int);
      assert absStep as int == Abs(step as int);
      var offset := n * absStep;
      Jump(offset);
    }

    /** The offset may exceed ISIZE_MAX, so it is applied in at most two steps. */
    method Jump(distance: usize)
      requires Valid()
      requires Due(Moved(current, step, distance), end as int, step as int)
      modifies this
      ensures current as int == Moved(old(current), step, distance)
    {
      var offset, half := distance, ISIZE_MAX as usize;
      if step > 0 {
        if offset > half {
          current := current + ISIZE_MAX;
          offset := offset - half;
        }
        current := current + offset as isize;
      } else {
        if offset > half {
          current := current - ISIZE_MAX;
          offset := offset - half;
        }
        current := current - offset as isize;
      }
    }

    /** RANGE_FOR with a body that records the value. */
    method ForEach() returns (visited: seq<int>)
      requires Valid()
      modifies this
      ensures visited == old(Model().Remaining())
      ensures IsEmpty()
    {
      visited := [];
      while !IsEmpty()
        invariant Valid()
        invariant visited + Model().Remaining() == old(Model().Remaining())
        decreases |Model().Remaining()|
      {
        NextDropsFirst(Model());
        MoveFirst(visited, Model().Remaining());
        var value := Next();
        visited := visited + [value as int];
      }
    }
  }

  /** The n-th value lies n strides of |step| from the current one, before the end. */
  lemma SkipOffset(current: int, end: int, step: int, n: nat)
    requires n < |Values(current, end, step)|
    ensures var target := Values(current, end, step)[n];
            && Offset(n, Abs(step)) == (if step > 0 then target - current else current - target)
            && Due(target, end, step)
  {
    ValuesAreSteps(current, end, step, n);
    ValueIsDue(current, end, step, n);
    OffsetIsProduct(n, Abs(step));
    assert n * -step == -(n * step);
  }

  lemma CountFits(a: nat, b: nat)
    requires b > 0
    ensures 0 <= a / b <= a
  {
    DivAntitone(a, 1, b);
  }

  /** Every value yielded lies before the end. */
  lemma {:induction false} ValueIsDue(current: int, end: int, step: int, k: nat)
    requires k < |Values(current, end, step)|
    ensures Due(Values(current, end, step)[k], end, step)
    decreases k
  {
    if k > 0 { ValueIsDue(current + step, end, step, k - 1); }
  }
}
