/** Lifetime regions of core/region.h: closing one, with hooks that may change anything their rule allows. */
module RegionModel {
  import opened Machine
  import ArenaModel

  /** RegionCleanup: a hook and its context, both as opaque handles. */
  datatype Slot = Slot(fn: Option<nat>, ctx: nat)

  const CLEARED := Slot(None, 0)

  /** The Region's fields. The table's length is REGION_MAX_CLEANUP. */
  datatype Fields = Fields(open: bool, arena: Option<nat>, cleanups: seq<Slot>, numHooks: nat) {
    predicate Valid() {
      numHooks <= |cleanups|
    }
  }

  /** Everything a hook can see and change: the region, the arenas, and the rest. */
  datatype World<W> = World(region: Fields, arenas: map<nat, ArenaModel.State>, rest: W) {
    /** region_invariant: an attached arena meets its own. */
    predicate Valid() {
      region.Valid() && (region.arena.Some? ==> ArenaValid(region.arena.value))
    }

    predicate ArenaValid(a: nat) {
      a in arenas && arenas[a].Valid()
    }
  }

  /** What calling hook `fn` with a context does to the world. */
  type Behaviour<!W> = (nat, nat, World<W>) -> World<W>

  datatype Call = Call(slot: nat, hook: Slot)

  function Begin(max: nat): Fields {
    Fields(true, None, seq(max, _ => CLEARED), 0)
  }

  function Register(r: Fields, hook: Slot): (Fields, bool)
    requires r.Valid()
  {
    if r.numHooks >= |r.cleanups| then (r, false)
    else (r.(cleanups := r.cleanups[r.numHooks := hook], numHooks := r.numHooks + 1), true)
  }

  /** The hook rule for a call from slot k: the table stays, each slot below k as it was or with a null hook. */
  predicate RuleKept(before: Fields, after: Fields, k: nat)
    requires k < |before.cleanups|
  {
    && |after.cleanups| == |before.cleanups|
    && forall j | 0 <= j < k :: after.cleanups[j] == before.cleanups[j] || after.cleanups[j].fn == None
  }

  /** The world after the call from slot i - 1 and the clearing of that slot. */
  function Visit<W>(behave: Behaviour<W>, w: World<W>, i: nat): (v: World<W>)
    requires 0 < i <= |w.region.cleanups| && w.region.cleanups[i - 1].fn.Some?
    requires var h := w.region.cleanups[i - 1]; RuleKept(w.region, behave(h.fn.value, h.ctx, w).region, i - 1)
    ensures |v.region.cleanups| == |w.region.cleanups|
  {
    var h := w.region.cleanups[i - 1];
    var called := behave(h.fn.value, h.ctx, w);
    called.(region := called.region.(cleanups := called.region.cleanups[i - 1 := CLEARED]))
  }

  /** Every call the loop makes from slot i - 1 down obeys the rule for the table. */
  predicate ObeysRule<W>(behave: Behaviour<W>, w: World<W>, i: nat)
    requires i <= |w.region.cleanups|
    decreases i
  {
    i == 0 ||
    var h := w.region.cleanups[i - 1];
    if h.fn == None then ObeysRule(behave, w, i - 1)
    else
      && RuleKept(w.region, behave(h.fn.value, h.ctx, w).region, i - 1)
      && ObeysRule(behave, Visit(behave, w, i), i - 1)
  }

  /** Every call the loop makes from slot i - 1 down leaves arena a meeting its invariant. */
  predicate LeavesArena<W>(behave: Behaviour<W>, w: World<W>, a: nat, i: nat)
    requires i <= |w.region.cleanups| && ObeysRule(behave, w, i)
    decreases i
  {
    i == 0 ||
    if w.region.cleanups[i - 1].fn == None then LeavesArena(behave, w, a, i - 1)
    else Visit(behave, w, i).ArenaValid(a) && LeavesArena(behave, Visit(behave, w, i), a, i - 1)
  }

  /** The whole hook rule for a close of w's region. */
  predicate HookRule<W>(behave: Behaviour<W>, w: World<W>)
    requires w.Valid()
  {
    && ObeysRule(behave, w, w.region.numHooks)
    && (w.region.arena.Some? ==> LeavesArena(behave, w, w.region.arena.value, w.region.numHooks))
  }

  /** The loop of region_end from slot i - 1 down: the world it leaves and the calls it makes. */
  function Unwind<W>(behave: Behaviour<W>, w: World<W>, i: nat): (World<W>, seq<Call>)
    requires i <= |w.region.cleanups| && ObeysRule(behave, w, i)
    decreases i
  {
    if i == 0 then (w, [])
    else
      var h := w.region.cleanups[i - 1];
      if h.fn == None then Unwind(behave, w, i - 1)
      else
        var (t, calls) := Unwind(behave, Visit(behave, w, i), i - 1);
        (t, [Call(i - 1, h)] + calls)
  }

  /** One turn of the loop. */
  lemma {:induction false} UnwindNext<W>(behave: Behaviour<W>, w: World<W>, i: nat)
    requires 0 < i <= |w.region.cleanups| && ObeysRule(behave, w, i)
    ensures w.region.cleanups[i - 1].fn == None ==>
              ObeysRule(behave, w, i - 1) && Unwind(behave, w, i) == Unwind(behave, w, i - 1)
    ensures w.region.cleanups[i - 1].fn.Some? ==>
              var h := w.region.cleanups[i - 1];
              && RuleKept(w.region, behave(h.fn.value, h.ctx, w).region, i - 1)
              && ObeysRule(behave, Visit(behave, w, i), i - 1)
              && var rest := Unwind(behave, Visit(behave, w, i), i - 1);
                 Unwind(behave, w, i) == (rest.0, [Call(i - 1, h)] + rest.1)
  {
  }

  lemma {:induction false} UnwindLeavesArena<W>(behave: Behaviour<W>, w: World<W>, a: nat, i: nat)
    requires i <= |w.region.cleanups| && ObeysRule(behave, w, i) && LeavesArena(behave, w, a, i) && w.ArenaValid(a)
    ensures Unwind(behave, w, i).0.ArenaValid(a)
    decreases i
  {
    if i > 0 {
      if w.region.cleanups[i - 1].fn == None {
        UnwindLeavesArena(behave, w, a, i - 1);
      } else {
        UnwindLeavesArena(behave, Visit(behave, w, i), a, i - 1);
      }
    }
  }

  /** arena_reset on the saved arena, if any. */
  function ResetArena(arenas: map<nat, ArenaModel.State>, saved: Option<nat>): map<nat, ArenaModel.State>
    requires saved.Some? ==> saved.value in arenas
  {
    if saved.Some? then arenas[saved.value := arenas[saved.value].Reset()] else arenas
  }

  /** region_end */
  function End<W>(behave: Behaviour<W>, w: World<W>): (World<W>, seq<Call>)
    requires w.Valid() && HookRule(behave, w)
  {
    var saved, n := w.region.arena, w.region.numHooks;
    if saved.Some? then UnwindLeavesArena(behave, w, saved.value, n); Close(Unwind(behave, w, n), saved)
    else Close(Unwind(behave, w, n), saved)
  }

  /** What region_end does after the loop. */
  function Close<W>(unwound: (World<W>, seq<Call>), saved: Option<nat>): (World<W>, seq<Call>)
    requires saved.Some? ==> saved.value in unwound.0.arenas
  {
    var (t, calls) := unwound;
    (World(t.region.(open := false, arena := None, numHooks := 0), ResetArena(t.arenas, saved), t.rest), calls)
  }

  // ---------------------------------------------------------------- which hooks are called

  /** The slots whose hook some call of the loop nulled before the loop got to them. */
  function Nulled<W>(behave: Behaviour<W>, w: World<W>, i: nat): set<nat>
    requires i <= |w.region.cleanups| && ObeysRule(behave, w, i)
    decreases i
  {
    if i == 0 then {}
    else if w.region.cleanups[i - 1].fn == None then Nulled(behave, w, i - 1)
    else
      var v := Visit(behave, w, i);
      (set j: nat | j < i - 1 && w.region.cleanups[j].fn.Some? && v.region.cleanups[j].fn == None)
      + Nulled(behave, v, i - 1)
  }

  /** The hooks in slots i - 1 down to 0 of a table, those in `skipped` left out. */
  function LastFirst(table: seq<Slot>, i: nat, skipped: set<nat>): seq<Call>
    requires i <= |table|
    decreases i
  {
    if i == 0 then []
    else (if table[i - 1].fn.Some? && i - 1 !in skipped then [Call(i - 1, table[i - 1])] else [])
         + LastFirst(table, i - 1, skipped)
  }

  lemma {:induction false} LastFirstAgrees(a: seq<Slot>, b: seq<Slot>, i: nat, s: set<nat>, t: set<nat>)
    requires i <= |a| && i <= |b|
    requires forall j | 0 <= j < i :: (a[j].fn.Some? && j !in s) <==> (b[j].fn.Some? && j !in t)
    requires forall j | 0 <= j < i && a[j].fn.Some? && j !in s :: a[j] == b[j]
    ensures LastFirst(a, i, s) == LastFirst(b, i, t)
    decreases i
  {
    if i > 0 { LastFirstAgrees(a, b, i - 1, s, t); }
  }

  lemma {:induction false} NulledBelow<W>(behave: Behaviour<W>, w: World<W>, i: nat)
    requires i <= |w.region.cleanups| && ObeysRule(behave, w, i)
    ensures forall j | j in Nulled(behave, w, i) :: j < i - 1
    decreases i
  {
    if i > 0 {
      if w.region.cleanups[i - 1].fn == None { NulledBelow(behave, w, i - 1); }
      else { NulledBelow(behave, Visit(behave, w, i), i - 1); }
    }
  }

  /**
   * The calls are exactly the hooks of the table at the start, last first, but for those nulled meanwhile:
   * each of them once, and nothing a hook registers during the close.
   */
  lemma {:induction false} UnwindCalls<W>(behave: Behaviour<W>, w: World<W>, i: nat)
    requires i <= |w.region.cleanups| && ObeysRule(behave, w, i)
    ensures Unwind(behave, w, i).1 == LastFirst(w.region.cleanups, i, Nulled(behave, w, i))
    decreases i
  {
    if i > 0 {
      if w.region.cleanups[i - 1].fn == None {
        UnwindCalls(behave, w, i - 1);
      } else {
        UnwindCalls(behave, Visit(behave, w, i), i - 1);
        UnwindNext(behave, w, i);
        VisitAgrees(behave, w, i);
      }
    }
  }

  lemma {:induction false} SlotsAgree<W>(behave: Behaviour<W>, w: World<W>, v: World<W>, i: nat)
    requires 0 < i <= |w.region.cleanups| && w.region.cleanups[i - 1].fn.Some? && ObeysRule(behave, w, i)
    requires v == Visit(behave, w, i)
    ensures ObeysRule(behave, v, i - 1)
    ensures var a, b, s, t := w.region.cleanups, v.region.cleanups, Nulled(behave, w, i), Nulled(behave, v, i - 1);
            && (forall j | 0 <= j < i - 1 :: (a[j].fn.Some? && j !in s) <==> (b[j].fn.Some? && j !in t))
            && (forall j | 0 <= j < i - 1 && a[j].fn.Some? && j !in s :: a[j] == b[j])
  {
  }

  /** What is left to call after a visit is the same, told from before it or from after it. */
  lemma {:induction false} VisitAgrees<W>(behave: Behaviour<W>, w: World<W>, i: nat)
    requires 0 < i <= |w.region.cleanups| && w.region.cleanups[i - 1].fn.Some? && ObeysRule(behave, w, i)
    ensures var v := Visit(behave, w, i);
            LastFirst(w.region.cleanups, i, Nulled(behave, w, i)) ==
            [Call(i - 1, w.region.cleanups[i - 1])] + LastFirst(v.region.cleanups, i - 1, Nulled(behave, v, i - 1))
  {
    var v := Visit(behave, w, i);
    NulledBelow(behave, w, i);
    SlotsAgree(behave, w, v, i);
    LastFirstNext(w.region.cleanups, v.region.cleanups, i, Nulled(behave, w, i), Nulled(behave, v, i - 1));
  }

  lemma {:induction false} LastFirstNext(a: seq<Slot>, b: seq<Slot>, i: nat, s: set<nat>, t: set<nat>)
    requires 0 < i <= |a| && i - 1 <= |b| && a[i - 1].fn.Some? && i - 1 !in s
    requires forall j | 0 <= j < i - 1 :: (a[j].fn.Some? && j !in s) <==> (b[j].fn.Some? && j !in t)
    requires forall j | 0 <= j < i - 1 && a[j].fn.Some? && j !in s :: a[j] == b[j]
    ensures LastFirst(a, i, s) == [Call(i - 1, a[i - 1])] + LastFirst(b, i - 1, t)
  {
    LastFirstStep(a, i, s);
    LastFirstAgrees(a, b, i - 1, s, t);
  }

  /** The listed slots strictly decrease, so no hook is called twice. */
  lemma {:induction false} LastFirstDecreases(table: seq<Slot>, i: nat, skipped: set<nat>)
    requires i <= |table|
    ensures Descending(table, i, LastFirst(table, i, skipped))
    decreases i
  {
    if i > 0 {
      LastFirstDecreases(table, i - 1, skipped);
      LastFirstStep(table, i, skipped);
      DescendingNext(table, i, LastFirst(table, i - 1, skipped));
    }
  }

  lemma DescendingNext(table: seq<Slot>, i: nat, rest: seq<Call>)
    requires 0 < i <= |table| && Descending(table, i - 1, rest)
    ensures Descending(table, i, rest) && Descending(table, i, [Call(i - 1, table[i - 1])] + rest)
  {
  }

  /** Calls of hooks in a table's first i slots, each from a lower slot than the one before. */
  ghost predicate Descending(table: seq<Slot>, i: nat, calls: seq<Call>)
    requires i <= |table|
  {
    && (forall a | 0 <= a < |calls| :: calls[a].slot < i && calls[a].hook == table[calls[a].slot])
    && (forall a, b | 0 <= a < b < |calls| :: calls[b].slot < calls[a].slot)
  }

  lemma {:induction false} LastFirstStep(table: seq<Slot>, i: nat, skipped: set<nat>)
    requires 0 < i <= |table|
    ensures var rest := LastFirst(table, i - 1, skipped);
            LastFirst(table, i, skipped) ==
            if table[i - 1].fn.Some? && i - 1 !in skipped then [Call(i - 1, table[i - 1])] + rest else rest
  {
  }

  /** A hook is called exactly when it was there at the start and was not nulled before its turn. */
  lemma {:induction false} LastFirstComplete(table: seq<Slot>, i: nat, skipped: set<nat>, k: nat)
    requires k < i <= |table|
    ensures Call(k, table[k]) in LastFirst(table, i, skipped) <==> table[k].fn.Some? && k !in skipped
    decreases i
  {
    var rest := LastFirst(table, i - 1, skipped);
    if k < i - 1 { LastFirstComplete(table, i - 1, skipped, k); } else { NotListed(table, k, skipped); }
    LastFirstStep(table, i, skipped);
    InFront(Call(k, table[k]), Call(i - 1, table[i - 1]), rest);
  }

  lemma {:induction false} NotListed(table: seq<Slot>, i: nat, skipped: set<nat>)
    requires i < |table|
    ensures Call(i, table[i]) !in LastFirst(table, i, skipped)
  {
    LastFirstDecreases(table, i, skipped);
    NotBelow(table, i, LastFirst(table, i, skipped));
  }

  lemma NotBelow(table: seq<Slot>, i: nat, calls: seq<Call>)
    requires i < |table| && Descending(table, i, calls)
    ensures Call(i, table[i]) !in calls
  {
    forall a | 0 <= a < |calls| ensures calls[a] != Call(i, table[i]) { assert calls[a].slot < i; }
  }

  lemma InFront(c: Call, first: Call, rest: seq<Call>)
    ensures c in [first] + rest <==> c == first || c in rest
  {
    var all := [first] + rest;
    assert all[0] == first && all[1..] == rest;
  }

  // ---------------------------------------------------------------- what the calls do

  function ClearSlot<W>(w: World<W>, k: nat): World<W> {
    if k < |w.region.cleanups| then w.(region := w.region.(cleanups := w.region.cleanups[k := CLEARED])) else w
  }

  /** The hook called on the world; nothing without one. */
  function Called<W>(behave: Behaviour<W>, w: World<W>, hook: Slot): World<W> {
    if hook.fn.Some? then behave(hook.fn.value, hook.ctx, w) else w
  }

  /** The world after making the listed calls in order, each followed by the clearing of its slot. */
  function Replay<W>(behave: Behaviour<W>, w: World<W>, calls: seq<Call>): World<W>
    decreases |calls|
  {
    if |calls| == 0 then w
    else Replay(behave, ClearSlot(Called(behave, w, calls[0].hook), calls[0].slot), calls[1..])
  }

  /** The calls listed are the calls made: the world is what they leave, one after the other. */
  lemma {:induction false} UnwindReplays<W>(behave: Behaviour<W>, w: World<W>, i: nat)
    requires i <= |w.region.cleanups| && ObeysRule(behave, w, i)
    ensures Unwind(behave, w, i).0 == Replay(behave, w, Unwind(behave, w, i).1)
    decreases i
  {
    if i > 0 {
      UnwindNext(behave, w, i);
      var h := w.region.cleanups[i - 1];
      if h.fn == None {
        UnwindReplays(behave, w, i - 1);
      } else {
        var v := Visit(behave, w, i);
        UnwindReplays(behave, v, i - 1);
        assert v == ClearSlot(Called(behave, w, h), i - 1);
        var rest := Unwind(behave, v, i - 1).1;
        ReplayNext(behave, w, Call(i - 1, h), rest);
      }
    }
  }

  lemma {:induction false} ReplayNext<W>(behave: Behaviour<W>, w: World<W>, first: Call, rest: seq<Call>)
    ensures Replay(behave, w, [first] + rest)
         == Replay(behave, ClearSlot(Called(behave, w, first.hook), first.slot), rest)
  {
    assert ([first] + rest)[1..] == rest;
  }

  /** The hooks' own state after the listed calls, for hooks that act on nothing else. */
  function Folded<W>(g: (nat, nat, W) -> W, rest: W, calls: seq<Call>): W
    decreases |calls|
  {
    if |calls| == 0 then rest
    else
      var h := calls[0].hook;
      Folded(g, if h.fn.Some? then g(h.fn.value, h.ctx, rest) else rest, calls[1..])
  }

  /** Every hook changes `rest` as g says, and nothing else. */
  ghost predicate ActsOnRest<W(!new)>(behave: Behaviour<W>, g: (nat, nat, W) -> W) {
    forall f: nat, c: nat, v: World<W> :: behave(f, c, v) == World(v.region, v.arenas, g(f, c, v.rest))
  }

  lemma {:induction false} ReplayFolds<W(!new)>(
      behave: Behaviour<W>, g: (nat, nat, W) -> W, w: World<W>, calls: seq<Call>)
    requires ActsOnRest(behave, g)
    ensures Replay(behave, w, calls).rest == Folded(g, w.rest, calls)
    ensures Replay(behave, w, calls).arenas == w.arenas
    decreases |calls|
  {
    if |calls| > 0 {
      ReplayFolds(behave, g, ClearSlot(Called(behave, w, calls[0].hook), calls[0].slot), calls[1..]);
    }
  }

  /** Such hooks obey the rule and null none of each other. */
  lemma {:induction false} ActingOnRestObeys<W(!new)>(
      behave: Behaviour<W>, g: (nat, nat, W) -> W, w: World<W>, a: nat, i: nat)
    requires ActsOnRest(behave, g) && i <= |w.region.cleanups|
    ensures ObeysRule(behave, w, i) && Nulled(behave, w, i) == {}
    ensures w.ArenaValid(a) ==> LeavesArena(behave, w, a, i)
    decreases i
  {
    if i > 0 {
      if w.region.cleanups[i - 1].fn == None {
        ActingOnRestObeys(behave, g, w, a, i - 1);
      } else {
        ActingOnRestObeys(behave, g, Visit(behave, w, i), a, i - 1);
      }
    }
  }

  /** The world when the loop, begun at slot i - 1, is about to look at slot k - 1. */
  function WorldAt<W>(behave: Behaviour<W>, w: World<W>, i: nat, k: nat): (v: World<W>)
    requires k <= i <= |w.region.cleanups| && ObeysRule(behave, w, i)
    ensures |v.region.cleanups| == |w.region.cleanups|
    decreases i
  {
    if i == k then w
    else if w.region.cleanups[i - 1].fn == None then WorldAt(behave, w, i - 1, k)
    else WorldAt(behave, Visit(behave, w, i), i - 1, k)
  }

  lemma {:induction false} StaysNull<W>(behave: Behaviour<W>, w: World<W>, i: nat, k: nat)
    requires k < i <= |w.region.cleanups| && ObeysRule(behave, w, i) && w.region.cleanups[k].fn == None
    ensures WorldAt(behave, w, i, k + 1).region.cleanups[k].fn == None
    ensures k !in Nulled(behave, w, i)
    decreases i
  {
    if i > k + 1 {
      if w.region.cleanups[i - 1].fn == None {
        StaysNull(behave, w, i - 1, k);
      } else {
        StaysNull(behave, Visit(behave, w, i), i - 1, k);
      }
    } else {
      NulledBelow(behave, w, i);
    }
  }

  /** A hook counts as nulled exactly when its slot holds none by the time the loop gets to it. */
  lemma {:induction false} NulledExactly<W>(behave: Behaviour<W>, w: World<W>, i: nat, k: nat)
    requires k < i <= |w.region.cleanups| && ObeysRule(behave, w, i) && w.region.cleanups[k].fn.Some?
    ensures k in Nulled(behave, w, i) <==> WorldAt(behave, w, i, k + 1).region.cleanups[k].fn == None
    decreases i
  {
    if i == k + 1 {
      NulledBelow(behave, w, i);
    } else if w.region.cleanups[i - 1].fn == None {
      NulledExactly(behave, w, i - 1, k);
    } else {
      var v := Visit(behave, w, i);
      if v.region.cleanups[k].fn == None {
        StaysNull(behave, v, i - 1, k);
      } else {
        NulledExactly(behave, v, i - 1, k);
      }
    }
  }

  /** What closing a region does, whatever the hooks do within their rule; with no hook it only empties the arena. */
  lemma EndCloses<W>(behave: Behaviour<W>, w: World<W>)
    requires w.Valid() && HookRule(behave, w)
    ensures var (t, calls) := End(behave, w);
            && !t.region.open && t.region.arena == None && t.region.numHooks == 0
            && (w.region.arena.Some? ==>
                  && t.ArenaValid(w.region.arena.value)
                  && t.arenas[w.region.arena.value].offset == 0 && t.arenas[w.region.arena.value].live == [])
            && Descending(w.region.cleanups, w.region.numHooks, calls)
            && (forall k: nat | k < w.region.numHooks :: Call(k, w.region.cleanups[k]) in calls <==>
                  w.region.cleanups[k].fn.Some? && k !in Nulled(behave, w, w.region.numHooks))
  {
    var n, nulled := w.region.numHooks, Nulled(behave, w, w.region.numHooks);
    UnwindCalls(behave, w, n);
    LastFirstDecreases(w.region.cleanups, n, nulled);
    if w.region.arena.Some? { UnwindLeavesArena(behave, w, w.region.arena.value, n); }
    forall k: nat | k < n
      ensures Call(k, w.region.cleanups[k]) in LastFirst(w.region.cleanups, n, nulled) <==>
                w.region.cleanups[k].fn.Some? && k !in nulled
    {
      LastFirstComplete(w.region.cleanups, n, nulled, k);
    }
  }

  /** The calls are made, and what they leave is left alone, but for the attached arena and the region's own fields. */
  lemma EndRunsHooks<W>(behave: Behaviour<W>, w: World<W>)
    requires w.Valid() && HookRule(behave, w)
    ensures var (t, calls) := End(behave, w);
            var left := Replay(behave, w, calls);
            && t.rest == left.rest && t.region.cleanups == left.region.cleanups && t.arenas.Keys == left.arenas.Keys
            && forall b | b in left.arenas :: t.arenas[b] ==
                 if w.region.arena == Some(b) then left.arenas[b].Reset() else left.arenas[b]
  {
    UnwindReplays(behave, w, w.region.numHooks);
    if w.region.arena.Some? { UnwindLeavesArena(behave, w, w.region.arena.value, w.region.numHooks); }
  }

  // ---------------------------------------------------------------- from registration to close

  function RegisterAll(r: Fields, hooks: seq<Slot>): Fields
    requires r.Valid()
    decreases |hooks|
  {
    if |hooks| == 0 then r else RegisterAll(Register(r, hooks[0]).0, hooks[1..])
  }

  /** Registrations fill the table in order until it is full; the rest are refused. */
  lemma {:induction false} RegistrationsFill(r: Fields, hooks: seq<Slot>)
    requires r.Valid()
    ensures var t := RegisterAll(r, hooks);
            && t.Valid() && |t.cleanups| == |r.cleanups|
            && t.numHooks == Min(r.numHooks + |hooks|, |r.cleanups|)
            && t.cleanups[..t.numHooks] == r.cleanups[..r.numHooks] + hooks[..t.numHooks - r.numHooks]
    decreases |hooks|
  {
    if |hooks| > 0 {
      var (s, ok) := Register(r, hooks[0]);
      RegistrationsFill(s, hooks[1..]);
      if ok {
        assert s.cleanups[..s.numHooks] == r.cleanups[..r.numHooks] + [hooks[0]];
      }
    }
  }

  lemma {:induction false} RegistrationsAttachNothing(r: Fields, hooks: seq<Slot>)
    requires r.Valid()
    ensures RegisterAll(r, hooks).arena == r.arena
    decreases |hooks|
  {
    if |hooks| > 0 { RegistrationsAttachNothing(Register(r, hooks[0]).0, hooks[1..]); }
  }

  function Reversed(hooks: seq<Slot>): seq<Call> {
    if |hooks| == 0 then [] else [Call(|hooks| - 1, hooks[|hooks| - 1])] + Reversed(hooks[..|hooks| - 1])
  }

  lemma {:induction false} LastFirstReverses(table: seq<Slot>, i: nat)
    requires i <= |table| && forall j | 0 <= j < i :: table[j].fn.Some?
    ensures LastFirst(table, i, {}) == Reversed(table[..i])
    decreases i
  {
    if i > 0 {
      LastFirstReverses(table, i - 1);
      assert table[..i][..i - 1] == table[..i - 1];
    }
  }

  /** A region opened, given hooks that fit its table, and closed with none of them nulled runs them in reverse. */
  lemma CloseRunsInReverse<W>(
      behave: Behaviour<W>, max: nat, hooks: seq<Slot>, arenas: map<nat, ArenaModel.State>, rest: W)
    requires |hooks| <= max && forall h | h in hooks :: h.fn.Some?
    ensures var w := World(RegisterAll(Begin(max), hooks), arenas, rest);
            && w.Valid() && w.region.numHooks == |hooks|
            && (HookRule(behave, w) && Nulled(behave, w, |hooks|) == {} ==> End(behave, w).1 == Reversed(hooks))
  {
    RegistrationsFill(Begin(max), hooks);
    RegistrationsAttachNothing(Begin(max), hooks);
    var w := World(RegisterAll(Begin(max), hooks), arenas, rest);
    assert w.region.cleanups[..|hooks|] == hooks;
    if HookRule(behave, w) && Nulled(behave, w, |hooks|) == {} {
      UnwindCalls(behave, w, |hooks|);
      forall j | 0 <= j < |hooks| ensures w.region.cleanups[j].fn.Some? {
        assert w.region.cleanups[j] == hooks[j] && hooks[j] in hooks;
      }
      LastFirstReverses(w.region.cleanups, |hooks|);
    }
  }

  /** Hooks that act on their own state only obey the rule, and each runs on what the one before it left. */
  lemma EndFoldsHooks<W(!new)>(behave: Behaviour<W>, g: (nat, nat, W) -> W, w: World<W>)
    requires ActsOnRest(behave, g) && w.Valid()
    ensures HookRule(behave, w) && Nulled(behave, w, w.region.numHooks) == {}
    ensures End(behave, w).0.rest == Folded(g, w.rest, End(behave, w).1)
    ensures End(behave, w).0.arenas == ResetArena(w.arenas, w.region.arena)
  {
    ActingOnRestObeys(behave, g, w, if w.region.arena.Some? then w.region.arena.value else 0, w.region.numHooks);
    EndRunsHooks(behave, w);
    ReplayFolds(behave, g, w, End(behave, w).1);
  }

  /** So all hooks registered run, last first. */
  lemma CloseFoldsHooks<W(!new)>(
      behave: Behaviour<W>, g: (nat, nat, W) -> W, max: nat, hooks: seq<Slot>,
      arenas: map<nat, ArenaModel.State>, rest: W)
    requires ActsOnRest(behave, g) && |hooks| <= max && forall h | h in hooks :: h.fn.Some?
    ensures var w := World(RegisterAll(Begin(max), hooks), arenas, rest);
            && w.Valid() && HookRule(behave, w)
            && End(behave, w).1 == Reversed(hooks)
            && End(behave, w).0.rest == Folded(g, rest, Reversed(hooks))
  {
    CloseRunsInReverse(behave, max, hooks, arenas, rest);
    EndFoldsHooks(behave, g, World(RegisterAll(Begin(max), hooks), arenas, rest));
  }
}

/** The Region struct and its operations in place. */
module Regions {
  import opened Machine
  import opened RegionModel
  import ArenaModel

  lemma Associates(a: seq<Call>, b: seq<Call>, c: seq<Call>)
    ensures a + (b + c) == (a + b) + c
  {
  }

  class Region<W> {
    var open: bool
    var arena: Option<nat>
    const cleanups: array<Slot>
    var numHooks: nat
    var arenas: map<nat, ArenaModel.State>  // the world outside the region, as far as hooks reach it
    var rest: W

    ghost predicate Valid()
      reads this, cleanups
    {
      Snapshot().Valid()
    }

    function Snapshot(): World<W>
      reads this, cleanups
    {
      World(Fields(open, arena, cleanups[..], numHooks), arenas, rest)
    }

    constructor Begin(max: nat, arenas: map<nat, ArenaModel.State>, rest: W)
      ensures Valid() && Snapshot() == World(RegionModel.Begin(max), arenas, rest)
      ensures open && arena == None && numHooks == 0 && cleanups.Length == max
      ensures fresh(cleanups)
    {
      open := true;
      arena := None;
      cleanups := new Slot[max](_ => CLEARED);
      numHooks := 0;
      this.arenas := arenas;
      this.rest := rest;
      new;
      assert cleanups[..] == seq(max, _ => CLEARED);
    }

    method AttachArena(a: nat)
      requires Valid() && open && Snapshot().ArenaValid(a)
      modifies this
      ensures Valid() && Snapshot() == old(Snapshot()).(region := old(Snapshot()).region.(arena := Some(a)))
    {
      arena := Some(a);
    }

    method Register(hook: Slot) returns (ok: bool)
      requires Valid() && open && hook.fn.Some?
      modifies this, cleanups
      ensures Valid() && (Snapshot().region, ok) == RegionModel.Register(old(Snapshot().region), hook)
      ensures ok <==> old(numHooks) < cleanups.Length
      ensures numHooks == (if ok then old(numHooks) + 1 else old(numHooks)) && open && arena == old(arena)
      ensures forall k | 0 <= k < cleanups.Length ::
                cleanups[k] == if ok && k == old(numHooks) then hook else old(cleanups[k])
      ensures arenas == old(arenas) && rest == old(rest)
    {
      if numHooks >= cleanups.Length { return false; }
      cleanups[numHooks] := hook;
      numHooks := numHooks + 1;
      assert cleanups[..] == old(cleanups[..])[old(numHooks) := hook];
      ok := true;
    }

    /** The call of a hook: it may change the region, the arenas and the rest. */
    method Invoke(behave: Behaviour<W>, h: Slot)
      requires h.fn.Some? && |behave(h.fn.value, h.ctx, Snapshot()).region.cleanups| == cleanups.Length
      modifies this, cleanups
      ensures Snapshot() == old(behave(h.fn.value, h.ctx, Snapshot()))
    {
      var w := behave(h.fn.value, h.ctx, Snapshot());
      open, arena, numHooks := w.region.open, w.region.arena, w.region.numHooks;
      arenas, rest := w.arenas, w.rest;
      forall k | 0 <= k < cleanups.Length { cleanups[k] := w.region.cleanups[k]; }
      assert cleanups[..] == w.region.cleanups;
    }

    /** The call from slot i - 1 and the clearing of that slot. */
    method VisitSlot(behave: Behaviour<W>, i: nat)
      requires 0 < i <= cleanups.Length && cleanups[i - 1].fn.Some?
      requires var h := cleanups[i - 1];
               RuleKept(Snapshot().region, behave(h.fn.value, h.ctx, Snapshot()).region, i - 1)
      modifies this, cleanups
      ensures Snapshot() == Visit(behave, old(Snapshot()), i)
    {
      ghost var w := Snapshot();
      var h := cleanups[i - 1];
      Invoke(behave, h);
      ghost var table := cleanups[..];
      cleanups[i - 1] := CLEARED;
      assert cleanups[..] == table[i - 1 := CLEARED];
    }

    /** One turn of the loop of region_end, and the call it makes, if any. */
    method Turn(behave: Behaviour<W>, i: nat) returns (made: seq<Call>)
      requires 0 < i <= cleanups.Length && ObeysRule(behave, Snapshot(), i)
      modifies this, cleanups
      ensures ObeysRule(behave, Snapshot(), i - 1)
      ensures var rest := Unwind(behave, Snapshot(), i - 1);
              old(Unwind(behave, Snapshot(), i)) == (rest.0, made + rest.1)
    {
      ghost var w := Snapshot();
      UnwindNext(behave, w, i);
      var h := cleanups[i - 1];
      if h.fn == None {
        made := [];
        assert made + Unwind(behave, w, i - 1).1 == Unwind(behave, w, i - 1).1;
        return;
      }
      VisitSlot(behave, i);
      made := [Call(i - 1, h)];
    }

    /** The loop of region_end. */
    method RunHooks(behave: Behaviour<W>) returns (calls: seq<Call>)
      requires Valid() && ObeysRule(behave, Snapshot(), numHooks)
      modifies this, cleanups
      ensures (Snapshot(), calls) == Unwind(behave, old(Snapshot()), old(numHooks))
    {
      ghost var whole := Unwind(behave, Snapshot(), numHooks);
      calls := [];
      var i := numHooks;
      while i > 0
        invariant 0 <= i <= cleanups.Length && ObeysRule(behave, Snapshot(), i)
        invariant whole.0 == Unwind(behave, Snapshot(), i).0
        invariant whole.1 == calls + Unwind(behave, Snapshot(), i).1
      {
        ghost var before := calls;
        var made := Turn(behave, i);
        calls := calls + made;
        i := i - 1;
        Associates(before, made, Unwind(behave, Snapshot(), i).1);
      }
      assert Unwind(behave, Snapshot(), i) == (Snapshot(), []);
      assert calls + [] == calls;
    }

    method End(behave: Behaviour<W>) returns (calls: seq<Call>)
      requires Valid() && open && HookRule(behave, Snapshot())
      modifies this, cleanups
      ensures (Snapshot(), calls) == RegionModel.End(behave, old(Snapshot()))
      ensures Valid() && !open && arena == None && numHooks == 0
    {
      var savedArena := arena;
      if savedArena.Some? { UnwindLeavesArena(behave, Snapshot(), savedArena.value, numHooks); }
      calls := RunHooks(behave);
      numHooks := 0;
      if savedArena.Some? { arenas := arenas[savedArena.value := arenas[savedArena.value].Reset()]; }
      arena := None;
      open := false;
    }
  }
}
