/**
 The command ring of kernel/src/xhci.rs as a producer/consumer protocol on cycle bits
 (section 4.9.3 of xHCI 1.2).
 */
module CommandRing {
  import opened Bits

  datatype Trb = Trb(parameter: bv64, status: bv32, control: bv32)

  const ZERO := Trb(0, 0, 0)

  predicate CycleBit(t: Trb) {
    t.control & 1 != 0
  }

  function TrbType(t: Trb): bv32 {
    (t.control >> 10) & 0x3F
  }

  /** A TRB as `push` stores it: bit 0 of the control word replaced by the cycle state. */
  function Marked(t: Trb, cycle: bool): Trb {
    Trb(t.parameter, t.status, (t.control & 0xFFFF_FFFE) | (if cycle then 1 else 0))
  }

  /** Marking sets the cycle bit and keeps every other bit. */
  lemma MarkedKeepsTheRest(t: Trb, cycle: bool)
    ensures CycleBit(Marked(t, cycle)) == cycle
    ensures Marked(t, cycle).parameter == t.parameter && Marked(t, cycle).status == t.status
    ensures Marked(t, cycle).control & 0xFFFF_FFFE == t.control & 0xFFFF_FFFE
  {
  }

  // --- what the ring holds ---------------------------------------------------------

  /** The slots of a ring of `len` TRBs after the given pushes. */
  function Slots(len: nat, pushed: seq<Trb>): (slots: seq<Trb>)
    requires 0 < len
    ensures |slots| == len
  {
    if pushed == [] then seq(len, i => ZERO)
    else
      var k := |pushed| - 1;
      Slots(len, pushed[..k])[k % len := Marked(pushed[k], true)]
  }

  class Ring {
    const trbs: array<Trb>
    const phys: nat
    var enqueue: nat
    var cycle: bool
    /** Every TRB pushed so far. */
    ghost var pushed: seq<Trb>

    ghost predicate Valid()
      reads this, trbs
    {
      && IsPow2(trbs.Length)
      && cycle
      && enqueue == |pushed| % trbs.Length
      && trbs[..] == Slots(trbs.Length, pushed)
    }

    constructor (count: nat, phys: nat)
      requires IsPow2(count)
      ensures Valid() && fresh(trbs) && trbs.Length == count && pushed == [] && this.phys == phys
    {
      trbs := new Trb[count](i => ZERO);
      this.phys := phys;
      enqueue := 0;
      cycle := true;
      pushed := [];
      new;
      assert trbs[..] == Slots(count, []);
    }

    /** Nothing checks whether the slot is still unread, and the cycle state never changes. */
    method Push(trb: Trb)
      requires Valid()
      modifies this, trbs
      ensures Valid() && pushed == old(pushed) + [trb]
    {
      ghost var len, before := trbs.Length, trbs[..];
      trbs[enqueue] := Marked(trb, cycle);
      pushed := pushed + [trb];
      assert pushed[..|pushed| - 1] == old(pushed);
      assert trbs[..] == before[enqueue := Marked(trb, true)];
      ghost var k: nat :| len == Pow2(k);
      MaskIsMod(enqueue + 1, k);
      NextIndex(|old(pushed)|, len);
      enqueue := BitAnd(enqueue + 1, trbs.Length - 1);
    }
  }

  lemma NextIndex(k: nat, len: nat)
    requires 0 < len
    ensures (k % len + 1) % len == (k + 1) % len
  {
    var q, r := k / len, k % len;
    if r + 1 < len {
      RemainderIs(k + 1, len, q, r + 1);
    } else {
      assert k + 1 == len * (q + 1) + 0;
      RemainderIs(k + 1, len, q + 1, 0);
    }
  }

  lemma SameRemainder(j: nat, k: nat, len: nat)
    requires 0 < len && j < k < j + len
    ensures j % len != k % len
  {
    var q, r := j / len, j % len;
    if r + (k - j) < len {
      RemainderIs(k, len, q, r + (k - j));
    } else {
      assert k == len * (q + 1) + (r + (k - j) - len);
      RemainderIs(k, len, q + 1, r + (k - j) - len);
    }
  }

  /** For any number of pushes, a slot holds the latest TRB whose number is congruent to it. */
  lemma {:induction false} SlotHoldsTheLatest(len: nat, pushed: seq<Trb>, j: nat)
    requires 0 < len && j < |pushed| <= j + len
    ensures Slots(len, pushed)[j % len] == Marked(pushed[j], true)
  {
    var k := |pushed| - 1;
    if j < k {
      SlotHoldsTheLatest(len, pushed[..k], j);
      SameRemainder(j, k, len);
    }
  }

  /** Slots not reached yet are still zero. */
  lemma {:induction false} SlotsAheadAreZero(len: nat, pushed: seq<Trb>, i: nat)
    requires 0 < len && |pushed| <= i < len
    ensures Slots(len, pushed)[i] == ZERO
  {
    if pushed != [] {
      var k := |pushed| - 1;
      SlotsAheadAreZero(len, pushed[..k], i);
      RemainderIs(k, len, 0, k);
    }
  }

  /** Slot `i` carries cycle 1 exactly when more than `i` TRBs were pushed: from the `len`-th push on, all do. */
  lemma {:induction false} CycleShowsWritten(len: nat, pushed: seq<Trb>, i: nat)
    requires i < len
    ensures CycleBit(Slots(len, pushed)[i]) <==> i < |pushed|
  {
    if |pushed| <= i {
      SlotsAheadAreZero(len, pushed, i);
    } else {
      var q := (|pushed| - 1 - i) / len;
      var j := i + len * q;
      RemainderIs(j, len, q, i);
      assert |pushed| - 1 - i == len * q + (|pushed| - 1 - i) % len;
      SlotHoldsTheLatest(len, pushed, j);
      MarkedKeepsTheRest(pushed[j], true);
    }
  }

  // --- the protocol -----------------------------------------------------------------

  datatype Event = Push(trb: Trb) | Take

  /**
   The ring and the controller reading it. `toggles` says whether the controller flips its cycle
   state when it passes the end of the ring.
   */
  datatype State = State(len: nat, toggles: bool, pushed: seq<Trb>, taken: seq<Trb>, dequeue: nat, cycle: bool)

  function Start(len: nat, toggles: bool): State {
    State(len, toggles, [], [], 0, true)
  }

  ghost predicate Inv(s: State) {
    s.dequeue < s.len
  }

  /** May the controller take the TRB at its dequeue pointer? */
  predicate Offered(s: State)
    requires Inv(s)
  {
    CycleBit(Slots(s.len, s.pushed)[s.dequeue]) == s.cycle
  }

  /** One step; a controller that is offered nothing waits. */
  function Step(s: State, e: Event): (s': State)
    requires Inv(s)
    ensures Inv(s') && s'.len == s.len && s'.toggles == s.toggles
  {
    match e
    case Push(trb) => State(s.len, s.toggles, s.pushed + [trb], s.taken, s.dequeue, s.cycle)
    case Take =>
      if !Offered(s) then s
      else
        var taken := s.taken + [Slots(s.len, s.pushed)[s.dequeue]];
        if s.dequeue + 1 < s.len then State(s.len, s.toggles, s.pushed, taken, s.dequeue + 1, s.cycle)
        else State(s.len, s.toggles, s.pushed, taken, 0, s.cycle != s.toggles)
  }

  function Run(s: State, es: seq<Event>): (s': State)
    requires Inv(s)
    ensures Inv(s') && s'.len == s.len && s'.toggles == s.toggles
    decreases |es|
  {
    if es == [] then s else Step(Run(s, es[..|es| - 1]), es[|es| - 1])
  }

  /** The controller has taken exactly the first TRBs pushed, in order, and waits only when it has them all. */
  ghost predicate InOrder(s: State)
    requires Inv(s)
  {
    && |s.taken| <= |s.pushed|
    && (forall i :: 0 <= i < |s.taken| ==> s.taken[i] == Marked(s.pushed[i], true))
    && (!Offered(s) <==> |s.taken| == |s.pushed|)
  }

  ghost predicate FirstLap(s: State) {
    && Inv(s)
    && s.cycle && s.dequeue == |s.taken| <= |s.pushed| < s.len
    && forall i :: 0 <= i < |s.taken| ==> s.taken[i] == Marked(s.pushed[i], true)
  }

  lemma {:induction false} FirstLapKept(s: State, es: seq<Event>)
    requires FirstLap(s) && |Run(s, es).pushed| < s.len
    ensures FirstLap(Run(s, es))
    decreases |es|
  {
    hide Slots;
    if es != [] {
      var t, e := Run(s, es[..|es| - 1]), es[|es| - 1];
      FirstLapKept(s, es[..|es| - 1]);
      CycleShowsWritten(t.len, t.pushed, t.dequeue);
      if e.Take? && Offered(t) {
        SlotHoldsTheLatest(t.len, t.pushed, t.dequeue);
        RemainderIs(t.dequeue, t.len, 0, t.dequeue);
      }
    }
  }

  /**
   Under every interleaving in which fewer TRBs are pushed than the ring holds, the controller
   takes exactly the pushed TRBs, in order, and never a stale one.
   */
  lemma FirstLapIsInOrder(len: nat, toggles: bool, es: seq<Event>)
    requires 0 < len && |Run(Start(len, toggles), es).pushed| < len
    ensures InOrder(Run(Start(len, toggles), es))
  {
    FirstLapKept(Start(len, toggles), es);
    var s := Run(Start(len, toggles), es);
    CycleShowsWritten(s.len, s.pushed, s.dequeue);
  }

  function Takes(n: nat): seq<Event> {
    seq(n, i => Take)
  }

  /** Once a full lap has been pushed, a controller that keeps its cycle state is always offered a TRB. */
  lemma {:induction false} NeverIdleAfterALap(s: State, n: nat)
    requires Inv(s) && !s.toggles && s.cycle && |s.pushed| >= s.len
    ensures var t := Run(s, Takes(n));
      t.pushed == s.pushed && t.cycle && |t.taken| == |s.taken| + n
  {
    if n > 0 {
      NeverIdleAfterALap(s, n - 1);
      assert Takes(n)[..n - 1] == Takes(n - 1);
      var t := Run(s, Takes(n - 1));
      CycleShowsWritten(t.len, t.pushed, t.dequeue);
    }
  }

  lemma {:induction false} CycleKept(s: State, es: seq<Event>)
    requires Inv(s) && !s.toggles && s.cycle
    ensures Run(s, es).cycle
    decreases |es|
  {
    if es != [] {
      CycleKept(s, es[..|es| - 1]);
    }
  }

  lemma {:induction false} RunTakesNoPush(s: State, n: nat)
    requires Inv(s)
    ensures Run(s, Takes(n)).pushed == s.pushed
  {
    if n > 0 {
      assert Takes(n)[..n - 1] == Takes(n - 1);
      RunTakesNoPush(s, n - 1);
    }
  }

  lemma {:induction false} RunAppend(s: State, a: seq<Event>, b: seq<Event>)
    requires Inv(s)
    ensures Run(s, a + b) == Run(Run(s, a), b)
    decreases |b|
  {
    if b == [] {
      assert a + b == a;
    } else {
      assert (a + b)[..|a + b| - 1] == a + b[..|b| - 1];
      RunAppend(s, a, b[..|b| - 1]);
    }
  }

  /**
   Because the producer never flips the cycle bit, a controller that keeps its own can be made to
   take more TRBs than were pushed exactly when a whole lap has been pushed.
   */
  lemma StaleIffALapWasPushed(len: nat, es: seq<Event>)
    requires 0 < len
    ensures var s := Run(Start(len, false), es);
      |s.pushed| >= len <==> exists n: nat :: |Run(s, Takes(n)).taken| > |s.pushed|
  {
    var s := Run(Start(len, false), es);
    CycleKept(Start(len, false), es);
    if |s.pushed| >= len {
      NeverIdleAfterALap(s, |s.pushed| + 1);
    } else {
      forall n: nat ensures |Run(s, Takes(n)).taken| <= |s.pushed| {
        RunAppend(Start(len, false), es, Takes(n));
        RunTakesNoPush(s, n);
        FirstLapKept(Start(len, false), es + Takes(n));
      }
    }
  }

  /** A controller that does flip its cycle state at the end of the ring never takes more than one lap. */
  lemma {:induction false} TogglingTakesOneLap(len: nat, es: seq<Event>)
    requires 0 < len
    ensures var s := Run(Start(len, true), es);
      if s.cycle then s.dequeue == |s.taken| else |s.taken| == len <= |s.pushed|
    ensures |Run(Start(len, true), es).taken| <= len
    decreases |es|
  {
    if es != [] {
      TogglingTakesOneLap(len, es[..|es| - 1]);
      var s := Run(Start(len, true), es[..|es| - 1]);
      CycleShowsWritten(len, s.pushed, s.dequeue);
    }
  }

  /** A flipping controller that has been pushed at most one lap: it has taken the first TRBs, in order. */
  ghost predicate OneLap(s: State) {
    && Inv(s) && s.toggles
    && |s.taken| <= |s.pushed| <= s.len
    && (forall i :: 0 <= i < |s.taken| ==> s.taken[i] == Marked(s.pushed[i], true))
    && (if s.cycle then s.dequeue == |s.taken| < s.len else s.dequeue == 0 && |s.taken| == s.len)
  }

  lemma OneLapStep(s: State, e: Event)
    requires OneLap(s) && |Step(s, e).pushed| <= s.len
    ensures OneLap(Step(s, e))
    ensures e == Take ==> |Step(s, e).taken| == if |s.taken| < |s.pushed| then |s.taken| + 1 else |s.taken|
  {
    hide Slots;
    CycleShowsWritten(s.len, s.pushed, s.dequeue);
    if e.Take? && Offered(s) {
      SlotHoldsTheLatest(s.len, s.pushed, s.dequeue);
      RemainderIs(s.dequeue, s.len, 0, s.dequeue);
    }
  }

  lemma {:induction false} OneLapKept(s: State, es: seq<Event>)
    requires OneLap(s) && |Run(s, es).pushed| <= s.len
    ensures OneLap(Run(s, es))
    decreases |es|
  {
    hide OneLap, Step;
    OneLapBounds(s);
    if es != [] {
      PushedOnlyGrows(Run(s, es[..|es| - 1]), es[|es| - 1]);
      OneLapKept(s, es[..|es| - 1]);
      OneLapStep(Run(s, es[..|es| - 1]), es[|es| - 1]);
    }
  }

  lemma PushedOnlyGrows(s: State, e: Event)
    requires Inv(s)
    ensures |s.pushed| <= |Step(s, e).pushed|
  {
    hide Slots;
  }

  /** A flipping controller takes exactly the pushed TRBs, in order, for a full lap. */
  lemma FullLapIsInOrder(len: nat, es: seq<Event>)
    requires 0 < len && |Run(Start(len, true), es).pushed| <= len
    ensures InOrder(Run(Start(len, true), es))
  {
    OneLapKept(Start(len, true), es);
    var s := Run(Start(len, true), es);
    CycleShowsWritten(s.len, s.pushed, s.dequeue);
  }

  /** Left alone, it catches up. */
  lemma {:induction false} CatchesUp(s: State, n: nat)
    requires OneLap(s)
    ensures var t := Run(s, Takes(n));
      OneLap(t) && t.pushed == s.pushed
      && |t.taken| == if |s.taken| + n <= |s.pushed| then |s.taken| + n else |s.pushed|
  {
    hide OneLap, Step;
    OneLapBounds(s);
    RunTakesNoPush(s, n);
    if n > 0 {
      CatchesUp(s, n - 1);
      assert Takes(n)[..n - 1] == Takes(n - 1);
      OneLapStep(Run(s, Takes(n - 1)), Take);
    }
  }

  lemma OneLapBounds(s: State)
    requires OneLap(s)
    ensures Inv(s) && |s.taken| <= |s.pushed| <= s.len
  {
  }

  /**
   Because the producer never flips the cycle bit, a controller that flips its own is left with
   pushed TRBs it will never take, however long it goes on, exactly when more than a lap was pushed.
   */
  lemma LostIffMoreThanALap(len: nat, es: seq<Event>)
    requires 0 < len
    ensures var s := Run(Start(len, true), es);
      |s.pushed| > len <==> forall n: nat :: |Run(s, Takes(n)).taken| < |s.pushed|
  {
    hide OneLap, Step;
    var s := Run(Start(len, true), es);
    if |s.pushed| > len {
      forall n: nat ensures |Run(s, Takes(n)).taken| < |s.pushed| {
        RunAppend(Start(len, true), es, Takes(n));
        TogglingTakesOneLap(len, es + Takes(n));
      }
    } else {
      StartsALap(len);
      OneLapKept(Start(len, true), es);
      OneLapBounds(s);
      CatchesUp(s, |s.pushed| - |s.taken|);
    }
  }

  lemma StartsALap(len: nat)
    requires 0 < len
    ensures OneLap(Start(len, true))
  {
  }
}
