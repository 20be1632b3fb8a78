/**
 The No-Op health check of kernel/src/xhci.rs: one command is pushed, and the driver polls slot 0 of
 the event ring, and only slot 0, for its completion, which it clears.
 */
module Noop {
  import opened Bits
  import opened CommandRing

  const POLLS := 1_000_000
  const NO_OP_CMD: bv32 := 23
  const COMMAND_COMPLETION: bv32 := 33

  /** What the driver takes for the completion of its command; its ring's cycle state is always 1. */
  predicate Completion(t: Trb) {
    CycleBit(t) && TrbType(t) == COMMAND_COMPLETION
  }

  /** In bits: cycle bit 0 set and type 33 in bits 15-10; the completion code is the top byte of the status. */
  lemma CompletionBits(t: Trb)
    ensures Completion(t) <==> t.control & 0xFC01 == 0x8401
    ensures t.status >> 24 == 1 <==> t.status & 0xFF00_0000 == 0x0100_0000
  {
    ControlBits(t.control);
    StatusBits(t.status);
  }

  lemma ControlBits(c: bv32)
    ensures c & 0xFC01 == 0x8401 <==> c & 1 != 0 && (c >> 10) & 0x3F == 33
  {
  }

  lemma StatusBits(w: bv32)
    ensures w >> 24 == 1 <==> w & 0xFF00_0000 == 0x0100_0000
  {
  }

  // --- the event ring ---------------------------------------------------------------------

  /** The cycle bit the controller writes with event `k`: 1 on its first lap, then flipped at every lap. */
  predicate LapBit(len: nat, k: nat)
    requires 0 < len
  {
    (k / len) % 2 == 0
  }

  /** Slot 0 after the events `posted`, when the driver last cleared it after the first `z` of them. */
  function SlotZero(len: nat, posted: seq<Trb>, z: nat): Trb
    requires 0 < len && z <= |posted|
    decreases |posted|
  {
    var k := |posted| - 1;
    if |posted| == z then ZERO
    else if k % len == 0 then Marked(posted[k], LapBit(len, k))
    else SlotZero(len, posted[..k], z)
  }

  class EventRing {
    const trbs: array<Trb>
    /** Events posted by the controller so far, and how many of them when the driver last cleared slot 0. */
    var posted: seq<Trb>
    var cleared: nat

    ghost predicate Valid()
      reads this, trbs
    {
      0 < trbs.Length && cleared <= |posted| && trbs[0] == SlotZero(trbs.Length, posted, cleared)
    }

    constructor (count: nat)
      requires 0 < count
      ensures Valid() && fresh(trbs) && trbs.Length == count && posted == [] && cleared == 0
    {
      trbs := new Trb[count](i => ZERO);
      posted := [];
      cleared := 0;
    }

    /** The controller posts an event in the next slot. */
    method Post(event: Trb)
      requires Valid()
      modifies this`posted, trbs
      ensures Valid() && posted == old(posted) + [event]
    {
      var k := |posted|;
      trbs[k % trbs.Length] := Marked(event, LapBit(trbs.Length, k));
      posted := posted + [event];
      assert posted[..k] == old(posted);
    }

    method PostAll(events: seq<Trb>)
      requires Valid()
      modifies this`posted, trbs
      ensures Valid() && posted == old(posted) + events
    {
      var i := 0;
      while i < |events|
        invariant 0 <= i <= |events| && Valid() && posted == old(posted) + events[..i]
      {
        Post(events[i]);
        assert events[..i + 1] == events[..i] + [events[i]];
        i := i + 1;
      }
      assert events[..i] == events;
    }

    /** The driver clears slot 0. */
    method Clear()
      requires Valid()
      modifies this`cleared, trbs
      ensures Valid() && cleared == |posted|
    {
      trbs[0] := ZERO;
      cleared := |posted|;
    }
  }

  // --- what slot 0 can show -----------------------------------------------------------------

  /** The number of the last event written to slot 0. */
  function LastInSlotZero(len: nat, n: nat): nat
    requires 0 < len && 0 < n
  {
    len * ((n - 1) / len)
  }

  /** Slot 0 was written since it was cleared, on a lap with cycle bit 1, with a completion event. */
  predicate CompletionShows(len: nat, posted: seq<Trb>, z: nat)
    requires 0 < len
  {
    && 0 < |posted|
    && var k := LastInSlotZero(len, |posted|);
       z <= k < |posted| && LapBit(len, k) && TrbType(posted[k]) == COMMAND_COMPLETION
  }

  lemma MarkedKeepsType(t: Trb, cycle: bool)
    ensures TrbType(Marked(t, cycle)) == TrbType(t)
  {
    ControlKeepsType(t.control);
  }

  lemma ControlKeepsType(control: bv32)
    ensures (((control & 0xFFFF_FFFE) | 0) >> 10) & 0x3F == (control >> 10) & 0x3F
    ensures (((control & 0xFFFF_FFFE) | 1) >> 10) & 0x3F == (control >> 10) & 0x3F
  {
  }

  lemma LastMultiple(len: nat, n: nat)
    requires 0 < len && 0 < n
    ensures LastInSlotZero(len, n) < n
    ensures (n - 1) % len == 0 ==> LastInSlotZero(len, n) == n - 1
    ensures (n - 1) % len != 0 ==> 1 < n && LastInSlotZero(len, n) == LastInSlotZero(len, n - 1)
  {
    var q, r := (n - 1) / len, (n - 1) % len;
    assert n - 1 == len * q + r;
    if r != 0 {
      RemainderIs(n - 2, len, q, r - 1);
    }
  }

  /** Slot 0 shows a completion exactly when the last event written to it since the clear is one with cycle bit 1. */
  lemma {:induction false} ShowsIff(len: nat, posted: seq<Trb>, z: nat)
    requires 0 < len && z <= |posted|
    ensures Completion(SlotZero(len, posted, z)) <==> CompletionShows(len, posted, z)
    decreases |posted|
  {
    hide TrbType, LapBit, LastInSlotZero;
    if 0 < |posted| {
      LastMultiple(len, |posted|);
    }
    if z < |posted| {
      var k := |posted| - 1;
      if k % len == 0 {
        MarkedKeepsTheRest(posted[k], LapBit(len, k));
        MarkedKeepsType(posted[k], LapBit(len, k));
      } else {
        LastMultiple(len, k);
        ShowsIff(len, posted[..k], z);
      }
    }
  }

  /** Once slot 0 was cleared, it shows no completion until the controller starts its third lap. */
  lemma NothingShowsForTwoLaps(len: nat, posted: seq<Trb>, z: nat)
    requires 0 < len && 1 <= z <= |posted| <= 2 * len
    ensures !CompletionShows(len, posted, z)
  {
    hide TrbType;
    var q := (|posted| - 1) / len;
    LastMultiple(len, |posted|);
    RemainderIs(len * q, len, q, 0);
    if q > 0 {
      Multiple(len, q - 1);
      assert len * (q - 1) == len * q - len;
    }
  }

  /** During the third lap, it shows one exactly when the event that began the lap is one. */
  lemma ThirdLapShows(len: nat, posted: seq<Trb>, z: nat)
    requires 2 * len < |posted| <= 3 * len && z <= 2 * len
    ensures CompletionShows(len, posted, z) <==> TrbType(posted[2 * len]) == COMMAND_COMPLETION
  {
    hide TrbType;
    RemainderIs(|posted| - 1, len, 2, |posted| - 1 - 2 * len);
    RemainderIs(2 * len, len, 2, 0);
  }

  // --- the check itself ------------------------------------------------------------------------

  /** The events posted by the time of poll `i`, `arrivals(i)` of them between polls `i - 1` and `i`. */
  function Seen(posted: seq<Trb>, arrivals: nat -> seq<Trb>, i: nat): (all: seq<Trb>)
    ensures posted <= all
  {
    if i == 0 then posted + arrivals(0) else Seen(posted, arrivals, i - 1) + arrivals(i)
  }

  /** Poll `i` is the first to find slot 0 showing a completion. */
  ghost predicate FirstAt(len: nat, posted: seq<Trb>, z: nat, arrivals: nat -> seq<Trb>, i: nat)
    requires 0 < len
  {
    && CompletionShows(len, Seen(posted, arrivals, i), z)
    && forall j: nat :: j < i ==> !CompletionShows(len, Seen(posted, arrivals, j), z)
  }

  /** Polling ends at poll `i`: the first that finds a completion, or the last one allowed. */
  ghost predicate EndsAt(len: nat, posted: seq<Trb>, z: nat, arrivals: nat -> seq<Trb>, i: nat)
    requires 0 < len
  {
    && i < 1_000_000
    && (FirstAt(len, posted, z, arrivals, i)
        || (i == 999_999 && forall j: nat :: j <= i ==> !CompletionShows(len, Seen(posted, arrivals, j), z)))
  }

  /** The completion event that slot 0 shows carries code 1 (success) in the top byte of its status. */
  predicate ShowsSuccess(len: nat, posted: seq<Trb>, z: nat)
    requires 0 < len && CompletionShows(len, posted, z)
  {
    posted[LastInSlotZero(len, |posted|)].status & 0xFF00_0000 == 0x0100_0000
  }

  /** A completion in slot 0 is found in time, and the first one found carries code 1. */
  ghost predicate Succeeds(len: nat, posted: seq<Trb>, z: nat, arrivals: nat -> seq<Trb>)
    requires 0 < len
  {
    exists i: nat | i < 1_000_000 ::
      FirstAt(len, posted, z, arrivals, i) && ShowsSuccess(len, Seen(posted, arrivals, i), z)
  }

  lemma {:induction false} CodeInSlot(len: nat, posted: seq<Trb>, z: nat)
    requires 0 < len && z <= |posted| && CompletionShows(len, posted, z)
    ensures SlotZero(len, posted, z).status >> 24 == 1 <==> ShowsSuccess(len, posted, z)
    decreases |posted|
  {
    hide TrbType, LapBit, LastInSlotZero;
    LastMultiple(len, |posted|);
    var k := |posted| - 1;
    if k % len == 0 {
      MarkedKeepsTheRest(posted[k], LapBit(len, k));
      StatusBits(posted[k].status);
    } else {
      LastMultiple(len, k);
      ShownIsNew(len, posted, z);
      CodeInSlot(len, posted[..k], z);
    }
  }

  lemma OnlyOneFirst(len: nat, posted: seq<Trb>, z: nat, arrivals: nat -> seq<Trb>, i: nat, j: nat)
    requires 0 < len && FirstAt(len, posted, z, arrivals, i) && FirstAt(len, posted, z, arrivals, j)
    ensures i == j
  {
    hide CompletionShows;
  }

  /**
   `noop` while the controller posts events between the polls. It returns true exactly when the
   first completion that slot 0 shows in time carries code 1, stops polling there, and clears the
   slot exactly when one shows.
   */
  method SendNoop(ring: Ring, events: EventRing, arrivals: nat -> seq<Trb>) returns (ok: bool)
    requires ring.Valid() && events.Valid() && ring.trbs != events.trbs
    modifies ring, ring.trbs, events, events.trbs
    ensures ring.Valid() && ring.pushed == old(ring.pushed) + [Trb(0, 0, 0x5C00)]
    ensures events.Valid()
    ensures exists i: nat ::
              EndsAt(events.trbs.Length, old(events.posted), old(events.cleared), arrivals, i)
              && events.posted == Seen(old(events.posted), arrivals, i)
    ensures ok <==> Succeeds(events.trbs.Length, old(events.posted), old(events.cleared), arrivals)
    ensures events.cleared == old(events.cleared) || events.cleared == |events.posted|
    ensures events.cleared != old(events.cleared) <==>
      exists i: nat | i < POLLS :: FirstAt(events.trbs.Length, old(events.posted), old(events.cleared), arrivals, i)
  {
    hide Completion, CompletionShows, ShowsSuccess, SlotZero, Slots;
    ghost var len, base, z := events.trbs.Length, events.posted, events.cleared;
    ring.Push(Trb(0, 0, NO_OP_CMD << 10));
    var i := 0;
    while i < POLLS
      invariant 0 <= i <= POLLS
      invariant events.Valid() && events.cleared == z
      invariant events.posted == if i == 0 then base else Seen(base, arrivals, i - 1)
      invariant forall j: nat :: j < i ==> !CompletionShows(len, Seen(base, arrivals, j), z)
      modifies events, events.trbs
    {
      events.PostAll(arrivals(i));
      ShowsIff(len, events.posted, z);
      var trb := events.trbs[0];
      if Completion(trb) {
        CodeInSlot(len, events.posted, z);
        ShownIsNew(len, events.posted, z);
        assert FirstAt(len, base, z, arrivals, i);
        forall j: nat | FirstAt(len, base, z, arrivals, j) ensures j == i {
          OnlyOneFirst(len, base, z, arrivals, i, j);
        }
        assert EndsAt(len, base, z, arrivals, i);
        events.Clear();
        return trb.status >> 24 == 1;
      }
      i := i + 1;
    }
    assert EndsAt(len, base, z, arrivals, POLLS - 1);
    return false;
  }

  lemma ShownIsNew(len: nat, posted: seq<Trb>, z: nat)
    requires 0 < len && CompletionShows(len, posted, z)
    ensures z < |posted|
  {
  }

  /**
   Two checks in a row. If the first succeeded, the second is decided by the events posted after
   it alone, and fails unless the controller has by then posted more than two laps of events.
   */
  method SendTwoNoops(ring: Ring, events: EventRing, arrivals: nat -> seq<Trb>, later: nat -> seq<Trb>)
      returns (first: bool, second: bool, z: nat)
    requires ring.Valid() && events.Valid() && ring.trbs != events.trbs
    modifies ring, ring.trbs, events, events.trbs
    ensures z <= |events.posted|
    ensures first <==> Succeeds(events.trbs.Length, old(events.posted), old(events.cleared), arrivals)
    ensures first ==> 1 <= z && (second <==> Succeeds(events.trbs.Length, events.posted[..z], z, later))
    ensures first && |events.posted| <= 2 * events.trbs.Length ==> !second
  {
    hide CompletionShows, ShowsSuccess, SlotZero, Slots;
    ghost var len, base, z0 := events.trbs.Length, events.posted, events.cleared;
    first := SendNoop(ring, events, arrivals);
    z := |events.posted|;
    ghost var posted := events.posted;
    if first {
      assert events.cleared == z != z0;
    }
    second := SendNoop(ring, events, later);
    assert events.posted[..z] == posted;
    if first && |events.posted| <= 2 * len {
      ghost var i: nat :| EndsAt(len, posted, z, later, i) && events.posted == Seen(posted, later, i);
      NothingShowsForTwoLaps(len, events.posted, z);
    }
  }
}
