/**
 What a mapped heap guarantees: where every address goes, which frames it is made of, and how
 many frames its tables cost.
 */
module HeapFacts {
  import opened Wrappers
  import opened Frames
  import opened Paging
  import opened Mapper
  import opened Heap

  lemma HeapPage(o: nat)
    requires o < HEAP_SIZE
    ensures PageOf(HEAP_START + o) == FIRST_PAGE + o / PAGE && o / PAGE < HEAP_PAGES
    ensures (HEAP_START + o) % PAGE == o % PAGE
  {
  }

  /** Every heap address translates to the frame issued for its page, plus the low 12 bits. */
  lemma HeapTranslates(s: Space, t: Space, fs: seq<nat>, next: nat, o: nat)
    requires Progress(s, t, fs, next, FIRST_PAGE, HEAP_PAGES)
    requires o < 0x80_0000
    ensures DataIndex(s, FIRST_PAGE, next, o / PAGE) < |fs|
    ensures VirtToPhys(t, 0x4444_4444_0000 + o) == Some(PAGE * fs[DataIndex(s, FIRST_PAGE, next, o / PAGE)] + o % PAGE)
  {
    hide VirtToPhys, Progress, PageOf, TablesDrawn;
    HeapPage(o);
    RunTranslates(s, t, fs, next, FIRST_PAGE, HEAP_PAGES, HEAP_START + o);
  }

  /**
   The heap can be written: every entry on the path of a heap page is present and writable, and the
   leaf has no other flag. Table entries that were there before keep their frame and other flags.
   */
  lemma HeapIsWritable(s: Space, t: Space, fs: seq<nat>, next: nat, p: nat)
    requires Progress(s, t, fs, next, FIRST_PAGE, HEAP_PAGES)
    requires FIRST_PAGE <= p < FIRST_PAGE + HEAP_PAGES
    ensures forall k :: 1 <= k <= 4 ==> var g := EntryAt(t, k, Slot(p, k)); g.present && g.writable && !g.huge
    ensures EntryAt(t, 4, p).other == 0
    ensures forall k :: 1 <= k <= 3 ==> var e, g := EntryAt(s, k, Slot(p, k)), EntryAt(t, k, Slot(p, k));
      e.present ==> g.frame == e.frame && g.other == e.other
  {
    hide EntryAt, TablesDrawn, Draws, WellFormed, DataApart;
    var drawn := fs[next..DataIndex(s, FIRST_PAGE, next, HEAP_PAGES)];
    assert Slot(p, 4) == p;
    forall k: nat | 1 <= k <= 3
      ensures var e, g := EntryAt(s, k, Slot(p, k)), EntryAt(t, k, Slot(p, k));
        g.present && g.writable && !g.huge && (e.present ==> g.frame == e.frame && g.other == e.other)
    {
      InRunIsTouched(FIRST_PAGE, HEAP_PAGES, p, k);
      assert EntryAfter(EntryAt(s, k, Slot(p, k)), EntryAt(t, k, Slot(p, k)),
                        Touched(FIRST_PAGE, HEAP_PAGES, k, Slot(p, k)), drawn);
    }
  }

  /** Distinct heap addresses have distinct physical addresses. */
  lemma HeapIsInjective(s: Space, t: Space, fs: seq<nat>, next: nat, o: nat, o': nat)
    requires Progress(s, t, fs, next, FIRST_PAGE, HEAP_PAGES)
    requires o < o' < 0x80_0000
    ensures VirtToPhys(t, 0x4444_4444_0000 + o) != VirtToPhys(t, 0x4444_4444_0000 + o')
  {
    hide VirtToPhys, LeavesMapped, TablesLinked, DataApart, WellFormed, TablesDrawn, Draws;
    HeapTranslates(s, t, fs, next, o);
    HeapTranslates(s, t, fs, next, o');
    var d, d' := DataIndex(s, FIRST_PAGE, next, o / PAGE), DataIndex(s, FIRST_PAGE, next, o' / PAGE);
    if o / PAGE < o' / PAGE {
      DataIndexIncreases(s, FIRST_PAGE, next, o / PAGE, o' / PAGE);
      assert fs[d] != fs[d'];
    } else {
      assert o % PAGE != o' % PAGE;
    }
  }

  /** The frame of a heap page is usable memory, and no page table, old or new, lies in it. */
  lemma HeapFramesAreUsable(s: Space, t: Space, rs: seq<Region>, next: nat, i: nat)
    requires Progress(s, t, UsableFrames(rs), next, FIRST_PAGE, HEAP_PAGES)
    requires i < HEAP_PAGES
    ensures var f := DataFrame(s, UsableFrames(rs), next, FIRST_PAGE, i);
      !IsTable(t, f) && InUsableRegion(rs, f)
  {
    hide LeavesMapped, TablesLinked, WellFormed, TablesDrawn, Draws, InUsableRegion, UsableFrames, IsTable;
    DataIndexIncreases(s, FIRST_PAGE, next, i, HEAP_PAGES);
    var f := DataFrame(s, UsableFrames(rs), next, FIRST_PAGE, i);
    assert f == UsableFrames(rs)[DataIndex(s, FIRST_PAGE, next, i)];
    Listed(rs, f);
  }

  /** After the run every table is one that was there before, or a usable frame drawn for the purpose. */
  lemma TablesOldOrDrawn(s: Space, t: Space, rs: seq<Region>, next: nat, first: nat, n: nat, f: nat)
    requires Clean(s) && Progress(s, t, UsableFrames(rs), next, first, n)
    requires IsTable(t, f)
    ensures IsTable(s, f) ||
      (f in UsableFrames(rs)[next..DataIndex(s, first, next, n)] && InUsableRegion(rs, f))
  {
    hide EntryAt, LeavesMapped, DataApart, WellFormed, TablesDrawn, Draws, InUsableRegion, UsableFrames, Touched;
    var drawn := UsableFrames(rs)[next..DataIndex(s, first, next, n)];
    var k: nat, q: nat :| k <= 3 && Node(t, k, q) == Some(f);
    if k == 0 {
      assert Node(s, 0, q) == Some(f);
    } else {
      assert EntryAfter(EntryAt(s, k, q), EntryAt(t, k, q), Touched(first, n, k, q), drawn);
      if EntryAt(s, k, q) == UNUSED {
        Listed(rs, f);
      } else {
        assert Node(s, k, q) == Some(f);
      }
    }
  }

  // --- what the tables cost -----------------------------------------------------

  /** How many of the slots `lo..hi` of depth `k` hold no table. */
  function MissingSlots(s: Space, k: nat, lo: nat, hi: nat): nat
    requires 1 <= k && lo <= hi
  {
    if lo == hi then 0
    else MissingSlots(s, k, lo, hi - 1) + if EntryAt(s, k, hi - 1) == UNUSED then 1 else 0
  }

  /** The slots of depth `k` that the run goes through and that hold no table. */
  function MissingForRun(s: Space, first: nat, n: nat, k: nat): nat
    requires 1 <= k && 0 < n
  {
    var lo, hi := Slot(first, k), Slot(first + n - 1, k);
    if lo <= hi then MissingSlots(s, k, lo, hi + 1) else 0
  }

  lemma SlotSteps(p: nat, k: nat)
    requires 1 <= k <= 3
    ensures Slot(p, k) <= Slot(p + 1, k) <= Slot(p, k) + 1
  {
  }

  lemma {:induction false} SlotMonotone(p: nat, n: nat, k: nat)
    requires 1 <= k <= 3
    ensures Slot(p, k) <= Slot(p + n, k)
  {
  }

  lemma OneMorePage(s: Space, first: nat, n: nat, k: nat)
    requires 1 <= k <= 3 && 0 < n
    ensures MissingForRun(s, first, n + 1, k) == MissingForRun(s, first, n, k) + NewAt(s, first, n, k)
  {
    hide Slot, EntryAt;
    SlotSteps(first + n - 1, k);
    SlotMonotone(first, n - 1, k);
    SlotMonotone(first, n, k);
  }

  /** The tables a run draws are exactly those missing along its path in the starting tree. */
  lemma {:induction false} DrawsTheMissingTables(s: Space, first: nat, n: nat)
    requires 0 < n
    ensures TablesDrawn(s, first, n) ==
      MissingForRun(s, first, n, 1) + MissingForRun(s, first, n, 2) + MissingForRun(s, first, n, 3)
  {
    hide EntryAt, Slot, MissingForRun;
    if n == 1 {
      FirstPageDraws(s, first, 1);
      FirstPageDraws(s, first, 2);
      FirstPageDraws(s, first, 3);
      assert TablesDrawn(s, first, 1) == TablesDrawn(s, first, 0) + Draws(s, first, 0);
    } else {
      DrawsTheMissingTables(s, first, n - 1);
      OneMorePage(s, first, n - 1, 1);
      OneMorePage(s, first, n - 1, 2);
      OneMorePage(s, first, n - 1, 3);
    }
  }

  lemma FirstPageDraws(s: Space, first: nat, k: nat)
    requires 1 <= k <= 3
    ensures MissingForRun(s, first, 1, k) == NewAt(s, first, 0, k)
  {
    hide Slot, EntryAt;
    assert MissingSlots(s, k, Slot(first, k), Slot(first, k)) == 0;
  }

  lemma {:induction false} MissingAtMost(s: Space, k: nat, lo: nat, hi: nat)
    requires 1 <= k && lo <= hi
    ensures MissingSlots(s, k, lo, hi) <= hi - lo
  {
    hide EntryAt;
    if lo < hi {
      MissingAtMost(s, k, lo, hi - 1);
    }
  }

  lemma HeapSlots()
    ensures Slot(FIRST_PAGE + HEAP_PAGES - 1, 1) == Slot(FIRST_PAGE, 1)
    ensures Slot(FIRST_PAGE + HEAP_PAGES - 1, 2) == Slot(FIRST_PAGE, 2)
    ensures Slot(FIRST_PAGE + HEAP_PAGES - 1, 3) == Slot(FIRST_PAGE, 3) + 4
  {
  }

  /** Whatever the starting tree, the tables of the 2048-page heap cost at most seven frames. */
  lemma HeapDrawsAtMostSevenTables(s: Space)
    ensures TablesDrawn(s, FIRST_PAGE, HEAP_PAGES) <= 7
  {
    hide EntryAt, TablesDrawn, MissingSlots, Slot;
    HeapSlots();
    DrawsTheMissingTables(s, FIRST_PAGE, HEAP_PAGES);
    MissingAtMost(s, 1, Slot(FIRST_PAGE, 1), Slot(FIRST_PAGE, 1) + 1);
    MissingAtMost(s, 2, Slot(FIRST_PAGE, 2), Slot(FIRST_PAGE, 2) + 1);
    MissingAtMost(s, 3, Slot(FIRST_PAGE, 3), Slot(FIRST_PAGE, 3) + 5);
  }

  /** So 2055 frames are enough for any tree in which the range is free to map. */
  lemma EnoughFramesForTheHeap(s: Space, fs: seq<nat>, next: nat)
    requires forall page: nat :: FIRST_PAGE <= page < FIRST_PAGE + HEAP_PAGES ==> Mappable(s, page)
    requires next + HEAP_PAGES + 7 <= |fs|
    ensures HeapFits(s, fs, next)
  {
    hide Mappable, TablesDrawn;
    HeapDrawsAtMostSevenTables(s);
  }

  /** The starting conditions can be met: an empty level-4 table outside the frames still to be issued. */
  lemma EmptyTreeFits(root: nat, rs: seq<Region>, next: nat)
    requires PairwiseDisjoint(rs) && next + HEAP_PAGES + 7 <= |UsableFrames(rs)|
    requires root !in UsableFrames(rs)[next..]
    ensures Ready(Space(map[], root), UsableFrames(rs), next)
    ensures HeapFits(Space(map[], root), UsableFrames(rs), next)
  {
    hide UsableFrames, Slot;
    var s, fs := Space(map[], root), UsableFrames(rs);
    DistinctIffDisjoint(rs);
    forall k: nat, q: nat | 1 <= k ensures EntryAt(s, k, q) == UNUSED {
    }
    forall j | next <= j < |fs| ensures !IsTable(s, fs[j]) {
      assert fs[j] == fs[next..][j - next] && fs[j] != root;
      forall k: nat, q: nat ensures Node(s, k, q) != Some(fs[j]) {
        assert k > 0 ==> EntryAt(s, k, q) == UNUSED;
      }
    }
    EnoughFramesForTheHeap(s, fs, next);
  }
}
