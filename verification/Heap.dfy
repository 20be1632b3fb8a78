/**
 The kernel heap (kernel/src/allocator.rs): the loop that draws a data frame for each page and
 maps it, while mapping draws table frames from the same allocator in between.
 */
module Heap {
  import opened Wrappers
  import opened Frames
  import opened Paging
  import opened Mapper

  const HEAP_START := 0x4444_4444_0000
  const HEAP_SIZE := 8 * 1024 * 1024

  // --- where the frames of a run of pages come from ---------------------------

  /** Does page `i` of the run need a new table at depth `k`, given the tree before the run? */
  function NewAt(s: Space, first: nat, i: nat, k: nat): nat
    requires 1 <= k
  {
    if EntryAt(s, k, Slot(first + i, k)) == UNUSED && (i == 0 || Slot(first + i - 1, k) != Slot(first + i, k))
    then 1 else 0
  }

  /** How many table frames mapping page `i` of the run draws. */
  function Draws(s: Space, first: nat, i: nat): nat {
    NewAt(s, first, i, 1) + NewAt(s, first, i, 2) + NewAt(s, first, i, 3)
  }

  /** How many table frames mapping the first `n` pages of the run draws. */
  function TablesDrawn(s: Space, first: nat, n: nat): nat {
    if n == 0 then 0 else TablesDrawn(s, first, n - 1) + Draws(s, first, n - 1)
  }

  /** The position in the frame list of the data frame of page `i`. */
  function DataIndex(s: Space, first: nat, next: nat, i: nat): nat {
    next + i + TablesDrawn(s, first, i)
  }

  /** The data frame of page `i`. */
  function DataFrame(s: Space, fs: seq<nat>, next: nat, first: nat, i: nat): nat {
    var j := DataIndex(s, first, next, i);
    if j < |fs| then fs[j] else 0
  }

  lemma {:induction false} DataIndexIncreases(s: Space, first: nat, next: nat, i: nat, j: nat)
    requires i < j
    ensures DataIndex(s, first, next, i) + Draws(s, first, i) < DataIndex(s, first, next, j)
    decreases j
  {
    hide Draws;
    if i + 1 < j {
      DataIndexIncreases(s, first, next, i, j - 1);
    }
  }

  // --- the state after the first `n` pages ------------------------------------

  /** Is slot `q` of depth `k` on the path of one of the first `n` pages? */
  predicate Touched(first: nat, n: nat, k: nat, q: nat) {
    0 < n && Slot(first, k) <= q <= Slot(first + n - 1, k)
  }

  /** What became of a table entry: kept, upgraded, or linked to one of the frames drawn. */
  ghost predicate EntryAfter(e: Entry, g: Entry, touched: bool, drawn: seq<nat>) {
    if !touched then g == e
    else if e == UNUSED then g == Linked(g.frame) && g.frame in drawn
    else g == Upgraded(e) && !e.huge
  }

  ghost predicate LeavesMapped(s: Space, t: Space, fs: seq<nat>, next: nat, first: nat, n: nat) {
    forall q: nat :: EntryAt(t, 4, q) ==
      if first <= q < first + n then Linked(DataFrame(s, fs, next, first, q - first)) else EntryAt(s, 4, q)
  }

  ghost predicate TablesLinked(s: Space, t: Space, drawn: seq<nat>, first: nat, n: nat) {
    forall k: nat, q: nat :: 1 <= k <= 3 ==>
      EntryAfter(EntryAt(s, k, q), EntryAt(t, k, q), Touched(first, n, k, q), drawn)
  }

  /** No frame given to a page is a page table. */
  ghost predicate DataApart(s: Space, t: Space, fs: seq<nat>, next: nat, first: nat, n: nat) {
    forall i: nat :: i < n ==> !IsTable(t, DataFrame(s, fs, next, first, i))
  }

  /** `t` is the tree `s` after mapping the `n` pages from `first`, drawing frames of `fs` from position `next` on. */
  ghost predicate Progress(s: Space, t: Space, fs: seq<nat>, next: nat, first: nat, n: nat) {
    var end := DataIndex(s, first, next, n);
    && t.root == s.root
    && end <= |fs|
    && Ready(t, fs, end)
    && LeavesMapped(s, t, fs, next, first, n)
    && TablesLinked(s, t, fs[next..end], first, n)
    && DataApart(s, t, fs, next, first, n)
  }

  /** A slot on the path of page `first + n` was touched before exactly when the previous page shares it. */
  lemma TouchedBefore(first: nat, n: nat, k: nat)
    requires 1 <= k <= 4
    ensures Touched(first, n, k, Slot(first + n, k)) <==> 0 < n && Slot(first + n - 1, k) == Slot(first + n, k)
    ensures forall q: nat :: Touched(first, n + 1, k, q) <==> Touched(first, n, k, q) || q == Slot(first + n, k)
  {
  }

  lemma NewAtIsUnused(s: Space, t: Space, drawn: seq<nat>, first: nat, n: nat, k: nat)
    requires TablesLinked(s, t, drawn, first, n) && 1 <= k <= 3
    ensures EntryAt(t, k, Slot(first + n, k)) == UNUSED <==> NewAt(s, first, n, k) == 1
    ensures EntryAt(t, k, Slot(first + n, k)).huge == EntryAt(s, k, Slot(first + n, k)).huge
  {
    TouchedBefore(first, n, k);
    assert EntryAfter(EntryAt(s, k, Slot(first + n, k)), EntryAt(t, k, Slot(first + n, k)),
                      Touched(first, n, k, Slot(first + n, k)), drawn);
  }

  /** Along the run, the tables still missing for the next page are those the first tree lacks. */
  lemma MissingIsDraws(s: Space, t: Space, drawn: seq<nat>, first: nat, n: nat)
    requires TablesLinked(s, t, drawn, first, n)
    ensures Missing(t, first + n, 3) == Draws(s, first, n)
  {
    MissingSteps(t, first + n);
    NewAtIsUnused(s, t, drawn, first, n, 1);
    NewAtIsUnused(s, t, drawn, first, n, 2);
    NewAtIsUnused(s, t, drawn, first, n, 3);
  }

  /** The next page is free to map exactly when it was before the run. */
  lemma MappableStill(s: Space, t: Space, fs: seq<nat>, drawn: seq<nat>, next: nat, first: nat, n: nat)
    requires TablesLinked(s, t, drawn, first, n) && LeavesMapped(s, t, fs, next, first, n)
    ensures Mappable(t, first + n) <==> Mappable(s, first + n)
  {
    NewAtIsUnused(s, t, drawn, first, n, 1);
    NewAtIsUnused(s, t, drawn, first, n, 2);
    NewAtIsUnused(s, t, drawn, first, n, 3);
  }

  /** The table entry made for the next page links one of the frames drawn for it, or what it linked before. */
  lemma MadeFromDrawn(t: Space, page: nat, fs: seq<nat>, m: nat, k: nat)
    requires 1 <= k <= 3 && m + Missing(t, page, 3) <= |fs|
    ensures var e, g := EntryAt(t, k, Slot(page, k)), Made(t, page, fs, m, k);
      if e == UNUSED then g == Linked(g.frame) && g.frame in fs[m..m + Missing(t, page, 3)] else g == Upgraded(e)
  {
    MissingSteps(t, page);
    var j := Missing(t, page, k - 1);
    if EntryAt(t, k, Slot(page, k)) == UNUSED {
      assert fs[m..m + Missing(t, page, 3)][j] == fs[m + j];
    }
  }

  lemma TablesStep(s: Space, t: Space, u: Space, fs: seq<nat>, from: nat, m: nat, first: nat, n: nat, frame: nat)
    requires from <= m && m + Missing(t, first + n, 3) <= |fs|
    requires TablesLinked(s, t, fs[from..m], first, n)
    requires Mappable(s, first + n) && Mapped(t, u, first + n, frame, fs, m)
    ensures TablesLinked(s, u, fs[from..m + Missing(t, first + n, 3)], first, n + 1)
  {
    hide EntryAt, Missing, Made, Slot, Touched;
    var m' := m + Missing(t, first + n, 3);
    assert fs[from..m'] == fs[from..m] + fs[m..m'];
    forall k: nat, q: nat | 1 <= k <= 3
      ensures EntryAfter(EntryAt(s, k, q), EntryAt(u, k, q), Touched(first, n + 1, k, q), fs[from..m'])
    {
      TouchedBefore(first, n, k);
      MadeFromDrawn(t, first + n, fs, m, k);
      assert EntryAfter(EntryAt(s, k, q), EntryAt(t, k, q), Touched(first, n, k, q), fs[from..m]);
    }
  }

  /** Mapping a page turns no frame into a table but those it draws. */
  lemma TablesFromDrawn(t: Space, u: Space, page: nat, frame: nat, fs: seq<nat>, m: nat, f: nat)
    requires Clean(t) && m + Missing(t, page, 3) <= |fs|
    requires Mapped(t, u, page, frame, fs, m)
    requires !IsTable(t, f) && f !in fs[m..m + Missing(t, page, 3)]
    ensures !IsTable(u, f)
  {
    hide EntryAt, Missing, Made, Slot;
    forall k: nat, q: nat | k <= 3 ensures Node(u, k, q) != Some(f) {
      assert Node(t, k, q) != Some(f);
      if 1 <= k {
        MadeFromDrawn(t, page, fs, m, k);
      }
    }
  }

  lemma DataStep(s: Space, t: Space, u: Space, fs: seq<nat>, next: nat, first: nat, n: nat)
    requires Ready(t, fs, DataIndex(s, first, next, n))
    requires DataApart(s, t, fs, next, first, n)
    requires Missing(t, first + n, 3) == Draws(s, first, n) && DataIndex(s, first, next, n + 1) <= |fs|
    requires Mapped(t, u, first + n, DataFrame(s, fs, next, first, n), fs, DataIndex(s, first, next, n) + 1)
    ensures DataApart(s, u, fs, next, first, n + 1)
  {
    hide IsTable, Mapped, TreeShaped, Clean, Missing, Draws;
    var m := DataIndex(s, first, next, n);
    forall i: nat | i < n + 1 ensures !IsTable(u, DataFrame(s, fs, next, first, i)) {
      var d := DataIndex(s, first, next, i);
      if i < n {
        DataIndexIncreases(s, first, next, i, n);
      }
      assert DataFrame(s, fs, next, first, i) == fs[d];
      assert !IsTable(t, fs[d]);
      TablesFromDrawn(t, u, first + n, fs[m], fs, m + 1, fs[d]);
    }
  }

  /** Mapping the next page carries the whole invariant one page further. */
  lemma ProgressStep(s: Space, t: Space, u: Space, fs: seq<nat>, next: nat, first: nat, n: nat)
    requires Progress(s, t, fs, next, first, n)
    requires Mappable(s, first + n) && DataIndex(s, first, next, n + 1) <= |fs|
    requires Mapped(t, u, first + n, DataFrame(s, fs, next, first, n), fs, DataIndex(s, first, next, n) + 1)
    requires Ready(u, fs, DataIndex(s, first, next, n + 1))
    ensures Progress(s, u, fs, next, first, n + 1)
  {
    hide WellFormed, LeavesMapped, TablesLinked, DataApart, Made, EntryAt, Mappable, Missing, Draws, Ready;
    var m := DataIndex(s, first, next, n);
    MissingIsDraws(s, t, fs[next..m], first, n);
    DrawnGrows(s, t, fs[next..m], fs[next..m + 1], first, n);
    TablesStep(s, t, u, fs, next, m + 1, first, n, DataFrame(s, fs, next, first, n));
    DataStep(s, t, u, fs, next, first, n);
    LeavesStep(s, t, u, fs, next, first, n);
  }

  lemma DrawnGrows(s: Space, t: Space, drawn: seq<nat>, more: seq<nat>, first: nat, n: nat)
    requires TablesLinked(s, t, drawn, first, n) && drawn <= more
    ensures TablesLinked(s, t, more, first, n)
  {
    forall k: nat, q: nat | 1 <= k <= 3
      ensures EntryAfter(EntryAt(s, k, q), EntryAt(t, k, q), Touched(first, n, k, q), more)
    {
      assert EntryAfter(EntryAt(s, k, q), EntryAt(t, k, q), Touched(first, n, k, q), drawn);
    }
  }

  lemma LeavesStep(s: Space, t: Space, u: Space, fs: seq<nat>, next: nat, first: nat, n: nat)
    requires LeavesMapped(s, t, fs, next, first, n)
    requires Mapped(t, u, first + n, DataFrame(s, fs, next, first, n), fs, DataIndex(s, first, next, n) + 1)
    ensures LeavesMapped(s, u, fs, next, first, n + 1)
  {
    hide EntryAt, TablesDrawn, Made;
    forall q: nat
      ensures EntryAt(u, 4, q) ==
        if first <= q < first + n + 1 then Linked(DataFrame(s, fs, next, first, q - first)) else EntryAt(s, 4, q)
    {
      assert Slot(first + n, 4) == first + n;
    }
  }

  lemma ProgressStart(s: Space, fs: seq<nat>, next: nat, first: nat)
    requires Ready(s, fs, next) && next <= |fs|
    ensures Progress(s, s, fs, next, first, 0)
  {
    hide EntryAt, WellFormed;
  }

  /** Pages outside the run translate as they did before it. */
  lemma OthersUntouched(s: Space, t: Space, fs: seq<nat>, next: nat, first: nat, n: nat, va: nat)
    requires Clean(s) && Progress(s, t, fs, next, first, n)
    requires !(first <= PageOf(va) < first + n)
    ensures VirtToPhys(t, va) == VirtToPhys(s, va)
  {
    hide VirtToPhys, Node, Slot, Touched, WellFormed, DataApart, DataFrame, TablesDrawn;
    var drawn := fs[next..DataIndex(s, first, next, n)];
    forall k | 1 <= k <= 3
      ensures Grown(EntryAt(s, k, Slot(PageOf(va), k)), EntryAt(t, k, Slot(PageOf(va), k)))
    {
      var q := Slot(PageOf(va), k);
      assert EntryAfter(EntryAt(s, k, q), EntryAt(t, k, q), Touched(first, n, k, q), drawn);
    }
    GrownTranslatesAlike(s, t, va);
  }

  /** Every address of a mapped run translates to the frame drawn for its page, plus the low 12 bits. */
  lemma RunTranslates(s: Space, t: Space, fs: seq<nat>, next: nat, first: nat, n: nat, va: nat)
    requires Progress(s, t, fs, next, first, n)
    requires first <= PageOf(va) < first + n
    ensures DataIndex(s, first, next, PageOf(va) - first) < |fs|
    ensures VirtToPhys(t, va) == Some(PAGE * fs[DataIndex(s, first, next, PageOf(va) - first)] + va % PAGE)
  {
    hide EntryAt, VirtToPhys, TablesDrawn, Draws, WellFormed, DataApart;
    var p := PageOf(va);
    var drawn := fs[next..DataIndex(s, first, next, n)];
    WalkReadsItsPath(t, va);
    DataIndexIncreases(s, first, next, p - first, n);
    assert EntryAt(t, 4, p) == Linked(DataFrame(s, fs, next, first, p - first));
    forall k: nat | 1 <= k <= 3 ensures EntryAt(t, k, Slot(p, k)).present && !EntryAt(t, k, Slot(p, k)).huge {
      InRunIsTouched(first, n, p, k);
      assert EntryAfter(EntryAt(s, k, Slot(p, k)), EntryAt(t, k, Slot(p, k)), Touched(first, n, k, Slot(p, k)), drawn);
    }
  }

  lemma InRunIsTouched(first: nat, n: nat, p: nat, k: nat)
    requires first <= p < first + n && 1 <= k <= 4
    ensures Touched(first, n, k, Slot(p, k))
  {
  }

  // --- init_heap ----------------------------------------------------------------

  const FIRST_PAGE := HEAP_START / PAGE
  const HEAP_PAGES := HEAP_SIZE / PAGE

  /**
   What the heap needs of the starting tree and memory map: no page of the range is mapped or
   under a huge page, and the frames left suffice for the data and for the missing tables.
   */
  ghost predicate HeapFits(s: Space, fs: seq<nat>, next: nat) {
    && (forall page: nat :: FIRST_PAGE <= page < FIRST_PAGE + HEAP_PAGES ==> Mappable(s, page))
    && DataIndex(s, FIRST_PAGE, next, HEAP_PAGES) <= |fs|
  }

  lemma CannotFit(s: Space, fs: seq<nat>, next: nat, i: nat)
    requires i < HEAP_PAGES
    requires !Mappable(s, FIRST_PAGE + i) || DataIndex(s, FIRST_PAGE, next, i + 1) > |fs|
    ensures !HeapFits(s, fs, next)
  {
    hide Mappable, Draws;
    if i + 1 < HEAP_PAGES {
      DataIndexIncreases(s, FIRST_PAGE, next, i + 1, HEAP_PAGES);
    }
  }

  ghost predicate OutsideUnchanged(s: Space, t: Space) {
    forall va: nat :: !(FIRST_PAGE <= PageOf(va) < FIRST_PAGE + HEAP_PAGES) ==> VirtToPhys(t, va) == VirtToPhys(s, va)
  }

  /**
   What a failure at page `i` leaves behind: the first `i` pages mapped, and of the tables on the
   path of page `i` the first few made. A cursor already past the end leaves the tree as it was.
   */
  ghost predicate StoppedAt(s: Space, u: Space, fs: seq<nat>, next: nat, next': nat, i: nat, error: MapError) {
    if next > |fs| then i == 0 && u == s && next' == next + 1 && error == FrameAllocationFailed
    else exists t, d: nat :: d <= 3 && StoppedAfter(s, t, u, fs, next, next', i, d, error)
  }

  /** With `d == 0` no data frame was left; otherwise mapping the page to its data frame stopped at depth `d`. */
  ghost predicate StoppedAfter(s: Space, t: Space, u: Space, fs: seq<nat>, next: nat, next': nat, i: nat, d: nat,
                               error: MapError)
  {
    var m := DataIndex(s, FIRST_PAGE, next, i);
    && Progress(s, t, fs, next, FIRST_PAGE, i)
    && if d == 0 then u == t && m == |fs| && next' == m + 1 && error == FrameAllocationFailed
       else StopsAfter(t, u, FIRST_PAGE + i, DataFrame(s, fs, next, FIRST_PAGE, i), fs, m + 1, next', d, error)
  }

  /** After a failure at page `i`, the pages before it are mapped and every other page translates as before. */
  lemma StoppedTranslates(s: Space, u: Space, fs: seq<nat>, next: nat, next': nat, i: nat, error: MapError, va: nat)
    requires Clean(s) && i < HEAP_PAGES && StoppedAt(s, u, fs, next, next', i, error)
    ensures VirtToPhys(u, va) ==
      if FIRST_PAGE <= PageOf(va) < FIRST_PAGE + i
      then Some(PAGE * DataFrame(s, fs, next, FIRST_PAGE, PageOf(va) - FIRST_PAGE) + va % PAGE)
      else VirtToPhys(s, va)
  {
    hide VirtToPhys, Progress, TablesMade, TablesDrawn, PageOf, Clean;
    if next <= |fs| {
      var t, d: nat :| d <= 3 && StoppedAfter(s, t, u, fs, next, next', i, d, error);
      if d > 0 {
        ProgressIsClean(s, t, fs, next, FIRST_PAGE, i);
        TablesKeepTranslations(t, u, FIRST_PAGE + i, fs, DataIndex(s, FIRST_PAGE, next, i) + 1, d, va);
      }
      if FIRST_PAGE <= PageOf(va) < FIRST_PAGE + i {
        RunTranslates(s, t, fs, next, FIRST_PAGE, i, va);
      } else {
        OthersUntouched(s, t, fs, next, FIRST_PAGE, i, va);
      }
    }
  }

  lemma ProgressIsClean(s: Space, t: Space, fs: seq<nat>, next: nat, first: nat, n: nat)
    requires Progress(s, t, fs, next, first, n)
    ensures Clean(t)
  {
  }

  /** One round of the loop: draw a frame and map page `i` to it. */
  method MapHeapPage(mapper: PageMapper, alloc: FrameAllocator, page: nat,
                     ghost i: nat, ghost s: Space, ghost next: nat)
      returns (r: Result<(), MapError>)
    requires i < HEAP_PAGES && page == FIRST_PAGE + i && Clean(s)
    requires next <= |alloc.Frames()| ==> Progress(s, mapper.View(), alloc.Frames(), next, FIRST_PAGE, i)
    requires next > |alloc.Frames()| ==> i == 0 && mapper.View() == s
    requires alloc.next == DataIndex(s, FIRST_PAGE, next, i)
    modifies mapper`mem, alloc`next
    ensures r.Ok? <==> Mappable(s, page) && DataIndex(s, FIRST_PAGE, next, i + 1) <= |alloc.Frames()|
    ensures r.Ok? ==> Progress(s, mapper.View(), alloc.Frames(), next, FIRST_PAGE, i + 1)
    ensures r.Ok? ==> alloc.next == DataIndex(s, FIRST_PAGE, next, i + 1)
    ensures r.Err? ==> StoppedAt(s, mapper.View(), alloc.Frames(), next, alloc.next, i, r.error)
  {
    hide EntryAt, Node, Mappable, Missing, Draws, LeavesMapped, TablesLinked, DataApart, Mapped, StopsAfter, TreeShaped,
      IsTable, Clean;
    ghost var t, fs, m := mapper.View(), alloc.Frames(), alloc.next;
    var frame := alloc.AllocateFrame();
    if frame == None {
      assert next <= |fs| ==> StoppedAfter(s, t, mapper.View(), fs, next, alloc.next, i, 0, FrameAllocationFailed);
      return Err(FrameAllocationFailed);
    }
    MissingIsDraws(s, t, fs[next..m], FIRST_PAGE, i);
    MappableStill(s, t, fs, fs[next..m], next, FIRST_PAGE, i);
    assert frame.value == DataFrame(s, fs, next, FIRST_PAGE, i);
    assert Ready(t, fs, m + 1);
    r := mapper.MapTo(page, frame.value, alloc);
    if r.Ok? {
      ProgressStep(s, t, mapper.View(), fs, next, FIRST_PAGE, i);
    } else {
      ghost var d: nat :| 1 <= d <= 3
                          && StopsAfter(t, mapper.View(), page, frame.value, fs, m + 1, alloc.next, d, r.error);
      assert StoppedAfter(s, t, mapper.View(), fs, next, alloc.next, i, d, r.error);
    }
  }

  /**
   Map the heap. It succeeds exactly when the heap fits; on success the tree is the starting
   tree with every page of the range mapped in turn, on failure it is that tree with the pages
   before the failing one mapped, and whatever the outcome no address outside the range
   translates differently from before.
   */
  method InitHeap(mapper: PageMapper, alloc: FrameAllocator) returns (r: Result<(), MapError>)
    requires Ready(mapper.View(), alloc.Frames(), alloc.next)
    modifies mapper`mem, alloc`next
    ensures r.Ok? <==> HeapFits(old(mapper.View()), alloc.Frames(), old(alloc.next))
    ensures r.Ok? ==>
      Progress(old(mapper.View()), mapper.View(), alloc.Frames(), old(alloc.next), FIRST_PAGE, HEAP_PAGES)
    ensures r.Ok? ==> alloc.next == DataIndex(old(mapper.View()), FIRST_PAGE, old(alloc.next), HEAP_PAGES)
    ensures r.Err? ==> exists i: nat | i < HEAP_PAGES ::
                         StoppedAt(old(mapper.View()), mapper.View(), alloc.Frames(), old(alloc.next), alloc.next, i,
                                   r.error)
    ensures OutsideUnchanged(old(mapper.View()), mapper.View())
  {
    hide EntryAt, Node, VirtToPhys, Mappable, Draws, LeavesMapped, TablesLinked, DataApart, TreeShaped, Clean, IsTable,
      PageOf, StoppedAt;
    ghost var s, fs, next := mapper.View(), alloc.Frames(), alloc.next;
    var page, last := HEAP_START / PAGE, (HEAP_START + HEAP_SIZE - 1) / PAGE;
    ghost var i: nat := 0;
    if next <= |fs| {
      ProgressStart(s, fs, next, FIRST_PAGE);
    }
    while page <= last
      invariant i <= HEAP_PAGES && page == FIRST_PAGE + i
      invariant next <= |fs| ==> Progress(s, mapper.View(), fs, next, FIRST_PAGE, i)
      invariant next > |fs| ==> i == 0 && mapper.View() == s
      invariant alloc.next == DataIndex(s, FIRST_PAGE, next, i)
      invariant forall p: nat :: FIRST_PAGE <= p < page ==> Mappable(s, p)
    {
      r := MapHeapPage(mapper, alloc, page, i, s, next);
      if r.Err? {
        CannotFit(s, fs, next, i);
        forall va: nat | !(FIRST_PAGE <= PageOf(va) < FIRST_PAGE + HEAP_PAGES)
          ensures VirtToPhys(mapper.View(), va) == VirtToPhys(s, va)
        {
          StoppedTranslates(s, mapper.View(), fs, next, alloc.next, i, r.error, va);
        }
        return;
      }
      page, i := page + 1, i + 1;
    }
    forall va: nat | !(FIRST_PAGE <= PageOf(va) < FIRST_PAGE + HEAP_PAGES)
      ensures VirtToPhys(mapper.View(), va) == VirtToPhys(s, va)
    {
      OthersUntouched(s, mapper.View(), fs, next, FIRST_PAGE, HEAP_PAGES, va);
    }
    r := Ok(());
  }
}
