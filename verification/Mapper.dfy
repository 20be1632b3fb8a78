/**
 The page mapper that `init_heap` drives. `map_to` belongs to the x86_64 crate; its body here
 follows that crate: create the missing level-3, level-2 and level-1 tables one by one, each
 from the same frame allocator and zeroed after it is linked, then fill the level-1 entry.
 */
module Mapper {
  import opened Wrappers
  import opened Frames
  import opened Paging

  datatype MapError = FrameAllocationFailed | ParentEntryHugePage | PageAlreadyMapped(frame: nat)

  /** A present, writable entry, as written for new tables and for mapped pages. */
  function Linked(frame: nat): Entry {
    Entry(frame, true, true, false, 0)
  }

  /** An existing table entry with the flags of the new mapping added. */
  function Upgraded(e: Entry): Entry {
    Entry(e.frame, true, true, e.huge, e.other)
  }

  /** The tree is well formed and shares no frame with those still to be issued. */
  ghost predicate Ready(s: Space, fs: seq<nat>, next: nat) {
    WellFormed(s) && Distinct(fs) && forall j :: next <= j < |fs| ==> !IsTable(s, fs[j])
  }

  lemma AfterUpgrade(s: Space, k: nat, q: nat, f: nat, fs: seq<nat>, next: nat)
    requires Ready(s, fs, next)
    requires 1 <= k <= 3 && Node(s, k - 1, q / ENTRIES) == Some(f)
    requires EntryAt(s, k, q) != UNUSED
    ensures var t := Put(s, f, q % ENTRIES, Upgraded(EntryAt(s, k, q)));
      && OnlyChanges(s, t, k, q, Upgraded(EntryAt(s, k, q)))
      && Ready(t, fs, next)
      && forall j: nat, r: nat :: j <= 3 ==> Node(t, j, r) == Node(s, j, r)
  {
    var e := Upgraded(EntryAt(s, k, q));
    var t := Put(s, f, q % ENTRIES, e);
    forall j: nat, r: nat | j <= 4
      ensures j <= 3 ==> Node(t, j, r) == Node(s, j, r)
      ensures 1 <= j ==> EntryAt(t, j, r) == if j == k && r == q then e else EntryAt(s, j, r)
    {
      PutKeepsLinks(s, k, q, f, e, j, r);
    }
  }

  lemma AfterLeaf(s: Space, q: nat, f: nat, e: Entry, fs: seq<nat>, next: nat)
    requires Ready(s, fs, next)
    requires Node(s, 3, q / ENTRIES) == Some(f)
    ensures var t := Put(s, f, q % ENTRIES, e);
      && OnlyChanges(s, t, 4, q, e)
      && Ready(t, fs, next)
      && forall j: nat, r: nat :: j <= 3 ==> Node(t, j, r) == Node(s, j, r)
  {
    var t := Put(s, f, q % ENTRIES, e);
    forall j: nat, r: nat | j <= 4
      ensures j <= 3 ==> Node(t, j, r) == Node(s, j, r)
      ensures 1 <= j ==> EntryAt(t, j, r) == if j == 4 && r == q then e else EntryAt(s, j, r)
    {
      PutKeepsLinks(s, 4, q, f, e, j, r);
    }
  }

  lemma AfterNewTable(s: Space, k: nat, q: nat, f: nat, fs: seq<nat>, next: nat)
    requires Ready(s, fs, next) && next < |fs|
    requires 1 <= k <= 3 && Node(s, k - 1, q / ENTRIES) == Some(f)
    requires EntryAt(s, k, q) == UNUSED
    ensures var t := Zeroed(Put(s, f, q % ENTRIES, Linked(fs[next])), fs[next]);
      && OnlyChanges(s, t, k, q, Linked(fs[next]))
      && Ready(t, fs, next + 1)
      && forall j: nat, r: nat :: j <= 3 ==> Node(t, j, r) == if j == k && r == q then Some(fs[next]) else Node(s, j, r)
  {
    var e := Linked(fs[next]);
    var t := Zeroed(Put(s, f, q % ENTRIES, e), e.frame);
    forall j: nat, r: nat | j <= 4
      ensures j <= 3 ==> Node(t, j, r) == if j == k && r == q then Some(e.frame) else Node(s, j, r)
      ensures 1 <= j ==> EntryAt(t, j, r) == if j == k && r == q then e else EntryAt(s, j, r)
    {
      PutNewTable(s, k, q, f, e, j, r);
    }
  }

  /** How many of the first `k` entries on the path of `page` are unused, so need a new table. */
  function Missing(s: Space, page: nat, k: nat): nat {
    if k == 0 then 0
    else Missing(s, page, k - 1) + if EntryAt(s, k, Slot(page, k)) == UNUSED then 1 else 0
  }

  /** Are there `m` frames left to issue from position `next`? */
  predicate Enough(fs: seq<nat>, next: nat, m: nat) {
    m == 0 || next + m <= |fs|
  }

  /** Nothing on the path is a huge page, and the page itself is not mapped. */
  ghost predicate Mappable(s: Space, page: nat) {
    (forall k :: 1 <= k <= 3 ==> !EntryAt(s, k, Slot(page, k)).huge) && EntryAt(s, 4, page) == UNUSED
  }

  /** What becomes of the table entry at depth `k`: linked to the next free frame, or upgraded. */
  function Made(s: Space, page: nat, fs: seq<nat>, next: nat, k: nat): Entry
    requires 1 <= k
  {
    var e, j := EntryAt(s, k, Slot(page, k)), next + Missing(s, page, k - 1);
    if e != UNUSED then Upgraded(e) else if j < |fs| then Linked(fs[j]) else UNUSED
  }

  /** `t` is `s` with the first `d` tables on the path of `page` made, and nothing else changed. */
  ghost predicate TablesMade(s: Space, t: Space, page: nat, fs: seq<nat>, next: nat, d: nat) {
    && t.root == s.root
    && forall k: nat, q: nat :: 1 <= k <= 4 ==>
         EntryAt(t, k, q) == if k <= d && q == Slot(page, k) then Made(s, page, fs, next, k) else EntryAt(s, k, q)
  }

  /** Why mapping `page` to `frame` stopped after looking at the first `d` table entries of the path. */
  ghost predicate Cause(s: Space, page: nat, frame: nat, fs: seq<nat>, next: nat, d: nat, error: MapError)
    requires 1 <= d
  {
    match error
    case FrameAllocationFailed => EntryAt(s, d, Slot(page, d)) == UNUSED && next + Missing(s, page, d) > |fs|
    case ParentEntryHugePage => EntryAt(s, d, Slot(page, d)).huge
    case PageAlreadyMapped(f) => d == 3 && f == frame && EntryAt(s, 4, page) != UNUSED
  }

  /** A mapping that failed made the first `d` tables and moved the cursor once for each that was missing. */
  ghost predicate StopsAfter(s: Space, t: Space, page: nat, frame: nat, fs: seq<nat>, next: nat, next': nat, d: nat,
                             error: MapError)
    requires 1 <= d
  {
    && TablesMade(s, t, page, fs, next, d) && next' == next + Missing(s, page, d)
    && Cause(s, page, frame, fs, next, d, error)
  }

  /** `t` is `s` with `page` mapped to `frame`, and nothing else changed. */
  ghost predicate Mapped(s: Space, t: Space, page: nat, frame: nat, fs: seq<nat>, next: nat) {
    && t.root == s.root
    && forall k: nat, q: nat :: 1 <= k <= 4 ==>
         EntryAt(t, k, q) == if q != Slot(page, k) then EntryAt(s, k, q)
                             else if k == 4 then Linked(frame) else Made(s, page, fs, next, k)
  }

  /** Where an entry is unused, so is everything below it. */
  lemma UnusedBelow(s: Space, page: nat)
    requires page < PAGES
    ensures forall k :: 1 <= k <= 3 && EntryAt(s, k, Slot(page, k)) == UNUSED ==>
      EntryAt(s, k + 1, Slot(page, k + 1)) == UNUSED
  {
    SlotsNest(page);
  }

  /** How an entry above the leaves may change: a table is linked where there was none, or flags are added. */
  ghost predicate Grown(e: Entry, g: Entry) {
    g == e || (e == UNUSED && g.present && !g.huge) || (e.present && g == Upgraded(e))
  }

  lemma GrownResolvesAlike(e4: Entry, e3: Entry, e2: Entry, e1: Entry, g4: Entry, g3: Entry, g2: Entry, va: nat)
    requires Grown(e4, g4) && Grown(e3, g3) && Grown(e2, g2)
    requires (e4 == UNUSED ==> e3 == UNUSED) && (e3 == UNUSED ==> e2 == UNUSED) && (e2 == UNUSED ==> e1 == UNUSED)
    ensures Resolve(g4, g3, g2, e1, va) == Resolve(e4, e3, e2, e1, va)
  {
  }

  lemma GrownTranslatesAlike(s: Space, t: Space, va: nat)
    requires forall k :: 1 <= k <= 3 ==> Grown(EntryAt(s, k, Slot(PageOf(va), k)), EntryAt(t, k, Slot(PageOf(va), k)))
    requires EntryAt(t, 4, PageOf(va)) == EntryAt(s, 4, PageOf(va))
    ensures VirtToPhys(t, va) == VirtToPhys(s, va)
  {
    var p := PageOf(va);
    WalkReadsItsPath(s, va);
    WalkReadsItsPath(t, va);
    UnusedBelow(s, p);
    GrownResolvesAlike(
      EntryAt(s, 1, Slot(p, 1)), EntryAt(s, 2, Slot(p, 2)), EntryAt(s, 3, Slot(p, 3)), EntryAt(s, 4, Slot(p, 4)),
      EntryAt(t, 1, Slot(p, 1)), EntryAt(t, 2, Slot(p, 2)), EntryAt(t, 3, Slot(p, 3)), va);
  }

  /** Making tables changes no translation at all. */
  lemma TablesKeepTranslations(s: Space, t: Space, page: nat, fs: seq<nat>, next: nat, d: nat, va: nat)
    requires Clean(s) && d <= 3
    requires TablesMade(s, t, page, fs, next, d)
    ensures VirtToPhys(t, va) == VirtToPhys(s, va)
  {
    GrownTranslatesAlike(s, t, va);
  }

  /** Mapping a page changes no translation but that page's. */
  lemma MappingKeepsOtherTranslations(s: Space, t: Space, page: nat, frame: nat, fs: seq<nat>, next: nat, va: nat)
    requires Clean(s) && PageOf(va) != page
    requires Mapped(s, t, page, frame, fs, next)
    ensures VirtToPhys(t, va) == VirtToPhys(s, va)
  {
    GrownTranslatesAlike(s, t, va);
  }

  /** The mapped page translates to its frame. */
  lemma MappedPageTranslates(s: Space, t: Space, page: nat, frame: nat, fs: seq<nat>, next: nat, va: nat)
    requires page < PAGES && PageOf(va) == page
    requires Mappable(s, page) && Enough(fs, next, Missing(s, page, 3))
    requires Mapped(s, t, page, frame, fs, next)
    ensures VirtToPhys(t, va) == Some(PAGE * frame + va % PAGE)
  {
    WalkReadsItsPath(t, va);
    MissingSteps(s, page);
    assert EntryAt(t, 4, page) == Linked(frame);
    forall k | 1 <= k <= 3 ensures EntryAt(t, k, Slot(page, k)).present && !EntryAt(t, k, Slot(page, k)).huge {
      assert EntryAt(t, k, Slot(page, k)) == Made(s, page, fs, next, k);
    }
  }

  /** The whole path of a mapped page is present and writable, and nothing on it is huge. */
  lemma MappedPathIsWritable(s: Space, t: Space, page: nat, frame: nat, fs: seq<nat>, next: nat)
    requires Mappable(s, page) && Enough(fs, next, Missing(s, page, 3))
    requires Mapped(s, t, page, frame, fs, next)
    ensures forall k :: 1 <= k <= 4 ==> var e := EntryAt(t, k, Slot(page, k)); e.present && e.writable && !e.huge
    ensures EntryAt(t, 4, page).frame == frame && EntryAt(t, 4, page).other == 0
  {
    hide EntryAt, Slot;
    MissingSteps(s, page);
    LeafSlot(page);
    forall k: nat | 1 <= k <= 4
      ensures EntryAt(t, k, Slot(page, k)) == if k == 4 then Linked(frame) else Made(s, page, fs, next, k)
    {
    }
  }

  lemma LeafSlot(page: nat)
    ensures Slot(page, 4) == page
  {
  }

  lemma MissingSteps(s: Space, page: nat)
    ensures Missing(s, page, 0) == 0
    ensures forall k {:trigger Missing(s, page, k)} :: 1 <= k <= 3 ==>
      Missing(s, page, k) == Missing(s, page, k - 1) + if EntryAt(s, k, Slot(page, k)) == UNUSED then 1 else 0
    ensures Missing(s, page, 0) <= Missing(s, page, 1) <= Missing(s, page, 2) <= Missing(s, page, 3)
  {
    assert Missing(s, page, 1) == Missing(s, page, 0) + if EntryAt(s, 1, Slot(page, 1)) == UNUSED then 1 else 0;
    assert Missing(s, page, 2) == Missing(s, page, 1) + if EntryAt(s, 2, Slot(page, 2)) == UNUSED then 1 else 0;
    assert Missing(s, page, 3) == Missing(s, page, 2) + if EntryAt(s, 3, Slot(page, 3)) == UNUSED then 1 else 0;
  }

  lemma OneMoreTable(s: Space, t: Space, u: Space, page: nat, fs: seq<nat>, next: nat, k: nat)
    requires 1 <= k <= 3
    requires TablesMade(s, t, page, fs, next, k - 1)
    requires OnlyChanges(t, u, k, Slot(page, k), Made(s, page, fs, next, k))
    ensures TablesMade(s, u, page, fs, next, k)
  {
  }

  lemma ThenTheLeaf(s: Space, t: Space, u: Space, page: nat, frame: nat, fs: seq<nat>, next: nat)
    requires TablesMade(s, t, page, fs, next, 3)
    requires OnlyChanges(t, u, 4, page, Linked(frame))
    ensures Mapped(s, u, page, frame, fs, next)
  {
  }

  class PageMapper {
    const root: nat
    var mem: Memory

    constructor (mem: Memory, root: nat)
      ensures this.mem == mem && this.root == root
    {
      this.mem := mem;
      this.root := root;
    }

    ghost function View(): Space
      reads this
    {
      Space(mem, root)
    }

    /** Make sure the entry `index` of table `table`, at place `(k, q)`, links a table, and return that table. */
    method CreateNextTable(table: nat, index: nat, alloc: FrameAllocator, ghost k: nat, ghost q: nat)
        returns (r: Result<nat, MapError>)
      requires Ready(View(), alloc.Frames(), alloc.next)
      requires 1 <= k <= 3 && Node(View(), k - 1, q / ENTRIES) == Some(table) && index == q % ENTRIES
      modifies this`mem, alloc`next
      ensures Ready(View(), alloc.Frames(), alloc.next)
      ensures
        var e := EntryAt(old(View()), k, q);
        if e != UNUSED then
          && alloc.next == old(alloc.next)
          && OnlyChanges(old(View()), View(), k, q, Upgraded(e))
          && r == (if e.huge then Err(ParentEntryHugePage) else Ok(e.frame))
        else
          && alloc.next == old(alloc.next) + 1
          && if old(alloc.next) < |alloc.Frames()| then
               && OnlyChanges(old(View()), View(), k, q, Linked(alloc.Frames()[old(alloc.next)]))
               && r == Ok(alloc.Frames()[old(alloc.next)])
             else
               View() == old(View()) && r == Err(FrameAllocationFailed)
      ensures r.Ok? ==> Node(View(), k, q) == Some(r.value)
    {
      var space := Space(mem, root);
      var entry := TableAt(space, table)[index];
      if entry == UNUSED {
        var frame := alloc.AllocateFrame();
        if frame == None {
          return Err(FrameAllocationFailed);
        }
        AfterNewTable(space, k, q, table, alloc.Frames(), old(alloc.next));
        mem := Put(space, table, index, Linked(frame.value)).mem;
        mem := Zeroed(Space(mem, root), frame.value).mem;
        r := Ok(frame.value);
      } else {
        AfterUpgrade(space, k, q, table, alloc.Frames(), alloc.next);
        mem := Put(space, table, index, Upgraded(entry)).mem;
        r := if entry.huge then Err(ParentEntryHugePage) else Ok(entry.frame);
      }
    }

    /** One level of the descent for `page`, of which `s` and `n` are the tree and the cursor at the start. */
    method Descend(page: nat, table: nat, index: nat, alloc: FrameAllocator, ghost k: nat, ghost s: Space, ghost n: nat)
        returns (r: Result<nat, MapError>)
      requires page < PAGES && 1 <= k <= 3 && index == Slot(page, k) % ENTRIES
      requires Ready(View(), alloc.Frames(), alloc.next)
      requires Node(View(), k - 1, Slot(page, k) / ENTRIES) == Some(table)
      requires TablesMade(s, View(), page, alloc.Frames(), n, k - 1)
      requires alloc.next == n + Missing(s, page, k - 1) && Enough(alloc.Frames(), n, Missing(s, page, k - 1))
      modifies this`mem, alloc`next
      ensures Ready(View(), alloc.Frames(), alloc.next)
      ensures TablesMade(s, View(), page, alloc.Frames(), n, k)
      ensures alloc.next == n + Missing(s, page, k)
      ensures r.Ok? <==> !EntryAt(s, k, Slot(page, k)).huge && Enough(alloc.Frames(), n, Missing(s, page, k))
      ensures r.Ok? ==> Node(View(), k, Slot(page, k)) == Some(r.value)
      ensures r.Err? ==> forall frame: nat :: Cause(s, page, frame, alloc.Frames(), n, k, r.error)
    {
      ghost var t, fs, q := View(), alloc.Frames(), Slot(page, k);
      ghost var e := EntryAt(s, k, q);
      assert EntryAt(t, k, q) == e;
      r := CreateNextTable(table, index, alloc, k, q);
      assert OnlyChanges(t, View(), k, q, Made(s, page, fs, n, k));
      OneMoreTable(s, t, View(), page, fs, n, k);
      assert alloc.next == n + Missing(s, page, k);
    }

    /** Make the tables on the path of `page`, and return its level-1 table. */
    method MakeTables(page: nat, ghost frame: nat, alloc: FrameAllocator) returns (r: Result<nat, MapError>)
      requires page < PAGES
      requires Ready(View(), alloc.Frames(), alloc.next)
      modifies this`mem, alloc`next
      ensures Ready(View(), alloc.Frames(), alloc.next)
      ensures r.Ok? <==> (forall k :: 1 <= k <= 3 ==> !EntryAt(old(View()), k, Slot(page, k)).huge)
                         && Enough(alloc.Frames(), old(alloc.next), Missing(old(View()), page, 3))
      ensures r.Ok? ==> alloc.next == old(alloc.next) + Missing(old(View()), page, 3)
      ensures r.Ok? ==> TablesMade(old(View()), View(), page, alloc.Frames(), old(alloc.next), 3)
      ensures r.Ok? ==> Node(View(), 3, Slot(page, 3)) == Some(r.value)
      ensures r.Err? ==> exists d: nat | 1 <= d <= 3 ::
                           StopsAfter(old(View()), View(), page, frame, alloc.Frames(), old(alloc.next), alloc.next, d,
                                      r.error)
    {
      ghost var s, n := View(), alloc.next;
      SlotsNest(page);
      MissingSteps(s, page);
      r := Descend(page, root, page / 0x800_0000 % ENTRIES, alloc, 1, s, n);
      if r.Err? {
        assert StopsAfter(s, View(), page, frame, alloc.Frames(), n, alloc.next, 1, r.error);
        return;
      }
      r := Descend(page, r.value, page / 0x4_0000 % ENTRIES, alloc, 2, s, n);
      if r.Err? {
        assert StopsAfter(s, View(), page, frame, alloc.Frames(), n, alloc.next, 2, r.error);
        return;
      }
      r := Descend(page, r.value, page / 0x200 % ENTRIES, alloc, 3, s, n);
      assert r.Err? ==> StopsAfter(s, View(), page, frame, alloc.Frames(), n, alloc.next, 3, r.error);
    }

    /**
     Map `page` to `frame`. It succeeds exactly when the page is free to map and enough
     frames are left for the missing tables; when it fails no translation has changed.
     */
    method MapTo(page: nat, frame: nat, alloc: FrameAllocator) returns (r: Result<(), MapError>)
      requires page < PAGES
      requires Ready(View(), alloc.Frames(), alloc.next)
      modifies this`mem, alloc`next
      ensures Ready(View(), alloc.Frames(), alloc.next)
      ensures r.Ok? <==> Mappable(old(View()), page)
                         && Enough(alloc.Frames(), old(alloc.next), Missing(old(View()), page, 3))
      ensures r.Ok? ==> alloc.next == old(alloc.next) + Missing(old(View()), page, 3)
      ensures r.Ok? ==> Mapped(old(View()), View(), page, frame, alloc.Frames(), old(alloc.next))
      ensures r.Err? ==> exists d: nat | 1 <= d <= 3 ::
                           StopsAfter(old(View()), View(), page, frame, alloc.Frames(), old(alloc.next), alloc.next, d,
                                      r.error)
    {
      hide TreeShaped, Clean, IsTable, Missing, Made;
      ghost var s, n := View(), alloc.next;
      var p1 := MakeTables(page, frame, alloc);
      if p1.Err? {
        return Err(p1.error);
      }
      var space := Space(mem, root);
      assert EntryAt(space, 4, page) == EntryAt(s, 4, page);
      if TableAt(space, p1.value)[page % ENTRIES] != UNUSED {
        assert StopsAfter(s, space, page, frame, alloc.Frames(), n, alloc.next, 3, PageAlreadyMapped(frame));
        return Err(PageAlreadyMapped(frame));
      }
      AfterLeaf(space, page, p1.value, Linked(frame), alloc.Frames(), alloc.next);
      mem := Put(space, p1.value, page % ENTRIES, Linked(frame)).mem;
      ThenTheLeaf(s, space, View(), page, frame, alloc.Frames(), n);
      r := Ok(());
    }
  }
}
