/**
 Four-level page tables: the `virt_to_phys` walk of kernel/src/memory.rs and the mapper
 that `init_heap` drives.

 An entry of the tree is addressed by its place `(k, q)`: depth `k` from 1 (in the level-4
 table) to 4 (in a level-1 table), and the number `q` of its slot among all slots of that
 depth. Slot `q` is entry `q % 512` of the table that slot `q / 512` of depth `k - 1` links.
 */
module Paging {
  import opened Wrappers
  import opened Frames
  import opened Bits

  /** A page-table entry; `other` stands for the remaining flag bits. */
  datatype Entry = Entry(frame: nat, present: bool, writable: bool, huge: bool, other: nat)

  const UNUSED := Entry(0, false, false, false, 0)

  const ENTRIES := 512

  type Table = t: seq<Entry> | |t| == ENTRIES witness seq(512, i => Entry(0, false, false, false, 0))

  function ZeroTable(): (t: Table)
    ensures forall i :: 0 <= i < ENTRIES ==> t[i] == UNUSED
  {
    seq(ENTRIES, i => UNUSED)
  }

  /** Physical memory seen as page tables; frames that are not listed read as zero. */
  type Memory = map<nat, Table>

  /** An address space: physical memory and the frame of the level-4 table (CR3). */
  datatype Space = Space(mem: Memory, root: nat)

  function TableAt(s: Space, f: nat): Table {
    if f in s.mem then s.mem[f] else ZeroTable()
  }

  function Put(s: Space, f: nat, i: nat, e: Entry): Space
    requires i < ENTRIES
  {
    Space(s.mem[f := TableAt(s, f)[i := e]], s.root)
  }

  function Zeroed(s: Space, f: nat): Space {
    Space(s.mem[f := ZeroTable()], s.root)
  }

  /** `PageTableEntry::frame().ok()`: the table an entry links, if it links one. */
  function Child(e: Entry): Option<nat> {
    if e.present && !e.huge then Some(e.frame) else None
  }

  // --- the tree seen through places ------------------------------------------

  /** The table linked by the entry at place `(k, q)`; depth 0 is the level-4 table. */
  function Node(s: Space, k: nat, q: nat): Option<nat>
    decreases k, 1
  {
    if k == 0 then (if q == 0 then Some(s.root) else None) else Child(EntryAt(s, k, q))
  }

  /** The entry at a place, unused when no table is there to hold it. */
  function EntryAt(s: Space, k: nat, q: nat): Entry
    requires 0 < k
    decreases k, 0
  {
    match Node(s, k - 1, q / ENTRIES)
    case None => UNUSED
    case Some(f) => TableAt(s, f)[q % ENTRIES]
  }

  /** No table is linked from two places: the tables form a tree. */
  ghost predicate TreeShaped(s: Space) {
    forall k: nat, q: nat, k': nat, q': nat ::
      k <= 3 && k' <= 3 && Node(s, k, q).Some? && Node(s, k, q) == Node(s, k', q') ==> k == k' && q == q'
  }

  /** Entries above the leaves are either zero or present. */
  ghost predicate Clean(s: Space) {
    forall k: nat, q: nat :: 1 <= k <= 3 && EntryAt(s, k, q) != UNUSED ==> EntryAt(s, k, q).present
  }

  ghost predicate WellFormed(s: Space) {
    TreeShaped(s) && Clean(s)
  }

  ghost predicate IsTable(s: Space, f: nat) {
    exists k: nat, q: nat :: k <= 3 && Node(s, k, q) == Some(f)
  }

  /** `t` is `s` with the entry at place `(k, q)` replaced by `e` and every other place as it was. */
  ghost predicate OnlyChanges(s: Space, t: Space, k: nat, q: nat, e: Entry) {
    && t.root == s.root
    && forall j: nat, r: nat :: 1 <= j <= 4 ==> EntryAt(t, j, r) == if j == k && r == q then e else EntryAt(s, j, r)
  }

  lemma PutChangesOneEntry(s: Space, f: nat, i: nat, e: Entry, g: nat, j: nat)
    requires i < ENTRIES && j < ENTRIES
    ensures TableAt(Put(s, f, i, e), g)[j] == if g == f && j == i then e else TableAt(s, g)[j]
    ensures Put(s, f, i, e).root == s.root
  {
  }

  /** Writing an entry that links what the old one linked changes one place and no other. */
  lemma {:induction false} PutKeepsLinks(s: Space, k: nat, q: nat, f: nat, e: Entry, j: nat, r: nat)
    requires TreeShaped(s)
    requires 1 <= k <= 4 && Node(s, k - 1, q / ENTRIES) == Some(f)
    requires k <= 3 ==> Child(e) == Child(EntryAt(s, k, q))
    requires j <= 4
    ensures j <= 3 ==> Node(Put(s, f, q % ENTRIES, e), j, r) == Node(s, j, r)
    ensures 1 <= j ==> EntryAt(Put(s, f, q % ENTRIES, e), j, r) == if j == k && r == q then e else EntryAt(s, j, r)
    decreases j
  {
    hide TableAt, Put;
    PutChangesOneEntry(s, f, q % ENTRIES, e, f, q % ENTRIES);
    if j > 0 {
      PutKeepsLinks(s, k, q, f, e, j - 1, r / ENTRIES);
      var up := Node(s, j - 1, r / ENTRIES);
      if up.Some? {
        PutChangesOneEntry(s, f, q % ENTRIES, e, up.value, r % ENTRIES);
        assert up == Some(f) ==> j == k && r / ENTRIES == q / ENTRIES;
      }
    }
  }

  /** Linking a zeroed, so far unlinked table changes one place and no other. */
  lemma {:induction false} PutNewTable(s: Space, k: nat, q: nat, f: nat, e: Entry, j: nat, r: nat)
    requires TreeShaped(s)
    requires 1 <= k <= 3 && Node(s, k - 1, q / ENTRIES) == Some(f)
    requires EntryAt(s, k, q) == UNUSED
    requires Child(e) == Some(e.frame) && !IsTable(s, e.frame)
    requires j <= 4
    ensures var t := Zeroed(Put(s, f, q % ENTRIES, e), e.frame);
      && (j <= 3 ==> Node(t, j, r) == if j == k && r == q then Some(e.frame) else Node(s, j, r))
      && (1 <= j ==> EntryAt(t, j, r) == if j == k && r == q then e else EntryAt(s, j, r))
    decreases j
  {
    var t := Zeroed(Put(s, f, q % ENTRIES, e), e.frame);
    assert IsTable(s, f);
    if j > 0 {
      PutNewTable(s, k, q, f, e, j - 1, r / ENTRIES);
      var up := Node(s, j - 1, r / ENTRIES);
      if up.Some? {
        assert IsTable(s, up.value);
      }
    }
  }

  // --- the walk --------------------------------------------------------------

  /** Number of 4 KiB pages in the 48-bit address space. */
  const PAGES := 0x10_0000_0000

  function PageOf(va: nat): nat {
    va / PAGE % PAGES
  }

  /** How many pages one entry at depth `k` covers. */
  function Span(k: nat): nat {
    if k == 1 then 0x800_0000 else if k == 2 then 0x4_0000 else if k == 3 then 0x200 else 1
  }

  /** The slot of depth `k` that the walk for `page` goes through. */
  function Slot(page: nat, k: nat): nat {
    page / Span(k)
  }

  /** `virt_to_phys`: None when some entry on the way is absent, or the level-4 entry is marked huge. */
  function VirtToPhys(s: Space, va: nat): Option<nat> {
    var p4e := TableAt(s, s.root)[va / 0x80_0000_0000 % ENTRIES];
    match Child(p4e)
    case None => None
    case Some(p3) =>
      var p3e := TableAt(s, p3)[va / 0x4000_0000 % ENTRIES];
      if !p3e.present then None
      else if p3e.huge then Some(PAGE * p3e.frame + va % 0x4000_0000)
      else
        var p2e := TableAt(s, p3e.frame)[va / 0x20_0000 % ENTRIES];
        if !p2e.present then None
        else if p2e.huge then Some(PAGE * p2e.frame + va % 0x20_0000)
        else
          var p1e := TableAt(s, p2e.frame)[va / 0x1000 % ENTRIES];
          if !p1e.present then None else Some(PAGE * p1e.frame + va % 0x1000)
  }

  /** What four entries along a path translate an address to. */
  function Resolve(e4: Entry, e3: Entry, e2: Entry, e1: Entry, va: nat): Option<nat> {
    if !e4.present || e4.huge || !e3.present then None
    else if e3.huge then Some(PAGE * e3.frame + va % 0x4000_0000)
    else if !e2.present then None
    else if e2.huge then Some(PAGE * e2.frame + va % 0x20_0000)
    else if !e1.present then None
    else Some(PAGE * e1.frame + va % 0x1000)
  }

  lemma SlotsNest(page: nat)
    requires page < PAGES
    ensures Slot(page, 1) / ENTRIES == 0
    ensures Slot(page, 2) / ENTRIES == Slot(page, 1)
    ensures Slot(page, 3) / ENTRIES == Slot(page, 2)
    ensures Slot(page, 4) / ENTRIES == Slot(page, 3)
  {
  }

  /**
   With `va` cut into the part above the 48-bit space, the page and the offset, the index of
   depth `k` is the slot's index; `span` pages make up one entry and `above` entries the space.
   */
  lemma IndexAt(va: nat, span: nat, above: nat)
    requires 0 < span && PAGES == above * span && above % ENTRIES == 0
    ensures va / (PAGE * span) % ENTRIES == PageOf(va) / span % ENTRIES
  {
    var t, p := va / PAGE / PAGES, PageOf(va);
    var a, b := p / span, p % span;
    assert p == span * a + b;
    calc {
      va;
      PAGE * (PAGES * t + p) + va % PAGE;
      PAGE * (above * span * t + span * a + b) + va % PAGE;
      { assert above * span * t + span * a == span * (above * t + a); }
      (PAGE * span) * (above * t + a) + (PAGE * b + va % PAGE);
    }
    RemainderIs(va, PAGE * span, above * t + a, PAGE * b + va % PAGE);
    var m := above / ENTRIES;
    assert above * t + a == ENTRIES * (m * t) + a;
    RemainderIs(above * t + a, ENTRIES, m * t + a / ENTRIES, a % ENTRIES);
  }

  /** The walk reads exactly the four places on the path of the page. */
  lemma WalkReadsItsPath(s: Space, va: nat)
    ensures var p := PageOf(va);
      VirtToPhys(s, va) == Resolve(EntryAt(s, 1, Slot(p, 1)), EntryAt(s, 2, Slot(p, 2)),
                                   EntryAt(s, 3, Slot(p, 3)), EntryAt(s, 4, Slot(p, 4)), va)
  {
    var p := PageOf(va);
    IndexAt(va, 0x800_0000, 0x200);
    IndexAt(va, 0x4_0000, 0x4_0000);
    IndexAt(va, 0x200, 0x800_0000);
    IndexAt(va, 1, PAGES);
    SlotsNest(p);
    assert EntryAt(s, 1, Slot(p, 1)) == TableAt(s, s.root)[va / 0x80_0000_0000 % ENTRIES];
  }

  /** A leaf of the walk: a present entry at the last level, or a huge one at depth 2 or 3, below linked tables. */
  ghost predicate IsLeaf(s: Space, page: nat, k: nat)
    requires 1 <= k
  {
    && Node(s, k - 1, Slot(page, k) / ENTRIES).Some?
    && EntryAt(s, k, Slot(page, k)).present
    && (k == 4 || EntryAt(s, k, Slot(page, k)).huge)
  }

  /**
   The walk ends at a leaf or fails: a leaf at depth 2, 3 or 4 covers 1 GiB, 2 MiB or 4 KiB, over
   which translation adds the offset to the frame it names; without one there is no translation.
   */
  lemma WalkFindsTheLeaf(s: Space, va: nat)
    ensures var p := PageOf(va);
      && (IsLeaf(s, p, 2) ==> VirtToPhys(s, va) == Some(4096 * EntryAt(s, 2, Slot(p, 2)).frame + va % 0x4000_0000))
      && (IsLeaf(s, p, 3) ==> VirtToPhys(s, va) == Some(4096 * EntryAt(s, 3, Slot(p, 3)).frame + va % 0x20_0000))
      && (IsLeaf(s, p, 4) ==> VirtToPhys(s, va) == Some(4096 * EntryAt(s, 4, Slot(p, 4)).frame + va % 0x1000))
      && (VirtToPhys(s, va).Some? <==> IsLeaf(s, p, 2) || IsLeaf(s, p, 3) || IsLeaf(s, p, 4))
  {
    hide VirtToPhys, Slot, TableAt;
    WalkReadsItsPath(s, va);
    PathBelow(s, PageOf(va));
  }

  /** An entry is unused unless the tables above it are linked. */
  lemma PathBelow(s: Space, page: nat)
    requires page < PAGES
    ensures Node(s, 0, Slot(page, 1) / ENTRIES).Some?
    ensures forall k :: 2 <= k <= 4 ==>
      (Node(s, k - 1, Slot(page, k) / ENTRIES).Some? <==> Child(EntryAt(s, k - 1, Slot(page, k - 1))).Some?)
    ensures forall k :: 2 <= k <= 4 && Child(EntryAt(s, k - 1, Slot(page, k - 1))).None? ==>
      EntryAt(s, k, Slot(page, k)) == UNUSED
  {
    SlotsNest(page);
  }

  lemma OffsetKept(f: nat, va: nat, m: nat)
    requires 0 < m
    ensures (PAGE * f + va % (PAGE * m)) % PAGE == va % PAGE
  {
    var a := va / (PAGE * m);
    assert PAGE * f + va % (PAGE * m) == va + PAGE * f - (PAGE * m) * a;
    assert (PAGE * m) * a == PAGE * (m * a);
    RemainderIs(PAGE * f + va % (PAGE * m), PAGE, va / PAGE + f - m * a, va % PAGE);
  }

  /** Whatever the leaf size, translation keeps the offset within the 4 KiB page. */
  lemma TranslationKeepsOffset(s: Space, va: nat)
    ensures VirtToPhys(s, va).Some? ==> VirtToPhys(s, va).value % PAGE == va % PAGE
  {
    WalkReadsItsPath(s, va);
    var p := PageOf(va);
    OffsetKept(EntryAt(s, 2, Slot(p, 2)).frame, va, 0x4_0000);
    OffsetKept(EntryAt(s, 3, Slot(p, 3)).frame, va, 0x200);
    OffsetKept(EntryAt(s, 4, Slot(p, 4)).frame, va, 1);
  }
}
