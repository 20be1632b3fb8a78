/**
 What a device sees of a heap buffer: the physical layout of rings allocated by
 kernel/src/xhci.rs on the heap that kernel/src/allocator.rs mapped.
 */
module Dma {
  import opened Wrappers
  import opened Bits
  import opened Frames
  import opened Paging
  import opened Mapper
  import opened Heap
  import opened HeapFacts

  // --- adjacency of frames in the memory map ------------------------------------

  /** A position of the frame list: which region it falls in, and where in it. */
  datatype Spot = Spot(region: nat, offset: nat)

  function Locate(rs: seq<Region>, j: nat): (spot: Spot)
    requires j < |UsableFrames(rs)|
    ensures spot.region < |rs| && spot.offset < Count(rs[spot.region])
    ensures UsableFrames(rs)[j] == First(rs[spot.region]) + spot.offset
  {
    if j < Count(rs[0]) then Spot(0, j)
    else
      var spot := Locate(rs[1..], j - Count(rs[0]));
      Spot(spot.region + 1, spot.offset)
  }

  lemma {:induction false} NextSpot(rs: seq<Region>, j: nat)
    requires j + 1 < |UsableFrames(rs)|
    ensures var here, there := Locate(rs, j), Locate(rs, j + 1);
      if here.region == there.region then there.offset == here.offset + 1
      else here.region < there.region && here.offset + 1 == Count(rs[here.region]) && there.offset == 0
  {
    if j + 1 < Count(rs[0]) {
    } else if j + 1 == Count(rs[0]) {
      FirstSpot(rs[1..]);
    } else {
      NextSpot(rs[1..], j - Count(rs[0]));
    }
  }

  lemma {:induction false} FirstSpot(rs: seq<Region>)
    requires 0 < |UsableFrames(rs)|
    ensures Locate(rs, 0).offset == 0
  {
    if Count(rs[0]) == 0 {
      FirstSpot(rs[1..]);
    }
  }

  /** The map has no hole after position `j`: the next frame is in the same region, or that region touches the next. */
  ghost predicate Seamless(rs: seq<Region>, j: nat)
    requires j + 1 < |UsableFrames(rs)|
  {
    var here, there := Locate(rs, j).region, Locate(rs, j + 1).region;
    here == there || First(rs[there]) == First(rs[here]) + Count(rs[here])
  }

  lemma AdjacentIffSeamless(rs: seq<Region>, j: nat)
    requires j + 1 < |UsableFrames(rs)|
    ensures UsableFrames(rs)[j + 1] == UsableFrames(rs)[j] + 1 <==> Seamless(rs, j)
  {
    hide UsableFrames;
    NextSpot(rs, j);
  }

  /** A later position is in a later region, or in the same one as much further on. */
  lemma {:induction false} LaterSpot(rs: seq<Region>, j: nat, i: nat)
    requires j < i < |UsableFrames(rs)|
    ensures var here, there := Locate(rs, j), Locate(rs, i);
      here.region < there.region || (here.region == there.region && there.offset == here.offset + (i - j))
    decreases i
  {
    hide UsableFrames, Locate;
    NextSpot(rs, i - 1);
    if j < i - 1 {
      LaterSpot(rs, j, i - 1);
    }
  }

  /** The last frame of one region is followed by the first of another. */
  ghost predicate Touch(rs: seq<Region>, here: Spot, there: Spot)
    requires here.region < |rs| && there.region < |rs|
  {
    && here.offset + 1 == Count(rs[here.region]) && there.offset == 0
    && First(rs[there.region]) == First(rs[here.region]) + Count(rs[here.region])
  }

  /** In disjoint regions, frames of different regions are adjacent exactly where the regions touch. */
  lemma AdjacentAcrossRegions(rs: seq<Region>, j: nat, i: nat)
    requires PairwiseDisjoint(rs)
    requires j < |UsableFrames(rs)| && i < |UsableFrames(rs)|
    requires Locate(rs, j).region < Locate(rs, i).region
    ensures UsableFrames(rs)[i] == UsableFrames(rs)[j] + 1 <==> Touch(rs, Locate(rs, j), Locate(rs, i))
  {
    hide UsableFrames, Locate;
    var here, there := Locate(rs, j), Locate(rs, i);
    assert Disjoint(rs[here.region], rs[there.region]);
  }

  /**
   The pages `i` and `i + 1` of a run lie in adjacent frames: within a region, when mapping the
   first drew no table frame; across regions, when the frames drawn for tables, if any, lie
   between the end of one region and the start of the one that touches it.
   */
  ghost predicate Adjoining(s: Space, rs: seq<Region>, next: nat, first: nat, i: nat)
    requires DataIndex(s, first, next, i) < |UsableFrames(rs)|
    requires DataIndex(s, first, next, i + 1) < |UsableFrames(rs)|
  {
    var here, there := Locate(rs, DataIndex(s, first, next, i)), Locate(rs, DataIndex(s, first, next, i + 1));
    if here.region == there.region then Draws(s, first, i) == 0 else Touch(rs, here, there)
  }

  /** On every map without overlaps, in any order, consecutive pages get adjacent frames exactly when they adjoin. */
  lemma AdjacentPagesIff(s: Space, rs: seq<Region>, next: nat, first: nat, i: nat)
    requires PairwiseDisjoint(rs)
    requires DataIndex(s, first, next, i + 1) < |UsableFrames(rs)|
    ensures DataIndex(s, first, next, i) < |UsableFrames(rs)|
    ensures var fs := UsableFrames(rs);
      DataFrame(s, fs, next, first, i + 1) == DataFrame(s, fs, next, first, i) + 1 <==> Adjoining(s, rs, next, first, i)
  {
    hide UsableFrames, Draws, PairwiseDisjoint, Locate, Touch;
    var j, k := DataIndex(s, first, next, i), DataIndex(s, first, next, i + 1);
    assert k == j + 1 + Draws(s, first, i);
    LaterSpot(rs, j, k);
    if Locate(rs, j).region < Locate(rs, k).region {
      AdjacentAcrossRegions(rs, j, k);
    }
  }

  /** On an address-ordered map that means: no table frame was drawn and the map has no hole there. */
  lemma AdjoiningOnOrderedMap(s: Space, rs: seq<Region>, next: nat, first: nat, i: nat)
    requires Ascending(rs)
    requires DataIndex(s, first, next, i + 1) < |UsableFrames(rs)|
    ensures DataIndex(s, first, next, i) + 1 < |UsableFrames(rs)|
    ensures Adjoining(s, rs, next, first, i) <==>
      Draws(s, first, i) == 0 && Seamless(rs, DataIndex(s, first, next, i))
  {
    hide UsableFrames, Draws, Seamless, Ascending, PairwiseDisjoint, Adjoining;
    var fs, j := UsableFrames(rs), DataIndex(s, first, next, i);
    assert DataIndex(s, first, next, i + 1) == j + 1 + Draws(s, first, i);
    OrderedIsDisjoint(rs);
    AdjacentPagesIff(s, rs, next, first, i);
    AdjacentIffSeamless(rs, j);
    IncreasingIffAscending(rs);
    IncreasingGap(fs, j, DataIndex(s, first, next, i + 1));
  }

  lemma OrderedIsDisjoint(rs: seq<Region>)
    requires Ascending(rs)
    ensures PairwiseDisjoint(rs)
  {
    hide Count, First;
  }

  lemma {:induction false} IncreasingGap(fs: seq<nat>, i: nat, j: nat)
    requires Increasing(fs) && i <= j < |fs|
    ensures fs[i] + (j - i) <= fs[j]
    decreases j - i
  {
    if i < j {
      IncreasingGap(fs, i, j - 1);
    }
  }

  /**
   On an unordered map pages can be adjacent although a table was drawn between them: with regions
   at frames 6, 2 and 7, and a tree that lacks one table, pages 0 and 1 get frames 6 and 7.
   */
  lemma UnorderedMapsHideADraw()
    ensures var rs := [Region(0x6000, 0x7000, Usable), Region(0x2000, 0x3000, Usable), Region(0x7000, 0x8000, Usable)];
      var s := Space(map[8 := ZeroTable()[0 := Linked(9)], 9 := ZeroTable()[0 := Linked(10)]], 8);
      && PairwiseDisjoint(rs) && UsableFrames(rs) == [6, 2, 7]
      && Draws(s, 0, 0) == 1
      && DataFrame(s, UsableFrames(rs), 0, 0, 0) == 6 && DataFrame(s, UsableFrames(rs), 0, 0, 1) == 7
  {
    var a, b, c := Region(0x6000, 0x7000, Usable), Region(0x2000, 0x3000, Usable), Region(0x7000, 0x8000, Usable);
    ThreeRegions(a, b, c);
    var s := Space(map[8 := ZeroTable()[0 := Linked(9)], 9 := ZeroTable()[0 := Linked(10)]], 8);
    assert EntryAt(s, 1, 0) == Linked(9);
    assert Node(s, 1, 0) == Some(9);
    assert EntryAt(s, 2, 0) == Linked(10);
    assert Node(s, 2, 0) == Some(10);
    assert EntryAt(s, 3, 0) == UNUSED;
    assert TablesDrawn(s, 0, 1) == TablesDrawn(s, 0, 0) + Draws(s, 0, 0);
  }

  lemma ThreeRegions(a: Region, b: Region, c: Region)
    ensures UsableFrames([a, b, c]) == FramesIn(a) + FramesIn(b) + FramesIn(c)
  {
    hide FramesIn;
    assert [a, b, c][1..] == [b, c] && [b, c][1..] == [c] && [c][1..] == [];
    assert UsableFrames([c]) == FramesIn(c) + UsableFrames([]);
    assert UsableFrames([b, c]) == FramesIn(b) + UsableFrames([c]);
  }

  /** A region boundary alone does not part two frames: touching regions are seamless. */
  lemma TouchingRegionsAreSeamless()
    ensures var rs := [Region(0x20_0000, 0x20_1000, Usable), Region(0x20_1000, 0x20_2000, Usable)];
      && |UsableFrames(rs)| == 2
      && Locate(rs, 0).region != Locate(rs, 1).region
      && UsableFrames(rs)[1] == UsableFrames(rs)[0] + 1
  {
    var a, b := Region(0x20_0000, 0x20_1000, Usable), Region(0x20_1000, 0x20_2000, Usable);
    assert [a, b][1..] == [b] && [b][1..] == [];
    assert UsableFrames([b]) == FramesIn(b) + UsableFrames([]);
    assert UsableFrames([a, b]) == FramesIn(a) + UsableFrames([b]);
  }

  // --- rings ----------------------------------------------------------------------

  const TRB_SIZE := 16

  /** TRB `i` of a ring at heap offset `o` is where a device that was given `phys` looks for it. */
  ghost predicate TrbVisible(t: Space, o: nat, phys: nat, i: nat) {
    VirtToPhys(t, 0x4444_4444_0000 + (o + 16 * i)) == Some(phys + 16 * i)
  }

  /** Heap pages `lo` to `hi` lie in consecutive frames. */
  ghost predicate Consecutive(s: Space, fs: seq<nat>, next: nat, lo: nat, hi: nat) {
    forall j: nat :: lo <= j < hi ==>
      DataFrame(s, fs, next, FIRST_PAGE, j + 1) == DataFrame(s, fs, next, FIRST_PAGE, j) + 1
  }

  lemma {:induction false} ConsecutiveFrames(s: Space, fs: seq<nat>, next: nat, lo: nat, hi: nat)
    requires lo <= hi && Consecutive(s, fs, next, lo, hi)
    ensures DataFrame(s, fs, next, FIRST_PAGE, hi) == DataFrame(s, fs, next, FIRST_PAGE, lo) + (hi - lo)
    decreases hi - lo
  {
    hide DataFrame;
    if lo < hi {
      ConsecutiveFrames(s, fs, next, lo, hi - 1);
      assert DataFrame(s, fs, next, FIRST_PAGE, (hi - 1) + 1) == DataFrame(s, fs, next, FIRST_PAGE, hi - 1) + 1;
    }
  }

  /** Where heap offset `o` lies physically. */
  ghost function PhysOf(s: Space, fs: seq<nat>, next: nat, o: nat): nat {
    PAGE * DataFrame(s, fs, next, FIRST_PAGE, o / PAGE) + o % PAGE
  }

  lemma HeapPhys(s: Space, t: Space, fs: seq<nat>, next: nat, o: nat)
    requires Progress(s, t, fs, next, FIRST_PAGE, HEAP_PAGES) && o < HEAP_SIZE
    ensures VirtToPhys(t, HEAP_START + o) == Some(PhysOf(s, fs, next, o))
  {
    hide VirtToPhys, Progress, DataIndex;
    HeapTranslates(s, t, fs, next, o);
  }

  /** A page crossed by the ring starts with a TRB, whose neighbour ends the page before. */
  lemma EdgeMeansAdjacent(s: Space, t: Space, fs: seq<nat>, next: nat, o: nat, count: nat, phys: nat, j: nat)
    requires Progress(s, t, fs, next, FIRST_PAGE, HEAP_PAGES)
    requires o % TRB_SIZE == 0 && 0 < count && o + TRB_SIZE * count <= HEAP_SIZE
    requires o / PAGE <= j < (o + TRB_SIZE * (count - 1)) / PAGE
    requires forall i: nat :: i < count ==> TrbVisible(t, o, phys, i)
    ensures DataFrame(s, fs, next, FIRST_PAGE, j + 1) == DataFrame(s, fs, next, FIRST_PAGE, j) + 1
  {
    hide VirtToPhys, Progress, DataFrame;
    var i := (PAGE * (j + 1) - o) / TRB_SIZE;
    assert o + TRB_SIZE * i == PAGE * (j + 1) && 1 <= i < count;
    assert TrbVisible(t, o, phys, i) && TrbVisible(t, o, phys, i - 1);
    HeapPhys(s, t, fs, next, o + TRB_SIZE * i);
    HeapPhys(s, t, fs, next, o + TRB_SIZE * (i - 1));
    assert (PAGE * (j + 1)) / PAGE == j + 1 && (PAGE * (j + 1)) % PAGE == 0;
    assert (PAGE * (j + 1) - TRB_SIZE) / PAGE == j && (PAGE * (j + 1) - TRB_SIZE) % PAGE == PAGE - TRB_SIZE;
  }

  lemma ConsecutiveMeansVisible(s: Space, t: Space, fs: seq<nat>, next: nat, o: nat, count: nat, i: nat)
    requires Progress(s, t, fs, next, FIRST_PAGE, HEAP_PAGES)
    requires i < count && o + TRB_SIZE * count <= HEAP_SIZE
    requires Consecutive(s, fs, next, o / PAGE, (o + TRB_SIZE * (count - 1)) / PAGE)
    ensures TrbVisible(t, o, PhysOf(s, fs, next, o), i)
  {
    hide VirtToPhys, Progress, DataFrame;
    var a := o + TRB_SIZE * i;
    HeapPhys(s, t, fs, next, a);
    assert a / PAGE <= (o + TRB_SIZE * (count - 1)) / PAGE;
    ConsecutiveFrames(s, fs, next, o / PAGE, a / PAGE);
  }

  /**
   A 16-byte-aligned ring of `count` TRBs on the heap is laid out for the device exactly as the
   driver sees it, TRB `i` at `phys + 16 * i`, if and only if the pages it spans are in
   consecutive frames.
   */
  lemma RingVisibleIff(s: Space, t: Space, fs: seq<nat>, next: nat, o: nat, count: nat, phys: nat)
    requires Progress(s, t, fs, next, FIRST_PAGE, HEAP_PAGES)
    requires o % TRB_SIZE == 0 && 0 < count && o + TRB_SIZE * count <= HEAP_SIZE
    requires VirtToPhys(t, HEAP_START + o) == Some(phys)
    ensures (forall i: nat :: i < count ==> TrbVisible(t, o, phys, i))
            <==> Consecutive(s, fs, next, o / PAGE, (o + TRB_SIZE * (count - 1)) / PAGE)
  {
    hide VirtToPhys, Progress, DataFrame, TrbVisible;
    HeapPhys(s, t, fs, next, o);
    var hi := (o + TRB_SIZE * (count - 1)) / PAGE;
    if forall i: nat :: i < count ==> TrbVisible(t, o, phys, i) {
      forall j: nat | o / PAGE <= j < hi
        ensures DataFrame(s, fs, next, FIRST_PAGE, j + 1) == DataFrame(s, fs, next, FIRST_PAGE, j) + 1
      {
        EdgeMeansAdjacent(s, t, fs, next, o, count, phys, j);
      }
    }
    if Consecutive(s, fs, next, o / PAGE, hi) {
      forall i: nat | i < count ensures TrbVisible(t, o, phys, i) {
        ConsecutiveMeansVisible(s, t, fs, next, o, count, i);
      }
    }
  }

  /** Every page edge inside heap pages `lo` to `hi` joins adjacent frames. */
  ghost predicate EdgesAdjoin(s: Space, rs: seq<Region>, next: nat, lo: nat, hi: nat)
    requires hi < HEAP_PAGES && DataIndex(s, FIRST_PAGE, next, HEAP_PAGES) <= |UsableFrames(rs)|
  {
    forall j: nat :: lo <= j < hi ==> EdgeAdjoins(s, rs, next, j)
  }

  ghost predicate EdgeAdjoins(s: Space, rs: seq<Region>, next: nat, j: nat)
    requires j + 1 < HEAP_PAGES && DataIndex(s, FIRST_PAGE, next, HEAP_PAGES) <= |UsableFrames(rs)|
  {
    IndexesInRange(s, rs, next, j);
    Adjoining(s, rs, next, FIRST_PAGE, j)
  }

  lemma IndexesInRange(s: Space, rs: seq<Region>, next: nat, j: nat)
    requires j + 1 < HEAP_PAGES && DataIndex(s, FIRST_PAGE, next, HEAP_PAGES) <= |UsableFrames(rs)|
    ensures DataIndex(s, FIRST_PAGE, next, j) < DataIndex(s, FIRST_PAGE, next, j + 1) < |UsableFrames(rs)|
  {
    hide Draws, UsableFrames;
    DataIndexIncreases(s, FIRST_PAGE, next, j, j + 1);
    DataIndexIncreases(s, FIRST_PAGE, next, j + 1, HEAP_PAGES);
  }

  lemma ConsecutiveIffEdgesAdjoin(s: Space, rs: seq<Region>, next: nat, lo: nat, hi: nat)
    requires PairwiseDisjoint(rs) && hi < HEAP_PAGES
    requires DataIndex(s, FIRST_PAGE, next, HEAP_PAGES) <= |UsableFrames(rs)|
    ensures Consecutive(s, UsableFrames(rs), next, lo, hi) <==> EdgesAdjoin(s, rs, next, lo, hi)
  {
    hide UsableFrames, DataFrame, TablesDrawn, EdgeAdjoins, PairwiseDisjoint;
    if Consecutive(s, UsableFrames(rs), next, lo, hi) {
      forall j: nat | lo <= j < hi ensures EdgeAdjoins(s, rs, next, j) {
        EdgeIff(s, rs, next, j);
      }
    }
    if EdgesAdjoin(s, rs, next, lo, hi) {
      forall j: nat | lo <= j < hi
        ensures DataFrame(s, UsableFrames(rs), next, FIRST_PAGE, j + 1)
                == DataFrame(s, UsableFrames(rs), next, FIRST_PAGE, j) + 1
      {
        EdgeIff(s, rs, next, j);
      }
    }
  }

  lemma EdgeIff(s: Space, rs: seq<Region>, next: nat, j: nat)
    requires PairwiseDisjoint(rs) && j + 1 < HEAP_PAGES
    requires DataIndex(s, FIRST_PAGE, next, HEAP_PAGES) <= |UsableFrames(rs)|
    ensures DataFrame(s, UsableFrames(rs), next, FIRST_PAGE, j + 1)
            == DataFrame(s, UsableFrames(rs), next, FIRST_PAGE, j) + 1
            <==> EdgeAdjoins(s, rs, next, j)
  {
    hide UsableFrames, DataFrame, TablesDrawn, Adjoining, PairwiseDisjoint;
    IndexesInRange(s, rs, next, j);
    AdjacentPagesIff(s, rs, next, FIRST_PAGE, j);
  }

  /**
   DMA contiguity: after `init_heap`, on any memory map, TRB `i` of a ring on the heap is at
   `phys + 16 * i` for every `i` if and only if at every page edge inside the ring no table frame
   was drawn within a region, or the map passes from a region to one that touches it.
   */
  lemma RingVisibleIffEdgesAdjoin(s: Space, t: Space, rs: seq<Region>, next: nat, o: nat, count: nat, phys: nat)
    requires Progress(s, t, UsableFrames(rs), next, FIRST_PAGE, HEAP_PAGES)
    requires o % TRB_SIZE == 0 && 0 < count && o + TRB_SIZE * count <= HEAP_SIZE
    requires VirtToPhys(t, HEAP_START + o) == Some(phys)
    ensures (o + TRB_SIZE * (count - 1)) / PAGE < HEAP_PAGES
    ensures (forall i: nat :: i < count ==> TrbVisible(t, o, phys, i))
            <==> EdgesAdjoin(s, rs, next, o / PAGE, (o + TRB_SIZE * (count - 1)) / PAGE)
  {
    hide VirtToPhys, TrbVisible, Consecutive, EdgesAdjoin, LeavesMapped, TablesLinked, DataApart, WellFormed, IsTable,
      UsableFrames, TablesDrawn;
    DistinctIffDisjoint(rs);
    HeapPage(o + TRB_SIZE * (count - 1));
    ConsecutiveIffEdgesAdjoin(s, rs, next, o / PAGE, (o + TRB_SIZE * (count - 1)) / PAGE);
    RingVisibleIff(s, t, UsableFrames(rs), next, o, count, phys);
  }

  // --- addresses handed to the controller -----------------------------------------

  /** `(ptr + 63) & !63` */
  function AlignUp64(ptr: nat): nat {
    (ptr + 63) / 64 * 64
  }

  /** The aligned block stays within the `size + 64` bytes allocated at `ptr`. */
  lemma AlignedBlockFits(ptr: nat, size: nat)
    ensures AlignUp64(ptr) % 64 == 0
    ensures ptr <= AlignUp64(ptr) && AlignUp64(ptr) + size <= ptr + size + 64
    ensures ptr % 64 == 0 ==> AlignUp64(ptr) == ptr
  {
  }

  /**
   The command ring pointer: a ring aligned to 64 bytes has a physical address aligned to 64
   bytes, so setting bit 0 changes nothing but the ring cycle state, and the two halves written
   to CRCR recombine to that value.
   */
  lemma CommandRingPointer(t: Space, ptr: nat, phys: nat)
    requires VirtToPhys(t, AlignUp64(ptr)) == Some(phys)
    ensures phys % 64 == 0
    ensures WithBit0(phys) % 64 == 1 && WithBit0(phys) - WithBit0(phys) % 64 == phys
    ensures var (low, high) := Halves(WithBit0(phys));
      low < 0x1_0000_0000 && low + 0x1_0000_0000 * high == WithBit0(phys) && low % 64 == 1
  {
    hide VirtToPhys, AlignUp64, WithBit0, Halves;
    TranslationKeepsOffset(t, AlignUp64(ptr));
    AlignedBlockFits(ptr, 0);
    OffsetAligned(phys, AlignUp64(ptr));
    HalvesOf(phys);
  }

  lemma OffsetAligned(x: nat, a: nat)
    requires a % 64 == 0 && x % PAGE == a % PAGE
    ensures x % 64 == 0
  {
    var c, d := x / PAGE, a / PAGE;
    assert x == a + 64 * (64 * (c - d));
  }

  lemma HalvesOf(x: nat)
    requires x % 64 == 0
    ensures WithBit0(x) % 64 == 1 && WithBit0(x) - WithBit0(x) % 64 == x
    ensures var (low, high) := Halves(WithBit0(x));
      low < 0x1_0000_0000 && low + 0x1_0000_0000 * high == WithBit0(x) && low % 64 == 1
  {
    var m := x / 64;
    RemainderIs(x, 2, 32 * m, 0);
    RemainderIs(x + 1, 64, m, 1);
    var (low, high) := Halves(x + 1);
    RemainderIs(low, 64, m - 0x400_0000 * high, 1);
  }
}
