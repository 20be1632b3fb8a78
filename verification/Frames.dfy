/**
 The boot memory map and the frame allocator over it (kernel/src/memory.rs).

 Frames are named by their number: frame `f` starts at physical address `4096 * f`.
 */
module Frames {
  import opened Wrappers

  const PAGE := 4096

  datatype Kind = Usable | Bootloader | UnknownUefi(tag: nat) | UnknownBios(tag: nat)

  datatype Region = Region(start: nat, end: nat, kind: Kind)

  /** How many addresses `start..end` yields when stepped by 4096. */
  function Count(r: Region): nat {
    if r.kind.Usable? && r.start < r.end then (r.end - r.start + PAGE - 1) / PAGE else 0
  }

  function First(r: Region): nat {
    r.start / PAGE
  }

  /** The frames containing the stepped addresses of one region. */
  function FramesIn(r: Region): (fs: seq<nat>)
    ensures |fs| == Count(r)
    ensures forall i :: 0 <= i < |fs| ==> fs[i] == First(r) + i
  {
    seq(Count(r), i requires 0 <= i < Count(r) => (r.start + PAGE * i) / PAGE)
  }

  /** The flattened list the allocator indexes with `next`. */
  function UsableFrames(rs: seq<Region>): seq<nat> {
    if rs == [] then [] else FramesIn(rs[0]) + UsableFrames(rs[1..])
  }

  ghost predicate Distinct(fs: seq<nat>) {
    forall i, j :: 0 <= i < j < |fs| ==> fs[i] != fs[j]
  }

  ghost predicate Increasing(fs: seq<nat>) {
    forall i, j :: 0 <= i < j < |fs| ==> fs[i] < fs[j]
  }

  /** Does the region contribute frame `f`? */
  ghost predicate Covers(r: Region, f: nat) {
    First(r) <= f < First(r) + Count(r)
  }

  ghost predicate Disjoint(r: Region, t: Region) {
    Count(r) == 0 || Count(t) == 0 || First(r) + Count(r) <= First(t) || First(t) + Count(t) <= First(r)
  }

  ghost predicate Before(r: Region, t: Region) {
    Count(r) == 0 || Count(t) == 0 || First(r) + Count(r) <= First(t)
  }

  ghost predicate PairwiseDisjoint(rs: seq<Region>) {
    forall i, j :: 0 <= i < j < |rs| ==> Disjoint(rs[i], rs[j])
  }

  ghost predicate Ascending(rs: seq<Region>) {
    forall i, j :: 0 <= i < j < |rs| ==> Before(rs[i], rs[j])
  }

  /** Stepping through a usable region by 4096 bytes from its start comes by address `a`, which frame `f` contains. */
  ghost predicate Steps(r: Region, a: nat, f: nat) {
    r.kind == Usable && r.start <= a < r.end && (a - r.start) % 4096 == 0 && a / 4096 == f
  }

  /** Frame `f` holds memory that the map marks usable. */
  ghost predicate InUsableRegion(rs: seq<Region>, f: nat) {
    exists i: nat, a: nat :: i < |rs| && Steps(rs[i], a, f)
  }

  lemma CoversIff(r: Region, f: nat)
    ensures Covers(r, f) <==> exists a: nat :: Steps(r, a, f)
  {
    if Covers(r, f) {
      var i := f - First(r);
      assert Steps(r, r.start + 4096 * i, f);
    }
    if a: nat :| Steps(r, a, f) {
      var i := (a - r.start) / 4096;
      assert a == r.start + 4096 * i;
      assert f == First(r) + i;
    }
  }

  /** A frame is listed exactly when it contains an address stepped through in a region of kind Usable. */
  lemma Listed(rs: seq<Region>, f: nat)
    ensures f in UsableFrames(rs) <==> InUsableRegion(rs, f)
  {
    hide Steps, Covers;
    ListedIffCovered(rs, f);
    if i :| 0 <= i < |rs| && Covers(rs[i], f) {
      CoversIff(rs[i], f);
    }
    if i: nat, a: nat :| i < |rs| && Steps(rs[i], a, f) {
      CoversIff(rs[i], f);
    }
  }

  lemma {:induction false} ListedIffCovered(rs: seq<Region>, f: nat)
    ensures f in UsableFrames(rs) <==> exists i :: 0 <= i < |rs| && Covers(rs[i], f)
  {
    if rs != [] {
      ListedIffCovered(rs[1..], f);
      assert f in FramesIn(rs[0]) <==> Covers(rs[0], f) by {
        if Covers(rs[0], f) {
          assert FramesIn(rs[0])[f - First(rs[0])] == f;
        }
      }
      if i :| 0 <= i < |rs| && Covers(rs[i], f) {
        assert i == 0 || Covers(rs[1..][i - 1], f);
      }
      if i :| 0 <= i < |rs[1..]| && Covers(rs[1..][i], f) {
        assert Covers(rs[i + 1], f);
      }
    }
  }

  /** No frame is listed twice exactly when the frame spans of the regions are disjoint. */
  lemma {:induction false} DistinctIffDisjoint(rs: seq<Region>)
    ensures Distinct(UsableFrames(rs)) <==> PairwiseDisjoint(rs)
  {
    if rs != [] {
      var head, tail := FramesIn(rs[0]), UsableFrames(rs[1..]);
      DistinctIffDisjoint(rs[1..]);
      assert PairwiseDisjoint(rs) <==>
        PairwiseDisjoint(rs[1..]) && forall j :: 0 <= j < |rs[1..]| ==> Disjoint(rs[0], rs[1..][j]) by {
        assert forall j :: 0 < j < |rs| ==> rs[j] == rs[1..][j - 1];
      }
      DistinctConcat(head, tail);
      if Distinct(head + tail) {
        forall j | 0 <= j < |rs[1..]| ensures Disjoint(rs[0], rs[1..][j]) {
          if !Disjoint(rs[0], rs[1..][j]) {
            var f := if First(rs[0]) < First(rs[1..][j]) then First(rs[1..][j]) else First(rs[0]);
            assert head[f - First(rs[0])] == f && Covers(rs[1..][j], f);
            ListedIffCovered(rs[1..], f);
            assert false;
          }
        }
      }
      if PairwiseDisjoint(rs) {
        forall f | f in head ensures f !in tail {
          ListedIffCovered(rs[1..], f);
          assert Covers(rs[0], f);
        }
      }
    }
  }

  lemma DistinctConcat(a: seq<nat>, b: seq<nat>)
    requires Distinct(a)
    ensures Distinct(a + b) <==> Distinct(b) && forall f :: f in a ==> f !in b
  {
    if Distinct(a + b) {
      forall i, j | 0 <= i < j < |b| ensures b[i] != b[j] {
        assert (a + b)[|a| + i] != (a + b)[|a| + j];
      }
      forall i, j | 0 <= i < |a| && 0 <= j < |b| ensures a[i] != b[j] {
        assert (a + b)[i] != (a + b)[|a| + j];
      }
    }
    if Distinct(b) && forall f :: f in a ==> f !in b {
      forall i, j | 0 <= i < j < |a + b| ensures (a + b)[i] != (a + b)[j] {
        if i < |a| <= j {
          assert a[i] in a && b[j - |a|] in b;
        }
      }
    }
  }

  lemma IncreasingConcat(a: seq<nat>, b: seq<nat>)
    requires Increasing(a)
    ensures Increasing(a + b) <==> Increasing(b) && forall i, j :: 0 <= i < |a| && 0 <= j < |b| ==> a[i] < b[j]
  {
    if Increasing(a + b) {
      forall i, j | 0 <= i < j < |b| ensures b[i] < b[j] {
        assert (a + b)[|a| + i] < (a + b)[|a| + j];
      }
      forall i, j | 0 <= i < |a| && 0 <= j < |b| ensures a[i] < b[j] {
        assert (a + b)[i] < (a + b)[|a| + j];
      }
    }
  }

  /** One region comes before all others exactly when its frames are below all theirs. */
  lemma BelowTail(r: Region, rs: seq<Region>)
    ensures var a, b := FramesIn(r), UsableFrames(rs);
      (forall i, j :: 0 <= i < |a| && 0 <= j < |b| ==> a[i] < b[j]) <==> forall m :: 0 <= m < |rs| ==> Before(r, rs[m])
  {
    var a, b := FramesIn(r), UsableFrames(rs);
    if forall i, j :: 0 <= i < |a| && 0 <= j < |b| ==> a[i] < b[j] {
      forall m | 0 <= m < |rs| ensures Before(r, rs[m]) {
        if Count(r) > 0 && Count(rs[m]) > 0 {
          assert Covers(rs[m], First(rs[m]));
          ListedIffCovered(rs, First(rs[m]));
          var j :| 0 <= j < |b| && b[j] == First(rs[m]);
          assert a[|a| - 1] < b[j];
        }
      }
    }
    if forall m :: 0 <= m < |rs| ==> Before(r, rs[m]) {
      forall i, j | 0 <= i < |a| && 0 <= j < |b| ensures a[i] < b[j] {
        assert b[j] in b;
        ListedIffCovered(rs, b[j]);
        var m :| 0 <= m < |rs| && Covers(rs[m], b[j]);
        assert Before(r, rs[m]);
      }
    }
  }

  /** The list is strictly increasing exactly when the regions come in address order without overlap. */
  lemma {:induction false} IncreasingIffAscending(rs: seq<Region>)
    ensures Increasing(UsableFrames(rs)) <==> Ascending(rs)
  {
    if rs != [] {
      IncreasingIffAscending(rs[1..]);
      IncreasingConcat(FramesIn(rs[0]), UsableFrames(rs[1..]));
      BelowTail(rs[0], rs[1..]);
      assert forall j :: 0 < j < |rs| ==> rs[j] == rs[1..][j - 1];
      assert Ascending(rs) <==>
        Ascending(rs[1..]) && forall j :: 0 <= j < |rs[1..]| ==> Before(rs[0], rs[1..][j]);
    }
  }

  /** `c` is where `take_while(start < bound)` stops. */
  ghost predicate StopsAt(fs: seq<nat>, bound: nat, c: nat) {
    && c <= |fs|
    && (forall i :: 0 <= i < c ==> PAGE * fs[i] < bound)
    && (c < |fs| ==> bound <= PAGE * fs[c])
  }

  class FrameAllocator {
    const regions: seq<Region>
    var next: nat

    constructor (regions: seq<Region>)
      ensures this.regions == regions && next == 0
    {
      this.regions := regions;
      next := 0;
    }

    ghost function Frames(): seq<nat> {
      UsableFrames(regions)
    }

    /** Counts from the start of the list, whatever has been allocated already. */
    method SkipBelow(bound: nat)
      modifies this`next
      ensures StopsAt(Frames(), bound, next)
    {
      var frames := UsableFrames(regions);
      var count := 0;
      while count < |frames| && PAGE * frames[count] < bound
        invariant count <= |frames|
        invariant forall i :: 0 <= i < count ==> PAGE * frames[i] < bound
      {
        count := count + 1;
      }
      next := count;
    }

    /** The cursor moves even when the list is exhausted. */
    method AllocateFrame() returns (frame: Option<nat>)
      modifies this`next
      ensures next == old(next) + 1
      ensures frame == if old(next) < |Frames()| then Some(Frames()[old(next)]) else None
    {
      var frames := UsableFrames(regions);
      frame := if next < |frames| then Some(frames[next]) else None;
      next := next + 1;
    }
  }

  /**
   On an address-ordered map, skipping leaves behind exactly the frames below the bound:
   a frame is still to be issued if and only if it starts at or above it.
   */
  lemma SkipsExactlyTheFramesBelow(rs: seq<Region>, bound: nat, c: nat)
    requires Ascending(rs)
    requires StopsAt(UsableFrames(rs), bound, c)
    ensures Increasing(UsableFrames(rs)[c..])
    ensures forall f :: f in UsableFrames(rs)[c..] <==> f in UsableFrames(rs) && bound <= PAGE * f
  {
    IncreasingIffAscending(rs);
    var fs := UsableFrames(rs);
    forall f | f in fs && bound <= PAGE * f ensures f in fs[c..] {
      var i :| 0 <= i < |fs| && fs[i] == f;
      assert fs[c..][i - c] == f;
    }
  }

  /**
   Is a frame issued from positions `from..next` of the list still ahead of cursor `c`?
   */
  ghost predicate Reissues(fs: seq<nat>, from: nat, next: nat, c: nat) {
    exists i :: from <= i < next && i < |fs| && c <= |fs| && fs[i] in fs[c..]
  }

  /**
   `skip_below` counts from the start of the list, so a call made after allocations can
   rewind: a frame already issued will be issued again exactly when the count is below
   both the cursor and the length of the list.
   */
  lemma RewindReissues(rs: seq<Region>, from: nat, next: nat, bound: nat, c: nat)
    requires PairwiseDisjoint(rs)
    requires from < next && from < |UsableFrames(rs)|
    requires StopsAt(UsableFrames(rs), bound, c)
    ensures Reissues(UsableFrames(rs), from, next, c) <==> c < next && c < |UsableFrames(rs)|
  {
    DistinctIffDisjoint(rs);
    var fs := UsableFrames(rs);
    if c < next && c < |fs| {
      var i := if from < c then c else from;
      assert fs[c..][i - c] == fs[i];
    }
  }

  /** Such a rewind: on a map of frames 0 and 1, `skip_below(0)` after one allocation makes frame 0 come out again. */
  lemma RewindExample()
    ensures var rs := [Region(0, 0x2000, Usable)];
      && UsableFrames(rs) == [0, 1] && StopsAt(UsableFrames(rs), 0, 0)
      && Reissues(UsableFrames(rs), 0, 1, 0)
  {
    var r := Region(0, 0x2000, Usable);
    assert [r][1..] == [];
    assert UsableFrames([r]) == FramesIn(r) + UsableFrames([]);
    assert UsableFrames([r]) == [0, 1];
    RewindReissues([r], 0, 1, 0, 0);
  }
}
