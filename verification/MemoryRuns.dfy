/** Runs of system calls on a task's memory. */
module MemoryRuns {
  import opened Memory
  import opened BuddySpec
  import opened Frames
  import opened Supplies
  import opened Sv39
  import opened AddressSpaces
  import opened Ranges
  import opened MappingTable
  import opened PageMapping
  import opened KeptParts
  import opened MemoryMap
  import opened MemorySyscalls

  datatype Call =
    | Map(addr: nat, length: nat, prot: nat, fl: MmapFlags, fd: int, offset: nat)
    | Unmap(addr: nat, length: nat)
    | Remap(oldStart: nat, oldSize: nat, newSize: nat, fixed: bool, maymove: bool, newAddr: nat)

  /** The stack is in place: a range starts at its lower end. */
  predicate StackAt(rs: seq<Rng>) { exists i :: 0 <= i < |rs| && rs[i].lo == USER_STACK_LOWER_BOUND }

  predicate LeavesStack(start: nat, end: nat) { !(start <= USER_STACK_LOWER_BOUND < end) }

  // ----- what a caller can see before a call -----

  /** `TailClear`, looked up range by range: what lies in the tail is part of the range being moved. */
  predicate TailSeen(rs: seq<Rng>, oldStart: nat, oldEnd: nat, dest: nat, newSize: nat) {
    && IsCanonicalUserRange(dest, dest + Delivered(newSize)) && dest + Delivered(newSize) <= ADDRESS_LIMIT
    && (forall i :: 0 <= i < |rs| && Meets(rs[i], dest + newSize, dest + Delivered(newSize)) ==>
          && (oldStart <= rs[i].lo || oldStart <= dest + newSize)
          && (rs[i].hi <= oldEnd || dest + Delivered(newSize) <= oldEnd))
  }

  /** The size is exact, or what rounding adds is clear. */
  predicate Fitting(rs: seq<Rng>, oldStart: nat, oldEnd: nat, dest: nat, newSize: nat) {
    Exact(newSize) || TailSeen(rs, oldStart, oldEnd, dest, newSize)
  }

  /** So a caller can tell whether the tail is clear. */
  lemma FittingIffClear(rs: seq<Rng>, oldStart: nat, oldEnd: nat, dest: nat, newSize: nat)
    requires NonEmpty(rs) && IsCanonicalUserRange(dest, dest + newSize) && dest + newSize <= ADDRESS_LIMIT
    ensures Fitting(rs, oldStart, oldEnd, dest, newSize) <==> TailClear(rs, oldStart, oldEnd, dest, newSize)
  {
    SegmentsTotal(newSize);
    hide Delivered, Exact;
    if Exact(newSize) {
      ExactIsClear(rs, oldStart, oldEnd, dest, newSize);
    } else if TailSeen(rs, oldStart, oldEnd, dest, newSize) {
      SeenIsClear(rs, oldStart, oldEnd, dest, newSize);
    } else if TailClear(rs, oldStart, oldEnd, dest, newSize) {
      ClearIsSeen(rs, oldStart, oldEnd, dest, newSize);
    }
  }

  lemma SeenIsClear(rs: seq<Rng>, oldStart: nat, oldEnd: nat, dest: nat, newSize: nat)
    requires TailSeen(rs, oldStart, oldEnd, dest, newSize)
    ensures TailClear(rs, oldStart, oldEnd, dest, newSize)
  {
    hide Delivered;
    forall a | dest + newSize <= a < dest + Delivered(newSize) && Covers(rs, a) ensures oldStart <= a < oldEnd {
      var i :| 0 <= i < |rs| && rs[i].lo <= a < rs[i].hi;
      assert Meets(rs[i], dest + newSize, dest + Delivered(newSize));
    }
  }

  lemma ClearIsSeen(rs: seq<Rng>, oldStart: nat, oldEnd: nat, dest: nat, newSize: nat)
    requires TailClear(rs, oldStart, oldEnd, dest, newSize) && NonEmpty(rs) && newSize < Delivered(newSize)
    ensures TailSeen(rs, oldStart, oldEnd, dest, newSize)
  {
    hide Delivered;
    var lo, hi := dest + newSize, dest + Delivered(newSize);
    forall i | 0 <= i < |rs| && Meets(rs[i], lo, hi)
      ensures (oldStart <= rs[i].lo || oldStart <= lo) && (rs[i].hi <= oldEnd || hi <= oldEnd)
    {
      assert Covers(rs, if rs[i].lo < lo then lo else rs[i].lo);
      assert Covers(rs, if rs[i].hi < hi then rs[i].hi - 1 else hi - 1);
    }
  }

  predicate MapReady(rs: seq<Rng>, addr: nat, size: nat, fl: MmapFlags) {
    if fl.fixed && !fl.noreplace then
      && AllExact(Keeps(rs, addr, addr + size)) && LeavesStack(addr, addr + size)
      && Fitting(AfterUnmap(rs, addr, addr + size), 0, 0, addr, size)
    else if fl.noreplace || HintFits(rs, addr, size) then Fitting(rs, 0, 0, addr, size)
    else Exact(size)
  }

  predicate RemapFits(rs: seq<Rng>, oldStart: nat, oldEnd: nat, newSize: nat, fixed: bool, newAddr: nat)
    requires oldStart < oldEnd
  {
    if newSize == oldEnd - oldStart && !(fixed && newAddr != oldStart) then true
    else
      && LeavesStack(oldStart, oldEnd)
      && if newSize != oldEnd - oldStart && InPlace(rs, oldStart, oldEnd, newSize) then
           AllExact(Keeps(rs, oldStart, oldEnd)) && Fitting(rs, oldStart, oldEnd, oldStart, newSize)
         else if fixed then
           && LeavesStack(newAddr, newAddr + newSize) && MoveExact(rs, oldStart, oldEnd, newAddr, newSize, true)
           && Fitting(Vacated(rs, newAddr, newSize, true), oldStart, oldEnd, newAddr, newSize)
         else AllExact(Keeps(rs, oldStart, oldEnd)) && Exact(newSize)
  }

  /** The call keeps only parts of exact size, adds nothing that is taken, and leaves the stack where it is. */
  predicate Ready(rs: seq<Rng>, c: Call) {
    match c
    case Map(addr, length, prot, fl, fd, offset) =>
      && addr < ADDRESS_LIMIT && length < ADDRESS_LIMIT
      && (CheckMmap(fl, fd, offset, prot, length) == OK ==> MapReady(rs, addr, AlignUp(length), fl))
    case Unmap(addr, length) =>
      length > 0 ==> AllExact(Keeps(rs, addr, addr + length)) && LeavesStack(addr, addr + length)
    case Remap(oldStart, oldSize, newSize, fixed, maymove, newAddr) =>
      !BadRemap(oldStart, oldSize, newSize, fixed, newAddr) ==>
      RemapFits(rs, oldStart, oldStart + oldSize, newSize, fixed, newAddr)
  }

  /** The call does not name the address as one that may be unmapped. */
  predicate Spares(c: Call, va: nat) {
    match c
    case Map(addr, length, prot, fl, fd, offset) => !(fl.fixed && !fl.noreplace && addr <= va < addr + AlignUp(length))
    case Unmap(addr, length) => !(addr <= va < addr + length)
    case Remap(oldStart, oldSize, newSize, fixed, maymove, newAddr) =>
      !(oldStart <= va < oldStart + oldSize) && !(fixed && newAddr <= va < newAddr + newSize)
  }

  // ----- the stack stays -----

  lemma StackStays(rs: seq<Rng>, start: nat, end: nat)
    requires StackAt(rs) && NonEmpty(rs) && start < end && LeavesStack(start, end)
    ensures StackAt(AfterUnmap(rs, start, end))
  {
    var i :| 0 <= i < |rs| && rs[i].lo == USER_STACK_LOWER_BOUND;
    var after := AfterUnmap(rs, start, end);
    if Meets(rs[i], start, end) {
      var k := IsKept(rs, start, end, i, Rng(rs[i].lo, start));
      assert after[|Survivors(rs, start, end)| + k].lo == USER_STACK_LOWER_BOUND;
    } else {
      var k := IsSurvivor(rs, start, end, i);
      assert after[k].lo == USER_STACK_LOWER_BOUND;
    }
  }

  lemma StackBeside(rs: seq<Rng>, r: Rng)
    requires StackAt(rs)
    ensures StackAt(rs + [r])
  {
    var i :| 0 <= i < |rs| && rs[i].lo == USER_STACK_LOWER_BOUND;
    assert (rs + [r])[i].lo == USER_STACK_LOWER_BOUND;
  }

  lemma StackStraddled(rs: seq<Rng>, size: nat)
    requires StackAt(rs) && Disjoint(rs) && NonEmpty(rs)
    ensures StackInPlace(rs, size)
  {
    var i :| 0 <= i < |rs| && rs[i].lo == USER_STACK_LOWER_BOUND;
    NoneBesideStack(rs, i);
  }

  // ----- conditions carried over to the calls -----

  lemma MapIsReady(rs: seq<Rng>, addr: nat, size: nat, fl: MmapFlags)
    requires Disjoint(rs) && NonEmpty(rs) && size > 0 && StackAt(rs) && MapReady(rs, addr, size, fl)
    ensures MmapReady(rs, addr, size, fl)
  {
    StackStraddled(rs, size);
    AfterUnmapRanges(rs, addr, addr + size);
    hide Exact, AllExact, TailClear, StackInPlace, AfterUnmap, Fitting, HighestFit, HintFits;
    forall target: nat | Chosen(rs, addr, size, fl.fixed || fl.noreplace, OK, target) && Admitted(rs, target, size, fl)
      ensures TailClear(Beside(rs, target, size, fl), 0, 0, target, size)
    {
      if fl.fixed || fl.noreplace || HintFits(rs, addr, size) {
        assert target == addr;
        FittingIffClear(Beside(rs, addr, size, fl), 0, 0, addr, size);
      } else {
        ExactIsClear(rs, 0, 0, target, size);
      }
    }
  }

  lemma RemapIsReady(rs: seq<Rng>, oldStart: nat, oldEnd: nat, newSize: nat, fixed: bool, maymove: bool, newAddr: nat)
    requires Disjoint(rs) && NonEmpty(rs) && oldStart < oldEnd < ADDRESS_LIMIT && newSize > 0
    requires RemapFits(rs, oldStart, oldEnd, newSize, fixed, newAddr)
    requires newSize < oldEnd - oldStart ==> IsCanonicalUserRange(oldStart, oldStart + newSize)
    ensures RemapReady(rs, oldStart, oldEnd, newSize, fixed, maymove, newAddr)
  {
    AfterUnmapRanges(rs, newAddr, newAddr + newSize);
    hide Exact, AllExact, TailClear, AfterUnmap, Fitting, HighestFit, BelowStack;
    if newSize == oldEnd - oldStart && !(fixed && newAddr != oldStart) {
    } else if newSize != oldEnd - oldStart && InPlace(rs, oldStart, oldEnd, newSize) {
      FittingIffClear(rs, oldStart, oldEnd, oldStart, newSize);
    } else if fixed {
      if newAddr + newSize < ADDRESS_LIMIT && IsCanonicalUserRange(newAddr, newAddr + newSize) {
        FittingIffClear(Vacated(rs, newAddr, newSize, true), oldStart, oldEnd, newAddr, newSize);
      }
    } else {
      forall at: nat ensures MoveReady(rs, oldStart, oldEnd, at, newSize, false) {
        if at + newSize < ADDRESS_LIMIT && IsCanonicalUserRange(at, at + newSize) {
          ExactIsClear(rs, oldStart, oldEnd, at, newSize);
        }
      }
    }
  }

  /** Unmapping exactly one mapping keeps no part of anything. */
  lemma WholeKeepsNothing(rs: seq<Rng>, i: nat)
    requires Disjoint(rs) && NonEmpty(rs) && i < |rs|
    ensures Keeps(rs, rs[i].lo, rs[i].hi) == []
  {
    if Keeps(rs, rs[i].lo, rs[i].hi) != [] {
      var o := KeepOrigin(rs, rs[i].lo, rs[i].hi, 0);
    }
  }

  /** A mapping that is not the stack's leaves the stack alone. */
  lemma OthersLeaveStack(rs: seq<Rng>, i: nat)
    requires Disjoint(rs) && NonEmpty(rs) && StackAt(rs) && i < |rs| && rs[i].lo != USER_STACK_LOWER_BOUND
    ensures LeavesStack(rs[i].lo, rs[i].hi)
  {
    var j :| 0 <= j < |rs| && rs[j].lo == USER_STACK_LOWER_BOUND;
    assert i < j ==> Separate(rs[i], rs[j]);
    assert j < i ==> Separate(rs[j], rs[i]);
  }

  /** A mapping of exact size without a hint is always ready. */
  lemma PlainMapIsReady(rs: seq<Rng>, length: nat, prot: nat)
    requires length < ADDRESS_LIMIT && Exact(AlignUp(length))
    ensures Ready(rs, Map(0, length, prot, MmapFlags(true, false, false), -1, 0))
  {
  }

  /** Unmapping or remapping one whole mapping, other than the stack, to an exact size is always ready. */
  lemma WholeIsReady(rs: seq<Rng>, i: nat, newSize: nat, maymove: bool)
    requires Disjoint(rs) && NonEmpty(rs) && StackAt(rs) && i < |rs| && rs[i].lo != USER_STACK_LOWER_BOUND
    requires Exact(newSize)
    ensures Ready(rs, Unmap(rs[i].lo, rs[i].hi - rs[i].lo))
    ensures Ready(rs, Remap(rs[i].lo, rs[i].hi - rs[i].lo, newSize, false, maymove, 0))
  {
    WholeKeepsNothing(rs, i);
    OthersLeaveStack(rs, i);
    hide Exact, Keeps, StackAt;
  }

  /** Unmapping exactly one mapping always succeeds: nothing has to be allocated for it. */
  method UnmapWhole(ms: MemorySet, i: nat, ghost kept: set<Block>) returns (r: Errno)
    requires ms.Valid() && ms.Bystanders(kept) && i < |ms.mappings|
    requires RangesOf(ms.mappings)[i].hi < ADDRESS_LIMIT
    modifies ms, ms.space, ms.space.buddy, ms.space.buddy.ram
    ensures r == OK && ms.Valid() && ms.Bystanders(kept)
    ensures LiveKept(old(ms.space.buddy.ram.page), ms.space.buddy.ram.page, kept)
    ensures var range := old(RangesOf(ms.mappings))[i];
            forall va: nat :: ms.View(va) == if range.lo <= va < range.hi then Absent else old(ms.View(va))
  {
    hide MemorySet.Valid, MemorySet.Bystanders, LiveKept, ViewOf, AfterUnmap, Keeps, Supply, OrdersOf;
    DisjointNow(ms);
    RangesNonEmpty(ms.mappings);
    RangesPaged(ms.mappings);
    WholeKeepsNothing(RangesOf(ms.mappings), i);
    var range := RangeOf(ms.mappings[i]);
    r := Munmap(ms, range.lo, range.hi - range.lo, kept);
  }

  /** A free window shows no pages. */
  lemma FreeIsAbsent(ms: seq<UserMapping>, page: map<nat, Page>, start: nat, end: nat)
    requires FreeOf(RangesOf(ms), start, end)
    ensures forall va: nat :: start <= va < end ==> ViewOf(ms, page, va) == Absent
  {
    forall va: nat | start <= va < end ensures ViewOf(ms, page, va) == Absent {
      var i := Find(ms, va);
      assert i == |ms| || !Meets(RangesOf(ms)[i], start, end);
    }
  }

  /** Unmapping what a plain `mmap` of exact size has mapped always succeeds and restores what the task sees. */
  method MapThenUnmap(ms: MemorySet, addr: nat, length: nat, prot: nat, ghost kept: set<Block>)
      returns (r: Errno, target: nat)
    requires Settled(ms, kept) && addr < ADDRESS_LIMIT && length < ADDRESS_LIMIT && Exact(AlignUp(length))
    modifies ms, ms.space, ms.space.buddy, ms.space.buddy.ram
    ensures ms.Valid() && ms.Bystanders(kept)
    ensures LiveKept(old(ms.space.buddy.ram.page), ms.space.buddy.ram.page, kept)
    ensures forall va: nat :: ms.View(va) == old(ms.View(va))
  {
    hide MemorySet.Valid, MemorySet.Bystanders, LiveKept, ViewOf, AfterUnmap, Keeps, Supply, OrdersOf, RangesOf,
        StackAt,
        Delivered, MmapReady, HighestFit, AlignUp, HasMemory, Exact, FreeOf, Reaches;
    var fl := MmapFlags(true, false, false);
    DisjointNow(ms);
    RangesNonEmpty(ms.mappings);
    ghost var rs, page0, ms0 := RangesOf(ms.mappings), ms.space.buddy.ram.page, ms.mappings;
    KeptSelf(page0, kept);
    if length > 0 {
      AlignUpLength(length);
      SegmentsTotal(AlignUp(length));
      StackStraddled(rs, AlignUp(length));
      ExactMmapReady(rs, addr, AlignUp(length), fl);
    }
    r, target := Mmap(ms, addr, length, prot, fl, -1, 0, kept);
    if r == OK {
      ghost var page1 := ms.space.buddy.ram.page;
      FreeIsAbsent(ms0, page0, target, target + AlignUp(length));
      RangesAre(ms.mappings);
      var range := RangeOf(ms.mappings[|ms.mappings| - 1]);
      var r' := UnmapWhole(ms, |ms.mappings| - 1, kept);
      LiveKeptTrans(page0, page1, ms.space.buddy.ram.page, kept);
    }
  }

  lemma RangesAre(ms: seq<UserMapping>)
    ensures |RangesOf(ms)| == |ms| && forall i :: 0 <= i < |ms| ==> RangesOf(ms)[i] == RangeOf(ms[i])
  {
  }

  // ----- what a call leaves alone -----

  lemma PresentIsCovered(ms: seq<UserMapping>, page: map<nat, Page>, va: nat)
    requires ViewOf(ms, page, va).Present?
    ensures Covers(RangesOf(ms), va)
  {
    var i := Find(ms, va);
    assert RangesOf(ms)[i].lo <= va < RangesOf(ms)[i].hi;
  }

  /** Addresses of the other ranges are not addresses of the last one. */
  lemma LastIsApart(rs: seq<Rng>, r: Rng, a: nat)
    requires Disjoint(rs + [r]) && Covers(rs, a)
    ensures !(r.lo <= a < r.hi)
  {
    var i :| 0 <= i < |rs| && rs[i].lo <= a < rs[i].hi;
    assert (rs + [r])[i] == rs[i] && (rs + [r])[|rs|] == r;
  }

  /** The stack and the agreement of both tables, as every call finds and leaves them. */
  ghost predicate Settled(ms: MemorySet, kept: set<Block>)
    reads ms, ms.space, ms.space.buddy, ms.space.buddy.ram
  {
    ms.Valid() && ms.Bystanders(kept) && StackAt(RangesOf(ms.mappings))
  }

  lemma MapLeavesStack(rs: seq<Rng>, rs': seq<Rng>, c: Call, r: Errno, target: nat)
    requires c.Map? && StackAt(rs) && NonEmpty(rs) && Ready(rs, c)
    requires CheckMmap(c.fl, c.fd, c.offset, c.prot, c.length) == OK || rs' == rs
    requires r == OK && CheckMmap(c.fl, c.fd, c.offset, c.prot, c.length) == OK ==>
              && rs' == Beside(rs, target, AlignUp(c.length), c.fl)
                   + [Rng(target, target + Delivered(AlignUp(c.length)))]
              && (c.fl.fixed ==> target == c.addr)
    requires r != OK ==>
              || rs' == rs
              || (c.fl.fixed && !c.fl.noreplace && rs' == AfterUnmap(rs, c.addr, c.addr + AlignUp(c.length)))
    ensures StackAt(rs')
  {
    hide AfterUnmap, Delivered, AllExact, Fitting, Exact, AlignUp, StackAt;
    var size := AlignUp(c.length);
    if CheckMmap(c.fl, c.fd, c.offset, c.prot, c.length) == OK {
      AlignUpLength(c.length);
      if c.fl.fixed && !c.fl.noreplace {
        StackStays(rs, c.addr, c.addr + size);
      }
      if r == OK {
        StackBeside(Beside(rs, target, size, c.fl), Rng(target, target + Delivered(size)));
      }
    }
  }

  lemma MapSpares(rs: seq<Rng>, c: Call, target: nat, va: nat)
    requires c.Map? && c.length > 0 && Disjoint(rs) && NonEmpty(rs) && Covers(rs, va) && Spares(c, va)
    requires c.fl.fixed ==> target == c.addr
    requires Disjoint(Beside(rs, target, AlignUp(c.length), c.fl)
              + [Rng(target, target + Delivered(AlignUp(c.length)))])
    ensures !(target <= va < target + Delivered(AlignUp(c.length)))
  {
    hide AfterUnmap, Delivered, AlignUp, Disjoint, NonEmpty, Survivors, Keeps;
    AlignUpLength(c.length);
    AfterUnmapRanges(rs, target, target + AlignUp(c.length));
    LastIsApart(Beside(rs, target, AlignUp(c.length), c.fl), Rng(target, target + Delivered(AlignUp(c.length))), va);
  }

  method ServeMap(ms: MemorySet, c: Call, ghost kept: set<Block>) returns (r: Errno)
    requires Settled(ms, kept) && c.Map? && Ready(RangesOf(ms.mappings), c)
    modifies ms, ms.space, ms.space.buddy, ms.space.buddy.ram
    ensures Settled(ms, kept) && LiveKept(old(ms.space.buddy.ram.page), ms.space.buddy.ram.page, kept)
    ensures forall va: nat :: Spares(c, va) && old(ms.View(va)).Present? ==> ms.View(va) == old(ms.View(va))
  {
    hide MemorySet.Valid, MemorySet.Bystanders, LiveKept, ViewOf, RangesOf, AfterUnmap, MapReady, MmapReady, AlignUp,
        Delivered, StackAt, HighestFit, Covers;
    ghost var rs, ms0, page0, size := RangesOf(ms.mappings), ms.mappings, ms.space.buddy.ram.page, AlignUp(c.length);
    DisjointNow(ms);
    RangesNonEmpty(ms.mappings);
    if CheckMmap(c.fl, c.fd, c.offset, c.prot, c.length) == OK {
      AlignUpLength(c.length);
      MapIsReady(rs, c.addr, size, c.fl);
    }
    var target;
    r, target := Mmap(ms, c.addr, c.length, c.prot, c.fl, c.fd, c.offset, kept);
    MapLeavesStack(rs, RangesOf(ms.mappings), c, r, target);
    if r == OK {
      DisjointNow(ms);
      forall va: nat | Spares(c, va) && ViewOf(ms0, page0, va).Present? ensures ms.View(va) == ViewOf(ms0, page0, va) {
        PresentIsCovered(ms0, page0, va);
        MapSpares(rs, c, target, va);
      }
    }
  }

  method ServeUnmap(ms: MemorySet, c: Call, ghost kept: set<Block>) returns (r: Errno)
    requires Settled(ms, kept) && c.Unmap? && Ready(RangesOf(ms.mappings), c)
    modifies ms, ms.space, ms.space.buddy, ms.space.buddy.ram
    ensures Settled(ms, kept) && LiveKept(old(ms.space.buddy.ram.page), ms.space.buddy.ram.page, kept)
    ensures forall va: nat :: Spares(c, va) && old(ms.View(va)).Present? ==> ms.View(va) == old(ms.View(va))
  {
    hide MemorySet.Valid, MemorySet.Bystanders, LiveKept, ViewOf, RangesOf, AfterUnmap, StackAt, AllExact;
    DisjointNow(ms);
    RangesNonEmpty(ms.mappings);
    if c.length > 0 {
      StackStays(RangesOf(ms.mappings), c.addr, c.addr + c.length);
    }
    r := Munmap(ms, c.addr, c.length, kept);
  }

  /** Whatever a move leaves of the ranges, the stack is among it. */
  lemma MoveLeavesStack(rs: seq<Rng>, rs': seq<Rng>, oldStart: nat, oldEnd: nat, dest: nat, newSize: nat,
      replace: bool, done: bool)
    requires MoveRanges(rs, rs', oldStart, oldEnd, dest, newSize, replace, done) && Disjoint(rs) && NonEmpty(rs)
    requires StackAt(rs) && oldStart < oldEnd && LeavesStack(oldStart, oldEnd) && newSize > 0
    requires replace && rs' != rs ==> LeavesStack(dest, dest + newSize)
    ensures StackAt(rs')
  {
    hide AfterUnmap, Delivered, StackAt;
    if rs' != rs {
      var mid := Vacated(rs, dest, newSize, replace);
      if replace {
        StackStays(rs, dest, dest + newSize);
        AfterUnmapRanges(rs, dest, dest + newSize);
      }
      StackStays(mid, oldStart, oldEnd);
      StackBeside(AfterUnmap(mid, oldStart, oldEnd), Rng(dest, dest + Delivered(newSize)));
    }
  }

  /** A mapped address outside the old range and a replaced destination is not where the range goes. */
  lemma MoveSpares(rs: seq<Rng>, rs': seq<Rng>, oldStart: nat, oldEnd: nat, dest: nat, newSize: nat, replace: bool,
      va: nat)
    requires MoveRanges(rs, rs', oldStart, oldEnd, dest, newSize, replace, true) && Disjoint(rs) && NonEmpty(rs)
    requires Disjoint(rs') && oldStart < oldEnd && newSize > 0 && Covers(rs, va)
    requires !(oldStart <= va < oldEnd) && !(replace && dest <= va < dest + newSize)
    ensures !(dest <= va < dest + Delivered(newSize))
  {
    hide AfterUnmap, Delivered, Disjoint, NonEmpty;
    var mid := Vacated(rs, dest, newSize, replace);
    if replace {
      AfterUnmapRanges(rs, dest, dest + newSize);
    }
    AfterUnmapRanges(mid, oldStart, oldEnd);
    LastIsApart(AfterUnmap(mid, oldStart, oldEnd), Rng(dest, dest + Delivered(newSize)), va);
  }

  lemma RemapReadyNow(ms: MemorySet, c: Call)
    requires ms.Valid() && c.Remap? && Ready(RangesOf(ms.mappings), c)
    requires !BadRemap(c.oldStart, c.oldSize, c.newSize, c.fixed, c.newAddr)
    requires c.newSize == c.oldSize || AllPresent(ms.mappings, c.oldStart, c.oldSize)
    ensures RemapReady(RangesOf(ms.mappings), c.oldStart, c.oldStart + c.oldSize, c.newSize, c.fixed, c.maymove,
              c.newAddr)
  {
    hide MemorySet.Valid, RangesOf, AllPresent, AllExact, Exact;
    DisjointNow(ms);
    RangesNonEmpty(ms.mappings);
    if AllPresent(ms.mappings, c.oldStart, c.oldSize) {
      PresentCanonical(ms.mappings, c.oldStart, c.oldSize);
    }
    RemapIsReady(RangesOf(ms.mappings), c.oldStart, c.oldStart + c.oldSize, c.newSize, c.fixed, c.maymove, c.newAddr);
  }

  /** The ranges after a remap still have the stack, and a page the call spares is not where the range went. */
  lemma RemapSpares(rs: seq<Rng>, rs': seq<Rng>, c: Call, at: nat, done: bool)
    requires c.Remap? && StackAt(rs) && Disjoint(rs) && NonEmpty(rs) && Disjoint(rs') && Ready(rs, c)
    requires !BadRemap(c.oldStart, c.oldSize, c.newSize, c.fixed, c.newAddr)
    requires RemapRanges(rs, rs', c.oldStart, c.oldStart + c.oldSize, c.newSize, c.fixed, c.newAddr, at, done)
    requires var same := c.newSize == c.oldSize && !(c.fixed && c.newAddr != c.oldStart);
             done && !same ==> Lands(rs, c.oldStart, c.oldStart + c.oldSize, c.newSize, c.fixed, c.newAddr, at)
    ensures StackAt(rs')
    ensures done && !(c.newSize == c.oldSize && !(c.fixed && c.newAddr != c.oldStart)) ==>
              forall va: nat :: Covers(rs, va) && Spares(c, va) ==> !(at <= va < at + Delivered(c.newSize))
  {
    hide MoveRanges, Delivered, StackAt, Covers, HighestFit, BelowStack, AllExact, Exact, Fitting, MoveExact, CanGrow;
    var oldEnd := c.oldStart + c.oldSize;
    if !(c.newSize == c.oldSize && !(c.fixed && c.newAddr != c.oldStart)) {
      var replace := c.fixed && !InPlace(rs, c.oldStart, oldEnd, c.newSize);
      MoveLeavesStack(rs, rs', c.oldStart, oldEnd, at, c.newSize, replace, done);
      if done {
        forall va: nat | Covers(rs, va) && Spares(c, va) ensures !(at <= va < at + Delivered(c.newSize)) {
          MoveSpares(rs, rs', c.oldStart, oldEnd, at, c.newSize, replace, va);
        }
      }
    }
  }

  method ServeRemap(ms: MemorySet, c: Call, ghost kept: set<Block>) returns (r: Errno)
    requires Settled(ms, kept) && c.Remap? && Ready(RangesOf(ms.mappings), c)
    modifies ms, ms.space, ms.space.buddy, ms.space.buddy.ram
    ensures Settled(ms, kept) && LiveKept(old(ms.space.buddy.ram.page), ms.space.buddy.ram.page, kept)
    ensures forall va: nat :: Spares(c, va) && old(ms.View(va)).Present? ==> ms.View(va) == old(ms.View(va))
  {
    hide MemorySet.Valid, MemorySet.Bystanders, LiveKept, ViewOf, RangesOf, StackAt, Covers, RemapReady, RemapFits,
        RemapRanges, AllPresent, Delivered, Lands, BadRemap, Accessible;
    ghost var rs, ms0, page0 := RangesOf(ms.mappings), ms.mappings, ms.space.buddy.ram.page;
    DisjointNow(ms);
    RangesNonEmpty(ms.mappings);
    ghost var bad := BadRemap(c.oldStart, c.oldSize, c.newSize, c.fixed, c.newAddr);
    if !bad && (c.newSize == c.oldSize || AllPresent(ms.mappings, c.oldStart, c.oldSize)) {
      RemapReadyNow(ms, c);
    }
    var at;
    r, at := Mremap(ms, c.oldStart, c.oldSize, c.newSize, c.fixed, c.maymove, c.newAddr, kept);
    if !bad {
      DisjointNow(ms);
      RemapSpares(rs, RangesOf(ms.mappings), c, at, r == OK);
      forall va: nat | Spares(c, va) && ViewOf(ms0, page0, va).Present? ensures ms.View(va) == ViewOf(ms0, page0, va) {
        PresentIsCovered(ms0, page0, va);
      }
    }
  }

  /** One call, of whichever kind. */
  method Serve(ms: MemorySet, c: Call, ghost kept: set<Block>) returns (r: Errno)
    requires Settled(ms, kept) && Ready(RangesOf(ms.mappings), c)
    modifies ms, ms.space, ms.space.buddy, ms.space.buddy.ram
    ensures Settled(ms, kept) && LiveKept(old(ms.space.buddy.ram.page), ms.space.buddy.ram.page, kept)
    ensures forall va: nat :: Spares(c, va) && old(ms.View(va)).Present? ==> ms.View(va) == old(ms.View(va))
  {
    match c
    case Map(_, _, _, _, _, _) => r := ServeMap(ms, c, kept);
    case Unmap(_, _) => r := ServeUnmap(ms, c, kept);
    case Remap(_, _, _, _, _, _) => r := ServeRemap(ms, c, kept);
  }

  ghost predicate AllSpare(calls: seq<Call>, va: nat) { forall i :: 0 <= i < |calls| ==> Spares(calls[i], va) }

  /**
   Any sequence of calls, each made if it is ready when its turn comes.  Afterwards, as before, the
   mappings are disjoint and own their frames, the page tables agree with them, the stack is in place,
   and nobody else's memory has changed.  A page keeps its contents and protection until a call names it.
   */
  method ServeAll(ms: MemorySet, calls: seq<Call>, ghost kept: set<Block>) returns (results: seq<Option<Errno>>)
    requires Settled(ms, kept)
    modifies ms, ms.space, ms.space.buddy, ms.space.buddy.ram
    ensures Settled(ms, kept) && LiveKept(old(ms.space.buddy.ram.page), ms.space.buddy.ram.page, kept)
    ensures Disjoint(RangesOf(ms.mappings)) && Agrees(ms.space.Tree(), ms.space.kernel, ms.mappings)
    ensures |results| == |calls|
    ensures forall va: nat :: AllSpare(calls, va) && old(ms.View(va)).Present? ==> ms.View(va) == old(ms.View(va))
  {
    hide LiveKept, ViewOf, Ready, Spares;
    results := [];
    ghost var page0 := ms.space.buddy.ram.page;
    KeptSelf(page0, kept);
    var i := 0;
    while i < |calls|
      invariant i <= |calls| && |results| == i
      invariant Settled(ms, kept) && LiveKept(page0, ms.space.buddy.ram.page, kept)
      invariant forall va: nat :: AllSpare(calls[..i], va) && old(ms.View(va)).Present? ==>
                ms.View(va) == old(ms.View(va))
    {
      hide Settled;
      ghost var page1 := ms.space.buddy.ram.page;
      forall va: nat | AllSpare(calls[..i + 1], va) ensures AllSpare(calls[..i], va) && Spares(calls[i], va) {
        OneMore(calls, i, va);
      }
      if Ready(RangesOf(ms.mappings), calls[i]) {
        var r := Serve(ms, calls[i], kept);
        LiveKeptTrans(page0, page1, ms.space.buddy.ram.page, kept);
        results := results + [Some(r)];
      } else {
        results := results + [None];
      }
      i := i + 1;
    }
    assert calls[..i] == calls;
  }

  lemma OneMore(calls: seq<Call>, i: nat, va: nat)
    requires i < |calls| && AllSpare(calls[..i + 1], va)
    ensures AllSpare(calls[..i], va) && Spares(calls[i], va)
  {
    forall j | 0 <= j <= i ensures Spares(calls[j], va) {
      assert calls[..i + 1][j] == calls[j];
    }
  }
}
