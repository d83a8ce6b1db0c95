/** The system calls on a task's memory: `mmap`, `munmap`, `mremap`. */
module MemorySyscalls {
  import opened Memory
  import opened BuddySpec
  import opened Buddy
  import opened Frames
  import opened Supplies
  import opened Sv39
  import opened AddressSpaces
  import opened Protection
  import opened Ranges
  import opened MappingTable
  import opened PageMapping
  import opened KeptParts
  import opened MemoryMap

  // ----- new frames and what they hold -----

  function Content(v: PageView): Page { if v.Present? then v.contents else ZeroPage() }

  /** The frames hold the first `copied` bytes seen at `va` in the old memory, then zeros. */
  ghost predicate Filled(page: map<nat, Page>, frames: seq<Frame>, ms: seq<UserMapping>, page0: map<nat, Page>, va: nat,
      copied: nat) {
    forall off: nat :: off < TotalSize(frames) && off % PAGE_SIZE == 0 ==>
      At(page, PhysAtOffset(frames, off)) == if off < copied then Content(ViewOf(ms, page0, va + off)) else ZeroPage()
  }

  lemma FilledEarlier(page: map<nat, Page>, frames: seq<Frame>, ms: seq<UserMapping>, page0: map<nat, Page>,
      page1: map<nat, Page>, va: nat, copied: nat, mine: set<Block>)
    requires Filled(page, frames, ms, page1, va, copied) && AllSound(ms) && AllBlocks(ms) <= mine
              && LiveKept(page0, page1, mine)
    ensures Filled(page, frames, ms, page0, va, copied)
  {
    forall off: nat | off < TotalSize(frames) && off % PAGE_SIZE == 0 && off < copied
      ensures ViewOf(ms, page0, va + off) == ViewOf(ms, page1, va + off)
    {
      ViewKept(ms, page0, page1, mine, va + off);
    }
  }

  lemma FilledKept(page: map<nat, Page>, page': map<nat, Page>, frames: seq<Frame>, ms: seq<UserMapping>,
      page0: map<nat, Page>, va: nat, copied: nat, live: set<Block>)
    requires Filled(page, frames, ms, page0, va, copied) && AreFrames(frames) && PageAligned(frames)
    requires Blocks(frames) <= live && LiveKept(page, page', live)
    ensures Filled(page', frames, ms, page0, va, copied)
  {
    forall off: nat | off < TotalSize(frames) && off % PAGE_SIZE == 0
        ensures At(page', PhysAtOffset(frames, off)) == At(page, PhysAtOffset(frames, off)) {
      var i := PhysInFrame(frames, off);
      assert BlockOf(frames[i]) in Blocks(frames);
    }
  }

  lemma FilledByCopy(page: map<nat, Page>, page': map<nat, Page>, frames: seq<Frame>, ms: seq<UserMapping>, va: nat,
      copied: nat)
    requires Zeroed(page, frames, TotalSize(frames)) && TailKept(page, page', frames, copied)
              && copied <= TotalSize(frames)
    requires CopiedFrom(page', frames, ms, page, va, copied)
    ensures Filled(page', frames, ms, page, va, copied)
  {
  }

  lemma CopiedPresent(page: map<nat, Page>, frames: seq<Frame>, ms: seq<UserMapping>, page0: map<nat, Page>, va: nat,
      copied: nat)
    requires CopiedFrom(page, frames, ms, page0, va, copied)
    ensures AllPresent(ms, va, copied)
  {
    forall off | 0 <= off < copied && off % PAGE_SIZE == 0 ensures Find(ms, va + off) < |ms| {
      assert ViewOf(ms, page0, va + off).Present?;
    }
  }

  /** Frames for `size` bytes, full of zeros. */
  method NewFrames(ms: MemorySet, size: nat, ghost kept: set<Block>) returns (fs: Option<seq<Frame>>)
    requires ms.Valid() && ms.Bystanders(kept) && size > 0
    modifies ms.space.buddy, ms.space.buddy.ram
    ensures ms.Valid() && LiveKept(old(ms.space.buddy.ram.page), ms.space.buddy.ram.page, kept + AllBlocks(ms.mappings))
    ensures fs.None? ==> ms.Bystanders(kept)
    ensures fs.Some? ==>
              && ms.Holding(fs.value, kept) && TotalSize(fs.value) == Delivered(size)
              && Zeroed(ms.space.buddy.ram.page, fs.value, Delivered(size))
    ensures Supplied(old(ms.space.buddy.state.lists), OrdersFor(size), fs.Some?, ms.space.buddy.state.lists)
  {
    hide MemorySet.Valid, LiveKept, Delivered, Zeroed, Supplied, OrdersFor;
    ghost var page0, mine := ms.space.buddy.ram.page, kept + AllBlocks(ms.mappings);
    fs := ms.TakeFrames(size, kept);
    if fs.None? {
      return;
    }
    ghost var page1 := ms.space.buddy.ram.page;
    ms.HoldingApart(fs.value, kept);
    ms.ZeroFrames(fs.value);
    LiveKeptSubset(page1, ms.space.buddy.ram.page, ms.space.buddy.state.live - Blocks(fs.value), mine);
    LiveKeptTrans(page0, page1, ms.space.buddy.ram.page, mine);
  }

  /** Copy the start of an old range into zeroed frames. */
  method CopyOld(ms: MemorySet, frames: seq<Frame>, va: nat, size: nat, ghost kept: set<Block>) returns (ok: bool)
    requires ms.Valid() && ms.Holding(frames, kept) && Zeroed(ms.space.buddy.ram.page, frames, TotalSize(frames))
    requires va % PAGE_SIZE == 0 && size % PAGE_SIZE == 0 && size <= TotalSize(frames)
    modifies ms.space.buddy.ram
    ensures ms.Valid() && ms.Holding(frames, kept)
    ensures LiveKept(old(ms.space.buddy.ram.page), ms.space.buddy.ram.page, kept + AllBlocks(ms.mappings))
    ensures ok ==> Filled(ms.space.buddy.ram.page, frames, ms.mappings, old(ms.space.buddy.ram.page), va, size)
    ensures ok <==> AllPresent(ms.mappings, va, size)
  {
    hide MemorySet.Valid, LiveKept, CopiedFrom, TailKept, Zeroed, Filled, AllPresent;
    ghost var page0 := ms.space.buddy.ram.page;
    ms.HoldingApart(frames, kept);
    ok := ms.CopyInto(frames, va, size);
    LiveKeptSubset(page0, ms.space.buddy.ram.page, ms.space.buddy.state.live - Blocks(frames),
        kept + AllBlocks(ms.mappings));
    if ok {
      FilledByCopy(page0, ms.space.buddy.ram.page, frames, ms.mappings, va, size);
      assert AllPresent(ms.mappings, va,
          size) by { CopiedPresent(ms.space.buddy.ram.page, frames, ms.mappings, page0, va, size); }
    }
  }

  // ----- mapping frames in hand -----

  /** The page that frames laid out from `base` show at `va`. */
  ghost function Shown(page: map<nat, Page>, frames: seq<Frame>, base: nat, va: nat): Page
    requires base <= va
  {
    At(page, PhysAtOffset(frames, va - base))
  }

  ghost predicate InWindow(va: nat, start: nat, end: nat) { va % PAGE_SIZE == 0 && start <= va < end }

  /** `map_frame` as a task sees it: the new pages show the frames, all others are as before. */
  method MapNew(ms: MemorySet, addr: nat, frames: seq<Frame>, flags: Flags, ghost kept: set<Block>) returns (r: Errno)
    requires ms.Valid() && CanMap(Now(ms.space), ms.space.rootPpn, ms.space.kernel, ms.mappings, addr, frames, kept)
    modifies ms, ms.space, ms.space.buddy, ms.space.buddy.ram
    ensures ms.Valid() && ms.Bystanders(kept) && LiveKept(old(ms.space.buddy.ram.page), ms.space.buddy.ram.page, kept)
    ensures r == OK || r == ENOMEM || r == EINVAL
    ensures RangesOf(ms.mappings) == old(RangesOf(ms.mappings)) + if r == OK then [Rng(addr, addr + TotalSize(frames))]
              else []
    ensures forall va: nat :: ms.View(va) ==
              if r == OK && InWindow(va, addr, addr + TotalSize(frames))
                  then Present(flags, Shown(old(ms.space.buddy.ram.page), frames, addr, va))
              else old(ms.View(va))
    ensures (Rwx(flags) ==> old(Prepared(ms.space.Tree(), addr, TotalSize(frames)))) ==> r == OK
    ensures Rwx(flags) ==>
              Affordable(Cause(r), old(ms.space.Tree()), old(ms.space.buddy.state.lists), addr, TotalSize(frames))
  {
    hide MemorySet.Valid, LiveKept, ViewOf, Shown, Affordable;
    ghost var page0, ms0 := ms.space.buddy.ram.page, ms.mappings;
    CanMapFacts(Now(ms.space), ms.space.rootPpn, ms.space.kernel, ms.mappings, addr, frames, kept);
    r := ms.MapFrame(addr, frames, flags, kept);
    DisjointNow(ms);
    if r == OK {
      MappedView(ms.mappings, ms0, ms.space.buddy.ram.page, page0, UserMapping(addr, frames, flags),
          kept + AllBlocks(ms0) + Blocks(frames));
      LiveKeptSubset(page0, ms.space.buddy.ram.page, kept + AllBlocks(ms0) + Blocks(frames), kept);
    } else {
      SameViews(ms0, page0, ms.space.buddy.ram.page, kept + AllBlocks(ms0) + {});
      LiveKeptSubset(page0, ms.space.buddy.ram.page, kept + AllBlocks(ms0) + {}, kept);
    }
  }

  lemma CanMapFacts(s: Snapshot, rootPpn: nat, kernel: map<nat, Table>, ms: seq<UserMapping>, addr: nat,
      frames: seq<Frame>, kept: set<Block>)
    requires CanMap(s, rootPpn, kernel, ms, addr, frames, kept)
    ensures AllSound(ms) && AreFrames(frames) && PageAligned(frames) && addr % PAGE_SIZE == 0
  {
  }

  lemma SameViews(ms: seq<UserMapping>, page0: map<nat, Page>, page: map<nat, Page>, mine: set<Block>)
    requires AllSound(ms) && AllBlocks(ms) <= mine && LiveKept(page0, page, mine)
    ensures forall va: nat :: ViewOf(ms, page, va) == ViewOf(ms, page0, va)
  {
    hide *;
    forall va: nat ensures ViewOf(ms, page, va) == ViewOf(ms, page0, va) {
      ViewKept(ms, page0, page, mine, va);
    }
  }

  lemma MappedView(ms: seq<UserMapping>, ms0: seq<UserMapping>, page: map<nat, Page>, page0: map<nat, Page>,
      m: UserMapping, mine: set<Block>)
    requires ms == ms0 + [m] && Disjoint(RangesOf(ms)) && AllSound(ms0)
    requires AreFrames(m.frames) && PageAligned(m.frames) && m.va % PAGE_SIZE == 0
    requires AllBlocks(ms0) + Blocks(m.frames) <= mine && LiveKept(page0, page, mine)
    ensures RangesOf(ms) == RangesOf(ms0) + [Rng(m.va, m.va + TotalSize(m.frames))]
    ensures forall va: nat :: ViewOf(ms, page, va) ==
              if InWindow(va, m.va, m.va + TotalSize(m.frames)) then Present(m.flags, Shown(page0, m.frames, m.va, va))
              else ViewOf(ms0, page0, va)
  {
    assert RangeOf(m) == Rng(m.va, m.va + TotalSize(m.frames));
    forall va: nat ensures ViewOf(ms, page, va) ==
              if InWindow(va, m.va, m.va + TotalSize(m.frames)) then Present(m.flags, Shown(page0, m.frames, m.va, va))
              else ViewOf(ms0, page0, va)
    {
      MappedViewAt(ms0, page, page0, m, mine, va);
    }
  }

  lemma MappedViewAt(ms0: seq<UserMapping>, page: map<nat, Page>, page0: map<nat, Page>, m: UserMapping,
      mine: set<Block>, va: nat)
    requires Disjoint(RangesOf(ms0 + [m])) && AllSound(ms0)
    requires AreFrames(m.frames) && PageAligned(m.frames) && m.va % PAGE_SIZE == 0
    requires AllBlocks(ms0) + Blocks(m.frames) <= mine && LiveKept(page0, page, mine)
    ensures ViewOf(ms0 + [m], page, va) ==
              if InWindow(va, m.va, m.va + TotalSize(m.frames)) then Present(m.flags, Shown(page0, m.frames, m.va, va))
              else ViewOf(ms0, page0, va)
  {
    hide AllBlocks, AllSound, Blocks, LiveKept, Disjoint, RangesOf, ViewOf, Shown, TotalSize, InWindow, InRange, PhysOf,
        RangeStart;
    ViewKept(ms0, page0, page, mine, va);
    ViewAppend(ms0, m, page, va);
    NewPage(m, page0, page, mine, va);
  }

  lemma DisjointNow(ms: MemorySet)
    requires ms.Valid()
    ensures Disjoint(RangesOf(ms.mappings)) && AllSound(ms.mappings)
  {
  }

  lemma NewPage(m: UserMapping, page0: map<nat, Page>, page: map<nat, Page>, live: set<Block>, va: nat)
    requires AreFrames(m.frames) && PageAligned(m.frames) && m.va % PAGE_SIZE == 0 && Blocks(m.frames) <= live
              && LiveKept(page0, page, live)
    ensures InWindow(va, m.va, m.va + TotalSize(m.frames)) <==> InRange(m, va)
    ensures InRange(m, va) ==> At(page, PhysOf(m, va)) == Shown(page0, m.frames, m.va, va)
  {
    if InRange(m, va) {
      PageDiff(va, m.va);
      var i := PhysInFrame(m.frames, va - m.va);
      assert BlockOf(m.frames[i]) in Blocks(m.frames);
    }
  }

  // ----- when there is enough memory -----

  /**
   Blocks of the orders can be had and, if the pages get table entries, then also a page for every table
   that is missing; and no page lies in a root slot of the kernel.
   */
  ghost predicate Placeable(lists: Lists, tree: Space, orders: seq<nat>, target: nat, size: nat, rwx: bool) {
    && Supply(lists, orders).Some?
    && (rwx ==> FreePages(Supply(lists, orders).value) >= TablesNeeded(tree, target, size)
                && Unshared(tree, target, size))
  }

  /**
   Enough, even if blocks are freed on the way: the first requests can be served, and there is a free 4 MiB
   block for each of `blocks` more and for every 1024 tables that are missing.
   */
  ghost predicate Roomy(lists: Lists, tree: Space, orders: seq<nat>, blocks: nat, target: nat, size: nat, rwx: bool) {
    && Supply(lists, orders).Some? && TopFree(Supply(lists, orders).value) >= blocks
    && (rwx ==> Unshared(tree, target, size)
                && 1024 * (TopFree(Supply(lists, orders).value) - blocks) >= TablesNeeded(tree, target, size))
  }

  lemma RoomyIsEnough(lists0: Lists, lists: Lists, tree0: Space, tree: Space, orders: seq<nat>, more: seq<nat>,
      target: nat, size: nat, rwx: bool)
    requires Spent(lists0, orders, true, lists) && Extends(tree0, tree)
    requires forall i :: 0 <= i < |more| ==> more[i] < MAX_ORDER
    requires Roomy(lists0, tree0, orders, |more|, target, size, rwx)
    ensures Roomy(lists, tree, more, 0, target, size, rwx) && Placeable(lists, tree, more, target, size, rwx)
  {
    hide Supply, TopFree, FreePages, TablesNeeded, Unshared;
    TopSupplies(lists, more);
    TopPages(Supply(lists, more).value);
    NeedsNoMore(tree0, tree, target, size);
  }

  /** The orders of the blocks that moving a range takes: first for the new pages, then for parts that are kept. */
  ghost function MoveOrders(rs: seq<Rng>, oldStart: nat, oldEnd: nat, newSize: nat): seq<nat> {
    OrdersFor(newSize) + OrdersOf(Keeps(rs, oldStart, oldEnd))
  }

  /**
   How moving a range ends when all its pages are there: it runs out of memory if the blocks cannot be had,
   it stops at a root slot of the kernel, and with enough memory it succeeds.
   */
  ghost predicate Outcome(r: Errno, lists: Lists, tree: Space, orders: seq<nat>, dest: nat, size: nat, rwx: bool) {
    && (r == OK || r == ENOMEM || r == EINVAL)
    && (Supply(lists, orders).None? ==> r == ENOMEM)
    && (r == EINVAL ==> rwx && !Unshared(tree, dest, size))
    && (r == OK && rwx ==> Unshared(tree, dest, size))
    && (Roomy(lists, tree, orders, 0, dest, size, rwx) ==> r == OK)
  }

  /** The old range was torn down and mapping the new pages ended with `r`. */
  lemma OutcomeOf(r: Errno, lists0: Lists, lists: Lists, tree0: Space, tree: Space, orders: seq<nat>, dest: nat,
      size: nat, rwx: bool)
    requires Spent(lists0, orders, true, lists) && Extends(tree0, tree)
    requires (r == OK || r == ENOMEM || r == EINVAL) && (!rwx ==> r == OK)
    requires rwx ==> Affordable(Cause(r), tree, lists, dest, size)
    ensures Outcome(r, lists0, tree0, orders, dest, size, rwx)
  {
    hide Supply, TopFree, FreePages, TablesNeeded, Unshared;
    TopPages(lists);
    NeedsNoMore(tree0, tree, dest, size);
  }

  lemma SpentBoth(lists0: Lists, lists1: Lists, first: seq<nat>, second: seq<nat>, ok: bool, lists: Lists)
    requires Supply(lists0, first) == Some(lists1) && Spent(lists1, second, ok, lists)
    ensures Spent(lists0, first + second, ok, lists) && (!ok ==> Supply(lists0, first + second).None?)
  {
    SupplyConcat(lists0, first, second);
  }

  lemma OutOfBlocks(lists: Lists, tree: Space, orders: seq<nat>, dest: nat, size: nat, rwx: bool)
    requires Supply(lists, orders).None?
    ensures Outcome(ENOMEM, lists, tree, orders, dest, size, rwx)
  {
  }

  // ----- rebuild -----

  /** What a task sees at `va` once [oldStart, oldEnd) has become the mapping delivered for `newSize` bytes at `dest`.
      */
  ghost function Moved(ms: seq<UserMapping>, page: map<nat, Page>, oldStart: nat, oldEnd: nat, dest: nat, newSize: nat,
      flags: Flags, va: nat): PageView
    requires oldStart <= oldEnd
  {
    if InWindow(va, dest, dest + Delivered(newSize)) then
      Present(flags, if va - dest < Min(oldEnd - oldStart, newSize)
          then Content(ViewOf(ms, page, oldStart + (va - dest))) else ZeroPage())
    else if oldStart <= va < oldEnd then Absent
    else ViewOf(ms, page, va)
  }

  ghost predicate IsRange(start: nat, end: nat) { start < end && start % PAGE_SIZE == 0 && end % PAGE_SIZE == 0 }

  /** A destination whose mapped addresses all lie in the range being moved. */
  ghost predicate GoodTarget(rs: seq<Rng>, oldStart: nat, oldEnd: nat, dest: nat, newSize: nat) {
    && newSize > 0 && dest % PAGE_SIZE == 0 && newSize % PAGE_SIZE == 0
    && IsCanonicalUserRange(dest, dest + newSize) && dest + newSize <= ADDRESS_LIMIT
    && (forall a :: dest <= a < dest + newSize && Covers(rs, a) ==> oldStart <= a < oldEnd)
  }

  /**
   The addresses gained by rounding `newSize` up are canonical too, and mapped only as part of the
   range being moved.  Exact sizes gain none.
   */
  ghost predicate TailClear(rs: seq<Rng>, oldStart: nat, oldEnd: nat, dest: nat, newSize: nat) {
    && IsCanonicalUserRange(dest, dest + Delivered(newSize)) && dest + Delivered(newSize) <= ADDRESS_LIMIT
    && (forall a :: dest + newSize <= a < dest + Delivered(newSize) && Covers(rs, a) ==> oldStart <= a < oldEnd)
  }

  lemma ExactIsClear(rs: seq<Rng>, oldStart: nat, oldEnd: nat, dest: nat, newSize: nat)
    requires Exact(newSize) && IsCanonicalUserRange(dest, dest + newSize) && dest + newSize <= ADDRESS_LIMIT
    ensures TailClear(rs, oldStart, oldEnd, dest, newSize)
  {
    SegmentsTotal(newSize);
  }

  lemma ClearTarget(rs: seq<Rng>, oldStart: nat, oldEnd: nat, dest: nat, newSize: nat)
    requires GoodTarget(rs, oldStart, oldEnd, dest, newSize) && TailClear(rs, oldStart, oldEnd, dest, newSize)
    ensures Delivered(newSize) >= newSize && GoodTarget(rs, oldStart, oldEnd, dest, Delivered(newSize))
  {
    SegmentsTotal(newSize);
  }

  /**
   A range that replaces another one, in place or elsewhere, stays apart from all that is left exactly
   if the addresses gained by rounding were mapped at most as part of the range it replaces.
   */
  lemma RebuiltIffTailClear(rs: seq<Rng>, oldStart: nat, oldEnd: nat, dest: nat, newSize: nat)
    requires Disjoint(rs) && NonEmpty(rs) && oldStart < oldEnd && GoodTarget(rs, oldStart, oldEnd, dest, newSize)
    ensures Disjoint(AfterUnmap(rs, oldStart, oldEnd) + [Rng(dest, dest + Delivered(newSize))]) <==>
            (forall a :: dest + newSize <= a < dest + Delivered(newSize) && Covers(rs, a) ==> oldStart <= a < oldEnd)
  {
    var after := AfterUnmap(rs, oldStart, oldEnd);
    AfterUnmapRanges(rs, oldStart, oldEnd);
    FreeAfterUnmap(rs, oldStart, oldEnd, dest, newSize);
    PlacedIffTailFree(after, newSize, dest);
    hide Delivered, AfterUnmap;
    FreeIffUncovered(after, dest + newSize, dest + Delivered(newSize));
  }

  lemma FreeIffUncovered(rs: seq<Rng>, start: nat, end: nat)
    requires NonEmpty(rs) && start <= end
    ensures FreeOf(rs, start, end) || start == end <==> forall a :: start <= a < end ==> !Covers(rs, a)
  {
    forall i | 0 <= i < |rs| && start < end && Meets(rs[i], start, end)
      ensures exists a :: start <= a < end && Covers(rs, a)
    {
      var a := if rs[i].lo < start then start else rs[i].lo;
      assert Covers(rs, a);
    }
  }

  lemma FreeAfterUnmap(rs: seq<Rng>, oldStart: nat, oldEnd: nat, dest: nat, newSize: nat)
    requires Disjoint(rs) && NonEmpty(rs) && oldStart < oldEnd && GoodTarget(rs, oldStart, oldEnd, dest, newSize)
    ensures FreeOf(AfterUnmap(rs, oldStart, oldEnd), dest, dest + newSize)
  {
    var after := AfterUnmap(rs, oldStart, oldEnd);
    AfterUnmapRanges(rs, oldStart, oldEnd);
    forall i | 0 <= i < |after| ensures !Meets(after[i], dest, dest + newSize) {
      var a := if after[i].lo < dest then dest else after[i].lo;
      if Meets(after[i], dest, dest + newSize) {
        assert Covers(after, a);
      }
    }
  }

  lemma FreeRanges(ms: seq<UserMapping>, start: nat, end: nat)
    ensures FreeOf(RangesOf(ms), start, end) <==> RangeIsFree(ms, start, end)
  {
    if RangeIsFree(ms, start, end) {
      forall i | 0 <= i < |ms| ensures !Meets(RangesOf(ms)[i], start, end) {
        assert !Overlaps(ms[i], start, end);
      }
    } else {
      var i :| 0 <= i < |ms| && Overlaps(ms[i], start, end);
      assert Meets(RangesOf(ms)[i], start, end);
    }
  }

  /** Frames that came from `alloc_frames`, whatever has happened to the mappings since. */
  ghost predicate Usable(frames: seq<Frame>) {
    frames != [] && AreFrames(frames) && DistinctFrames(frames) && PageAligned(frames) && FramesApart(frames)
  }

  lemma HoldingUsable(ms: MemorySet, frames: seq<Frame>, kept: set<Block>)
    requires ms.Holding(frames, kept)
    ensures Usable(frames) && kept !! Blocks(frames) && ms.Bystanders(kept + Blocks(frames)) && ms.Bystanders(kept)
  {
  }

  lemma ReadyToMap(ms: MemorySet, addr: nat, frames: seq<Frame>, kept: set<Block>)
    requires Usable(frames) && kept !! Blocks(frames) && ms.Bystanders(kept + Blocks(frames))
    requires addr % PAGE_SIZE == 0 && IsCanonicalUserRange(addr, addr + TotalSize(frames))
              && addr + TotalSize(frames) <= ADDRESS_LIMIT
    requires FreeOf(RangesOf(ms.mappings), addr, addr + TotalSize(frames))
    ensures CanMap(Now(ms.space), ms.space.rootPpn, ms.space.kernel, ms.mappings, addr, frames, kept)
  {
    FreeRanges(ms.mappings, addr, addr + TotalSize(frames));
  }

  /** Give frames back; nobody else notices. */
  method GiveBack(ms: MemorySet, frames: seq<Frame>, ghost kept: set<Block>)
    requires ms.Valid() && Usable(frames) && kept !! Blocks(frames) && ms.Bystanders(kept + Blocks(frames))
    modifies ms.space.buddy, ms.space.buddy.ram
    ensures ms.Valid() && ms.Bystanders(kept)
    ensures LiveKept(old(ms.space.buddy.ram.page), ms.space.buddy.ram.page, kept)
    ensures forall va: nat :: ms.View(va) == old(ms.View(va))
  {
    hide MemorySet.Valid, LiveKept, ViewOf;
    ghost var page0, mine := ms.space.buddy.ram.page, kept + AllBlocks(ms.mappings);
    KeptSelf(page0, mine);
    ms.DropInHand(frames, page0, kept, kept);
    SameViews(ms.mappings, page0, ms.space.buddy.ram.page, mine);
    LiveKeptSubset(page0, ms.space.buddy.ram.page, mine, kept);
  }

  /** Frames for the destination, holding the old contents and then zeros. */
  method Prepare(ms: MemorySet, oldStart: nat, oldEnd: nat, newSize: nat, ghost kept: set<Block>)
      returns (r: Errno, frames: seq<Frame>)
    requires ms.Valid() && ms.Bystanders(kept) && IsRange(oldStart, oldEnd)
    requires newSize > 0 && newSize % PAGE_SIZE == 0
    modifies ms.space.buddy, ms.space.buddy.ram
    ensures ms.Valid() && ms.Bystanders(kept) && LiveKept(old(ms.space.buddy.ram.page), ms.space.buddy.ram.page, kept)
    ensures forall va: nat :: ms.View(va) == old(ms.View(va))
    ensures r == if Supply(old(ms.space.buddy.state.lists), OrdersFor(newSize)).None? then ENOMEM
              else if AllPresent(ms.mappings, oldStart, Min(oldEnd - oldStart, newSize)) then OK else EFAULT
    ensures r == OK ==>
              && Supply(old(ms.space.buddy.state.lists), OrdersFor(newSize)) == Some(ms.space.buddy.state.lists)
              && AllPresent(ms.mappings, oldStart, Min(oldEnd - oldStart, newSize))
              && Usable(frames) && kept !! Blocks(frames) && ms.Bystanders(kept + Blocks(frames))
              && TotalSize(frames) == Delivered(newSize)
              && Filled(ms.space.buddy.ram.page, frames, ms.mappings, old(ms.space.buddy.ram.page), oldStart,
                   Min(oldEnd - oldStart, newSize))
  {
    hide MemorySet.Valid, MemorySet.Bystanders, MemorySet.Holding, LiveKept, ViewOf, Filled, Zeroed, Exact, AllPresent,
        Delivered, Supply, OrdersFor;
    SegmentsTotal(newSize);
    ms.BystandersSound(kept);
    ghost var page0, mine := ms.space.buddy.ram.page, kept + AllBlocks(ms.mappings);
    frames := [];
    var fs := NewFrames(ms, newSize, kept);
    SameViews(ms.mappings, page0, ms.space.buddy.ram.page, mine);
    LiveKeptSubset(page0, ms.space.buddy.ram.page, mine, kept);
    if fs.None? {
      return ENOMEM, [];
    }
    frames := fs.value;
    ghost var page1 := ms.space.buddy.ram.page;
    PageDiff(oldEnd, oldStart);
    var ok := CopyOld(ms, frames, oldStart, Min(oldEnd - oldStart, newSize), kept);
    LiveKeptTrans(page0, page1, ms.space.buddy.ram.page, mine);
    SameViews(ms.mappings, page0, ms.space.buddy.ram.page, mine);
    LiveKeptSubset(page0, ms.space.buddy.ram.page, mine, kept);
    HoldingUsable(ms, frames, kept);
    if !ok {
      ghost var page2 := ms.space.buddy.ram.page;
      GiveBack(ms, frames, kept);
      LiveKeptTrans(page0, page2, ms.space.buddy.ram.page, kept);
      return EFAULT, frames;
    }
    FilledEarlier(ms.space.buddy.ram.page, frames, ms.mappings, page0, page1, oldStart, Min(oldEnd - oldStart, newSize),
        mine);
    return OK, frames;
  }

  /**
   Turn [oldStart, oldEnd) into a mapping for `newSize` bytes at `dest`.  On failure either nothing has changed or
   the old range is gone; it is never gone if the tables for the destination are already there.
   */
  method Rebuild(ms: MemorySet, oldStart: nat, oldEnd: nat, dest: nat, newSize: nat, flags: Flags,
      ghost kept: set<Block>) returns (r: Errno)
    requires ms.Valid() && ms.Bystanders(kept) && IsRange(oldStart, oldEnd)
    requires GoodTarget(RangesOf(ms.mappings), oldStart, oldEnd, dest, newSize)
              && TailClear(RangesOf(ms.mappings), oldStart, oldEnd, dest, newSize)
    requires AllExact(Keeps(RangesOf(ms.mappings), oldStart, oldEnd))
    modifies ms, ms.space, ms.space.buddy, ms.space.buddy.ram
    ensures ms.Valid() && ms.Bystanders(kept) && LiveKept(old(ms.space.buddy.ram.page), ms.space.buddy.ram.page, kept)
    ensures r == OK ==> forall va: nat ::
              ms.View(va) ==
              Moved(old(ms.mappings), old(ms.space.buddy.ram.page), oldStart, oldEnd, dest, newSize, flags, va)
    ensures r == OK ==>
              RangesOf(ms.mappings) ==
              AfterUnmap(old(RangesOf(ms.mappings)), oldStart, oldEnd) + [Rng(dest, dest + Delivered(newSize))]
    ensures r != OK ==> forall va: nat :: r == EFAULT || !(oldStart <= va < oldEnd) ==> ms.View(va) == old(ms.View(va))
    ensures r == OK ==> AllPresent(old(ms.mappings), oldStart, Min(oldEnd - oldStart, newSize))
    ensures r == EFAULT ==> !AllPresent(old(ms.mappings), oldStart, Min(oldEnd - oldStart, newSize))
    ensures if AllPresent(old(ms.mappings), oldStart, Min(oldEnd - oldStart, newSize)) then
              Outcome(r, old(ms.space.buddy.state.lists), old(ms.space.Tree()),
                  MoveOrders(old(RangesOf(ms.mappings)), oldStart, oldEnd, newSize), dest, Delivered(newSize),
                  Rwx(flags))
            else
              r == if Supply(old(ms.space.buddy.state.lists), OrdersFor(newSize)).None? then ENOMEM else EFAULT
    ensures r != OK ==>
              || (RangesOf(ms.mappings) == old(RangesOf(ms.mappings))
                   && forall va: nat :: ms.View(va) == old(ms.View(va)))
              || (&& RangesOf(ms.mappings) == AfterUnmap(old(RangesOf(ms.mappings)), oldStart, oldEnd)
                  && forall va: nat :: ms.View(va) == if oldStart <= va < oldEnd then Absent else old(ms.View(va)))
    ensures r != OK && (Rwx(flags) ==> old(Prepared(ms.space.Tree(), dest, Delivered(newSize)))) ==>
              forall va: nat :: ms.View(va) == old(ms.View(va))
  {
    hide MemorySet.Valid, MemorySet.Bystanders, LiveKept, ViewOf, Filled, Exact, AllPresent, AllExact, AfterUnmap,
        RangesOf, Usable, CanMap, Shown, Prepared, Delivered, TailClear, GoodTarget, Supply, OrdersFor, OrdersOf,
        Keeps, Outcome, Spent, Extends, Affordable, Rwx;
    ghost var page0, ms0, tree0 := ms.space.buddy.ram.page, ms.mappings, ms.space.Tree();
    ghost var lists0, rs := ms.space.buddy.state.lists, RangesOf(ms.mappings);
    SupplyConcat(lists0, OrdersFor(newSize), OrdersOf(Keeps(rs, oldStart, oldEnd)));
    DisjointNow(ms);
    RangesNonEmpty(ms.mappings);
    GoodTargetFacts(RangesOf(ms.mappings), oldStart, oldEnd, dest, newSize);
    ClearTarget(RangesOf(ms.mappings), oldStart, oldEnd, dest, newSize);
    GoodTargetFacts(RangesOf(ms.mappings), oldStart, oldEnd, dest, Delivered(newSize));
    FreeAfterUnmap(RangesOf(ms.mappings), oldStart, oldEnd, dest, Delivered(newSize));
    var frames;
    r, frames := Prepare(ms, oldStart, oldEnd, newSize, kept);
    if r != OK {
      if Supply(lists0, OrdersFor(newSize)).None? {
        OutOfBlocks(lists0, tree0, MoveOrders(rs, oldStart, oldEnd, newSize), dest, Delivered(newSize), Rwx(flags));
      }
      return;
    }
    ghost var lists1 := ms.space.buddy.state.lists;
    UsableFacts(frames);
    ghost var page1, mine := ms.space.buddy.ram.page, kept + Blocks(frames);
    r := ms.UnmapRange(oldStart, oldEnd, mine);
    ghost var page2 := ms.space.buddy.ram.page;
    LiveKeptSubset(page1, page2, mine, kept);
    LiveKeptTrans(page0, page1, page2, kept);
    ghost var lists2, tree2 := ms.space.buddy.state.lists, ms.space.Tree();
    SpentBoth(lists0, lists1, OrdersFor(newSize), OrdersOf(Keeps(rs, oldStart, oldEnd)), r == OK, lists2);
    if r != OK {
      OutOfBlocks(lists0, tree0, MoveOrders(rs, oldStart, oldEnd, newSize), dest, Delivered(newSize), Rwx(flags));
      GiveBack(ms, frames, kept);
      LiveKeptTrans(page0, page2, ms.space.buddy.ram.page, kept);
      return;
    }
    FilledKept(page1, page2, frames, ms0, page0, oldStart, Min(oldEnd - oldStart, newSize), mine);
    ReadyToMap(ms, dest, frames, kept);
    if Prepared(tree0, dest, Delivered(newSize)) {
      PreparedKept(tree0, ms.space.Tree(), dest, Delivered(newSize));
    }
    r := MapNew(ms, dest, frames, flags, kept);
    OutcomeOf(r, lists0, lists2, tree0, tree2, MoveOrders(rs, oldStart, oldEnd, newSize), dest, Delivered(newSize),
        Rwx(flags));
    LiveKeptTrans(page0, page2, ms.space.buddy.ram.page, kept);
    if r == OK {
      ShowMoved(page2, frames, ms0, page0, oldStart, oldEnd, dest, newSize, flags);
    }
  }

  lemma GoodTargetFacts(rs: seq<Rng>, oldStart: nat, oldEnd: nat, dest: nat, newSize: nat)
    requires GoodTarget(rs, oldStart, oldEnd, dest, newSize)
    ensures newSize > 0 && dest % PAGE_SIZE == 0 && newSize % PAGE_SIZE == 0
    ensures IsCanonicalUserRange(dest, dest + newSize) && dest + newSize <= ADDRESS_LIMIT
  {
  }

  lemma UsableFacts(frames: seq<Frame>)
    requires Usable(frames)
    ensures AreFrames(frames) && PageAligned(frames)
  {
  }

  /** Frames filled for the destination show what `Moved` says there. */
  lemma ShowMoved(page: map<nat, Page>, frames: seq<Frame>, ms0: seq<UserMapping>, page0: map<nat, Page>, oldStart: nat,
      oldEnd: nat, dest: nat, newSize: nat, flags: Flags)
    requires oldStart < oldEnd && dest % PAGE_SIZE == 0 && TotalSize(frames) == Delivered(newSize)
    requires Filled(page, frames, ms0, page0, oldStart, Min(oldEnd - oldStart, newSize))
    ensures forall va: nat :: InWindow(va, dest, dest + Delivered(newSize)) ==>
              Present(flags, Shown(page, frames, dest, va)) == Moved(ms0, page0, oldStart, oldEnd, dest, newSize, flags,
                  va)
  {
    hide ViewOf, At, PhysAtOffset, TotalSize, Delivered;
    forall va: nat | InWindow(va, dest, dest + Delivered(newSize))
      ensures Present(flags, Shown(page, frames, dest, va)) == Moved(ms0, page0, oldStart, oldEnd, dest, newSize, flags,
                va)
    {
      PageDiff(va, dest);
    }
  }

  // ----- mmap -----

  datatype MmapFlags = MmapFlags(anonymous: bool, fixed: bool, noreplace: bool)

  /** The checks that come before the mapping table is looked at. */
  function CheckMmap(fl: MmapFlags, fd: int, offset: nat, prot: nat, length: nat): Errno {
    if !fl.anonymous then ENOSYS
    else if fd != -1 || offset != 0 || prot >= 8 || length == 0 || length >= ADDRESS_LIMIT - 1 - PAGE_SIZE then EINVAL
    else OK
  }

  lemma AlignUpLength(length: nat)
    requires length > 0
    ensures AlignUp(length) >= length && AlignUp(length) < length + PAGE_SIZE && AlignUp(length) % PAGE_SIZE == 0
  {
    var x := (length + PAGE_SIZE - 1) / PAGE_SIZE;
    assert x * PAGE_SIZE % PAGE_SIZE == 0;
  }

  /** A hint that can be used as it is. */
  predicate HintFits(rs: seq<Rng>, addr: nat, length: nat) {
    addr != 0 && addr % PAGE_SIZE == 0 && addr + length < ADDRESS_LIMIT && FreeOf(rs, addr, addr + length)
  }

  /** What a chosen target is: the fixed address, the usable hint, or the highest gap below the stack. */
  ghost predicate Chosen(rs: seq<Rng>, addr: nat, length: nat, fixed: bool, r: Errno, target: nat) {
    if fixed then target == addr && r == if addr % PAGE_SIZE == 0 then OK else EINVAL
    else if HintFits(rs, addr, length) then r == OK && target == addr
    else HighestFit(BelowStack(rs), length, if r == OK then Some(target) else None) && (r == OK || r == ENOMEM)
  }

  method ChooseTarget(ms: MemorySet, addr: nat, length: nat, fixed: bool) returns (r: Errno, target: nat)
    requires ms.Valid() && length > 0
    ensures Chosen(RangesOf(ms.mappings), addr, length, fixed, r, target)
  {
    hide MemorySet.Valid, HighestFit, RangesOf;
    if fixed {
      return if addr % PAGE_SIZE == 0 then OK else EINVAL, addr;
    }
    FreeRanges(ms.mappings, addr, addr + length);
    if addr != 0 && addr % PAGE_SIZE == 0 && addr + length < ADDRESS_LIMIT
        && RangeIsFree(ms.mappings, addr, addr + length) {
      return OK, addr;
    }
    DisjointNow(ms);
    RangesNonEmpty(ms.mappings);
    var at := FindFreeRegion(RangesOf(ms.mappings), length);
    if at.None? {
      return ENOMEM, 0;
    }
    return OK, at.value;
  }

  /** A free target, whichever way it was chosen. */
  lemma ChosenFree(rs: seq<Rng>, addr: nat, length: nat, target: nat)
    requires Chosen(rs, addr, length, false, OK, target) && Disjoint(rs) && NonEmpty(rs) && length > 0
              && length % PAGE_SIZE == 0
    requires (!HintFits(rs, addr, length) ==> StackInPlace(rs, length)) && Paged(rs)
    ensures FreeOf(rs, target, target + length) && target % PAGE_SIZE == 0
  {
    if !HintFits(rs, addr, length) {
      FreeRegionIff(rs, length, target);
      HighestAligned(rs, length, target);
    }
  }

  /** The highest gap ends at the stack or at a range, so the region is page aligned. */
  lemma HighestAligned(rs: seq<Rng>, length: nat, at: nat)
    requires HighestFit(BelowStack(rs), length, Some(at)) && length > 0 && length % PAGE_SIZE == 0 && Paged(rs)
    ensures at % PAGE_SIZE == 0
  {
    hide BelowStack, FreeOf;
    if at + length < USER_STACK_LOWER_BOUND {
      var i := FitEndsAtRange(rs, length, at);
      BackOnPage(rs[i].lo, at, length);
    } else {
      BackOnPage(USER_STACK_LOWER_BOUND, at, length);
    }
  }

  lemma BackOnPage(a: nat, at: nat, length: nat)
    requires a % PAGE_SIZE == 0 && length % PAGE_SIZE == 0 && a == at + length
    ensures at % PAGE_SIZE == 0
  {
    PageDiff(a, length);
  }

  /** Every range starts on a page. */
  ghost predicate Paged(rs: seq<Rng>) { forall i :: 0 <= i < |rs| ==> rs[i].lo % PAGE_SIZE == 0 }

  lemma RangesPaged(ms: seq<UserMapping>)
    requires AllSound(ms)
    ensures Paged(RangesOf(ms))
  {
    forall i | 0 <= i < |ms| ensures RangesOf(ms)[i].lo % PAGE_SIZE == 0 {
      SoundSize(ms[i]);
    }
  }

  /** Zeroed frames mapped at a free range. */
  method PlaceZeroed(ms: MemorySet, target: nat, length: nat, flags: Flags, ghost kept: set<Block>) returns (r: Errno)
    requires ms.Valid() && ms.Bystanders(kept) && length > 0 && target % PAGE_SIZE == 0
    requires FreeOf(RangesOf(ms.mappings), target, target + Delivered(length))
    requires IsCanonicalUserRange(target, target + Delivered(length)) && target + Delivered(length) <= ADDRESS_LIMIT
    modifies ms, ms.space, ms.space.buddy, ms.space.buddy.ram
    ensures ms.Valid() && ms.Bystanders(kept) && LiveKept(old(ms.space.buddy.ram.page), ms.space.buddy.ram.page, kept)
    ensures r == OK || r == ENOMEM || r == EINVAL
    ensures RangesOf(ms.mappings) == old(RangesOf(ms.mappings)) + if r == OK
              then [Rng(target, target + Delivered(length))] else []
    ensures forall va: nat :: ms.View(va) ==
              if r == OK && InWindow(va, target, target + Delivered(length)) then Present(flags, ZeroPage())
                  else old(ms.View(va))
    ensures r == OK <==>
            Placeable(old(ms.space.buddy.state.lists), old(ms.space.Tree()), OrdersFor(length), target,
                Delivered(length), Rwx(flags))
    ensures r == EINVAL ==> Rwx(flags) && !Unshared(old(ms.space.Tree()), target, Delivered(length))
  {
    hide MemorySet.Valid, MemorySet.Bystanders, MemorySet.Holding, LiveKept, ViewOf, Delivered, Zeroed, RangesOf,
        Usable, CanMap, Shown, ZeroPage, Prepared, Rwx, FreeOf, AllBlocks, TotalSize, InWindow, AreFrames, PageAligned,
        Supply, OrdersFor, FreePages, TablesNeeded, Unshared;
    ms.BystandersSound(kept);
    ghost var page0, mine := ms.space.buddy.ram.page, kept + AllBlocks(ms.mappings);
    var fs := NewFrames(ms, length, kept);
    ghost var page1 := ms.space.buddy.ram.page;
    SameViews(ms.mappings, page0, page1, mine);
    LiveKeptSubset(page0, page1, mine, kept);
    if fs.None? {
      return ENOMEM;
    }
    HoldingUsable(ms, fs.value, kept);
    UsableFacts(fs.value);
    ReadyToMap(ms, target, fs.value, kept);
    r := MapNew(ms, target, fs.value, flags, kept);
    LiveKeptTrans(page0, page1, ms.space.buddy.ram.page, kept);
    ZeroedAt(page1, fs.value, target);
  }

  lemma OffPage(ms: seq<UserMapping>, page: map<nat, Page>)
    ensures forall va: nat :: va % PAGE_SIZE != 0 ==> ViewOf(ms, page, va) == Absent
  {
  }

  lemma ZeroedAt(page: map<nat, Page>, frames: seq<Frame>, target: nat)
    requires Zeroed(page, frames, TotalSize(frames)) && target % PAGE_SIZE == 0
    ensures forall va: nat :: InWindow(va, target, target + TotalSize(frames)) ==>
              Shown(page, frames, target, va) == ZeroPage()
  {
    forall va: nat | InWindow(va, target, target + TotalSize(frames))
        ensures Shown(page, frames, target, va) == ZeroPage() {
      PageDiff(va, target);
    }
  }

  /** The ranges that a new mapping at `target` has to stay apart from: a fixed one replaces what is there. */
  function Beside(rs: seq<Rng>, target: nat, size: nat, fl: MmapFlags): seq<Rng> {
    if fl.fixed && !fl.noreplace then AfterUnmap(rs, target, target + size) else rs
  }

  /**
   What a caller has to know before `mmap`, beyond the checks `mmap` makes itself: parts that a fixed
   mapping keeps are exact, a gap found below the stack is one, and what rounding adds is free.
   */
  ghost predicate MmapReady(rs: seq<Rng>, addr: nat, size: nat, fl: MmapFlags) {
    && (fl.fixed && !fl.noreplace ==> AllExact(Keeps(rs, addr, addr + size)))
    && (!fl.fixed && !fl.noreplace && !HintFits(rs, addr, size) ==> StackInPlace(rs, size))
    && (forall target: nat ::
          Chosen(rs, addr, size, fl.fixed || fl.noreplace, OK, target) && Admitted(rs, target, size, fl) ==>
          TailClear(Beside(rs, target, size, fl), 0, 0, target, size))
  }

  /** The target passes the checks that come after its choice. */
  ghost predicate Admitted(rs: seq<Rng>, target: nat, size: nat, fl: MmapFlags) {
    && target + size < ADDRESS_LIMIT && IsCanonicalUserRange(target, target + size)
    && (fl.noreplace ==> FreeOf(rs, target, target + size))
  }

  /** Exact sizes are always ready in this respect. */
  lemma ExactMmapReady(rs: seq<Rng>, addr: nat, size: nat, fl: MmapFlags)
    requires Exact(size) && (fl.fixed && !fl.noreplace ==> AllExact(Keeps(rs, addr, addr + size)))
    requires !fl.fixed && !fl.noreplace && !HintFits(rs, addr, size) ==> StackInPlace(rs, size)
    ensures MmapReady(rs, addr, size, fl)
  {
    hide Exact, AllExact, Chosen, TailClear, StackInPlace;
    forall target: nat | Admitted(rs, target, size, fl)
        ensures TailClear(Beside(rs, target, size, fl), 0, 0, target, size) {
      ExactIsClear(Beside(rs, target, size, fl), 0, 0, target, size);
    }
  }

  /**
   What the hardware does with a page: one that can be accessed goes to its frame with its flags, any
   other page outside the kernel's root slots faults.
   */
  lemma ViewTranslates(ms: MemorySet, va: nat)
    requires ms.Valid() && PageVa(va)
    ensures ms.View(va).Present? && Rwx(ms.View(va).flags) ==>
              && PagePhys(ms.mappings, va).Some? && !ms.space.Shared(VpnOf(va))
              && ms.space.Translate(VpnOf(va)) ==
                   Translated(Pte(true, ms.View(va).flags, PagePhys(ms.mappings, va).value / PAGE_SIZE))
    ensures !(ms.View(va).Present? && Rwx(ms.View(va).flags)) && !ms.space.Shared(VpnOf(va)) ==>
              ms.space.Translate(VpnOf(va)) == Fault
  {
    hide AddressSpace.Valid, WalkIn, IsShared, HasLeafTable, Owns, Translated;
    var i := Find(ms.mappings, va);
    if i < |ms.mappings| && Rwx(ms.mappings[i].flags) {
      assert Linked(ms.space.Tree(), ms.space.kernel, ms.mappings[i], va);
      LeafTableNotShared(ms.space.Tree(), VpnOf(va));
    } else {
      DisjointNow(ms);
      OnlyFound(ms.mappings, va);
      assert NoRwx(ms.mappings, va);
    }
  }

  /** A page belongs to at most one mapping, the one that is found. */
  lemma OnlyFound(ms: seq<UserMapping>, va: nat)
    requires AllSound(ms) && Disjoint(RangesOf(ms))
    ensures forall i :: 0 <= i < |ms| && InRange(ms[i], va) ==> i == Find(ms, va)
  {
    forall i | 0 <= i < |ms| && InRange(ms[i], va) ensures i == Find(ms, va) {
      var j := Find(ms, va);
      if i != j {
        RangesDisjoint(ms, i, j, va);
      }
    }
  }

  /** In a root slot of the kernel it is the kernel's tables that decide. */
  lemma KernelDecides(ms: MemorySet, va: nat)
    requires ms.Valid() && ms.space.Shared(VpnOf(va))
    ensures Vpn2(VpnOf(va)) < ENTRIES && ms.space.root[Vpn2(VpnOf(va))].ppn in ms.space.kernel
    ensures ms.space.Translate(VpnOf(va)) ==
            Walk1(ms.space.kernel[ms.space.root[Vpn2(VpnOf(va))].ppn], ms.space.kernel, VpnOf(va))
  {
    var vpn := VpnOf(va);
    VpnDigits(vpn, vpn);
    assert RootOk(ms.space.Tree(), ms.space.owner, Vpn2(vpn));
    var e1 := ms.space.kernel[ms.space.root[Vpn2(vpn)].ppn][Vpn1(vpn)];
    if e1.v && IsPointer(e1) {
      assert e1.ppn in ms.space.kernel;
    }
  }

  /** So a page mapped without any access there need not fault: the kernel's own mapping stays (a concrete space). */
  lemma KernelSlotStaysMapped()
    ensures var table := Blank()[0 := Pte(true, NO_FLAGS.(r := true), 0)];
            var tree, kernel := Space(Blank()[0 := Pointer(1)], map[]), map[1 := table];
            var m := UserMapping(0, [Frame(2 * TOP_SIZE, PAGE_SIZE)], NO_FLAGS);
            && TreeShaped(tree, map[]) && Placed(tree, kernel) && Agrees(tree, kernel, [m])
            && InRange(m, 0) && WalkIn(tree, kernel, VpnOf(0)).Mapped?
  {
    var table := Blank()[0 := Pte(true, NO_FLAGS.(r := true), 0)];
    var tree, kernel := Space(Blank()[0 := Pointer(1)], map[]), map[1 := table];
    forall va: nat | PageVa(va) && !IsShared(tree, VpnOf(va)) ensures WalkIn(tree, kernel, VpnOf(va)) == Fault {
      VpnDigits(VpnOf(va), VpnOf(va));
    }
  }

  /** Pages mapped with some protection fault exactly if that is none at all; the kernel's slots are apart. */
  lemma ProtectionTranslates(ms: MemorySet, start: nat, end: nat, prot: nat)
    requires ms.Valid() && prot < 8 && IsCanonicalUserRange(start, end) && end <= ADDRESS_LIMIT
    requires forall va: nat :: InWindow(va, start, end) ==> ms.View(va) == Present(ProtFlags(prot), ZeroPage())
    ensures forall va: nat :: InWindow(va, start, end) ==> Reaches(ms, va, prot)
  {
    hide AddressSpace.Valid, MemorySet.Valid, ProtFlags, ViewOf;
    forall va: nat | InWindow(va, start, end) ensures Reaches(ms, va, prot) {
      ViewTranslates(ms, va);
      var read, write, exec := EveryProt(prot);
      ProtFlagsAre(read, write, exec);
    }
  }

  ghost predicate Reaches(ms: MemorySet, va: nat, prot: nat)
    reads ms, ms.space, ms.space.buddy.ram
  {
    && (prot != 0 ==>
          && !ms.space.Shared(VpnOf(va)) && PagePhys(ms.mappings, va).Some? && ms.View(va).Present?
          && ms.space.Translate(VpnOf(va)) ==
               Mapped(PagePhys(ms.mappings, va).value / PAGE_SIZE, ms.View(va).flags))
    && (prot == 0 && !ms.space.Shared(VpnOf(va)) ==> ms.space.Translate(VpnOf(va)) == Fault)
  }

  /** The mapping replaces whatever is at the fixed address. */
  predicate Replaces(fl: MmapFlags) { fl.fixed && !fl.noreplace }

  /** `mmap` has the memory for a mapping at `t`. */
  ghost predicate HasMemory(lists: Lists, tree: Space, rs: seq<Rng>, t: nat, size: nat, fl: MmapFlags, prot: nat) {
    if Replaces(fl) then
      Roomy(lists, tree, OrdersOf(Keeps(rs, t, t + size)), |OrdersFor(size)|, t, Delivered(size), prot != 0)
    else Placeable(lists, tree, OrdersFor(size), t, Delivered(size), prot != 0)
  }

  /** The address a fixed mapping asks for is admitted but taken. */
  predicate Taken(rs: seq<Rng>, addr: nat, size: nat, fl: MmapFlags) {
    && fl.noreplace && addr % PAGE_SIZE == 0 && addr + size < ADDRESS_LIMIT
    && IsCanonicalUserRange(addr, addr + size) && !FreeOf(rs, addr, addr + size)
  }

  /**
   `mmap`.  On success the pages delivered are zero with the requested protection and every other
   page is as before; only `MAP_FIXED` may have replaced anything.  It succeeds if there is a place and
   the memory for it, and without replacing anything only then.
   */
  method Mmap(ms: MemorySet, addr: nat, length: nat, prot: nat, fl: MmapFlags, fd: int, offset: nat,
      ghost kept: set<Block>)
    returns (r: Errno, target: nat)
    requires ms.Valid() && ms.Bystanders(kept) && addr < ADDRESS_LIMIT && length < ADDRESS_LIMIT
    requires CheckMmap(fl, fd, offset, prot, length) == OK ==>
              MmapReady(RangesOf(ms.mappings), addr, AlignUp(length), fl)
    modifies ms, ms.space, ms.space.buddy, ms.space.buddy.ram
    ensures ms.Valid() && ms.Bystanders(kept) && LiveKept(old(ms.space.buddy.ram.page), ms.space.buddy.ram.page, kept)
    ensures CheckMmap(fl, fd, offset, prot, length) != OK ==>
              r == CheckMmap(fl, fd, offset, prot, length) && ms.mappings == old(ms.mappings)
    ensures r == ENOSYS <==> !fl.anonymous
    ensures fl.anonymous && (fd != -1 || offset != 0 || prot >= 8 || length == 0 || length >= ADDRESS_LIMIT - 4097) ==>
              r == EINVAL
    ensures fl.anonymous && (fl.fixed || fl.noreplace) && addr % 4096 != 0 ==> r == EINVAL
    ensures r == OK ==>
              var size, rs := AlignUp(length), old(RangesOf(ms.mappings));
              && Chosen(rs, addr, size, fl.fixed || fl.noreplace, OK, target) && target % PAGE_SIZE == 0
              && (!fl.fixed || fl.noreplace ==> FreeOf(rs, target, target + size))
              && RangesOf(ms.mappings) == Beside(rs, target, size, fl) + [Rng(target, target + Delivered(size))]
              && forall va: nat :: ms.View(va) ==
                   if InWindow(va, target, target + Delivered(size)) then Present(ProtFlags(prot), ZeroPage())
                       else old(ms.View(va))
    ensures r == OK ==> forall read, write, exec :: prot == Prot(read, write, exec) ==>
              forall va: nat :: InWindow(va, target, target + Delivered(AlignUp(length))) ==>
                ms.View(va).Present? && Protects(ms.View(va).flags, read, write, exec)
    ensures r == OK ==> forall va: nat, i ::
              InWindow(va, target, target + Delivered(AlignUp(length))) && 0 <= i < 512 ==>
              ms.View(va).contents[i] == 0
    ensures r == OK ==>
              forall va: nat :: InWindow(va, target, target + Delivered(AlignUp(length))) ==> Reaches(ms, va, prot)
    ensures r != OK ==> forall va: nat :: !(fl.fixed && !fl.noreplace && addr <= va < addr + AlignUp(length)) ==>
              ms.View(va) == old(ms.View(va))
    ensures r != OK ==>
              || RangesOf(ms.mappings) == old(RangesOf(ms.mappings))
              || (&& fl.fixed && !fl.noreplace && CheckMmap(fl, fd, offset, prot, length) == OK
                  && RangesOf(ms.mappings) == AfterUnmap(old(RangesOf(ms.mappings)), addr, addr + AlignUp(length)))
    ensures r == EEXIST <==>
            CheckMmap(fl, fd, offset, prot, length) == OK
            && Taken(old(RangesOf(ms.mappings)), addr, AlignUp(length), fl)
    ensures r == EEXIST ==> ms.mappings == old(ms.mappings)
    ensures fl.anonymous && fd == -1 && offset == 0 && prot < 8 && 0 < length < ADDRESS_LIMIT - 4097 ==>
              var size, rs := AlignUp(length), old(RangesOf(ms.mappings));
              forall t ::
                && Chosen(rs, addr, size, fl.fixed || fl.noreplace, OK, t) && Admitted(rs, t, size, fl)
                && HasMemory(old(ms.space.buddy.state.lists), old(ms.space.Tree()), rs, t, size, fl, prot) ==>
                r == OK && target == t
    ensures r == OK ==>
              var size, rs := AlignUp(length), old(RangesOf(ms.mappings));
              && Admitted(rs, target, size, fl)
              && (!Replaces(fl) ==>
                   HasMemory(old(ms.space.buddy.state.lists), old(ms.space.Tree()), rs, target, size, fl, prot))
  {
    hide MemorySet.Valid, MemorySet.Bystanders, LiveKept, ViewOf, Delivered, AllExact, RangesOf, HighestFit,
        StackInPlace, ProtFlags, ZeroPage, AfterUnmap, AlignUp, TailClear, MmapReady, HasMemory, FreeOf, Extends,
        Protects, Prot, Spent, OrdersOf, Keeps, Reaches;
    ghost var page0, rs := ms.space.buddy.ram.page, RangesOf(ms.mappings);
    KeptSelf(page0, kept);
    r, target := CheckMmap(fl, fd, offset, prot, length), 0;
    if r != OK {
      return;
    }
    AlignUpLength(length);
    var size := AlignUp(length);
    r, target := ChooseTarget(ms, addr, size, fl.fixed || fl.noreplace);
    OneChoice(rs, addr, size, fl.fixed || fl.noreplace, r, target);
    if r != OK {
      return;
    }
    if target + size >= ADDRESS_LIMIT || !IsCanonicalUserRange(target, target + size) {
      return ENOMEM, target;
    }
    FreeRanges(ms.mappings, target, target + size);
    if fl.noreplace && !RangeIsFree(ms.mappings, target, target + size) {
      return EEXIST, target;
    }
    TargetFree(ms, addr, size, fl, target);
    r := PlaceAt(ms, target, size, fl, prot, kept);
    AllProt(prot);
    if r == OK {
      ProtectionTranslates(ms, target, target + Delivered(size), prot);
    }
  }

  /** Only one target is ever chosen. */
  lemma OneChoice(rs: seq<Rng>, addr: nat, length: nat, fixed: bool, r: Errno, target: nat)
    requires Chosen(rs, addr, length, fixed, r, target)
    ensures forall t :: Chosen(rs, addr, length, fixed, OK, t) ==> r == OK && t == target
  {
  }

  /** The last part of `mmap`: replace what is there, if asked to, and place zeroed frames. */
  method PlaceAt(ms: MemorySet, target: nat, size: nat, fl: MmapFlags, prot: nat, ghost kept: set<Block>)
      returns (r: Errno)
    requires ms.Valid() && ms.Bystanders(kept) && size > 0 && size % PAGE_SIZE == 0 && target % PAGE_SIZE == 0
    requires prot < 8
    requires Replaces(fl) ==> AllExact(Keeps(RangesOf(ms.mappings), target, target + size))
    requires FreeOf(Beside(RangesOf(ms.mappings), target, size, fl), target, target + Delivered(size))
    requires IsCanonicalUserRange(target, target + Delivered(size)) && target + Delivered(size) <= ADDRESS_LIMIT
    requires Delivered(size) >= size
    modifies ms, ms.space, ms.space.buddy, ms.space.buddy.ram
    ensures ms.Valid() && ms.Bystanders(kept) && LiveKept(old(ms.space.buddy.ram.page), ms.space.buddy.ram.page, kept)
    ensures r == OK || r == ENOMEM || r == EINVAL
    ensures r == OK ==>
              && RangesOf(ms.mappings) == Beside(old(RangesOf(ms.mappings)), target, size, fl)
                     + [Rng(target, target + Delivered(size))]
              && forall va: nat :: ms.View(va) ==
                   if InWindow(va, target, target + Delivered(size)) then Present(ProtFlags(prot), ZeroPage())
                       else old(ms.View(va))
    ensures r != OK ==> forall va: nat :: !(Replaces(fl) && target <= va < target + size) ==>
              ms.View(va) == old(ms.View(va))
    ensures r != OK ==>
              || RangesOf(ms.mappings) == old(RangesOf(ms.mappings))
              || (Replaces(fl)
                  && RangesOf(ms.mappings) == AfterUnmap(old(RangesOf(ms.mappings)), target, target + size))
    ensures HasMemory(old(ms.space.buddy.state.lists), old(ms.space.Tree()), old(RangesOf(ms.mappings)), target,
                size, fl, prot) ==>
              r == OK
    ensures r == OK && !Replaces(fl) ==>
              HasMemory(old(ms.space.buddy.state.lists), old(ms.space.Tree()), old(RangesOf(ms.mappings)), target,
                  size, fl, prot)
  {
    hide MemorySet.Valid, MemorySet.Bystanders, LiveKept, ViewOf, Delivered, AllExact, RangesOf, ProtFlags, ZeroPage,
        AfterUnmap, FreeOf, Extends, Roomy, Placeable, Spent, OrdersOf, Keeps, OrdersFor, Unshared;
    ghost var page0, lists0, tree0 := ms.space.buddy.ram.page, ms.space.buddy.state.lists, ms.space.Tree();
    ghost var rs := RangesOf(ms.mappings);
    KeptSelf(page0, kept);
    ghost var read, write, exec := EveryProt(prot);
    if Replaces(fl) {
      PageSum(target, size);
      OffPage(ms.mappings, ms.space.buddy.ram.page);
      r := ms.UnmapRange(target, target + size, kept);
      if r != OK {
        NotRoomy(lists0, tree0, OrdersOf(Keeps(rs, target, target + size)), ms.space.buddy.state.lists);
        return;
      }
      OrdersAre(size);
      if HasMemory(lists0, tree0, rs, target, size, fl, prot) {
        RoomyIsEnough(lists0, ms.space.buddy.state.lists, tree0, ms.space.Tree(),
            OrdersOf(Keeps(rs, target, target + size)), OrdersFor(size), target, Delivered(size), prot != 0);
      }
    }
    ghost var page1 := ms.space.buddy.ram.page;
    r := PlaceZeroed(ms, target, size, ProtFlags(prot), kept);
    LiveKeptTrans(page0, page1, ms.space.buddy.ram.page, kept);
  }

  lemma NotRoomy(lists: Lists, tree: Space, orders: seq<nat>, after: Lists)
    requires Spent(lists, orders, false, after)
    ensures forall blocks, target, size, rwx :: !Roomy(lists, tree, orders, blocks, target, size, rwx)
  {
  }

  /** The chosen range is free, or will be once it has been unmapped. */
  lemma TargetFree(ms: MemorySet, addr: nat, size: nat, fl: MmapFlags, target: nat)
    requires ms.Valid() && size > 0 && size % PAGE_SIZE == 0 && MmapReady(RangesOf(ms.mappings), addr, size, fl)
    requires Chosen(RangesOf(ms.mappings), addr, size, fl.fixed || fl.noreplace, OK, target)
    requires Admitted(RangesOf(ms.mappings), target, size, fl)
    ensures target % PAGE_SIZE == 0 && Delivered(size) >= size
    ensures fl.fixed && !fl.noreplace ==> AllExact(Keeps(RangesOf(ms.mappings), target, target + size))
    ensures !fl.fixed || fl.noreplace ==> FreeOf(RangesOf(ms.mappings), target, target + size)
    ensures FreeOf(Beside(RangesOf(ms.mappings), target, size, fl), target, target + Delivered(size))
    ensures IsCanonicalUserRange(target, target + Delivered(size)) && target + Delivered(size) <= ADDRESS_LIMIT
  {
    hide MemorySet.Valid, HighestFit, StackInPlace, Delivered, AllExact, AfterUnmap;
    var rs := RangesOf(ms.mappings);
    DisjointNow(ms);
    RangesNonEmpty(ms.mappings);
    AfterUnmapRanges(rs, target, target + size);
    WindowFree(rs, target, target + size);
    RangesPaged(ms.mappings);
    if !fl.fixed && !fl.noreplace {
      ChosenFree(rs, addr, size, target);
    }
    SegmentsTotal(size);
    BothFree(Beside(rs, target, size, fl), target, size);
  }

  lemma BothFree(rs: seq<Rng>, target: nat, size: nat)
    requires NonEmpty(rs) && size > 0 && FreeOf(rs, target, target + size) && TailClear(rs, 0, 0, target, size)
              && Delivered(size) >= size
    ensures FreeOf(rs, target, target + Delivered(size))
  {
    hide Delivered;
    FreeIffUncovered(rs, target, target + size);
    FreeIffUncovered(rs, target, target + Delivered(size));
  }

  /** An unmapped window is free. */
  lemma WindowFree(rs: seq<Rng>, start: nat, end: nat)
    requires Disjoint(rs) && NonEmpty(rs) && start < end
    ensures FreeOf(AfterUnmap(rs, start, end), start, end)
  {
    var after := AfterUnmap(rs, start, end);
    AfterUnmapRanges(rs, start, end);
    forall i | 0 <= i < |after| ensures !Meets(after[i], start, end) {
      var a := if after[i].lo < start then start else after[i].lo;
      if Meets(after[i], start, end) {
        assert Covers(after, a);
      }
    }
  }

  // ----- munmap -----

  /** `munmap`: exactly the pages from `addr` to `addr + length` are gone, or nothing has changed. */
  method Munmap(ms: MemorySet, addr: nat, length: nat, ghost kept: set<Block>) returns (r: Errno)
    requires ms.Valid() && ms.Bystanders(kept)
    requires length > 0 ==> AllExact(Keeps(RangesOf(ms.mappings), addr, addr + length))
    modifies ms, ms.space, ms.space.buddy, ms.space.buddy.ram
    ensures ms.Valid() && ms.Bystanders(kept) && LiveKept(old(ms.space.buddy.ram.page), ms.space.buddy.ram.page, kept)
    ensures r == EINVAL <==> addr % PAGE_SIZE != 0 || length == 0 || addr + length >= ADDRESS_LIMIT
    ensures r == OK || r == ENOMEM || r == EINVAL
    ensures forall va: nat :: ms.View(va) == if r == OK && addr <= va < addr + length then Absent else old(ms.View(va))
    ensures RangesOf(ms.mappings) == if r == OK then AfterUnmap(old(RangesOf(ms.mappings)), addr, addr + length)
              else old(RangesOf(ms.mappings))
    ensures r == ENOMEM <==>
            r != EINVAL && Supply(old(ms.space.buddy.state.lists),
                OrdersOf(Keeps(old(RangesOf(ms.mappings)), addr, addr + length))).None?
    ensures r != EINVAL && Keeps(old(RangesOf(ms.mappings)), addr, addr + length) == [] ==> r == OK
  {
    hide MemorySet.Valid, MemorySet.Bystanders, LiveKept, ViewOf, AllExact, RangesOf, AfterUnmap, Supply, OrdersOf,
        Keeps, TopFree;
    KeptSelf(ms.space.buddy.ram.page, kept);
    if addr % PAGE_SIZE != 0 || length == 0 || addr + length >= ADDRESS_LIMIT {
      return EINVAL;
    }
    r := ms.UnmapRange(addr, addr + length, kept);
  }

  // ----- mremap -----

  /** The flags of the mapping that has page `va`. */
  function FirstFlags(ms: seq<UserMapping>, va: nat): Option<Flags> {
    var i := Find(ms, va);
    if i == |ms| then None else Some(ms[i].flags)
  }

  lemma FirstFlagsView(ms: seq<UserMapping>, page: map<nat, Page>, va: nat)
    ensures FirstFlags(ms, va) == if ViewOf(ms, page, va).Present? then Some(ViewOf(ms, page, va).flags) else None
  {
  }

  /** The ranges once the destination has been vacated, if it is to be replaced. */
  function Vacated(rs: seq<Rng>, dest: nat, newSize: nat, replace: bool): seq<Rng> {
    if replace then AfterUnmap(rs, dest, dest + newSize) else rs
  }

  /** Every part that a move has to keep has an exact size. */
  predicate MoveExact(rs: seq<Rng>, oldStart: nat, oldEnd: nat, dest: nat, newSize: nat, replace: bool) {
    && (replace ==> AllExact(Keeps(rs, dest, dest + newSize)))
    && AllExact(Keeps(Vacated(rs, dest, newSize, replace), oldStart, oldEnd))
  }

  /** What a move leaves of the ranges: all of it done, or as far as it came. */
  ghost predicate MoveRanges(rs: seq<Rng>, rs': seq<Rng>, oldStart: nat, oldEnd: nat, dest: nat, newSize: nat,
      replace: bool, done: bool) {
    var mid := Vacated(rs, dest, newSize, replace);
    if done then rs' == AfterUnmap(mid, oldStart, oldEnd) + [Rng(dest, dest + Delivered(newSize))]
    else rs' == rs || rs' == mid || rs' == AfterUnmap(mid, oldStart, oldEnd)
  }

  /** What a caller has to know before a range is moved: kept parts are exact, and what rounding adds is clear. */
  ghost predicate MoveReady(rs: seq<Rng>, oldStart: nat, oldEnd: nat, dest: nat, newSize: nat, replace: bool) {
    && MoveExact(rs, oldStart, oldEnd, dest, newSize, replace)
    && (dest + newSize < ADDRESS_LIMIT && IsCanonicalUserRange(dest, dest + newSize) ==>
          TailClear(Vacated(rs, dest, newSize, replace), oldStart, oldEnd, dest, newSize))
  }

  /** The old range has become [at, at + newSize), with the protection of its first page. */
  twostate predicate HasMoved(ms: MemorySet, oldStart: nat, oldEnd: nat, at: nat, newSize: nat)
    reads ms, ms.space.buddy.ram
  {
    && oldStart < oldEnd && AllPresent(old(ms.mappings), oldStart, Min(oldEnd - oldStart, newSize))
    && old(ms.View(oldStart)).Present?
    && forall va: nat :: ms.View(va) ==
        Moved(old(ms.mappings), old(ms.space.buddy.ram.page), oldStart, oldEnd, at, newSize,
            old(ms.View(oldStart)).flags, va)
  }

  /** The destination passes the checks of `move_to`. */
  predicate MoveFits(rs: seq<Rng>, oldStart: nat, oldEnd: nat, dest: nat, newSize: nat, replace: bool) {
    && dest + newSize < ADDRESS_LIMIT && IsCanonicalUserRange(dest, dest + newSize)
    && (dest + newSize <= oldStart || oldEnd <= dest) && (replace || FreeOf(rs, dest, dest + newSize))
  }

  /** How `move_to` ends when all pages are there. */
  ghost predicate MoveOutcome(r: Errno, rs: seq<Rng>, lists: Lists, tree: Space, oldStart: nat, oldEnd: nat, dest: nat,
      newSize: nat, replace: bool, rwx: bool) {
    if !MoveFits(rs, oldStart, oldEnd, dest, newSize, replace) then r == ENOMEM
    else if replace then
      Roomy(lists, tree, OrdersOf(Keeps(rs, dest, dest + newSize)),
        |MoveOrders(Vacated(rs, dest, newSize, true), oldStart, oldEnd, newSize)|, dest, Delivered(newSize), rwx) ==>
      r == OK
    else Outcome(r, lists, tree, MoveOrders(rs, oldStart, oldEnd, newSize), dest, Delivered(newSize), rwx)
  }

  /** The pages can be accessed at all, going by the first one. */
  ghost predicate FirstRwx(ms: seq<UserMapping>, page: map<nat, Page>, va: nat) {
    ViewOf(ms, page, va).Present? && Rwx(ViewOf(ms, page, va).flags)
  }

  lemma TargetIsGood(rs: seq<Rng>, oldStart: nat, oldEnd: nat, dest: nat, newSize: nat)
    requires FreeOf(rs, dest, dest + newSize) && newSize > 0 && dest % PAGE_SIZE == 0 && newSize % PAGE_SIZE == 0
    requires IsCanonicalUserRange(dest, dest + newSize) && dest + newSize <= ADDRESS_LIMIT
    ensures GoodTarget(rs, oldStart, oldEnd, dest, newSize)
  {
  }

  /** Moving after the destination has been unmapped is moving from the original. */
  lemma MovedEarlier(ms0: seq<UserMapping>, page0: map<nat, Page>, ms1: seq<UserMapping>, page1: map<nat, Page>,
      oldStart: nat, oldEnd: nat, dest: nat, newSize: nat, flags: Flags)
    requires oldStart < oldEnd && !(dest < oldEnd && oldStart < dest + newSize)
    requires forall va: nat :: ViewOf(ms1, page1, va) == if dest <= va < dest + newSize then Absent
              else ViewOf(ms0, page0, va)
    ensures forall va: nat :: Moved(ms1, page1, oldStart, oldEnd, dest, newSize, flags, va) == Moved(ms0, page0,
              oldStart, oldEnd, dest, newSize, flags, va)
  {
    OffPage(ms0, page0);
    SegmentsTotal(newSize);
    hide ViewOf, Delivered;
  }

  /** `move_to`: `replace` first unmaps the destination; otherwise it has to be free. */
  method MoveTo(ms: MemorySet, oldStart: nat, oldEnd: nat, dest: nat, newSize: nat, replace: bool,
      ghost kept: set<Block>) returns (r: Errno)
    requires ms.Valid() && ms.Bystanders(kept) && IsRange(oldStart, oldEnd)
    requires dest % PAGE_SIZE == 0 && newSize > 0 && newSize % PAGE_SIZE == 0
    requires MoveReady(RangesOf(ms.mappings), oldStart, oldEnd, dest, newSize, replace)
    modifies ms, ms.space, ms.space.buddy, ms.space.buddy.ram
    ensures ms.Valid() && ms.Bystanders(kept) && LiveKept(old(ms.space.buddy.ram.page), ms.space.buddy.ram.page, kept)
    ensures r == OK ==> HasMoved(ms, oldStart, oldEnd, dest, newSize)
    ensures MoveRanges(old(RangesOf(ms.mappings)), RangesOf(ms.mappings), oldStart, oldEnd, dest, newSize, replace,
              r == OK)
    ensures r == OK ==>
              IsCanonicalUserRange(dest, dest + Delivered(newSize)) && (dest + newSize <= oldStart || oldEnd <= dest)
    ensures r == OK && !replace ==> FreeOf(old(RangesOf(ms.mappings)), dest, dest + newSize)
    ensures r != OK ==> forall va: nat :: !(oldStart <= va < oldEnd) && !(replace && dest <= va < dest + newSize) ==>
              ms.View(va) == old(ms.View(va))
    ensures AllPresent(old(ms.mappings), oldStart, Min(oldEnd - oldStart, newSize)) ==>
              MoveOutcome(r, old(RangesOf(ms.mappings)), old(ms.space.buddy.state.lists), old(ms.space.Tree()),
                  oldStart,
                  oldEnd, dest, newSize, replace, FirstRwx(old(ms.mappings), old(ms.space.buddy.ram.page), oldStart))
  {
    hide MemorySet.Valid, MemorySet.Bystanders, LiveKept, ViewOf, Delivered, AllExact, RangesOf, AfterUnmap, FirstFlags,
        GoodTarget, Moved, AllPresent, TailClear, Outcome, Roomy, MoveOrders, OrdersOf, Keeps, Spent, Extends, FreeOf,
        Supply;
    ghost var page0, ms0 := ms.space.buddy.ram.page, ms.mappings;
    ghost var lists0, tree0, rs := ms.space.buddy.state.lists, ms.space.Tree(), RangesOf(ms.mappings);
    KeptSelf(page0, kept);
    if dest + newSize >= ADDRESS_LIMIT || !IsCanonicalUserRange(dest, dest + newSize) {
      return ENOMEM;
    }
    if dest < oldEnd && oldStart < dest + newSize {
      return ENOMEM;
    }
    if replace {
      r := Vacate(ms, dest, newSize, kept);
      if r != OK {
        NotRoomy(lists0, tree0, OrdersOf(Keeps(rs, dest, dest + newSize)), ms.space.buddy.state.lists);
        return;
      }
    } else {
      FreeRanges(ms.mappings, dest, dest + newSize);
      if !RangeIsFree(ms.mappings, dest, dest + newSize) {
        return ENOMEM;
      }
    }
    ghost var page1, ms1 := ms.space.buddy.ram.page, ms.mappings;
    forall va: nat ensures ViewOf(ms1, page1, va) == if replace && dest <= va < dest + newSize then Absent
        else ViewOf(ms0, page0, va) {
      assert ms.View(va) == ViewOf(ms1, page1, va);
    }
    ghost var lists1, tree1 := ms.space.buddy.state.lists, ms.space.Tree();
    assert AllPresent(ms0, oldStart, Min(oldEnd - oldStart, newSize)) ==>
        AllPresent(ms1, oldStart, Min(oldEnd - oldStart, newSize)) && ViewOf(ms1, page1, oldStart).Present? by {
      StillPresent(ms0, page0, ms1, page1, oldStart, Min(oldEnd - oldStart, newSize));
    }
    var flags := FirstFlags(ms.mappings, oldStart);
    FirstFlagsView(ms.mappings, page1, oldStart);
    if flags.None? {
      return EFAULT;
    }
    TargetIsGood(RangesOf(ms.mappings), oldStart, oldEnd, dest, newSize);
    ClearTarget(RangesOf(ms.mappings), oldStart, oldEnd, dest, newSize);
    GoodTargetFacts(RangesOf(ms.mappings), oldStart, oldEnd, dest, Delivered(newSize));
    r := Rebuild(ms, oldStart, oldEnd, dest, newSize, flags.value, kept);
    if replace && AllPresent(ms0, oldStart, Min(oldEnd - oldStart, newSize)) {
      AfterVacating(r, lists0, lists1, tree0, tree1, rs, oldStart, oldEnd, dest, newSize, Rwx(flags.value));
    }
    LiveKeptTrans(page0, page1, ms.space.buddy.ram.page, kept);
    if r == OK && replace {
      MovedEarlier(ms0, page0, ms1, page1, oldStart, oldEnd, dest, newSize, flags.value);
      PresentEarlier(ms0, page0, ms1, page1, oldStart, oldEnd, dest, newSize);
    }
  }

  lemma AfterVacating(r: Errno, lists0: Lists, lists1: Lists, tree0: Space, tree1: Space, rs: seq<Rng>, oldStart: nat,
      oldEnd: nat, dest: nat, newSize: nat, rwx: bool)
    requires Spent(lists0, OrdersOf(Keeps(rs, dest, dest + newSize)), true, lists1) && Extends(tree0, tree1)
    requires Outcome(r, lists1, tree1, MoveOrders(Vacated(rs, dest, newSize, true), oldStart, oldEnd, newSize), dest,
               Delivered(newSize), rwx)
    ensures Roomy(lists0, tree0, OrdersOf(Keeps(rs, dest, dest + newSize)),
                |MoveOrders(Vacated(rs, dest, newSize, true), oldStart, oldEnd, newSize)|, dest, Delivered(newSize),
                rwx) ==>
              r == OK
  {
    hide Spent, Extends, Roomy, OrdersOf, Keeps, OrdersFor, Vacated, Delivered;
    var orders := OrdersOf(Keeps(rs, dest, dest + newSize));
    var mid := Vacated(rs, dest, newSize, true);
    var more := MoveOrders(mid, oldStart, oldEnd, newSize);
    OrdersAre(newSize);
    OrdersSmall(Keeps(mid, oldStart, oldEnd));
    if Roomy(lists0, tree0, orders, |more|, dest, Delivered(newSize), rwx) {
      RoomyIsEnough(lists0, lists1, tree0, tree1, orders, more, dest, Delivered(newSize), rwx);
    }
  }

  lemma {:induction false} OrdersSmall(rs: seq<Rng>)
    ensures forall i :: 0 <= i < |OrdersOf(rs)| ==> OrdersOf(rs)[i] < MAX_ORDER
  {
    if rs != [] {
      OrdersAre(if rs[0].lo < rs[0].hi then rs[0].hi - rs[0].lo else 0);
      OrdersSmall(rs[1..]);
    }
  }

  lemma FewerPresent(ms: seq<UserMapping>, page: map<nat, Page>, start: nat, size: nat, less: nat)
    requires AllPresent(ms, start, size) && 0 < less <= size
    ensures AllPresent(ms, start, less) && ViewOf(ms, page, start).Present?
  {
    PresentAt(ms, start, size, 0);
  }

  /** Pages outside an unmapped destination are still present. */
  lemma StillPresent(ms0: seq<UserMapping>, page0: map<nat, Page>, ms1: seq<UserMapping>, page1: map<nat, Page>,
      start: nat, size: nat)
    requires size > 0
    requires forall va: nat :: start <= va < start + size ==> ViewOf(ms1, page1, va) == ViewOf(ms0, page0, va)
    ensures AllPresent(ms0, start, size) ==> AllPresent(ms1, start, size) && ViewOf(ms1, page1, start).Present?
  {
    if AllPresent(ms0, start, size) {
      forall off | 0 <= off < size && off % PAGE_SIZE == 0 ensures Find(ms1, start + off) < |ms1| {
        assert ViewOf(ms0, page0, start + off).Present?;
      }
      PresentAt(ms0, start, size, 0);
    }
  }

  /** Pages present after the destination was unmapped were present before. */
  lemma PresentEarlier(ms0: seq<UserMapping>, page0: map<nat, Page>, ms1: seq<UserMapping>, page1: map<nat, Page>,
      oldStart: nat, oldEnd: nat, dest: nat, newSize: nat)
    requires oldStart < oldEnd && AllPresent(ms1, oldStart, Min(oldEnd - oldStart, newSize))
    requires forall va: nat :: ViewOf(ms1, page1, va) == if dest <= va < dest + newSize then Absent
              else ViewOf(ms0, page0, va)
    ensures AllPresent(ms0, oldStart, Min(oldEnd - oldStart, newSize))
  {
    forall off | 0 <= off < Min(oldEnd - oldStart, newSize) && off % PAGE_SIZE == 0
        ensures Find(ms0, oldStart + off) < |ms0| {
      assert ViewOf(ms1, page1, oldStart + off).Present?;
    }
  }

  /** Unmap a destination; afterwards it is free. */
  method Vacate(ms: MemorySet, dest: nat, newSize: nat, ghost kept: set<Block>) returns (r: Errno)
    requires ms.Valid() && ms.Bystanders(kept) && dest % PAGE_SIZE == 0 && newSize > 0 && newSize % PAGE_SIZE == 0
    requires AllExact(Keeps(RangesOf(ms.mappings), dest, dest + newSize))
    modifies ms, ms.space, ms.space.buddy, ms.space.buddy.ram
    ensures ms.Valid() && ms.Bystanders(kept) && LiveKept(old(ms.space.buddy.ram.page), ms.space.buddy.ram.page, kept)
    ensures r == OK || r == ENOMEM
    ensures forall va: nat :: ms.View(va) == if r == OK && dest <= va < dest + newSize then Absent else old(ms.View(va))
    ensures RangesOf(ms.mappings) == Vacated(old(RangesOf(ms.mappings)), dest, newSize, r == OK)
    ensures r == OK ==> FreeOf(RangesOf(ms.mappings), dest, dest + newSize)
    ensures Spent(old(ms.space.buddy.state.lists), OrdersOf(Keeps(old(RangesOf(ms.mappings)), dest, dest + newSize)),
              r == OK, ms.space.buddy.state.lists)
    ensures Extends(old(ms.space.Tree()), ms.space.Tree())
  {
    hide MemorySet.Valid, MemorySet.Bystanders, LiveKept, ViewOf, AllExact, RangesOf, AfterUnmap, Spent, OrdersOf,
        Keeps, Extends;
    DisjointNow(ms);
    RangesNonEmpty(ms.mappings);
    WindowFree(RangesOf(ms.mappings), dest, dest + newSize);
    PageSum(dest, newSize);
    r := ms.UnmapRange(dest, dest + newSize, kept);
  }

  /** The range shrinks, or grows without moving. */
  predicate InPlace(rs: seq<Rng>, oldStart: nat, oldEnd: nat, newSize: nat)
    requires oldStart < oldEnd
  {
    newSize < oldEnd - oldStart || (newSize > oldEnd - oldStart && CanGrow(rs, oldStart, oldEnd, newSize))
  }

  /** Where `mremap` puts the range. */
  ghost predicate Lands(rs: seq<Rng>, oldStart: nat, oldEnd: nat, newSize: nat, fixed: bool, newAddr: nat, at: nat)
    requires oldStart < oldEnd
  {
    if InPlace(rs, oldStart, oldEnd, newSize) then at == oldStart
    else if fixed then at == newAddr
    else HighestFit(BelowStack(rs), newSize, Some(at)) && FreeOf(rs, at, at + newSize)
  }

  /** What `mremap` leaves of the ranges. */
  ghost predicate RemapRanges(rs: seq<Rng>, rs': seq<Rng>, oldStart: nat, oldEnd: nat, newSize: nat, fixed: bool,
      newAddr: nat, at: nat, done: bool)
    requires oldStart < oldEnd
  {
    if newSize == oldEnd - oldStart && !(fixed && newAddr != oldStart) then rs' == rs
    else
      var replace := fixed && !InPlace(rs, oldStart, oldEnd, newSize);
      (replace && !done ==> rs' == rs || at == newAddr)
      && MoveRanges(rs, rs', oldStart, oldEnd, at, newSize, replace, done)
  }

  /** The addresses right behind the old range are free and canonical. */
  predicate CanGrow(rs: seq<Rng>, oldStart: nat, oldEnd: nat, newSize: nat) {
    && oldStart + newSize < ADDRESS_LIMIT && FreeOf(rs, oldEnd, oldStart + newSize)
    && IsCanonicalUserRange(oldStart, oldStart + newSize)
  }

  /** The checks that come before the mapping table is looked at. */
  predicate BadRemap(oldStart: nat, oldSize: nat, newSize: nat, fixed: bool, newAddr: nat) {
    || oldStart % PAGE_SIZE != 0 || oldSize == 0 || newSize == 0 || oldSize % PAGE_SIZE != 0 || newSize % PAGE_SIZE != 0
    || newSize >= ADDRESS_LIMIT - 1 - PAGE_SIZE || oldStart + oldSize >= ADDRESS_LIMIT
         || (fixed && newAddr % PAGE_SIZE != 0)
  }

  /** What a caller has to know before `mremap`, beyond the checks `mremap` makes itself. */
  ghost predicate RemapReady(rs: seq<Rng>, oldStart: nat, oldEnd: nat, newSize: nat, fixed: bool, maymove: bool,
      newAddr: nat)
    requires oldStart < oldEnd
  {
    if newSize == oldEnd - oldStart then
      fixed && newAddr != oldStart ==> MoveReady(rs, oldStart, oldEnd, newAddr, newSize, true)
    else if InPlace(rs, oldStart, oldEnd, newSize) then
      AllExact(Keeps(rs, oldStart, oldEnd)) && TailClear(rs, oldStart, oldEnd, oldStart, newSize)
    else if fixed then MoveReady(rs, oldStart, oldEnd, newAddr, newSize, true)
    else maymove ==> forall at: nat :: HighestFit(BelowStack(rs), newSize, Some(at)) ==>
        MoveReady(rs, oldStart, oldEnd, at, newSize, false)
  }

  /** A page range that is mapped throughout is canonical. */
  lemma PresentCanonical(ms: seq<UserMapping>, start: nat, size: nat)
    requires AllSound(ms) && AllPresent(ms, start, size) && start % PAGE_SIZE == 0 && size % PAGE_SIZE == 0 && size > 0
    ensures IsCanonicalUserRange(start, start + size)
  {
    hide AllSound, Find;
    PresentAt(ms, start, size, 0);
    MappedIsPage(ms, start);
    if start < LOW_HALF_END < start + size {
      PageDiff(LOW_HALF_END, start);
      PresentAt(ms, start, size, LOW_HALF_END - start);
      MappedIsPage(ms, LOW_HALF_END);
    }
  }

  lemma PresentAt(ms: seq<UserMapping>, va: nat, size: nat, off: nat)
    requires AllPresent(ms, va, size) && off < size && off % PAGE_SIZE == 0
    ensures Find(ms, va + off) < |ms|
  {
  }

  lemma MappedIsPage(ms: seq<UserMapping>, va: nat)
    requires AllSound(ms) && Find(ms, va) < |ms|
    ensures PageVa(va)
  {
    SoundSize(ms[Find(ms, va)]);
  }

  /** Shrinking and growing in place: only old addresses are mapped where the range will be. */
  lemma InPlaceIsGood(ms: seq<UserMapping>, oldStart: nat, oldEnd: nat, newSize: nat)
    requires AllSound(ms) && IsRange(oldStart, oldEnd) && newSize > 0 && newSize % PAGE_SIZE == 0
              && oldEnd < ADDRESS_LIMIT
    requires AllPresent(ms, oldStart, oldEnd - oldStart)
    requires newSize < oldEnd - oldStart
              || (oldEnd - oldStart < newSize && CanGrow(RangesOf(ms), oldStart, oldEnd, newSize))
    ensures GoodTarget(RangesOf(ms), oldStart, oldEnd, oldStart, newSize)
  {
    hide AllSound;
    PageDiff(oldEnd, oldStart);
    PresentCanonical(ms, oldStart, oldEnd - oldStart);
  }

  /** Every page of the range belongs to a mapping that can be accessed. */
  ghost predicate Accessible(ms: seq<UserMapping>, start: nat, size: nat) {
    forall va: nat :: InWindow(va, start, start + size) ==> Find(ms, va) < |ms| && Rwx(ms[Find(ms, va)].flags)
  }

  /** The tables for pages that can be accessed are there. */
  lemma AccessiblePrepared(ms: MemorySet, start: nat, size: nat)
    requires ms.Valid() && Accessible(ms.mappings, start, size)
    ensures Prepared(ms.space.Tree(), start, size)
  {
    forall va: nat | PageVa(va) && start <= va < start + size ensures HasLeafTable(ms.space.Tree(), VpnOf(va)) {
      assert InWindow(va, start, start + size);
      assert Linked(ms.space.Tree(), ms.space.kernel, ms.mappings[Find(ms.mappings, va)], va);
    }
  }

  /** Shrink or grow without moving. */
  method ResizeInPlace(ms: MemorySet, oldStart: nat, oldEnd: nat, newSize: nat, ghost kept: set<Block>)
      returns (r: Errno)
    requires ms.Valid() && ms.Bystanders(kept) && IsRange(oldStart, oldEnd) && newSize > 0 && newSize % PAGE_SIZE == 0
              && oldEnd < ADDRESS_LIMIT
    requires AllPresent(ms.mappings, oldStart, oldEnd - oldStart)
    requires newSize < oldEnd - oldStart
              || (oldEnd - oldStart < newSize && CanGrow(RangesOf(ms.mappings), oldStart, oldEnd, newSize))
    requires AllExact(Keeps(RangesOf(ms.mappings), oldStart, oldEnd))
              && TailClear(RangesOf(ms.mappings), oldStart, oldEnd, oldStart, newSize)
    modifies ms, ms.space, ms.space.buddy, ms.space.buddy.ram
    ensures ms.Valid() && ms.Bystanders(kept) && LiveKept(old(ms.space.buddy.ram.page), ms.space.buddy.ram.page, kept)
    ensures r == OK ==> HasMoved(ms, oldStart, oldEnd, oldStart, newSize)
    ensures MoveRanges(old(RangesOf(ms.mappings)), RangesOf(ms.mappings), oldStart, oldEnd, oldStart, newSize, false,
              r == OK)
    ensures r != OK ==> forall va: nat :: !(oldStart <= va < oldEnd) ==> ms.View(va) == old(ms.View(va))
    ensures r != OK && old(Accessible(ms.mappings, oldStart, Delivered(newSize))) ==>
              forall va: nat :: ms.View(va) == old(ms.View(va))
    ensures Outcome(r, old(ms.space.buddy.state.lists), old(ms.space.Tree()),
              MoveOrders(old(RangesOf(ms.mappings)), oldStart, oldEnd, newSize), oldStart, Delivered(newSize),
              FirstRwx(old(ms.mappings), old(ms.space.buddy.ram.page), oldStart))
  {
    hide MemorySet.Valid, MemorySet.Bystanders, LiveKept, ViewOf, Delivered, AllExact, RangesOf, AfterUnmap, FirstFlags,
        GoodTarget, Moved, AllPresent, Prepared, Accessible, TailClear, Outcome, MoveOrders;
    assert AllPresent(ms.mappings, oldStart, Min(oldEnd - oldStart, newSize))
        && ViewOf(ms.mappings, ms.space.buddy.ram.page, oldStart).Present? by {
      FewerPresent(ms.mappings, ms.space.buddy.ram.page, oldStart, oldEnd - oldStart,
          Min(oldEnd - oldStart, newSize));
    }
    if Accessible(ms.mappings, oldStart, Delivered(newSize)) {
      AccessiblePrepared(ms, oldStart, Delivered(newSize));
    }
    ms.BystandersSound(kept);
    InPlaceIsGood(ms.mappings, oldStart, oldEnd, newSize);
    KeptSelf(ms.space.buddy.ram.page, kept);
    FirstFlagsView(ms.mappings, ms.space.buddy.ram.page, oldStart);
    var flags := FirstFlags(ms.mappings, oldStart);
    if flags.None? {
      return EFAULT;
    }
    r := Rebuild(ms, oldStart, oldEnd, oldStart, newSize, flags.value, kept);
  }

  /** `range_fully_mapped`, the loop over the pages. */
  method FullyMapped(ms: seq<UserMapping>, start: nat, end: nat) returns (b: bool)
    requires IsRange(start, end)
    ensures b <==> AllPresent(ms, start, end - start)
  {
    var off: nat := 0;
    PageDiff(end, start);
    while off < end - start
      invariant off % PAGE_SIZE == 0 && off <= end - start && AllPresent(ms, start, off)
    {
      if PagePhys(ms, start + off).None? {
        return false;
      }
      NextPage(off, end - start);
      PresentStep(ms, start, off);
      off := off + PAGE_SIZE;
    }
    return true;
  }

  lemma PresentStep(ms: seq<UserMapping>, va: nat, done: nat)
    requires AllPresent(ms, va, done) && done % PAGE_SIZE == 0 && Find(ms, va + done) < |ms|
    ensures AllPresent(ms, va, done + PAGE_SIZE)
  {
    forall off | 0 <= off < done + PAGE_SIZE && off % PAGE_SIZE == 0 ensures Find(ms, va + off) < |ms| {
      if off > done {
        PageGap(done, off);
      }
    }
  }

  /** How `mremap` ends when the arguments are good and all pages are there. */
  ghost predicate RemapOutcome(r: Errno, at: nat, rs: seq<Rng>, lists: Lists, tree: Space, oldStart: nat, oldEnd: nat,
      newSize: nat, fixed: bool, maymove: bool, newAddr: nat, rwx: bool)
    requires oldStart < oldEnd
  {
    if newSize == oldEnd - oldStart then
      if fixed && newAddr != oldStart then
        MoveOutcome(r, rs, lists, tree, oldStart, oldEnd, newAddr, newSize, true, rwx)
      else r == OK && at == oldStart
    else if InPlace(rs, oldStart, oldEnd, newSize) then
      Outcome(r, lists, tree, MoveOrders(rs, oldStart, oldEnd, newSize), oldStart, Delivered(newSize), rwx)
    else if fixed then MoveOutcome(r, rs, lists, tree, oldStart, oldEnd, newAddr, newSize, true, rwx)
    else if maymove then AnywhereOutcome(r, at, rs, lists, tree, oldStart, oldEnd, newSize, rwx)
    else r == ENOMEM
  }

  /**
   `mremap`.  On success the range has moved or been resized in place, with its contents, and no
   other page has changed.  A range that can be accessed survives a shrink that fails.
   */
  method Mremap(ms: MemorySet, oldStart: nat, oldSize: nat, newSize: nat, fixed: bool, maymove: bool, newAddr: nat,
      ghost kept: set<Block>)
    returns (r: Errno, at: nat)
    requires ms.Valid() && ms.Bystanders(kept)
    requires !BadRemap(oldStart, oldSize, newSize, fixed, newAddr)
              && (newSize == oldSize || AllPresent(ms.mappings, oldStart, oldSize)) ==>
               RemapReady(RangesOf(ms.mappings), oldStart, oldStart + oldSize, newSize, fixed, maymove, newAddr)
    modifies ms, ms.space, ms.space.buddy, ms.space.buddy.ram
    ensures ms.Valid() && ms.Bystanders(kept) && LiveKept(old(ms.space.buddy.ram.page), ms.space.buddy.ram.page, kept)
    ensures BadRemap(oldStart, oldSize, newSize, fixed, newAddr) ==> r == EINVAL && ms.mappings == old(ms.mappings)
    ensures !BadRemap(oldStart, oldSize, newSize, fixed, newAddr) ==>
              RemapRanges(old(RangesOf(ms.mappings)), RangesOf(ms.mappings), oldStart, oldStart + oldSize, newSize,
                  fixed, newAddr, at, r == OK)
    ensures r == OK && newSize == oldSize && !(fixed && newAddr != oldStart) ==>
              at == oldStart && forall va: nat :: ms.View(va) == old(ms.View(va))
    ensures r == OK && !(newSize == oldSize && !(fixed && newAddr != oldStart)) ==>
              && oldSize > 0 && HasMoved(ms, oldStart, oldStart + oldSize, at, newSize)
              && Lands(old(RangesOf(ms.mappings)), oldStart, oldStart + oldSize, newSize, fixed, newAddr, at)
    ensures r != OK ==> forall va: nat ::
              !(oldStart <= va < oldStart + oldSize) && !(fixed && newAddr <= va < newAddr + newSize) ==>
              ms.View(va) == old(ms.View(va))
    ensures !BadRemap(oldStart, oldSize, newSize, fixed, newAddr) && newSize != oldSize
              && !AllPresent(old(ms.mappings), oldStart, oldSize) ==>
              r == EFAULT && ms.mappings == old(ms.mappings)
    ensures r != OK && newSize < oldSize && old(Accessible(ms.mappings, oldStart, Delivered(newSize))) ==>
              forall va: nat :: ms.View(va) == old(ms.View(va))
    ensures oldStart % 4096 != 0 || oldSize == 0 || oldSize % 4096 != 0 || newSize == 0 || newSize % 4096 != 0
            || newSize >= ADDRESS_LIMIT - 4097 || oldStart + oldSize >= ADDRESS_LIMIT
            || (fixed && newAddr % 4096 != 0) ==>
              r == EINVAL
    ensures oldStart % 4096 == 0 && 0 < oldSize && oldSize % 4096 == 0 && 0 < newSize && newSize % 4096 == 0
            && newSize < ADDRESS_LIMIT - 4097 && oldStart + oldSize < ADDRESS_LIMIT && (fixed ==> newAddr % 4096 == 0)
            && AllPresent(old(ms.mappings), oldStart, oldSize) ==>
              RemapOutcome(r, at, old(RangesOf(ms.mappings)), old(ms.space.buddy.state.lists), old(ms.space.Tree()),
                  oldStart, oldStart + oldSize, newSize, fixed, maymove, newAddr,
                  FirstRwx(old(ms.mappings), old(ms.space.buddy.ram.page), oldStart))
    ensures !BadRemap(oldStart, oldSize, newSize, fixed, newAddr) && newSize == oldSize
              && !(fixed && newAddr != oldStart) ==>
              r == OK
  {
    hide MemorySet.Valid, MemorySet.Bystanders, LiveKept, ViewOf, Delivered, AllExact, RangesOf, AfterUnmap, AllPresent,
        HighestFit, Moved, Accessible, TailClear, MoveReady, MoveOutcome, Outcome, AnywhereOutcome, FirstRwx;
    assert !BadRemap(oldStart, oldSize, newSize, fixed, newAddr) && AllPresent(ms.mappings, oldStart, oldSize) ==>
        AllPresent(ms.mappings, oldStart, Min(oldSize, newSize)) by {
      if oldSize > 0 && newSize > 0 && AllPresent(ms.mappings, oldStart, oldSize) {
        FewerPresent(ms.mappings, ms.space.buddy.ram.page, oldStart, oldSize, Min(oldSize, newSize));
      }
    }
    KeptSelf(ms.space.buddy.ram.page, kept);
    at := oldStart;
    if BadRemap(oldStart, oldSize, newSize, fixed, newAddr) {
      return EINVAL, at;
    }
    var oldEnd := oldStart + oldSize;
    PageSum(oldStart, oldSize);
    if newSize == oldSize {
      if fixed && newAddr != oldStart {
        r := MoveTo(ms, oldStart, oldEnd, newAddr, oldSize, true, kept);
        return r, newAddr;
      }
      return OK, oldStart;
    }
    var mapped := FullyMapped(ms.mappings, oldStart, oldEnd);
    if !mapped {
      return EFAULT, at;
    }
    FreeRanges(ms.mappings, oldEnd, oldStart + newSize);
    var growInPlace := oldStart + newSize < ADDRESS_LIMIT && RangeIsFree(ms.mappings, oldEnd, oldStart + newSize)
      && IsCanonicalUserRange(oldStart, oldStart + newSize);
    if newSize < oldSize || growInPlace {
      r := ResizeInPlace(ms, oldStart, oldEnd, newSize, kept);
      return;
    }
    if fixed {
      r := MoveTo(ms, oldStart, oldEnd, newAddr, newSize, true, kept);
      return r, newAddr;
    }
    if maymove {
      r, at := MoveAnywhere(ms, oldStart, oldEnd, newSize, kept);
      return;
    }
    return ENOMEM, at;
  }

  /** How a move to the highest gap ends when all pages are there: without a gap there is no memory for it. */
  ghost predicate AnywhereOutcome(r: Errno, at: nat, rs: seq<Rng>, lists: Lists, tree: Space, oldStart: nat,
      oldEnd: nat, newSize: nat, rwx: bool) {
    && (HighestFit(BelowStack(rs), newSize, None) ==> r == ENOMEM)
    && forall t: nat :: HighestFit(BelowStack(rs), newSize, Some(t)) ==>
         && (r == OK ==> at == t)
         && MoveOutcome(r, rs, lists, tree, oldStart, oldEnd, t, newSize, false, rwx)
  }

  lemma OneHighest(rs: seq<Rng>, size: nat)
    requires size > 0
    ensures forall t: Option<nat>, u: Option<nat> ::
              HighestFit(BelowStack(rs), size, t) && HighestFit(BelowStack(rs), size, u) ==> t == u
  {
  }

  /** The highest gap below the stack takes a range that is mapped exactly if no mapping straddles the stack's end. */
  lemma GapFits(ms: MemorySet, oldStart: nat, oldEnd: nat, newSize: nat, t: nat)
    requires ms.Valid() && IsRange(oldStart, oldEnd) && AllPresent(ms.mappings, oldStart, oldEnd - oldStart)
    requires newSize > 0 && newSize % PAGE_SIZE == 0
    requires HighestFit(BelowStack(RangesOf(ms.mappings)), newSize, Some(t))
    ensures MoveFits(RangesOf(ms.mappings), oldStart, oldEnd, t, newSize, false) <==>
            StackInPlace(RangesOf(ms.mappings), newSize)
  {
    hide MemorySet.Valid, StackInPlace, RangesOf, AllPresent, BelowStack;
    var rs := RangesOf(ms.mappings);
    DisjointNow(ms);
    RangesNonEmpty(ms.mappings);
    RangesPaged(ms.mappings);
    FreeRegionIff(rs, newSize, t);
    HighestAligned(rs, newSize, t);
    if FreeOf(rs, t, t + newSize) && t < oldEnd && oldStart < t + newSize {
      var va := if t < oldStart then oldStart else t;
      PageDiff(va, oldStart);
      PresentAt(ms.mappings, oldStart, oldEnd - oldStart, va - oldStart);
      CoveredPage(ms.mappings, va);
    }
  }

  lemma CoveredPage(ms: seq<UserMapping>, va: nat)
    requires Find(ms, va) < |ms|
    ensures forall start: nat, end: nat :: start <= va < end ==> !FreeOf(RangesOf(ms), start, end)
  {
    var i := Find(ms, va);
    assert RangesOf(ms)[i].lo <= va < RangesOf(ms)[i].hi;
  }

  /** Move to the highest gap below the stack. */
  method MoveAnywhere(ms: MemorySet, oldStart: nat, oldEnd: nat, newSize: nat, ghost kept: set<Block>)
      returns (r: Errno, at: nat)
    requires ms.Valid() && ms.Bystanders(kept) && IsRange(oldStart, oldEnd) && newSize > 0 && newSize % PAGE_SIZE == 0
    requires forall at: nat :: HighestFit(BelowStack(RangesOf(ms.mappings)), newSize, Some(at)) ==>
               MoveReady(RangesOf(ms.mappings), oldStart, oldEnd, at, newSize, false)
    modifies ms, ms.space, ms.space.buddy, ms.space.buddy.ram
    ensures ms.Valid() && ms.Bystanders(kept) && LiveKept(old(ms.space.buddy.ram.page), ms.space.buddy.ram.page, kept)
    ensures r == OK ==>
              HasMoved(ms, oldStart, oldEnd, at, newSize)
              && HighestFit(BelowStack(old(RangesOf(ms.mappings))), newSize, Some(at))
              && FreeOf(old(RangesOf(ms.mappings)), at, at + newSize)
    ensures MoveRanges(old(RangesOf(ms.mappings)), RangesOf(ms.mappings), oldStart, oldEnd, at, newSize, false, r == OK)
    ensures r != OK ==> forall va: nat :: !(oldStart <= va < oldEnd) ==> ms.View(va) == old(ms.View(va))
    ensures AllPresent(old(ms.mappings), oldStart, Min(oldEnd - oldStart, newSize)) ==>
              AnywhereOutcome(r, at, old(RangesOf(ms.mappings)), old(ms.space.buddy.state.lists), old(ms.space.Tree()),
                  oldStart, oldEnd, newSize, FirstRwx(old(ms.mappings), old(ms.space.buddy.ram.page), oldStart))
  {
    hide MemorySet.Valid, MemorySet.Bystanders, LiveKept, ViewOf, Delivered, MoveReady, HighestFit, Moved, MoveOutcome,
        AllPresent, RangesOf;
    OneHighest(RangesOf(ms.mappings), newSize);
    KeptSelf(ms.space.buddy.ram.page, kept);
    DisjointNow(ms);
    RangesNonEmpty(ms.mappings);
    var dest := FindFreeRegion(RangesOf(ms.mappings), newSize);
    if dest.None? {
      return ENOMEM, 0;
    }
    RangesPaged(ms.mappings);
    HighestAligned(RangesOf(ms.mappings), newSize, dest.value);
    at := dest.value;
    r := MoveTo(ms, oldStart, oldEnd, dest.value, newSize, false, kept);
  }
}
