/** `mmap`, `munmap` and `mremap` on one task's memory set. */
module MemoryMap {
  import opened Memory
  import opened BuddySpec
  import opened BuddyProperties
  import opened Buddy
  import opened Frames
  import opened Supplies
  import opened Sv39
  import opened AddressSpaces
  import opened Protection
  import opened Ranges
  import opened MappingTable
  import opened PageMapping
  import opened KeptParts

  datatype Errno = OK | ENOMEM | EINVAL | EFAULT | EEXIST | ENOSYS

  /** What stopped `map_frame`. */
  function Cause(r: Errno): MemResult {
    if r == OK then Ok else if r == ENOMEM then OutOfMemory else PageTableMissing
  }

  /** Pages that hold page tables: the space's own, its root, and the kernel's. */
  ghost function ReservedFor(tree: Space, rootPpn: nat, kernel: map<nat, Table>): set<Block> {
    TablePages(tree.tables.Keys + {rootPpn} + kernel.Keys)
  }

  /** The mapping table owns its frames, its ranges are disjoint, and the page tables agree with it. */
  ghost predicate Consistent(s: Snapshot, rootPpn: nat, kernel: map<nat, Table>, ms: seq<UserMapping>) {
    && Owns(ms, s.live, ReservedFor(s.tree, rootPpn, kernel))
    && Disjoint(RangesOf(ms))
    && Agrees(s.tree, kernel, ms)
  }

  /** New table pages come from outside the live set, so nobody's frames become reserved. */
  lemma ReservedGrows(s0: Snapshot, s: Snapshot, rootPpn: nat, kernel: map<nat, Table>)
    requires Grew(s0.live, s.live, s0.tree.tables, s.tree.tables)
    ensures var r0, r := ReservedFor(s0.tree, rootPpn, kernel), ReservedFor(s.tree, rootPpn, kernel);
            s0.live <= s.live && r0 <= r && r - r0 !! s0.live && r - r0 <= s.live
  {
    var added := s.tree.tables.Keys - s0.tree.tables.Keys;
    assert s.tree.tables.Keys + {rootPpn} + kernel.Keys == (s0.tree.tables.Keys + {rootPpn} + kernel.Keys) + added;
    assert ReservedFor(s.tree, rootPpn, kernel) == ReservedFor(s0.tree, rootPpn, kernel) + TablePages(added);
  }

  /** The conditions under which `map_frame` is called: frames in hand, and a free canonical range. */
  ghost predicate CanMap(s: Snapshot, rootPpn: nat, kernel: map<nat, Table>, ms: seq<UserMapping>, addr: nat,
      frames: seq<Frame>, kept: set<Block>) {
    && InHand(frames, ms, s.live, ReservedFor(s.tree, rootPpn, kernel))
    && AllSound(ms) && Spare(kept, ms, s.live, ReservedFor(s.tree, rootPpn, kernel)) && kept !! Blocks(frames)
    && addr % PAGE_SIZE == 0 && IsCanonicalUserRange(addr, addr + TotalSize(frames))
    && addr + TotalSize(frames) <= ADDRESS_LIMIT
    && RangeIsFree(ms, addr, addr + TotalSize(frames))
  }

  lemma MapFrameDone(s0: Snapshot, s: Snapshot, rootPpn: nat, kernel: map<nat, Table>, ms: seq<UserMapping>,
      m: UserMapping, kept: set<Block>)
    requires Consistent(s0, rootPpn, kernel, ms) && CanMap(s0, rootPpn, kernel, ms, m.va, m.frames, kept)
    requires MappedSince(s0, s, kernel, m.va, m.frames, m.flags, if Rwx(m.flags) then TotalSize(m.frames) else 0)
    ensures Sound(m) && RangeStart(m) == m.va
    ensures Consistent(s, rootPpn, kernel, ms + [m])
    ensures Spare(kept, ms + [m], s.live, ReservedFor(s.tree, rootPpn, kernel))
  {
    var r0, r := ReservedFor(s0.tree, rootPpn, kernel), ReservedFor(s.tree, rootPpn, kernel);
    SoundSize(m);
    ReservedGrows(s0, s, rootPpn, kernel);
    OwnsGrows(ms, s0.live, s.live, r0, r);
    OwnsAppend(ms, m, s.live, r);
    DisjointAppend(ms, m);
    AgreesAppend(s0.tree, s.tree, kernel, ms, m);
    AllBlocksAppend(ms, m);
  }

  lemma BeforeMapping(s: Snapshot, rootPpn: nat, kernel: map<nat, Table>, ms: seq<UserMapping>, addr: nat,
      frames: seq<Frame>, flags: Flags, kept: set<Block>)
    requires Consistent(s, rootPpn, kernel, ms) && CanMap(s, rootPpn, kernel, ms, addr, frames, kept)
    ensures AllSound(ms) && AreFrames(frames) && addr % PAGE_SIZE == 0
    ensures IsCanonicalUserRange(addr, addr + TotalSize(frames)) && addr + TotalSize(frames) <= ADDRESS_LIMIT
    ensures MappedSince(s, s, kernel, addr, frames, flags, 0)
  {
    NothingMapped(s, kernel, addr, frames, flags);
  }

  lemma AfterMapping(s0: Snapshot, s: Snapshot, rootPpn: nat, kernel: map<nat, Table>, ms: seq<UserMapping>,
      m: UserMapping, kept: set<Block>)
    requires Consistent(s0, rootPpn, kernel, ms) && CanMap(s0, rootPpn, kernel, ms, m.va, m.frames, kept)
    requires MappedSince(s0, s, kernel, m.va, m.frames, m.flags, if Rwx(m.flags) then TotalSize(m.frames) else 0)
    ensures Consistent(s, rootPpn, kernel, ms + [m]) && AllSound(ms) && AllSound(ms + [m]) && AreFrames(m.frames)
    ensures Spare(kept, ms + [m], s.live, ReservedFor(s.tree, rootPpn, kernel))
    ensures LiveKept(s0.page, s.page, kept + AllBlocks(ms) + Blocks(m.frames)) && Extends(s0.tree, s.tree)
    ensures s.live == s0.live ==> s.tree.tables.Keys == s0.tree.tables.Keys
  {
    hide Extends, LiveKept, Owns, Disjoint, Agrees;
    AllBlocksLive(ms, s0.live, ReservedFor(s0.tree, rootPpn, kernel));
    MapFrameDone(s0, s, rootPpn, kernel, ms, m, kept);
    LiveKeptSubset(s0.page, s.page, s0.live, kept + AllBlocks(ms) + Blocks(m.frames));
    var added := s.tree.tables.Keys - s0.tree.tables.Keys;
    assert forall p :: p in added ==> PageBlock(p) in TablePages(added);
    assert s.live == s0.live ==> added == {};
    assert added == {} ==> s.tree.tables.Keys == s0.tree.tables.Keys;
  }

  lemma MapFrameUndone(s0: Snapshot, s1: Snapshot, s: Snapshot, rootPpn: nat, kernel: map<nat, Table>,
      ms: seq<UserMapping>, addr: nat, frames: seq<Frame>, flags: Flags, done: nat, kept: set<Block>)
    requires Consistent(s0, rootPpn, kernel, ms) && CanMap(s0, rootPpn, kernel, ms, addr, frames, kept)
    requires MappedSince(s0, s1, kernel, addr, frames, flags, done) && done <= TotalSize(frames)
    requires Cleared(s1.tree, s.tree, kernel, addr, addr + done) && s.tree.tables.Keys == s1.tree.tables.Keys
    requires s.live == s1.live - Blocks(frames)
    ensures Consistent(s, rootPpn, kernel, ms)
    ensures Spare(kept, ms, s.live, ReservedFor(s.tree, rootPpn, kernel))
    ensures ReservedFor(s.tree, rootPpn, kernel) !! Blocks(frames)
  {
    var r0, r := ReservedFor(s0.tree, rootPpn, kernel), ReservedFor(s.tree, rootPpn, kernel);
    ReservedGrows(s0, s1, rootPpn, kernel);
    assert r == ReservedFor(s1.tree, rootPpn, kernel);
    AllBlocksLive(ms, s0.live, r0);
    OwnsGrows(ms, s0.live, s1.live, r0, r);
    OwnsShrinks(ms, s1.live, s.live, r);
    RollbackRestores(s0.tree, s1.tree, s.tree, kernel, ms, addr, frames, flags, done, addr + TotalSize(frames));
  }

  lemma OwnsShrinks(ms: seq<UserMapping>, live: set<Block>, live': set<Block>, reserved: set<Block>)
    requires Owns(ms, live, reserved) && AllBlocks(ms) <= live'
    ensures Owns(ms, live', reserved)
  {
    forall i | 0 <= i < |ms| ensures BlocksOf(ms[i]) <= live' {
      forall b | b in BlocksOf(ms[i]) ensures b in live' {
        assert b in AllBlocks(ms);
      }
    }
  }

  /** Removing one mapping: its pages fault, its frames go back, the rest stays consistent. */
  lemma RemoveDone(s0: Snapshot, s: Snapshot, rootPpn: nat, kernel: map<nat, Table>, ms: seq<UserMapping>, i: nat,
      kept: set<Block>)
    requires Consistent(s0, rootPpn, kernel, ms) && i < |ms|
              && Spare(kept, ms, s0.live, ReservedFor(s0.tree, rootPpn, kernel))
    requires Cleared(s0.tree, s.tree, kernel, RangeStart(ms[i]), RangeEnd(ms[i]))
              && s.tree.tables.Keys == s0.tree.tables.Keys
    requires s.live == s0.live - BlocksOf(ms[i])
    ensures AllSound(Without1(ms, i)) && Consistent(s, rootPpn, kernel, Without1(ms, i))
    ensures Spare(kept, Without1(ms, i), s.live, ReservedFor(s.tree, rootPpn, kernel))
  {
    var r := ReservedFor(s.tree, rootPpn, kernel);
    assert r == ReservedFor(s0.tree, rootPpn, kernel);
    OwnsRemove(ms, i, s0.live, r);
    AllBlocksRemove(ms, i, s0.live, r);
    ViewRemove(ms, i, s.page, 0);
    AgreesCleared(s0.tree, s.tree, kernel, ms, i);
  }

  /** A space without tables of its own faults wherever it does not share the kernel's. */
  lemma NothingAgrees(tree: Space, owner: map<nat, Slot>, kernel: map<nat, Table>)
    requires TreeShaped(tree, owner) && tree.tables == map[]
    ensures Agrees(tree, kernel, [])
  {
    forall va: nat | PageVa(va) && !IsShared(tree, VpnOf(va)) ensures WalkIn(tree, kernel, VpnOf(va)) == Fault {
      VpnDigits(VpnOf(va), VpnOf(va));
    }
  }

  /** A buffer whose range is aligned, canonical and, if it needs page-table entries, has its leaf tables. */
  ghost predicate Remappable(b: Buffer, tree: Space) {
    && b.keep.va % PAGE_SIZE == 0 && IsCanonicalUserRange(b.keep.va, b.keep.va + b.keep.size)
    && b.keep.va + b.keep.size <= ADDRESS_LIMIT
    && (Rwx(b.keep.flags) ==> Prepared(tree, b.keep.va, b.keep.size))
  }

  lemma MappingSound(b: Buffer, tree: Space)
    requires BufferOk(b) && Remappable(b, tree)
    ensures Sound(MappingOf(b)) && BlocksOf(MappingOf(b)) == Blocks(b.frames)
              && RangeOf(MappingOf(b)) == KeepRange(b.keep)
  {
  }

  class MemorySet {
    const space: AddressSpace
    var mappings: seq<UserMapping>

    ghost predicate Valid()
      reads this, space, space.buddy, space.buddy.ram
    {
      space.Valid() && Consistent(Now(space), space.rootPpn, space.kernel, mappings)
    }

    /** Blocks in the kernel's hands that no mapping and no page table uses. */
    ghost predicate Bystanders(kept: set<Block>)
      reads this, space, space.buddy
    {
      AllSound(mappings) && Spare(kept, mappings, space.buddy.state.live,
          ReservedFor(space.Tree(), space.rootPpn, space.kernel))
    }

    ghost function View(va: nat): PageView
      reads this, space.buddy.ram
    {
      ViewOf(mappings, space.buddy.ram.page, va)
    }

    constructor (space: AddressSpace, mappings: seq<UserMapping>)
      ensures this.space == space && this.mappings == mappings
    {
      this.space, this.mappings := space, mappings;
    }

    /** The memory set of a new task: nothing is mapped, and the page tables agree. */
    constructor Empty(space: AddressSpace)
      requires space.Valid() && space.tables == map[]
      ensures this.space == space && mappings == [] && Valid() && Bystanders({})
      ensures forall va: nat :: View(va) == Absent
    {
      this.space, this.mappings := space, [];
      new;
      NothingAgrees(space.Tree(), space.owner, space.kernel);
    }

    /** Map frames in hand at `addr` and record them; on failure everything is undone. */
    method MapFrame(addr: nat, frames: seq<Frame>, flags: Flags, ghost kept: set<Block>) returns (r: Errno)
      requires Valid() && CanMap(Now(space), space.rootPpn, space.kernel, mappings, addr, frames, kept)
      modifies this, space, space.buddy, space.buddy.ram
      ensures Valid() && Bystanders(kept) && Extends(old(space.Tree()), space.Tree())
      ensures r == OK || r == ENOMEM || r == EINVAL
      ensures mappings == if r == OK then old(mappings) + [UserMapping(addr, frames, flags)] else old(mappings)
      ensures LiveKept(old(space.buddy.ram.page), space.buddy.ram.page, kept + AllBlocks(old(mappings)) + if r == OK
                then Blocks(frames) else {})
      ensures (Rwx(flags) ==> old(Prepared(space.Tree(), addr, TotalSize(frames)))) ==>
                r == OK && space.tables.Keys == old(space.tables).Keys && space.buddy.state == old(space.buddy.state)
      ensures Rwx(flags) ==>
                Affordable(Cause(r), old(space.Tree()), old(space.buddy.state.lists), addr, TotalSize(frames))
    {
      hide Consistent, CanMap, MappedSince, LiveKept, Extends, AllSound, Prepared, Rwx, AddressSpace.Valid, TotalSize,
          ReservedFor, IsCanonicalUserRange, Affordable;
      ghost var s0 := Now(space);
      BeforeMapping(s0, space.rootPpn, space.kernel, mappings, addr, frames, flags, kept);
      if Rwx(flags) {
        var res, done := MapPages(space, addr, frames, flags);
        if res != Ok {
          r := Undo(addr, frames, flags, res, done, s0, kept);
          assert kept + AllBlocks(mappings) + {} == kept + AllBlocks(mappings);
          return;
        }
      }
      AfterMapping(s0, Now(space), space.rootPpn, space.kernel, mappings, UserMapping(addr, frames, flags), kept);
      mappings := mappings + [UserMapping(addr, frames, flags)];
      return OK;
    }

    /** The failure path of `map_frame`: unmap what was mapped, drop the frames. */
    method Undo(addr: nat, frames: seq<Frame>, flags: Flags, res: MemResult, done: nat, ghost s0: Snapshot,
        ghost kept: set<Block>) returns (r: Errno)
      requires space.Valid() && Consistent(s0, space.rootPpn, space.kernel, mappings)
      requires CanMap(s0, space.rootPpn, space.kernel, mappings, addr, frames, kept) && res != Ok
      requires MappedSince(s0, Now(space), space.kernel, addr, frames, flags, done) && done <= TotalSize(frames)
                && done % PAGE_SIZE == 0
      modifies space, space.buddy, space.buddy.ram
      ensures r == (if res == OutOfMemory then ENOMEM else EINVAL)
      ensures Valid() && Bystanders(kept) && Extends(s0.tree, space.Tree())
      ensures LiveKept(s0.page, space.buddy.ram.page, kept + AllBlocks(mappings))
    {
      ghost var s1 := Now(space);
      PageSum(addr, done);
      UnmapPages(space, addr, addr + done);
      ghost var s2 := Now(space);
      DropFrames(space.buddy, frames);
      MapFrameUndone(s0, s1, Now(space), space.rootPpn, space.kernel, mappings, addr, frames, flags, done, kept);
      UndoKept(s0, s1, space.buddy.ram.page, space.buddy.state.live, mappings, frames, kept,
          ReservedFor(s0.tree, space.rootPpn, space.kernel));
      BackedReserved(space.Tree(), space.rootPpn, space.kernel, s1.live, space.buddy.state.live, Blocks(frames));
      return if res == OutOfMemory then ENOMEM else EINVAL;
    }

    /** Take one mapping out: unmap its pages and drop its frames. */
    method RemoveMapping(i: nat, ghost kept: set<Block>)
      requires Valid() && i < |mappings| && Bystanders(kept)
      modifies this, space, space.buddy, space.buddy.ram
      ensures Valid() && AllSound(mappings) && Bystanders(kept) && Extends(old(space.Tree()), space.Tree())
      ensures mappings == Without1(old(mappings), i) && space.tables.Keys == old(space.tables).Keys
      ensures TopFree(space.buddy.state.lists) >= TopFree(old(space.buddy.state.lists))
      ensures LiveKept(old(space.buddy.ram.page), space.buddy.ram.page, kept + AllBlocks(mappings))
    {
      hide TopFree, Extends, Inv, LiveKept;
      ghost var s0, ms := Now(space), mappings;
      ghost var reserved := ReservedFor(s0.tree, space.rootPpn, space.kernel);
      var m := mappings[i];
      SoundSize(m);
      UnmapPages(space, RangeStart(m), RangeEnd(m));
      ghost var s1 := Now(space);
      assert BlocksOf(m) <= s1.live;
      DropFrames(space.buddy, m.frames);
      RemoveDone(s0, Now(space), space.rootPpn, space.kernel, mappings, i, kept);
      AllBlocksRemove(ms, i, s0.live, reserved);
      AllBlocksLive(ms, s0.live, reserved);
      BackedReserved(space.Tree(), space.rootPpn, space.kernel, s1.live, space.buddy.state.live, BlocksOf(m));
      mappings := mappings[..i] + mappings[i + 1..];
      LiveKeptSubset(s0.page, space.buddy.ram.page, space.buddy.state.live, kept + AllBlocks(mappings));
    }

    /** Step three of `unmap_range`: take out every mapping that meets the window, last first. */
    method TearDown(start: nat, end: nat, ghost kept: set<Block>)
      requires Valid() && Bystanders(kept)
      modifies this, space, space.buddy, space.buddy.ram
      ensures Valid() && AllSound(mappings) && Bystanders(kept) && Extends(old(space.Tree()), space.Tree())
      ensures mappings == Untouched(old(mappings), start, end) && space.tables.Keys == old(space.tables).Keys
      ensures TopFree(space.buddy.state.lists) >= TopFree(old(space.buddy.state.lists))
      ensures LiveKept(old(space.buddy.ram.page), space.buddy.ram.page, kept + AllBlocks(mappings))
    {
      hide *;
      ghost var ms, page0, tree0 := mappings, space.buddy.ram.page, space.Tree();
      HalfDoneEnds(ms, start, end);
      ExtendsSelf(tree0);
      BystandersSound(kept);
      KeptSelf(page0, kept + AllBlocks(mappings));
      var i := |mappings|;
      while i > 0
        invariant 0 <= i <= |ms| && Valid() && Bystanders(kept) && Extends(tree0, space.Tree())
        invariant mappings == HalfDone(ms, i, start, end) && space.tables.Keys == old(space.tables).Keys
        invariant TopFree(space.buddy.state.lists) >= TopFree(old(space.buddy.state.lists))
        invariant AllSound(mappings) && LiveKept(page0, space.buddy.ram.page, kept + AllBlocks(mappings))
      {
        i := i - 1;
        HalfDoneStep(ms, i, start, end);
        if Overlaps(mappings[i], start, end) {
          ghost var page1, tree1, before := space.buddy.ram.page, space.Tree(), mappings;
          RemoveMapping(i, kept);
          BystandersSound(kept);
          FewerBlocks(before, i, page0, page1, space.buddy.ram.page, kept);
          ExtendsTrans(tree0, tree1, space.Tree());
        }
      }
    }

    lemma BystandersSound(kept: set<Block>)
      requires Bystanders(kept)
      ensures AllSound(mappings)
    {
    }

    /** Fill frames in hand with zeros. */
    method ZeroFrames(frames: seq<Frame>)
      requires Valid() && InHand(frames, mappings, space.buddy.state.live,
                ReservedFor(space.Tree(), space.rootPpn, space.kernel))
      modifies space.buddy.ram
      ensures Valid() && Zeroed(space.buddy.ram.page, frames, TotalSize(frames))
      ensures LiveKept(old(space.buddy.ram.page), space.buddy.ram.page, space.buddy.state.live - Blocks(frames))
    {
      TotalIsSum(frames);
      ghost var page0, others := space.buddy.ram.page, space.buddy.state.live - Blocks(frames);
      var off: nat := 0;
      while off < TotalSize(frames)
        invariant off % PAGE_SIZE == 0 && off <= TotalSize(frames) && Valid()
        invariant Zeroed(space.buddy.ram.page, frames, off) && LiveKept(page0, space.buddy.ram.page, others)
      {
        ghost var page1 := space.buddy.ram.page;
        StorePage(frames, off, ZeroPage());
        ZeroStep(page1, frames, off);
        LiveKeptTrans(page0, page1, space.buddy.ram.page, others);
        NextPage(off, TotalSize(frames));
        off := off + PAGE_SIZE;
      }
    }

    /** Overwrite one page of frames in hand. */
    method StorePage(frames: seq<Frame>, off: nat, contents: Page)
      requires Valid() && InHand(frames, mappings, space.buddy.state.live,
                ReservedFor(space.Tree(), space.rootPpn, space.kernel))
      requires off % PAGE_SIZE == 0 && off < TotalSize(frames)
      modifies space.buddy.ram
      ensures Valid() && space.buddy.ram.page == old(space.buddy.ram.page)[PhysAtOffset(frames, off) := contents]
      ensures LiveKept(old(space.buddy.ram.page), space.buddy.ram.page, space.buddy.state.live - Blocks(frames))
    {
      PresentPages(space.buddy.ram.page, space.buddy.state.lists, space.buddy.state.live, frames, off);
      ghost var b := StoreKeeps(space.buddy.state.lists, space.buddy.state.live, space.buddy.ram.page, frames, off,
          contents);
      space.buddy.Store(b, PhysAtOffset(frames, off), contents);
    }

    /** Copy `size` bytes, page by page, from the pages at `va` into frames in hand; false if a page is absent. */
    method CopyInto(frames: seq<Frame>, va: nat, size: nat) returns (ok: bool)
      requires Valid() && InHand(frames, mappings, space.buddy.state.live,
                ReservedFor(space.Tree(), space.rootPpn, space.kernel))
      requires va % PAGE_SIZE == 0 && size % PAGE_SIZE == 0 && size <= TotalSize(frames)
      modifies space.buddy.ram
      ensures Valid()
      ensures ok ==> CopiedFrom(space.buddy.ram.page, frames, mappings, old(space.buddy.ram.page), va, size)
      ensures !ok ==> !AllPresent(mappings, va, size)
      ensures LiveKept(old(space.buddy.ram.page), space.buddy.ram.page, space.buddy.state.live - Blocks(frames))
      ensures TailKept(old(space.buddy.ram.page), space.buddy.ram.page, frames, size)
    {
      hide MemorySet.Valid, MemorySet.Copying, InHand, CopiedFrom, LiveKept, TailKept;
      ghost var page0 := space.buddy.ram.page;
      NothingCopied(frames, va);
      var off: nat := 0;
      while off < size
        invariant off % PAGE_SIZE == 0 && off <= size && Valid()
        invariant Copying(page0, frames, va, off)
      {
        NextPage(off, size);
        ok := CopyOne(frames, va, off, page0);
        if !ok {
          CopyingWeaker(page0, frames, va, off, size);
          return;
        }
        off := off + PAGE_SIZE;
      }
      CopyingWeaker(page0, frames, va, size, size);
      ok := true;
    }

    /** The state of a copy after `done` bytes. */
    ghost predicate Copying(page0: map<nat, Page>, frames: seq<Frame>, va: nat, done: nat)
      reads this, space.buddy, space.buddy.ram
    {
      && AreFrames(frames)
      && CopiedFrom(space.buddy.ram.page, frames, mappings, page0, va, done)
      && LiveKept(page0, space.buddy.ram.page, space.buddy.state.live - Blocks(frames))
      && TailKept(page0, space.buddy.ram.page, frames, done)
    }

    lemma CopyingWeaker(page0: map<nat, Page>, frames: seq<Frame>, va: nat, done: nat, size: nat)
      requires Copying(page0, frames, va, done) && done <= size
      ensures LiveKept(page0, space.buddy.ram.page, space.buddy.state.live - Blocks(frames))
      ensures TailKept(page0, space.buddy.ram.page, frames, size)
      ensures CopiedFrom(space.buddy.ram.page, frames, mappings, page0, va, done)
    {
    }

    /** Copy one page; false if the source page is absent. */
    method CopyOne(frames: seq<Frame>, va: nat, off: nat, ghost page0: map<nat, Page>) returns (ok: bool)
      requires Valid() && InHand(frames, mappings, space.buddy.state.live,
                ReservedFor(space.Tree(), space.rootPpn, space.kernel))
      requires off % PAGE_SIZE == 0 && off < TotalSize(frames) && Copying(page0, frames, va, off)
      modifies space.buddy.ram
      ensures Valid() && Copying(page0, frames, va, if ok then off + PAGE_SIZE else off)
      ensures !ok ==> Find(mappings, va + off) == |mappings|
    {
      ghost var page1, others := space.buddy.ram.page, space.buddy.state.live - Blocks(frames);
      var src := PagePhys(mappings, va + off);
      if src.None? {
        return false;
      }
      AllBlocksLive(mappings, space.buddy.state.live, ReservedFor(space.Tree(), space.rootPpn, space.kernel));
      var contents := ReadMapped(va + off, src.value, page0, others);
      StorePage(frames, off, contents);
      CopyStep(page1, frames, mappings, page0, va, off, contents);
      TailStep(page0, page1, frames, off, contents);
      LiveKeptTrans(page0, page1, space.buddy.ram.page, others);
      return true;
    }

    lemma NothingCopied(frames: seq<Frame>, va: nat)
      requires InHand(frames, mappings, space.buddy.state.live, ReservedFor(space.Tree(), space.rootPpn, space.kernel))
      ensures Copying(space.buddy.ram.page, frames, va, 0)
    {
    }

    /** Read a page of a mapping; copies in progress elsewhere have not changed it. */
    method ReadMapped(va: nat, src: nat, ghost page0: map<nat, Page>, ghost others: set<Block>) returns (contents: Page)
      requires Valid() && PagePhys(mappings, va) == Some(src)
      requires LiveKept(page0, space.buddy.ram.page, others) && AllBlocks(mappings) <= others
      ensures ViewOf(mappings, page0, va).Present? && ViewOf(mappings, page0, va).contents == contents
    {
      ViewKept(mappings, page0, space.buddy.ram.page, others, va);
      contents := At(space.buddy.ram.page, src);
    }

    /** Allocate frames of exactly `size` bytes, in hand and apart from everything else. */
    method TakeFrames(size: nat, ghost kept: set<Block>) returns (fs: Option<seq<Frame>>)
      requires Valid() && Bystanders(kept) && size > 0
      modifies space.buddy, space.buddy.ram
      ensures Valid() && LiveKept(old(space.buddy.ram.page), space.buddy.ram.page, kept + AllBlocks(mappings))
      ensures fs.None? ==> Bystanders(kept)
      ensures fs.Some? ==> Holding(fs.value, kept) && TotalSize(fs.value) == Delivered(size)
      ensures Supplied(old(space.buddy.state.lists), OrdersFor(size), fs.Some?, space.buddy.state.lists)
    {
      hide Supplied, OrdersFor, LiveKept, SizeToOrder, Agrees, Disjoint, BuddyAllocator.Valid, AddressSpace.Shape, Inv;
      ghost var live0, page0 := space.buddy.state.live, space.buddy.ram.page;
      ghost var reserved := ReservedFor(space.Tree(), space.rootPpn, space.kernel);
      AllBlocksLive(mappings, live0, reserved);
      fs := AllocFrames(space.buddy, size);
      LiveKeptSubset(page0, space.buddy.ram.page, live0, kept + AllBlocks(mappings));
      if fs.Some? {
        ReservedLive(space.Tree(), space.rootPpn, space.kernel, live0);
        OwnsGrows(mappings, live0, space.buddy.state.live, reserved, reserved);
        TotalIsSum(fs.value);
        SegmentsTotal(size);
        BuddyInv(space.buddy);
        LiveFrames(space.buddy.state.lists, space.buddy.state.live, fs.value);
      }
    }

    /** Frames in hand beside other bystanders. */
    ghost predicate Holding(frames: seq<Frame>, kept: set<Block>)
      reads this, space, space.buddy
    {
      && InHand(frames, mappings, space.buddy.state.live, ReservedFor(space.Tree(), space.rootPpn, space.kernel))
      && Blocks(frames) !! kept && Bystanders(kept + Blocks(frames))
    }

    /** A kept part, as a caller of `alloc_frames` needs it: aligned, exact and fully mapped. */
    ghost predicate Keepable(k: Keep)
      reads this
    {
      && k.size > 0 && Exact(k.size) && k.va % PAGE_SIZE == 0 && k.size % PAGE_SIZE == 0
      && AllPresent(mappings, k.va, k.size)
    }

    /** Step two of `unmap_range`, for one kept part: new frames with the old contents. */
    method MakeBuffer(k: Keep, ghost kept: set<Block>) returns (fs: Option<seq<Frame>>)
      requires Valid() && Bystanders(kept) && Keepable(k)
      modifies space.buddy, space.buddy.ram
      ensures Valid() && LiveKept(old(space.buddy.ram.page), space.buddy.ram.page, kept + AllBlocks(mappings))
      ensures fs.None? ==> Bystanders(kept)
      ensures fs.Some? ==>
                && Holding(fs.value, kept) && TotalSize(fs.value) == k.size
                && CopiedFrom(space.buddy.ram.page, fs.value, mappings, old(space.buddy.ram.page), k.va, k.size)
      ensures Supplied(old(space.buddy.state.lists), OrdersFor(k.size), fs.Some?, space.buddy.state.lists)
    {
      hide MemorySet.Valid, LiveKept, CopiedFrom, TailKept, Exact, AllPresent, Delivered, Supplied;
      SegmentsTotal(k.size);
      ghost var page0, mine := space.buddy.ram.page, kept + AllBlocks(mappings);
      fs := TakeFrames(k.size, kept);
      if fs.None? {
        return;
      }
      ghost var page1 := space.buddy.ram.page;
      HoldingApart(fs.value, kept);
      var ok := CopyInto(fs.value, k.va, k.size);
      LiveKeptSubset(page1, space.buddy.ram.page, space.buddy.state.live - Blocks(fs.value), mine);
      LiveKeptTrans(page0, page1, space.buddy.ram.page, mine);
      CopiedEarlier(space.buddy.ram.page, fs.value, mappings, page0, page1, k.va, k.size, mine);
    }

    lemma HoldingApart(frames: seq<Frame>, kept: set<Block>)
      requires Valid() && Holding(frames, kept)
      ensures kept + AllBlocks(mappings) <= space.buddy.state.live - Blocks(frames)
    {
      AllBlocksLive(mappings, space.buddy.state.live, ReservedFor(space.Tree(), space.rootPpn, space.kernel));
    }

    /** Kept parts buffered so far: in hand, apart from `kept`, with the contents of `page0`. */
    ghost predicate Buffered(bufs: seq<Buffer>, page0: map<nat, Page>, kept: set<Block>)
      reads this, space, space.buddy, space.buddy.ram
    {
      && BuffersOk(bufs) && kept !! BufferBlocks(bufs, 0) && Bystanders(kept + BufferBlocks(bufs, 0))
      && CopiedAll(space.buddy.ram.page, bufs, mappings, page0)
      && LiveKept(page0, space.buddy.ram.page, kept + AllBlocks(mappings))
    }

    method AddBuffer(bufs: seq<Buffer>, k: Keep, ghost page0: map<nat, Page>, ghost kept: set<Block>)
        returns (b: Option<Buffer>)
      requires Valid() && Keepable(k) && Buffered(bufs, page0, kept)
      modifies space.buddy, space.buddy.ram
      ensures Valid()
      ensures b.None? ==> Buffered(bufs, page0, kept)
      ensures b.Some? ==> b.value.keep == k && Buffered(bufs + [b.value], page0, kept)
      ensures Supplied(old(space.buddy.state.lists), OrdersFor(k.size), b.Some?, space.buddy.state.lists)
    {
      hide MemorySet.Valid, CopiedFrom, Exact, AllPresent, Supplied;
      ghost var page1, all := space.buddy.ram.page, kept + BufferBlocks(bufs, 0);
      var fs := MakeBuffer(k, all);
      CopiedAllKept(page1, space.buddy.ram.page, bufs, mappings, page0, all + AllBlocks(mappings));
      LiveKeptSubset(page1, space.buddy.ram.page, all + AllBlocks(mappings), kept + AllBlocks(mappings));
      LiveKeptTrans(page0, page1, space.buddy.ram.page, kept + AllBlocks(mappings));
      if fs.None? {
        return None;
      }
      b := Some(Buffer(fs.value, k));
      BuffersAppend(bufs, b.value);
      CopiedEarlier(space.buddy.ram.page, fs.value, mappings, page0, page1, k.va, k.size, kept + AllBlocks(mappings));
      assert kept + BufferBlocks(bufs + [b.value], 0) == all + Blocks(fs.value);
    }

    /** Step two of `unmap_range`: buffer every kept part, or give everything back. */
    method MakeBuffers(keeps: seq<Keep>, ghost kept: set<Block>) returns (r: Option<seq<Buffer>>)
      requires Valid() && Bystanders(kept) && forall n :: 0 <= n < |keeps| ==> Keepable(keeps[n])
      modifies space.buddy, space.buddy.ram
      ensures Valid()
      ensures r.None? ==>
                Bystanders(kept) && LiveKept(old(space.buddy.ram.page), space.buddy.ram.page,
                kept + AllBlocks(mappings))
      ensures r.Some? ==>
                && Buffered(r.value, old(space.buddy.ram.page), kept)
                && |r.value| == |keeps| && forall n :: 0 <= n < |keeps| ==> r.value[n].keep == keeps[n]
      ensures Supplied(old(space.buddy.state.lists), OrdersOf(KeepRanges(keeps)), r.Some?, space.buddy.state.lists)
    {
      hide MemorySet.Valid, MemorySet.Buffered, MemorySet.Keepable, Supply, OrdersFor, OrdersOf, KeepRanges;
      ghost var page0, lists0 := space.buddy.ram.page, space.buddy.state.lists;
      assert keeps[0..] == keeps;
      var bufs: seq<Buffer> := [];
      NothingBuffered(kept);
      var n := 0;
      while n < |keeps|
        invariant n == |bufs| <= |keeps| && Valid() && Buffered(bufs, page0, kept)
        invariant forall m :: 0 <= m < n ==> bufs[m].keep == keeps[m]
        invariant forall m :: 0 <= m < |keeps| ==> Keepable(keeps[m])
        invariant Supply(lists0, OrdersOf(KeepRanges(keeps))) ==
                  Supply(space.buddy.state.lists, OrdersOf(KeepRanges(keeps[n..])))
      {
        OrdersStep(keeps, n);
        SupplyConcat(space.buddy.state.lists, OrdersFor(keeps[n].size), OrdersOf(KeepRanges(keeps[n + 1..])));
        var b := AddBuffer(bufs, keeps[n], page0, kept);
        if b.None? {
          DropBuffers(bufs, page0, kept);
          return None;
        }
        bufs := bufs + [b.value];
        n := n + 1;
      }
      NothingToSupply(space.buddy.state.lists, keeps);
      r := Some(bufs);
    }

    lemma NothingBuffered(kept: set<Block>)
      requires Bystanders(kept)
      ensures Buffered([], space.buddy.ram.page, kept)
    {
      assert BufferBlocks([], 0) == {};
      assert kept + BufferBlocks([], 0) == kept;
    }

    /** The failure path: the buffers go out of scope one by one. */
    method DropBuffers(bufs: seq<Buffer>, ghost page0: map<nat, Page>, ghost kept: set<Block>)
      requires Valid() && Buffered(bufs, page0, kept)
      modifies space.buddy, space.buddy.ram
      ensures Valid() && Bystanders(kept) && LiveKept(page0, space.buddy.ram.page, kept + AllBlocks(mappings))
    {
      var n := 0;
      while n < |bufs|
        invariant n <= |bufs| && Valid() && Bystanders(kept + BufferBlocks(bufs, n))
        invariant LiveKept(page0, space.buddy.ram.page, kept + AllBlocks(mappings))
      {
        DropInHand(bufs[n].frames, page0, kept, kept + BufferBlocks(bufs, n + 1)) by { BufferBlocksSplit(bufs, n); }
        n := n + 1;
      }
      assert kept + BufferBlocks(bufs, n) == kept;
    }

    /** Drop frames in hand; the remaining bystanders and the mappings do not notice. */
    method DropInHand(frames: seq<Frame>, ghost page0: map<nat, Page>, ghost kept: set<Block>, ghost rest: set<Block>)
      requires Valid() && AreFrames(frames) && DistinctFrames(frames) && Bystanders(rest + Blocks(frames))
                && rest !! Blocks(frames) && kept <= rest
      requires LiveKept(page0, space.buddy.ram.page, kept + AllBlocks(mappings))
      modifies space.buddy, space.buddy.ram
      ensures Valid() && Bystanders(rest) && LiveKept(page0, space.buddy.ram.page, kept + AllBlocks(mappings))
    {
      ghost var page1, live1 := space.buddy.ram.page, space.buddy.state.live;
      ghost var reserved := ReservedFor(space.Tree(), space.rootPpn, space.kernel);
      AllBlocksLive(mappings, live1, reserved);
      DropFrames(space.buddy, frames);
      BackedReserved(space.Tree(), space.rootPpn, space.kernel, live1, space.buddy.state.live, Blocks(frames));
      OwnsShrinks(mappings, live1, space.buddy.state.live, reserved);
      LiveKeptSubset(page1, space.buddy.ram.page, space.buddy.state.live, kept + AllBlocks(mappings));
      LiveKeptTrans(page0, page1, space.buddy.ram.page, kept + AllBlocks(mappings));
    }

    /** Step four for one buffer; it cannot fail, since no table has to be created. */
    method RemapOne(b: Buffer, ghost tree0: Space, ghost rest: set<Block>) returns (r: Errno)
      requires Valid() && BufferOk(b) && rest !! Blocks(b.frames) && Bystanders(rest + Blocks(b.frames))
      requires Remappable(b, tree0) && Extends(tree0, space.Tree())
      requires RangeIsFree(mappings, b.keep.va, b.keep.va + TotalSize(b.frames))
      modifies this, space, space.buddy, space.buddy.ram
      ensures r == OK && Valid() && Bystanders(rest) && Extends(tree0, space.Tree())
                && space.tables.Keys == old(space.tables).Keys && space.buddy.state == old(space.buddy.state)
      ensures mappings == old(mappings) + [MappingOf(b)]
      ensures LiveKept(old(space.buddy.ram.page), space.buddy.ram.page,
                rest + AllBlocks(old(mappings)) + Blocks(b.frames))
      ensures AllSound(mappings) && AllBlocks(mappings) == AllBlocks(old(mappings)) + Blocks(b.frames)
    {
      ghost var tree1 := space.Tree();
      if Rwx(b.keep.flags) {
        PreparedKept(tree0, tree1, b.keep.va, b.keep.size);
      }
      r := MapFrame(b.keep.va, b.frames, b.keep.flags, rest);
      ExtendsTrans(tree0, tree1, space.Tree());
      MappingSound(b, tree0);
      AllBlocksAppend(old(mappings), MappingOf(b));
    }

    /** Step four of `unmap_range`: map the kept parts again. */
    method Remap(bufs: seq<Buffer>, ghost kept: set<Block>) returns (r: Errno)
      requires Valid() && BuffersOk(bufs) && kept !! BufferBlocks(bufs, 0) && Bystanders(kept + BufferBlocks(bufs, 0))
      requires Disjoint(RangesOf(mappings) + BufferRanges(bufs))
      requires forall n :: 0 <= n < |bufs| ==> Remappable(bufs[n], space.Tree())
      modifies this, space, space.buddy, space.buddy.ram
      ensures r == OK && Valid() && Bystanders(kept) && Extends(old(space.Tree()), space.Tree())
                && space.tables.Keys == old(space.tables).Keys && space.buddy.state == old(space.buddy.state)
      ensures mappings == old(mappings) + MappingsOf(bufs)
      ensures LiveKept(old(space.buddy.ram.page), space.buddy.ram.page,
                kept + AllBlocks(old(mappings)) + BufferBlocks(bufs, 0))
    {
      hide MemorySet.Valid, LiveKept, BufferOk, Extends, MappingsOf, RangesOf, BufferRanges, Disjoint, Owns;
      ghost var base, page0, tree0 := mappings, space.buddy.ram.page, space.Tree();
      ghost var all := kept + AllBlocks(base) + BufferBlocks(bufs, 0);
      ExtendsSelf(tree0);
      KeptSelf(page0, all);
      MappedAll(bufs);
      var n := 0;
      assert base + MappingsOf(bufs)[..0] == base;
      while n < |bufs|
        invariant n <= |bufs| && Valid() && Extends(tree0, space.Tree()) && space.tables.Keys == tree0.tables.Keys
        invariant space.buddy.state == old(space.buddy.state)
        invariant n <= |MappingsOf(bufs)| && mappings == base + MappingsOf(bufs)[..n]
        invariant Bystanders(kept + BufferBlocks(bufs, n))
        invariant AllBlocks(mappings) + BufferBlocks(bufs, n) == AllBlocks(base) + BufferBlocks(bufs, 0)
        invariant LiveKept(page0, space.buddy.ram.page, all)
      {
        ghost var page1, rest := space.buddy.ram.page, kept + BufferBlocks(bufs, n + 1);
        BufferBlocksSplit(bufs, n);
        NextIsFree(base, bufs, n);
        r := RemapOne(bufs[n], tree0, rest);
        MappedPrefix(base, bufs, n);
        LiveKeptTrans(page0, page1, space.buddy.ram.page, all);
        n := n + 1;
      }
      assert kept + BufferBlocks(bufs, n) == kept;
      r := OK;
    }

    /**
     Unmap [start, end).  On success exactly the pages of the window are gone; when the frames for
     the kept parts cannot be allocated, nothing has changed.
     */
    method UnmapRange(start: nat, end: nat, ghost kept: set<Block>) returns (r: Errno)
      requires Valid() && Bystanders(kept) && start < end && start % PAGE_SIZE == 0
      requires AllExact(Keeps(RangesOf(mappings), start, end))
      modifies this, space, space.buddy, space.buddy.ram
      ensures Valid() && Bystanders(kept) && LiveKept(old(space.buddy.ram.page), space.buddy.ram.page, kept)
      ensures r == OK || r == ENOMEM
      ensures r == OK ==> forall va: nat :: View(va) == if start <= va < end then Absent else old(View(va))
      ensures r == OK ==> RangesOf(mappings) == AfterUnmap(old(RangesOf(mappings)), start, end)
      ensures r == ENOMEM ==>
                mappings == old(mappings) && space.Tree() == old(space.Tree())
                && forall va: nat :: View(va) == old(View(va))
      ensures Extends(old(space.Tree()), space.Tree()) && space.tables.Keys == old(space.tables).Keys
      ensures Spent(old(space.buddy.state.lists), OrdersOf(Keeps(old(RangesOf(mappings)), start, end)), r == OK,
                space.buddy.state.lists)
      ensures Keeps(old(RangesOf(mappings)), start, end) == [] ==> r == OK
    {
      hide MemorySet.Valid, LiveKept, Extends, Disjoint, AllExact, CopiedAll, Remappable, AfterUnmap, ViewOf, Supply,
          TopFree, OrdersOf, Keeps, KeepRanges, RangesOf;
      ghost var ms, page0, tree0 := mappings, space.buddy.ram.page, space.Tree();
      KeepListRanges(mappings, start, end);
      NothingKept(space.buddy.state.lists);
      ghost var e := WholePages(start, end);
      ExtendsSelf(tree0);
      var keeps := CollectKeeps(mappings, start, end);
      AllKeepable(start, e);
      var bufs := MakeBuffers(keeps, kept);
      if bufs.None? {
        AfterFailure(page0, kept);
        return ENOMEM;
      }
      ghost var page1, mine := space.buddy.ram.page, kept + BufferBlocks(bufs.value, 0);
      BufferedFacts(bufs.value, page0, kept);
      ReadyToRemap(start, e, bufs.value, page0);
      TearDown(start, end, mine);
      ghost var page2, tree2 := space.buddy.ram.page, space.Tree();
      RemapStillReady(bufs.value, tree0, tree2);
      UntouchedRanges(ms, start, e);
      r := Remap(bufs.value, kept);
      ExtendsTrans(tree0, tree2, space.Tree());
      KeptThroughUnmap(ms, start, e, bufs.value, page0, page1, page2, space.buddy.ram.page, kept);
      FinishUnmap(ms, start, e, bufs.value, page0, space.buddy.ram.page, kept);
      InWholePages(ms, page0, start, end, e);
    }

    /** The window in whole pages, which has the same effect. */
    lemma WholePages(start: nat, end: nat) returns (e: nat)
      requires Valid() && start < end && AllExact(Keeps(RangesOf(mappings), start, end))
      ensures RoundsUp(end, e) && Untouched(mappings, start, end) == Untouched(mappings, start, e)
      ensures KeepList(mappings, start, end) == KeepList(mappings, start, e)
      ensures AllExact(Keeps(RangesOf(mappings), start, e))
                && AfterUnmap(RangesOf(mappings), start, end) == AfterUnmap(RangesOf(mappings), start, e)
    {
      e := (end + PAGE_SIZE - 1) / PAGE_SIZE * PAGE_SIZE;
      SameWindow(mappings, start, end, e);
      KeepListRanges(mappings, start, end);
      KeepListRanges(mappings, start, e);
      UntouchedRanges(mappings, start, end);
      UntouchedRanges(mappings, start, e);
    }

    /** The kept parts are aligned, exact and present, so they can be buffered. */
    lemma AllKeepable(start: nat, end: nat)
      requires Valid() && start < end && start % PAGE_SIZE == 0 && end % PAGE_SIZE == 0
      requires AllExact(Keeps(RangesOf(mappings), start, end))
      ensures forall n :: 0 <= n < |KeepList(mappings, start, end)| ==> Keepable(KeepList(mappings, start, end)[n])
    {
      hide MemorySet.Keepable;
      forall n | 0 <= n < |KeepList(mappings, start, end)| ensures Keepable(KeepList(mappings, start, end)[n]) {
        OneKeepable(start, end, n);
      }
    }

    lemma OneKeepable(start: nat, end: nat, n: nat)
      requires AllSound(mappings) && start < end && start % PAGE_SIZE == 0 && end % PAGE_SIZE == 0
      requires AllExact(Keeps(RangesOf(mappings), start, end)) && n < |KeepList(mappings, start, end)|
      ensures Keepable(KeepList(mappings, start, end)[n])
    {
      hide AllSound, Sound, Exact, RangesOf;
      var k := KeepList(mappings, start, end)[n];
      KeepListRanges(mappings, start, end);
      assert Keeps(RangesOf(mappings), start, end)[n] == KeepRange(k);
      var i := PartAligned(mappings, start, end, n);
      forall off | 0 <= off < k.size && off % PAGE_SIZE == 0 ensures Find(mappings, k.va + off) < |mappings| {
        PageSum(k.va, off);
        assert InKeep(k, k.va + off);
      }
    }

    lemma AfterFailure(page0: map<nat, Page>, kept: set<Block>)
      requires Bystanders(kept) && LiveKept(page0, space.buddy.ram.page, kept + AllBlocks(mappings))
      ensures LiveKept(page0, space.buddy.ram.page, kept)
      ensures forall va: nat :: View(va) == ViewOf(mappings, page0, va)
    {
      LiveKeptSubset(page0, space.buddy.ram.page, kept + AllBlocks(mappings), kept);
      forall va: nat ensures View(va) == ViewOf(mappings, page0, va) {
        ViewKept(mappings, page0, space.buddy.ram.page, kept + AllBlocks(mappings), va);
      }
    }

    lemma BufferedFacts(bufs: seq<Buffer>, page0: map<nat, Page>, kept: set<Block>)
      requires Buffered(bufs, page0, kept)
      ensures BuffersOk(bufs) && kept !! BufferBlocks(bufs, 0) && Bystanders(kept + BufferBlocks(bufs, 0))
      ensures CopiedAll(space.buddy.ram.page, bufs, mappings, page0)
                && LiveKept(page0, space.buddy.ram.page, kept + AllBlocks(mappings))
    {
    }

    lemma ReadyToRemap(start: nat, end: nat, bufs: seq<Buffer>, page0: map<nat, Page>)
      requires Valid() && start < end && start % PAGE_SIZE == 0 && end % PAGE_SIZE == 0
      requires BuffersOk(bufs) && CopiedAll(space.buddy.ram.page, bufs, mappings, page0)
      requires |bufs| == |KeepList(mappings, start, end)| && forall n :: 0 <= n < |bufs| ==>
                bufs[n].keep == KeepList(mappings, start, end)[n]
      ensures Saved(mappings, start, end, bufs, page0, space.buddy.ram.page)
      ensures Disjoint(Survivors(RangesOf(mappings), start, end) + BufferRanges(bufs))
      ensures BufferRanges(bufs) == Keeps(RangesOf(mappings), start, end)
      ensures forall n :: 0 <= n < |bufs| ==> Remappable(bufs[n], space.Tree())
    {
      hide AddressSpace.Valid, CopiedAll, BuffersOk;
      var ms, tree0 := mappings, space.Tree();
      KeepListRanges(ms, start, end);
      assert BufferRanges(bufs) == KeepRanges(KeepList(ms, start, end));
      RangesNonEmpty(ms);
      AfterUnmapRanges(RangesOf(ms), start, end);
      forall n | 0 <= n < |bufs| ensures Remappable(bufs[n], tree0) {
        var i := PartAligned(ms, start, end, n);
        var k := bufs[n].keep;
        if Rwx(k.flags) {
          forall va: nat | PageVa(va) && k.va <= va < k.va + k.size ensures HasLeafTable(tree0, VpnOf(va)) {
            assert InKeep(k, va);
            assert Linked(tree0, space.kernel, ms[i], va);
          }
        }
      }
    }
  }

  /** Copying from memory that has kept the mappings' contents is copying from the original. */
  lemma CopiedEarlier(page: map<nat, Page>, frames: seq<Frame>, ms: seq<UserMapping>, page0: map<nat, Page>,
      page1: map<nat, Page>, va: nat, size: nat, mine: set<Block>)
    requires CopiedFrom(page, frames, ms, page1, va, size) && AllSound(ms) && AllBlocks(ms) <= mine
              && LiveKept(page0, page1, mine)
    ensures CopiedFrom(page, frames, ms, page0, va, size)
  {
    forall off | 0 <= off < size && off % PAGE_SIZE == 0
      ensures ViewOf(ms, page0, va + off).Present?
                && At(page, PhysAtOffset(frames, off)) == ViewOf(ms, page0, va + off).contents
    {
      ViewKept(ms, page0, page1, mine, va + off);
    }
  }

  lemma ReservedLive(tree: Space, rootPpn: nat, kernel: map<nat, Table>, live: set<Block>)
    requires Backed(tree.tables, live) && Backed(kernel, live) && PageBlock(rootPpn) in live
    ensures ReservedFor(tree, rootPpn, kernel) <= live
  {
  }

  lemma RangesNonEmpty(ms: seq<UserMapping>)
    requires AllSound(ms)
    ensures NonEmpty(RangesOf(ms))
  {
    forall i | 0 <= i < |ms| ensures RangesOf(ms)[i].lo < RangesOf(ms)[i].hi {
      SoundSize(ms[i]);
    }
  }

  lemma RemapStillReady(bufs: seq<Buffer>, tree0: Space, tree: Space)
    requires Extends(tree0, tree) && forall n :: 0 <= n < |bufs| ==> Remappable(bufs[n], tree0)
    ensures forall n :: 0 <= n < |bufs| ==> Remappable(bufs[n], tree)
  {
    forall n | 0 <= n < |bufs| ensures Remappable(bufs[n], tree) {
      if Rwx(bufs[n].keep.flags) {
        PreparedKept(tree0, tree, bufs[n].keep.va, bufs[n].keep.size);
      }
    }
  }

  // ----- what a task sees after unmapping -----

  /** The mappings outside the window keep their blocks. */
  lemma {:induction false} UntouchedBlocks(ms: seq<UserMapping>, start: nat, end: nat)
    requires AllSound(ms)
    ensures AllSound(Untouched(ms, start, end)) && AllBlocks(Untouched(ms, start, end)) <= AllBlocks(ms)
    decreases ms
  {
    var u := Untouched(ms, start, end);
    forall k | 0 <= k < |u| ensures u[k] in ms {
      UntouchedMember(ms, start, end, k);
    }
    forall b | b in AllBlocks(u) ensures b in AllBlocks(ms) {
      var k :| 0 <= k < |u| && b in BlocksOf(u[k]);
      var i :| 0 <= i < |ms| && ms[i] == u[k];
      assert b in BlocksOf(ms[i]);
    }
  }

  lemma {:induction false} UntouchedMember(ms: seq<UserMapping>, start: nat, end: nat, k: nat)
    requires k < |Untouched(ms, start, end)|
    ensures Untouched(ms, start, end)[k] in ms
    decreases ms
  {
    var first := if Overlaps(ms[0], start, end) then [] else [ms[0]];
    if k >= |first| {
      UntouchedMember(ms[1..], start, end, k - |first|);
    }
  }

  lemma ViewConcat(a: seq<UserMapping>, b: seq<UserMapping>, page: map<nat, Page>, va: nat)
    requires forall n :: 0 <= n < |b| ==> !InRange(b[n], va)
    ensures ViewOf(a + b, page, va) == ViewOf(a, page, va)
  {
    var f, g := Find(a, va), Find(a + b, va);
    assert forall j :: 0 <= j < |a| ==> (a + b)[j] == a[j];
    assert forall j :: |a| <= j < |a + b| ==> (a + b)[j] == b[j - |a|];
    assert f < |a| ==> InRange((a + b)[f], va);
    assert g < |a + b| ==> g < |a| && InRange(a[g], va);
  }

  /** The kept parts of a window, buffered and with the contents of `page0`. */
  ghost predicate Saved(ms: seq<UserMapping>, start: nat, end: nat, bufs: seq<Buffer>, page0: map<nat, Page>,
      page: map<nat, Page>) {
    && AllSound(ms) && Disjoint(RangesOf(ms)) && start < end && start % PAGE_SIZE == 0 && end % PAGE_SIZE == 0
    && BuffersOk(bufs) && CopiedAll(page, bufs, ms, page0)
    && |bufs| == |KeepList(ms, start, end)|
    && (forall n :: 0 <= n < |bufs| ==> bufs[n].keep == KeepList(ms, start, end)[n])
  }

  /** A page of a kept part reads as it did, through the new mapping. */
  lemma RestoredView(ms: seq<UserMapping>, start: nat, end: nat, bufs: seq<Buffer>, page0: map<nat, Page>,
      page: map<nat, Page>, n: nat, va: nat)
    requires Saved(ms, start, end, bufs, page0, page) && n < |bufs| && InKeep(bufs[n].keep, va)
    ensures InRange(MappingOf(bufs[n]), va) && !(start <= va < end)
    ensures Present(bufs[n].keep.flags, At(page, PhysOf(MappingOf(bufs[n]), va))) == ViewOf(ms, page0, va)
  {
    hide AllSound, RangesOf, Blocks, ViewOf, PhysAtOffset, KeepList, AreFrames, DistinctFrames, PageAligned,
        FramesApart, TotalSize, Disjoint;
    var i := PartAligned(ms, start, end, n);
    var k := bufs[n].keep;
    assert BufferOk(bufs[n]) && RangeStart(MappingOf(bufs[n])) == k.va;
    ViewAt(ms, page0, i, va);
    PageDiff(va, k.va);
    var off := va - k.va;
    assert CopiedFrom(page, bufs[n].frames, ms, page0, k.va, k.size);
    assert ViewOf(ms, page0, k.va + off).contents == At(page, PhysAtOffset(bufs[n].frames, off));
  }

  /** Unmapping takes away exactly the pages of the window. */
  lemma UnmapView(ms: seq<UserMapping>, start: nat, end: nat, bufs: seq<Buffer>, page0: map<nat, Page>,
      page: map<nat, Page>, va: nat)
    requires Saved(ms, start, end, bufs, page0, page)
              && Disjoint(RangesOf(Untouched(ms, start, end) + MappingsOf(bufs)))
    requires ViewOf(Untouched(ms, start, end), page, va) == ViewOf(Untouched(ms, start, end), page0, va)
    ensures ViewOf(Untouched(ms, start, end) + MappingsOf(bufs), page, va) == if start <= va < end then Absent
              else ViewOf(ms, page0, va)
  {
    hide CopiedAll, BuffersOk, AllSound, Untouched, KeepList;
    var u := Untouched(ms, start, end);
    var all := u + MappingsOf(bufs);
    RestoredIff(ms, start, end, va);
    if n :| 0 <= n < |bufs| && InKeep(bufs[n].keep, va) {
      RestoredView(ms, start, end, bufs, page0, page, n, va);
      assert all[|u| + n] == MappingOf(bufs[n]);
      ViewAt(all, page, |u| + n, va);
    } else {
      OutsideParts(ms, start, end, bufs, page0, page, va);
      ViewConcat(u, MappingsOf(bufs), page, va);
      UntouchedView(ms, page0, start, end, va);
    }
  }

  lemma OutsideParts(ms: seq<UserMapping>, start: nat, end: nat, bufs: seq<Buffer>, page0: map<nat, Page>,
      page: map<nat, Page>, va: nat)
    requires Saved(ms, start, end, bufs, page0, page) && forall n :: 0 <= n < |bufs| ==> !InKeep(bufs[n].keep, va)
    ensures forall n :: 0 <= n < |bufs| ==> !InRange(MappingsOf(bufs)[n], va)
  {
    hide CopiedAll, AllSound, RangesOf;
    forall n | 0 <= n < |bufs| ensures !InRange(MappingsOf(bufs)[n], va) {
      var i := PartAligned(ms, start, end, n);
      assert BufferOk(bufs[n]);
    }
  }

  /** Contents kept through the three phases of unmapping. */
  lemma KeptThroughUnmap(ms: seq<UserMapping>, start: nat, end: nat, bufs: seq<Buffer>, page0: map<nat, Page>,
      page1: map<nat, Page>, page2: map<nat, Page>, page: map<nat, Page>, kept: set<Block>)
    requires Saved(ms, start, end, bufs, page0, page1) && AllSound(Untouched(ms, start, end))
    requires LiveKept(page0, page1, kept + AllBlocks(ms))
    requires LiveKept(page1, page2, kept + BufferBlocks(bufs, 0) + AllBlocks(Untouched(ms, start, end)))
    requires LiveKept(page2, page, kept + AllBlocks(Untouched(ms, start, end)) + BufferBlocks(bufs, 0))
    ensures Saved(ms, start, end, bufs, page0, page)
    ensures LiveKept(page0, page, kept + AllBlocks(Untouched(ms, start, end)))
  {
    hide LiveKept, CopiedAll, AllBlocks, BufferBlocks, BuffersOk, AllSound, Disjoint;
    var u, b := AllBlocks(Untouched(ms, start, end)), BufferBlocks(bufs, 0);
    UntouchedBlocks(ms, start, end);
    assert kept + b + u == kept + u + b;
    LiveKeptTrans(page1, page2, page, kept + u + b);
    CopiedAllKept(page1, page, bufs, ms, page0, kept + u + b);
    LiveKeptSubset(page0, page1, kept + AllBlocks(ms), kept + u);
    LiveKeptSubset(page1, page, kept + u + b, kept + u);
    LiveKeptTrans(page0, page1, page, kept + u);
  }

  lemma RangesConcat(a: seq<UserMapping>, bufs: seq<Buffer>)
    requires BuffersOk(bufs) && forall n :: 0 <= n < |bufs| ==> bufs[n].keep.va % PAGE_SIZE == 0
    ensures RangesOf(a + MappingsOf(bufs)) == RangesOf(a) + BufferRanges(bufs)
  {
    hide AreFrames, DistinctFrames, PageAligned, FramesApart, TotalSize, Frames.AreFrames, Frames.DistinctFrames;
    var l, r := RangesOf(a + MappingsOf(bufs)), RangesOf(a) + BufferRanges(bufs);
    forall i | 0 <= i < |l| ensures l[i] == r[i] {
      if i >= |a| {
        assert BufferOk(bufs[i - |a|]);
      }
    }
  }

  lemma InWholePages(ms: seq<UserMapping>, page: map<nat, Page>, start: nat, end: nat, e: nat)
    requires RoundsUp(end, e)
    ensures forall va: nat :: (if start <= va < e then Absent else ViewOf(ms, page, va)) == if start <= va < end
              then Absent else ViewOf(ms, page, va)
  {
    forall va: nat | end <= va < e ensures ViewOf(ms, page, va) == Absent {
      if va % PAGE_SIZE == 0 {
        NextPage(va, e);
      }
    }
  }

  lemma FinishUnmap(ms: seq<UserMapping>, start: nat, end: nat, bufs: seq<Buffer>, page0: map<nat, Page>,
      page: map<nat, Page>, kept: set<Block>)
    requires Saved(ms, start, end, bufs, page0, page) && AllSound(Untouched(ms, start, end))
    requires LiveKept(page0, page, kept + AllBlocks(Untouched(ms, start, end)))
    requires Disjoint(Survivors(RangesOf(ms), start, end) + BufferRanges(bufs))
              && BufferRanges(bufs) == Keeps(RangesOf(ms), start, end)
    ensures LiveKept(page0, page, kept)
    ensures RangesOf(Untouched(ms, start, end) + MappingsOf(bufs)) == AfterUnmap(RangesOf(ms), start, end)
    ensures forall va: nat :: ViewOf(Untouched(ms, start, end) + MappingsOf(bufs), page, va) == if start <= va < end
              then Absent else ViewOf(ms, page0, va)
  {
    var u := Untouched(ms, start, end);
    LiveKeptSubset(page0, page, kept + AllBlocks(u), kept);
    UntouchedRanges(ms, start, end);
    forall n | 0 <= n < |bufs| ensures bufs[n].keep.va % PAGE_SIZE == 0 {
      var i := PartAligned(ms, start, end, n);
    }
    RangesConcat(u, bufs);
    forall va: nat ensures ViewOf(u + MappingsOf(bufs), page, va) == if start <= va < end then Absent
        else ViewOf(ms, page0, va) {
      ViewKept(u, page0, page, kept + AllBlocks(u), va);
      UnmapView(ms, start, end, bufs, page0, page, va);
    }
  }

  /**
   Requests for blocks were served exactly if they could be, and whatever was freed afterwards has not
   cost any 4 MiB block.
   */
  ghost predicate Spent(before: Lists, orders: seq<nat>, ok: bool, after: Lists) {
    && (ok <==> Supply(before, orders).Some?)
    && (ok ==> TopFree(after) >= TopFree(Supply(before, orders).value))
  }

  lemma NothingToSupply(lists: Lists, keeps: seq<Keep>)
    ensures Supply(lists, OrdersOf(KeepRanges(keeps[|keeps|..]))) == Some(lists)
  {
    assert KeepRanges(keeps[|keeps|..]) == [];
  }

  lemma NothingKept(lists: Lists)
    ensures Supply(lists, OrdersOf([])) == Some(lists)
  {
  }

  lemma MappedAll(bufs: seq<Buffer>)
    ensures |MappingsOf(bufs)| == |bufs| && MappingsOf(bufs)[..|bufs|] == MappingsOf(bufs)
  {
  }

  lemma FewerBlocks(ms: seq<UserMapping>, i: nat, page0: map<nat, Page>, page1: map<nat, Page>, page: map<nat, Page>,
      kept: set<Block>)
    requires i < |ms| && AllSound(ms) && AllSound(Without1(ms, i))
    requires LiveKept(page0, page1, kept + AllBlocks(ms)) && LiveKept(page1, page, kept + AllBlocks(Without1(ms, i)))
    ensures LiveKept(page0, page, kept + AllBlocks(Without1(ms, i)))
  {
    var rest := Without1(ms, i);
    forall b | b in AllBlocks(rest) ensures b in AllBlocks(ms) {
      var k :| 0 <= k < |rest| && b in BlocksOf(rest[k]);
      assert b in BlocksOf(ms[if k < i then k else k + 1]);
    }
    LiveKeptSubset(page0, page1, kept + AllBlocks(ms), kept + AllBlocks(rest));
    LiveKeptTrans(page0, page1, page, kept + AllBlocks(rest));
  }

  lemma UndoKept(s0: Snapshot, s1: Snapshot, page: map<nat, Page>, live: set<Block>, ms: seq<UserMapping>,
      frames: seq<Frame>, kept: set<Block>, reserved: set<Block>)
    requires Owns(ms, s0.live, reserved) && InHand(frames, ms, s0.live, reserved) && Spare(kept, ms, s0.live, reserved)
              && kept !! Blocks(frames)
    requires LiveKept(s0.page, s1.page, s0.live) && s0.live <= s1.live && live == s1.live - Blocks(frames)
              && LiveKept(s1.page, page, live)
    ensures LiveKept(s0.page, page, kept + AllBlocks(ms))
  {
    AllBlocksLive(ms, s0.live, reserved);
    LiveKeptSubset(s0.page, s1.page, s0.live, kept + AllBlocks(ms));
    LiveKeptSubset(s1.page, page, live, kept + AllBlocks(ms));
    LiveKeptTrans(s0.page, s1.page, page, kept + AllBlocks(ms));
  }

  lemma BackedReserved(tree: Space, rootPpn: nat, kernel: map<nat, Table>, live: set<Block>, live': set<Block>,
      dropped: set<Block>)
    requires Backed(tree.tables, live) && Backed(kernel, live) && PageBlock(rootPpn) in live
    requires ReservedFor(tree, rootPpn, kernel) !! dropped && live' == live - dropped
    ensures Backed(tree.tables, live') && Backed(kernel, live') && PageBlock(rootPpn) in live'
  {
    forall p | p in tree.tables || p == rootPpn || p in kernel
        ensures PageBlock(p) in ReservedFor(tree, rootPpn, kernel) {
      assert p in tree.tables.Keys + {rootPpn} + kernel.Keys;
    }
  }
}
