/** Keeping the page tables in step with the mapping table. */
module PageMapping {
  import opened Memory
  import opened BuddySpec
  import opened BuddyProperties
  import opened Buddy
  import opened Frames
  import opened Supplies
  import opened Sv39
  import opened AddressSpaces
  import opened Protection
  import opened Ranges
  import opened MappingTable

  /** The walk of page `va` gives the physical page and flags that the mapping records. */
  ghost predicate Linked(tree: Space, kernel: map<nat, Table>, m: UserMapping, va: nat)
    requires RangeStart(m) <= va
  {
    HasLeafTable(tree, VpnOf(va)) &&
    WalkIn(tree, kernel, VpnOf(va)) == Translated(Pte(true, m.flags, PhysOf(m, va) / PAGE_SIZE))
  }

  ghost predicate NoRwx(ms: seq<UserMapping>, va: nat) {
    forall i :: 0 <= i < |ms| ==> !(InRange(ms[i], va) && Rwx(ms[i].flags))
  }

  /**
   Page tables and mapping table agree: every page with any permission is linked, and every
   other page outside the kernel's root slots faults.
   */
  ghost predicate Agrees(tree: Space, kernel: map<nat, Table>, ms: seq<UserMapping>) {
    && (forall i, va :: 0 <= i < |ms| && InRange(ms[i], va) && Rwx(ms[i].flags) ==> Linked(tree, kernel, ms[i], va))
    && (forall va: nat :: PageVa(va) && !IsShared(tree, VpnOf(va)) && NoRwx(ms, va) ==>
         WalkIn(tree, kernel, VpnOf(va)) == Fault)
  }

  /** What every change keeps: tables stay, and no slot changes hands with the kernel. */
  ghost predicate Extends(tree0: Space, tree: Space) {
    && KeepsLeafTables(tree0, tree)
    && (forall x :: Lacks(tree, x) ==> Lacks(tree0, x))
    && forall q :: IsVpn(q) ==> IsShared(tree, q) == IsShared(tree0, q)
  }

  lemma ExtendsTrans(a: Space, b: Space, c: Space)
    requires Extends(a, b) && Extends(b, c)
    ensures Extends(a, c)
  {
  }

  lemma ExtendsSelf(a: Space)
    ensures Extends(a, a)
  {
  }

  /** Pages of [from, to) that are not the kernel's now fault; all others are as before. */
  ghost predicate Cleared(tree0: Space, tree: Space, kernel: map<nat, Table>, from: nat, to: nat) {
    && Extends(tree0, tree)
    && forall va: nat :: PageVa(va) ==>
         WalkIn(tree, kernel, VpnOf(va)) ==
         if from <= va < to && !IsShared(tree0, VpnOf(va)) then Fault else WalkIn(tree0, kernel, VpnOf(va))
  }

  /** The first `done` bytes of the frames are mapped from `addr` on; all other pages are as before. */
  ghost predicate Progress(tree0: Space, tree: Space, kernel: map<nat, Table>, addr: nat, frames: seq<Frame>,
      flags: Flags, done: nat) {
    && Extends(tree0, tree)
    && (forall va: nat :: PageVa(va) && addr <= va < addr + done ==>
          && HasLeafTable(tree, VpnOf(va))
          && WalkIn(tree, kernel,
               VpnOf(va)) == Translated(Pte(true, flags, PhysAtOffset(frames, va - addr) / PAGE_SIZE)))
    && (forall va: nat :: PageVa(va) && !(addr <= va < addr + done) ==>
          WalkIn(tree, kernel, VpnOf(va)) == WalkIn(tree0, kernel, VpnOf(va)))
  }

  lemma LeafTableNotShared(s: Space, vpn: nat)
    requires IsVpn(vpn) && HasLeafTable(s, vpn)
    ensures !IsShared(s, vpn)
  {
  }

  lemma AgreesAppend(tree0: Space, tree: Space, kernel: map<nat, Table>, ms: seq<UserMapping>, m: UserMapping)
    requires Agrees(tree0, kernel, ms) && AllSound(ms) && Sound(m) && m.va % PAGE_SIZE == 0
    requires RangeIsFree(ms, RangeStart(m), RangeEnd(m))
    requires if Rwx(m.flags) then Progress(tree0, tree, kernel, m.va, m.frames, m.flags, TotalSize(m.frames))
             else Progress(tree0, tree, kernel, m.va, m.frames, m.flags, 0)
    ensures Agrees(tree, kernel, ms + [m])
  {
    var all := ms + [m];
    assert RangeStart(m) == m.va;
    SoundSize(m);
    forall i, va | 0 <= i < |all| && InRange(all[i], va) && Rwx(all[i].flags) ensures Linked(tree, kernel, all[i], va) {
      SoundSize(all[i]);
      if i < |ms| {
        assert all[i] == ms[i] && !Overlaps(ms[i], RangeStart(m), RangeEnd(m));
        assert Linked(tree0, kernel, ms[i], va);
      }
    }
    forall va: nat | PageVa(va) && !IsShared(tree, VpnOf(va)) && NoRwx(all, va)
        ensures WalkIn(tree, kernel, VpnOf(va)) == Fault {
      assert NoRwx(ms, va) by {
        forall i | 0 <= i < |ms| ensures !(InRange(ms[i], va) && Rwx(ms[i].flags)) { assert all[i] == ms[i]; }
      }
      assert !(InRange(all[|ms|], va) && Rwx(all[|ms|].flags));
    }
  }

  lemma AgreesCleared(tree0: Space, tree: Space, kernel: map<nat, Table>, ms: seq<UserMapping>, i: nat)
    requires Agrees(tree0, kernel, ms) && AllSound(ms) && Disjoint(RangesOf(ms)) && i < |ms|
    requires Cleared(tree0, tree, kernel, RangeStart(ms[i]), RangeEnd(ms[i]))
    ensures Agrees(tree, kernel, Without1(ms, i))
  {
    var rest := Without1(ms, i);
    SoundSize(ms[i]);
    forall j, va | 0 <= j < |rest| && InRange(rest[j], va) && Rwx(rest[j].flags)
        ensures Linked(tree, kernel, rest[j], va) {
      var j' := if j < i then j else j + 1;
      assert rest[j] == ms[j'];
      SoundSize(ms[j']);
      assert Linked(tree0, kernel, ms[j'], va);
      if InRange(ms[i], va) {
        RangesDisjoint(ms, i, j', va);
      }
    }
    forall va: nat | PageVa(va) && !IsShared(tree, VpnOf(va)) && NoRwx(rest, va)
        ensures WalkIn(tree, kernel, VpnOf(va)) == Fault {
      if !InRange(ms[i], va) {
        forall k | 0 <= k < |ms| ensures !(InRange(ms[k], va) && Rwx(ms[k].flags)) {
          if k != i { assert rest[if k < i then k else k - 1] == ms[k]; }
        }
        assert NoRwx(ms, va);
      }
    }
  }

  /** Undoing everything that was mapped over a range that faulted before restores every walk. */
  lemma RollbackRestores(tree0: Space, tree1: Space, tree: Space, kernel: map<nat, Table>, ms: seq<UserMapping>,
      addr: nat, frames: seq<Frame>, flags: Flags, done: nat, end: nat)
    requires Agrees(tree0, kernel, ms) && AllSound(ms) && RangeIsFree(ms, addr, end) && done <= end - addr
              && addr <= end
    requires Progress(tree0, tree1, kernel, addr, frames, flags, done)
              && Cleared(tree1, tree, kernel, addr, addr + done)
    ensures Agrees(tree, kernel, ms)
  {
    forall va: nat | PageVa(va) ensures WalkIn(tree, kernel, VpnOf(va)) == WalkIn(tree0, kernel, VpnOf(va)) {
      if addr <= va < addr + done {
        LeafTableNotShared(tree1, VpnOf(va));
        forall i | 0 <= i < |ms| ensures !(InRange(ms[i], va) && Rwx(ms[i].flags)) {
          assert !Overlaps(ms[i], addr, end);
        }
        assert NoRwx(ms, va);
      }
    }
    forall i, va | 0 <= i < |ms| && InRange(ms[i], va) && Rwx(ms[i].flags) ensures Linked(tree, kernel, ms[i], va) {
      SoundSize(ms[i]);
      assert Linked(tree0, kernel, ms[i], va);
    }
  }

  // ----- mapping and unmapping whole runs of pages -----

  lemma ClearedStep(tree0: Space, tree1: Space, tree: Space, kernel: map<nat, Table>, from: nat, va: nat)
    requires Cleared(tree0, tree1, kernel, from, va) && from <= va && PageVa(va)
    requires Extends(tree1, tree)
    requires forall q :: IsVpn(q) ==>
               WalkIn(tree, kernel, q) == if q == VpnOf(va) && !IsShared(tree1, q) then Fault
                   else WalkIn(tree1, kernel, q)
    ensures Cleared(tree0, tree, kernel, from, va + PAGE_SIZE)
  {
    forall w: nat | PageVa(w)
      ensures WalkIn(tree, kernel, VpnOf(w)) ==
              if from <= w < va + PAGE_SIZE && !IsShared(tree0, VpnOf(w)) then Fault
                  else WalkIn(tree0, kernel, VpnOf(w))
    {
      if w != va {
        VpnInjective(w, va);
        PageGap(va, w);
      }
    }
  }

  /** `user_unmap` for every page of [from, to). */
  method UnmapPages(space: AddressSpace, from: nat, to: nat)
    requires space.Valid() && from % PAGE_SIZE == 0 && to % PAGE_SIZE == 0 && from <= to
    requires IsCanonicalUserRange(from, to) && to <= ADDRESS_LIMIT
    modifies space
    ensures space.Valid() && space.tables.Keys == old(space.tables).Keys
    ensures Cleared(old(space.Tree()), space.Tree(), space.kernel, from, to)
  {
    hide WalkIn, AddressSpace.Valid, Lacks, HasLeafTable;
    var va: nat := from;
    while va < to
      invariant from <= va <= to && va % PAGE_SIZE == 0 && space.Valid()
      invariant space.tables.Keys == old(space.tables).Keys
      invariant Cleared(old(space.Tree()), space.Tree(), space.kernel, from, va)
    {
      ghost var tree1 := space.Tree();
      space.Unmap(va);
      ClearedStep(old(space.Tree()), tree1, space.Tree(), space.kernel, from, va);
      va := va + PAGE_SIZE;
    }
  }

  lemma ProgressStep(tree0: Space, tree1: Space, tree: Space, kernel: map<nat, Table>, addr: nat, frames: seq<Frame>,
      flags: Flags, done: nat)
    requires Progress(tree0, tree1, kernel, addr, frames, flags, done) && PageVa(addr + done)
    requires Extends(tree1, tree) && HasLeafTable(tree, VpnOf(addr + done))
    requires forall q :: IsVpn(q) ==>
               WalkIn(tree, kernel, q) == if q == VpnOf(addr + done)
                   then Translated(Pte(true, flags, PhysAtOffset(frames, done) / PAGE_SIZE))
                                          else WalkIn(tree1, kernel, q)
    ensures Progress(tree0, tree, kernel, addr, frames, flags, done + PAGE_SIZE)
  {
    var at := addr + done;
    forall w: nat | PageVa(w) && w != at ensures VpnOf(w) != VpnOf(at) && !(at <= w < at + PAGE_SIZE) {
      VpnInjective(w, at);
      PageGap(at, w);
    }
    forall w: nat | PageVa(w) && addr <= w < addr + (done + PAGE_SIZE)
      ensures HasLeafTable(tree, VpnOf(w))
      ensures WalkIn(tree, kernel, VpnOf(w)) == Translated(Pte(true, flags, PhysAtOffset(frames, w - addr) / PAGE_SIZE))
    {
      if w != at {
        assert HasLeafTable(tree1, VpnOf(w));
      }
    }
  }

  /** Every page that is to be mapped already has its leaf table. */
  ghost predicate Prepared(tree: Space, addr: nat, size: nat) {
    forall va: nat :: PageVa(va) && addr <= va < addr + size ==> HasLeafTable(tree, VpnOf(va))
  }

  lemma PreparedKept(tree0: Space, tree: Space, addr: nat, size: nat)
    requires Prepared(tree0, addr, size) && Extends(tree0, tree)
    ensures Prepared(tree, addr, size)
  {
  }

  // ----- the tables a run of pages needs -----

  /** The slots that the pages of [addr, addr + size) go through. */
  ghost function SlotsFor(addr: nat, size: nat): set<Slot> {
    (set va | addr <= va < addr + size && va % PAGE_SIZE == 0 :: Slot1(VpnOf(va)))
    + set va | addr <= va < addr + size && va % PAGE_SIZE == 0 :: Slot0(VpnOf(va))
  }

  /** How many tables the pages of [addr, addr + size) still need. */
  ghost function TablesNeeded(tree: Space, addr: nat, size: nat): nat { |Missing(tree, SlotsFor(addr, size))| }

  /** None of the pages lies in a root slot of the kernel. */
  ghost predicate Unshared(tree: Space, addr: nat, size: nat) {
    forall va: nat :: addr <= va < addr + size && va % PAGE_SIZE == 0 ==> !IsShared(tree, VpnOf(va))
  }

  lemma OwnSlots(addr: nat, size: nat, va: nat)
    requires addr <= va < addr + size && va % PAGE_SIZE == 0
    ensures {Slot1(VpnOf(va)), Slot0(VpnOf(va))} <= SlotsFor(addr, size)
  {
  }

  /** Pages that all have leaf tables need none. */
  lemma PreparedNeedsNone(tree: Space, addr: nat, size: nat)
    requires forall va: nat :: addr <= va < addr + size && va % PAGE_SIZE == 0 ==> HasLeafTable(tree, VpnOf(va))
    ensures Missing(tree, SlotsFor(addr, size)) == {} && TablesNeeded(tree, addr, size) == 0
    ensures Unshared(tree, addr, size)
  {
    forall x | x in SlotsFor(addr, size) ensures !Lacks(tree, x) {
      var va :| addr <= va < addr + size && va % PAGE_SIZE == 0 && (x == Slot1(VpnOf(va)) || x == Slot0(VpnOf(va)));
      assert HasLeafTable(tree, VpnOf(va));
    }
    assert Missing(tree, SlotsFor(addr, size)) == {};
  }

  /** Growing tables never increases what is needed. */
  lemma NeedsNoMore(tree0: Space, tree: Space, addr: nat, size: nat)
    requires Extends(tree0, tree)
    ensures TablesNeeded(tree, addr, size) <= TablesNeeded(tree0, addr, size)
    ensures Unshared(tree0, addr, size) <==> Unshared(tree, addr, size)
  {
    SubsetSize(Missing(tree, SlotsFor(addr, size)), Missing(tree0, SlotsFor(addr, size)));
  }

  lemma {:induction false} SubsetSize(a: set<Slot>, b: set<Slot>)
    requires a <= b
    ensures |a| <= |b|
  {
    if a != {} {
      var x :| x in a;
      SubsetSize(a - {x}, b - {x});
    }
  }

  /** What the outcome of mapping a run says about the pages that were free before. */
  ghost predicate Affordable(r: MemResult, tree0: Space, lists0: Lists, addr: nat, size: nat) {
    match r
    case Ok => FreePages(lists0) >= TablesNeeded(tree0, addr, size) && Unshared(tree0, addr, size)
    case OutOfMemory => FreePages(lists0) < TablesNeeded(tree0, addr, size)
    case PageTableMissing => !Unshared(tree0, addr, size)
  }

  lemma RanOut(tree0: Space, tree: Space, lists0: Lists, lists: Lists, addr: nat, size: nat, va: nat)
    requires Paid(tree0, tree, lists0, lists, SlotsFor(addr, size)) && addr <= va < addr + size && va % PAGE_SIZE == 0
    requires FreePages(lists) == 0 && Lacks(tree, Slot0(VpnOf(va)))
    ensures Affordable(OutOfMemory, tree0, lists0, addr, size)
  {
    hide FreePages, Lacks;
    OwnSlots(addr, size, va);
    assert Slot0(VpnOf(va)) in Missing(tree, SlotsFor(addr, size));
  }

  lemma AllThere(tree0: Space, tree: Space, lists0: Lists, lists: Lists, addr: nat, size: nat)
    requires Paid(tree0, tree, lists0, lists, SlotsFor(addr, size)) && Extends(tree0, tree)
    requires forall va: nat :: addr <= va < addr + size && va % PAGE_SIZE == 0 ==> HasLeafTable(tree, VpnOf(va))
    ensures Affordable(Ok, tree0, lists0, addr, size)
  {
    hide FreePages, Lacks, HasLeafTable, SlotsFor;
    PreparedNeedsNone(tree, addr, size);
    NeedsNoMore(tree0, tree, addr, size);
  }

  /** The kernel's memory state as far as mapping pages can change it. */
  datatype Snapshot = Snapshot(tree: Space, live: set<Block>, page: map<nat, Page>)

  /** From `s0` to `s`, the first `done` bytes were mapped; only table pages became live. */
  ghost predicate MappedSince(s0: Snapshot, s: Snapshot, kernel: map<nat, Table>, addr: nat, frames: seq<Frame>,
      flags: Flags, done: nat) {
    && Progress(s0.tree, s.tree, kernel, addr, frames, flags, done)
    && Grew(s0.live, s.live, s0.tree.tables, s.tree.tables)
    && LiveKept(s0.page, s.page, s0.live)
  }

  ghost function Now(space: AddressSpace): Snapshot
    reads space, space.buddy, space.buddy.ram
  {
    Snapshot(space.Tree(), space.buddy.state.live, space.buddy.ram.page)
  }

  /** `user_map` for one page of a run. */
  method MapOne(space: AddressSpace, addr: nat, frames: seq<Frame>, flags: Flags, done: nat, pa: nat,
      ghost s0: Snapshot, ghost lists0: Lists) returns (r: MemResult)
    requires space.Valid() && PageVa(addr + done) && pa == PhysAtOffset(frames, done) && done < TotalSize(frames)
    requires MappedSince(s0, Now(space), space.kernel, addr, frames, flags, done)
    requires Paid(s0.tree, Now(space).tree, lists0, space.buddy.state.lists, SlotsFor(addr, TotalSize(frames)))
    modifies space, space.buddy, space.buddy.ram
    ensures space.Valid()
    ensures MappedSince(s0, Now(space), space.kernel, addr, frames, flags, if r == Ok then done + PAGE_SIZE else done)
    ensures Prepared(s0.tree, addr, TotalSize(frames)) ==> r == Ok && space.buddy.state == old(space.buddy.state)
    ensures Paid(s0.tree, Now(space).tree, lists0, space.buddy.state.lists, SlotsFor(addr, TotalSize(frames)))
    ensures r != Ok ==> Affordable(r, s0.tree, lists0, addr, TotalSize(frames))
  {
    hide FreePages, Lacks, SlotsFor, IsShared, TablesNeeded, Missing, AddressSpace.Valid, TotalSize;
    ghost var s1, lists1 := Now(space), space.buddy.state.lists;
    ghost var slots := SlotsFor(addr, TotalSize(frames));
    r := space.Map(addr + done, pa, flags);
    OwnSlots(addr, TotalSize(frames), addr + done);
    PaidMore(s1.tree, space.Tree(), lists1, space.buddy.state.lists,
        {Slot1(VpnOf(addr + done)), Slot0(VpnOf(addr + done))}, slots);
    PaidTrans(s0.tree, s1.tree, space.Tree(), lists0, lists1, space.buddy.state.lists, slots);
    if r == OutOfMemory {
      RanOut(s0.tree, space.Tree(), lists0, space.buddy.state.lists, addr, TotalSize(frames), addr + done);
    }
    if r == Ok {
      ProgressStep(s0.tree, s1.tree, space.Tree(), space.kernel, addr, frames, flags, done);
    }
    GrewTrans(s0.live, s1.live, space.buddy.state.live, s0.tree.tables, s1.tree.tables, space.tables);
    LiveKeptSubset(s1.page, space.buddy.ram.page, s1.live, s0.live);
    LiveKeptTrans(s0.page, s1.page, space.buddy.ram.page, s0.live);
  }

  lemma WindowPage(addr: nat, size: nat, done: nat)
    requires addr % PAGE_SIZE == 0 && done % PAGE_SIZE == 0 && done < size
    requires IsCanonicalUserRange(addr, addr + size) && addr + size <= ADDRESS_LIMIT
    ensures PageVa(addr + done)
  {
    PageSum(addr, done);
  }

  /** `done` bytes are `step` bytes into frame `i`. */
  ghost predicate Position(frames: seq<Frame>, i: nat, step: nat, done: nat) {
    && i <= |frames| && done == TotalSize(frames[..i]) + step && done % PAGE_SIZE == 0 && step % PAGE_SIZE == 0
    && (if i < |frames| then step <= frames[i].size else step == 0)
  }

  lemma PositionNext(frames: seq<Frame>, i: nat, step: nat, done: nat)
    requires AreFrames(frames) && Position(frames, i, step, done) && i < |frames|
    ensures done <= TotalSize(frames) && done % PAGE_SIZE == 0 && step <= frames[i].size && PAGE_SIZE > 0
    ensures step < frames[i].size ==>
              && done < TotalSize(frames) && PhysAtOffset(frames, done) == frames[i].start + step
              && Position(frames, i, step + PAGE_SIZE, done + PAGE_SIZE)
    ensures step == frames[i].size ==> Position(frames, i + 1, 0, done)
  {
    TotalPrefix(frames, i);
    FrameAligned(frames[i]);
    if step < frames[i].size {
      PhysSplit(frames, i, step);
      NextPage(step, frames[i].size);
      PageSum(done, PAGE_SIZE);
    }
  }

  lemma PositionEnds(frames: seq<Frame>, step: nat, done: nat)
    ensures Position(frames, 0, 0, 0) && 0 % PAGE_SIZE == 0
    ensures Position(frames, |frames|, step, done) ==> done == TotalSize(frames) && done % PAGE_SIZE == 0
  {
    assert frames[..0] == [] && frames[..|frames|] == frames;
  }

  lemma NothingMapped(s: Snapshot, kernel: map<nat, Table>, addr: nat, frames: seq<Frame>, flags: Flags)
    ensures MappedSince(s, s, kernel, addr, frames, flags, 0)
  {
    GrewSame(s.live, s.tree.tables, s.tree.tables);
  }

  lemma MappedAffordable(s0: Snapshot, s: Snapshot, lists0: Lists, lists: Lists, kernel: map<nat, Table>, addr: nat,
      frames: seq<Frame>, flags: Flags)
    requires MappedSince(s0, s, kernel, addr, frames, flags, TotalSize(frames)) && addr % PAGE_SIZE == 0
    requires IsCanonicalUserRange(addr, addr + TotalSize(frames)) && addr + TotalSize(frames) <= ADDRESS_LIMIT
    requires Paid(s0.tree, s.tree, lists0, lists, SlotsFor(addr, TotalSize(frames)))
    ensures Affordable(Ok, s0.tree, lists0, addr, TotalSize(frames))
  {
    hide Affordable, Paid, HasLeafTable, WalkIn, SlotsFor, TotalSize;
    forall va: nat | addr <= va < addr + TotalSize(frames) && va % PAGE_SIZE == 0
      ensures HasLeafTable(s.tree, VpnOf(va))
    {
      assert PageVa(va);
    }
    AllThere(s0.tree, s.tree, lists0, lists, addr, TotalSize(frames));
  }

  /** Map the frames page by page from `addr` on, stopping at the first failure. */
  method MapPages(space: AddressSpace, addr: nat, frames: seq<Frame>, flags: Flags) returns (r: MemResult, done: nat)
    requires space.Valid() && AreFrames(frames) && addr % PAGE_SIZE == 0
    requires IsCanonicalUserRange(addr, addr + TotalSize(frames)) && addr + TotalSize(frames) <= ADDRESS_LIMIT
    modifies space, space.buddy, space.buddy.ram
    ensures space.Valid() && done <= TotalSize(frames) && done % PAGE_SIZE == 0
    ensures r == Ok ==> done == TotalSize(frames)
    ensures MappedSince(old(Now(space)), Now(space), space.kernel, addr, frames, flags, done)
    ensures old(Prepared(Now(space).tree, addr, TotalSize(frames))) ==>
              r == Ok && space.buddy.state == old(space.buddy.state)
    ensures Affordable(r, old(Now(space).tree), old(space.buddy.state.lists), addr, TotalSize(frames))
  {
    hide *;
    ghost var s0, lists0 := Now(space), space.buddy.state.lists;
    PaidNothing(s0.tree, lists0, SlotsFor(addr, TotalSize(frames)));
    NothingMapped(s0, space.kernel, addr, frames, flags);
    PositionEnds(frames, 0, 0);
    var i: nat, step: nat := 0, 0;
    done := 0;
    while i < |frames|
      invariant space.Valid() && i <= |frames| && Position(frames, i, step, done) && done <= TotalSize(frames)
      invariant MappedSince(s0, Now(space), space.kernel, addr, frames, flags, done)
      invariant Prepared(s0.tree, addr, TotalSize(frames)) ==> space.buddy.state == old(space.buddy.state)
      invariant Paid(s0.tree, Now(space).tree, lists0, space.buddy.state.lists, SlotsFor(addr, TotalSize(frames)))
      decreases |frames| - i, if i < |frames| then frames[i].size - step else 0
    {
      PositionNext(frames, i, step, done);
      if step < frames[i].size {
        WindowPage(addr, TotalSize(frames), done);
        r := MapOne(space, addr, frames, flags, done, frames[i].start + step, s0, lists0);
        if r != Ok {
          return;
        }
        step, done := step + PAGE_SIZE, done + PAGE_SIZE;
        PositionNext(frames, i, step, done);
      } else {
        i, step := i + 1, 0;
      }
    }
    PositionEnds(frames, step, done);
    MappedAffordable(s0, Now(space), lists0, space.buddy.state.lists, space.kernel, addr, frames, flags);
    r := Ok;
  }
}
