/** `fork`: a deep copy of a task's memory set. */
module Fork {
  import opened Memory
  import opened BuddySpec
  import opened BuddyProperties
  import opened Buddy
  import opened Frames
  import opened Supplies
  import opened Sv39
  import opened AddressSpaces
  import opened Protection
  import opened Ranges
  import opened MappingTable
  import opened PageMapping
  import opened MemoryMap

  // ----- cloning frames -----

  /** Frame `a` holds in `page` what frame `b` held in `page0`, up to `done` bytes. */
  ghost predicate SameFrame(page: map<nat, Page>, a: Frame, page0: map<nat, Page>, b: Frame, done: nat) {
    forall off: nat :: off < done && off % PAGE_SIZE == 0 ==> At(page, a.start + off) == At(page0, b.start + off)
  }

  /** Frames of the same sizes with the same contents, one by one. */
  ghost predicate SameRun(page: map<nat, Page>, a: seq<Frame>, page0: map<nat, Page>, b: seq<Frame>) {
    Sizes(a) == Sizes(b) && forall i :: 0 <= i < |a| ==> SameFrame(page, a[i], page0, b[i], b[i].size)
  }

  lemma SizesEqual(a: seq<Frame>, b: seq<Frame>)
    requires Sizes(a) == Sizes(b)
    ensures |a| == |b| && forall i :: 0 <= i < |a| ==> a[i].size == b[i].size
  {
    assert |Sizes(a)| == |Sizes(b)|;
    forall i | 0 <= i < |a| ensures a[i].size == b[i].size {
      assert Sizes(a)[i] == Sizes(b)[i];
    }
  }

  lemma {:induction false} SameTotal(a: seq<Frame>, b: seq<Frame>)
    requires Sizes(a) == Sizes(b)
    ensures TotalSize(a) == TotalSize(b)
    decreases a
  {
    SizesEqual(a, b);
    if a != [] {
      assert Sizes(a[1..]) == Sizes(a)[1..] && Sizes(b[1..]) == Sizes(b)[1..];
      SameTotal(a[1..], b[1..]);
    }
  }

  /** The run shows the same page at every page offset. */
  lemma {:induction false} SameRunAt(page: map<nat, Page>, a: seq<Frame>, page0: map<nat, Page>, b: seq<Frame>,
      off: nat)
    requires SameRun(page, a, page0, b) && AreFrames(b) && off % PAGE_SIZE == 0 && off < TotalSize(b)
    ensures At(page, PhysAtOffset(a, off)) == At(page0, PhysAtOffset(b, off))
    decreases a
  {
    SizesEqual(a, b);
    FrameAligned(b[0]);
    if off < b[0].size {
      assert SameFrame(page, a[0], page0, b[0], b[0].size);
    } else {
      assert Sizes(a[1..]) == Sizes(a)[1..] && Sizes(b[1..]) == Sizes(b)[1..];
      PageDiff(off, b[0].size);
      assert SameRun(page, a[1..], page0, b[1..]) by {
        forall i | 0 <= i < |a[1..]| ensures SameFrame(page, a[1..][i], page0, b[1..][i], b[1..][i].size) {
          assert SameFrame(page, a[i + 1], page0, b[i + 1], b[i + 1].size);
        }
      }
      SameRunAt(page, a[1..], page0, b[1..], off - b[0].size);
    }
  }

  /** A page of a live block: present, and of no other live block. */
  lemma FramePage(lists: Lists, live: set<Block>, page: map<nat, Page>, f: Frame, off: nat)
    requires Inv(lists, live) && PagesPresent(page, lists, live) && IsFrame(f) && BlockOf(f) in live
    requires off % PAGE_SIZE == 0 && off < f.size
    ensures PageOf(BlockOf(f), f.start + off) && f.start + off in page
  {
    assert Held(lists, live, BlockOf(f));
    FrameAligned(f);
    assert f.start % PAGE_SIZE == 0;
    PageSum(f.start, off);
  }

  /** `Frame::try_clone`: a block of the same size with the same contents. */
  method CloneFrame(buddy: BuddyAllocator, f: Frame) returns (r: Option<Frame>)
    requires buddy.Valid() && IsFrame(f) && BlockOf(f) in buddy.state.live
    modifies buddy, buddy.ram
    ensures buddy.Valid() && LiveKept(old(buddy.ram.page), buddy.ram.page, old(buddy.state.live))
    ensures r.None? ==> buddy.state == old(buddy.state)
    ensures r.Some? ==>
              && r.value.size == f.size && IsFrame(r.value) && BlockOf(r.value) !in old(buddy.state.live)
              && buddy.state.live == old(buddy.state.live) + {BlockOf(r.value)}
              && SameFrame(buddy.ram.page, r.value, old(buddy.ram.page), f, f.size)
    ensures Supplied(old(buddy.state.lists), [SizeToOrder(f.size)], r.Some?, buddy.state.lists)
  {
    hide Supplied;
    ghost var page0, live0 := buddy.ram.page, buddy.state.live;
    r := AllocFrame(buddy, f.size);
    if r.None? {
      return;
    }
    ghost var state1 := buddy.state;
    var off: nat := 0;
    while off < f.size
      invariant off % PAGE_SIZE == 0 && buddy.Valid() && buddy.state == state1 && off <= f.size
      invariant LiveKept(page0, buddy.ram.page, live0) && SameFrame(buddy.ram.page, r.value, page0, f, off)
    {
      CopyFramePage(buddy, r.value, f, off, page0, live0);
      FrameAligned(f);
      NextPage(off, f.size);
      off := off + PAGE_SIZE;
    }
  }

  /** Copy one page from frame `f` to the new frame `g`. */
  method CopyFramePage(buddy: BuddyAllocator, g: Frame, f: Frame, off: nat, ghost page0: map<nat, Page>,
      ghost live0: set<Block>)
    requires buddy.Valid() && IsFrame(f) && IsFrame(g) && g.size == f.size && BlockOf(f) in live0
              && BlockOf(g) !in live0
    requires buddy.state.live == live0 + {BlockOf(g)} && off % PAGE_SIZE == 0 && off < f.size
    requires LiveKept(page0, buddy.ram.page, live0) && SameFrame(buddy.ram.page, g, page0, f, off)
    modifies buddy.ram
    ensures buddy.Valid()
    ensures LiveKept(page0, buddy.ram.page, live0) && SameFrame(buddy.ram.page, g, page0, f, off + PAGE_SIZE)
  {
    ghost var page1, lists, live := buddy.ram.page, buddy.state.lists, buddy.state.live;
    FramePage(lists, live, page1, f, off);
    FramePage(lists, live, page1, g, off);
    var p := g.start + off;
    var contents := buddy.ram.page[f.start + off];
    assert At(page0, f.start + off) == contents;
    buddy.Store(BlockOf(g), p, contents);
    StoreNew(lists, live0, page0, page1, g, p, contents);
    SameFrameStep(page1, g, page0, f, off);
  }

  lemma StoreNew(lists: Lists, live0: set<Block>, page0: map<nat, Page>, page1: map<nat, Page>, g: Frame, p: nat,
      contents: Page)
    requires IsFrame(g) && Inv(lists, live0 + {BlockOf(g)}) && BlockOf(g) !in live0 && PageOf(BlockOf(g), p)
              && p in page1
    requires LiveKept(page0, page1, live0)
    ensures LiveKept(page0, page1[p := contents], live0)
  {
    forall c, q | c in live0 && PageOf(c, q) && q in page0 ensures q != p {
      if q == p {
        PageOfOne(lists, live0 + {BlockOf(g)}, BlockOf(g), c, p);
      }
    }
  }

  lemma SameFrameStep(page: map<nat, Page>, a: Frame, page0: map<nat, Page>, b: Frame, done: nat)
    requires SameFrame(page, a, page0, b, done) && done % PAGE_SIZE == 0
    ensures SameFrame(page[a.start + done := At(page0, b.start + done)], a, page0, b, done + PAGE_SIZE)
  {
    var page' := page[a.start + done := At(page0, b.start + done)];
    forall off: nat | off < done + PAGE_SIZE && off % PAGE_SIZE == 0
        ensures At(page', a.start + off) == At(page0, b.start + off) {
      if off > done {
        PageGap(done, off);
      }
    }
  }

  /** Contents kept in a set of blocks are kept in each frame made of one of them. */
  lemma KeptFrame(lists: Lists, live: set<Block>, kept: set<Block>, page: map<nat, Page>, page': map<nat, Page>,
      f: Frame)
    requires Inv(lists, live) && IsFrame(f) && BlockOf(f) in live && BlockOf(f) in kept && LiveKept(page, page', kept)
    ensures SameFrame(page', f, page, f, f.size)
  {
    assert Held(lists, live, BlockOf(f));
    forall off: nat | off < f.size && off % PAGE_SIZE == 0 ensures At(page', f.start + off) == At(page, f.start + off) {
      PageSum(f.start, off);
      assert PageOf(BlockOf(f), f.start + off);
    }
  }

  lemma SameFrameTrans(p2: map<nat, Page>, a: Frame, p1: map<nat, Page>, b: Frame, p0: map<nat, Page>, c: Frame,
      size: nat)
    requires SameFrame(p2, a, p1, b, size) && SameFrame(p1, b, p0, c, size)
    ensures SameFrame(p2, a, p0, c, size)
  {
  }

  /** The clones of the first frames, gathered so far. */
  ghost predicate Cloning(page: map<nat, Page>, live: set<Block>, c: seq<Frame>, page0: map<nat, Page>,
      live0: set<Block>, frames: seq<Frame>, i: nat) {
    && i <= |frames| && Gathered(c, live0, live) && SameRun(page, c, page0, frames[..i]) && LiveKept(page0, page, live0)
  }

  lemma CloneStep(lists: Lists, live: set<Block>, page: map<nat, Page>, live1: set<Block>, page1: map<nat, Page>,
      c: seq<Frame>, page0: map<nat, Page>, live0: set<Block>, frames: seq<Frame>, i: nat, g: Frame)
    requires Cloning(page1, live1, c, page0, live0, frames, i) && i < |frames| && AreFrames(frames)
              && Blocks(frames) <= live0
    requires Inv(lists, live) && LiveKept(page1, page, live1)
    requires IsFrame(g) && g.size == frames[i].size && BlockOf(g) !in live1 && live == live1 + {BlockOf(g)}
    requires SameFrame(page, g, page1, frames[i], frames[i].size)
    ensures Cloning(page, live, c + [g], page0, live0, frames, i + 1)
  {
    var f, more := frames[i], c + [g];
    GatherOne(c, live0, live1, g);
    SizesEqual(c, frames[..i]);
    assert Sizes(more) == Sizes(frames[..i + 1]);
    LiveKeptSubset(page1, page, live1, live0);
    LiveKeptTrans(page0, page1, page, live0);
    assert BlockOf(f) in Blocks(frames);
    KeptFrame(lists, live, live0, page0, page1, f);
    SameFrameTrans(page, g, page1, f, page0, f, f.size);
    forall k | 0 <= k < |more| ensures SameFrame(page, more[k], page0, frames[..i + 1][k], frames[..i + 1][k].size) {
      if k < i {
        assert BlockOf(c[k]) in Blocks(c) && SameFrame(page1, c[k], page0, frames[..i][k], frames[..i][k].size);
        KeptFrame(lists, live, live1, page1, page, c[k]);
        SameFrameTrans(page, c[k], page1, c[k], page0, frames[k], c[k].size);
      }
    }
  }

  /** The orders of the blocks of some frames, one by one. */
  function FrameOrders(frames: seq<Frame>): seq<nat> {
    if frames == [] then []
    else [if frames[0].size > 0 then SizeToOrder(frames[0].size) else 0] + FrameOrders(frames[1..])
  }

  lemma FrameOrdersStep(lists: Lists, frames: seq<Frame>, i: nat)
    requires i < |frames| && frames[i].size > 0
    ensures Supply(lists, FrameOrders(frames[i..])) ==
            match Supply(lists, [SizeToOrder(frames[i].size)])
            case None => None
            case Some(l) => Supply(l, FrameOrders(frames[i + 1..]))
  {
    hide Supply, SizeToOrder;
    assert frames[i..][1..] == frames[i + 1..];
    SupplyConcat(lists, [SizeToOrder(frames[i].size)], FrameOrders(frames[i + 1..]));
  }

  /** Clone the frames of one mapping, or give back what was allocated. */
  method CloneRun(buddy: BuddyAllocator, frames: seq<Frame>) returns (r: Option<seq<Frame>>)
    requires buddy.Valid() && AreFrames(frames) && Blocks(frames) <= buddy.state.live
    modifies buddy, buddy.ram
    ensures buddy.Valid() && LiveKept(old(buddy.ram.page), buddy.ram.page, old(buddy.state.live))
    ensures r.None? ==> buddy.state.live == old(buddy.state.live)
    ensures r.Some? ==>
              && Gathered(r.value, old(buddy.state.live), buddy.state.live)
              && SameRun(buddy.ram.page, r.value, old(buddy.ram.page), frames)
    ensures Supplied(old(buddy.state.lists), FrameOrders(frames), r.Some?, buddy.state.lists)
  {
    hide SameRun, SameFrame, LiveKept, Supply, FrameOrders;
    ghost var page0, live0, lists0 := buddy.ram.page, buddy.state.live, buddy.state.lists;
    assert frames[0..] == frames;
    var c: seq<Frame> := [];
    var i := 0;
    NothingCloned(page0, live0, frames);
    while i < |frames|
      invariant buddy.Valid() && i <= |frames|
      invariant Cloning(buddy.ram.page, buddy.state.live, c, page0, live0, frames, i)
      invariant Supply(lists0, FrameOrders(frames)) == Supply(buddy.state.lists, FrameOrders(frames[i..]))
    {
      FrameOrdersStep(buddy.state.lists, frames, i);
      ghost var page1, live1 := buddy.ram.page, buddy.state.live;
      assert BlockOf(frames[i]) in Blocks(frames);
      var g := CloneFrame(buddy, frames[i]);
      if g.None? {
        LiveKeptSubset(page1, buddy.ram.page, live1, live0);
        LiveKeptTrans(page0, page1, buddy.ram.page, live0);
        GiveUp(buddy, c, page0, live0);
        return None;
      }
      CloneStep(buddy.state.lists, buddy.state.live, buddy.ram.page, live1, page1, c, page0, live0, frames, i, g.value);
      c := c + [g.value];
      i := i + 1;
    }
    assert frames[..i] == frames && frames[i..] == [];
    NothingAsked(buddy.state.lists);
    r := Some(c);
  }

  lemma NothingAsked(lists: Lists)
    ensures Supply(lists, FrameOrders([])) == Some(lists) && Supply(lists, MappingOrders([])) == Some(lists)
  {
  }

  lemma NothingCloned(page: map<nat, Page>, live: set<Block>, frames: seq<Frame>)
    ensures Cloning(page, live, [], page, live, frames, 0)
  {
    assert frames[..0] == [];
  }

  // ----- cloning all mappings -----

  /** The orders of the blocks of all mappings. */
  function MappingOrders(ms: seq<UserMapping>): seq<nat> {
    if ms == [] then [] else FrameOrders(ms[0].frames) + MappingOrders(ms[1..])
  }

  lemma MappingOrdersStep(lists: Lists, ms: seq<UserMapping>, k: nat)
    requires k < |ms|
    ensures Supply(lists, MappingOrders(ms[k..])) ==
            match Supply(lists, FrameOrders(ms[k].frames))
            case None => None
            case Some(l) => Supply(l, MappingOrders(ms[k + 1..]))
  {
    hide Supply, FrameOrders;
    assert ms[k..][1..] == ms[k + 1..];
    SupplyConcat(lists, FrameOrders(ms[k].frames), MappingOrders(ms[k + 1..]));
  }

  ghost predicate RunsOk(runs: seq<seq<Frame>>) {
    && (forall k :: 0 <= k < |runs| ==> AreFrames(runs[k]) && DistinctFrames(runs[k]))
    && (forall j, k :: 0 <= j < k < |runs| ==> Blocks(runs[j]) !! Blocks(runs[k]))
  }

  /** The blocks of the runs from number `n` on. */
  ghost function RunBlocks(runs: seq<seq<Frame>>, n: nat): set<Block>
    requires RunsOk(runs)
  {
    set k, b | n <= k < |runs| && b in Blocks(runs[k]) :: b
  }

  lemma RunsAppend(runs: seq<seq<Frame>>, c: seq<Frame>)
    requires RunsOk(runs) && AreFrames(c) && DistinctFrames(c) && Blocks(c) !! RunBlocks(runs, 0)
    ensures RunsOk(runs + [c]) && RunBlocks(runs + [c], 0) == RunBlocks(runs, 0) + Blocks(c)
  {
    var all := runs + [c];
    assert all[|runs|] == c && forall k :: 0 <= k < |runs| ==> all[k] == runs[k];
    forall k | 0 <= k < |runs| ensures Blocks(runs[k]) !! Blocks(c) {
      assert forall b :: b in Blocks(runs[k]) ==> b in RunBlocks(runs, 0);
    }
    assert RunsOk(all);
    forall b | b in RunBlocks(runs, 0) ensures b in RunBlocks(all, 0) {
      var k :| 0 <= k < |runs| && b in Blocks(runs[k]);
      assert b in Blocks(all[k]);
    }
    forall b | b in Blocks(c) ensures b in RunBlocks(all, 0) {
      assert b in Blocks(all[|runs|]);
    }
  }

  lemma RunBlocksSplit(runs: seq<seq<Frame>>, n: nat)
    requires RunsOk(runs) && n < |runs|
    ensures RunBlocks(runs, n) == Blocks(runs[n]) + RunBlocks(runs, n + 1) && Blocks(runs[n]) !! RunBlocks(runs, n + 1)
  {
  }

  /** Every run has the contents of its mapping. */
  ghost predicate SameRuns(page: map<nat, Page>, runs: seq<seq<Frame>>, page0: map<nat, Page>, ms: seq<UserMapping>) {
    |runs| <= |ms| && forall k :: 0 <= k < |runs| ==> SameRun(page, runs[k], page0, ms[k].frames)
  }

  ghost predicate CloningAll(page: map<nat, Page>, live: set<Block>, runs: seq<seq<Frame>>, page0: map<nat, Page>,
      live0: set<Block>, ms: seq<UserMapping>) {
    && RunsOk(runs) && RunBlocks(runs, 0) !! live0 && live == live0 + RunBlocks(runs, 0)
    && SameRuns(page, runs, page0, ms) && LiveKept(page0, page, live0)
  }

  lemma KeptRun(lists: Lists, live: set<Block>, kept: set<Block>, page: map<nat, Page>, page': map<nat, Page>,
      c: seq<Frame>, page0: map<nat, Page>, frames: seq<Frame>)
    requires Inv(lists, live) && AreFrames(c) && Blocks(c) <= kept <= live && LiveKept(page, page', kept)
              && SameRun(page, c, page0, frames)
    ensures SameRun(page', c, page0, frames)
  {
    SizesEqual(c, frames);
    forall i | 0 <= i < |c| ensures SameFrame(page', c[i], page0, frames[i], frames[i].size) {
      assert BlockOf(c[i]) in Blocks(c);
      KeptFrame(lists, live, kept, page, page', c[i]);
      SameFrameTrans(page', c[i], page, c[i], page0, frames[i], frames[i].size);
    }
  }

  lemma KeptRuns(lists: Lists, live: set<Block>, kept: set<Block>, page: map<nat, Page>, page': map<nat, Page>,
      runs: seq<seq<Frame>>, page0: map<nat, Page>, ms: seq<UserMapping>)
    requires Inv(lists, live) && RunsOk(runs) && RunBlocks(runs, 0) <= kept <= live && LiveKept(page, page', kept)
              && SameRuns(page, runs, page0, ms)
    ensures SameRuns(page', runs, page0, ms)
  {
    forall k | 0 <= k < |runs| ensures SameRun(page', runs[k], page0, ms[k].frames) {
      assert forall b :: b in Blocks(runs[k]) ==> b in RunBlocks(runs, 0);
      KeptRun(lists, live, kept, page, page', runs[k], page0, ms[k].frames);
    }
  }

  /** Cloning from kept frames is cloning from the original ones. */
  lemma RunEarlier(lists: Lists, live: set<Block>, page: map<nat, Page>, c: seq<Frame>, page1: map<nat, Page>,
      page0: map<nat, Page>, frames: seq<Frame>, live0: set<Block>)
    requires Inv(lists, live) && AreFrames(frames) && Blocks(frames) <= live0 <= live && LiveKept(page0, page1, live0)
              && SameRun(page, c, page1, frames)
    ensures SameRun(page, c, page0, frames)
  {
    SizesEqual(c, frames);
    forall i | 0 <= i < |c| ensures SameFrame(page, c[i], page0, frames[i], frames[i].size) {
      assert BlockOf(frames[i]) in Blocks(frames);
      KeptFrame(lists, live, live0, page0, page1, frames[i]);
      SameFrameTrans(page, c[i], page1, frames[i], page0, frames[i], frames[i].size);
    }
  }

  lemma CloneAllStep(lists: Lists, live: set<Block>, page: map<nat, Page>, live1: set<Block>, page1: map<nat, Page>,
      runs: seq<seq<Frame>>, c: seq<Frame>,
                     page0: map<nat, Page>, live0: set<Block>, ms: seq<UserMapping>)
    requires CloningAll(page1, live1, runs, page0, live0, ms) && |runs| < |ms| && Inv(lists, live)
              && LiveKept(page1, page, live1)
    requires AreFrames(ms[|runs|].frames) && Blocks(ms[|runs|].frames) <= live0
    requires Gathered(c, live1, live) && SameRun(page, c, page1, ms[|runs|].frames)
    ensures CloningAll(page, live, runs + [c], page0, live0, ms)
  {
    hide LiveKept, SameRun, Inv;
    RunsAppend(runs, c);
    KeptRuns(lists, live, live1, page1, page, runs, page0, ms);
    RunEarlier(lists, live, page, c, page1, page0, ms[|runs|].frames, live0);
    LiveKeptSubset(page1, page, live1, live0);
    LiveKeptTrans(page0, page1, page, live0);
  }

  /** Step two of `try_clone`: clone every frame of every mapping, or give everything back. */
  method CloneMappings(buddy: BuddyAllocator, ms: seq<UserMapping>) returns (r: Option<seq<seq<Frame>>>)
    requires buddy.Valid() && AllSound(ms) && AllBlocks(ms) <= buddy.state.live
    modifies buddy, buddy.ram
    ensures buddy.Valid() && LiveKept(old(buddy.ram.page), buddy.ram.page, old(buddy.state.live))
    ensures r.None? ==> buddy.state.live == old(buddy.state.live)
    ensures r.Some? ==>
              |r.value| == |ms| && CloningAll(buddy.ram.page, buddy.state.live, r.value, old(buddy.ram.page),
                  old(buddy.state.live), ms)
    ensures Supplied(old(buddy.state.lists), MappingOrders(ms), r.Some?, buddy.state.lists)
  {
    hide SameRun, LiveKept, SameRuns, Supply, MappingOrders, FrameOrders;
    ghost var page0, live0, lists0 := buddy.ram.page, buddy.state.live, buddy.state.lists;
    assert ms[0..] == ms;
    var runs: seq<seq<Frame>> := [];
    NoRuns(page0, live0, ms);
    while |runs| < |ms|
      invariant buddy.Valid() && |runs| <= |ms|
      invariant CloningAll(buddy.ram.page, buddy.state.live, runs, page0, live0, ms)
      invariant Supply(lists0, MappingOrders(ms)) == Supply(buddy.state.lists, MappingOrders(ms[|runs|..]))
    {
      MappingOrdersStep(buddy.state.lists, ms, |runs|);
      ghost var page1, live1 := buddy.ram.page, buddy.state.live;
      MappingBlocks(ms, |runs|);
      var c := CloneRun(buddy, ms[|runs|].frames);
      if c.None? {
        LiveKeptSubset(page1, buddy.ram.page, live1, live0);
        LiveKeptTrans(page0, page1, buddy.ram.page, live0);
        DropRuns(buddy, runs, page0, live0);
        return None;
      }
      CloneAllStep(buddy.state.lists, buddy.state.live, buddy.ram.page, live1, page1, runs, c.value, page0, live0, ms);
      runs := runs + [c.value];
    }
    assert ms[|runs|..] == [];
    NothingAsked(buddy.state.lists);
    r := Some(runs);
  }

  lemma NoRuns(page: map<nat, Page>, live: set<Block>, ms: seq<UserMapping>)
    ensures CloningAll(page, live, [], page, live, ms)
  {
    assert RunBlocks([], 0) == {};
  }

  lemma MappingBlocks(ms: seq<UserMapping>, k: nat)
    requires AllSound(ms) && k < |ms|
    ensures AreFrames(ms[k].frames) && Blocks(ms[k].frames) <= AllBlocks(ms)
  {
    assert forall b :: b in BlocksOf(ms[k]) ==> b in AllBlocks(ms);
  }

  /** The failure path: the runs cloned so far go out of scope. */
  method DropRuns(buddy: BuddyAllocator, runs: seq<seq<Frame>>, ghost page0: map<nat, Page>, ghost live0: set<Block>)
    requires buddy.Valid() && RunsOk(runs) && RunBlocks(runs, 0) !! live0
              && buddy.state.live == live0 + RunBlocks(runs, 0)
    requires LiveKept(page0, buddy.ram.page, live0)
    modifies buddy, buddy.ram
    ensures buddy.Valid() && buddy.state.live == live0 && LiveKept(page0, buddy.ram.page, live0)
  {
    hide LiveKept;
    var n := 0;
    while n < |runs|
      invariant n <= |runs| && buddy.Valid() && RunBlocks(runs, n) !! live0
                && buddy.state.live == live0 + RunBlocks(runs, n)
      invariant LiveKept(page0, buddy.ram.page, live0)
    {
      ghost var page1 := buddy.ram.page;
      RunBlocksSplit(runs, n);
      DropFrames(buddy, runs[n]);
      LiveKeptSubset(page1, buddy.ram.page, buddy.state.live, live0);
      LiveKeptTrans(page0, page1, buddy.ram.page, live0);
      n := n + 1;
    }
    assert RunBlocks(runs, n) == {};
  }

  // ----- the child's mapping table -----

  function Child(m: UserMapping, frames: seq<Frame>): UserMapping { UserMapping(m.va, frames, m.flags) }

  function Children(ms: seq<UserMapping>, runs: seq<seq<Frame>>): seq<UserMapping>
    requires |ms| == |runs|
  {
    seq(|ms|, k requires 0 <= k < |ms| => Child(ms[k], runs[k]))
  }

  lemma ChildSound(lists: Lists, live: set<Block>, m: UserMapping, c: seq<Frame>, page: map<nat, Page>,
      page0: map<nat, Page>)
    requires Inv(lists, live) && Sound(m) && AreFrames(c) && DistinctFrames(c) && Blocks(c) <= live
              && SameRun(page, c, page0, m.frames)
    ensures Sound(Child(m, c)) && RangeOf(Child(m, c)) == RangeOf(m) && BlocksOf(Child(m, c)) == Blocks(c)
  {
    SizesEqual(c, m.frames);
    SameTotal(c, m.frames);
    LiveFrames(lists, live, c);
  }

  /** The child's mappings are the parent's, on frames of their own. */
  lemma ChildOwns(lists: Lists, live: set<Block>, ms: seq<UserMapping>, runs: seq<seq<Frame>>, page: map<nat, Page>,
      page0: map<nat, Page>, live0: set<Block>, reserved: set<Block>)
    requires Inv(lists, live) && AllSound(ms) && |runs| == |ms| && CloningAll(page, live, runs, page0, live0, ms)
              && reserved <= live0
    ensures Owns(Children(ms, runs), live, reserved) && RangesOf(Children(ms, runs)) == RangesOf(ms)
    ensures AllBlocks(Children(ms, runs)) == RunBlocks(runs, 0)
  {
    var cs := Children(ms, runs);
    forall k | 0 <= k < |cs| ensures Sound(cs[k]) && RangeOf(cs[k]) == RangeOf(ms[k])
        && BlocksOf(cs[k]) == Blocks(runs[k]) && Blocks(runs[k]) <= RunBlocks(runs, 0) {
      assert forall b :: b in Blocks(runs[k]) ==> b in RunBlocks(runs, 0);
      ChildSound(lists, live, ms[k], runs[k], page, page0);
    }
    assert AllSound(cs);
    assert AllBlocks(cs) == RunBlocks(runs, 0);
  }

  /** The child sees what the parent saw. */
  lemma ChildView(ms: seq<UserMapping>, runs: seq<seq<Frame>>, page: map<nat, Page>, page0: map<nat, Page>, va: nat)
    requires AllSound(ms) && |runs| == |ms| && SameRuns(page, runs, page0, ms)
              && RangesOf(Children(ms, runs)) == RangesOf(ms)
    ensures ViewOf(Children(ms, runs), page, va) == ViewOf(ms, page0, va)
  {
    hide RangesOf, SameRun, PhysOf, At, Sound;
    SameRangesFind(Children(ms, runs), ms, va);
    var i := Find(ms, va);
    if i < |ms| {
      ChildPage(ms[i], runs[i], page, page0, va);
    }
  }

  lemma ChildPage(m: UserMapping, c: seq<Frame>, page: map<nat, Page>, page0: map<nat, Page>, va: nat)
    requires Sound(m) && SameRun(page, c, page0, m.frames) && InRange(m, va)
    ensures At(page, PhysOf(Child(m, c), va)) == At(page0, PhysOf(m, va))
  {
    hide SameRun, PhysAtOffset, At;
    SoundSize(m);
    PageDiff(va, RangeStart(m));
    SameRunAt(page, c, page0, m.frames, va - RangeStart(m));
  }

  /** Where a page is found depends on the ranges only. */
  lemma SameRangesFind(a: seq<UserMapping>, b: seq<UserMapping>, va: nat)
    requires RangesOf(a) == RangesOf(b)
    ensures |a| == |b| && Find(a, va) == Find(b, va)
  {
    assert |RangesOf(a)| == |RangesOf(b)|;
    forall k | 0 <= k < |a| ensures InRange(a[k], va) <==> InRange(b[k], va) {
      assert RangesOf(a)[k] == RangesOf(b)[k];
    }
  }

  // ----- the child's page tables -----

  /** A page's physical address, on a page boundary inside a block of the mapping. */
  lemma PhysPage(m: UserMapping, va: nat) returns (b: Block)
    requires Sound(m) && InRange(m, va)
    ensures b in BlocksOf(m) && PageOf(b, PhysOf(m, va)) && PhysOf(m, va) / PAGE_SIZE * PAGE_SIZE == PhysOf(m, va)
  {
    b := PhysOwned(m, va);
  }

  /** In a consistent memory set no page maps one of the space's own page tables. */
  lemma NeverOwnTable(ms: MemorySet, va: nat)
    requires ms.Valid() && PageVa(va)
    ensures !TargetsOwnTable(ms.space.Tree(), VpnOf(va))
  {
    var tree, q := ms.space.Tree(), VpnOf(va);
    if TargetsOwnTable(tree, q) {
      LeafTableNotShared(tree, q);
      LeafDecides(tree, ms.space.owner, ms.space.kernel, q);
      var i :| 0 <= i < |ms.mappings| && InRange(ms.mappings[i], va) && Rwx(ms.mappings[i].flags);
      assert Linked(tree, ms.space.kernel, ms.mappings[i], va);
      var ppn := PhysOf(ms.mappings[i], va) / PAGE_SIZE;
      assert ppn in tree.tables;
      OwnedIsNotTable(ms, i, va, ppn);
    }
  }

  /** With a leaf table, the walk is its entry. */
  lemma LeafDecides(s: Space, owner: map<nat, Slot>, kernel: map<nat, Table>, vpn: nat)
    requires TreeShaped(s, owner) && Placed(s, kernel) && IsVpn(vpn) && HasLeafTable(s, vpn)
    ensures 0 <= Vpn0(vpn) < ENTRIES && WalkIn(s, kernel, vpn) == Translated(s.tables[LeafTable(s, vpn)][Vpn0(vpn)])
  {
    VpnDigits(vpn, vpn);
    SetEntryWalk(s, owner, vpn, s.tables[LeafTable(s, vpn)][Vpn0(vpn)], kernel);
  }

  lemma OwnedIsNotTable(ms: MemorySet, i: nat, va: nat, ppn: nat)
    requires ms.Valid() && i < |ms.mappings| && InRange(ms.mappings[i], va)
              && ppn == PhysOf(ms.mappings[i], va) / PAGE_SIZE
    ensures ppn !in ms.space.tables
  {
    var tree := ms.space.Tree();
    var b := PhysPage(ms.mappings[i], va);
    if ppn in ms.space.tables {
      OrderSizes();
      var t, reserved := PageBlock(ppn), ReservedFor(tree, ms.space.rootPpn, ms.space.kernel);
      assert ppn in tree.tables.Keys + {ms.space.rootPpn} + ms.space.kernel.Keys;
      assert t in reserved && PageOf(t, PhysOf(ms.mappings[i], va));
      PageOfOne(ms.space.buddy.state.lists, ms.space.buddy.state.live, b, t, PhysOf(ms.mappings[i], va));
    }
  }

  lemma AgreesSame(tree0: Space, tree: Space, kernel: map<nat, Table>, ms: seq<UserMapping>)
    requires Agrees(tree0, kernel, ms) && AllSound(ms) && KeepsLeafTables(tree0, tree)
    requires forall q :: IsVpn(q) ==> IsShared(tree, q) == IsShared(tree0, q)
    requires forall va: nat :: PageVa(va) ==> WalkIn(tree, kernel, VpnOf(va)) == WalkIn(tree0, kernel, VpnOf(va))
    ensures Agrees(tree, kernel, ms)
  {
    forall i, va | 0 <= i < |ms| && InRange(ms[i], va) && Rwx(ms[i].flags) ensures Linked(tree, kernel, ms[i], va) {
      SoundSize(ms[i]);
      assert Linked(tree0, kernel, ms[i], va);
    }
  }

  /** Mapping the pages of one mapping to other frames replaces that mapping. */
  lemma AgreesReplace(tree0: Space, tree: Space, kernel: map<nat, Table>, ms: seq<UserMapping>, k: nat, m: UserMapping)
    requires Agrees(tree0, kernel, ms) && AllSound(ms) && Disjoint(RangesOf(ms)) && k < |ms|
    requires Sound(m) && RangeOf(m) == RangeOf(ms[k]) && m.flags == ms[k].flags
    requires Progress(tree0, tree, kernel, RangeStart(m), m.frames, m.flags, if Rwx(m.flags) then TotalSize(m.frames)
              else 0)
    ensures Agrees(tree, kernel, ms[k := m])
  {
    var h := ms[k := m];
    SoundSize(m);
    forall i, va | 0 <= i < |h| && InRange(h[i], va) && Rwx(h[i].flags) ensures Linked(tree, kernel, h[i], va) {
      SoundSize(h[i]);
      if i != k {
        assert Linked(tree0, kernel, ms[i], va);
        if InRange(ms[k], va) {
          RangesDisjoint(ms, i, k, va);
        }
      }
    }
    forall va: nat | PageVa(va) && !IsShared(tree, VpnOf(va)) && NoRwx(h, va)
        ensures WalkIn(tree, kernel, VpnOf(va)) == Fault {
      forall i | 0 <= i < |ms| ensures !(InRange(ms[i], va) && Rwx(ms[i].flags)) {
        assert !(InRange(h[i], va) && Rwx(h[i].flags));
      }
      assert NoRwx(ms, va);
    }
  }

  /** The first `n` mappings are the child's, the rest still the parent's. */
  ghost function Hybrid(ms: seq<UserMapping>, cs: seq<UserMapping>, n: nat): seq<UserMapping>
    requires |cs| == |ms| && n <= |ms|
  {
    cs[..n] + ms[n..]
  }

  lemma HybridStep(ms: seq<UserMapping>, cs: seq<UserMapping>, n: nat)
    requires |cs| == |ms| && n < |ms| && AllSound(ms) && AllSound(cs) && RangesOf(cs) == RangesOf(ms)
              && Disjoint(RangesOf(ms))
    ensures var h := Hybrid(ms, cs, n);
            && h[n] == ms[n] && Hybrid(ms, cs, n + 1) == h[n := cs[n]] && AllSound(h) && RangesOf(h) == RangesOf(ms)
            && RangeOf(cs[n]) == RangeOf(ms[n])
  {
    hide Sound, RangeOf;
    var h := Hybrid(ms, cs, n);
    HybridRanges(ms, cs, n);
    assert RangesOf(cs)[n] == RangesOf(ms)[n];
  }

  lemma HybridRanges(ms: seq<UserMapping>, cs: seq<UserMapping>, n: nat)
    requires |cs| == |ms| && n <= |ms| && RangesOf(cs) == RangesOf(ms)
    ensures RangesOf(Hybrid(ms, cs, n)) == RangesOf(ms)
  {
    hide RangeOf;
    var h := Hybrid(ms, cs, n);
    forall i | 0 <= i < |h| ensures RangeOf(h[i]) == RangesOf(ms)[i] {
      assert RangesOf(cs)[i] == RangesOf(ms)[i];
    }
  }

  /** What remapping one mapping in the child needs. */
  lemma RewriteReady(tree: Space, kernel: map<nat, Table>, ms: seq<UserMapping>, k: nat, m: UserMapping)
    requires Agrees(tree, kernel, ms) && AllSound(ms) && k < |ms| && Sound(m) && RangeOf(m) == RangeOf(ms[k])
              && m.flags == ms[k].flags
    ensures AreFrames(m.frames) && RangeStart(m) % PAGE_SIZE == 0
    ensures IsCanonicalUserRange(RangeStart(m), RangeStart(m) + TotalSize(m.frames))
              && RangeStart(m) + TotalSize(m.frames) <= ADDRESS_LIMIT
    ensures Rwx(m.flags) ==> Prepared(tree, RangeStart(m), TotalSize(m.frames))
  {
    SoundSize(m);
    if Rwx(m.flags) {
      forall va: nat | PageVa(va) && RangeStart(m) <= va < RangeStart(m) + TotalSize(m.frames)
          ensures HasLeafTable(tree, VpnOf(va)) {
        assert Linked(tree, kernel, ms[k], va);
      }
    }
  }

  /** Point one mapping's pages in the child at the child's frames; this cannot fail. */
  method RewriteOne(space: AddressSpace, ghost h: seq<UserMapping>, ghost k: nat, m: UserMapping)
    requires space.Valid() && Agrees(space.Tree(), space.kernel, h) && AllSound(h) && Disjoint(RangesOf(h)) && k < |h|
    requires Sound(m) && RangeOf(m) == RangeOf(h[k]) && m.flags == h[k].flags
    modifies space, space.buddy, space.buddy.ram
    ensures space.Valid() && Agrees(space.Tree(), space.kernel, h[k := m])
              && space.buddy.state == old(space.buddy.state)
    ensures space.tables.Keys == old(space.tables).Keys
    ensures LiveKept(old(space.buddy.ram.page), space.buddy.ram.page, space.buddy.state.live)
  {
    hide AddressSpace.Valid, Agrees, AllSound, Disjoint, Sound, RangesOf, LiveKept, Prepared, Progress,
        IsCanonicalUserRange, TotalSize, Rwx;
    ghost var s0 := Now(space);
    RewriteReady(s0.tree, space.kernel, h, k, m);
    NothingMapped(s0, space.kernel, RangeStart(m), m.frames, m.flags);
    if Rwx(m.flags) {
      var r, done := MapPages(space, RangeStart(m), m.frames, m.flags);
    }
    AgreesReplace(s0.tree, space.Tree(), space.kernel, h, k, m);
    SameTables(s0, Now(space));
  }

  lemma SameTables(s0: Snapshot, s: Snapshot)
    requires Grew(s0.live, s.live, s0.tree.tables, s.tree.tables) && s.live == s0.live
    ensures s.tree.tables.Keys == s0.tree.tables.Keys
  {
    var added := s.tree.tables.Keys - s0.tree.tables.Keys;
    assert forall p :: p in added ==> PageBlock(p) in TablePages(added);
    forall p | p in s.tree.tables.Keys ensures p in s0.tree.tables.Keys {
      assert p !in added;
    }
  }

  /** Step three: point the whole child at its own frames. */
  method Rewrite(space: AddressSpace, ms: seq<UserMapping>, runs: seq<seq<Frame>>) returns (cs: seq<UserMapping>)
    requires space.Valid() && Agrees(space.Tree(), space.kernel, ms) && AllSound(ms) && Disjoint(RangesOf(ms))
              && |runs| == |ms|
    requires AllSound(Children(ms, runs)) && RangesOf(Children(ms, runs)) == RangesOf(ms)
    modifies space, space.buddy, space.buddy.ram
    ensures space.Valid() && cs == Children(ms, runs) && Agrees(space.Tree(), space.kernel, cs)
    ensures space.buddy.state == old(space.buddy.state) && space.tables.Keys == old(space.tables).Keys
    ensures LiveKept(old(space.buddy.ram.page), space.buddy.ram.page, space.buddy.state.live)
  {
    hide AddressSpace.Valid, Agrees, AllSound, Disjoint, RangesOf, LiveKept, Sound, Children;
    ghost var all, page0, live := Children(ms, runs), space.buddy.ram.page, space.buddy.state.live;
    ChildrenAre(ms, runs);
    cs := [];
    var n := 0;
    assert Hybrid(ms, all, 0) == ms && cs == all[..0];
    KeptSelf(page0, live);
    while n < |ms|
      invariant n <= |ms| && space.Valid() && cs == all[..n] && Agrees(space.Tree(), space.kernel, Hybrid(ms, all, n))
      invariant space.buddy.state == old(space.buddy.state) && space.tables.Keys == old(space.tables).Keys
      invariant LiveKept(page0, space.buddy.ram.page, live)
    {
      ghost var page1 := space.buddy.ram.page;
      HybridStep(ms, all, n);
      OneSound(all, n);
      RewriteOne(space, Hybrid(ms, all, n), n, Child(ms[n], runs[n]));
      LiveKeptTrans(page0, page1, space.buddy.ram.page, live);
      cs := cs + [Child(ms[n], runs[n])];
      n := n + 1;
    }
    assert Hybrid(ms, all, n) == all && all[..n] == all;
  }

  lemma ChildrenAre(ms: seq<UserMapping>, runs: seq<seq<Frame>>)
    requires |runs| == |ms|
    ensures |Children(ms, runs)| == |ms| && forall k :: 0 <= k < |ms| ==> Children(ms, runs)[k] == Child(ms[k], runs[k])
  {
  }

  lemma OneSound(ms: seq<UserMapping>, k: nat)
    requires AllSound(ms) && k < |ms|
    ensures Sound(ms[k])
  {
  }

  /** All blocks that only this memory set's task uses: its frames and its page tables. */
  ghost function Footprint(ms: MemorySet): set<Block>
    requires AllSound(ms.mappings)
    reads ms, ms.space
  {
    AllBlocks(ms.mappings) + TablePages({ms.space.rootPpn} + ms.space.tables.Keys)
  }

  /** Two tasks on one allocator, neither using anything of the other's. */
  ghost predicate Apart2(a: MemorySet, b: MemorySet)
    reads a, b, a.space, b.space, a.space.buddy, b.space.buddy
  {
    && a.space.buddy == b.space.buddy && a.space.kernel == b.space.kernel && a != b && a.space != b.space
    && AllSound(a.mappings) && AllSound(b.mappings) && a.Bystanders(Footprint(b)) && b.Bystanders(Footprint(a))
  }

  /** Nothing but growth of the live set: the space and its mappings stay valid. */
  lemma StaysValid(ms: MemorySet, s0: Snapshot)
    requires ms.space.buddy.Valid() && ms.space.Shape() && s0.tree == ms.space.Tree()
              && s0.live <= ms.space.buddy.state.live
    requires Backed(s0.tree.tables, s0.live) && Backed(ms.space.kernel, s0.live)
              && PageBlock(ms.space.rootPpn) in s0.live
    requires ms.space.rootPpn !in ms.space.tables && ms.space.rootPpn !in ms.space.kernel
    requires Consistent(s0, ms.space.rootPpn, ms.space.kernel, ms.mappings)
    ensures ms.Valid()
  {
    var reserved := ReservedFor(s0.tree, ms.space.rootPpn, ms.space.kernel);
    OwnsGrows(ms.mappings, s0.live, ms.space.buddy.state.live, reserved, reserved);
  }

  /** The clone of the page tables, still pointing at the parent's frames. */
  ghost predicate Twin(ms: MemorySet, space: AddressSpace)
    reads ms, space, space.buddy, space.buddy.ram
  {
    && space.Valid() && space.buddy == ms.space.buddy && space.kernel == ms.space.kernel && space != ms.space
    && Agrees(space.Tree(), space.kernel, ms.mappings)
  }

  ghost function TablesOf(space: AddressSpace): set<Block>
    reads space
  {
    TablePages({space.rootPpn} + space.tables.Keys)
  }

  /** Step one of `try_clone`: the page tables. */
  method CloneTables(ms: MemorySet) returns (space: AddressSpace?)
    requires ms.Valid()
    modifies ms.space.buddy, ms.space.buddy.ram
    ensures ms.Valid() && LiveKept(old(ms.space.buddy.ram.page), ms.space.buddy.ram.page,
              old(ms.space.buddy.state.live))
    ensures space == null ==> ms.space.buddy.state.live == old(ms.space.buddy.state.live)
    ensures space != null ==>
              && fresh(space) && Twin(ms, space) && old(ms.space.buddy.state.live) !! TablesOf(space)
              && ms.space.buddy.state.live == old(ms.space.buddy.state.live) + TablesOf(space)
    ensures Supplied(old(ms.space.buddy.state.lists), Zeros(1 + |old(ms.space.tables)|), space != null,
              ms.space.buddy.state.lists)
  {
    hide LiveKept, Agrees, Owns, Disjoint, Supplied, Zeros, BuddyAllocator.Valid, AddressSpace.Shape, WalkIn, IsShared,
        TargetsOwnTable, KeepsLeafTables;
    ghost var s0 := Now(ms.space);
    forall va: nat | PageVa(va) ensures !TargetsOwnTable(s0.tree, VpnOf(va)) {
      NeverOwnTable(ms, va);
    }
    space := ms.space.TryClone();
    StaysValid(ms, s0);
    if space != null {
      TwinAgrees(ms, space);
    }
  }

  lemma TwinAgrees(ms: MemorySet, space: AddressSpace)
    requires ms.Valid() && space.kernel == ms.space.kernel
    requires forall va: nat :: PageVa(va) ==> !TargetsOwnTable(ms.space.Tree(), VpnOf(va))
    requires forall q :: IsVpn(q) ==>
              (space.Translate(q) == ms.space.Translate(q) <==> !TargetsOwnTable(ms.space.Tree(), q))
    requires KeepsLeafTables(ms.space.Tree(), space.Tree())
              && (forall q :: IsVpn(q) ==> space.Shared(q) == ms.space.Shared(q))
    ensures Agrees(space.Tree(), space.kernel, ms.mappings)
  {
    hide TargetsOwnTable, Agrees, WalkIn, HasLeafTable, IsShared;
    forall va: nat | PageVa(va)
        ensures WalkIn(space.Tree(), space.kernel, VpnOf(va)) == WalkIn(ms.space.Tree(), space.kernel, VpnOf(va)) {
      assert space.Translate(VpnOf(va)) == ms.space.Translate(VpnOf(va));
    }
    forall q | IsVpn(q) ensures IsShared(space.Tree(), q) == IsShared(ms.space.Tree(), q) {
      assert space.Shared(q) == ms.space.Shared(q);
    }
    AgreesSame(ms.space.Tree(), space.Tree(), space.kernel, ms.mappings);
  }

  /** The space keeps its shape and its pages when the live set grows. */
  lemma TwinGrows(ms: MemorySet, space: AddressSpace, live1: set<Block>)
    requires space.buddy.Valid() && space.Shape() && live1 <= space.buddy.state.live
    requires Backed(space.tables, live1) && Backed(space.kernel, live1) && PageBlock(space.rootPpn) in live1
    requires space.rootPpn !in space.tables && space.rootPpn !in space.kernel
    ensures space.Valid()
  {
  }

  /** Steps two and three of `try_clone`: frames for the child, and its pages pointed at them. */
  method Populate(ms: MemorySet, space: AddressSpace) returns (child: MemorySet?)
    requires ms.Valid() && Twin(ms, space)
    modifies space, space.buddy, space.buddy.ram
    ensures ms.Valid() && LiveKept(old(space.buddy.ram.page), space.buddy.ram.page, old(space.buddy.state.live))
    ensures space.tables.Keys == old(space.tables).Keys
    ensures child == null ==> space.buddy.state.live == old(space.buddy.state.live)
    ensures child != null ==>
              && fresh(child) && child.space == space && child.Valid()
              && RangesOf(child.mappings) == RangesOf(ms.mappings)
              && AllBlocks(child.mappings) !! old(space.buddy.state.live)
              && space.buddy.state.live == old(space.buddy.state.live) + AllBlocks(child.mappings)
              && forall va: nat :: ViewOf(child.mappings, space.buddy.ram.page,
                   va) == old(ViewOf(ms.mappings, space.buddy.ram.page, va))
    ensures Supplied(old(space.buddy.state.lists), MappingOrders(ms.mappings), child != null, space.buddy.state.lists)
  {
    hide LiveKept, Agrees, Owns, Disjoint, AllSound, CloningAll, RangesOf, Children, BuddyAllocator.Valid, Backed,
        ViewOf, ReservedFor, Inv, Supplied, MappingOrders;
    ghost var s0, t1, live1 := Now(ms.space), Now(space), space.buddy.state.live;
    OwnedFacts(s0, ms.space.rootPpn, ms.space.kernel, ms.mappings);
    ReservedLive(space.Tree(), space.rootPpn, space.kernel, live1);
    var runs := CloneMappings(space.buddy, ms.mappings);
    BuddyInv(space.buddy);
    if runs.None? {
      StaysValid(ms, s0);
      return null;
    }
    ghost var page2, live2 := space.buddy.ram.page, space.buddy.state.live;
    GrewBy(page2, live2, runs.value, s0.page, live1, ms.mappings);
    ChildOwns(space.buddy.state.lists, live2, ms.mappings, runs.value, page2, s0.page, live1,
        ReservedFor(space.Tree(), space.rootPpn, space.kernel));
    TwinGrows(ms, space, live1);
    ChildrenSound(Children(ms.mappings, runs.value), live2, ReservedFor(space.Tree(), space.rootPpn, space.kernel));
    var cs := Rewrite(space, ms.mappings, runs.value);
    StaysValid(ms, s0);
    ChildViews(space.buddy.state.lists, live2, page2, space.buddy.ram.page, runs.value, s0.page, live1, ms.mappings);
    SameReserved(t1.tree, space.Tree(), space.rootPpn, space.kernel);
    child := new MemorySet(space, cs);
  }

  lemma SameReserved(tree0: Space, tree: Space, rootPpn: nat, kernel: map<nat, Table>)
    requires tree.tables.Keys == tree0.tables.Keys
    ensures ReservedFor(tree, rootPpn, kernel) == ReservedFor(tree0, rootPpn, kernel)
  {
  }

  lemma OwnedFacts(s: Snapshot, rootPpn: nat, kernel: map<nat, Table>, ms: seq<UserMapping>)
    requires Consistent(s, rootPpn, kernel, ms)
    ensures AllSound(ms) && AllBlocks(ms) <= s.live && Disjoint(RangesOf(ms))
  {
    AllBlocksLive(ms, s.live, ReservedFor(s.tree, rootPpn, kernel));
  }

  lemma GrewBy(page: map<nat, Page>, live: set<Block>, runs: seq<seq<Frame>>, page0: map<nat, Page>, live0: set<Block>,
      ms: seq<UserMapping>)
    requires CloningAll(page, live, runs, page0, live0, ms)
    ensures RunsOk(runs) && RunBlocks(runs, 0) !! live0 && live == live0 + RunBlocks(runs, 0)
              && LiveKept(page0, page, live0)
  {
  }

  lemma ChildrenSound(cs: seq<UserMapping>, live: set<Block>, reserved: set<Block>)
    requires Owns(cs, live, reserved)
    ensures AllSound(cs)
  {
  }

  /** The child's views, and the contents kept, once its page tables are rewritten. */
  lemma ChildViews(lists: Lists, live: set<Block>, page2: map<nat, Page>, page: map<nat, Page>, runs: seq<seq<Frame>>,
      page0: map<nat, Page>, live0: set<Block>, ms: seq<UserMapping>)
    requires Inv(lists, live) && AllSound(ms) && |runs| == |ms| && CloningAll(page2, live, runs, page0, live0, ms)
              && LiveKept(page2, page, live)
    requires RangesOf(Children(ms, runs)) == RangesOf(ms)
    ensures LiveKept(page0, page, live0)
    ensures forall va: nat :: ViewOf(Children(ms, runs), page, va) == ViewOf(ms, page0, va)
  {
    hide LiveKept, Inv, SameRuns, AllSound, ViewOf, Children, RangesOf;
    LiveKeptSubset(page2, page, live, live0);
    LiveKeptTrans(page0, page2, page, live0);
    KeptRuns(lists, live, live, page2, page, runs, page0, ms);
    forall va: nat ensures ViewOf(Children(ms, runs), page, va) == ViewOf(ms, page0, va) {
      ChildView(ms, runs, page, page0, va);
    }
  }

  /**
   `MemorySet::try_clone`.  The child sees what the parent sees, on frames and page tables of
   its own; the parent is as before.  When a frame cannot be had, only the page tables
   registered for the child remain.
   */
  method TryClone(ms: MemorySet) returns (space: AddressSpace?, child: MemorySet?)
    requires ms.Valid()
    modifies ms.space.buddy, ms.space.buddy.ram
    ensures ms.Valid() && forall va: nat :: ms.View(va) == old(ms.View(va))
    ensures LiveKept(old(ms.space.buddy.ram.page), ms.space.buddy.ram.page, old(ms.space.buddy.state.live))
    ensures child == null ==>
              ms.space.buddy.state.live == old(ms.space.buddy.state.live) + if space == null then {}
                  else TablesOf(space)
    ensures child != null ==>
              && fresh(child) && fresh(child.space) && child.space == space && child.Valid() && Apart2(ms, child)
              && (forall va: nat :: child.View(va) == ms.View(va)) && RangesOf(child.mappings) == RangesOf(ms.mappings)
              && Footprint(child) !! old(ms.space.buddy.state.live)
              && ms.space.buddy.state.live == old(ms.space.buddy.state.live) + Footprint(child)
    ensures space != null <==> FreePages(old(ms.space.buddy.state.lists)) > |old(ms.space.tables)|
    ensures child != null <==>
            Supply(old(ms.space.buddy.state.lists),
                Zeros(1 + |old(ms.space.tables)|) + MappingOrders(ms.mappings)).Some?
  {
    hide LiveKept, MemorySet.Valid, RangesOf, ViewOf, AddressSpace.Valid, AllSound, Agrees, Supply, Zeros, FreePages,
        MappingOrders;
    TablesSupplied(ms);
    SupplyConcat(ms.space.buddy.state.lists, Zeros(1 + |ms.space.tables|), MappingOrders(ms.mappings));
    child := null;
    ghost var page0, live0 := ms.space.buddy.ram.page, ms.space.buddy.state.live;
    ParentFacts(ms);
    space := CloneTables(ms);
    ghost var page1 := ms.space.buddy.ram.page;
    ParentViews(ms.mappings, page0, page1, live0);
    if space == null {
      return;
    }
    child := Populate(ms, space);
    LiveKeptSubset(page1, ms.space.buddy.ram.page, live0 + TablesOf(space), live0);
    LiveKeptTrans(page0, page1, ms.space.buddy.ram.page, live0);
    ParentViews(ms.mappings, page0, ms.space.buddy.ram.page, live0);
    if child != null {
      ParentFacts(child);
      TwoApart(ms, child, live0);
    }
  }

  lemma TablesSupplied(ms: MemorySet)
    requires ms.Valid()
    ensures Supply(ms.space.buddy.state.lists, Zeros(1 + |ms.space.tables|)).Some? <==>
            FreePages(ms.space.buddy.state.lists) > |ms.space.tables|
  {
    SupplyPages(ms.space.buddy.state.lists, ms.space.buddy.state.live, 1 + |ms.space.tables|);
  }

  lemma ParentFacts(ms: MemorySet)
    requires ms.Valid()
    ensures AllSound(ms.mappings) && AllBlocks(ms.mappings) <= ms.space.buddy.state.live
    ensures ReservedFor(ms.space.Tree(), ms.space.rootPpn, ms.space.kernel) <= ms.space.buddy.state.live
  {
    OwnedFacts(Now(ms.space), ms.space.rootPpn, ms.space.kernel, ms.mappings);
    ReservedLive(ms.space.Tree(), ms.space.rootPpn, ms.space.kernel, ms.space.buddy.state.live);
  }

  lemma ParentViews(ms: seq<UserMapping>, page0: map<nat, Page>, page: map<nat, Page>, live0: set<Block>)
    requires AllSound(ms) && AllBlocks(ms) <= live0 && LiveKept(page0, page, live0)
    ensures forall va: nat :: ViewOf(ms, page, va) == ViewOf(ms, page0, va)
  {
    forall va: nat ensures ViewOf(ms, page, va) == ViewOf(ms, page0, va) {
      ViewKept(ms, page0, page, live0, va);
    }
  }

  /** The page tables of one task, those it owns and those of the kernel. */
  lemma ReservedSplit(ms: MemorySet)
    ensures ReservedFor(ms.space.Tree(), ms.space.rootPpn, ms.space.kernel) == TablesOf(ms.space)
              + TablePages(ms.space.kernel.Keys)
  {
  }

  /** What was allocated for the child is apart from whatever was live before. */
  lemma TwoApart(ms: MemorySet, child: MemorySet, live0: set<Block>)
    requires ms.Valid() && child.Valid() && ms != child && ms.space != child.space
    requires ms.space.buddy == child.space.buddy && ms.space.kernel == child.space.kernel
    requires AllSound(ms.mappings) && AllBlocks(ms.mappings) <= live0
              && ReservedFor(ms.space.Tree(), ms.space.rootPpn, ms.space.kernel) <= live0
    requires AllSound(child.mappings) && Footprint(child) !! live0 && live0 <= ms.space.buddy.state.live
              && Footprint(child) <= ms.space.buddy.state.live
    ensures Apart2(ms, child)
  {
    ReservedSplit(ms);
    ReservedSplit(child);
    OwnNotKernel(ms);
  }

  lemma OwnNotKernel(ms: MemorySet)
    requires ms.Valid()
    ensures AllSound(ms.mappings) && Footprint(ms) !! TablePages(ms.space.kernel.Keys)
  {
    var own, ker := {ms.space.rootPpn} + ms.space.tables.Keys, ms.space.kernel.Keys;
    assert own !! ker;
    assert TablePages(own) !! TablePages(ker);
    ReservedSplit(ms);
    AllBlocksLive(ms.mappings, ms.space.buddy.state.live,
        ReservedFor(ms.space.Tree(), ms.space.rootPpn, ms.space.kernel));
  }

  /**
   Isolation: whatever one task does that keeps its bystanders' blocks, the other task stays
   valid and sees what it saw.
   */
  twostate lemma OtherTaskUnaffected(me: MemorySet, other: MemorySet)
    requires old(other.Valid()) && unchanged(other) && unchanged(other.space)
    requires AllSound(other.mappings) && me.space.buddy == other.space.buddy && me.space.kernel == other.space.kernel
    requires me.Valid() && me.Bystanders(Footprint(other))
    requires LiveKept(old(other.space.buddy.ram.page), other.space.buddy.ram.page, Footprint(other))
    ensures other.Valid() && forall va: nat :: other.View(va) == old(other.View(va))
  {
    ParentViews(other.mappings, old(other.space.buddy.ram.page), other.space.buddy.ram.page, Footprint(other));
    OwnsShrinks(other.mappings, old(other.space.buddy.state.live), other.space.buddy.state.live,
        ReservedFor(other.space.Tree(), other.space.rootPpn, other.space.kernel));
    forall p | p in other.space.tables || p == other.space.rootPpn
        ensures PageBlock(p) in other.space.buddy.state.live {
      assert p in {other.space.rootPpn} + other.space.tables.Keys;
    }
  }
}