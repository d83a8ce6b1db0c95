/** Physical frames: sizes rounded to buddy orders, and requests spliced from several blocks. */
module Frames {
  import opened Memory
  import opened BuddySpec
  import opened BuddyProperties
  import opened Buddy
  import opened Supplies

  datatype Frame = Frame(start: nat, size: nat)

  // ----- sizes and orders -----

  function Ilog2(n: nat): (k: nat)
    requires n > 0
    ensures Pow2(k) <= n < Pow2(k + 1)
  {
    if n == 1 then 0 else 1 + Ilog2(n / 2)
  }

  function Ilog2Ceil(size: nat): nat
    requires size > 0
  {
    if size == 1 then 0 else Ilog2(size - 1) + 1
  }

  function SizeToOrder(size: nat): (order: nat)
    requires size > 0
    ensures order < MAX_ORDER
  {
    var n := Ilog2Ceil(size);
    if n <= 12 then 0 else if n - 12 < MAX_ORDER - 1 then n - 12 else MAX_ORDER - 1
  }

  lemma {:induction false} Pow2Sum(m: nat, n: nat)
    ensures Pow2(m + n) == Pow2(m) * Pow2(n)
    decreases n
  {
    if n > 0 {
      Pow2Sum(m, n - 1);
    }
  }

  lemma OrderSizePow2(order: nat)
    ensures OrderSize(order) == Pow2(12 + order)
  {
    Pow2Sum(12, order);
    assert Pow2(12) == 4096;
  }

  lemma {:induction false} Pow2Monotone(m: nat, n: nat)
    requires m <= n
    ensures Pow2(m) <= Pow2(n)
    decreases n
  {
    if m < n {
      Pow2Monotone(m, n - 1);
    }
  }

  lemma CeilBounds(size: nat)
    requires size > 0
    ensures var n := Ilog2Ceil(size); size <= Pow2(n) && (n > 0 ==> Pow2(n - 1) < size)
  {
  }

  /** The order chosen is the least whose blocks hold `size` bytes, capped at the top order. */
  lemma SizeToOrderFits(size: nat)
    requires size > 0
    ensures var order := SizeToOrder(size);
            && (size <= OrderSize(order) <==> size <= TOP_SIZE)
            && (order > 0 ==> OrderSize(order - 1) < size)
            && (size > TOP_SIZE ==> order == MAX_ORDER - 1)
  {
    var n := Ilog2Ceil(size);
    var order := SizeToOrder(size);
    CeilBounds(size);
    OrderSizes();
    if n <= 12 {
      OrderSizePow2(0);
      Pow2Monotone(n, 12);
    } else if n <= 22 {
      OrderSizePow2(order);
      OrderSizePow2(order - 1);
      SizesGrow(order, MAX_ORDER - 1);
    } else {
      OrderSizePow2(10);
      SizesGrow(9, 10);
      Pow2Monotone(22, n - 1);
    }
  }

  /** `size_to_order` inverts `order_size`. */
  lemma SizeToOrderInverts(order: nat)
    requires order < MAX_ORDER
    ensures SizeToOrder(OrderSize(order)) == order
  {
    var size := OrderSize(order);
    var o := SizeToOrder(size);
    AtMostTop(order);
    SizeToOrderFits(size);
    if o < order {
      SizesGrow(o, order);
    } else if order < o {
      SizesGrow(order, o - 1);
    }
  }

  // ----- splitting a request into segments -----

  /** The sizes of the blocks `alloc_frames` asks for. */
  function Segments(size: nat): seq<nat> {
    if size == 0 then []
    else
      var s := OrderSize(SizeToOrder(size));
      [s] + Segments(if size > s then size - s else 0)
  }

  /** The orders of those blocks. */
  function OrdersFor(size: nat): seq<nat> {
    if size == 0 then []
    else
      var s := OrderSize(SizeToOrder(size));
      [SizeToOrder(size)] + OrdersFor(if size > s then size - s else 0)
  }

  lemma {:induction false} OrdersAre(size: nat)
    ensures |OrdersFor(size)| == |Segments(size)|
    ensures forall i :: 0 <= i < |Segments(size)| ==>
              OrdersFor(size)[i] < MAX_ORDER && Segments(size)[i] == OrderSize(OrdersFor(size)[i])
    decreases size
  {
    if size > 0 {
      var s := OrderSize(SizeToOrder(size));
      OrdersAre(if size > s then size - s else 0);
    }
  }

  /** Any request is served if there is a free 4 MiB block for every 4 MiB or part of it. */
  lemma {:induction false} BlocksNeeded(size: nat)
    ensures |OrdersFor(size)| == (size + TOP_SIZE - 1) / TOP_SIZE
    decreases size
  {
    if size > TOP_SIZE {
      OrderSizes();
      SizeToOrderFits(size);
      BlocksNeeded(size - TOP_SIZE);
    } else if size > 0 {
      SizeToOrderFits(size);
      assert OrdersFor(0) == [];
    }
  }

  /** The requests were served, all of them, exactly if they could be. */
  ghost predicate Supplied(before: Lists, orders: seq<nat>, ok: bool, after: Lists) {
    Supply(before, orders) == if ok then Some(after) else None
  }

  function Sum(s: seq<nat>): (total: nat) { if s == [] then 0 else s[0] + Sum(s[1..]) }

  /** How many bytes `alloc_frames` delivers for a request. */
  function Delivered(size: nat): nat { Sum(Segments(size)) }

  /** Sizes that are delivered to the byte: whole 4 MiB blocks plus at most one smaller block. */
  predicate Exact(size: nat) {
    size % TOP_SIZE == 0 || OrderSize(SizeToOrder(size % TOP_SIZE)) == size % TOP_SIZE
  }

  lemma PageSum(a: nat, b: nat)
    requires a % PAGE_SIZE == 0 && b % PAGE_SIZE == 0
    ensures (a + b) % PAGE_SIZE == 0
  {
  }

  lemma PageGap(a: nat, b: nat)
    requires a % PAGE_SIZE == 0 && b % PAGE_SIZE == 0 && a != b
    ensures !(a <= b < a + PAGE_SIZE)
  {
  }

  lemma NextPage(a: nat, b: nat)
    requires a % PAGE_SIZE == 0 && b % PAGE_SIZE == 0 && a < b
    ensures a + PAGE_SIZE <= b && (a + PAGE_SIZE) % PAGE_SIZE == 0
  {
  }

  lemma ModTop(size: nat)
    ensures size >= TOP_SIZE ==> (size - TOP_SIZE) % TOP_SIZE == size % TOP_SIZE
    ensures size < TOP_SIZE ==> size % TOP_SIZE == size
    ensures TOP_SIZE % TOP_SIZE == 0 && TOP_SIZE % PAGE_SIZE == 0
  {
  }

  /** One block serves a request of at most 4 MiB. */
  lemma OneSegment(size: nat)
    requires 0 < size <= TOP_SIZE
    ensures var s := OrderSize(SizeToOrder(size));
            && Segments(size) == [s] && Delivered(size) == s
            && size <= s < size + 2097152 && s % PAGE_SIZE == 0
            && (s == size <==> Exact(size))
  {
    OrderSizes();
    var order := SizeToOrder(size);
    var s := OrderSize(order);
    SizeToOrderFits(size);
    assert Segments(0) == [] && Segments(size) == [s] + [];
    assert Sum([s]) == s + Sum([s][1..]);
    if order > 0 {
      SizesGrow(order - 1, MAX_ORDER - 2);
    }
    ModTop(size);
    if size == TOP_SIZE {
      SizeToOrderInverts(MAX_ORDER - 1);
    } else {
      assert Exact(size) <==> OrderSize(SizeToOrder(size)) == size;
    }
  }

  /** The total is at least the request, exceeds it by less than 2 MiB, and equals it iff exact. */
  lemma {:induction false} SegmentsTotal(size: nat)
    ensures size <= Delivered(size) < size + 2097152
    ensures Delivered(size) == size <==> Exact(size)
    ensures Delivered(size) % PAGE_SIZE == 0
    decreases size
  {
    if 0 < size <= TOP_SIZE {
      OneSegment(size);
    } else if size > TOP_SIZE {
      OrderSizes();
      SizeToOrderFits(size);
      SegmentsTotal(size - TOP_SIZE);
      assert Segments(size)[1..] == Segments(size - TOP_SIZE);
      ModTop(size);
      PageSum(TOP_SIZE, Delivered(size - TOP_SIZE));
    }
  }

  /** A request strictly between two block sizes is rounded up to the larger one. */
  lemma RoundedUp(size: nat, order: nat)
    requires order < MAX_ORDER - 1 && OrderSize(order) < size < OrderSize(order + 1)
    ensures Segments(size) == [OrderSize(order + 1)] && !Exact(size)
  {
    assert OrderSize(MAX_ORDER - 1) == TOP_SIZE by { OrderSizes(); }
    SizesGrow(order + 1, MAX_ORDER - 1);
    SizeToOrderFits(size);
    OneSegment(size);
    var o := SizeToOrder(size);
    if o <= order {
      SizesGrow(o, order);
    } else if o > order + 1 {
      SizesGrow(order + 1, o - 1);
    }
  }

  /** Three pages become four. */
  lemma ThreePagesBecomeFour()
    ensures !Exact(3 * PAGE_SIZE) && Segments(3 * PAGE_SIZE) == [4 * PAGE_SIZE]
  {
    OrderSizes();
    RoundedUp(3 * PAGE_SIZE, 1);
  }

  // ----- allocating and dropping frames -----

  lemma BuddyInv(buddy: BuddyAllocator)
    requires buddy.Valid()
    ensures Inv(buddy.state.lists, buddy.state.live)
  {
  }

  /** A frame as `alloc_frame` makes it: its size is that of a buddy block. */
  ghost predicate IsFrame(f: Frame) { f.size > 0 && OrderSize(SizeToOrder(f.size)) == f.size }

  function BlockOf(f: Frame): Block
    requires f.size > 0
  {
    Block(f.start, SizeToOrder(f.size))
  }

  ghost predicate AreFrames(frames: seq<Frame>) { forall i :: 0 <= i < |frames| ==> IsFrame(frames[i]) }

  ghost function Blocks(frames: seq<Frame>): set<Block>
    requires AreFrames(frames)
  {
    set i | 0 <= i < |frames| :: BlockOf(frames[i])
  }

  ghost predicate DistinctFrames(frames: seq<Frame>) {
    forall i, j :: 0 <= i < j < |frames| ==> frames[i] != frames[j]
  }

  function Sizes(frames: seq<Frame>): seq<nat> { seq(|frames|, i requires 0 <= i < |frames| => frames[i].size) }

  /** The pages of all blocks in `live` keep their contents. */
  ghost predicate LiveKept(before: map<nat, Page>, after: map<nat, Page>, live: set<Block>) {
    && before.Keys == after.Keys
    && forall b, p :: b in live && PageOf(b, p) && p in before ==> after[p] == before[p]
  }

  lemma StepKeepsLive(before: map<nat, Page>, after: map<nat, Page>, s: State, s': State, live: set<Block>)
    requires Good(s) && Good(s') && live <= s.live && live <= s'.live
    requires LinksOnly(before, after, FreeStarts(s.lists) + FreeStarts(s'.lists))
    ensures LiveKept(before, after, live)
  {
    forall b, p | b in live && PageOf(b, p) && p in before ensures after[p] == before[p] {
      LiveUntouched(before, after, s.lists, s'.lists, s.live, s'.live, b, p);
    }
  }

  method AllocFrame(buddy: BuddyAllocator, size: nat) returns (r: Option<Frame>)
    requires buddy.Valid() && size > 0
    modifies buddy, buddy.ram
    ensures buddy.Valid()
    ensures r.None? ==> buddy.state == old(buddy.state)
    ensures r.Some? ==>
              && r.value.size == OrderSize(SizeToOrder(size)) && IsFrame(r.value)
              && BlockOf(r.value) !in old(buddy.state.live)
              && buddy.state.live == old(buddy.state.live) + {BlockOf(r.value)}
    ensures LiveKept(old(buddy.ram.page), buddy.ram.page, old(buddy.state.live))
    ensures r.None? <==> NoneFrom(old(buddy.state.lists), SizeToOrder(size))
    ensures Supplied(old(buddy.state.lists), [SizeToOrder(size)], r.Some?, buddy.state.lists)
  {
    var order := SizeToOrder(size);
    AllocFails(buddy.state.lists, order);
    SupplyOne(buddy.state.lists, order);
    AllocInv(buddy.state.lists, buddy.state.live, order);
    var start := buddy.Alloc(order);
    StepKeepsLive(old(buddy.ram.page), buddy.ram.page, old(buddy.state), buddy.state, old(buddy.state.live));
    if start.None? {
      return None;
    }
    SizeToOrderInverts(order);
    r := Some(Frame(start.value, OrderSize(order)));
  }

  /** Dropping a frame returns its block to the buddy system. */
  method DropFrame(buddy: BuddyAllocator, f: Frame)
    requires buddy.Valid() && IsFrame(f) && BlockOf(f) in buddy.state.live
    modifies buddy, buddy.ram
    ensures buddy.Valid() && buddy.state.live == old(buddy.state.live) - {BlockOf(f)}
    ensures LiveKept(old(buddy.ram.page), buddy.ram.page, buddy.state.live)
    ensures TopFree(buddy.state.lists) >= TopFree(old(buddy.state.lists))
  {
    DeallocTop(buddy.state.lists, f.start, SizeToOrder(f.size));
    buddy.Dealloc(f.start, SizeToOrder(f.size));
    StepKeepsLive(old(buddy.ram.page), buddy.ram.page, old(buddy.state), buddy.state, buddy.state.live);
  }

  lemma KeptSelf(page: map<nat, Page>, live: set<Block>)
    ensures LiveKept(page, page, live)
  {
  }

  lemma LiveKeptTrans(a: map<nat, Page>, b: map<nat, Page>, c: map<nat, Page>, live: set<Block>)
    requires LiveKept(a, b, live) && LiveKept(b, c, live)
    ensures LiveKept(a, c, live)
  {
  }

  lemma LiveKeptSubset(a: map<nat, Page>, b: map<nat, Page>, live: set<Block>, live': set<Block>)
    requires LiveKept(a, b, live) && live' <= live
    ensures LiveKept(a, b, live')
  {
  }

  lemma {:induction false} SumAppend(s: seq<nat>, x: nat)
    ensures Sum(s + [x]) == Sum(s) + x
  {
    if s == [] {
      assert [] + [x] == [x];
    } else {
      SumAppend(s[1..], x);
      assert (s + [x])[1..] == s[1..] + [x];
    }
  }

  /** Dropping a vector of frames drops them one by one, first to last. */
  method DropFrames(buddy: BuddyAllocator, frames: seq<Frame>)
    requires buddy.Valid() && AreFrames(frames) && DistinctFrames(frames)
    requires Blocks(frames) <= buddy.state.live
    modifies buddy, buddy.ram
    ensures buddy.Valid() && buddy.state.live == old(buddy.state.live) - Blocks(frames)
    ensures LiveKept(old(buddy.ram.page), buddy.ram.page, buddy.state.live)
    ensures TopFree(buddy.state.lists) >= TopFree(old(buddy.state.lists))
  {
    hide TopFree;
    var i := 0;
    while i < |frames|
      invariant i <= |frames| && buddy.Valid()
      invariant TopFree(buddy.state.lists) >= TopFree(old(buddy.state.lists))
      invariant buddy.state.live == old(buddy.state.live) - Blocks(frames[..i])
      invariant LiveKept(old(buddy.ram.page), buddy.ram.page, buddy.state.live)
    {
      ghost var before := buddy.ram.page;
      ghost var live := buddy.state.live;
      assert BlockOf(frames[i]) in Blocks(frames);
      BlocksAppend(frames[..i], frames[i]);
      assert frames[..i + 1] == frames[..i] + [frames[i]];
      NotYetDropped(frames, i);
      DropFrame(buddy, frames[i]);
      LiveKeptSubset(old(buddy.ram.page), before, live, buddy.state.live);
      LiveKeptTrans(old(buddy.ram.page), before, buddy.ram.page, buddy.state.live);
      i := i + 1;
    }
    assert frames[..i] == frames;
  }

  lemma BlocksAppend(frames: seq<Frame>, f: Frame)
    requires AreFrames(frames) && IsFrame(f)
    ensures Blocks(frames + [f]) == Blocks(frames) + {BlockOf(f)}
  {
    var all := frames + [f];
    assert all[|frames|] == f;
    forall b | b in Blocks(frames) ensures b in Blocks(all) {
      var i :| 0 <= i < |frames| && b == BlockOf(frames[i]);
      assert all[i] == frames[i];
    }
  }

  lemma NotYetDropped(frames: seq<Frame>, i: nat)
    requires AreFrames(frames) && DistinctFrames(frames) && i < |frames|
    ensures BlockOf(frames[i]) !in Blocks(frames[..i])
  {
  }

  /** `frames` are distinct frames whose blocks are what `live` has beyond `live0`. */
  ghost predicate Gathered(frames: seq<Frame>, live0: set<Block>, live: set<Block>) {
    && AreFrames(frames) && DistinctFrames(frames)
    && Blocks(frames) !! live0 && live == live0 + Blocks(frames)
  }

  lemma GatherOne(frames: seq<Frame>, live0: set<Block>, live: set<Block>, f: Frame)
    requires Gathered(frames, live0, live) && IsFrame(f) && BlockOf(f) !in live
    ensures Gathered(frames + [f], live0, live + {BlockOf(f)})
    ensures Sizes(frames + [f]) == Sizes(frames) + [f.size]
  {
    BlocksAppend(frames, f);
    forall i | 0 <= i < |frames| ensures frames[i] != f {
      assert BlockOf(frames[i]) in Blocks(frames);
    }
  }

  /** The failure path: the vector gathered so far goes out of scope. */
  method GiveUp(buddy: BuddyAllocator, frames: seq<Frame>, ghost page0: map<nat, Page>, ghost live0: set<Block>)
    requires buddy.Valid() && Gathered(frames, live0, buddy.state.live) && LiveKept(page0, buddy.ram.page, live0)
    modifies buddy, buddy.ram
    ensures buddy.Valid() && buddy.state.live == live0 && LiveKept(page0, buddy.ram.page, live0)
  {
    DropFrames(buddy, frames);
    assert buddy.state.live == live0;
    LiveKeptTrans(page0, old(buddy.ram.page), buddy.ram.page, live0);
  }

  /** One more block for the vector gathered so far. */
  method GatherMore(buddy: BuddyAllocator, frames: seq<Frame>, remaining: nat, ghost page0: map<nat, Page>,
      ghost live0: set<Block>)
    returns (f: Option<Frame>)
    requires buddy.Valid() && Gathered(frames, live0, buddy.state.live) && LiveKept(page0, buddy.ram.page, live0)
    requires remaining > 0
    modifies buddy, buddy.ram
    ensures buddy.Valid() && LiveKept(page0, buddy.ram.page, live0)
    ensures f.None? ==> Gathered(frames, live0, buddy.state.live)
    ensures f.Some? ==>
              && f.value.size == OrderSize(SizeToOrder(remaining)) > 0
              && Gathered(frames + [f.value], live0, buddy.state.live)
              && Sizes(frames + [f.value]) == Sizes(frames) + [f.value.size]
    ensures Supplied(old(buddy.state.lists), [SizeToOrder(remaining)], f.Some?, buddy.state.lists)
  {
    hide Supply;
    f := AllocFrame(buddy, remaining);
    LiveKeptSubset(old(buddy.ram.page), buddy.ram.page, old(buddy.state.live), live0);
    LiveKeptTrans(page0, old(buddy.ram.page), buddy.ram.page, live0);
    if f.Some? {
      GatherOne(frames, live0, old(buddy.state.live), f.value);
    }
  }

  lemma SegmentsStep(done: seq<nat>, size: nat)
    requires size > 0
    ensures var s := OrderSize(SizeToOrder(size));
            done + Segments(size) == done + [s] + Segments(if size > s then size - s else 0)
  {
  }

  lemma SupplyStep(lists: Lists, size: nat)
    requires size > 0
    ensures var s := OrderSize(SizeToOrder(size));
            Supply(lists, OrdersFor(size)) ==
            match Supply(lists, [SizeToOrder(size)])
            case None => None
            case Some(l) => Supply(l, OrdersFor(if size > s then size - s else 0))
  {
    var s := OrderSize(SizeToOrder(size));
    SupplyConcat(lists, [SizeToOrder(size)], OrdersFor(if size > s then size - s else 0));
  }

  lemma SupplyNothing(lists: Lists)
    ensures Supply(lists, OrdersFor(0)) == Some(lists)
  {
  }

  /** `alloc_frames`: as many blocks as it takes; on failure everything allocated so far is dropped. */
  method AllocFrames(buddy: BuddyAllocator, size: nat) returns (r: Option<seq<Frame>>)
    requires buddy.Valid()
    modifies buddy, buddy.ram
    ensures buddy.Valid()
    ensures r.None? ==> buddy.state.live == old(buddy.state.live)
    ensures r.Some? ==>
              && Sizes(r.value) == Segments(size)
              && Gathered(r.value, old(buddy.state.live), buddy.state.live)
    ensures LiveKept(old(buddy.ram.page), buddy.ram.page, old(buddy.state.live))
    ensures Supplied(old(buddy.state.lists), OrdersFor(size), r.Some?, buddy.state.lists)
  {
    hide Supply;
    ghost var page0, live0, lists0 := buddy.ram.page, buddy.state.live, buddy.state.lists;
    SupplyNothing(buddy.state.lists);
    var frames: seq<Frame> := [];
    var remaining: nat := size;
    while remaining > 0
      invariant buddy.Valid() && Gathered(frames, live0, buddy.state.live)
      invariant Sizes(frames) + Segments(remaining) == Segments(size)
      invariant LiveKept(page0, buddy.ram.page, live0)
      invariant Supply(lists0, OrdersFor(size)) == Supply(buddy.state.lists, OrdersFor(remaining))
      decreases remaining
    {
      SupplyStep(buddy.state.lists, remaining);
      var f := GatherMore(buddy, frames, remaining, page0, live0);
      if f.None? {
        GiveUp(buddy, frames, page0, live0);
        return None;
      }
      SegmentsStep(Sizes(frames), remaining);
      remaining := if remaining > f.value.size then remaining - f.value.size else 0;
      frames := frames + [f.value];
    }
    SupplyNothing(buddy.state.lists);
    r := Some(frames);
  }
}
