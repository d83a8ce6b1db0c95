/** What every run of the buddy system keeps, and what its operations undo. */
module BuddyProperties {
  import opened Memory
  import opened IntrusiveList
  import opened BuddySpec

  // ----- alloc and dealloc keep the blocks apart -----

  lemma {:induction false} CarveInv(lists: Lists, live: set<Block>, chunk: nat, order: nat, i: nat)
    requires order <= i < MAX_ORDER
    requires Inv(lists, live + {Block(chunk, i)}) && Block(chunk, i) !in live
    ensures Inv(Carve(lists, chunk, order, i), live + {Block(chunk, order)}) && Block(chunk, order) !in live
    decreases i
  {
    if i > order {
      var b := Block(chunk, i);
      SplitHeld(lists, live, b);
      Release(lists, live + {LowHalf(b)}, HighHalf(b));
      CarveInv(Pushed(lists, HighHalf(b)), live, chunk, order, i - 1);
    }
  }

  lemma PopIsRemove(lists: Lists, i: nat)
    requires i < MAX_ORDER && lists[i] != []
    ensures lists[i := lists[i][1..]] == Removed(lists, Block(lists[i][0], i))
  {
  }

  /** A successful alloc hands out a block disjoint from everything else that is held. */
  lemma AllocInv(lists: Lists, live: set<Block>, order: nat)
    requires Inv(lists, live)
    ensures match Alloc(lists, order)
            case None => forall b :: IsFree(lists, b) ==> b.order < order
            case Some((chunk, lists')) => Inv(lists', live + {Block(chunk, order)}) && Block(chunk, order) !in live
  {
    var i := FirstFit(lists, order);
    if i < MAX_ORDER {
      var b := Block(lists[i][0], i);
      PopIsRemove(lists, i);
      Take(lists, live, b);
      CarveInv(Removed(lists, b), live, b.start, order, i);
    }
  }

  lemma {:induction false} DeallocInv(lists: Lists, live: set<Block>, p: nat, order: nat)
    requires order < MAX_ORDER
    requires Inv(lists, live + {Block(p, order)}) && Block(p, order) !in live
    ensures Inv(Dealloc(lists, p, order), live)
    decreases MAX_ORDER - order
  {
    var b := Block(p, order);
    assert Held(lists, live + {b}, b);
    var buddy := BuddyAddress(p, order);
    if buddy in lists[order] {
      BuddyHalves(p, order);
      var bb := Block(buddy, order);
      Take(lists, live + {b}, bb);
      var lists' := Removed(lists, bb);
      var merged := Min(p, buddy);
      if order + 1 < MAX_ORDER {
        var m := Block(merged, order + 1);
        assert live + {b} + {bb} == live + {LowHalf(m)} + {HighHalf(m)};
        MergeHeld(lists', live, m);
        DeallocInv(lists', live, merged, order + 1);
      } else {
        var kept := Block(merged, order);
        var lost := if p < buddy then bb else b;
        assert live + {b} + {bb} == (live + {kept}) + {lost};
        DropLive(lists', live + {kept}, lost);
        assert (live + {kept}) - {lost} == live + {kept};
        Release(lists', live, kept);
      }
    } else {
      Release(lists, live, b);
    }
  }

  // ----- coalescing -----

  lemma {:induction false} CarveCoalesced(lists: Lists, live: set<Block>, chunk: nat, order: nat, i: nat)
    requires order <= i < MAX_ORDER
    requires Inv(lists, live + {Block(chunk, i)}) && Block(chunk, i) !in live && Coalesced(lists)
    ensures Coalesced(Carve(lists, chunk, order, i))
    decreases i
  {
    if i > order {
      var b := Block(chunk, i);
      SplitHeld(lists, live, b);
      var hi := HighHalf(b);
      var lists' := Pushed(lists, hi);
      assert LowHalf(b) in live + {LowHalf(b)} + {hi};
      assert !IsFree(lists, LowHalf(b));
      SplitHalves(chunk, i - 1) by { assert Held(lists, live + {b}, b); }
      forall k, a | 0 <= k < MAX_ORDER - 1 && a in lists'[k] ensures BuddyAddress(a, k) !in lists'[k] {
        if k == i - 1 {
          if a != hi.start {
            assert Held(lists, live + {b}, Block(a, k));
            BuddyHalves(a, k);
            assert BuddyAddress(a, k) !in lists[k];
          }
        }
      }
      Release(lists, live + {LowHalf(b)}, hi);
      CarveCoalesced(lists', live, chunk, order, i - 1);
    }
  }

  lemma RemovedCoalesced(lists: Lists, b: Block)
    requires b.order < MAX_ORDER && Distinct(lists[b.order]) && Coalesced(lists)
    ensures Coalesced(Removed(lists, b))
  {
    WithoutMembers(lists[b.order], b.start);
  }

  lemma {:induction false} DeallocCoalesced(lists: Lists, p: nat, order: nat)
    requires order < MAX_ORDER && Aligned(p, order)
    requires forall k :: 0 <= k < MAX_ORDER ==> Distinct(lists[k])
    requires forall k, a :: 0 <= k < MAX_ORDER && a in lists[k] ==> Aligned(a, k)
    requires Coalesced(lists)
    ensures Coalesced(Dealloc(lists, p, order))
    decreases MAX_ORDER - order
  {
    BuddyHalves(p, order);
    var buddy := BuddyAddress(p, order);
    var lists' := Removed(lists, Block(buddy, order));
    RemovedFree(lists, Block(buddy, order));
    RemovedCoalesced(lists, Block(buddy, order));
    if buddy in lists[order] {
      if order + 1 < MAX_ORDER {
        forall k, a | 0 <= k < MAX_ORDER && a in lists'[k] ensures Aligned(a, k) {
          assert IsFree(lists', Block(a, k));
        }
        DeallocCoalesced(lists', Min(p, buddy), order + 1);
      }
    } else {
      forall a | a in lists[order] && BuddyAddress(a, order) == p ensures false {
        BuddyHalves(a, order);
      }
    }
  }

  // ----- conservation of bytes -----

  function FreeBytes(lists: Lists, orders: nat): nat
    requires orders <= MAX_ORDER
  {
    if orders == 0 then 0 else FreeBytes(lists, orders - 1) + |lists[orders - 1]| * OrderSize(orders - 1)
  }

  lemma {:induction false} BytesUpdate(lists: Lists, k: nat, l: seq<nat>, orders: nat)
    requires k < MAX_ORDER && orders <= MAX_ORDER
    ensures FreeBytes(lists[k := l], orders) ==
            FreeBytes(lists, orders) + if k < orders then (|l| - |lists[k]|) * OrderSize(k) else 0
    decreases orders
  {
    if orders > 0 {
      BytesUpdate(lists, k, l, orders - 1);
    }
  }

  lemma PushedBytes(lists: Lists, b: Block)
    requires b.order < MAX_ORDER
    ensures FreeBytes(Pushed(lists, b), MAX_ORDER) == FreeBytes(lists, MAX_ORDER) + OrderSize(b.order)
  {
    BytesUpdate(lists, b.order, [b.start] + lists[b.order], MAX_ORDER);
  }

  lemma RemovedBytes(lists: Lists, b: Block)
    requires IsFree(lists, b) && Distinct(lists[b.order])
    ensures FreeBytes(Removed(lists, b), MAX_ORDER) == FreeBytes(lists, MAX_ORDER) - OrderSize(b.order)
  {
    WithoutMembers(lists[b.order], b.start);
    BytesUpdate(lists, b.order, Without(lists[b.order], b.start), MAX_ORDER);
  }

  lemma {:induction false} CarveBytes(lists: Lists, chunk: nat, order: nat, i: nat)
    requires order <= i < MAX_ORDER
    ensures FreeBytes(Carve(lists, chunk, order, i), MAX_ORDER) ==
            FreeBytes(lists, MAX_ORDER) + OrderSize(i) - OrderSize(order)
    decreases i
  {
    if i > order {
      var hi := Block(chunk + OrderSize(i - 1), i - 1);
      PushedBytes(lists, hi);
      CarveBytes(Pushed(lists, hi), chunk, order, i - 1);
    }
  }

  /** alloc takes exactly the block's bytes out of the free lists. */
  lemma AllocBytes(lists: Lists, order: nat)
    requires forall k :: 0 <= k < MAX_ORDER ==> Distinct(lists[k])
    ensures Alloc(lists, order).Some? ==>
              FreeBytes(Alloc(lists, order).value.1, MAX_ORDER) == FreeBytes(lists, MAX_ORDER) - OrderSize(order)
  {
    var i := FirstFit(lists, order);
    if i < MAX_ORDER {
      var b := Block(lists[i][0], i);
      PopIsRemove(lists, i);
      RemovedBytes(lists, b);
      CarveBytes(Removed(lists, b), b.start, order, i);
    }
  }

  /** The buddies met on the way up are free at every order up to and including the top. */
  predicate MergesThroughTop(lists: Lists, p: nat, order: nat)
    requires order < MAX_ORDER
    decreases MAX_ORDER - order
  {
    var buddy := BuddyAddress(p, order);
    && buddy in lists[order]
    && (order + 1 < MAX_ORDER ==> MergesThroughTop(lists, Min(p, buddy), order + 1))
  }

  lemma {:induction false} MergesAbove(lists: Lists, lists': Lists, p: nat, order: nat)
    requires order < MAX_ORDER
    requires forall k :: order <= k < MAX_ORDER ==> lists[k] == lists'[k]
    ensures MergesThroughTop(lists, p, order) == MergesThroughTop(lists', p, order)
    decreases MAX_ORDER - order
  {
    if order + 1 < MAX_ORDER {
      MergesAbove(lists, lists', Min(p, BuddyAddress(p, order)), order + 1);
    }
  }

  /**
   dealloc gives back exactly the block's bytes, except that a merge which runs through the
   top order loses exactly one top-order block.
   */
  lemma {:induction false} DeallocBytes(lists: Lists, p: nat, order: nat)
    requires order < MAX_ORDER
    requires forall k :: 0 <= k < MAX_ORDER ==> Distinct(lists[k])
    ensures FreeBytes(Dealloc(lists, p, order), MAX_ORDER) ==
            FreeBytes(lists, MAX_ORDER) + OrderSize(order) - if MergesThroughTop(lists, p, order) then TOP_SIZE else 0
    decreases MAX_ORDER - order
  {
    OrderSizes();
    var buddy := BuddyAddress(p, order);
    if buddy in lists[order] {
      var bb := Block(buddy, order);
      var lists' := Removed(lists, bb);
      RemovedBytes(lists, bb);
      RemovedFree(lists, bb);
      if order + 1 < MAX_ORDER {
        MergesAbove(lists, lists', Min(p, buddy), order + 1);
        DeallocBytes(lists', Min(p, buddy), order + 1);
      } else {
        PushedBytes(lists', Block(Min(p, buddy), order));
      }
    } else {
      PushedBytes(lists, Block(p, order));
    }
  }

  /** Freeing one of two adjacent 4 MiB blocks while the other is free loses 4 MiB. */
  lemma TopMergeLosesABlock()
    ensures var lists: Lists := seq(MAX_ORDER, _ => [])[10 := [3 * TOP_SIZE]];
            && Inv(lists, {Block(2 * TOP_SIZE, 10)})
            && Dealloc(lists, 2 * TOP_SIZE, 10) == seq(MAX_ORDER, _ => [])[10 := [2 * TOP_SIZE]]
  {
    OrderSizes();
    var lists: Lists := seq(MAX_ORDER, _ => [])[10 := [3 * TOP_SIZE]];
    assert BuddyAddress(2 * TOP_SIZE, 10) == 3 * TOP_SIZE by {
      assert Pow2(11) == 2048;
      LowBitsAreMod(2048, 11);
      LowBitsAligned(2048, 11);
      SplitHalves(2 * TOP_SIZE, 10);
    }
    TopAligned(2 * TOP_SIZE);
    TopAligned(3 * TOP_SIZE);
    var none: Lists := seq(MAX_ORDER, _ => []);
    assert Removed(lists, Block(3 * TOP_SIZE, 10)) == none;
    assert 3 * TOP_SIZE in lists[10];
    assert Dealloc(lists, 2 * TOP_SIZE, 10) == Pushed(none, Block(2 * TOP_SIZE, 10));
    assert [2 * TOP_SIZE] + none[10] == [2 * TOP_SIZE];
  }

  // ----- alloc followed by dealloc -----

  lemma {:induction false} CarveThenDealloc(lists: Lists, chunk: nat, order: nat, i: nat)
    requires order <= i < MAX_ORDER && Aligned(chunk, i)
    ensures Dealloc(Carve(lists, chunk, order, i), chunk, order) == Dealloc(lists, chunk, i)
    decreases i
  {
    if i > order {
      SplitHalves(chunk, i - 1);
      var hi := Block(chunk + OrderSize(i - 1), i - 1);
      var lists' := Pushed(lists, hi);
      CarveThenDealloc(lists', chunk, order, i - 1);
      assert Without(lists'[i - 1], hi.start) == lists[i - 1];
      assert Removed(lists', hi) == lists;
    }
  }

  /**
   Freeing the block just allocated restores every free list, exactly when the allocation did
   not split or take a top-order block whose own buddy was free.
   */
  lemma AllocDeallocRoundTrip(lists: Lists, live: set<Block>, order: nat)
    requires Inv(lists, live) && Coalesced(lists) && Alloc(lists, order).Some?
    ensures var (chunk, lists') := Alloc(lists, order).value;
            (Dealloc(lists', chunk, order) == lists) <==>
            !(FirstFit(lists, order) == MAX_ORDER - 1
                && BuddyAddress(lists[MAX_ORDER - 1][0], MAX_ORDER - 1) in lists[MAX_ORDER - 1])
  {
    var i := FirstFit(lists, order);
    var chunk := lists[i][0];
    var popped: Lists := lists[i := lists[i][1..]];
    assert Held(lists, live, Block(chunk, i));
    CarveThenDealloc(popped, chunk, order, i);
    BuddyHalves(chunk, i);
    var buddy := BuddyAddress(chunk, i);
    assert lists[i] == [chunk] + lists[i][1..];
    if buddy in lists[i] {
      assert i == MAX_ORDER - 1;
      WithoutMembers(popped[i], buddy) by {
        assert Distinct(lists[i]);
      }
      assert |Dealloc(popped, chunk, i)[i]| == |lists[i]| - 1;
    } else {
      assert Dealloc(popped, chunk, i) == lists;
    }
  }

  // ----- add -----

  /** Every held block touches nothing of [from, end). */
  ghost predicate Clear(lists: Lists, live: set<Block>, from: nat, end: nat) {
    forall b :: Held(lists, live, b) ==> End(b) <= from || end <= b.start
  }

  lemma {:induction false} PushRunInv(lists: Lists, live: set<Block>, order: nat, current: nat, end: nat)
    requires order < MAX_ORDER && LOWEST <= current <= end && Aligned(current, order)
    requires Inv(lists, live) && Clear(lists, live, current, end)
    ensures var after := AfterRun(order, current, end);
            && Inv(PushRun(lists, order, current, end), live)
            && Clear(PushRun(lists, order, current, end), live, after, end)
            && Aligned(after, order) && current <= after <= end < after + OrderSize(order)
    decreases end - current
  {
    if current + OrderSize(order) <= end {
      var b := Block(current, order);
      AdoptFree(lists, live, b);
      PushedFree(lists, b);
      NextAligned(current, order);
      PushRunInv(Pushed(lists, b), live, order, current + OrderSize(order), end);
    }
  }

  lemma {:induction false} PushRunFree(lists: Lists, order: nat, current: nat, end: nat, c: Block)
    requires order < MAX_ORDER
    ensures IsFree(PushRun(lists, order, current, end), c) ==> IsFree(lists, c) || (current <= c.start && End(c) <= end)
    decreases end - current
  {
    if current + OrderSize(order) <= end {
      PushedFree(lists, Block(current, order));
      PushRunFree(Pushed(lists, Block(current, order)), order, current + OrderSize(order), end, c);
    }
  }

  /** The state of a run: free lists, live blocks and the 4 MiB chunks handed to `add`. */
  datatype State = State(lists: Lists, live: set<Block>, chunks: set<nat>)

  ghost predicate InChunks(s: State) {
    forall b :: Held(s.lists, s.live, b) ==> b.start / TOP_SIZE in s.chunks
  }

  /** The invariant of every run. */
  ghost predicate Good(s: State) { Inv(s.lists, s.live) && Coalesced(s.lists) && InChunks(s) }

  /** The chunk holding `a` lies outside [start, end). */
  predicate OtherChunk(a: nat, start: nat, end: nat) {
    (a / TOP_SIZE + 1) * TOP_SIZE <= start || end <= a / TOP_SIZE * TOP_SIZE
  }

  lemma {:induction false} PushRunOthers(lists: Lists, order: nat, current: nat, end: nat, k: nat)
    requires order < MAX_ORDER && k < MAX_ORDER && k != order
    ensures PushRun(lists, order, current, end)[k] == lists[k]
    decreases end - current
  {
    if current + OrderSize(order) <= end {
      PushRunOthers(Pushed(lists, Block(current, order)), order, current + OrderSize(order), end, k);
    }
  }

  /** Below the top order `add` pushes at most one block per order, whose buddy is not free. */
  lemma AddOneCoalesced(lists: Lists, start: nat, current: nat, end: nat, order: nat)
    requires order < MAX_ORDER - 1 && start % TOP_SIZE == 0
    requires start <= current < end && Aligned(current, order)
    requires Coalesced(lists)
    requires forall a :: a in lists[order] ==> OtherChunk(a, start, end) && Aligned(a, order)
    ensures Coalesced(Pushed(lists, Block(current, order)))
  {
    BuddyHalves(current, order);
    BuddySameChunk(current, order);
    forall a | a in lists[order] ensures BuddyAddress(current, order) != a && BuddyAddress(a, order) != current {
      BuddyHalves(a, order);
    }
  }

  /** What holds whenever `add_frame` turns to the next lower order. */
  ghost predicate Adding(lists: Lists, live: set<Block>, start: nat, current: nat, end: nat, orders: nat) {
    && orders <= MAX_ORDER && LOWEST <= start <= current && start % TOP_SIZE == 0
    && (orders > 0 ==> Aligned(current, orders - 1))
    && (orders < MAX_ORDER && current < end ==> end - current < OrderSize(orders))
    && Inv(lists, live) && Clear(lists, live, current, end) && Coalesced(lists)
    && forall k, a :: 0 <= k < orders && a in lists[k] ==> OtherChunk(a, start, end)
  }

  /** The blocks of one order that `add_frame` pushes. */
  lemma AddOrder(lists: Lists, live: set<Block>, start: nat, current: nat, end: nat, order: nat)
    requires Adding(lists, live, start, current, end, order + 1) && current < end
    ensures Coalesced(PushRun(lists, order, current, end))
    ensures forall k :: 0 <= k < MAX_ORDER && k != order ==> PushRun(lists, order, current, end)[k] == lists[k]
  {
    var lists' := PushRun(lists, order, current, end);
    var size := OrderSize(order);
    forall k | 0 <= k < MAX_ORDER && k != order ensures lists'[k] == lists[k] {
      PushRunOthers(lists, order, current, end, k);
    }
    if order < MAX_ORDER - 1 && current + size <= end {
      forall a | a in lists[order] ensures Aligned(a, order) {
        assert Held(lists, live, Block(a, order));
      }
      AddOneCoalesced(lists, start, current, end, order);
      assert OrderSize(order + 1) == size + size;
      assert lists' == PushRun(Pushed(lists, Block(current, order)), order, current + size, end) == Pushed(lists,
          Block(current, order));
    }
  }

  lemma AddingStep(lists: Lists, live: set<Block>, start: nat, current: nat, end: nat, order: nat)
    requires Adding(lists, live, start, current, end, order + 1) && current < end
    ensures Adding(PushRun(lists, order, current, end), live, start, AfterRun(order, current, end), end, order)
    ensures current <= AfterRun(order, current, end)
  {
    PushRunInv(lists, live, order, current, end);
    AddOrder(lists, live, start, current, end, order);
    if order > 0 {
      SplitHalves(AfterRun(order, current, end), order - 1);
    }
  }

  lemma {:induction false} AddFrameGood(lists: Lists, live: set<Block>, start: nat, current: nat, end: nat, orders: nat)
    requires Adding(lists, live, start, current, end, orders)
    ensures Inv(AddFrame(lists, current, end, orders), live) && Coalesced(AddFrame(lists, current, end, orders))
    ensures forall c :: IsFree(AddFrame(lists, current, end, orders), c) ==>
              IsFree(lists, c) || (current <= c.start && End(c) <= end)
    decreases orders
  {
    if orders > 0 && current < end {
      AddingStep(lists, live, start, current, end, orders - 1);
      forall c | IsFree(PushRun(lists, orders - 1, current, end), c)
        ensures IsFree(lists, c) || (current <= c.start && End(c) <= end)
      {
        PushRunFree(lists, orders - 1, current, end, c);
      }
      AddFrameGood(PushRun(lists, orders - 1, current, end), live, start, AfterRun(orders - 1, current, end), end,
          orders - 1);
    }
  }

  /** `AlignTop` is the least multiple of 4 MiB from `start` on. */
  lemma AlignTopIs(start: nat, m: nat)
    ensures AlignTop(start) % TOP_SIZE == 0 && start <= AlignTop(start) < start + TOP_SIZE
    ensures m % TOP_SIZE == 0 && start <= m ==> AlignTop(start) <= m
    ensures m % TOP_SIZE == 0 && start <= m < start + TOP_SIZE ==> m == AlignTop(start)
  {
    var k := (start + TOP_SIZE - 1) / TOP_SIZE;
    assert k * TOP_SIZE % TOP_SIZE == 0;
    if m % TOP_SIZE == 0 && start <= m {
      assert m == m / TOP_SIZE * TOP_SIZE;
    }
  }

  /** The page at `p` belongs to a free block. */
  ghost predicate PageFree(lists: Lists, p: nat) { exists b :: IsFree(lists, b) && b.start <= p < End(b) }

  lemma {:induction false} PushRunCovers(lists: Lists, order: nat, current: nat, end: nat)
    requires order < MAX_ORDER
    ensures forall c :: IsFree(lists, c) ==> IsFree(PushRun(lists, order, current, end), c)
    ensures forall a: nat :: current <= a < AfterRun(order, current, end) ==>
              PageFree(PushRun(lists, order, current, end), a)
    ensures AfterRun(order, current, end) >= current
    ensures FreeBytes(PushRun(lists, order, current, end), MAX_ORDER) ==
            FreeBytes(lists, MAX_ORDER) + AfterRun(order, current, end) - current
    decreases end - current
  {
    hide FreeBytes;
    if current + OrderSize(order) <= end {
      var b := Block(current, order);
      PushedFree(lists, b);
      PushedBytes(lists, b);
      PushRunCovers(Pushed(lists, b), order, current + OrderSize(order), end);
      forall a: nat | current <= a < current + OrderSize(order)
        ensures PageFree(PushRun(lists, order, current, end), a)
      {
        assert IsFree(PushRun(lists, order, current, end), b);
      }
    }
  }

  lemma PagesStayFree(lists: Lists, more: Lists)
    requires forall c :: IsFree(lists, c) ==> IsFree(more, c)
    ensures forall a: nat :: PageFree(lists, a) ==> PageFree(more, a)
  {
    hide IsFree;
    forall a: nat | PageFree(lists, a) ensures PageFree(more, a) {
      var b :| IsFree(lists, b) && b.start <= a < End(b);
      assert IsFree(more, b);
    }
  }

  /** What was free stays free, and every whole page of [current, end) becomes free: those bytes and no more. */
  lemma {:induction false} AddFrameCovers(lists: Lists, live: set<Block>, start: nat, current: nat, end: nat,
      orders: nat)
    requires Adding(lists, live, start, current, end, orders) && current % PAGE_SIZE == 0
    ensures forall c :: IsFree(lists, c) ==> IsFree(AddFrame(lists, current, end, orders), c)
    ensures forall p: nat :: p % PAGE_SIZE == 0 && current <= p && p + PAGE_SIZE <= end ==>
              PageFree(AddFrame(lists, current, end, orders), p)
    ensures FreeBytes(AddFrame(lists, current, end, orders), MAX_ORDER) ==
            FreeBytes(lists, MAX_ORDER) + if current < end then (end - current) / PAGE_SIZE * PAGE_SIZE else 0
    decreases orders
  {
    hide FreeBytes, Inv, Clear, Coalesced, PageFree, IsFree, PushRun, AfterRun, OrderSize;
    if orders == 0 {
      OrderSizes();
    } else if current < end {
      var after := AfterRun(orders - 1, current, end);
      var lists' := PushRun(lists, orders - 1, current, end);
      AddingStep(lists, live, start, current, end, orders - 1);
      PushRunCovers(lists, orders - 1, current, end);
      AfterRunPage(orders - 1, current, end);
      AddFrameCovers(lists', live, start, after, end, orders - 1);
      PagesStayFree(lists', AddFrame(lists', after, end, orders - 1));
    }
  }

  lemma {:induction false} AfterRunPage(order: nat, current: nat, end: nat)
    requires current % PAGE_SIZE == 0 && current <= end
    ensures var after := AfterRun(order, current, end);
            && after % PAGE_SIZE == 0 && after <= end
            && (end - current) / PAGE_SIZE * PAGE_SIZE == after - current + (end - after) / PAGE_SIZE * PAGE_SIZE
    decreases end - current
  {
    if current + OrderSize(order) <= end {
      assert (current + OrderSize(order)) % PAGE_SIZE == 0;
      AfterRunPage(order, current + OrderSize(order), end);
    }
  }

  // ----- whole runs -----

  datatype Op = OpAdd(start: nat, end: nat) | OpAlloc(order: nat) | OpDealloc(block: Block)

  /** What callers owe: fresh memory to `add`, and every block freed once, at its own order. */
  ghost predicate Legal(s: State, op: Op) {
    match op
    case OpAdd(start, end) =>
      LOWEST <= AlignTop(start) && forall c :: c in s.chunks ==>
          (c + 1) * TOP_SIZE <= AlignTop(start) || end <= c * TOP_SIZE
    case OpAlloc(order) => true
    case OpDealloc(b) => b in s.live && b.order < MAX_ORDER
  }

  predicate Touches(chunk: nat, start: nat, end: nat) {
    start / TOP_SIZE <= chunk && chunk * TOP_SIZE < end
  }

  function Chunks(start: nat, end: nat): set<nat> {
    set c | 0 <= c <= end && Touches(c, start, end)
  }

  function Step(s: State, op: Op): State
    requires op.OpDealloc? ==> op.block.order < MAX_ORDER
  {
    match op
    case OpAdd(start, end) =>
      State(AddFrame(s.lists, AlignTop(start), end, MAX_ORDER), s.live, s.chunks + Chunks(AlignTop(start), end))
    case OpAlloc(order) =>
      (match Alloc(s.lists, order)
       case None => s
       case Some((chunk, lists')) => s.(lists := lists', live := s.live + {Block(chunk, order)}))
    case OpDealloc(b) => s.(lists := Dealloc(s.lists, b.start, b.order), live := s.live - {b})
  }

  /** A legal `add` starts from memory that no held block touches. */
  lemma AddReady(s: State, op: Op)
    requires Good(s) && op.OpAdd? && Legal(s, op)
    ensures Adding(s.lists, s.live, AlignTop(op.start), AlignTop(op.start), op.end, MAX_ORDER)
  {
    var start, end := AlignTop(op.start), op.end;
    TopAligned(start);
    forall b | Held(s.lists, s.live, b) ensures (End(b) <= start || end <= b.start) && OtherChunk(b.start, start, end) {
      InsideChunk(b.start, b.order);
      assert b.start / TOP_SIZE in s.chunks;
    }
    forall k, a | 0 <= k < MAX_ORDER && a in s.lists[k] ensures OtherChunk(a, start, end) {
      assert Held(s.lists, s.live, Block(a, k));
    }
  }

  lemma AddKeepsGood(s: State, op: Op)
    requires Good(s) && op.OpAdd? && Legal(s, op)
    ensures Good(Step(s, op))
    ensures forall c :: IsFree(Step(s, op).lists, c) ==>
              IsFree(s.lists, c) || (AlignTop(op.start) <= c.start && End(c) <= op.end)
  {
    var start, end := AlignTop(op.start), op.end;
    AddReady(s, op);
    AddFrameGood(s.lists, s.live, start, start, end, MAX_ORDER);
    var s' := Step(s, op);
    forall b | Held(s'.lists, s'.live, b) ensures b.start / TOP_SIZE in s'.chunks {
      if !Held(s.lists, s.live, b) {
        assert start <= b.start && End(b) <= end;
        assert Touches(b.start / TOP_SIZE, start, end);
      }
    }
  }

  lemma {:induction false} CarveInChunk(lists: Lists, chunk: nat, order: nat, i: nat, c: Block)
    requires order <= i < MAX_ORDER && IsFree(Carve(lists, chunk, order, i), c)
    ensures IsFree(lists, c) || (chunk <= c.start && End(c) <= chunk + OrderSize(i))
    decreases i
  {
    if i > order {
      var hi := Block(chunk + OrderSize(i - 1), i - 1);
      PushedFree(lists, hi);
      CarveInChunk(Pushed(lists, hi), chunk, order, i - 1, c);
    }
  }

  lemma AllocKeepsGood(s: State, op: Op)
    requires Good(s) && op.OpAlloc?
    ensures Good(Step(s, op))
  {
    var order := op.order;
    var i := FirstFit(s.lists, order);
    AllocInv(s.lists, s.live, order);
    if i < MAX_ORDER {
      var b := Block(s.lists[i][0], i);
      PopIsRemove(s.lists, i);
      var popped := Removed(s.lists, b);
      Take(s.lists, s.live, b);
      RemovedCoalesced(s.lists, b);
      RemovedFree(s.lists, b);
      CarveCoalesced(popped, s.live, b.start, order, i);
      assert Held(s.lists, s.live, b);
      InsideChunk(b.start, i);
      var s' := Step(s, op);
      forall c | Held(s'.lists, s'.live, c) ensures c.start / TOP_SIZE in s'.chunks {
        if IsFree(s'.lists, c) {
          CarveInChunk(popped, b.start, order, i, c);
          if !IsFree(s.lists, c) {
            assert c.start / TOP_SIZE == b.start / TOP_SIZE;
          } else {
            assert Held(s.lists, s.live, c);
          }
        }
      }
    }
  }

  lemma {:induction false} DeallocInChunk(lists: Lists, p: nat, order: nat, c: Block)
    requires order < MAX_ORDER && Aligned(p, order) && IsFree(Dealloc(lists, p, order), c)
    requires forall k :: 0 <= k < MAX_ORDER ==> Distinct(lists[k])
    ensures IsFree(lists, c) || c.start / TOP_SIZE == p / TOP_SIZE
              || (exists b :: IsFree(lists, b) && c.start / TOP_SIZE == b.start / TOP_SIZE)
    decreases MAX_ORDER - order
  {
    var buddy := BuddyAddress(p, order);
    if buddy in lists[order] {
      BuddyHalves(p, order);
      var bb := Block(buddy, order);
      assert IsFree(lists, bb);
      RemovedFree(lists, bb);
      var lists' := Removed(lists, bb);
      if order + 1 < MAX_ORDER {
        DeallocInChunk(lists', Min(p, buddy), order + 1, c);
      } else {
        PushedFree(lists', Block(Min(p, buddy), order));
      }
    } else {
      PushedFree(lists, Block(p, order));
    }
  }

  lemma DeallocKeepsGood(s: State, op: Op)
    requires Good(s) && op.OpDealloc? && Legal(s, op)
    ensures Good(Step(s, op))
  {
    var b := op.block;
    var rest := s.live - {b};
    assert s.live == rest + {b};
    assert Held(s.lists, s.live, b);
    DeallocInv(s.lists, rest, b.start, b.order);
    forall k, a | 0 <= k < MAX_ORDER && a in s.lists[k] ensures Aligned(a, k) {
      assert Held(s.lists, s.live, Block(a, k));
    }
    DeallocCoalesced(s.lists, b.start, b.order);
    var s' := Step(s, op);
    forall c | Held(s'.lists, s'.live, c) ensures c.start / TOP_SIZE in s'.chunks {
      if IsFree(s'.lists, c) {
        DeallocInChunk(s.lists, b.start, b.order, c);
        assert forall d :: IsFree(s.lists, d) ==> Held(s.lists, s.live, d);
      } else {
        assert Held(s.lists, s.live, c);
      }
    }
  }

  lemma StepKeepsGood(s: State, op: Op)
    requires Good(s) && Legal(s, op)
    ensures Good(Step(s, op))
  {
    match op
    case OpAdd(_, _) => AddKeepsGood(s, op);
    case OpAlloc(_) => AllocKeepsGood(s, op);
    case OpDealloc(_) => DeallocKeepsGood(s, op);
  }

  ghost predicate LegalRun(s: State, ops: seq<Op>) decreases ops {
    ops == [] || (Legal(s, ops[0]) && LegalRun(Step(s, ops[0]), ops[1..]))
  }

  function Run(s: State, ops: seq<Op>): State
    requires forall op :: op in ops && op.OpDealloc? ==> op.block.order < MAX_ORDER
    decreases ops
  {
    if ops == [] then s else Run(Step(s, ops[0]), ops[1..])
  }

  const INITIAL: State := State(seq(MAX_ORDER, _ => []), {}, {})

  /** In every state any legal run reaches, held blocks are aligned, disjoint and coalesced. */
  lemma {:induction false} EveryRunIsGood(s: State, ops: seq<Op>)
    requires Good(s) && LegalRun(s, ops)
    requires forall op :: op in ops && op.OpDealloc? ==> op.block.order < MAX_ORDER
    ensures Good(Run(s, ops))
    decreases ops
  {
    if ops != [] {
      StepKeepsGood(s, ops[0]);
      EveryRunIsGood(Step(s, ops[0]), ops[1..]);
    }
  }

  lemma InitialIsGood()
    ensures Good(INITIAL)
  {
  }
}
