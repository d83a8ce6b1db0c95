/** The buddy allocator itself: list heads in the allocator, links in the free blocks. */
module Buddy {
  import opened Memory
  import opened IntrusiveList
  import opened BuddySpec
  import opened BuddyProperties

  ghost function FreeStarts(lists: Lists): set<nat> {
    set k, a | 0 <= k < MAX_ORDER && a in lists[k] :: a
  }

  /** `after` differs from `before` at most in the first word of the pages in `touched`. */
  ghost predicate LinksOnly(before: map<nat, Page>, after: map<nat, Page>, touched: set<nat>) {
    && before.Keys == after.Keys
    && forall p :: p in before ==>
         after[p] == before[p] || (p in touched && after[p] == before[p][0 := after[p][0]])
  }

  /** Every page of every held block is present in RAM. */
  ghost predicate PagesPresent(page: map<nat, Page>, lists: Lists, live: set<Block>) {
    forall b, p :: Held(lists, live, b) && PageOf(b, p) ==> p in page
  }

  predicate PageOf(b: Block, p: nat) { p % PAGE_SIZE == 0 && b.start <= p < End(b) }

  lemma FirstPage(b: Block)
    requires WellPlaced(b)
    ensures PageOf(b, b.start) && b.start > 0
  {
  }

  /** An address inside a block that is held but not free is on no list. */
  lemma NotListed(lists: Lists, live: set<Block>, b: Block, a: nat)
    requires Inv(lists, live) && b in live && b.start <= a < End(b)
    ensures a !in FreeStarts(lists)
  {
    if k :| 0 <= k < MAX_ORDER && a in lists[k] {
      assert Held(lists, live, Block(a, k)) && Held(lists, live, b);
    }
  }

  /** No page of a live block is touched, whatever the allocator writes. */
  lemma LiveUntouched(before: map<nat, Page>, after: map<nat, Page>, lists: Lists, lists': Lists, live: set<Block>,
      live': set<Block>, b: Block, p: nat)
    requires Inv(lists, live) && Inv(lists', live') && b in live && b in live'
    requires PageOf(b, p) && p in before
    requires LinksOnly(before, after, FreeStarts(lists) + FreeStarts(lists'))
    ensures after[p] == before[p]
  {
    NotListed(lists, live, b, p);
    NotListed(lists', live', b, p);
  }

  lemma PushedStarts(lists: Lists, b: Block)
    requires b.order < MAX_ORDER
    ensures FreeStarts(Pushed(lists, b)) == FreeStarts(lists) + {b.start}
  {
    var lists' := Pushed(lists, b);
    assert b.start in lists'[b.order];
    forall a | a in FreeStarts(lists) ensures a in FreeStarts(lists') {
      var k :| 0 <= k < MAX_ORDER && a in lists[k];
      assert a in lists'[k];
    }
  }

  lemma RemovedStarts(lists: Lists, b: Block)
    requires b.order < MAX_ORDER && Distinct(lists[b.order])
    ensures FreeStarts(Removed(lists, b)) <= FreeStarts(lists)
  {
    WithoutMembers(lists[b.order], b.start);
  }

  lemma ListsDisjoint(lists: Lists, live: set<Block>)
    requires Inv(lists, live)
    ensures forall j, k, a :: 0 <= j < k < MAX_ORDER && a in lists[j] ==> a !in lists[k]
  {
    forall j, k, a | 0 <= j < k < MAX_ORDER && a in lists[j] ensures a !in lists[k] {
      var b, c := Block(a, j), Block(a, k);
      assert Held(lists, live, b) && (IsFree(lists, c) ==> Held(lists, live, c));
    }
  }

  /** One halving: the upper half is on no list yet and may be pushed. */
  lemma SplitOnce(page: map<nat, Page>, lists: Lists, live: set<Block>, b: Block)
    requires Holding(page, lists, live, b) && b.order > 0
    ensures var lo, hi := LowHalf(b), HighHalf(b);
            && Holding(page, Pushed(lists, hi), live, lo)
            && hi.start > 0 && hi.start in page && hi.start !in FreeStarts(lists)
            && FreeStarts(Pushed(lists, hi)) == FreeStarts(lists) + {hi.start}
  {
    var lo, hi := LowHalf(b), HighHalf(b);
    SplitHeld(lists, live, b);
    assert Held(lists, live + {b}, b) && Held(lists, live + {lo} + {hi}, hi);
    Release(lists, live + {lo}, hi);
    NotListed(lists, live + {b}, b, hi.start);
    FirstPage(hi);
    assert PageOf(b, hi.start);
    PushedStarts(lists, hi);
    PushedFree(lists, hi);
    forall c, p | Held(Pushed(lists, hi), live + {lo}, c) && PageOf(c, p) ensures p in page {
      if c == lo || c == hi {
        assert PageOf(b, p);
      } else {
        assert Held(lists, live + {b}, c);
      }
    }
  }

  /** Splitting a block keeps its pages inside held blocks. */
  lemma AllocPagesPresent(page: map<nat, Page>, s: State, order: nat)
    requires Good(s) && PagesPresent(page, s.lists, s.live)
    ensures PagesPresent(page, Step(s, OpAlloc(order)).lists, Step(s, OpAlloc(order)).live)
  {
    var s' := Step(s, OpAlloc(order));
    var i := FirstFit(s.lists, order);
    if i < MAX_ORDER {
      var b := Block(s.lists[i][0], i);
      assert Held(s.lists, s.live, b);
      PopIsRemove(s.lists, i);
      RemovedFree(s.lists, b);
      SizesGrow(order, i);
      forall c, p | Held(s'.lists, s'.live, c) && PageOf(c, p) ensures p in page {
        if IsFree(s'.lists, c) {
          CarveInChunk(Removed(s.lists, b), b.start, order, i, c);
          if !IsFree(s.lists, c) {
            assert PageOf(b, p);
          } else {
            assert Held(s.lists, s.live, c);
          }
        } else if c !in s.live {
          assert PageOf(b, p);
        } else {
          assert Held(s.lists, s.live, c);
        }
      }
    }
  }

  /** A held block may be pushed: its first page exists and is on no list. */
  lemma PushReady(page: map<nat, Page>, lists: Lists, live: set<Block>, b: Block)
    requires Holding(page, lists, live, b)
    ensures b.start > 0 && b.start in page && b.start !in FreeStarts(lists)
    ensures PagesPresent(page, Pushed(lists, b), live)
  {
    assert Held(lists, live + {b}, b);
    FirstPage(b);
    NotListed(lists, live + {b}, b, b.start);
    PushedFree(lists, b);
    forall c, p | Held(Pushed(lists, b), live, c) && PageOf(c, p) ensures p in page {
      assert Held(lists, live + {b}, c);
    }
  }

  /** A block in hand: neither free nor live, and apart from everything held. */
  ghost predicate Holding(page: map<nat, Page>, lists: Lists, live: set<Block>, b: Block) {
    && b.order < MAX_ORDER && b !in live
    && Inv(lists, live + {b}) && PagesPresent(page, lists, live + {b})
  }

  /** What `dealloc` goes on with after merging `b` with its buddy. */
  function Merged(b: Block): Block {
    Block(Min(b.start, BuddyAddress(b.start, b.order)), if b.order + 1 < MAX_ORDER then b.order + 1 else b.order)
  }

  /** One merge: if the buddy is free, taking it yields the block of the next order. */
  lemma MergeOnce(page: map<nat, Page>, lists: Lists, live: set<Block>, b: Block)
    requires Holding(page, lists, live, b)
    ensures var buddy := BuddyAddress(b.start, b.order);
            && buddy > 0
            && (buddy in lists[b.order] ==> Holding(page, Removed(lists, Block(buddy, b.order)), live, Merged(b)))
  {
    assert Held(lists, live + {b}, b);
    var buddy := BuddyAddress(b.start, b.order);
    BuddyHalves(b.start, b.order);
    OrderSizes();
    SizesGrow(b.order, MAX_ORDER - 1);
    if buddy in lists[b.order] {
      var bb := Block(buddy, b.order);
      assert Held(lists, live + {b}, bb);
      Take(lists, live + {b}, bb);
      RemovedFree(lists, bb);
      var lists' := Removed(lists, bb);
      if b.order + 1 < MAX_ORDER {
        var m := Block(Min(b.start, buddy), b.order + 1);
        assert live + {b} + {bb} == live + {LowHalf(m)} + {HighHalf(m)};
        MergeHeld(lists', live, m);
        forall c, p | Held(lists', live + {m}, c) && PageOf(c, p) ensures p in page {
          if c == m {
            assert PageOf(b, p) || PageOf(bb, p);
          } else {
            assert Held(lists, live + {b}, c);
          }
        }
      } else {
        var m := Block(Min(b.start, buddy), b.order);
        var lost := if b.start < buddy then bb else b;
        assert live + {b} + {bb} == (live + {m}) + {lost};
        DropLive(lists', live + {m}, lost);
        assert (live + {m}) - {lost} == live + {m};
        forall c, p | Held(lists', live + {m}, c) && PageOf(c, p) ensures p in page {
          assert Held(lists, live + {b}, c);
        }
      }
    }
  }

  predicate PageIn(p: nat, from: nat, end: nat) { p % PAGE_SIZE == 0 && from <= p < end }

  lemma LinksOnlyTrans(a: map<nat, Page>, b: map<nat, Page>, c: map<nat, Page>, s: set<nat>, t: set<nat>)
    requires LinksOnly(a, b, s) && s <= t && exists u :: LinksOnly(b, c, u) && u <= t
    ensures LinksOnly(a, c, t)
  {
  }

  lemma AddPagesPresent(page: map<nat, Page>, s: State, op: Op)
    requires Good(s) && op.OpAdd? && Legal(s, op) && PagesPresent(page, s.lists, s.live)
    requires forall p :: PageIn(p, AlignTop(op.start), op.end) ==> p in page
    ensures PagesPresent(page, Step(s, op).lists, s.live)
  {
    AddKeepsGood(s, op);
    forall c, p | Held(Step(s, op).lists, s.live, c) && PageOf(c, p) ensures p in page {
      if !Held(s.lists, s.live, c) {
        assert PageIn(p, AlignTop(op.start), op.end);
      }
    }
  }

  /** What a legal `add` makes free, in terms of the range it was given. */
  lemma AddedMeans(s: State, op: Op)
    requires Good(s) && op.OpAdd? && Legal(s, op)
    ensures var lists, start, end := Step(s, op).lists, op.start, op.end;
            && (forall c :: IsFree(s.lists, c) ==> IsFree(lists, c))
            && (forall c :: IsFree(lists, c) && !IsFree(s.lists, c) ==> start <= c.start && End(c) <= end)
            && (forall m, p: nat :: m % TOP_SIZE == 0 && start <= m <= p && PageIn(p, m, end) && p + PAGE_SIZE <= end
                 ==> PageFree(lists, p))
            && (forall m: nat :: m % TOP_SIZE == 0 && start <= m < start + TOP_SIZE ==>
                 FreeBytes(lists, MAX_ORDER) == FreeBytes(s.lists, MAX_ORDER)
                     + if m < end then (end - m) / PAGE_SIZE * PAGE_SIZE else 0)
  {
    hide FreeBytes, AddFrame, AlignTop, PageFree;
    var from := AlignTop(op.start);
    AddReady(s, op);
    AddKeepsGood(s, op);
    AlignTopIs(op.start, 0);
    ChunkPages(from);
    AddFrameCovers(s.lists, s.live, from, from, op.end, MAX_ORDER);
    forall m: nat | m % TOP_SIZE == 0 && op.start <= m ensures from <= m && (m < op.start + TOP_SIZE ==> m == from) {
      AlignTopIs(op.start, m);
    }
  }

  /** From `current` to `end` the memory is untouched, and `current` is aligned to `order`. */
  ghost predicate Fresh(lists: Lists, live: set<Block>, order: nat, current: nat, end: nat) {
    && order < MAX_ORDER && LOWEST <= current && Aligned(current, order)
    && Inv(lists, live) && Clear(lists, live, current, end)
  }

  /** The next chunk of fresh memory is on no list and may be pushed. */
  lemma ChunkReady(lists: Lists, live: set<Block>, order: nat, current: nat, end: nat)
    requires Fresh(lists, live, order, current, end) && current + OrderSize(order) <= end
    ensures var b := Block(current, order);
            && current > 0 && PageIn(current, current, end) && current !in FreeStarts(lists)
            && Fresh(Pushed(lists, b), live, order, current + OrderSize(order), end)
            && FreeStarts(Pushed(lists, b)) == FreeStarts(lists) + {current}
  {
    var b := Block(current, order);
    FirstPage(b);
    NextAligned(current, order);
    if k :| 0 <= k < MAX_ORDER && current in lists[k] {
      assert Held(lists, live, Block(current, k));
    }
    AdoptFree(lists, live, b);
    PushedFree(lists, b);
    PushedStarts(lists, b);
  }

  class BuddyAllocator {
    const ram: Ram
    /** The list heads, one per order; 0 is the null pointer. */
    var heads: seq<nat>
    ghost var state: State

    /** Every list head, followed through memory, spells out the abstract list. */
    ghost predicate Rep()
      reads this, ram
    {
      && |heads| == MAX_ORDER
      && forall k :: 0 <= k < MAX_ORDER ==> IsList(ram.page, heads[k], state.lists[k])
    }

    ghost predicate Valid()
      reads this, ram
    {
      Good(state) && Rep() && PagesPresent(ram.page, state.lists, state.live)
    }

    constructor (ram: Ram)
      ensures Valid() && state == INITIAL && this.ram == ram
    {
      this.ram := ram;
      heads := seq(MAX_ORDER, _ => 0);
      state := INITIAL;
    }

    method PushAt(order: nat, item: nat)
      requires Rep() && order < MAX_ORDER
      requires item != 0 && item in ram.page && item !in FreeStarts(state.lists)
      modifies this, ram
      ensures Rep() && state == old(state).(lists := Pushed(old(state.lists), Block(item, order)))
      ensures LinksOnly(old(ram.page), ram.page, {item})
    {
      var head := Push(ram, heads[order], item, state.lists[order]);
      heads := heads[order := head];
      forall k | 0 <= k < MAX_ORDER && k != order ensures IsList(ram.page, heads[k], state.lists[k]) {
        ListFrame(old(ram.page), ram.page, heads[k], state.lists[k]);
      }
      state := state.(lists := Pushed(state.lists, Block(item, order)));
    }

    method RemoveAt(order: nat, item: nat) returns (found: bool)
      requires Rep() && order < MAX_ORDER && item != 0
      requires forall j, k, a :: 0 <= j < k < MAX_ORDER && a in state.lists[j] ==> a !in state.lists[k]
      modifies this, ram
      ensures found <==> item in old(state.lists)[order]
      ensures Rep() && state == old(state).(lists := Removed(old(state.lists), Block(item, order)))
      ensures LinksOnly(old(ram.page), ram.page, FreeStarts(old(state.lists)))
    {
      var head;
      head, found := Remove(ram, heads[order], item, state.lists[order]);
      heads := heads[order := head];
      forall k | 0 <= k < MAX_ORDER && k != order ensures IsList(ram.page, heads[k], state.lists[k]) {
        ListFrame(old(ram.page), ram.page, heads[k], state.lists[k]);
      }
      state := state.(lists := Removed(state.lists, Block(item, order)));
    }

    /** Pop the head of the first non-empty list and push back the upper halves. */
    method Alloc(order: nat) returns (r: Option<nat>)
      requires Valid()
      modifies this, ram
      ensures Valid() && state == Step(old(state), OpAlloc(order))
      ensures match BuddySpec.Alloc(old(state.lists), order)
              case None => r == None
              case Some((chunk, _)) => r == Some(chunk)
      ensures LinksOnly(old(ram.page), ram.page, FreeStarts(old(state.lists)) + FreeStarts(state.lists))
    {
      AllocKeepsGood(state, OpAlloc(order));
      AllocInv(state.lists, state.live, order);
      var i := order;
      while i < MAX_ORDER
        invariant order <= i && FirstFit(state.lists, order) == FirstFit(state.lists, i)
        invariant Valid() && state == old(state) && ram.page == old(ram.page)
        decreases MAX_ORDER - i
      {
        if heads[i] != 0 {
          var head, item := Pop(ram, heads[i], state.lists[i]);
          assert state.lists[i] != [];
          heads := heads[i := head];
          var chunk := item.value;
          PopIsRemove(state.lists, i);
          Take(state.lists, state.live, Block(chunk, i));
          RemovedStarts(state.lists, Block(chunk, i));
          state := state.(lists := Removed(state.lists, Block(chunk, i)));
          CarveDown(chunk, order, i);
          state := state.(live := state.live + {Block(chunk, order)});
          AllocPagesPresent(ram.page, old(state), order);
          return Some(chunk);
        }
        assert state.lists[i] == [];
        i := i + 1;
      }
      return None;
    }

    /** Push the upper half of the block in hand. */
    method HalveOnce(chunk: nat, idx: nat)
      requires Rep() && idx > 0 && Holding(ram.page, state.lists, state.live, Block(chunk, idx))
      modifies this, ram
      ensures Rep() && Holding(ram.page, state.lists, state.live, Block(chunk, idx - 1))
      ensures state == old(state).(lists := Pushed(old(state.lists), Block(chunk + OrderSize(idx - 1), idx - 1)))
      ensures LinksOnly(old(ram.page), ram.page, FreeStarts(state.lists))
      ensures FreeStarts(old(state.lists)) <= FreeStarts(state.lists)
    {
      SplitOnce(ram.page, state.lists, state.live, Block(chunk, idx));
      PushAt(idx - 1, chunk + OrderSize(idx - 1));
    }

    /** The loop of `alloc` that halves the popped block. */
    method CarveDown(chunk: nat, order: nat, i: nat)
      requires Rep() && order <= i && Holding(ram.page, state.lists, state.live, Block(chunk, i))
      modifies this, ram
      ensures Rep() && state == old(state).(lists := Carve(old(state.lists), chunk, order, i))
      ensures LinksOnly(old(ram.page), ram.page, FreeStarts(state.lists))
    {
      var idx := i;
      while idx > order
        invariant order <= idx <= i && Rep()
        invariant state == old(state).(lists := state.lists)
        invariant Carve(old(state.lists), chunk, order, i) == Carve(state.lists, chunk, order, idx)
        invariant Holding(ram.page, state.lists, state.live, Block(chunk, idx))
        invariant LinksOnly(old(ram.page), ram.page, FreeStarts(state.lists))
      {
        ghost var page1, touched := ram.page, FreeStarts(state.lists);
        HalveOnce(chunk, idx);
        idx := idx - 1;
        LinksOnlyTrans(old(ram.page), page1, ram.page, touched, FreeStarts(state.lists));
      }
    }

    /** Unlink the buddy of a block in hand, if it is free. */
    method TakeBuddy(current: nat, order: nat, ghost rest: set<Block>) returns (found: bool)
      requires Rep() && Holding(ram.page, state.lists, rest, Block(current, order))
      modifies this, ram
      ensures Rep() && state == old(state).(lists := state.lists)
      ensures found <==> BuddyAddress(current, order) in old(state.lists)[order]
      ensures state.lists == if found then Removed(old(state.lists), Block(BuddyAddress(current, order), order))
                else old(state.lists)
      ensures Holding(ram.page, state.lists, rest, if found then Merged(Block(current, order))
                else Block(current, order))
      ensures LinksOnly(old(ram.page), ram.page, FreeStarts(old(state.lists)))
      ensures FreeStarts(state.lists) <= FreeStarts(old(state.lists))
    {
      ghost var lists := state.lists;
      var buddy := BuddyAddress(current, order);
      MergeOnce(ram.page, lists, rest, Block(current, order));
      ListsDisjoint(lists, rest + {Block(current, order)});
      RemovedStarts(lists, Block(buddy, order)) by { assert Distinct(lists[order]); }
      found := RemoveAt(order, buddy);
      if !found {
        WithoutAbsent(lists[order], buddy);
        assert state.lists == lists;
      }
    }

    /** The loop of `dealloc`: merge upwards while the buddy is free. */
    method MergeUp(start: nat, order: nat, ghost rest: set<Block>) returns (current: nat, k: nat)
      requires Rep() && Holding(ram.page, state.lists, rest, Block(start, order))
      modifies this, ram
      ensures Rep() && state == old(state).(lists := state.lists)
      ensures Holding(ram.page, state.lists, rest, Block(current, k))
      ensures BuddySpec.Dealloc(old(state.lists), start, order) == Pushed(state.lists, Block(current, k))
      ensures LinksOnly(old(ram.page), ram.page, FreeStarts(old(state.lists)))
    {
      ghost var page0, lists0 := ram.page, state.lists;
      current, k := start, order;
      while true
        invariant Rep() && Holding(ram.page, state.lists, rest, Block(current, k))
        invariant state == old(state).(lists := state.lists)
        invariant LinksOnly(page0, ram.page, FreeStarts(lists0)) && FreeStarts(state.lists) <= FreeStarts(lists0)
        invariant BuddySpec.Dealloc(lists0, start, order) == BuddySpec.Dealloc(state.lists, current, k)
        decreases MAX_ORDER - k
      {
        ghost var page1 := ram.page;
        var buddy := BuddyAddress(current, k);
        var found := TakeBuddy(current, k, rest);
        LinksOnlyTrans(page0, page1, ram.page, FreeStarts(lists0), FreeStarts(lists0));
        if !found {
          return;
        }
        current := if buddy < current then buddy else current;
        if k + 1 >= MAX_ORDER {
          return;
        }
        k := k + 1;
      }
    }

    /** Merge upwards while the buddy is free, then push what remains. */
    method Dealloc(start: nat, order: nat)
      requires Valid() && order < MAX_ORDER && Block(start, order) in state.live
      modifies this, ram
      ensures Valid() && state == Step(old(state), OpDealloc(Block(start, order)))
      ensures LinksOnly(old(ram.page), ram.page, FreeStarts(old(state.lists)) + FreeStarts(state.lists))
    {
      DeallocKeepsGood(state, OpDealloc(Block(start, order)));
      ghost var rest := state.live - {Block(start, order)};
      assert rest + {Block(start, order)} == state.live;
      state := state.(live := rest);
      var current, k := MergeUp(start, order, rest);
      ghost var page1 := ram.page;
      PushReady(ram.page, state.lists, rest, Block(current, k));
      PushedStarts(state.lists, Block(current, k));
      PushAt(k, current);
      LinksOnlyTrans(old(ram.page), page1, ram.page, FreeStarts(old(state.lists)),
          FreeStarts(old(state.lists)) + FreeStarts(state.lists));
    }

    /** Hand the memory of [start, end), from the next 4 MiB boundary on, to the allocator. */
    method Add(start: nat, end: nat)
      requires Valid() && Legal(state, OpAdd(start, end))
      requires forall p :: PageIn(p, AlignTop(start), end) ==> p in ram.page
      modifies this, ram
      ensures Valid() && state == Step(old(state), OpAdd(start, end)) && state.live == old(state.live)
      ensures LinksOnly(old(ram.page), ram.page, FreeStarts(state.lists))
      ensures forall c :: IsFree(old(state.lists), c) ==> IsFree(state.lists, c)
      ensures forall c :: IsFree(state.lists, c) && !IsFree(old(state.lists), c) ==> start <= c.start && End(c) <= end
      ensures forall m, p: nat :: m % TOP_SIZE == 0 && start <= m <= p && PageIn(p, m, end) && p + PAGE_SIZE <= end ==>
                PageFree(state.lists, p)
      ensures forall m: nat :: m % TOP_SIZE == 0 && start <= m < start + TOP_SIZE ==>
                FreeBytes(state.lists, MAX_ORDER) == FreeBytes(old(state.lists), MAX_ORDER)
                    + if m < end then (end - m) / PAGE_SIZE * PAGE_SIZE else 0
    {
      ghost var op := OpAdd(start, end);
      AddedMeans(state, op);
      AddReady(state, op);
      AddKeepsGood(state, op);
      var current: nat, orders: nat := AlignTop(start), MAX_ORDER;
      while orders > 0 && current < end
        invariant Adding(state.lists, state.live, AlignTop(start), current, end, orders)
        invariant AddFrame(old(state.lists), AlignTop(start), end, MAX_ORDER) == AddFrame(state.lists, current, end,
                  orders)
        invariant Rep() && state == old(state).(lists := state.lists)
        invariant LinksOnly(old(ram.page), ram.page, FreeStarts(state.lists))
      {
        ghost var before, touched := ram.page, FreeStarts(state.lists);
        orders := orders - 1;
        AddingStep(state.lists, state.live, AlignTop(start), current, end, orders);
        current := PushChunks(orders, current, end);
        LinksOnlyTrans(old(ram.page), before, ram.page, touched, FreeStarts(state.lists));
      }
      state := Step(old(state), op);
      AddPagesPresent(ram.page, old(state), op);
    }

    method PushChunk(order: nat, current: nat, ghost end: nat)
      requires Rep() && Fresh(state.lists, state.live, order, current, end) && current + OrderSize(order) <= end
      requires current in ram.page
      modifies this, ram
      ensures Rep() && state == old(state).(lists := Pushed(old(state.lists), Block(current, order)))
      ensures Fresh(state.lists, state.live, order, current + OrderSize(order), end)
      ensures LinksOnly(old(ram.page), ram.page, FreeStarts(state.lists))
      ensures FreeStarts(old(state.lists)) <= FreeStarts(state.lists)
    {
      ChunkReady(state.lists, state.live, order, current, end);
      PushAt(order, current);
    }

    /** One round of `add_frame`: push as many blocks of one order as fit. */
    method PushChunks(order: nat, from: nat, end: nat) returns (current: nat)
      requires Rep() && Fresh(state.lists, state.live, order, from, end)
      requires forall p :: PageIn(p, from, end) ==> p in ram.page
      modifies this, ram
      ensures Rep() && state == old(state).(lists := PushRun(old(state.lists), order, from, end))
      ensures current == AfterRun(order, from, end)
      ensures LinksOnly(old(ram.page), ram.page, FreeStarts(state.lists))
      ensures FreeStarts(old(state.lists)) <= FreeStarts(state.lists)
    {
      current := from;
      while current + OrderSize(order) <= end
        invariant Rep() && state == old(state).(lists := state.lists)
        invariant from <= current && Fresh(state.lists, state.live, order, current, end)
        invariant AfterRun(order, from, end) == AfterRun(order, current, end)
        invariant PushRun(old(state.lists), order, from, end) == PushRun(state.lists, order, current, end)
        invariant LinksOnly(old(ram.page), ram.page, FreeStarts(state.lists))
        invariant FreeStarts(old(state.lists)) <= FreeStarts(state.lists)
        decreases end - current
      {
        ghost var before, touched := ram.page, FreeStarts(state.lists);
        assert PageIn(current, from, end);
        PushChunk(order, current, end);
        LinksOnlyTrans(old(ram.page), before, ram.page, touched, FreeStarts(state.lists));
        current := current + OrderSize(order);
      }
    }

    /** The owner of a live block may store into its pages: the free lists do not notice. */
    method Store(ghost b: Block, p: nat, contents: Page)
      requires Valid() && b in state.live && PageOf(b, p)
      modifies ram
      ensures Valid() && ram.page == old(ram.page)[p := contents]
    {
      assert Held(state.lists, state.live, b);
      NotListed(state.lists, state.live, b, p);
      ram.page := ram.page[p := contents];
      forall k | 0 <= k < MAX_ORDER ensures IsList(ram.page, heads[k], state.lists[k]) {
        ListFrame(old(ram.page), ram.page, heads[k], state.lists[k]);
      }
    }
  }
}
