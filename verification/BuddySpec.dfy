/**
 The buddy system on abstract free lists: what `add`, `alloc` and `dealloc` do to the free
 list of every order, and the properties of every run of them.
 */
module BuddySpec {
  import opened Memory
  import opened IntrusiveList

  datatype Block = Block(start: nat, order: nat)

  function End(b: Block): nat { b.start + OrderSize(b.order) }

  predicate Apart(b: Block, c: Block) { End(b) <= c.start || End(c) <= b.start }

  /** One list of block addresses per order, most recently pushed first. */
  type Lists = s: seq<seq<nat>> | |s| == MAX_ORDER witness seq(MAX_ORDER, _ => [])

  /** Managed addresses stay clear of the null page even after one buddy flip. */
  const LOWEST: nat := 2 * TOP_SIZE

  predicate IsFree(lists: Lists, b: Block) { b.order < MAX_ORDER && b.start in lists[b.order] }

  function Pushed(lists: Lists, b: Block): Lists
    requires b.order < MAX_ORDER
  {
    lists[b.order := [b.start] + lists[b.order]]
  }

  function Removed(lists: Lists, b: Block): Lists
    requires b.order < MAX_ORDER
  {
    lists[b.order := Without(lists[b.order], b.start)]
  }

  // ----- alloc and dealloc -----

  /** The first order from `order` up whose list is not empty; MAX_ORDER if there is none. */
  function FirstFit(lists: Lists, order: nat): (i: nat)
    ensures i < MAX_ORDER ==> order <= i && lists[i] != []
    ensures forall j :: order <= j < i && j < MAX_ORDER ==> lists[j] == []
    ensures i >= MAX_ORDER ==> i == MAX_ORDER || i == order
    decreases MAX_ORDER - order
  {
    if order >= MAX_ORDER || lists[order] != [] then order else FirstFit(lists, order + 1)
  }

  /** Halve the block of order `i` at `chunk` down to `order`, pushing every upper half. */
  function Carve(lists: Lists, chunk: nat, order: nat, i: nat): Lists
    requires order <= i < MAX_ORDER
    decreases i
  {
    if i == order then lists
    else Carve(Pushed(lists, Block(chunk + OrderSize(i - 1), i - 1)), chunk, order, i - 1)
  }

  function Alloc(lists: Lists, order: nat): Option<(nat, Lists)> {
    var i := FirstFit(lists, order);
    if i >= MAX_ORDER then None
    else
      var chunk := lists[i][0];
      Some((chunk, Carve(lists[i := lists[i][1..]], chunk, order, i)))
  }

  /** Give back the block at `p`, merging upwards while the buddy is free. */
  function Dealloc(lists: Lists, p: nat, order: nat): Lists
    requires order < MAX_ORDER
    decreases MAX_ORDER - order
  {
    var buddy := BuddyAddress(p, order);
    if buddy in lists[order] then
      var lists' := Removed(lists, Block(buddy, order));
      var merged := Min(p, buddy);
      if order + 1 < MAX_ORDER then Dealloc(lists', merged, order + 1)
      else Pushed(lists', Block(merged, order))
    else Pushed(lists, Block(p, order))
  }

  // ----- add -----

  /** Push every block of `order` that fits into [current, end), in address order. */
  function PushRun(lists: Lists, order: nat, current: nat, end: nat): Lists
    requires order < MAX_ORDER
    decreases end - current
  {
    if current + OrderSize(order) > end then lists
    else PushRun(Pushed(lists, Block(current, order)), order, current + OrderSize(order), end)
  }

  /** Where that run of pushes stops. */
  function AfterRun(order: nat, current: nat, end: nat): nat
    decreases end - current
  {
    if current + OrderSize(order) > end then current else AfterRun(order, current + OrderSize(order), end)
  }

  /** Cut [current, end) greedily into blocks of orders below `orders`, largest first. */
  function AddFrame(lists: Lists, current: nat, end: nat, orders: nat): Lists
    requires orders <= MAX_ORDER
    decreases orders, end
  {
    if orders == 0 || current >= end then lists
    else AddFrame(PushRun(lists, orders - 1, current, end), AfterRun(orders - 1, current, end), end, orders - 1)
  }

  /** `align(start, 1 << (BUDDY_MAX_ORDER + 11))`: round up to a multiple of 4 MiB. */
  function AlignTop(start: nat): nat { (start + TOP_SIZE - 1) / TOP_SIZE * TOP_SIZE }

  // ----- the invariant -----

  ghost predicate Held(lists: Lists, live: set<Block>, b: Block) { b in live || IsFree(lists, b) }

  ghost predicate WellPlaced(b: Block) {
    b.order < MAX_ORDER && Aligned(b.start, b.order) && LOWEST <= b.start
  }

  /** Free and live blocks are aligned to their order and pairwise disjoint. */
  ghost predicate Inv(lists: Lists, live: set<Block>) {
    && (forall k :: 0 <= k < MAX_ORDER ==> Distinct(lists[k]))
    && (forall b :: Held(lists, live, b) ==> WellPlaced(b))
    && (forall b :: b in live ==> !IsFree(lists, b))
    && (forall b, c :: Held(lists, live, b) && Held(lists, live, c) && b != c ==> Apart(b, c))
  }

  /** Below the top order, no free block has a free buddy. */
  ghost predicate Coalesced(lists: Lists) {
    forall k, a :: 0 <= k < MAX_ORDER - 1 && a in lists[k] ==> BuddyAddress(a, k) !in lists[k]
  }

  lemma PushedFree(lists: Lists, b: Block)
    requires b.order < MAX_ORDER
    ensures forall c :: IsFree(Pushed(lists, b), c) <==> IsFree(lists, c) || c == b
  {
  }

  lemma RemovedFree(lists: Lists, b: Block)
    requires b.order < MAX_ORDER && Distinct(lists[b.order])
    ensures forall c :: IsFree(Removed(lists, b), c) <==> IsFree(lists, c) && c != b
    ensures Distinct(Removed(lists, b)[b.order])
  {
    WithoutMembers(lists[b.order], b.start);
  }

  /** A block that touches nothing held may join the free lists. */
  lemma AdoptFree(lists: Lists, live: set<Block>, b: Block)
    requires Inv(lists, live) && WellPlaced(b)
    requires !Held(lists, live, b)
    requires forall c :: Held(lists, live, c) ==> Apart(b, c)
    ensures Inv(Pushed(lists, b), live)
  {
    PushedFree(lists, b);
    var lists' := Pushed(lists, b);
    forall k | 0 <= k < MAX_ORDER ensures Distinct(lists'[k]) {
      if k == b.order {
        assert b.start !in lists[k] by { assert !IsFree(lists, b); }
        assert lists'[k] == [b.start] + lists[k];
      } else {
        assert lists'[k] == lists[k];
      }
    }
    forall c | Held(lists', live, c) ensures c == b || Held(lists, live, c) {}
    forall c, d | Held(lists', live, c) && Held(lists', live, d) && c != d ensures Apart(c, d) {}
  }

  lemma Release(lists: Lists, live: set<Block>, b: Block)
    requires Inv(lists, live + {b}) && b !in live && b.order < MAX_ORDER
    ensures Inv(Pushed(lists, b), live)
  {
    assert Inv(lists, live) by {
      forall c | Held(lists, live, c) ensures Held(lists, live + {b}, c) {}
    }
    assert b in live + {b};
    forall c | Held(lists, live, c) ensures Apart(b, c) {
      assert Held(lists, live + {b}, c) && Held(lists, live + {b}, b);
    }
    assert Held(lists, live + {b}, b);
    AdoptFree(lists, live, b);
  }

  lemma Take(lists: Lists, live: set<Block>, b: Block)
    requires Inv(lists, live) && IsFree(lists, b)
    ensures Inv(Removed(lists, b), live + {b}) && b !in live
  {
    RemovedFree(lists, b);
    forall c | Held(Removed(lists, b), live + {b}, c) ensures Held(lists, live, c) {}
    assert forall k :: 0 <= k < MAX_ORDER && k != b.order ==> Removed(lists, b)[k] == lists[k];
  }

  lemma DropLive(lists: Lists, live: set<Block>, b: Block)
    requires Inv(lists, live + {b})
    ensures Inv(lists, live - {b})
  {
    forall c | Held(lists, live - {b}, c) ensures Held(lists, live + {b}, c) {}
  }

  function LowHalf(b: Block): Block requires b.order > 0 { Block(b.start, b.order - 1) }
  function HighHalf(b: Block): Block requires b.order > 0 { Block(b.start + OrderSize(b.order - 1), b.order - 1) }

  lemma SplitHeld(lists: Lists, live: set<Block>, b: Block)
    requires Inv(lists, live + {b}) && b !in live && b.order > 0
    ensures Inv(lists, live + {LowHalf(b)} + {HighHalf(b)})
    ensures LowHalf(b) !in live && HighHalf(b) !in live + {LowHalf(b)}
    ensures BuddyAddress(HighHalf(b).start, b.order - 1) == b.start
  {
    var lo, hi := LowHalf(b), HighHalf(b);
    var live' := live + {lo} + {hi};
    assert Held(lists, live + {b}, b);
    SplitHalves(b.start, b.order - 1);
    forall c | Held(lists, live + {b}, c) && c != b ensures Apart(lo, c) && Apart(hi, c) {
      assert Apart(b, c);
    }
    assert !Held(lists, live, lo) && !Held(lists, live, hi) by {
      assert Held(lists, live, lo) ==> Held(lists, live + {b}, lo);
      assert Held(lists, live, hi) ==> Held(lists, live + {b}, hi);
    }
    forall c | Held(lists, live', c) ensures c == lo || c == hi || (c != b && Held(lists, live + {b}, c)) {}
  }

  lemma MergeHeld(lists: Lists, live: set<Block>, b: Block)
    requires b.order > 0 && b.order < MAX_ORDER && Aligned(b.start, b.order)
    requires Inv(lists, live + {LowHalf(b)} + {HighHalf(b)})
    requires LowHalf(b) !in live && HighHalf(b) !in live
    ensures Inv(lists, live + {b}) && b !in live
  {
    var lo, hi := LowHalf(b), HighHalf(b);
    var live' := live + {lo} + {hi};
    assert Held(lists, live', lo) && Held(lists, live', hi);
    forall c | Held(lists, live, c) ensures Held(lists, live', c) && c != lo && c != hi && Apart(b, c) {
      assert Held(lists, live', c);
      assert Apart(lo, c) && Apart(hi, c);
    }
    assert !Held(lists, live, b);
    forall c | Held(lists, live + {b}, c) ensures c == b || Held(lists, live, c) {}
  }
}
