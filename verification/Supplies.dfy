/** When memory runs out: which sequences of requests the buddy system can serve. */
module Supplies {
  import opened Memory
  import opened IntrusiveList
  import opened BuddySpec
  import opened BuddyProperties

  /** The free lists after one block of each order in turn; None once a block cannot be had. */
  function Supply(lists: Lists, orders: seq<nat>): Option<Lists>
    decreases orders
  {
    if orders == [] then Some(lists)
    else
      match Alloc(lists, orders[0])
      case None => None
      case Some((_, lists')) => Supply(lists', orders[1..])
  }

  /** No block of the order or above is free. */
  ghost predicate NoneFrom(lists: Lists, order: nat) { forall b :: IsFree(lists, b) ==> b.order < order }

  /** A request fails exactly if no free block is large enough. */
  lemma AllocFails(lists: Lists, order: nat)
    ensures Alloc(lists, order).None? <==> NoneFrom(lists, order)
  {
    var i := FirstFit(lists, order);
    if i < MAX_ORDER {
      assert IsFree(lists, Block(lists[i][0], i));
    }
  }

  lemma SupplyOne(lists: Lists, order: nat)
    ensures Supply(lists, [order]) == match Alloc(lists, order) case None => None case Some((_, l)) => Some(l)
  {
  }

  lemma {:induction false} SupplyConcat(lists: Lists, a: seq<nat>, b: seq<nat>)
    ensures Supply(lists, a + b) == match Supply(lists, a) case None => None case Some(l) => Supply(l, b)
    decreases a
  {
    hide Alloc;
    if a == [] {
      assert a + b == b;
    } else {
      assert (a + b)[1..] == a[1..] + b && (a + b)[0] == a[0];
      match Alloc(lists, a[0])
      case None =>
      case Some((_, l)) => SupplyConcat(l, a[1..], b);
    }
  }

  /** A sequence of requests fails exactly if, once some of them are served, no block is left for the next. */
  lemma {:induction false} SupplyFails(lists: Lists, orders: seq<nat>)
    ensures Supply(lists, orders).None? <==>
            exists i: nat :: i < |orders| && Supply(lists, orders[..i]).Some?
                && NoneFrom(Supply(lists, orders[..i]).value, orders[i])
  {
    hide Alloc, NoneFrom;
    if Supply(lists, orders).None? {
      var i := FirstShort(lists, orders);
    }
    forall i: nat | i < |orders| && Supply(lists, orders[..i]).Some?
        && NoneFrom(Supply(lists, orders[..i]).value, orders[i]) ensures Supply(lists, orders).None?
    {
      assert orders == orders[..i] + orders[i..];
      SupplyConcat(lists, orders[..i], orders[i..]);
      AllocFails(Supply(lists, orders[..i]).value, orders[i]);
    }
  }

  lemma {:induction false} FirstShort(lists: Lists, orders: seq<nat>) returns (i: nat)
    requires Supply(lists, orders).None?
    ensures i < |orders| && Supply(lists, orders[..i]).Some?
    ensures NoneFrom(Supply(lists, orders[..i]).value, orders[i])
    decreases orders
  {
    hide Alloc, NoneFrom;
    AllocFails(lists, orders[0]);
    match Alloc(lists, orders[0])
    case None => i := 0;
    case Some((_, l)) =>
      var j := FirstShort(l, orders[1..]);
      i := j + 1;
      assert orders[..i][0] == orders[0] && orders[..i][1..] == orders[1..][..j];
  }

  // ----- how much is enough -----

  ghost predicate AllDistinct(lists: Lists) { forall k :: 0 <= k < MAX_ORDER ==> Distinct(lists[k]) }

  function FreePages(lists: Lists): nat { FreeBytes(lists, MAX_ORDER) / PAGE_SIZE }

  lemma {:induction false} BytesArePages(lists: Lists, orders: nat)
    requires orders <= MAX_ORDER
    ensures FreeBytes(lists, orders) % PAGE_SIZE == 0
    ensures FreeBytes(lists, orders) == 0 <==> forall k :: 0 <= k < orders ==> lists[k] == []
    decreases orders
  {
    hide OrderSize;
    if orders > 0 {
      BytesArePages(lists, orders - 1);
      SomeBytes(|lists[orders - 1]|, orders - 1);
      PageMultiple(FreeBytes(lists, orders - 1), |lists[orders - 1]| * Pow2(orders - 1));
    }
  }

  lemma SomeBytes(n: nat, order: nat)
    ensures n * OrderSize(order) == PAGE_SIZE * (n * Pow2(order))
    ensures n > 0 ==> n * OrderSize(order) > 0
  {
    if n > 0 {
      assert n * OrderSize(order) == OrderSize(order) + (n - 1) * OrderSize(order);
    }
  }

  lemma PageMultiple(a: nat, b: nat)
    requires a % PAGE_SIZE == 0
    ensures (a + PAGE_SIZE * b) % PAGE_SIZE == 0
  {
  }

  /** One page can be had exactly if any is free, and takes just that page. */
  lemma OnePage(lists: Lists)
    requires AllDistinct(lists)
    ensures Alloc(lists, 0).None? <==> FreePages(lists) == 0
    ensures Alloc(lists, 0).Some? ==> FreePages(Alloc(lists, 0).value.1) == FreePages(lists) - 1
  {
    BytesArePages(lists, MAX_ORDER);
    AllocBytes(lists, 0);
    OrderSizes();
    if FirstFit(lists, 0) < MAX_ORDER {
      BytesArePages(Alloc(lists, 0).value.1, MAX_ORDER);
    }
  }

  /** Free blocks of the highest order. */
  function TopFree(lists: Lists): nat { |lists[MAX_ORDER - 1]| }

  lemma {:induction false} CarveTop(lists: Lists, chunk: nat, order: nat, i: nat)
    requires order <= i < MAX_ORDER
    ensures TopFree(Carve(lists, chunk, order, i)) == TopFree(lists)
    decreases i
  {
    if i > order {
      CarveTop(Pushed(lists, Block(chunk + OrderSize(i - 1), i - 1)), chunk, order, i - 1);
    }
  }

  lemma AllocTop(lists: Lists, order: nat)
    ensures order < MAX_ORDER && TopFree(lists) > 0 ==> Alloc(lists, order).Some?
    ensures Alloc(lists, order).Some? ==> TopFree(lists) - 1 <= TopFree(Alloc(lists, order).value.1) <= TopFree(lists)
  {
    var i := FirstFit(lists, order);
    if i < MAX_ORDER {
      CarveTop(lists[i := lists[i][1..]], lists[i][0], order, i);
    }
  }

  /** Giving a block back never costs a block of the highest order: a lost buddy is replaced. */
  lemma {:induction false} DeallocTop(lists: Lists, p: nat, order: nat)
    requires order < MAX_ORDER && AllDistinct(lists)
    ensures TopFree(Dealloc(lists, p, order)) >= TopFree(lists)
    decreases MAX_ORDER - order
  {
    var buddy := BuddyAddress(p, order);
    if buddy in lists[order] {
      RemovedFree(lists, Block(buddy, order));
      WithoutMembers(lists[order], buddy);
      if order + 1 < MAX_ORDER {
        DeallocTop(Removed(lists, Block(buddy, order)), Min(p, buddy), order + 1);
      }
    }
  }

  /** As many free 4 MiB blocks as requests are enough, whatever their orders. */
  lemma {:induction false} TopSupplies(lists: Lists, orders: seq<nat>)
    requires TopFree(lists) >= |orders| && forall i :: 0 <= i < |orders| ==> orders[i] < MAX_ORDER
    ensures Supply(lists, orders).Some? && TopFree(Supply(lists, orders).value) >= TopFree(lists) - |orders|
    decreases orders
  {
    hide Alloc;
    if orders != [] {
      AllocTop(lists, orders[0]);
      TopSupplies(Alloc(lists, orders[0]).value.1, orders[1..]);
    }
  }

  /** Every free 4 MiB block is 1024 free pages. */
  lemma TopPages(lists: Lists)
    ensures FreePages(lists) >= 1024 * TopFree(lists)
  {
    OrderSizes();
    assert FreeBytes(lists, MAX_ORDER) == FreeBytes(lists, MAX_ORDER - 1) + TopFree(lists) * TOP_SIZE;
    assert TopFree(lists) * TOP_SIZE == PAGE_SIZE * (1024 * TopFree(lists));
  }

  function TotalOf(orders: seq<nat>): nat { if orders == [] then 0 else OrderSize(orders[0]) + TotalOf(orders[1..]) }

  /** Requests that are served take exactly their bytes, so no more than were free. */
  lemma {:induction false} SupplyBytes(lists: Lists, live: set<Block>, orders: seq<nat>)
    requires Inv(lists, live) && Supply(lists, orders).Some?
    ensures FreeBytes(Supply(lists, orders).value, MAX_ORDER) == FreeBytes(lists, MAX_ORDER) - TotalOf(orders)
    decreases orders
  {
    hide Alloc, FreeBytes;
    if orders != [] {
      AllocBytes(lists, orders[0]);
      AllocInv(lists, live, orders[0]);
      var (chunk, l) := Alloc(lists, orders[0]).value;
      SupplyBytes(l, live + {Block(chunk, orders[0])}, orders[1..]);
    }
  }

  function Zeros(n: nat): seq<nat> { seq(n, _ => 0) }

  lemma SupplyZeros(lists: Lists, n: nat)
    ensures n == 0 ==> Supply(lists, Zeros(n)) == Some(lists)
    ensures n > 0 ==>
              Supply(lists, Zeros(n)) ==
              match Supply(lists, [0]) case None => None case Some(l) => Supply(l, Zeros(n - 1))
  {
    if n > 0 {
      assert Zeros(n) == [0] + Zeros(n - 1);
      SupplyConcat(lists, [0], Zeros(n - 1));
    }
  }

  /** Single pages are served exactly as long as there are any. */
  lemma {:induction false} SupplyPages(lists: Lists, live: set<Block>, n: nat)
    requires Inv(lists, live)
    ensures Supply(lists, Zeros(n)).Some? <==> FreePages(lists) >= n
    ensures Supply(lists, Zeros(n)).Some? ==> FreePages(Supply(lists, Zeros(n)).value) == FreePages(lists) - n
    decreases n
  {
    hide Alloc, FreePages;
    if n > 0 {
      OnePage(lists);
      AllocInv(lists, live, 0);
      assert Zeros(n)[1..] == Zeros(n - 1);
      if Alloc(lists, 0).Some? {
        var (chunk, l) := Alloc(lists, 0).value;
        SupplyPages(l, live + {Block(chunk, 0)}, n - 1);
      }
    }
  }
}
