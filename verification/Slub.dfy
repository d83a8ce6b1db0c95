/** SLUB caches: pages from the buddy system cut into objects of one size. */
module Slub {
  import opened Memory
  import opened BuddySpec
  import opened BuddyProperties
  import opened Buddy
  import opened Frames
  import opened Supplies

  const SLUB_MIN_ORDER: nat := 4
  const SLUB_MAX_ORDER: nat := 12
  const CACHES_MAX: nat := SLUB_MAX_ORDER - SLUB_MIN_ORDER
  const SLUB_MIN_OBJECTS: nat := 4
  const SLUB_MAX_PAGE_SIZE: nat := 1048576
  /** Page size, next page, free list, counters and page start: six words. */
  const HEADER_SIZE: nat := 48

  // ----- multiples of powers of two -----

  /** `a` is a multiple of 2^n. */
  predicate Multiple(a: nat, n: nat) { AlignedPage(a, n) }

  lemma {:induction false} MultipleSum(a: nat, b: nat, n: nat)
    requires Multiple(a, n) && Multiple(b, n)
    ensures Multiple(a + b, n)
    decreases n
  {
    if n > 0 {
      MultipleSum(a / 2, b / 2, n - 1);
      assert (a + b) / 2 == a / 2 + b / 2;
    }
  }

  lemma {:induction false} MultipleLess(a: nat, n: nat, m: nat)
    requires Multiple(a, n) && m <= n
    ensures Multiple(a, m)
    decreases n
  {
    if m > 0 {
      MultipleLess(a / 2, n - 1, m - 1);
    }
  }

  lemma {:induction false} MultiplePow2(k: nat, n: nat)
    requires n <= k
    ensures Multiple(Pow2(k), n)
    decreases n
  {
    if n > 0 {
      MultiplePow2(k - 1, n - 1);
      Doubled(Pow2(k - 1), n - 1);
    }
  }

  lemma Doubled(a: nat, n: nat)
    requires Multiple(a, n)
    ensures Multiple(2 * a, n + 1)
  {
    assert 2 * a / 2 == a && 2 * a % 2 == 0;
  }

  lemma {:induction false} MultipleShift(a: nat, m: nat, n: nat)
    requires Multiple(a, n)
    ensures Multiple(Pow2(m) * a, m + n)
    decreases m
  {
    if m > 0 {
      MultipleShift(a, m - 1, n);
      assert Pow2(m) * a == 2 * (Pow2(m - 1) * a);
    } else {
      assert Pow2(0) * a == a;
    }
  }

  /** What it means. */
  lemma MultipleIs(a: nat, n: nat)
    requires Multiple(a, n)
    ensures a % Pow2(n) == 0
  {
    NoLowBits(a, n);
    LowBitsAreMod(a, n);
  }

  lemma {:induction false} NoLowBits(a: nat, n: nat)
    requires AlignedPage(a, n)
    ensures LowBits(a, n) == 0
    decreases n
  {
    if n > 0 {
      NoLowBits(a / 2, n - 1);
    }
  }

  /** A buddy block's address is a multiple of its size. */
  lemma BlockMultiple(b: Block)
    requires WellPlaced(b)
    ensures Multiple(b.start, 12 + b.order)
  {
    assert b.start == PAGE_SIZE * (b.start / PAGE_SIZE);
    assert Pow2(12) == PAGE_SIZE;
    MultipleShift(b.start / PAGE_SIZE, 12, b.order);
  }

  // ----- layouts -----

  /** `layout_order`: the least power of two that holds size and alignment. */
  function LayoutOrder(size: nat, align: nat): nat {
    var n := if size < align then align else size;
    Ilog2Ceil(if n < 16 then 16 else n)
  }

  /** An object of that order is large enough, and its alignment is enough. */
  lemma LayoutFits(size: nat, a: nat, addr: nat)
    requires Multiple(addr, LayoutOrder(size, Pow2(a)))
    ensures size <= Pow2(LayoutOrder(size, Pow2(a))) && addr % Pow2(a) == 0
              && LayoutOrder(size, Pow2(a)) >= SLUB_MIN_ORDER
  {
    var align := Pow2(a);
    var n := if size < align then align else size;
    var m := if n < 16 then 16 else n;
    var o := LayoutOrder(size, align);
    CeilBounds(m);
    Pow2Positive(o);
    assert Pow2(o + 1) == 2 * Pow2(o);
    if a > o {
      Pow2Monotone(o + 1, a);
    }
    assert Pow2(3) == 8;
    if o < SLUB_MIN_ORDER {
      Pow2Monotone(o, 3);
    }
    MultipleLess(addr, o, a);
    MultipleIs(addr, a);
  }

  /** And no smaller power of two from 16 on would do. */
  lemma LayoutLeast(size: nat, a: nat, o: nat)
    requires SLUB_MIN_ORDER <= o && size <= Pow2(o) && a <= o
    ensures LayoutOrder(size, Pow2(a)) <= o
  {
    var align := Pow2(a);
    var n := if size < align then align else size;
    var m := if n < 16 then 16 else n;
    assert LayoutOrder(size, align) == Ilog2Ceil(m);
    assert Pow2(4) == 16 by { ClassSizes(); }
    hide *;
    Pow2Monotone(4, o);
    Pow2Monotone(a, o);
    LeastCeil(m, o);
  }

  lemma LeastCeil(m: nat, o: nat)
    requires 0 < m <= Pow2(o)
    ensures Ilog2Ceil(m) <= o
  {
    hide Ilog2Ceil, Frames.Ilog2Ceil;
    CeilBounds(m);
    if Ilog2Ceil(m) > o {
      Pow2Monotone(o, Ilog2Ceil(m) - 1);
    }
  }

  lemma {:induction false} Pow2Positive(n: nat)
    ensures Pow2(n) > 0
  {
    if n > 0 {
      Pow2Positive(n - 1);
    }
  }

  // ----- how a page is cut up -----

  predicate IsClass(order: nat) { SLUB_MIN_ORDER <= order < SLUB_MAX_ORDER }

  /** The first multiple of the object size behind the header. */
  function StartOffset(order: nat): nat
    requires Pow2(order) > 0
  {
    (HEADER_SIZE + Pow2(order) - 1) / Pow2(order) * Pow2(order)
  }

  /** The size of a page for objects of a class: two buddy pages for the largest, one for the others. */
  function PageSizeOf(order: nat): nat { if order == SLUB_MAX_ORDER - 1 then 2 * PAGE_SIZE else PAGE_SIZE }

  lemma ClassSizes()
    ensures Pow2(4) == 16 && Pow2(5) == 32 && Pow2(6) == 64 && Pow2(7) == 128 && Pow2(8) == 256 && Pow2(9) == 512
              && Pow2(10) == 1024 && Pow2(11) == 2048
  {
  }

  /** Every class: the header is clear, and at least three objects fit. */
  lemma ClassFacts(order: nat)
    requires IsClass(order)
    ensures Pow2(order) > 0 && StartOffset(order) >= HEADER_SIZE && Multiple(StartOffset(order), order)
    ensures StartOffset(order) + 3 * Pow2(order) <= PageSizeOf(order) && Pow2(order) <= PAGE_SIZE
  {
    ClassSizes();
    MultiplePow2(order, order);
    if order == 4 {
      assert StartOffset(4) == 48;
      MultipleSum(16, 16, 4);
      MultipleSum(32, 16, 4);
    } else if order == 5 {
      assert StartOffset(5) == 64;
      MultipleSum(32, 32, 5);
    } else {
      LargeClass(order);
    }
  }

  lemma LargeClass(order: nat)
    requires 6 <= order < SLUB_MAX_ORDER
    ensures Pow2(order) > 0 && StartOffset(order) == Pow2(order) && 4 * Pow2(order) <= PageSizeOf(order)
              && Pow2(order) >= 64
  {
    ClassSizes();
    var size := Pow2(order);
    assert size == 64 || size == 128 || size == 256 || size == 512 || size == 1024 || size == 2048;
    DivModUnique(HEADER_SIZE + size - 1, size, 1, HEADER_SIZE - 1);
  }

  /** The size of a new page, as it is worked out. */
  method ChoosePageSize(order: nat) returns (pageSize: nat)
    requires IsClass(order)
    ensures pageSize == PageSizeOf(order)
  {
    Pow2Positive(order);
    var size := Pow2(order);
    var minPageSize := StartOffset(order) + size;
    pageSize := PAGE_SIZE;
    while pageSize < minPageSize
      invariant pageSize == PAGE_SIZE || PAGE_SIZE <= pageSize / 2 < minPageSize
      decreases minPageSize - pageSize
    {
      pageSize := pageSize * 2;
    }
    OnePageHolds(order);
    var desired := pageSize / size;
    if desired < SLUB_MIN_OBJECTS && pageSize < SLUB_MAX_PAGE_SIZE {
      var doubled := pageSize * 2;
      if doubled / size >= 2 {
        pageSize := doubled;
      }
    }
  }

  lemma OnePageHolds(order: nat)
    requires IsClass(order)
    ensures Pow2(order) > 0 && StartOffset(order) + Pow2(order) <= PAGE_SIZE
    ensures PAGE_SIZE / Pow2(order) < SLUB_MIN_OBJECTS <==> order == SLUB_MAX_ORDER - 1
    ensures order == SLUB_MAX_ORDER - 1 ==> 2 * PAGE_SIZE / Pow2(order) == 4
  {
    ClassFacts(order);
    ClassSizes();
    if order >= 6 {
      LargeClass(order);
    }
  }

  /** The objects that fit between `pos` and `end`. */
  function Slots(pos: nat, size: nat, end: nat): seq<nat>
    requires size > 0
    decreases end - pos
  {
    if pos + size <= end then [pos] + Slots(pos + size, size, end) else []
  }

  /** Objects between the bounds, one after the other. */
  ghost predicate Spread(s: seq<nat>, pos: nat, size: nat, end: nat) {
    && (forall i :: 0 <= i < |s| ==> pos <= s[i] && s[i] + size <= end)
    && (forall i, j :: 0 <= i < j < |s| ==> s[i] + size <= s[j])
  }

  lemma {:induction false} SlotsApart(pos: nat, size: nat, end: nat)
    requires size > 0
    ensures Spread(Slots(pos, size, end), pos, size, end)
    decreases end - pos
  {
    if pos + size <= end {
      SlotsApart(pos + size, size, end);
      SpreadMore(Slots(pos + size, size, end), pos, size, end);
    }
  }

  lemma SpreadMore(rest: seq<nat>, pos: nat, size: nat, end: nat)
    requires Spread(rest, pos + size, size, end) && pos + size <= end
    ensures Spread([pos] + rest, pos, size, end)
  {
  }

  lemma {:induction false} SlotsMultiple(pos: nat, order: nat, end: nat)
    requires Multiple(pos, order) && Pow2(order) > 0
    ensures forall i :: 0 <= i < |Slots(pos, Pow2(order), end)| ==> Multiple(Slots(pos, Pow2(order), end)[i], order)
    decreases end - pos
  {
    if pos + Pow2(order) <= end {
      MultiplePow2(order, order);
      MultipleSum(pos, Pow2(order), order);
      SlotsMultiple(pos + Pow2(order), order, end);
    }
  }

  lemma ThreeSlots(pos: nat, size: nat, end: nat)
    requires size > 0 && pos + 3 * size <= end
    ensures |Slots(pos, size, end)| >= 3
  {
    assert Slots(pos, size, end) == [pos] + Slots(pos + size, size, end);
    assert Slots(pos + size, size, end) == [pos + size] + Slots(pos + 2 * size, size, end);
    assert Slots(pos + 2 * size, size, end) == [pos + 2 * size] + Slots(pos + 3 * size, size, end);
  }

  // ----- pages -----

  /** A page of a cache: its free objects, most recently freed first. */
  datatype SlubPage = SlubPage(start: nat, pageSize: nat, objects: nat, free: seq<nat>, inuse: nat)

  ghost function SlotsOf(start: nat, order: nat): seq<nat>
    requires IsClass(order)
  {
    ClassFacts(order);
    Slots(start + StartOffset(order), Pow2(order), start + PageSizeOf(order))
  }

  ghost predicate NoRepeats(s: seq<nat>) { forall i, j :: 0 <= i < j < |s| ==> s[i] != s[j] }

  ghost predicate PageOk(p: SlubPage, order: nat)
    requires IsClass(order)
  {
    && p.pageSize == PageSizeOf(order) && p.objects == |SlotsOf(p.start, order)| && |p.free| + p.inuse == p.objects
    && NoRepeats(p.free) && forall i :: 0 <= i < |p.free| ==> p.free[i] in SlotsOf(p.start, order)
  }

  /** The addresses given out from a page. */
  ghost function Taken(p: SlubPage, order: nat): set<nat>
    requires IsClass(order)
  {
    set a | a in SlotsOf(p.start, order) && a !in p.free
  }

  /** Objects of a page: inside it, clear of the header, apart, aligned. */
  lemma ObjectPlaces(start: nat, order: nat)
    requires IsClass(order)
    ensures var s := SlotsOf(start, order);
            && |s| >= 3
            && (forall i :: 0 <= i < |s| ==>
                 start + HEADER_SIZE <= s[i] && s[i] + Pow2(order) <= start + PageSizeOf(order))
            && (forall i, j :: 0 <= i < j < |s| ==> s[i] + Pow2(order) <= s[j])
  {
    ClassFacts(order);
    ThreeSlots(start + StartOffset(order), Pow2(order), start + PageSizeOf(order));
    SlotsApart(start + StartOffset(order), Pow2(order), start + PageSizeOf(order));
  }

  lemma ObjectAligned(start: nat, order: nat, i: nat)
    requires IsClass(order) && Multiple(start, 12) && i < |SlotsOf(start, order)|
    ensures Multiple(SlotsOf(start, order)[i], order)
  {
    ClassFacts(order);
    MultipleLess(start, 12, order);
    MultipleSum(start, StartOffset(order), order);
    SlotsMultiple(start + StartOffset(order), order, start + PageSizeOf(order));
  }

  /** Cut a new page into objects, pushing them one by one. */
  method CutPage(start: nat, order: nat) returns (p: SlubPage)
    requires IsClass(order)
    ensures PageOk(p, order) && p.start == start && p.inuse == 0 && Taken(p, order) == {}
  {
    ClassFacts(order);
    var size := Pow2(order);
    var end := start + PageSizeOf(order);
    var pos, count, free := start + StartOffset(order), 0, [];
    ghost var all := Slots(pos, size, end);
    assert all[..0] == [];
    while pos + size <= end
      invariant count <= |all| && Slots(pos, size, end) == all[count..]
      invariant |free| == count && forall i :: 0 <= i < count ==> free[i] == all[count - 1 - i]
      decreases end - pos
    {
      assert all[count..][0] == pos && all[count..][1..] == all[count + 1..];
      free := [pos] + free;
      pos := pos + size;
      count := count + 1;
    }
    assert all[count..] == [] && count == |all|;
    p := SlubPage(start, PageSizeOf(order), count, free, 0);
    ReversedOk(all, free, start, order);
  }

  lemma ReversedOk(all: seq<nat>, free: seq<nat>, start: nat, order: nat)
    requires IsClass(order) && all == SlotsOf(start, order) && |free| == |all| && forall i :: 0 <= i < |all| ==>
              free[i] == all[|all| - 1 - i]
    ensures NoRepeats(free) && forall a :: a in all <==> a in free
  {
    ObjectPlaces(start, order);
    ClassFacts(order);
    forall a | a in all ensures a in free {
      var i :| 0 <= i < |all| && all[i] == a;
      assert free[|all| - 1 - i] == a;
    }
  }

  /** `alloc_obj`: take the first free object. */
  function TakeObject(p: SlubPage): SlubPage
    requires p.free != []
  {
    p.(free := p.free[1..], inuse := p.inuse + 1)
  }

  lemma TakeOk(p: SlubPage, order: nat)
    requires IsClass(order) && PageOk(p, order) && p.free != []
    ensures PageOk(TakeObject(p), order) && p.free[0] !in Taken(p, order)
              && Taken(TakeObject(p), order) == Taken(p, order) + {p.free[0]}
  {
    hide SlotsOf;
  }

  /** `dealloc_obj`: put an object back in front. */
  function GiveObject(p: SlubPage, a: nat): SlubPage
    requires p.inuse > 0
  {
    p.(free := [a] + p.free, inuse := p.inuse - 1)
  }

  lemma GiveOk(p: SlubPage, order: nat, a: nat)
    requires IsClass(order) && PageOk(p, order) && a in Taken(p, order)
    ensures p.inuse > 0 && PageOk(GiveObject(p, a), order) && Taken(GiveObject(p, a), order) == Taken(p, order) - {a}
  {
    InUseCount(p, order);
    hide SlotsOf;
    var q := GiveObject(p, a);
    assert q.free == [a] + p.free;
  }

  /** `inuse` counts the objects given out. */
  lemma InUseCount(p: SlubPage, order: nat)
    requires IsClass(order) && PageOk(p, order)
    ensures |Taken(p, order)| == p.inuse
  {
    var slots := SlotsOf(p.start, order);
    ObjectPlaces(p.start, order);
    ClassFacts(order);
    SizeOfDistinct(slots);
    SizeOfDistinct(p.free);
    assert Elements(p.free) <= Elements(slots);
    assert Taken(p, order) == Elements(slots) - Elements(p.free);
  }

  ghost function Elements(s: seq<nat>): set<nat> { set a | a in s }

  lemma {:induction false} SizeOfDistinct(s: seq<nat>)
    requires NoRepeats(s)
    ensures |Elements(s)| == |s|
    decreases |s|
  {
    if s != [] {
      SizeOfDistinct(s[1..]);
      assert s == [s[0]] + s[1..] && s[0] !in s[1..];
      assert Elements(s) == Elements(s[1..]) + {s[0]};
    }
  }

  // ----- sets of pages -----

  function BlockOfPage(start: nat, order: nat): Block { Block(start, if order == SLUB_MAX_ORDER - 1 then 1 else 0) }

  ghost function PagesOf(ps: seq<SlubPage>): set<SlubPage> { set p | p in ps }

  /** The addresses given out from some pages. */
  ghost function TakenOf(pages: set<SlubPage>, order: nat): set<nat>
    requires IsClass(order)
  {
    set p, a | p in pages && a in Taken(p, order) :: a
  }

  ghost function BlocksOf(pages: set<SlubPage>,
      order: nat): set<Block> { set p | p in pages :: BlockOfPage(p.start, order) }

  /** Every page is cut up correctly, lives in a block of its own, and that block is allocated. */
  ghost predicate Backed(pages: set<SlubPage>, order: nat, live: set<Block>) {
    && IsClass(order)
    && (forall p :: p in pages ==> PageOk(p, order) && BlockOfPage(p.start, order) in live)
    && (forall p, q :: p in pages && q in pages && p.start == q.start ==> p == q)
  }

  /** Two pages of the buddy system do not share an address. */
  lemma PagesApart(lists: Lists, live: set<Block>, p: nat, q: nat, order: nat)
    requires Inv(lists, live) && IsClass(order) && BlockOfPage(p, order) in live && BlockOfPage(q, order) in live
              && p != q
    ensures p + PageSizeOf(order) <= q || q + PageSizeOf(order) <= p
  {
    OrderSizes();
    assert Held(lists, live, BlockOfPage(p, order)) && Held(lists, live, BlockOfPage(q, order));
    assert Apart(BlockOfPage(p, order), BlockOfPage(q, order));
  }

  /** An address given out lies inside its page, behind the header. */
  lemma TakenInside(p: SlubPage, order: nat, a: nat)
    requires IsClass(order) && a in Taken(p, order)
    ensures p.start + HEADER_SIZE <= a && a + Pow2(order) <= p.start + PageSizeOf(order) && Pow2(order) > 0
  {
    ObjectPlaces(p.start, order);
    ClassFacts(order);
  }

  /** The page that holds an address is the one it was taken from. */
  lemma OneOwner(lists: Lists, live: set<Block>, pages: set<SlubPage>, order: nat, p: SlubPage, q: SlubPage, a: nat)
    requires Inv(lists, live) && Backed(pages, order, live) && p in pages && q in pages
    requires a in Taken(p, order) && q.start <= a < q.start + q.pageSize
    ensures p == q
  {
    TakenInside(p, order, a);
    if p.start != q.start {
      PagesApart(lists, live, p.start, q.start, order);
    }
  }

  lemma TakenApart(lists: Lists, live: set<Block>, pages: set<SlubPage>, order: nat, p: SlubPage)
    requires Inv(lists, live) && Backed(pages, order, live) && p in pages
    ensures TakenOf(pages - {p}, order) == TakenOf(pages, order) - Taken(p, order)
  {
    forall q, a | q in pages && q != p && a in Taken(q, order) ensures a !in Taken(p, order) {
      TakenInside(q, order, a);
      if a in Taken(p, order) {
        OneOwner(lists, live, pages, order, p, q, a);
      }
    }
    hide Taken;
  }

  lemma TakenAdd(pages: set<SlubPage>, order: nat, q: SlubPage)
    requires IsClass(order)
    ensures TakenOf(pages + {q}, order) == TakenOf(pages, order) + Taken(q, order)
    ensures BlocksOf(pages + {q}, order) == BlocksOf(pages, order) + {BlockOfPage(q.start, order)}
  {
    hide Taken;
  }

  /** A page updated in place: same blocks, and only its own addresses change. */
  lemma ReplacePage(lists: Lists, live: set<Block>, pages: set<SlubPage>, order: nat, p: SlubPage, q: SlubPage)
    requires Inv(lists, live) && Backed(pages, order, live) && p in pages && q.start == p.start && PageOk(q, order)
    ensures var after := pages - {p} + {q};
            && Backed(after, order, live) && BlocksOf(after, order) == BlocksOf(pages, order)
            && TakenOf(after, order) == TakenOf(pages, order) - Taken(p, order) + Taken(q, order)
  {
    TakenApart(lists, live, pages, order, p);
    TakenAdd(pages - {p}, order, q);
    hide PageOk, Taken, TakenOf;
    assert pages - {p} + {p} == pages;
    TakenAdd(pages - {p}, order, p);
  }

  /** A page given up takes its block and its addresses with it. */
  lemma DropPage(lists: Lists, live: set<Block>, pages: set<SlubPage>, order: nat, p: SlubPage)
    requires Inv(lists, live) && Backed(pages, order, live) && p in pages
    ensures Backed(pages - {p}, order, live - {BlockOfPage(p.start, order)})
    ensures BlocksOf(pages - {p}, order) == BlocksOf(pages, order) - {BlockOfPage(p.start, order)}
    ensures TakenOf(pages - {p}, order) == TakenOf(pages, order) - Taken(p, order)
  {
    TakenApart(lists, live, pages, order, p);
    hide PageOk, Taken, TakenOf;
  }

  // ----- page lists -----

  ghost predicate DistinctStarts(ps: seq<SlubPage>) { forall i, j :: 0 <= i < j < |ps| ==> ps[i].start != ps[j].start }

  function Without(ps: seq<SlubPage>, i: nat): (r: seq<SlubPage>)
    requires i < |ps|
    ensures |r| == |ps| - 1 && forall k :: 0 <= k < |r| ==> r[k] == ps[if k < i then k else k + 1]
  {
    ps[..i] + ps[i + 1..]
  }

  lemma SetWithout(ps: seq<SlubPage>, i: nat)
    requires i < |ps| && DistinctStarts(ps)
    ensures DistinctStarts(Without(ps, i)) && PagesOf(Without(ps, i)) == PagesOf(ps) - {ps[i]}
  {
    var r := Without(ps, i);
    forall p | p in ps && p != ps[i] ensures p in r {
      var k :| 0 <= k < |ps| && ps[k] == p;
      assert r[if k < i then k else k - 1] == p;
    }
  }

  lemma SetUpdate(ps: seq<SlubPage>, i: nat, q: SlubPage)
    requires i < |ps| && DistinctStarts(ps) && q.start == ps[i].start
    ensures DistinctStarts(ps[i := q]) && PagesOf(ps[i := q]) == PagesOf(ps) - {ps[i]} + {q}
  {
    forall p | p in ps && p != ps[i] ensures p in ps[i := q] {
      var k :| 0 <= k < |ps| && ps[k] == p;
      assert ps[i := q][k] == p;
    }
    assert ps[i := q][i] == q;
  }

  lemma SetPush(ps: seq<SlubPage>, q: SlubPage)
    requires DistinctStarts(ps) && forall p :: p in ps ==> p.start != q.start
    ensures DistinctStarts([q] + ps) && PagesOf([q] + ps) == PagesOf(ps) + {q}
  {
  }

  // ----- one cache -----

  /** A cache for one size: pages with free objects, and pages without. */
  datatype Cache = Cache(partial: seq<SlubPage>, full: seq<SlubPage>)

  ghost function PageSet(c: Cache): set<SlubPage> { PagesOf(c.partial) + PagesOf(c.full) }

  ghost predicate Partial(p: SlubPage) { 0 < p.inuse < p.objects }

  ghost predicate Full(p: SlubPage) { p.inuse == p.objects }

  /** Partial pages have objects of both kinds, full pages none free, and no page is kept twice. */
  ghost predicate CacheOk(c: Cache) {
    && DistinctStarts(c.partial) && DistinctStarts(c.full)
    && (forall p, q :: p in c.partial && q in c.full ==> p.start != q.start)
    && (forall p :: p in c.partial ==> Partial(p))
    && (forall p :: p in c.full ==> Full(p))
  }

  /** A cache in order whose pages are backed by allocated blocks. */
  ghost predicate CacheIn(c: Cache, order: nat, live: set<Block>) { CacheOk(c) && Backed(PageSet(c), order, live) }

  /** The objects given out by a cache. */
  ghost function TakenBy(c: Cache, order: nat): set<nat>
    requires IsClass(order)
  {
    TakenOf(PageSet(c), order)
  }

  ghost function BlocksBy(c: Cache, order: nat): set<Block> { BlocksOf(PageSet(c), order) }

  /** The cache after an object of its first partial page was taken. */
  function AfterTake(c: Cache): Cache
    requires c.partial != [] && c.partial[0].free != []
  {
    var q := TakeObject(c.partial[0]);
    if q.inuse == q.objects then Cache(c.partial[1..], [q] + c.full) else c.(partial := c.partial[0 := q])
  }

  lemma TakeFromPartial(lists: Lists, live: set<Block>, c: Cache, order: nat)
    requires Inv(lists, live) && CacheIn(c, order, live) && c.partial != []
    ensures c.partial[0].free != [] && CacheIn(AfterTake(c), order, live)
              && BlocksBy(AfterTake(c), order) == BlocksBy(c, order)
    ensures var a := c.partial[0].free[0];
            a !in TakenBy(c, order) && TakenBy(AfterTake(c), order) == TakenBy(c, order) + {a}
  {
    var p := c.partial[0];
    assert p in c.partial && p in PageSet(c) && PageOk(p, order) && Partial(p);
    TakeOk(p, order);
    TakenPages(c);
    hide PageOk, Taken, TakenOf, BlocksOf, CacheOk, PageSet;
    ReplacePage(lists, live, PageSet(c), order, p, TakeObject(p));
    FreeIsNotTaken(lists, live, c, order, p.free[0]);
    TakenUpdate(PageSet(c), order, p, p.free[0]);
  }

  /** Taking an object replaces its page, in one list or the other. */
  lemma TakenPages(c: Cache)
    requires CacheOk(c) && c.partial != [] && c.partial[0].free != []
    ensures CacheOk(AfterTake(c)) && PageSet(AfterTake(c)) == PageSet(c) - {c.partial[0]} + {TakeObject(c.partial[0])}
  {
    var p := c.partial[0];
    var q := TakeObject(p);
    assert p in c.partial && Partial(p) && p !in c.full;
    if q.inuse == q.objects {
      SetWithout(c.partial, 0);
      StartsDiffer(c.partial, 0);
      assert Without(c.partial, 0) == c.partial[1..];
      SetPush(c.full, q);
    } else {
      SetUpdate(c.partial, 0, q);
      UpdatedPages(c.partial, 0, q);
    }
  }

  /** A free object of a page is taken from no page of the cache. */
  lemma FreeIsNotTaken(lists: Lists, live: set<Block>, c: Cache, order: nat, a: nat)
    requires Inv(lists, live) && CacheIn(c, order, live) && c.partial != [] && c.partial[0].free != []
              && a == c.partial[0].free[0]
    ensures a !in TakenBy(c, order)
  {
    var p := c.partial[0];
    assert p in PageSet(c) && PageOk(p, order);
    ObjectPlaces(p.start, order);
    ClassFacts(order);
    assert a in SlotsOf(p.start, order);
    forall q | q in PageSet(c) && a in Taken(q, order) ensures false {
      OneOwner(lists, live, PageSet(c), order, q, p, a);
    }
  }

  /** Taking away a page's addresses and putting back all but one takes away that one. */
  lemma TakenUpdate(pages: set<SlubPage>, order: nat, p: SlubPage, a: nat)
    requires IsClass(order) && p in pages
    ensures TakenOf(pages, order) - Taken(p, order) + (Taken(p, order) + {a}) == TakenOf(pages, order) + {a}
    ensures a in Taken(p, order) ==>
              TakenOf(pages, order) - Taken(p, order) + (Taken(p, order) - {a}) == TakenOf(pages, order) - {a}
  {
    hide Taken;
  }

  /** The cache after it was given a new page, the first object of which is handed out at once. */
  lemma AddFresh(lists: Lists, live: set<Block>, c: Cache, order: nat, p: SlubPage)
    requires Inv(lists, live + {BlockOfPage(p.start, order)}) && CacheIn(c, order, live) && c.partial == []
              && PageOk(p, order) && p.inuse == 0 && Taken(p, order) == {}
    requires BlockOfPage(p.start, order) !in live
    ensures p.free != []
    ensures var c' := c.(partial := [TakeObject(p)]);
            && CacheIn(c', order, live + {BlockOfPage(p.start, order)})
            && BlocksBy(c', order) == BlocksBy(c, order) + {BlockOfPage(p.start, order)}
            && p.free[0] !in TakenBy(c, order) && TakenBy(c', order) == TakenBy(c, order) + {p.free[0]}
  {
    ObjectPlaces(p.start, order);
    TakeOk(p, order);
    var q := TakeObject(p);
    TakenAdd(PageSet(c), order, q);
    NotTakenElsewhere(lists, live + {BlockOfPage(p.start, order)}, c, order, q, p.free[0]);
    hide PageOk, Taken, TakenOf, BlocksOf;
    assert PageSet(c.(partial := [q])) == PageSet(c) + {q};
    forall r | r in c.full ensures r.start != q.start {
      assert r in PageSet(c);
    }
  }

  lemma NotTakenElsewhere(lists: Lists, live: set<Block>, c: Cache, order: nat, q: SlubPage, a: nat)
    requires Inv(lists, live) && IsClass(order) && BlocksBy(c, order) <= live
              && BlockOfPage(q.start, order) in live - BlocksBy(c, order)
    requires a in Taken(q, order)
    ensures a !in TakenBy(c, order)
  {
    TakenInside(q, order, a);
    forall p | p in PageSet(c) ensures a !in Taken(p, order) {
      assert BlockOfPage(p.start, order) in BlocksBy(c, order);
      PagesApart(lists, live, p.start, q.start, order);
      if a in Taken(p, order) {
        TakenInside(p, order, a);
      }
    }
  }

  function AfterFreeFull(c: Cache, i: nat, a: nat): Cache
    requires i < |c.full| && c.full[i].inuse > 0
  {
    Cache([GiveObject(c.full[i], a)] + c.partial, Without(c.full, i))
  }

  lemma FreeFull(lists: Lists, live: set<Block>, c: Cache, order: nat, i: nat, a: nat)
    requires Inv(lists, live) && CacheIn(c, order, live) && i < |c.full| && a in Taken(c.full[i], order)
    ensures c.full[i].inuse > 0 && CacheIn(AfterFreeFull(c, i, a), order, live)
    ensures BlocksBy(AfterFreeFull(c, i, a), order) == BlocksBy(c, order)
              && TakenBy(AfterFreeFull(c, i, a), order) == TakenBy(c, order) - {a}
  {
    var p := c.full[i];
    assert p in c.full && p in PageSet(c) && PageOk(p, order) && Full(p);
    ObjectPlaces(p.start, order);
    GiveOk(p, order, a);
    var q := GiveObject(p, a);
    ReplacePage(lists, live, PageSet(c), order, p, q);
    TakenUpdate(PageSet(c), order, p, a);
    SetWithout(c.full, i);
    hide PageOk, Taken, TakenOf, BlocksOf;
    assert forall r :: r in c.partial ==> r.start != q.start;
    SetPush(c.partial, q);
    assert Partial(q);
    StartsDiffer(c.full, i);
    assert PageSet(AfterFreeFull(c, i, a)) == PageSet(c) - {p} + {q};
  }

  lemma StartsDiffer(ps: seq<SlubPage>, i: nat)
    requires i < |ps| && DistinctStarts(ps)
    ensures forall p :: p in Without(ps, i) ==> p.start != ps[i].start && p in ps
  {
  }

  function AfterFreePartial(c: Cache, i: nat, a: nat): Cache
    requires i < |c.partial| && c.partial[i].inuse > 0
  {
    c.(partial := c.partial[i := GiveObject(c.partial[i], a)])
  }

  lemma FreePartial(lists: Lists, live: set<Block>, c: Cache, order: nat, i: nat, a: nat)
    requires Inv(lists, live) && CacheIn(c, order, live) && i < |c.partial| && a in Taken(c.partial[i], order)
              && c.partial[i].inuse > 1
    ensures CacheIn(AfterFreePartial(c, i, a), order, live)
    ensures BlocksBy(AfterFreePartial(c, i, a), order) == BlocksBy(c, order)
              && TakenBy(AfterFreePartial(c, i, a), order) == TakenBy(c, order) - {a}
  {
    var p := c.partial[i];
    assert p in c.partial && p in PageSet(c) && PageOk(p, order) && Partial(p);
    GiveOk(p, order, a);
    var q := GiveObject(p, a);
    ReplacePage(lists, live, PageSet(c), order, p, q);
    TakenUpdate(PageSet(c), order, p, a);
    SetUpdate(c.partial, i, q);
    hide PageOk, Taken, TakenOf, BlocksOf;
    assert Partial(q);
    UpdatedPages(c.partial, i, q);
    assert p !in c.full;
    assert PageSet(AfterFreePartial(c, i, a)) == PageSet(c) - {p} + {q};
  }

  lemma UpdatedPages(ps: seq<SlubPage>, i: nat, q: SlubPage)
    requires i < |ps|
    ensures forall p :: p in ps[i := q] ==> p in ps || p == q
  {
  }

  /** A page whose last object comes back leaves the cache. */
  lemma EmptyPage(lists: Lists, live: set<Block>, c: Cache, order: nat, i: nat, a: nat)
    requires Inv(lists, live) && CacheIn(c, order, live) && i < |c.partial| && a in Taken(c.partial[i], order)
              && c.partial[i].inuse == 1
    ensures var b := BlockOfPage(c.partial[i].start, order);
            var c' := c.(partial := Without(c.partial, i));
            && b in live && CacheIn(c', order, live - {b}) && BlocksBy(c', order) == BlocksBy(c, order) - {b}
            && b in BlocksBy(c, order) && TakenBy(c', order) == TakenBy(c, order) - {a}
  {
    var p := c.partial[i];
    assert p in c.partial && p in PageSet(c) && PageOk(p, order) && Partial(p);
    InUseCount(p, order);
    OnlyElement(Taken(p, order), a);
    DropPage(lists, live, PageSet(c), order, p);
    SetWithout(c.partial, i);
    hide PageOk, Taken, TakenOf;
    StartsDiffer(c.partial, i);
    assert p !in c.full;
    assert PageSet(c.(partial := Without(c.partial, i))) == PageSet(c) - {p};
  }

  lemma OnlyElement(s: set<nat>, a: nat)
    requires |s| == 1 && a in s
    ensures s == {a}
  {
    assert |s - {a}| == 0;
  }

  // ----- all caches -----

  /** Memory handed out: 2^order bytes from `addr`. */
  datatype Object = Object(addr: nat, order: nat)

  ghost function BlocksAt(caches: seq<Cache>, i: nat): set<Block>
    requires i < |caches|
  {
    BlocksBy(caches[i], i + SLUB_MIN_ORDER)
  }

  /** One cache per size class and the large blocks, none of which share a block. */
  ghost predicate Arranged(caches: seq<Cache>, large: set<Block>, live: set<Block>) {
    && |caches| == CACHES_MAX && large <= live
    && (forall i: nat :: i < CACHES_MAX ==> CacheIn(caches[i], i + SLUB_MIN_ORDER, live))
    && (forall i: nat :: i < CACHES_MAX ==> large !! BlocksAt(caches, i))
    && (forall i: nat, j: nat :: i < j < CACHES_MAX ==> BlocksAt(caches, i) !! BlocksAt(caches, j))
  }

  /** The object is in the hands of a caller. */
  ghost predicate IsLive(caches: seq<Cache>, large: set<Block>, o: Object)
    requires |caches| == CACHES_MAX
  {
    if o.order < SLUB_MAX_ORDER then IsClass(o.order) && o.addr in TakenBy(caches[o.order - SLUB_MIN_ORDER], o.order)
    else Block(o.addr, o.order - SLUB_MAX_ORDER) in large
  }

  /** The blocks taken from the buddy system. */
  ghost function Owned(caches: seq<Cache>, large: set<Block>): set<Block> {
    large + set i: nat, b | i < |caches| && b in BlocksAt(caches, i) :: b
  }

  /** A change of one cache and its own blocks leaves the others as they are. */
  lemma CacheChanged(caches: seq<Cache>, large: set<Block>, live: set<Block>, live': set<Block>, i: nat, c': Cache)
    requires Arranged(caches, large, live) && i < CACHES_MAX && CacheIn(c', i + SLUB_MIN_ORDER, live')
    requires var mine := BlocksAt(caches, i);
             live - live' <= mine && BlocksBy(c', i + SLUB_MIN_ORDER) <= mine + (live' - live)
    ensures Arranged(caches[i := c'], large, live')
  {
    hide CacheIn, BlocksBy;
    var caches' := caches[i := c'];
    forall j: nat | j < CACHES_MAX && j != i
      ensures CacheIn(caches'[j], j + SLUB_MIN_ORDER, live') && BlocksAt(caches', j) == BlocksAt(caches, j)
                && BlocksAt(caches', i) !! BlocksAt(caches', j)
    {
      OtherCache(caches, large, live, live', i, j, BlocksAt(caches', i));
    }
    StaysApart(BlocksAt(caches, i), BlocksAt(caches', i), large, live, live');
    hide BlocksAt;
  }

  lemma OtherCache(caches: seq<Cache>, large: set<Block>, live: set<Block>, live': set<Block>, i: nat, j: nat,
      mine': set<Block>)
    requires Arranged(caches, large, live) && i < CACHES_MAX && j < CACHES_MAX && i != j
    requires live - live' <= BlocksAt(caches, i) && mine' <= BlocksAt(caches, i) + (live' - live)
    ensures CacheIn(caches[j], j + SLUB_MIN_ORDER, live') && mine' !! BlocksAt(caches, j)
  {
    hide CacheIn, BlocksBy;
    assert BlocksAt(caches, i) !! BlocksAt(caches, j);
    assert (live - live') !! BlocksAt(caches, j);
    StillBacked(caches[j], j + SLUB_MIN_ORDER, live, live');
    StaysApart(BlocksAt(caches, i), mine', BlocksAt(caches, j), live, live');
  }

  lemma StaysApart(mine: set<Block>, mine': set<Block>, other: set<Block>, live: set<Block>, live': set<Block>)
    requires mine !! other && other <= live && live - live' <= mine && mine' <= mine + (live' - live)
    ensures other <= live' && mine' !! other
  {
  }

  lemma StillBacked(c: Cache, order: nat, live: set<Block>, live': set<Block>)
    requires CacheIn(c, order, live) && (live - live') !! BlocksBy(c, order)
    ensures CacheIn(c, order, live') && BlocksBy(c, order) <= live * live'
  {
    hide PageOk;
    forall p | p in PageSet(c) ensures BlockOfPage(p.start, order) in live' {
      assert BlockOfPage(p.start, order) in BlocksBy(c, order);
    }
  }

  /** What the caches own besides is not touched. */
  lemma OwnedChanged(caches: seq<Cache>, large: set<Block>, live: set<Block>, live': set<Block>, i: nat, c': Cache)
    requires Arranged(caches, large, live) && i < CACHES_MAX
    requires live' - BlocksBy(c', i + SLUB_MIN_ORDER) == live - BlocksAt(caches, i)
    ensures live' - Owned(caches[i := c'], large) == live - Owned(caches, large)
  {
    var caches' := caches[i := c'];
    assert forall j: nat :: j < CACHES_MAX && j != i ==> BlocksAt(caches', j) == BlocksAt(caches, j);
    assert BlocksAt(caches', i) == BlocksBy(c', i + SLUB_MIN_ORDER);
    hide BlocksAt, BlocksBy, CacheIn;
    assert Owned(caches', large) - BlocksAt(caches', i) <= Owned(caches, large);
    assert Owned(caches, large) - BlocksAt(caches, i) <= Owned(caches', large);
    assert BlocksAt(caches', i) <= Owned(caches', large) && BlocksAt(caches, i) <= Owned(caches, large);
    SameRest(live, live', BlocksAt(caches, i), BlocksAt(caches', i), Owned(caches, large), Owned(caches', large));
  }

  lemma SameRest(live: set<Block>, live': set<Block>, mine: set<Block>, mine': set<Block>, owned: set<Block>,
      owned': set<Block>)
    requires live' - mine' == live - mine && mine <= owned && mine' <= owned' && owned' - mine' <= owned
              && owned - mine <= owned'
    ensures live' - owned' == live - owned
  {
    forall b ensures b in live' - owned' <==> b in live - owned {
      assert b in live' - mine' <==> b in live - mine;
      assert b in owned' - mine' ==> b in owned;
      assert b in owned - mine ==> b in owned';
    }
  }

  lemma LiveChanged(caches: seq<Cache>, large: set<Block>, i: nat, c': Cache, o: Object)
    requires |caches| == CACHES_MAX && i < CACHES_MAX
    ensures o.order == i + SLUB_MIN_ORDER ==> (IsLive(caches[i := c'], large, o) <==> o.addr in TakenBy(c', o.order))
    ensures o.order != i + SLUB_MIN_ORDER ==> (IsLive(caches[i := c'], large, o) <==> IsLive(caches, large, o))
  {
  }

  /** Objects are inside the block they come from, aligned to their size. */
  lemma ObjectInBlock(lists: Lists, live: set<Block>, caches: seq<Cache>, large: set<Block>, o: Object)
      returns (b: Block)
    requires Inv(lists, live) && Arranged(caches, large, live) && IsLive(caches, large, o)
    ensures b in live && b.start <= o.addr && o.addr + Pow2(o.order) <= b.start + OrderSize(b.order)
    ensures Multiple(o.addr, o.order)
    ensures if o.order < SLUB_MAX_ORDER then b in BlocksBy(caches[o.order - SLUB_MIN_ORDER], o.order)
              && b.start + HEADER_SIZE <= o.addr
            else b in large && b == Block(o.addr, o.order - SLUB_MAX_ORDER)
  {
    if o.order < SLUB_MAX_ORDER {
      var c := caches[o.order - SLUB_MIN_ORDER];
      assert CacheIn(c, o.order, live);
      var p :| p in PageSet(c) && o.addr in Taken(p, o.order);
      b := BlockOfPage(p.start, o.order);
      TakenInside(p, o.order, o.addr);
      OrderSizes();
      assert Held(lists, live, b);
      BlockMultiple(b);
      MultipleLess(b.start, 12 + b.order, 12);
      var k :| 0 <= k < |SlotsOf(p.start, o.order)| && SlotsOf(p.start, o.order)[k] == o.addr;
      ObjectAligned(p.start, o.order, k);
    } else {
      b := Block(o.addr, o.order - SLUB_MAX_ORDER);
      assert Held(lists, live, b);
      BlockMultiple(b);
      OrderSizePow2(b.order);
    }
  }

  lemma SameClass(caches: seq<Cache>, large: set<Block>, live: set<Block>, o: Object, o': Object, b: Block)
    requires Arranged(caches, large, live) && o != o' && IsLive(caches, large, o) && IsLive(caches, large, o')
    requires o.order < SLUB_MAX_ORDER ==> b in BlocksBy(caches[o.order - SLUB_MIN_ORDER], o.order)
    requires o.order >= SLUB_MAX_ORDER ==> b in large && b == Block(o.addr, o.order - SLUB_MAX_ORDER)
    requires o'.order < SLUB_MAX_ORDER ==> b in BlocksBy(caches[o'.order - SLUB_MIN_ORDER], o'.order)
    requires o'.order >= SLUB_MAX_ORDER ==> b in large && b == Block(o'.addr, o'.order - SLUB_MAX_ORDER)
    ensures o.order == o'.order && IsClass(o.order)
  {
    hide BlocksBy, CacheIn, TakenBy;
    if o.order < SLUB_MAX_ORDER {
      assert b in BlocksAt(caches, o.order - SLUB_MIN_ORDER);
    }
    if o'.order < SLUB_MAX_ORDER {
      assert b in BlocksAt(caches, o'.order - SLUB_MIN_ORDER);
    }
  }

  lemma SamePage(lists: Lists, live: set<Block>, c: Cache, order: nat, a: nat, a': nat, b: Block)
    requires Inv(lists, live) && CacheIn(c, order, live) && b in BlocksBy(c, order)
    requires a in TakenBy(c, order) && a' in TakenBy(c, order) && a != a'
    requires b.start <= a < b.start + PageSizeOf(order) && b.start <= a' < b.start + PageSizeOf(order)
    ensures a + Pow2(order) <= a' || a' + Pow2(order) <= a
  {
    var p :| p in PageSet(c) && BlockOfPage(p.start, order) == b;
    var q :| q in PageSet(c) && a in Taken(q, order);
    var q' :| q' in PageSet(c) && a' in Taken(q', order);
    OneOwner(lists, live, PageSet(c), order, q, p, a);
    OneOwner(lists, live, PageSet(c), order, q', p, a');
    var slots := SlotsOf(p.start, order);
    ObjectPlaces(p.start, order);
    hide SlotsOf;
    var i :| 0 <= i < |slots| && slots[i] == a;
    var j :| 0 <= j < |slots| && slots[j] == a';
  }

  /** No two objects in the hands of callers overlap. */
  lemma ObjectsApart(lists: Lists, live: set<Block>, caches: seq<Cache>, large: set<Block>, o: Object, o': Object)
    requires Inv(lists, live) && Arranged(caches, large, live) && IsLive(caches, large, o) && IsLive(caches, large, o')
              && o != o'
    ensures o.addr + Pow2(o.order) <= o'.addr || o'.addr + Pow2(o'.order) <= o.addr
  {
    var b := ObjectInBlock(lists, live, caches, large, o);
    var b' := ObjectInBlock(lists, live, caches, large, o');
    if b != b' {
      assert Held(lists, live, b) && Held(lists, live, b') && Apart(b, b');
    } else {
      SameClass(caches, large, live, o, o', b);
      OrderSizes();
      ClassFacts(o.order);
      SamePage(lists, live, caches[o.order - SLUB_MIN_ORDER], o.order, o.addr, o'.addr, b);
    }
  }

  lemma ClassIn(caches: seq<Cache>, large: set<Block>, live: set<Block>, order: nat)
    requires Arranged(caches, large, live) && IsClass(order)
    ensures |caches| == CACHES_MAX && CacheIn(caches[order - SLUB_MIN_ORDER], order, live)
    ensures forall a :: IsLive(caches, large, Object(a, order)) <==> a in TakenBy(caches[order - SLUB_MIN_ORDER], order)
  {
  }

  /** What one cache does with its own blocks, seen from all of them. */
  ghost predicate Changes(caches: seq<Cache>, large: set<Block>, live: set<Block>, live': set<Block>, order: nat,
      c': Cache) {
    && Arranged(caches, large, live) && IsClass(order) && CacheIn(c', order, live')
    && var mine, mine' := BlocksBy(caches[order - SLUB_MIN_ORDER], order), BlocksBy(c', order);
       live - live' <= mine && mine' <= mine + (live' - live) && live' - mine' == live - mine
  }

  lemma ChangesFit(caches: seq<Cache>, large: set<Block>, live: set<Block>, live': set<Block>, order: nat, c': Cache)
    requires Changes(caches, large, live, live', order, c')
    ensures var caches' := caches[order - SLUB_MIN_ORDER := c'];
            Arranged(caches', large, live') && live' - Owned(caches', large) == live - Owned(caches, large)
  {
    hide CacheIn, BlocksBy;
    CacheChanged(caches, large, live, live', order - SLUB_MIN_ORDER, c');
    OwnedChanged(caches, large, live, live', order - SLUB_MIN_ORDER, c');
  }

  lemma Grown(caches: seq<Cache>, large: set<Block>, live: set<Block>, live': set<Block>, order: nat, c': Cache, a: nat)
    requires Changes(caches, large, live, live', order, c')
    requires var c := caches[order - SLUB_MIN_ORDER];
             a !in TakenBy(c, order) && TakenBy(c', order) == TakenBy(c, order) + {a}
    ensures var caches' := caches[order - SLUB_MIN_ORDER := c'];
            && Arranged(caches', large, live') && live' - Owned(caches', large) == live - Owned(caches, large)
            && !IsLive(caches, large, Object(a, order))
            && forall o :: IsLive(caches', large, o) <==> IsLive(caches, large, o) || o == Object(a, order)
  {
    ChangesFit(caches, large, live, live', order, c');
    hide TakenBy, CacheIn, Owned, BlocksBy, Arranged, Changes;
    forall o {
      LiveChanged(caches, large, order - SLUB_MIN_ORDER, c', o);
    }
  }

  lemma Shrunk(caches: seq<Cache>, large: set<Block>, live: set<Block>, live': set<Block>, order: nat, c': Cache,
      a: nat)
    requires Changes(caches, large, live, live', order, c')
    requires var c := caches[order - SLUB_MIN_ORDER]; TakenBy(c', order) == TakenBy(c, order) - {a}
    ensures var caches' := caches[order - SLUB_MIN_ORDER := c'];
            && Arranged(caches', large, live') && live' - Owned(caches', large) == live - Owned(caches, large)
            && forall o :: IsLive(caches', large, o) <==> IsLive(caches, large, o) && o != Object(a, order)
  {
    ChangesFit(caches, large, live, live', order, c');
    hide TakenBy, CacheIn, Owned, BlocksBy, Arranged, Changes;
    forall o {
      LiveChanged(caches, large, order - SLUB_MIN_ORDER, c', o);
    }
  }

  /** `alloc_frame` never gives more than a top block. */
  function CappedOrder(order: nat): nat { if order < SLUB_MAX_ORDER + MAX_ORDER then order
      else SLUB_MAX_ORDER + MAX_ORDER - 1 }

  /** The order of the memory handed out for a layout. */
  function ObjectOrder(size: nat, align: nat): nat { CappedOrder(LayoutOrder(size, align)) }

  /** The memory is large enough exactly for layouts of up to 4 MiB. */
  lemma LayoutServed(size: nat, a: nat, addr: nat)
    requires Multiple(addr, ObjectOrder(size, Pow2(a)))
    ensures size <= Pow2(ObjectOrder(size, Pow2(a))) <==> size <= TOP_SIZE
    ensures Pow2(a) <= TOP_SIZE ==> addr % Pow2(a) == 0
  {
    var order := LayoutOrder(size, Pow2(a));
    var top := SLUB_MAX_ORDER + MAX_ORDER - 1;
    OrderSizePow2(MAX_ORDER - 1);
    OrderSizes();
    Pow2Positive(a);
    CeilBounds(if (if size < Pow2(a) then Pow2(a) else size) < 16 then 16 else if size < Pow2(a) then Pow2(a)
        else size);
    if order <= top {
      Pow2Monotone(order, top);
      LayoutFits(size, a, addr);
    } else {
      Pow2Monotone(top, order - 1);
      if a <= top {
        MultipleLess(addr, top, a);
        MultipleIs(addr, a);
      } else {
        Pow2Monotone(top + 1, a);
      }
    }
  }

  /** For example, 8 MiB are asked for and 4 MiB are handed out. */
  lemma LargeLayoutFallsShort()
    ensures Pow2(ObjectOrder(8388608, Pow2(4))) < 8388608
  {
    ZeroMultiple(ObjectOrder(8388608, Pow2(4)));
    LayoutServed(8388608, 4, 0);
  }

  lemma {:induction false} ZeroMultiple(n: nat)
    ensures Multiple(0, n)
  {
    if n > 0 {
      ZeroMultiple(n - 1);
    }
  }

  /** Requests beyond the caches go to blocks of the same order, up to the top. */
  lemma LargeOrder(order: nat)
    requires order >= SLUB_MAX_ORDER
    ensures Pow2(order) > 0 && SizeToOrder(Pow2(order)) == CappedOrder(order) - SLUB_MAX_ORDER
  {
    Pow2Positive(order);
    hide Ilog2Ceil, Frames.Ilog2Ceil, SizeToOrder, Frames.SizeToOrder;
    if order < SLUB_MAX_ORDER + MAX_ORDER {
      OrderSizePow2(order - SLUB_MAX_ORDER);
      SizeToOrderInverts(order - SLUB_MAX_ORDER);
    } else {
      BeyondTop(order);
      SizeToOrderFits(Pow2(order));
    }
  }

  lemma BeyondTop(order: nat)
    requires order >= SLUB_MAX_ORDER + MAX_ORDER
    ensures Pow2(order) > TOP_SIZE
  {
    OrderSizePow2(MAX_ORDER - 1);
    OrderSizes();
    Pow2Positive(SLUB_MAX_ORDER + MAX_ORDER - 1);
    Pow2Monotone(SLUB_MAX_ORDER + MAX_ORDER, order);
  }

  lemma LargeLive(caches: seq<Cache>, large: set<Block>, live: set<Block>)
    requires Arranged(caches, large, live)
    ensures large <= live
  {
  }

  lemma LargeTaken(caches: seq<Cache>, large: set<Block>, live: set<Block>, b: Block)
    requires Arranged(caches, large, live) && b !in live
    ensures !IsLive(caches, large, Object(b.start, b.order + SLUB_MAX_ORDER))
    ensures forall o :: IsLive(caches, large + {b}, o) <==>
              IsLive(caches, large, o) || o == Object(b.start, b.order + SLUB_MAX_ORDER)
    ensures Arranged(caches, large + {b}, live + {b})
              && (live + {b}) - Owned(caches, large + {b}) == live - Owned(caches, large)
  {
    forall i: nat | i < CACHES_MAX ensures CacheIn(caches[i], i + SLUB_MIN_ORDER, live + {b})
        && BlocksAt(caches, i) <= live {
      StillBacked(caches[i], i + SLUB_MIN_ORDER, live, live + {b});
    }
    hide CacheIn, BlocksAt;
  }

  lemma LargeDropped(caches: seq<Cache>, large: set<Block>, live: set<Block>, b: Block)
    requires Arranged(caches, large, live) && b in large
    ensures forall o :: IsLive(caches, large - {b}, o) <==>
              IsLive(caches, large, o) && o != Object(b.start, b.order + SLUB_MAX_ORDER)
    ensures Arranged(caches, large - {b}, live - {b})
              && (live - {b}) - Owned(caches, large - {b}) == live - Owned(caches, large)
  {
    forall i: nat | i < CACHES_MAX ensures CacheIn(caches[i], i + SLUB_MIN_ORDER, live - {b})
        && b !in BlocksAt(caches, i) {
      assert large !! BlocksAt(caches, i);
      StillBacked(caches[i], i + SLUB_MIN_ORDER, live, live - {b});
    }
    hide CacheIn, BlocksAt;
  }

  /** The first page that holds the address. */
  method FindPage(ps: seq<SlubPage>, ptr: nat) returns (r: Option<nat>)
    ensures r.Some? ==> r.value < |ps| && ps[r.value].start <= ptr < ps[r.value].start + ps[r.value].pageSize
    ensures r.None? ==> forall i :: 0 <= i < |ps| ==> !(ps[i].start <= ptr < ps[i].start + ps[i].pageSize)
  {
    for i := 0 to |ps|
      invariant forall j :: 0 <= j < i ==> !(ps[j].start <= ptr < ps[j].start + ps[j].pageSize)
    {
      if ps[i].start <= ptr < ps[i].start + ps[i].pageSize {
        return Some(i);
      }
    }
    return None;
  }

  /** No page of the cache holds the address. */
  ghost predicate Outside(c: Cache, ptr: nat) { forall p :: p in PageSet(c) ==>
      !(p.start <= ptr < p.start + p.pageSize) }

  lemma PageFrame(f: Frame, order: nat)
    requires IsClass(order) && f.size == OrderSize(SizeToOrder(PageSizeOf(order)))
    ensures BlockOf(f) == BlockOfPage(f.start, order)
  {
    OrderSizes();
    SizeToOrderInverts(0);
    SizeToOrderInverts(1);
  }

  /** The buddy order of a class's pages: two pages for the largest class, one for the others. */
  function PageOrder(order: nat): nat { if order == 11 then 1 else 0 }

  lemma PageOrderIs(order: nat)
    requires IsClass(order)
    ensures SizeToOrder(PageSizeOf(order)) == PageOrder(order)
  {
    OrderSizes();
    SizeToOrderInverts(0);
    SizeToOrderInverts(1);
  }

  /** No page of the cache has a free object. */
  ghost predicate Exhausted(c: Cache) { forall p :: p in PageSet(c) ==> p.free == [] }

  /** None of the class's pages has a free object. */
  ghost predicate NoneLeft(caches: seq<Cache>, order: nat) {
    IsClass(order) && order - SLUB_MIN_ORDER < |caches| && Exhausted(caches[order - SLUB_MIN_ORDER])
  }

  /** Nothing of the order can be had: no free object and no page to cut up, or no block that is large enough. */
  ghost predicate OutOfMemory(caches: seq<Cache>, lists: Lists, order: nat) {
    if order < SLUB_MAX_ORDER then NoneLeft(caches, order) && NoneFrom(lists, PageOrder(order))
    else NoneFrom(lists, order - SLUB_MAX_ORDER)
  }

  lemma ExhaustedIff(c: Cache, order: nat, live: set<Block>)
    requires IsClass(order) && CacheIn(c, order, live)
    ensures Exhausted(c) <==> c.partial == []
  {
    hide Taken;
    if c.partial != [] {
      var p := c.partial[0];
      assert p in c.partial && Partial(p) && p in PageSet(c) && PageOk(p, order);
    }
    forall p | p in PageSet(c) && c.partial == [] ensures p.free == [] {
      assert p in c.full && Full(p) && PageOk(p, order);
    }
  }

  /** A page from the buddy system, cut up. */
  method NewPage(buddy: BuddyAllocator, order: nat) returns (r: Option<SlubPage>)
    requires buddy.Valid() && IsClass(order)
    modifies buddy, buddy.ram
    ensures buddy.Valid() && LiveKept(old(buddy.ram.page), buddy.ram.page, old(buddy.state.live))
    ensures r.None? ==> buddy.state == old(buddy.state)
    ensures r.Some? ==>
              var b := BlockOfPage(r.value.start, order);
              && b !in old(buddy.state.live) && buddy.state.live == old(buddy.state.live) + {b}
              && PageOk(r.value, order) && r.value.inuse == 0 && Taken(r.value, order) == {}
    ensures r.None? <==> NoneFrom(old(buddy.state.lists), PageOrder(order))
  {
    hide Supplied;
    PageOrderIs(order);
    var pageSize := ChoosePageSize(order);
    var frame := AllocFrame(buddy, pageSize);
    if frame.None? {
      return None;
    }
    PageFrame(frame.value, order);
    var p := CutPage(frame.value.start, order);
    r := Some(p);
  }

  /** Hand a page back. */
  method GiveBack(buddy: BuddyAllocator, start: nat, order: nat)
    requires buddy.Valid() && IsClass(order) && BlockOfPage(start, order) in buddy.state.live
    modifies buddy, buddy.ram
    ensures buddy.Valid() && buddy.state.live == old(buddy.state.live) - {BlockOfPage(start, order)}
    ensures LiveKept(old(buddy.ram.page), buddy.ram.page, buddy.state.live)
  {
    var f := Frame(start, PageSizeOf(order));
    OrderSizes();
    SizeToOrderInverts(0);
    SizeToOrderInverts(1);
    DropFrame(buddy, f);
  }

  /** The page found by its bounds is the page the object came from. */
  lemma HeldIn(lists: Lists, live: set<Block>, c: Cache, order: nat, q: SlubPage, ptr: nat)
    requires Inv(lists, live) && CacheIn(c, order, live) && q in PageSet(c) && q.start <= ptr < q.start + q.pageSize
    requires ptr in TakenBy(c, order) || Outside(c, ptr)
    ensures ptr in Taken(q, order)
  {
    var p :| p in PageSet(c) && ptr in Taken(p, order);
    OneOwner(lists, live, PageSet(c), order, p, q, ptr);
  }

  lemma OutsideIsNotTaken(c: Cache, order: nat, live: set<Block>, ptr: nat)
    requires CacheIn(c, order, live) && Outside(c, ptr)
    ensures ptr !in TakenBy(c, order)
  {
    forall p | p in PageSet(c) ensures ptr !in Taken(p, order) {
      assert PageOk(p, order);
      if ptr in Taken(p, order) {
        TakenInside(p, order, ptr);
      }
    }
  }

  lemma OrderAtLeast(size: nat, a: nat)
    ensures LayoutOrder(size, Pow2(a)) >= SLUB_MIN_ORDER
  {
    var align := Pow2(a);
    var n := if size < align then align else size;
    var m := if n < 16 then 16 else n;
    CeilBounds(m);
    assert Pow2(3) == 8;
    if LayoutOrder(size, align) < SLUB_MIN_ORDER {
      Pow2Monotone(LayoutOrder(size, align), 3);
    }
  }

  /** A page that is kept has an object in use. */
  lemma HasObject(c: Cache, order: nat, live: set<Block>, p: SlubPage)
    requires CacheIn(c, order, live) && p in PageSet(c)
    ensures Taken(p, order) != {}
  {
    assert PageOk(p, order);
    InUseCount(p, order);
    ObjectPlaces(p.start, order);
  }

  /** The first object of a new page, seen from all caches. */
  lemma FreshGrows(lists: Lists, caches: seq<Cache>, large: set<Block>, live: set<Block>, order: nat, p: SlubPage)
    requires Arranged(caches, large, live) && IsClass(order) && |caches| == CACHES_MAX
    requires caches[order - SLUB_MIN_ORDER].partial == []
    requires BlockOfPage(p.start, order) !in live && Inv(lists, live + {BlockOfPage(p.start, order)})
    requires PageOk(p, order) && p.inuse == 0 && Taken(p, order) == {}
    ensures p.free != []
    ensures var i := order - SLUB_MIN_ORDER;
            var caches' := caches[i := caches[i].(partial := [TakeObject(p)])];
            var live' := live + {BlockOfPage(p.start, order)};
            && Arranged(caches', large, live') && live' - Owned(caches', large) == live - Owned(caches, large)
            && !IsLive(caches, large, Object(p.free[0], order))
            && forall o :: IsLive(caches', large, o) <==> IsLive(caches, large, o) || o == Object(p.free[0], order)
  {
    ClassIn(caches, large, live, order);
    hide Arranged, CacheIn, Owned, IsLive, TakenBy, BlocksBy, BlocksAt, PageOk, Inv, Taken;
    var c := caches[order - SLUB_MIN_ORDER];
    AddFresh(lists, live, c, order, p);
    Grown(caches, large, live, live + {BlockOfPage(p.start, order)}, order, c.(partial := [TakeObject(p)]),
        p.free[0]);
  }

  /** An object of the first partial page, seen from all caches. */
  lemma PartialGrows(lists: Lists, caches: seq<Cache>, large: set<Block>, live: set<Block>, order: nat)
    requires Arranged(caches, large, live) && IsClass(order) && |caches| == CACHES_MAX && Inv(lists, live)
    requires caches[order - SLUB_MIN_ORDER].partial != []
    ensures caches[order - SLUB_MIN_ORDER].partial[0].free != []
    ensures var i := order - SLUB_MIN_ORDER;
            var caches', a := caches[i := AfterTake(caches[i])], caches[i].partial[0].free[0];
            && Arranged(caches', large, live) && live - Owned(caches', large) == live - Owned(caches, large)
            && !IsLive(caches, large, Object(a, order))
            && forall o :: IsLive(caches', large, o) <==> IsLive(caches, large, o) || o == Object(a, order)
  {
    ClassIn(caches, large, live, order);
    hide Arranged, CacheIn, Owned, IsLive, TakenBy, BlocksBy, BlocksAt, PageOk, Inv;
    var c := caches[order - SLUB_MIN_ORDER];
    TakeFromPartial(lists, live, c, order);
    Grown(caches, large, live, live, order, AfterTake(c), c.partial[0].free[0]);
  }

  /** An object of a new page. */
  method TakeFresh(buddy: BuddyAllocator, caches: seq<Cache>, ghost large: set<Block>, order: nat)
      returns (r: Option<nat>, caches': seq<Cache>)
    requires buddy.Valid() && Arranged(caches, large, buddy.state.live) && IsClass(order) && |caches| == CACHES_MAX
    requires caches[order - SLUB_MIN_ORDER].partial == []
    modifies buddy, buddy.ram
    ensures buddy.Valid() && Arranged(caches', large, buddy.state.live)
    ensures LiveKept(old(buddy.ram.page), buddy.ram.page, old(buddy.state.live))
    ensures buddy.state.live - Owned(caches', large) == old(buddy.state.live) - Owned(caches, large)
    ensures r.None? ==> caches' == caches && buddy.state == old(buddy.state)
    ensures r.Some? ==> !IsLive(caches, large, Object(r.value, order))
    ensures r.Some? ==> forall o :: IsLive(caches', large, o) <==>
              IsLive(caches, large, o) || o == Object(r.value, order)
    ensures r.None? <==> NoneFrom(old(buddy.state.lists), PageOrder(order))
  {
    hide Arranged, Owned, IsLive, PageOk, NoneFrom, LiveKept, BuddyAllocator.Valid, Inv, Taken, BlockOfPage, TakeObject;
    ghost var live := buddy.state.live;
    var page := NewPage(buddy, order);
    if page.None? {
      return None, caches;
    }
    var p, i := page.value, order - SLUB_MIN_ORDER;
    BuddyInv(buddy);
    FreshGrows(buddy.state.lists, caches, large, live, order, p);
    r, caches' := Some(p.free[0]), caches[i := caches[i].(partial := [TakeObject(p)])];
  }

  class SlowCaches {
    const buddy: BuddyAllocator
    var caches: seq<Cache>
    ghost var large: set<Block>

    ghost predicate Valid()
      reads this, buddy, buddy.ram
    {
      buddy.Valid() && Arranged(caches, large, buddy.state.live)
    }

    /** Allocated blocks that belong to somebody else. */
    ghost function Foreign(): set<Block>
      reads this, buddy
    {
      buddy.state.live - Owned(caches, large)
    }

    constructor (buddy: BuddyAllocator)
      requires buddy.Valid()
      ensures Valid() && this.buddy == buddy && forall o :: !IsLive(caches, large, o)
      ensures Foreign() == buddy.state.live
    {
      this.buddy := buddy;
      caches := seq(CACHES_MAX, _ => Cache([], []));
      large := {};
    }

    /** Take an object from the cache of a size class, with a new page if no page has one. */
    method AllocClass(order: nat) returns (r: Option<nat>)
      requires Valid() && IsClass(order)
      modifies this, buddy, buddy.ram
      ensures Valid() && large == old(large) && Foreign() == old(Foreign())
      ensures LiveKept(old(buddy.ram.page), buddy.ram.page, Foreign() + old(large) * large)
      ensures r.None? ==> caches == old(caches) && buddy.state == old(buddy.state)
      ensures r.Some? ==> !old(IsLive(caches, large, Object(r.value, order)))
      ensures r.Some? ==> forall o :: IsLive(caches, large, o) <==>
                old(IsLive(caches, large, o)) || o == Object(r.value, order)
      ensures r.None? <==> NoneLeft(old(caches), order) && NoneFrom(old(buddy.state.lists), PageOrder(order))
      ensures !NoneLeft(old(caches), order) ==> buddy.state == old(buddy.state)
    {
      ClassIn(caches, large, buddy.state.live, order);
      ExhaustedIff(caches[order - SLUB_MIN_ORDER], order, buddy.state.live);
      LargeLive(caches, large, buddy.state.live);
      hide Arranged, CacheIn, Owned, IsLive, Exhausted, NoneFrom, BuddyAllocator.Valid, LiveKept;
      if caches[order - SLUB_MIN_ORDER].partial != [] {
        var a := TakePartial(order);
        return Some(a);
      }
      ghost var page0, live0 := buddy.ram.page, buddy.state.live;
      r, caches := TakeFresh(buddy, caches, large, order);
      LiveKeptSubset(page0, buddy.ram.page, live0, Foreign() + large);
    }

    /** An object of the first page that has one. */
    method TakePartial(order: nat) returns (a: nat)
      requires Valid() && IsClass(order) && |caches| == CACHES_MAX && caches[order - SLUB_MIN_ORDER].partial != []
      modifies this
      ensures Valid() && large == old(large) && Foreign() == old(Foreign())
      ensures LiveKept(buddy.ram.page, buddy.ram.page, Foreign() + large)
      ensures !old(IsLive(caches, large, Object(a, order)))
      ensures forall o :: IsLive(caches, large, o) <==> old(IsLive(caches, large, o)) || o == Object(a, order)
    {
      ghost var live := buddy.state.live;
      ClassIn(caches, large, live, order);
      var i := order - SLUB_MIN_ORDER;
      var c := caches[i];
      KeptSelf(buddy.ram.page, Foreign() + large);
      BuddyInv(buddy);
      hide Arranged, CacheIn, Owned, IsLive, PageOk, LiveKept, BuddyAllocator.Valid, Inv, AfterTake;
      PartialGrows(buddy.state.lists, caches, large, live, order);
      a := c.partial[0].free[0];
      caches := caches[i := AfterTake(c)];
    }

    /** Put an object back into its page; a page whose last object it was goes back to the buddy system. */
    method DeallocClass(order: nat, ptr: nat) returns (found: bool)
      requires Valid() && IsClass(order)
      requires IsLive(caches, large, Object(ptr, order)) || Outside(caches[order - SLUB_MIN_ORDER], ptr)
      modifies this, buddy, buddy.ram
      ensures Valid() && large == old(large) && Foreign() == old(Foreign())
      ensures LiveKept(old(buddy.ram.page), buddy.ram.page, Foreign() + old(large) * large)
      ensures found <==> old(IsLive(caches, large, Object(ptr, order)))
      ensures !found ==> caches == old(caches) && buddy.state == old(buddy.state)
      ensures found ==> forall o :: IsLive(caches, large, o) <==>
                old(IsLive(caches, large, o)) && o != Object(ptr, order)
    {
      ghost var live := buddy.state.live;
      ClassIn(caches, large, live, order);
      var i := order - SLUB_MIN_ORDER;
      var c := caches[i];
      var k := FindPage(c.full, ptr);
      if k.Some? {
        HeldIn(buddy.state.lists, live, c, order, c.full[k.value], ptr);
        FreeFull(buddy.state.lists, live, c, order, k.value, ptr);
        hide Arranged, CacheIn, Owned, IsLive, TakenBy, BlocksBy, BlocksAt, PageOk;
        Shrunk(caches, large, live, live, order, AfterFreeFull(c, k.value, ptr), ptr);
        caches := caches[i := AfterFreeFull(c, k.value, ptr)];
        return true;
      }
      k := FindPage(c.partial, ptr);
      if k.None? {
        OutsideIsNotTaken(c, order, live, ptr);
        return false;
      }
      found := true;
      HeldIn(buddy.state.lists, live, c, order, c.partial[k.value], ptr);
      FreeInPartial(order, k.value, ptr);
    }

    method FreeInPartial(order: nat, k: nat, ptr: nat)
      requires Valid() && IsClass(order) && k < |caches[order - SLUB_MIN_ORDER].partial|
      requires ptr in Taken(caches[order - SLUB_MIN_ORDER].partial[k], order)
      modifies this, buddy, buddy.ram
      ensures Valid() && large == old(large) && Foreign() == old(Foreign())
      ensures LiveKept(old(buddy.ram.page), buddy.ram.page, Foreign() + old(large) * large)
      ensures forall o :: IsLive(caches, large, o) <==> old(IsLive(caches, large, o)) && o != Object(ptr, order)
    {
      ghost var live := buddy.state.live;
      ClassIn(caches, large, live, order);
      var i := order - SLUB_MIN_ORDER;
      var c := caches[i];
      var p := c.partial[k];
      assert p in c.partial && Partial(p);
      if p.inuse == 1 {
        EmptyPage(buddy.state.lists, live, c, order, k, ptr);
        hide Arranged, CacheIn, Owned, IsLive, TakenBy, BlocksBy, BlocksAt, PageOk;
        GiveBack(buddy, p.start, order);
        Shrunk(caches, large, live, buddy.state.live, order, c.(partial := Without(c.partial, k)), ptr);
        caches := caches[i := c.(partial := Without(c.partial, k))];
      } else {
        FreePartial(buddy.state.lists, live, c, order, k, ptr);
        hide Arranged, CacheIn, Owned, IsLive, TakenBy, BlocksBy, BlocksAt, PageOk;
        Shrunk(caches, large, live, live, order, AfterFreePartial(c, k, ptr), ptr);
        caches := caches[i := AfterFreePartial(c, k, ptr)];
      }
    }

    /** A block of its own for what is beyond the classes. */
    method AllocLarge(order: nat) returns (r: Option<nat>)
      requires Valid() && order >= SLUB_MAX_ORDER
      modifies this, buddy, buddy.ram
      ensures Valid() && caches == old(caches) && Foreign() == old(Foreign())
      ensures LiveKept(old(buddy.ram.page), buddy.ram.page, old(buddy.state.live))
      ensures r.None? ==> large == old(large) && buddy.state == old(buddy.state)
      ensures r.Some? ==> !old(IsLive(caches, large, Object(r.value, CappedOrder(order))))
      ensures r.Some? ==> forall o :: IsLive(caches, large, o) <==>
                old(IsLive(caches, large, o)) || o == Object(r.value, CappedOrder(order))
      ensures r.None? <==> NoneFrom(old(buddy.state.lists), CappedOrder(order) - SLUB_MAX_ORDER)
    {
      LargeOrder(order);
      hide Arranged, IsLive, Owned, Supplied, NoneFrom;
      var frame := AllocFrame(buddy, Pow2(order));
      if frame.None? {
        return None;
      }
      r := Some(frame.value.start);
      ghost var k := CappedOrder(order) - SLUB_MAX_ORDER;
      SizeToOrderInverts(k);
      LargeTaken(caches, large, old(buddy.state.live), Block(r.value, k));
      large := large + {Block(r.value, k)};
    }

    method DeallocLarge(order: nat, ptr: nat)
      requires Valid() && order >= SLUB_MAX_ORDER && Block(ptr, CappedOrder(order) - SLUB_MAX_ORDER) in large
      modifies this, buddy, buddy.ram
      ensures Valid() && caches == old(caches) && Foreign() == old(Foreign())
      ensures LiveKept(old(buddy.ram.page), buddy.ram.page, buddy.state.live)
      ensures forall o :: IsLive(caches, large, o) <==>
                old(IsLive(caches, large, o)) && o != Object(ptr, CappedOrder(order))
    {
      LargeOrder(order);
      var k := SizeToOrder(Pow2(order));
      SizeToOrderInverts(k);
      assert Block(ptr, k) in buddy.state.live;
      hide Arranged, IsLive, Owned;
      DropFrame(buddy, Frame(ptr, OrderSize(k)));
      LargeDropped(caches, large, old(buddy.state.live), Block(ptr, k));
      large := large - {Block(ptr, k)};
    }

    /** Memory for a layout of `size` bytes aligned to 2^a. */
    method Alloc(size: nat, a: nat) returns (r: Option<nat>)
      requires Valid()
      modifies this, buddy, buddy.ram
      ensures Valid() && Foreign() == old(Foreign())
      ensures LiveKept(old(buddy.ram.page), buddy.ram.page, Foreign() + old(large) * large)
      ensures r.None? ==> caches == old(caches) && large == old(large) && buddy.state == old(buddy.state)
      ensures r.Some? ==>
                var given := Object(r.value, ObjectOrder(size, Pow2(a)));
                && !old(IsLive(caches, large, given))
                && (forall o :: IsLive(caches, large, o) <==> old(IsLive(caches, large, o)) || o == given)
                && (size <= Pow2(given.order) <==> size <= TOP_SIZE)
                && (Pow2(a) <= TOP_SIZE ==> r.value % Pow2(a) == 0)
      ensures r.None? <==> OutOfMemory(old(caches), old(buddy.state.lists), ObjectOrder(size, Pow2(a)))
    {
      var order := LayoutOrder(size, Pow2(a));
      OrderAtLeast(size, a);
      LargeLive(caches, large, buddy.state.live);
      hide Arranged, IsLive, Owned, LayoutOrder, NoneFrom, NoneLeft, LiveKept;
      if order >= SLUB_MAX_ORDER {
        r := AllocLarge(order);
        LiveKeptSubset(old(buddy.ram.page), buddy.ram.page, old(buddy.state.live), Foreign() + old(large) * large);
      } else {
        r := AllocClass(order);
      }
      if r.Some? {
        ghost var given := Object(r.value, ObjectOrder(size, Pow2(a)));
        ghost var b := ObjectInBlock(buddy.state.lists, buddy.state.live, caches, large, given);
        LayoutServed(size, a, r.value);
      }
    }

    /** Memory given back, under the layout it was asked for with. */
    method Dealloc(ptr: nat, size: nat, a: nat) returns (found: bool)
      requires Valid()
      requires var o := Object(ptr, ObjectOrder(size, Pow2(a)));
               IsLive(caches, large, o) || (IsClass(o.order) && Outside(caches[o.order - SLUB_MIN_ORDER], ptr))
      modifies this, buddy, buddy.ram
      ensures Valid() && Foreign() == old(Foreign())
      ensures LiveKept(old(buddy.ram.page), buddy.ram.page, Foreign() + old(large) * large)
      ensures found <==> old(IsLive(caches, large, Object(ptr, ObjectOrder(size, Pow2(a)))))
      ensures !found ==> caches == old(caches) && large == old(large) && buddy.state == old(buddy.state)
      ensures found ==> forall o :: IsLive(caches, large, o) <==>
                old(IsLive(caches, large, o)) && o != Object(ptr, ObjectOrder(size, Pow2(a)))
    {
      var order := LayoutOrder(size, Pow2(a));
      OrderAtLeast(size, a);
      hide Arranged, Owned, LayoutOrder, TakenBy, Outside;
      if order >= SLUB_MAX_ORDER {
        DeallocLarge(order, ptr);
        LargeLive(caches, large, buddy.state.live);
        LiveKeptSubset(old(buddy.ram.page), buddy.ram.page, buddy.state.live, Foreign() + old(large) * large);
        found := true;
      } else {
        found := DeallocClass(order, ptr);
      }
    }
  }

  /** Once every object is back, so is every block. */
  lemma AllReturned(caches: seq<Cache>, large: set<Block>, live: set<Block>)
    requires Arranged(caches, large, live) && forall o :: !IsLive(caches, large, o)
    ensures Owned(caches, large) == {}
  {
    forall i: nat | i < CACHES_MAX ensures BlocksAt(caches, i) == {} {
      var order := i + SLUB_MIN_ORDER;
      forall p | p in PageSet(caches[i]) ensures false {
        HasObject(caches[i], order, live, p);
        var a :| a in Taken(p, order);
        assert a in TakenBy(caches[i], order);
        assert IsLive(caches, large, Object(a, order));
      }
    }
    forall b | b in large ensures false {
      assert IsLive(caches, large, Object(b.start, b.order + SLUB_MAX_ORDER));
    }
  }
}
