/** Physical memory, page by page, and the power-of-two block sizes of the buddy system. */
module Memory {
  datatype Option<+T> = None | Some(value: T)

  const PAGE_SIZE: nat := 4096
  const WORDS_PER_PAGE: nat := 512
  /** Number of orders kept by the buddy system (`BUDDY_MAX_ORDER`). */
  const MAX_ORDER: nat := 11
  /** Size in bytes of a block of the highest order: 4 MiB. */
  const TOP_SIZE: nat := 4194304

  /** The words of one page. */
  type Page = p: seq<nat> | |p| == WORDS_PER_PAGE witness seq(WORDS_PER_PAGE, _ => 0)

  /** RAM: the contents of every page, indexed by the page's address. */
  class Ram {
    var page: map<nat, Page>
    constructor (initial: map<nat, Page>)
      ensures page == initial
    {
      page := initial;
    }
  }

  function Pow2(n: nat): (p: nat)
    ensures p > 0
  {
    if n == 0 then 1 else 2 * Pow2(n - 1)
  }

  /** Bytes in a block of the given order: `1 << order << 12`. */
  function OrderSize(order: nat): (size: nat)
    ensures size >= PAGE_SIZE
  {
    PAGE_SIZE * Pow2(order)
  }

  lemma OrderSizes()
    ensures OrderSize(0) == 4096 && OrderSize(1) == 8192 && OrderSize(2) == 16384
    ensures OrderSize(8) == 1048576 && OrderSize(9) == 2097152 && OrderSize(10) == TOP_SIZE
  {
  }

  lemma {:induction false} SizesGrow(j: nat, k: nat)
    requires j <= k
    ensures OrderSize(j) <= OrderSize(k)
    ensures j < k ==> 2 * OrderSize(j) <= OrderSize(k)
    decreases k
  {
    if j < k {
      SizesGrow(j, k - 1);
    }
  }

  lemma AtMostTop(order: nat)
    requires order < MAX_ORDER
    ensures OrderSize(order) <= TOP_SIZE
  {
    OrderSizes();
    SizesGrow(order, 10);
  }

  /** The low `order` bits of page number `p` are zero. */
  predicate AlignedPage(p: nat, order: nat) {
    order == 0 || (p % 2 == 0 && AlignedPage(p / 2, order - 1))
  }

  /** The address is a multiple of the block size of `order`. */
  predicate Aligned(address: nat, order: nat) {
    address % PAGE_SIZE == 0 && AlignedPage(address / PAGE_SIZE, order)
  }

  /** Page number `p` with bit `order` flipped. */
  function FlipBit(p: nat, order: nat): nat {
    if order == 0 then (if p % 2 == 0 then p + 1 else p - 1) else p % 2 + 2 * FlipBit(p / 2, order - 1)
  }

  /** `base ^ order_size(order)`. */
  function BuddyAddress(base: nat, order: nat): (buddy: nat)
  {
    base % PAGE_SIZE + PAGE_SIZE * FlipBit(base / PAGE_SIZE, order)
  }

  function Min(a: nat, b: nat): nat { if a < b then a else b }

  lemma {:induction false} BuddyPages(p: nat, order: nat)
    requires AlignedPage(p, order)
    ensures var b := FlipBit(p, order);
            && AlignedPage(b, order) && FlipBit(b, order) == p
            && AlignedPage(Min(p, b), order + 1)
            && (if p < b then b == p + Pow2(order) else p == b + Pow2(order))
  {
    if order > 0 {
      BuddyPages(p / 2, order - 1);
      assert FlipBit(p, order) / 2 == FlipBit(p / 2, order - 1);
      assert Min(p, FlipBit(p, order)) / 2 == Min(p / 2, FlipBit(p / 2, order - 1));
    } else {
      assert AlignedPage(Min(p, FlipBit(p, 0)) / 2, 0);
    }
  }

  lemma {:induction false} SplitPages(p: nat, order: nat)
    requires AlignedPage(p, order + 1)
    ensures AlignedPage(p, order) && AlignedPage(p + Pow2(order), order)
    ensures FlipBit(p, order) == p + Pow2(order) && FlipBit(p + Pow2(order), order) == p
  {
    if order > 0 {
      SplitPages(p / 2, order - 1);
      assert (p + Pow2(order)) / 2 == p / 2 + Pow2(order - 1);
    }
  }

  lemma {:induction false} NextPages(p: nat, order: nat)
    requires AlignedPage(p, order)
    ensures AlignedPage(p + Pow2(order), order)
  {
    if order > 0 {
      NextPages(p / 2, order - 1);
      assert (p + Pow2(order)) / 2 == p / 2 + Pow2(order - 1);
    }
  }

  /** A block and its buddy are the two halves of one block of the next order. */
  lemma BuddyHalves(base: nat, order: nat)
    requires Aligned(base, order)
    ensures var buddy := BuddyAddress(base, order);
            && Aligned(buddy, order)
            && BuddyAddress(buddy, order) == base
            && buddy != base
            && Aligned(Min(base, buddy), order + 1)
            && (if base < buddy then buddy == base + OrderSize(order) else base == buddy + OrderSize(order))
  {
    var p := base / PAGE_SIZE;
    BuddyPages(p, order);
    var b := FlipBit(p, order);
    assert BuddyAddress(base, order) == PAGE_SIZE * b && base == PAGE_SIZE * p;
    assert PAGE_SIZE * b / PAGE_SIZE == b;
    assert Min(base, BuddyAddress(base, order)) == PAGE_SIZE * Min(p, b);
    assert PAGE_SIZE * Min(p, b) / PAGE_SIZE == Min(p, b);
  }

  /** Splitting: the upper half is aligned to the lower order and is the lower half's buddy. */
  lemma SplitHalves(base: nat, order: nat)
    requires Aligned(base, order + 1)
    ensures Aligned(base, order) && Aligned(base + OrderSize(order), order)
    ensures BuddyAddress(base, order) == base + OrderSize(order)
    ensures BuddyAddress(base + OrderSize(order), order) == base
  {
    SplitPages(base / PAGE_SIZE, order);
    assert (base + OrderSize(order)) / PAGE_SIZE == base / PAGE_SIZE + Pow2(order);
  }

  lemma NextAligned(base: nat, order: nat)
    requires Aligned(base, order)
    ensures Aligned(base + OrderSize(order), order)
  {
    NextPages(base / PAGE_SIZE, order);
    assert (base + OrderSize(order)) / PAGE_SIZE == base / PAGE_SIZE + Pow2(order);
  }

  /** The low `n` bits of `p`. */
  function LowBits(p: nat, n: nat): nat {
    if n == 0 then 0 else p % 2 + 2 * LowBits(p / 2, n - 1)
  }

  lemma DivModUnique(a: nat, d: nat, q: nat, r: nat)
    requires r < d && a == q * d + r
    ensures a / d == q && a % d == r
  {
    var q' := a / d;
    assert a == q' * d + a % d;
    assert q < q' ==> (q + 1) * d <= q' * d;
    assert q' < q ==> (q' + 1) * d <= q * d;
  }

  lemma ModDouble(p: nat, m: nat)
    requires m > 0
    ensures p % (2 * m) == p % 2 + 2 * (p / 2 % m)
  {
    var h := p / 2;
    var k, r := h / m, h % m;
    assert h == k * m + r;
    calc {
      p;
      2 * h + p % 2;
      2 * (k * m) + 2 * r + p % 2;
      k * (2 * m) + (2 * r + p % 2);
    }
    DivModUnique(p, 2 * m, k, 2 * r + p % 2);
  }

  lemma {:induction false} LowBitsAreMod(p: nat, n: nat)
    ensures LowBits(p, n) == p % Pow2(n)
  {
    if n > 0 {
      LowBitsAreMod(p / 2, n - 1);
      ModDouble(p, Pow2(n - 1));
    }
  }

  lemma {:induction false} AlignedLowBits(p: nat, order: nat, n: nat)
    requires order <= n && AlignedPage(p, order)
    ensures LowBits(p, n) + Pow2(order) <= Pow2(n)
    decreases n
  {
    if n > 0 {
      if order > 0 {
        AlignedLowBits(p / 2, order - 1, n - 1);
      } else {
        AlignedLowBits(p / 2, 0, n - 1);
      }
    }
  }

  lemma {:induction false} LowBitsAligned(p: nat, n: nat)
    requires LowBits(p, n) == 0
    ensures AlignedPage(p, n)
  {
    if n > 0 {
      LowBitsAligned(p / 2, n - 1);
    }
  }

  lemma PageInChunk(base: nat)
    requires base % PAGE_SIZE == 0
    ensures base % TOP_SIZE == PAGE_SIZE * (base / PAGE_SIZE % 1024)
  {
    var p := base / PAGE_SIZE;
    assert base == PAGE_SIZE * p && p == 1024 * (p / 1024) + p % 1024;
  }

  lemma PageAlignedLow(p: nat, order: nat)
    requires order < MAX_ORDER && AlignedPage(p, order)
    ensures p % 1024 + Pow2(order) <= 1024
  {
    AlignedLowBits(p, order, 10);
    LowBitsAreMod(p, 10);
    assert Pow2(10) == 1024;
  }

  /** An aligned block does not cross a 4 MiB boundary. */
  lemma InsideChunk(base: nat, order: nat)
    requires order < MAX_ORDER && Aligned(base, order)
    ensures base % TOP_SIZE + OrderSize(order) <= TOP_SIZE
  {
    PageInChunk(base);
    PageAlignedLow(base / PAGE_SIZE, order);
  }

  lemma ChunkPages(base: nat)
    requires base % TOP_SIZE == 0
    ensures base % PAGE_SIZE == 0 && base / PAGE_SIZE % 1024 == 0
  {
    var k := base / TOP_SIZE;
    assert base == PAGE_SIZE * (1024 * k);
  }

  /** A 4 MiB boundary is aligned to the top order. */
  lemma TopAligned(base: nat)
    requires base % TOP_SIZE == 0
    ensures Aligned(base, MAX_ORDER - 1)
  {
    ChunkPages(base);
    var p, n := base / PAGE_SIZE, MAX_ORDER - 1;
    assert Pow2(n) == 1024 by { assert Pow2(10) == 1024; }
    LowBitsAreMod(p, n);
    LowBitsAligned(p, n);
  }

  /** Below the top order a block and its buddy lie in the same 4 MiB chunk. */
  lemma BuddySameChunk(base: nat, order: nat)
    requires order + 1 < MAX_ORDER && Aligned(base, order)
    ensures BuddyAddress(base, order) / TOP_SIZE == base / TOP_SIZE
  {
    BuddyHalves(base, order);
    InsideChunk(Min(base, BuddyAddress(base, order)), order + 1);
  }
}
