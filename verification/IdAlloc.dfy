/** The ID allocator: free intervals in an ordered map, with reserved major blocks on top. */
module IdAlloc {
  import opened Memory
  import opened FiniteSets
  import Chunks

  /** Free intervals [start, end), keyed by start. */
  type Ranges = map<nat, nat>

  /** Non-empty intervals with gaps between them. */
  ghost predicate Canonical(m: Ranges) {
    && (forall a :: a in m ==> a < m[a])
    && (forall a, b :: a in m && b in m && a < b ==> m[a] < b)
  }

  /** The free IDs. */
  ghost function Free(m: Ranges): (f: set<nat>) {
    set a, id | a in m && a <= id < m[a] && Between(a, id, m[a]) :: id
  }

  lemma FreeIs(m: Ranges, a: nat, id: nat)
    requires a in m && a <= id < m[a]
    ensures id in Free(m)
  {
    assert Between(a, id, m[a]);
  }

  /** Where an interval starts and ends can be read off the set of free IDs. */
  lemma StartsAndEnds(m: Ranges, a: nat)
    requires Canonical(m)
    ensures a in m <==> a in Free(m) && (a == 0 || a - 1 !in Free(m))
    ensures a in m ==> m[a] !in Free(m) && forall id :: a <= id < m[a] ==> id in Free(m)
  {
    if a in m {
      forall id | a <= id < m[a] ensures id in Free(m) {
        FreeIs(m, a, id);
      }
    }
    if a in Free(m) {
      var b :| b in m && b <= a < m[b];
      if b < a {
        FreeIs(m, b, a - 1);
      }
    }
  }

  /** The map is determined by the set of free IDs: coalescing leaves one way to write it. */
  lemma OneForm(m: Ranges, n: Ranges)
    requires Canonical(m) && Canonical(n) && Free(m) == Free(n)
    ensures m == n
  {
    forall a | a in m || a in n ensures a in m && a in n && m[a] == n[a] {
      StartsAndEnds(m, a);
      StartsAndEnds(n, a);
    }
  }

  // ----- changing the map -----

  /** `range(..n).next_back()`: the last interval that starts below `n`. */
  method LastBelow(m: Ranges, n: nat) returns (r: Option<nat>)
    ensures r.None? ==> forall a :: a in m ==> a >= n
    ensures r.Some? ==> r.value in m && r.value < n && forall a :: a in m && a < n ==> a <= r.value
  {
    var below := set a | a in m && a < n;
    assert forall a :: a in m && a < n ==> a in below;
    if below == {} {
      return None;
    }
    ghost var top := HasMax(below);
    var s :| s in below && forall x :: x in below ==> x <= s;
    r := Some(s);
  }

  /** The map after a free interval has been merged with its neighbours. */
  function Join(m: Ranges, left: Option<nat>, lo: nat, hi: nat): Ranges {
    var m1 := if left.Some? then m - {left.value} else m;
    var start := if left.Some? then left.value else lo;
    if hi in m1 then (m1 - {hi})[start := m1[hi]] else m1[start := hi]
  }

  /** `left` is the interval that ends where the new one starts, if there is one. */
  ghost predicate IsLeft(m: Ranges, left: Option<nat>, lo: nat) {
    match left
    case None => forall a :: a in m && a < lo ==> m[a] != lo
    case Some(s) => s in m && s < lo && m[s] == lo
  }

  /** Where an interval lies relative to a hole. */
  lemma AroundHole(m: Ranges, lo: nat, hi: nat, a: nat)
    requires Canonical(m) && lo < hi && Range(lo, hi) !! Free(m) && a in m
    ensures m[a] <= lo || hi <= a
  {
    if a < hi && lo < m[a] {
      var x := if a < lo then lo else a;
      assert x in Range(lo, hi);
      FreeIs(m, a, x);
    }
  }

  lemma JoinCanonical(m: Ranges, left: Option<nat>, lo: nat, hi: nat)
    requires Canonical(m) && lo < hi && Range(lo, hi) !! Free(m) && IsLeft(m, left, lo)
    ensures Canonical(Join(m, left, lo, hi))
  {
    forall a | a in m ensures m[a] <= lo || hi <= a {
      AroundHole(m, lo, hi, a);
    }
  }

  lemma JoinFree(m: Ranges, left: Option<nat>, lo: nat, hi: nat)
    requires Canonical(m) && lo < hi && Range(lo, hi) !! Free(m) && IsLeft(m, left, lo)
    ensures Free(Join(m, left, lo, hi)) == Free(m) + Range(lo, hi)
  {
    var j := Join(m, left, lo, hi);
    var start := if left.Some? then left.value else lo;
    forall id | id in Free(m) + Range(lo, hi) ensures id in Free(j) {
      if id in Range(lo, hi) {
        FreeIs(j, start, id);
      } else {
        var a :| a in m && a <= id < m[a];
        AroundHole(m, lo, hi, a);
        FreeIs(j, if left == Some(a) || a == hi then start else a, id);
      }
    }
    forall id | id in Free(j) ensures id in Free(m) + Range(lo, hi) {
      var a :| a in j && a <= id < j[a];
      if a == start {
        if left.Some? && id < lo {
          FreeIs(m, left.value, id);
        } else if id >= hi {
          FreeIs(m, hi, id);
        }
      } else {
        FreeIs(m, a, id);
      }
    }
  }

  /** `insert_free_range`: one ID becomes free. */
  method InsertFreeRange(max: nat, m: Ranges, n: nat) returns (m': Ranges)
    requires Canonical(m) && n !in Free(m) && n < max
    ensures Canonical(m') && Free(m') == Free(m) + {n}
  {
    var start, end, out := n, if n < max then n + 1 else n, m;
    ghost var left: Option<nat> := None;
    var p := LastBelow(out, n);
    if p.Some? && out[p.value] == n {
      start := p.value;
      out := out - {p.value};
      left := p;
    }
    if n < max && n + 1 in out {
      end := out[n + 1];
      out := out - {n + 1};
    }
    m' := out[start := end];
    assert Range(n, n + 1) == {n};
    LeftIs(m, left, p, n);
    JoinCanonical(m, left, n, n + 1);
    JoinFree(m, left, n, n + 1);
    assert m' == Join(m, left, n, n + 1);
  }

  lemma LeftIs(m: Ranges, left: Option<nat>, p: Option<nat>, lo: nat)
    requires Canonical(m) && (p.None? ==> forall a :: a in m ==> a >= lo)
    requires p.Some? ==> p.value in m && p.value < lo && forall a :: a in m && a < lo ==> a <= p.value
    requires left == if p.Some? && m[p.value] == lo then p else None
    ensures IsLeft(m, left, lo)
  {
    if left.None? && p.Some? {
      forall a | a in m && a < lo ensures m[a] != lo {
        assert a == p.value || m[a] < p.value;
      }
    }
  }

  /** `return_range`: an interval becomes free. */
  method ReturnRange(m: Ranges, lo: nat, hi: nat) returns (m': Ranges)
    requires Canonical(m) && Range(lo, hi) !! Free(m)
    ensures Canonical(m') && Free(m') == Free(m) + Range(lo, hi)
  {
    if lo >= hi {
      assert Range(lo, hi) == {};
      return m;
    }
    var start, end, out := lo, hi, m;
    ghost var left: Option<nat> := None;
    var p := LastBelow(out, lo);
    if p.Some? && out[p.value] == lo {
      start := p.value;
      out := out - {p.value};
      left := p;
    }
    if hi in out {
      end := out[hi];
      out := out - {hi};
    }
    m' := out[start := end];
    LeftIs(m, left, p, lo);
    JoinCanonical(m, left, lo, hi);
    JoinFree(m, left, lo, hi);
    assert m' == Join(m, left, lo, hi);
  }

  /** The map after [lo, hi) has been cut out of the interval that starts at `s`. */
  function Cut(m: Ranges, s: nat, lo: nat, hi: nat): Ranges
    requires s in m
  {
    var m1 := m - {s};
    var m2 := if s < lo then m1[s := lo] else m1;
    if hi < m[s] then m2[hi := m[s]] else m2
  }

  lemma CutCanonical(m: Ranges, s: nat, lo: nat, hi: nat)
    requires Canonical(m) && s in m && s <= lo < hi <= m[s]
    ensures Canonical(Cut(m, s, lo, hi))
  {
    forall a | a in m && a != s ensures m[a] < s || m[s] < a {}
  }

  lemma CutFree(m: Ranges, s: nat, lo: nat, hi: nat)
    requires Canonical(m) && s in m && s <= lo < hi <= m[s]
    ensures Free(Cut(m, s, lo, hi)) == Free(m) - Range(lo, hi)
  {
    var c := Cut(m, s, lo, hi);
    forall a | a in m && a != s ensures m[a] < s || m[s] < a {}
    forall id | id in Free(m) - Range(lo, hi) ensures id in Free(c) {
      var a :| a in m && a <= id < m[a];
      FreeIs(c, if a == s && id >= hi then hi else a, id);
    }
    forall id | id in Free(c) ensures id in Free(m) - Range(lo, hi) {
      var a :| a in c && a <= id < c[a];
      FreeIs(m, if a == hi || a == s then s else a, id);
    }
  }

  // ----- one flat allocator -----

  datatype Flat = Flat(start: nat, end: nat, inuse: nat, ranges: Ranges)

  /** Allocated one by one: neither free nor given away as part of a block. */
  ghost function InUse(f: Flat, taken: set<nat>): set<nat> { Range(f.start, f.end) - taken - Free(f.ranges) }

  ghost predicate FlatOk(max: nat, f: Flat, taken: set<nat>) {
    && f.start <= f.end <= max && Canonical(f.ranges) && taken <= Range(f.start, f.end)
    && Free(f.ranges) <= Range(f.start, f.end) && Free(f.ranges) !! taken && f.inuse == |InUse(f, taken)|
  }

  function NewFlat(start: nat, end: nat): Flat {
    Flat(start, end, 0, if start < end then map[start := end] else map[])
  }

  lemma NewFlatOk(max: nat, start: nat, end: nat)
    requires start <= end <= max
    ensures FlatOk(max, NewFlat(start, end), {}) && Free(NewFlat(start, end).ranges) == Range(start, end)
  {
    var f := NewFlat(start, end);
    forall id | id in Range(start, end) ensures id in Free(f.ranges) {
      FreeIs(f.ranges, start, id);
    }
    assert InUse(f, {}) == {};
  }

  /** The key that comes first in the map's order. */
  method Least(keys: set<nat>) returns (s: nat)
    requires keys != {}
    ensures s in keys && forall x :: x in keys ==> s <= x
  {
    ghost var bottom := HasMin(keys);
    s :| s in keys && forall x :: x in keys ==> s <= x;
  }

  /** The free IDs in some of the intervals. */
  ghost function FreeIn(m: Ranges, keys: set<nat>): set<nat> {
    set a, id | a in keys && a in m && a <= id < m[a] && Between(a, id, m[a]) :: id
  }

  lemma AddInterval(m: Ranges, done: set<nat>, a: nat)
    requires Canonical(m) && done <= m.Keys && a in m && a !in done
    ensures |FreeIn(m, done + {a})| == |FreeIn(m, done)| + m[a] - a
  {
    RangeSize(a, m[a]);
    assert FreeIn(m, done + {a}) == FreeIn(m, done) + Range(a, m[a]) by {
      forall id | id in Range(a, m[a]) ensures id in FreeIn(m, done + {a}) {
        assert Between(a, id, m[a]);
      }
    }
    assert FreeIn(m, done) !! Range(a, m[a]);
  }

  lemma FreeInAll(m: Ranges)
    ensures FreeIn(m, m.Keys) == Free(m) && FreeIn(m, {}) == {}
  {
  }

  /** The number of free IDs. */
  method Available(m: Ranges) returns (n: nat)
    requires Canonical(m)
    ensures n == |Free(m)|
  {
    n := 0;
    var todo := m.Keys;
    FreeInAll(m);
    assert m.Keys - todo == {};
    while todo != {}
      invariant todo <= m.Keys && n == |FreeIn(m, m.Keys - todo)|
    {
      var s := Least(todo);
      AddInterval(m, m.Keys - todo, s);
      assert m.Keys - (todo - {s}) == m.Keys - todo + {s};
      n := n + (m[s] - s);
      todo := todo - {s};
    }
    assert m.Keys - todo == m.Keys;
  }

  /** `is_allocated`: look through the intervals in order and stop past the ID. */
  method FlatIsAllocated(f: Flat, id: nat) returns (r: bool)
    requires Canonical(f.ranges)
    ensures r <==> f.start <= id < f.end && id !in Free(f.ranges)
  {
    if !(f.start <= id < f.end) {
      return false;
    }
    var todo := f.ranges.Keys;
    while todo != {}
      invariant todo <= f.ranges.Keys && forall a :: a in f.ranges && a !in todo ==> !(a <= id < f.ranges[a])
    {
      var s := Least(todo);
      if s <= id < f.ranges[s] {
        FreeIs(f.ranges, s, id);
        return false;
      }
      if s > id {
        break;
      }
      todo := todo - {s};
    }
    return true;
  }

  /** `alloc`: the lowest free ID. */
  method FlatTake(max: nat, f: Flat, ghost taken: set<nat>) returns (f': Flat, id: Option<nat>)
    requires FlatOk(max, f, taken)
    ensures FlatOk(max, f', taken) && f'.start == f.start && f'.end == f.end
    ensures id.None? ==> Free(f.ranges) == {} && f' == f
    ensures id.Some? ==>
              && id.value in Free(f.ranges) && (forall x :: x in Free(f.ranges) ==> id.value <= x)
              && Free(f'.ranges) == Free(f.ranges) - {id.value}
  {
    var n := Available(f.ranges);
    if n == 0 {
      return f, None;
    }
    SomeInterval(f.ranges);
    var s := Least(f.ranges.Keys);
    var end := f.ranges[s];
    var m := f.ranges - {s};
    if s < max && s + 1 < end {
      m := m[s + 1 := end];
    }
    TakeFirst(f.ranges, s);
    InRangeOnly(f, taken, s, max);
    assert m == Cut(f.ranges, s, s, s + 1);
    f' := f.(inuse := f.inuse + 1, ranges := m);
    id := Some(s);
    OneMoreUsed(max, f, f', taken, s);
  }

  lemma InRangeOnly(f: Flat, taken: set<nat>, s: nat, max: nat)
    requires FlatOk(max, f, taken) && s in Free(f.ranges)
    ensures f.start <= s < f.end <= max && s !in taken
  {
    assert s in Range(f.start, f.end);
  }

  /** Cutting off the first ID of the first interval. */
  lemma TakeFirst(m: Ranges, s: nat)
    requires Canonical(m) && s in m && forall a :: a in m ==> s <= a
    ensures s in Free(m) && (forall x :: x in Free(m) ==> s <= x)
    ensures Canonical(Cut(m, s, s, s + 1)) && Free(Cut(m, s, s, s + 1)) == Free(m) - {s}
  {
    FreeIs(m, s, s);
    CutCanonical(m, s, s, s + 1);
    CutFree(m, s, s, s + 1);
    assert Range(s, s + 1) == {s};
  }

  lemma OneMoreUsed(max: nat, f: Flat, f': Flat, taken: set<nat>, id: nat)
    requires FlatOk(max, f, taken) && id in Free(f.ranges) && f' == f.(inuse := f.inuse + 1, ranges := f'.ranges)
    requires Canonical(f'.ranges) && Free(f'.ranges) == Free(f.ranges) - {id}
    ensures FlatOk(max, f', taken) && InUse(f', taken) == InUse(f, taken) + {id}
  {
    hide Free, Range, Canonical;
    assert InUse(f', taken) == InUse(f, taken) + {id};
  }

  lemma OneLessUsed(max: nat, f: Flat, f': Flat, taken: set<nat>, id: nat)
    requires FlatOk(max, f, taken) && id in InUse(f, taken) && f' == f.(inuse := f'.inuse, ranges := f'.ranges)
              && f'.inuse == f.inuse - 1
    requires Canonical(f'.ranges) && Free(f'.ranges) == Free(f.ranges) + {id}
    ensures FlatOk(max, f', taken) && InUse(f', taken) == InUse(f, taken) - {id}
  {
    hide Free, Range, Canonical;
    assert InUse(f', taken) == InUse(f, taken) - {id};
  }

  lemma SomeInterval(m: Ranges)
    requires Canonical(m) && |Free(m)| > 0
    ensures m.Keys != {}
  {
    var id :| id in Free(m);
    var a :| a in m && a <= id < m[a];
  }

  datatype IdError =
    Fine | OutOfRange | AlreadyAllocated | AlreadyFree | EmptyRange | RangeBusy | NotAligned | MajorNotFound

  /** `carve`: take a free interval out of the map. */
  method Carve(f: Flat, lo: nat, hi: nat) returns (e: IdError, m: Ranges)
    requires Canonical(f.ranges) && Free(f.ranges) <= Range(f.start, f.end)
    ensures e == if lo >= hi then EmptyRange else if lo < f.start || hi > f.end then OutOfRange
                 else if Range(lo, hi) <= Free(f.ranges) then Fine else RangeBusy
    ensures e == Fine ==> Canonical(m) && Free(m) == Free(f.ranges) - Range(lo, hi)
    ensures e != Fine ==> m == f.ranges
  {
    m := f.ranges;
    if lo >= hi {
      return EmptyRange, m;
    }
    if lo < f.start || hi > f.end {
      return OutOfRange, m;
    }
    var s := LastBelow(m, lo + 1);
    InOneInterval(m, s, lo, hi);
    if s.None? || hi > m[s.value] {
      return RangeBusy, m;
    }
    var end := m[s.value];
    m := m - {s.value};
    if s.value < lo {
      m := m[s.value := lo];
    }
    if hi < end {
      m := m[hi := end];
    }
    CutCanonical(f.ranges, s.value, lo, hi);
    CutFree(f.ranges, s.value, lo, hi);
    e := Fine;
  }

  /** A free run lies inside one interval, the last one that starts at or before it. */
  lemma InOneInterval(m: Ranges, s: Option<nat>, lo: nat, hi: nat)
    requires Canonical(m) && lo < hi && (s.None? ==> forall a :: a in m ==> a >= lo + 1)
    requires s.Some? ==> s.value in m && s.value < lo + 1 && forall a :: a in m && a < lo + 1 ==> a <= s.value
    ensures Range(lo, hi) <= Free(m) <==> s.Some? && hi <= m[s.value]
  {
    if s.Some? && hi <= m[s.value] {
      forall id | id in Range(lo, hi) ensures id in Free(m) {
        FreeIs(m, s.value, id);
      }
    }
    if Range(lo, hi) <= Free(m) {
      assert lo in Range(lo, hi);
      var a :| a in m && a <= lo < m[a];
      assert s == Some(a);
      if m[a] < hi {
        assert m[a] in Range(lo, hi);
        StartsAndEnds(m, a);
      }
    }
  }

  /** `alloc_at`: one given ID. */
  method FlatTakeAt(max: nat, f: Flat, id: nat, ghost taken: set<nat>) returns (f': Flat, e: IdError)
    requires FlatOk(max, f, taken)
    ensures e == if !(f.start <= id < f.end) then OutOfRange else if id in Free(f.ranges) then Fine
              else AlreadyAllocated
    ensures FlatOk(max, f', taken) && f'.start == f.start && f'.end == f.end
    ensures Free(f'.ranges) == if e == Fine then Free(f.ranges) - {id} else Free(f.ranges)
    ensures e != Fine ==> f' == f
  {
    hide Free, Range, Canonical, FlatOk;
    FlatFacts(max, f, taken);
    if !(f.start <= id < f.end) {
      return f, OutOfRange;
    }
    var busy := FlatIsAllocated(f, id);
    if busy {
      return f, AlreadyAllocated;
    }
    var s := LastBelow(f.ranges, id + 1);
    CutOne(f.ranges, s, id);
    var end := f.ranges[s.value];
    var m := f.ranges - {s.value};
    if s.value < id {
      m := m[s.value := id];
    }
    if id < max && id + 1 < end {
      m := m[id + 1 := end];
    }
    assert m == Cut(f.ranges, s.value, id, id + 1);
    f' := f.(inuse := f.inuse + 1, ranges := m);
    OneMoreUsed(max, f, f', taken, id);
    e := Fine;
  }

  lemma FlatFacts(max: nat, f: Flat, taken: set<nat>)
    requires FlatOk(max, f, taken)
    ensures Canonical(f.ranges) && f.start <= f.end <= max
  {
  }

  /** Cutting one free ID out of its interval. */
  lemma CutOne(m: Ranges, s: Option<nat>, id: nat)
    requires Canonical(m) && id in Free(m) && (s.None? ==> forall a :: a in m ==> a >= id + 1)
    requires s.Some? ==> s.value in m && s.value < id + 1 && forall a :: a in m && a < id + 1 ==> a <= s.value
    ensures s.Some? && s.value <= id < m[s.value]
    ensures Canonical(Cut(m, s.value, id, id + 1)) && Free(Cut(m, s.value, id, id + 1)) == Free(m) - {id}
  {
    assert Range(id, id + 1) == {id};
    InOneInterval(m, s, id, id + 1);
    CutCanonical(m, s.value, id, id + 1);
    CutFree(m, s.value, id, id + 1);
  }

  /** `dealloc`: one given ID, which must not lie in a block that was given away. */
  method FlatGive(max: nat, f: Flat, id: nat, ghost taken: set<nat>) returns (f': Flat, e: IdError)
    requires FlatOk(max, f, taken) && id !in taken
    ensures e == if !(f.start <= id < f.end) then OutOfRange else if id in Free(f.ranges) then AlreadyFree else Fine
    ensures FlatOk(max, f', taken) && f'.start == f.start && f'.end == f.end
    ensures Free(f'.ranges) == if e == Fine then Free(f.ranges) + {id} else Free(f.ranges)
    ensures e != Fine ==> f' == f
  {
    if !(f.start <= id < f.end) {
      return f, OutOfRange;
    }
    var busy := FlatIsAllocated(f, id);
    if !busy {
      return f, AlreadyFree;
    }
    var m := InsertFreeRange(max, f.ranges, id);
    assert id in InUse(f, taken);
    f' := f.(inuse := f.inuse - 1, ranges := m);
    OneLessUsed(max, f, f', taken, id);
    e := Fine;
  }

  // ----- aligned blocks -----

  /** The first multiple of `block` at or after `s`. */
  function AlignTo(s: nat, block: nat): nat
    requires block > 0
  {
    (s + block - 1) / block * block
  }

  predicate AlignedTo(a: nat, block: nat)
    requires block > 0
  {
    a % block == 0
  }

  lemma AlignToLeast(s: nat, block: nat, b: nat)
    requires block > 0
    ensures AlignedTo(AlignTo(s, block), block) && s <= AlignTo(s, block) < s + block
    ensures AlignedTo(b, block) && s <= b ==> AlignTo(s, block) <= b
  {
    var x := s + block - 1;
    var q, r := x / block, x % block;
    assert x == q * block + r;
    ModMultiple(q, block);
    if AlignedTo(b, block) && s <= b {
      var k := b / block;
      assert b == k * block;
      if k < q {
        Chunks.MulOrder(k, q, block);
      } else if q < k {
        Chunks.MulOrder(q, k, block);
      }
    }
  }

  lemma {:induction false} ModMultiple(q: nat, block: nat)
    requires block > 0
    ensures (q * block) % block == 0
    decreases q
  {
    if q > 0 {
      ModMultiple(q - 1, block);
      var y := (q - 1) * block;
      Chunks.MulStep(q, block);
      assert (y + block) % block == y % block by { DivModUnique(y + block, block, y / block + 1, y % block); }
    }
  }

  /** A free aligned block at `b`. */
  ghost predicate FreeBlock(m: Ranges, block: nat, b: nat)
    requires block > 0
  {
    AlignedTo(b, block) && Range(b, b + block) <= Free(m)
  }

  /** `find_aligned_block`: the first free aligned block, if there is one at all. */
  method FindAlignedBlock(m: Ranges, block: nat) returns (r: Option<nat>)
    requires Canonical(m) && block > 0
    ensures r.None? ==> forall b: nat :: !FreeBlock(m, block, b)
    ensures r.Some? ==> FreeBlock(m, block, r.value) && forall b: nat :: FreeBlock(m, block, b) ==> r.value <= b
  {
    hide AlignTo, AlignedTo;
    var todo := m.Keys;
    while todo != {}
      invariant todo <= m.Keys && (forall a, b :: a in m && a !in todo && b in todo ==> a < b)
      invariant forall a: nat, b: nat :: a in m && a !in todo ==> !BlockInside(m, block, a, b)
    {
      var s := Least(todo);
      var aligned := AlignTo(s, block);
      forall b: nat ensures AlignedTo(aligned, block) && s <= aligned
          && (BlockInside(m, block, s, b) ==> aligned <= b) {
        AlignToLeast(s, block, b);
      }
      AlignToLeast(s, block, 0);
      if aligned + block <= m[s] {
        FirstBlock(m, block, s, aligned, todo);
        return Some(aligned);
      }
      todo := todo - {s};
    }
    forall b: nat ensures !FreeBlock(m, block, b) {
      if FreeBlock(m, block, b) {
        var a := HasInterval(m, block, b);
      }
    }
    return None;
  }

  /** An aligned block inside the interval that starts at `a`. */
  ghost predicate BlockInside(m: Ranges, block: nat, a: nat, b: nat)
    requires block > 0 && a in m
  {
    AlignedTo(b, block) && a <= b && b + block <= m[a]
  }

  lemma HasInterval(m: Ranges, block: nat, b: nat) returns (a: nat)
    requires Canonical(m) && block > 0 && FreeBlock(m, block, b)
    ensures a in m && BlockInside(m, block, a, b)
  {
    assert b in Range(b, b + block);
    a :| a in m && a <= b < m[a];
    if m[a] < b + block {
      assert m[a] in Range(b, b + block);
      StartsAndEnds(m, a);
    }
  }

  lemma FirstBlock(m: Ranges, block: nat, s: nat, aligned: nat, todo: set<nat>)
    requires Canonical(m) && block > 0 && s in m && BlockInside(m, block, s, aligned) && s in todo
              && forall x :: x in todo ==> s <= x
    requires forall a: nat, b: nat :: a in m && a !in todo ==> !BlockInside(m, block, a, b)
    requires forall b: nat :: BlockInside(m, block, s, b) ==> aligned <= b
    ensures FreeBlock(m, block, aligned) && forall b: nat :: FreeBlock(m, block, b) ==> aligned <= b
  {
    hide AlignedTo;
    forall id | id in Range(aligned, aligned + block) ensures id in Free(m) {
      FreeIs(m, s, id);
    }
    forall b: nat | FreeBlock(m, block, b) ensures aligned <= b {
      var a := HasInterval(m, block, b);
      assert a in todo;
    }
  }

  // ----- majors and minors -----

  /** The start of the block an ID belongs to. */
  function BaseOf(id: nat, block: nat): nat
    requires block > 0
  {
    id / block * block
  }

  /** Aligned blocks: an ID is in exactly the one that starts at its base. */
  lemma BaseIs(id: nat, block: nat, b: nat)
    requires block > 0
    ensures AlignedTo(BaseOf(id, block), block) && BaseOf(id, block) <= id < BaseOf(id, block) + block
    ensures AlignedTo(b, block) && b <= id < b + block ==> b == BaseOf(id, block)
  {
    var q := id / block;
    assert id == q * block + id % block;
    ModMultiple(q, block);
    if AlignedTo(b, block) && b <= id < b + block {
      var k := b / block;
      assert b == k * block;
      if k < q {
        Chunks.MulOrder(k, q, block);
      } else if q < k {
        Chunks.MulOrder(q, k, block);
      }
    }
  }

  predicate Within(b: nat, id: nat, block: nat) { b <= id < b + block }

  /** The IDs of one block. */
  ghost function BlockAt(b: nat, block: nat): set<nat> { Range(b, b + block) }

  /** The IDs in the blocks at `bases`. */
  ghost function BlocksAt(bases: set<nat>, block: nat): set<nat> {
    set b, id | b in bases && b <= id < b + block && Within(b, id, block) :: id
  }

  lemma InBlock(bases: set<nat>, block: nat, b: nat)
    requires b in bases
    ensures BlockAt(b, block) <= BlocksAt(bases, block)
  {
    forall id | id in BlockAt(b, block) ensures id in BlocksAt(bases, block) {
      assert Within(b, id, block);
    }
  }

  /** With aligned bases, only an ID's own base decides whether it is in a block. */
  lemma Routing(bases: set<nat>, block: nat, id: nat)
    requires block > 0 && forall b :: b in bases ==> AlignedTo(b, block)
    ensures id in BlocksAt(bases, block) <==> BaseOf(id, block) in bases
  {
    hide AlignedTo, BaseOf;
    BaseIs(id, block, 0);
    assert Within(BaseOf(id, block), id, block);
    forall b | b in bases && Within(b, id, block) ensures b == BaseOf(id, block) {
      BaseIs(id, block, b);
    }
  }

  lemma BlocksApart(block: nat, b: nat, c: nat)
    requires block > 0 && AlignedTo(b, block) && AlignedTo(c, block) && b != c
    ensures BlockAt(b, block) !! BlockAt(c, block)
  {
    hide AlignedTo, BaseOf;
    forall id | id in BlockAt(b, block) && id in BlockAt(c, block) ensures false {
      BaseIs(id, block, b);
      BaseIs(id, block, c);
    }
  }

  /** A block added to others, or taken away again. */
  lemma BlocksChange(bases: set<nat>, block: nat, b: nat)
    requires block > 0 && b !in bases && AlignedTo(b, block) && forall c :: c in bases ==> AlignedTo(c, block)
    ensures BlocksAt(bases + {b}, block) == BlocksAt(bases, block) + BlockAt(b, block)
    ensures BlocksAt(bases, block) !! BlockAt(b, block)
  {
    forall id | id in BlockAt(b, block) ensures id in BlocksAt(bases + {b}, block) {
      assert Within(b, id, block);
    }
    forall c | c in bases ensures BlockAt(c, block) !! BlockAt(b, block) {
      BlocksApart(block, b, c);
    }
  }

  /** A major: an allocator of its own for the IDs of one block. */
  ghost predicate MajorOk(max: nat, block: nat, flat: Flat, b: nat, slot: Flat)
    requires block > 0
  {
    && AlignedTo(b, block) && flat.start <= b && b + block <= flat.end
    && slot.start == b && slot.end == b + block && FlatOk(max, slot, {})
  }

  /** The two levels together. */
  ghost predicate StateOk(max: nat, block: nat, flat: Flat, majors: map<nat, Flat>) {
    && block > 0 && FlatOk(max, flat, BlocksAt(majors.Keys, block))
    && forall b :: b in majors ==> MajorOk(max, block, flat, b, majors[b])
  }

  /** The allocator responsible for an ID: its major, if that is reserved, or else the flat one. */
  function Owner(block: nat, flat: Flat, majors: map<nat, Flat>, id: nat): Flat
    requires block > 0
  {
    if BaseOf(id, block) in majors then majors[BaseOf(id, block)] else flat
  }

  ghost predicate Taken(block: nat, flat: Flat, majors: map<nat, Flat>, id: nat)
    requires block > 0
  {
    flat.start <= id < flat.end && id !in Free(Owner(block, flat, majors, id).ranges)
  }

  /** The allocated IDs. */
  ghost function AllocatedIn(block: nat, flat: Flat, majors: map<nat, Flat>): set<nat>
    requires block > 0
  {
    set id | id in Range(flat.start, flat.end) && Taken(block, flat, majors, id)
  }

  /** The bases of reserved blocks are aligned, so an ID is routed to the block it is in. */
  lemma Routed(max: nat, block: nat, flat: Flat, majors: map<nat, Flat>, id: nat)
    requires StateOk(max, block, flat, majors)
    ensures id in BlocksAt(majors.Keys, block) <==> BaseOf(id, block) in majors
    ensures BaseOf(id, block) in majors ==>
              && majors[BaseOf(id, block)].start <= id < majors[BaseOf(id, block)].end
              && FlatOk(max, majors[BaseOf(id, block)], {})
    ensures id in Free(flat.ranges) ==> BaseOf(id, block) !in majors && flat.start <= id < flat.end
  {
    hide AlignedTo, Canonical, BaseOf, Free;
    Routing(majors.Keys, block, id);
    BaseIs(id, block, 0);
  }

  /** Replacing the flat allocator changes the IDs outside all majors only. */
  lemma FlatReplaced(max: nat, block: nat, flat: Flat, majors: map<nat, Flat>, flat': Flat)
    requires StateOk(max, block, flat, majors) && FlatOk(max, flat', BlocksAt(majors.Keys, block))
              && flat'.start == flat.start && flat'.end == flat.end
    ensures StateOk(max, block, flat', majors)
    ensures AllocatedIn(block, flat', majors) == AllocatedIn(block, flat, majors)
              + (Free(flat.ranges) - Free(flat'.ranges)) - (Free(flat'.ranges) - Free(flat.ranges))
  {
    hide AlignedTo, Canonical, BaseOf, Free, InUse;
    forall id | id in Free(flat.ranges) || id in Free(flat'.ranges) ensures BaseOf(id, block) !in majors
        && flat.start <= id < flat.end {
      FreeOutside(max, block, flat, majors, id);
      FreeOutside(max, block, flat', majors, id);
    }
  }

  lemma FreeOutside(max: nat, block: nat, flat: Flat, majors: map<nat, Flat>, id: nat)
    requires block > 0 && FlatOk(max, flat, BlocksAt(majors.Keys, block)) && forall b :: b in majors ==>
              AlignedTo(b, block)
    ensures id in Free(flat.ranges) ==> BaseOf(id, block) !in majors && flat.start <= id < flat.end
  {
    hide AlignedTo, Canonical, BaseOf, Free, InUse;
    Routing(majors.Keys, block, id);
  }

  /** Replacing a major's allocator changes the IDs of its block only. */
  lemma SlotReplaced(max: nat, block: nat, flat: Flat, majors: map<nat, Flat>, base: nat, f: Flat)
    requires StateOk(max, block, flat, majors) && base in majors
    requires FlatOk(max, f, {}) && f.start == majors[base].start && f.end == majors[base].end
    ensures StateOk(max, block, flat, majors[base := f])
    ensures AllocatedIn(block, flat, majors[base := f]) ==
              AllocatedIn(block, flat, majors)
                  + (Free(majors[base].ranges) - Free(f.ranges)) - (Free(f.ranges) - Free(majors[base].ranges))
  {
    hide AlignedTo, Canonical, BaseOf, Free, InUse;
    assert majors[base := f].Keys == majors.Keys;
    assert MajorOk(max, block, flat, base, majors[base]);
    forall id | id in Free(majors[base].ranges) || id in Free(f.ranges) ensures BaseOf(id, block) == base
        && flat.start <= id < flat.end {
      assert id in Range(f.start, f.end);
      BaseIs(id, block, base);
    }
  }

  class Allocator {
    const max: nat
    const block: nat
    var flat: Flat
    var majors: map<nat, Flat>

    ghost predicate Valid()
      reads this
    {
      StateOk(max, block, flat, majors)
    }

    /** The allocated IDs, flat and in majors. */
    ghost function Allocated(): set<nat>
      requires block > 0
      reads this
    {
      AllocatedIn(block, flat, majors)
    }

    /** `from_range`, once the range has been found valid. */
    constructor (max: nat, block: nat, start: nat, end: nat)
      requires block > 0 && start <= end <= max
      ensures Valid() && Allocated() == {} && majors == map[] && flat == NewFlat(start, end)
      ensures this.max == max && this.block == block
    {
      this.max, this.block := max, block;
      this.flat, this.majors := NewFlat(start, end), map[];
      new;
      NewFlatOk(max, start, end);
      assert BlocksAt({}, block) == {};
    }

    /** `alloc`: the lowest free ID outside all majors. */
    method Alloc() returns (id: Option<nat>)
      requires Valid()
      modifies this`flat
      ensures Valid() && flat.start == old(flat.start) && flat.end == old(flat.end)
      ensures id.None? ==> Free(flat.ranges) == {} && flat == old(flat)
      ensures id.Some? ==>
                && id.value in old(Free(flat.ranges)) && (forall x :: x in old(Free(flat.ranges)) ==> id.value <= x)
                && Free(flat.ranges) == old(Free(flat.ranges)) - {id.value}
                && id.value !in old(Allocated()) && Allocated() == old(Allocated()) + {id.value}
    {
      hide Free, Canonical, BaseOf, AlignedTo, FlatOk, MajorOk, BlocksAt;
      var f;
      f, id := FlatTake(max, flat, BlocksAt(majors.Keys, block));
      FlatReplaced(max, block, flat, majors, f);
      if id.Some? {
        Routed(max, block, flat, majors, id.value);
      }
      flat := f;
    }

    /** `is_allocated`: ask the major the ID belongs to, or else the flat allocator. */
    method IsAllocated(id: nat) returns (r: bool)
      requires Valid()
      ensures r <==> id in Allocated()
    {
      hide Free, Canonical, BaseOf, AlignedTo, BlocksAt, MajorOk;
      if !(flat.start <= id < flat.end) {
        return false;
      }
      Routed(max, block, flat, majors, id);
      r := FlatIsAllocated(Owner(block, flat, majors, id), id);
    }

    /** `alloc_at`: one given ID, in its major or in the flat range. */
    method AllocAt(id: nat) returns (e: IdError)
      requires Valid()
      modifies this`flat, this`majors
      ensures Valid() && flat.start == old(flat.start) && flat.end == old(flat.end) && majors.Keys == old(majors.Keys)
      ensures e == if !(flat.start <= id < flat.end) then OutOfRange else if id in old(Allocated())
                then AlreadyAllocated else Fine
      ensures Allocated() == if e == Fine then old(Allocated()) + {id} else old(Allocated())
      ensures e != Fine ==> flat == old(flat) && majors == old(majors)
    {
      hide Free, Canonical, BaseOf, AlignedTo, FlatOk, MajorOk, BlocksAt;
      if !(flat.start <= id < flat.end) {
        return OutOfRange;
      }
      Routed(max, block, flat, majors, id);
      var base := BaseOf(id, block);
      var f;
      if base in majors {
        f, e := FlatTakeAt(max, majors[base], id, {});
        SlotReplaced(max, block, flat, majors, base, f);
        majors := majors[base := f];
      } else {
        f, e := FlatTakeAt(max, flat, id, BlocksAt(majors.Keys, block));
        FlatReplaced(max, block, flat, majors, f);
        flat := f;
      }
    }

    /** `dealloc`: one given ID, from its major or from the flat range. */
    method Dealloc(id: nat) returns (e: IdError)
      requires Valid()
      modifies this`flat, this`majors
      ensures Valid() && flat.start == old(flat.start) && flat.end == old(flat.end) && majors.Keys == old(majors.Keys)
      ensures e == if !(flat.start <= id < flat.end) then OutOfRange else if id in old(Allocated()) then Fine
                else AlreadyFree
      ensures Allocated() == if e == Fine then old(Allocated()) - {id} else old(Allocated())
      ensures e != Fine ==> flat == old(flat) && majors == old(majors)
    {
      hide Free, Canonical, BaseOf, AlignedTo, FlatOk, MajorOk, BlocksAt;
      if !(flat.start <= id < flat.end) {
        return OutOfRange;
      }
      Routed(max, block, flat, majors, id);
      var base := BaseOf(id, block);
      var f;
      if base in majors {
        f, e := FlatGive(max, majors[base], id, {});
        SlotReplaced(max, block, flat, majors, base, f);
        majors := majors[base := f];
      } else {
        f, e := FlatGive(max, flat, id, BlocksAt(majors.Keys, block));
        FlatReplaced(max, block, flat, majors, f);
        flat := f;
      }
    }

    /** `alloc_minor`: the lowest free ID of a major. */
    method AllocMinor(major: nat) returns (id: Option<nat>)
      requires Valid()
      modifies this`majors
      ensures Valid() && majors.Keys == old(majors.Keys)
      ensures id.None? ==> majors == old(majors) && (major in majors ==> Free(majors[major].ranges) == {})
      ensures id.Some? ==>
                && major in majors && major <= id.value < major + block && id.value !in old(Allocated())
                && Allocated() == old(Allocated()) + {id.value}
                && forall x :: major <= x < id.value ==> x in old(Allocated())
    {
      hide Free, Canonical, BaseOf, AlignedTo, FlatOk, BlocksAt;
      if major !in majors {
        return None;
      }
      var f;
      f, id := FlatTake(max, majors[major], {});
      SlotReplaced(max, block, flat, majors, major, f);
      if id.Some? {
        MinorIds(max, block, flat, majors, major, id.value);
      }
      majors := majors[major := f];
    }

    /** `alloc_major`: reserve the lowest free aligned block; None only if there is none. */
    method AllocMajor() returns (base: Option<nat>)
      requires Valid()
      modifies this`flat, this`majors
      ensures Valid() && flat.start == old(flat.start) && flat.end == old(flat.end) && Allocated() == old(Allocated())
      ensures base.None? ==>
                (forall b: nat :: !FreeBlock(flat.ranges, block, b)) && flat == old(flat) && majors == old(majors)
      ensures base.Some? ==>
                && FreeBlock(old(flat.ranges), block, base.value)
                && (forall b: nat :: FreeBlock(old(flat.ranges), block, b) ==> base.value <= b)
                && base.value !in old(majors)
                && majors == old(majors)[base.value := NewFlat(base.value, base.value + block)]
                && Free(flat.ranges) == old(Free(flat.ranges)) - BlockAt(base.value, block)
    {
      hide Free, Canonical, BaseOf, AlignedTo, FreeBlock, StateOk, AllocatedIn, NewFlat;
      CarveReady(max, block, flat, majors);
      base := FindAlignedBlock(flat.ranges, block);
      if base.None? {
        return;
      }
      BlockInRange(max, block, flat, majors, base.value);
      var e, m := Carve(flat, base.value, base.value + block);
      MajorReserved(max, block, flat, majors, base.value, m);
      flat := flat.(ranges := m);
      majors := majors[base.value := NewFlat(base.value, base.value + block)];
    }

    /** `alloc_major_at`: reserve the block at `base`. */
    method AllocMajorAt(base: nat) returns (e: IdError)
      requires Valid()
      modifies this`flat, this`majors
      ensures Valid() && flat.start == old(flat.start) && flat.end == old(flat.end) && Allocated() == old(Allocated())
      ensures e == if !AlignedTo(base, block) then NotAligned
                   else if !(flat.start <= base < flat.end) || base + block > flat.end then OutOfRange
                   else if base in old(majors) then AlreadyAllocated
                   else if FreeBlock(old(flat.ranges), block, base) then Fine else RangeBusy
      ensures e == Fine ==>
                && majors == old(majors)[base := NewFlat(base, base + block)]
                && Free(flat.ranges) == old(Free(flat.ranges)) - BlockAt(base, block)
      ensures e != Fine ==> flat == old(flat) && majors == old(majors)
    {
      hide Free, Canonical, BaseOf, AlignedTo, StateOk, AllocatedIn, NewFlat;
      CarveReady(max, block, flat, majors);
      if !AlignedTo(base, block) {
        return NotAligned;
      }
      if !(flat.start <= base < flat.end) {
        return OutOfRange;
      }
      if base + block > flat.end {
        return OutOfRange;
      }
      if base in majors {
        return AlreadyAllocated;
      }
      var m;
      e, m := Carve(flat, base, base + block);
      if e == Fine {
        MajorReserved(max, block, flat, majors, base, m);
        flat := flat.(ranges := m);
        majors := majors[base := NewFlat(base, base + block)];
      }
    }

    /** `dealloc_major`: the whole block becomes free, whatever was allocated in it. */
    method DeallocMajor(base: nat) returns (e: IdError)
      requires Valid()
      modifies this`flat, this`majors
      ensures Valid() && flat.start == old(flat.start) && flat.end == old(flat.end)
      ensures e == if base in old(majors) then Fine else MajorNotFound
      ensures e == Fine ==>
                && majors == old(majors) - {base} && Free(flat.ranges) == old(Free(flat.ranges)) + BlockAt(base, block)
                && flat.inuse == old(flat.inuse) && Allocated() == old(Allocated()) - BlockAt(base, block)
      ensures e != Fine ==> flat == old(flat) && majors == old(majors)
    {
      hide Free, Canonical, BaseOf, AlignedTo, BlocksAt, MajorOk, AllocatedIn, StateOk;
      if base !in majors {
        return MajorNotFound;
      }
      MajorNotFree(max, block, flat, majors, base);
      var m := ReturnRange(flat.ranges, base, base + block);
      MajorReturned(max, block, flat, majors, base, m);
      majors := majors - {base};
      flat := flat.(ranges := m);
      e := Fine;
    }

    /** `used`: summed over the flat allocator and the majors. */
    method Used() returns (n: nat)
      requires Valid()
      ensures n == |Allocated()|
    {
      hide Free, Canonical, BaseOf, AlignedTo, BlocksAt, InUse;
      n := 0;
      var todo := majors.Keys;
      assert majors.Keys - todo == {};
      NoMinors(majors);
      while todo != {}
        invariant todo <= majors.Keys && n == |MinorsInUse(majors, majors.Keys - todo)|
      {
        var b := Least(todo);
        AddMajor(max, block, flat, majors, majors.Keys - todo, b);
        assert majors.Keys - (todo - {b}) == majors.Keys - todo + {b};
        n := n + majors[b].inuse;
        todo := todo - {b};
      }
      assert majors.Keys - todo == majors.Keys;
      AllUses(max, block, flat, majors);
      n := flat.inuse + n;
    }

    /** `available`: likewise. */
    method AvailableIds() returns (n: nat)
      requires Valid()
      ensures n == |Range(flat.start, flat.end) - Allocated()|
    {
      hide Free, Canonical, BaseOf, AlignedTo, BlocksAt, InUse;
      n := 0;
      var todo := majors.Keys;
      assert majors.Keys - todo == {};
      NoMinors(majors);
      while todo != {}
        invariant todo <= majors.Keys && n == |MinorsFree(majors, majors.Keys - todo)|
      {
        var b := Least(todo);
        AddMajor(max, block, flat, majors, majors.Keys - todo, b);
        assert majors.Keys - (todo - {b}) == majors.Keys - todo + {b};
        var k := Available(majors[b].ranges);
        n := n + k;
        todo := todo - {b};
      }
      assert majors.Keys - todo == majors.Keys;
      AllUses(max, block, flat, majors);
      var k := Available(flat.ranges);
      n := k + n;
    }
  }

  /** Used and available IDs add up to the size of the range. */
  method UsedPlusAvailable(a: Allocator) returns (used: nat, available: nat, size: nat)
    requires a.Valid()
    ensures used == |a.Allocated()| && size == a.flat.end - a.flat.start && used + available == size
  {
    used := a.Used();
    available := a.AvailableIds();
    size := a.flat.end - a.flat.start;
    RangeSize(a.flat.start, a.flat.end);
    assert Range(a.flat.start, a.flat.end) == a.Allocated() + (Range(a.flat.start, a.flat.end) - a.Allocated());
  }

  /** The flat free IDs are those not allocated and in no reserved block. */
  lemma FlatFreeIs(max: nat, block: nat, flat: Flat, majors: map<nat, Flat>, id: nat)
    requires StateOk(max, block, flat, majors)
    ensures id in Free(flat.ranges) <==>
              flat.start <= id < flat.end && BaseOf(id, block) !in majors && id !in AllocatedIn(block, flat, majors)
  {
    hide AlignedTo, Canonical, Free, BaseOf, FlatOk, MajorOk, BlocksAt;
    Routed(max, block, flat, majors, id);
  }

  lemma MinorFreeIs(max: nat, block: nat, flat: Flat, majors: map<nat, Flat>, b: nat, id: nat)
    requires StateOk(max, block, flat, majors) && b in majors
    ensures id in Free(majors[b].ranges) <==> b <= id < b + block && id !in AllocatedIn(block, flat, majors)
  {
    hide AlignedTo, Canonical, Free, BaseOf, InUse;
    assert MajorOk(max, block, flat, b, majors[b]);
    assert id in Free(majors[b].ranges) ==> id in Range(b, b + block);
    BaseIs(id, block, b);
  }

  /** The reserved blocks and the allocated IDs determine the whole state. */
  lemma OneState(max: nat, block: nat, f: Flat, ms: map<nat, Flat>, f': Flat, ms': map<nat, Flat>)
    requires StateOk(max, block, f, ms) && StateOk(max, block, f', ms') && f.start == f'.start && f.end == f'.end
    requires ms.Keys == ms'.Keys && AllocatedIn(block, f, ms) == AllocatedIn(block, f', ms')
    ensures f == f' && ms == ms'
  {
    hide AlignedTo, Canonical, Free, BaseOf, AllocatedIn, BlocksAt, InUse;
    forall id: nat ensures id in Free(f.ranges) <==> id in Free(f'.ranges) {
      FlatFreeIs(max, block, f, ms, id);
      FlatFreeIs(max, block, f', ms', id);
    }
    OneFlat(max, f, f', BlocksAt(ms.Keys, block));
    forall b | b in ms ensures ms[b] == ms'[b] {
      assert MajorOk(max, block, f, b, ms[b]) && MajorOk(max, block, f', b, ms'[b]);
      forall id: nat ensures id in Free(ms[b].ranges) <==> id in Free(ms'[b].ranges) {
        MinorFreeIs(max, block, f, ms, b, id);
        MinorFreeIs(max, block, f', ms', b, id);
      }
      OneFlat(max, ms[b], ms'[b], {});
    }
  }

  lemma OneFlat(max: nat, f: Flat, g: Flat, taken: set<nat>)
    requires FlatOk(max, f, taken) && FlatOk(max, g, taken) && f.start == g.start && f.end == g.end
    requires forall id: nat :: id in Free(f.ranges) <==> id in Free(g.ranges)
    ensures f == g
  {
    hide Free, Canonical;
    assert Free(f.ranges) == Free(g.ranges);
    OneForm(f.ranges, g.ranges);
  }

  /** Allocating an ID and freeing it again restores both levels exactly. */
  method AllocThenDealloc(a: Allocator) returns (id: Option<nat>)
    requires a.Valid()
    modifies a
    ensures a.flat == old(a.flat) && a.majors == old(a.majors) && a.Valid()
  {
    hide Free, StateOk, AllocatedIn;
    StateFacts(a.max, a.block, a.flat, a.majors);
    id := a.Alloc();
    if id.Some? {
      FreeInRange(a.max, a.block, old(a.flat), old(a.majors), id.value);
      var e := a.Dealloc(id.value);
      OneState(a.max, a.block, a.flat, a.majors, old(a.flat), old(a.majors));
    }
  }

  lemma StateFacts(max: nat, block: nat, flat: Flat, majors: map<nat, Flat>)
    requires StateOk(max, block, flat, majors)
    ensures block > 0
  {
  }

  lemma FreeInRange(max: nat, block: nat, flat: Flat, majors: map<nat, Flat>, id: nat)
    requires StateOk(max, block, flat, majors) && id in Free(flat.ranges)
    ensures flat.start <= id < flat.end
  {
    Routed(max, block, flat, majors, id);
  }

  /** Reserving a major and giving it back restores both levels exactly. */
  method MajorThenBack(a: Allocator) returns (base: Option<nat>)
    requires a.Valid()
    modifies a
    ensures a.flat == old(a.flat) && a.majors == old(a.majors) && a.Valid()
  {
    hide Free, StateOk, AllocatedIn, FreeBlock, Range;
    StateFacts(a.max, a.block, a.flat, a.majors);
    base := a.AllocMajor();
    if base.Some? {
      BlockUnused(a.max, a.block, old(a.flat), old(a.majors), base.value);
      var e := a.DeallocMajor(base.value);
      assert a.majors.Keys == old(a.majors).Keys;
      OneState(a.max, a.block, a.flat, a.majors, old(a.flat), old(a.majors));
    }
  }

  lemma BlockUnused(max: nat, block: nat, flat: Flat, majors: map<nat, Flat>, base: nat)
    requires StateOk(max, block, flat, majors) && FreeBlock(flat.ranges, block, base)
    ensures AllocatedIn(block, flat, majors) !! BlockAt(base, block)
  {
    hide Free, Canonical, BaseOf, AlignedTo, StateOk;
    forall id: nat | id in BlockAt(base, block) ensures id !in AllocatedIn(block, flat, majors) {
      FlatFreeIs(max, block, flat, majors, id);
    }
  }

  /** What is free in a major is what is not allocated in its block. */
  lemma MinorIds(max: nat, block: nat, flat: Flat, majors: map<nat, Flat>, b: nat, id: nat)
    requires StateOk(max, block, flat, majors) && b in majors && id in Free(majors[b].ranges)
    ensures b <= id < b + block && id !in AllocatedIn(block, flat, majors)
    ensures forall x :: b <= x < b + block ==> (x in AllocatedIn(block, flat, majors) <==> x !in Free(majors[b].ranges))
  {
    hide AlignedTo, Canonical, BaseOf, Free, InUse;
    assert MajorOk(max, block, flat, b, majors[b]);
    assert id in Range(b, b + block);
    forall x | b <= x < b + block ensures BaseOf(x, block) == b {
      BaseIs(x, block, b);
    }
  }

  lemma CarveReady(max: nat, block: nat, flat: Flat, majors: map<nat, Flat>)
    requires StateOk(max, block, flat, majors)
    ensures block > 0 && Canonical(flat.ranges) && Free(flat.ranges) <= Range(flat.start, flat.end)
  {
  }

  lemma BlockInRange(max: nat, block: nat, flat: Flat, majors: map<nat, Flat>, base: nat)
    requires StateOk(max, block, flat, majors) && FreeBlock(flat.ranges, block, base)
    ensures flat.start <= base && base + block <= flat.end <= max && AlignedTo(base, block) && base !in majors
    ensures Canonical(flat.ranges) && Free(flat.ranges) <= Range(flat.start, flat.end)
              && BlockAt(base, block) <= Free(flat.ranges)
  {
    hide AlignedTo, Canonical, Free, BaseOf;
    assert base in Range(base, base + block) && base + block - 1 in Range(base, base + block);
    assert base in Range(flat.start, flat.end) && base + block - 1 in Range(flat.start, flat.end);
    Routed(max, block, flat, majors, base);
    BaseIs(base, block, base);
  }

  lemma MajorReserved(max: nat, block: nat, flat: Flat, majors: map<nat, Flat>, base: nat, m: Ranges)
    requires StateOk(max, block, flat, majors) && FreeBlock(flat.ranges, block, base)
    requires Canonical(m) && Free(m) == Free(flat.ranges) - BlockAt(base, block)
    ensures var slot := NewFlat(base, base + block);
            && StateOk(max, block, flat.(ranges := m), majors[base := slot])
            && AllocatedIn(block, flat.(ranges := m), majors[base := slot]) == AllocatedIn(block, flat, majors)
  {
    hide AlignedTo, Canonical, Free, BaseOf, FreeBlock, BlocksAt, InUse, NewFlat;
    BlockInRange(max, block, flat, majors, base);
    var slot, flat', majors' := NewFlat(base, base + block), flat.(ranges := m),
        majors[base := NewFlat(base, base + block)];
    NewFlatOk(max, base, base + block);
    NewFlatBounds(base, base + block);
    assert majors'.Keys == majors.Keys + {base};
    BlocksChange(majors.Keys, block, base);
    FlatLoses(max, flat, flat', BlocksAt(majors.Keys, block), BlockAt(base, block));
    forall b | b in majors' ensures MajorOk(max, block, flat', b, majors'[b]) {
      assert b != base ==> MajorOk(max, block, flat, b, majors[b]);
    }
    SameTaken(block, flat, majors, flat', majors', base);
  }

  lemma NewFlatBounds(start: nat, end: nat)
    ensures NewFlat(start, end).start == start && NewFlat(start, end).end == end
  {
  }

  /** Giving away free IDs as a block changes nothing in use. */
  lemma FlatLoses(max: nat, f: Flat, f': Flat, taken: set<nat>, block: set<nat>)
    requires FlatOk(max, f, taken) && f' == f.(ranges := f'.ranges) && Canonical(f'.ranges)
    requires Free(f'.ranges) == Free(f.ranges) - block && block <= Free(f.ranges)
    ensures FlatOk(max, f', taken + block)
  {
    hide Canonical, Free, Range;
    assert InUse(f', taken + block) == InUse(f, taken);
  }

  /** Getting a block back as free IDs changes nothing in use. */
  lemma FlatGains(max: nat, f: Flat, f': Flat, taken: set<nat>, block: set<nat>)
    requires FlatOk(max, f, taken + block) && taken !! block && f' == f.(ranges := f'.ranges) && Canonical(f'.ranges)
    requires Free(f'.ranges) == Free(f.ranges) + block
    ensures FlatOk(max, f', taken)
  {
    hide Canonical, Free, Range;
    assert InUse(f', taken) == InUse(f, taken + block);
  }

  /** An ID's state is the same whether a free block is reserved or not. */
  lemma SameTaken(block: nat, flat: Flat, majors: map<nat, Flat>, flat': Flat, majors': map<nat, Flat>, base: nat)
    requires block > 0 && AlignedTo(base, block) && base !in majors && base in majors'
              && majors' == majors[base := majors'[base]]
    requires flat'.start == flat.start && flat'.end == flat.end
              && Free(flat'.ranges) == Free(flat.ranges) - BlockAt(base, block)
    requires BlockAt(base, block) <= Free(flat.ranges) && Free(majors'[base].ranges) == BlockAt(base, block)
    ensures AllocatedIn(block, flat', majors') == AllocatedIn(block, flat, majors)
  {
    hide AlignedTo, Free, BaseOf, BlockAt;
    forall id: nat ensures Taken(block, flat', majors', id) <==> Taken(block, flat, majors, id) {
      BaseOnce(id, block, base);
    }
  }

  lemma BaseOnce(id: nat, block: nat, base: nat)
    requires block > 0 && AlignedTo(base, block)
    ensures BaseOf(id, block) == base <==> id in BlockAt(base, block)
  {
    hide AlignedTo, BaseOf;
    BaseIs(id, block, base);
  }

  lemma MajorNotFree(max: nat, block: nat, flat: Flat, majors: map<nat, Flat>, base: nat)
    requires StateOk(max, block, flat, majors) && base in majors
    ensures Canonical(flat.ranges) && Range(base, base + block) !! Free(flat.ranges) && AlignedTo(base, block)
  {
    InBlock(majors.Keys, block, base);
  }

  lemma MajorReturned(max: nat, block: nat, flat: Flat, majors: map<nat, Flat>, base: nat, m: Ranges)
    requires StateOk(max, block, flat, majors) && base in majors
    requires Canonical(m) && Free(m) == Free(flat.ranges) + BlockAt(base, block)
    ensures StateOk(max, block, flat.(ranges := m), majors - {base})
    ensures AllocatedIn(block, flat.(ranges := m), majors - {base}) == AllocatedIn(block, flat, majors) - BlockAt(base,
              block)
  {
    hide AlignedTo, Canonical, Free, BaseOf, BlocksAt, InUse, BlockAt;
    var flat', majors' := flat.(ranges := m), majors - {base};
    MajorNotFree(max, block, flat, majors, base);
    assert majors.Keys == majors'.Keys + {base};
    assert AlignedTo(base, block) && forall c :: c in majors'.Keys ==> AlignedTo(c, block) by { hide FlatOk; }
    BlocksChange(majors'.Keys, block, base);
    FlatGains(max, flat, flat', BlocksAt(majors'.Keys, block), BlockAt(base, block));
    forall b | b in majors' ensures MajorOk(max, block, flat', b, majors'[b]) {
      assert MajorOk(max, block, flat, b, majors[b]);
    }
    LoseBlock(block, flat, majors, flat', base);
  }

  lemma LoseBlock(block: nat, flat: Flat, majors: map<nat, Flat>, flat': Flat, base: nat)
    requires block > 0 && AlignedTo(base, block) && base in majors && flat'.start == flat.start && flat'.end == flat.end
    requires Free(flat'.ranges) == Free(flat.ranges) + BlockAt(base, block)
    ensures AllocatedIn(block, flat', majors - {base}) == AllocatedIn(block, flat, majors) - BlockAt(base, block)
  {
    hide AlignedTo, Free, BaseOf, BlockAt;
    forall id: nat ensures Taken(block, flat', majors - {base}, id) <==>
        Taken(block, flat, majors, id) && id !in BlockAt(base, block) {
      BaseOnce(id, block, base);
    }
  }

  // ----- counting -----

  /** The IDs in use in some of the majors. */
  ghost function MinorsInUse(majors: map<nat, Flat>, keys: set<nat>): set<nat> {
    set b, id | b in keys && b in majors && id in InUse(majors[b], {}) :: id
  }

  ghost function MinorsFree(majors: map<nat, Flat>, keys: set<nat>): set<nat> {
    set b, id | b in keys && b in majors && id in Free(majors[b].ranges) :: id
  }

  lemma NoMinors(majors: map<nat, Flat>)
    ensures MinorsInUse(majors, {}) == {} && MinorsFree(majors, {}) == {}
  {
  }

  /** One more major in the sums. */
  lemma AddMajor(max: nat, block: nat, flat: Flat, majors: map<nat, Flat>, done: set<nat>, b: nat)
    requires StateOk(max, block, flat, majors) && done <= majors.Keys && b in majors && b !in done
    ensures |MinorsInUse(majors, done + {b})| == |MinorsInUse(majors, done)| + majors[b].inuse
    ensures |MinorsFree(majors, done + {b})| == |MinorsFree(majors, done)| + |Free(majors[b].ranges)|
              && Canonical(majors[b].ranges)
  {
    hide AlignedTo, Canonical, Free, BaseOf, InUse, FlatOk, MajorOk, BlocksAt, BlockAt;
    MajorInside(max, block, flat, b, majors[b]);
    forall c | c in done ensures InUse(majors[c], {}) !! InUse(majors[b], {})
        && Free(majors[c].ranges) !! Free(majors[b].ranges) {
      SlotsApart(max, block, flat, majors, b, c);
    }
    assert MinorsInUse(majors, done + {b}) == MinorsInUse(majors, done) + InUse(majors[b], {});
    assert MinorsFree(majors, done + {b}) == MinorsFree(majors, done) + Free(majors[b].ranges);
  }

  lemma SlotsApart(max: nat, block: nat, flat: Flat, majors: map<nat, Flat>, b: nat, c: nat)
    requires StateOk(max, block, flat, majors) && b in majors && c in majors && b != c
    ensures InUse(majors[c], {}) !! InUse(majors[b], {}) && Free(majors[c].ranges) !! Free(majors[b].ranges)
  {
    hide AlignedTo, Canonical, Free, BaseOf, BlocksAt, BlockAt, InUse, StateOk;
    SlotInside(max, block, flat, majors, b);
    SlotInside(max, block, flat, majors, c);
    BlocksApart(block, b, c);
  }

  lemma SlotInside(max: nat, block: nat, flat: Flat, majors: map<nat, Flat>, b: nat)
    requires StateOk(max, block, flat, majors) && b in majors
    ensures block > 0 && AlignedTo(b, block) && InUse(majors[b], {}) <= BlockAt(b, block)
              && Free(majors[b].ranges) <= BlockAt(b, block)
  {
    hide AlignedTo, FlatOk, MajorOk, BlocksAt, InUse, Free, BlockAt;
    MajorInside(max, block, flat, b, majors[b]);
  }

  lemma MajorInside(max: nat, block: nat, flat: Flat, b: nat, slot: Flat)
    requires block > 0 && MajorOk(max, block, flat, b, slot)
    ensures AlignedTo(b, block) && InUse(slot, {}) <= BlockAt(b, block) && Free(slot.ranges) <= BlockAt(b, block)
    ensures slot.inuse == |InUse(slot, {})| && Canonical(slot.ranges)
  {
    hide AlignedTo, Canonical, Free, BaseOf;
  }

  /** Allocated IDs: those in use in the flat allocator and those in use in majors; free ones likewise. */
  lemma AllUses(max: nat, block: nat, flat: Flat, majors: map<nat, Flat>)
    requires StateOk(max, block, flat, majors)
    ensures |AllocatedIn(block, flat, majors)| == flat.inuse + |MinorsInUse(majors, majors.Keys)|
    ensures |Range(flat.start, flat.end) - AllocatedIn(block, flat, majors)| == |Free(flat.ranges)|
              + |MinorsFree(majors, majors.Keys)|
    ensures Canonical(flat.ranges)
  {
    hide AlignedTo, Canonical, Free, BaseOf, BlocksAt, MinorsInUse, MinorsFree, AllocatedIn, InUse;
    var taken := BlocksAt(majors.Keys, block);
    var all, range := AllocatedIn(block, flat, majors), Range(flat.start, flat.end);
    var used, free := MinorsInUse(majors, majors.Keys), MinorsFree(majors, majors.Keys);
    forall id: nat
      ensures id in all <==> id in InUse(flat, taken) || id in used
      ensures id in range && id !in all <==> id in Free(flat.ranges) || id in free
      ensures !(id in InUse(flat, taken) && id in used) && !(id in Free(flat.ranges) && id in free)
    {
      OneUse(max, block, flat, majors, id);
    }
    assert all == InUse(flat, taken) + used && InUse(flat, taken) !! used;
    assert range - all == Free(flat.ranges) + free && Free(flat.ranges) !! free;
  }

  /** Where one ID counts. */
  lemma OneUse(max: nat, block: nat, flat: Flat, majors: map<nat, Flat>, id: nat)
    requires StateOk(max, block, flat, majors)
    ensures id in AllocatedIn(block, flat, majors) <==>
              id in InUse(flat, BlocksAt(majors.Keys, block)) || id in MinorsInUse(majors, majors.Keys)
    ensures id in Range(flat.start, flat.end) && id !in AllocatedIn(block, flat, majors) <==>
              id in Free(flat.ranges) || id in MinorsFree(majors, majors.Keys)
    ensures !(id in InUse(flat, BlocksAt(majors.Keys, block)) && id in MinorsInUse(majors, majors.Keys))
    ensures !(id in Free(flat.ranges) && id in MinorsFree(majors, majors.Keys))
  {
    hide AlignedTo, Canonical, Free, BaseOf, BlocksAt, MajorOk;
    Routed(max, block, flat, majors, id);
    FlatFreeIs(max, block, flat, majors, id);
    MinorUse(max, block, flat, majors, id);
    if BaseOf(id, block) in majors {
      InsideRange(max, block, flat, majors, BaseOf(id, block), id);
    }
  }

  lemma InsideRange(max: nat, block: nat, flat: Flat, majors: map<nat, Flat>, b: nat, id: nat)
    requires StateOk(max, block, flat, majors) && b in majors && majors[b].start <= id < majors[b].end
    ensures flat.start <= id < flat.end
  {
    assert MajorOk(max, block, flat, b, majors[b]);
  }

  lemma MinorUse(max: nat, block: nat, flat: Flat, majors: map<nat, Flat>, id: nat)
    requires StateOk(max, block, flat, majors)
    ensures id in MinorsInUse(majors, majors.Keys) <==>
              BaseOf(id, block) in majors && id in AllocatedIn(block, flat, majors)
    ensures id in MinorsFree(majors, majors.Keys) <==>
              BaseOf(id, block) in majors && id !in AllocatedIn(block, flat, majors)
  {
    hide AlignedTo, Canonical, Free, BaseOf, BlocksAt, MajorOk, AllocatedIn, InUse;
    Routed(max, block, flat, majors, id);
    forall b | b in majors ensures b == BaseOf(id, block)
        || (id !in InUse(majors[b], {}) && id !in Free(majors[b].ranges)) {
      OwnBlock(max, block, flat, majors, b, id);
    }
    if BaseOf(id, block) in majors {
      MinorFreeIs(max, block, flat, majors, BaseOf(id, block), id);
      OwnBlock(max, block, flat, majors, BaseOf(id, block), id);
    }
  }

  lemma OwnBlock(max: nat, block: nat, flat: Flat, majors: map<nat, Flat>, b: nat, id: nat)
    requires StateOk(max, block, flat, majors) && b in majors
    ensures b == BaseOf(id, block) || (id !in InUse(majors[b], {}) && id !in Free(majors[b].ranges))
    ensures b == BaseOf(id, block) ==>
              b <= id < b + block && (id in InUse(majors[b], {}) <==> id !in Free(majors[b].ranges))
  {
    hide AlignedTo, Canonical, Free, BaseOf, BlocksAt;
    assert MajorOk(max, block, flat, b, majors[b]);
    BaseIs(id, block, b);
  }
}