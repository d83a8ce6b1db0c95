/** Address ranges: the search for a free region, and what unmapping does to a set of ranges. */
module Ranges {
  import opened Memory
  import opened Frames

  /** The half-open range [lo, hi). */
  datatype Rng = Rng(lo: nat, hi: nat)

  const USER_STACK_TOP: nat := 0x1_0000_0000
  const USER_STACK_LOWER_BOUND: nat := USER_STACK_TOP - 8 * PAGE_SIZE

  predicate Meets(r: Rng, start: nat, end: nat) { r.lo < end && start < r.hi }
  predicate Separate(r: Rng, s: Rng) { r.hi <= s.lo || s.hi <= r.lo }
  predicate Disjoint(rs: seq<Rng>) { forall i, j :: 0 <= i < j < |rs| ==> Separate(rs[i], rs[j]) }
  predicate NonEmpty(rs: seq<Rng>) { forall i :: 0 <= i < |rs| ==> rs[i].lo < rs[i].hi }
  predicate FreeOf(rs: seq<Rng>, start: nat, end: nat) { forall i :: 0 <= i < |rs| ==> !Meets(rs[i], start, end) }

  // ----- find_free_region -----

  predicate SortedByStart(rs: seq<Rng>) { forall i, j :: 0 <= i < j < |rs| ==> rs[i].lo <= rs[j].lo }

  function Insert(r: Rng, rs: seq<Rng>): seq<Rng> {
    if rs == [] || r.lo <= rs[0].lo then [r] + rs else [rs[0]] + Insert(r, rs[1..])
  }

  lemma {:induction false} InsertSorts(r: Rng, rs: seq<Rng>)
    requires SortedByStart(rs)
    ensures SortedByStart(Insert(r, rs)) && multiset(Insert(r, rs)) == multiset(rs) + multiset{r}
    decreases rs
  {
    if rs == [] || r.lo <= rs[0].lo {
      SortedCons(r, rs);
    } else {
      assert rs == [rs[0]] + rs[1..];
      InsertSorts(r, rs[1..]);
      forall x | x in Insert(r, rs[1..]) ensures rs[0].lo <= x.lo {
        assert x in multiset(rs[1..]) + multiset{r};
      }
      SortedCons(rs[0], Insert(r, rs[1..]));
    }
  }

  lemma SortedCons(r: Rng, t: seq<Rng>)
    requires SortedByStart(t) && forall x :: x in t ==> r.lo <= x.lo
    ensures SortedByStart([r] + t)
  {
    forall i | 0 <= i < |t| ensures r.lo <= t[i].lo {
      assert t[i] in t;
    }
  }

  function SortByStart(rs: seq<Rng>): (t: seq<Rng>)
    ensures SortedByStart(t) && multiset(t) == multiset(rs)
    ensures forall x :: x in t <==> x in rs
  {
    if rs == [] then []
    else
      assert rs == [rs[0]] + rs[1..];
      var rest := SortByStart(rs[1..]);
      InsertSorts(rs[0], rest);
      assert forall x :: x in Insert(rs[0], rest) <==> x in multiset(Insert(rs[0], rest));
      Insert(rs[0], rest)
  }

  function BelowStack(rs: seq<Rng>): (t: seq<Rng>)
    ensures forall x :: x in t <==> x in rs && x.hi <= USER_STACK_LOWER_BOUND
    ensures multiset(t) <= multiset(rs)
  {
    if rs == [] then []
    else
      assert rs == [rs[0]] + rs[1..];
      if rs[0].hi <= USER_STACK_LOWER_BOUND then [rs[0]] + BelowStack(rs[1..]) else BelowStack(rs[1..])
  }

  /** No range reaches across the lower end of the stack (the stack mapping itself starts there). */
  predicate NoneStraddles(rs: seq<Rng>) {
    forall i :: 0 <= i < |rs| ==> rs[i].hi <= USER_STACK_LOWER_BOUND || USER_STACK_LOWER_BOUND <= rs[i].lo
  }

  predicate Fits(rs: seq<Rng>, at: nat, length: nat) {
    at + length <= USER_STACK_LOWER_BOUND && FreeOf(rs, at, at + length)
  }

  /** Two different occurrences of ranges in a disjoint sequence are separate. */
  lemma {:induction false} OccurrencesSeparate(rs: seq<Rng>, r: Rng, s: Rng)
    requires Disjoint(rs) && NonEmpty(rs) && multiset{r, s} <= multiset(rs)
    ensures Separate(r, s)
    decreases rs
  {
    assert rs == [rs[0]] + rs[1..];
    if r == rs[0] {
      assert s in rs[1..] by { assert multiset(rs)[s] >= 1 && (r == s ==> multiset(rs)[s] >= 2); }
    } else if s == rs[0] {
      assert r in rs[1..];
    } else {
      OccurrencesSeparate(rs[1..], r, s);
    }
  }

  lemma {:induction false} IndexPair(t: seq<Rng>, i: nat, j: nat)
    requires i < j < |t|
    ensures multiset{t[i], t[j]} <= multiset(t)
  {
    assert t == t[..i] + [t[i]] + t[i + 1..j] + [t[j]] + t[j + 1..];
  }

  lemma SortedStaysDisjoint(rs: seq<Rng>)
    requires Disjoint(rs) && NonEmpty(rs)
    ensures var t := SortByStart(BelowStack(rs)); Disjoint(t) && NonEmpty(t)
  {
    var t := SortByStart(BelowStack(rs));
    forall i, j | 0 <= i < j < |t| ensures Separate(t[i], t[j]) {
      IndexPair(t, i, j);
      OccurrencesSeparate(rs, t[i], t[j]);
    }
    forall i | 0 <= i < |t| ensures t[i].lo < t[i].hi {
      assert t[i] in rs;
    }
  }

  /** Every region that ends above `top` is blocked. */
  ghost predicate Blocked(rs: seq<Rng>, top: nat, length: nat) {
    forall at: nat :: top < at + length ==> !Fits(rs, at, length)
  }

  /** The highest region that fits; None only if nothing fits. */
  ghost predicate HighestFit(rs: seq<Rng>, length: nat, r: Option<nat>) {
    match r
    case None => forall at: nat :: !Fits(rs, at, length)
    case Some(at) => Fits(rs, at, length) && forall b: nat :: at < b ==> !Fits(rs, b, length)
  }

  /**
   The highest region of `length` bytes below the stack that touches none of the ranges that end
   below the stack; None only if there is none.
   */
  method FindFreeRegion(rs: seq<Rng>, length: nat) returns (r: Option<nat>)
    requires Disjoint(rs) && NonEmpty(rs) && length > 0
    ensures HighestFit(BelowStack(rs), length, r)
  {
    hide Blocked, HighestFit, BelowStack, SortByStart, SortedByStart, Disjoint, NonEmpty;
    ghost var below := BelowStack(rs);
    var ranges := SortByStart(BelowStack(rs));
    SortedStaysDisjoint(rs);
    assert Blocked(below, USER_STACK_LOWER_BOUND, length) by { NothingAboveStack(below, length); }
    var top: nat := USER_STACK_LOWER_BOUND;
    var k: nat := |ranges|;
    while k > 0
      invariant k <= |ranges| && SortedByStart(ranges) && Disjoint(ranges) && NonEmpty(ranges)
      invariant top <= USER_STACK_LOWER_BOUND && Blocked(below, top, length)
      invariant forall i :: 0 <= i < k ==> ranges[i].hi <= top
      invariant forall i :: k <= i < |ranges| ==> top <= ranges[i].lo
    {
      k := k - 1;
      var s, e := ranges[k].lo, ranges[k].hi;
      assert ranges[k] in ranges;
      SortedBelow(ranges, k);
      if top > e && top - e >= length {
        RegionIsFree(below, ranges, top, length);
        return Some(top - length);
      }
      GapTooSmall(below, ranges[k], top, length);
      top := s;
    }
    if top >= length {
      RegionIsFree(below, ranges, top, length);
      return Some(top - length);
    }
    NothingFits(below, top, length);
    return None;
  }

  lemma SortedBelow(ranges: seq<Rng>, k: nat)
    requires SortedByStart(ranges) && Disjoint(ranges) && NonEmpty(ranges) && k < |ranges|
    ensures forall i :: 0 <= i < k ==> ranges[i].hi <= ranges[k].lo
    ensures forall i :: k <= i < |ranges| ==> ranges[k].lo <= ranges[i].lo
    ensures ranges[k].lo < ranges[k].hi
  {
  }

  lemma NothingAboveStack(rs: seq<Rng>, length: nat)
    ensures Blocked(rs, USER_STACK_LOWER_BOUND, length)
  {
  }

  lemma NothingFits(rs: seq<Rng>, top: nat, length: nat)
    requires Blocked(rs, top, length) && top < length
    ensures HighestFit(rs, length, None)
  {
  }

  /** If the gap between a range and `top` is too small, the range blocks whatever ends in it. */
  lemma GapTooSmall(rs: seq<Rng>, r: Rng, top: nat, length: nat)
    requires r in rs && r.hi <= top < r.hi + length && Blocked(rs, top, length)
    ensures Blocked(rs, r.lo, length)
  {
    forall at: nat | r.lo < at + length ensures !Fits(rs, at, length) {
      if at + length <= top {
        var i :| 0 <= i < |rs| && rs[i] == r;
        assert Meets(rs[i], at, at + length);
      }
    }
  }

  lemma RegionIsFree(below: seq<Rng>, ranges: seq<Rng>, top: nat, length: nat)
    requires (forall x :: x in ranges <==> x in below) && length <= top <= USER_STACK_LOWER_BOUND
    requires forall i :: 0 <= i < |ranges| ==> ranges[i].hi <= top - length || top <= ranges[i].lo
    requires Blocked(below, top, length)
    ensures HighestFit(below, length, Some(top - length))
  {
    var at := top - length;
    forall i | 0 <= i < |below| ensures !Meets(below[i], at, at + length) {
      assert below[i] in ranges;
    }
  }

  /** The condition under which the search sees every range that matters. */
  predicate StackInPlace(rs: seq<Rng>, length: nat) {
    || NoneStraddles(rs)
    || (length <= USER_STACK_LOWER_BOUND && !Fits(BelowStack(rs), USER_STACK_LOWER_BOUND - length, length))
  }

  /**
   The search ignores a range that reaches across the lower end of the stack.  The region it
   finds is free of all ranges exactly if there is no such range, or if the gap just below the
   stack is too small anyway.
   */
  lemma FreeRegionIff(rs: seq<Rng>, length: nat, at: nat)
    requires Disjoint(rs) && NonEmpty(rs) && length > 0 && HighestFit(BelowStack(rs), length, Some(at))
    ensures FreeOf(rs, at, at + length) <==> StackInPlace(rs, length)
  {
    LowRangesClear(rs, length, at);
    var below, bound := BelowStack(rs), USER_STACK_LOWER_BOUND;
    if Fits(below, bound - length, length) {
      assert at == bound - length;
    } else {
      forall i | 0 <= i < |rs| && rs[i].lo < bound < rs[i].hi ensures !Meets(rs[i], at, at + length) {
        StraddlerAbove(rs, length, at, i);
      }
    }
    hide HighestFit, BelowStack;
  }

  lemma LowRangesClear(rs: seq<Rng>, length: nat, at: nat)
    requires HighestFit(BelowStack(rs), length, Some(at))
    ensures forall i :: 0 <= i < |rs| && rs[i].hi <= USER_STACK_LOWER_BOUND ==> !Meets(rs[i], at, at + length)
  {
    var below := BelowStack(rs);
    forall i | 0 <= i < |rs| && rs[i].hi <= USER_STACK_LOWER_BOUND ensures !Meets(rs[i], at, at + length) {
      assert rs[i] in below;
      var k :| 0 <= k < |below| && below[k] == rs[i];
    }
  }

  /** A highest fit ends at the stack or where a range begins. */
  lemma FitEndsAtRange(rs: seq<Rng>, length: nat, at: nat) returns (i: nat)
    requires HighestFit(BelowStack(rs), length, Some(at)) && at + length < USER_STACK_LOWER_BOUND
    ensures i < |rs| && rs[i].lo == at + length
  {
    var below := BelowStack(rs);
    assert !Fits(below, at + 1, length);
    var k :| 0 <= k < |below| && Meets(below[k], at + 1, at + 1 + length);
    assert !Meets(below[k], at, at + length) && below[k] in rs;
    i :| 0 <= i < |rs| && rs[i] == below[k];
  }

  /** A gap lower down ends at some range, and the straddling range lies above that. */
  lemma StraddlerAbove(rs: seq<Rng>, length: nat, at: nat, i: nat)
    requires Disjoint(rs) && NonEmpty(rs) && HighestFit(BelowStack(rs), length, Some(at)) && i < |rs|
    requires rs[i].lo < USER_STACK_LOWER_BOUND < rs[i].hi && at + length < USER_STACK_LOWER_BOUND
    ensures at + length <= rs[i].lo
  {
    var j := FitEndsAtRange(rs, length, at);
    hide HighestFit, BelowStack;
    assert i < j ==> Separate(rs[i], rs[j]);
    assert j < i ==> Separate(rs[j], rs[i]);
  }

  // ----- what unmapping [start, end) leaves -----

  /** The parts of one range outside [start, end), when it meets that window. */
  function KeepsOf(r: Rng, start: nat, end: nat): seq<Rng> {
    if !Meets(r, start, end) then []
    else (if r.lo < start then [Rng(r.lo, start)] else []) + (if end < r.hi then [Rng(end, r.hi)] else [])
  }

  function Keeps(rs: seq<Rng>, start: nat, end: nat): seq<Rng> {
    if rs == [] then [] else KeepsOf(rs[0], start, end) + Keeps(rs[1..], start, end)
  }

  function Survivors(rs: seq<Rng>, start: nat, end: nat): seq<Rng> {
    if rs == [] then []
    else (if Meets(rs[0], start, end) then [] else [rs[0]]) + Survivors(rs[1..], start, end)
  }

  /** The range recorded for a part once frames have been allocated for it. */
  function Rounded(r: Rng): Rng
    requires r.lo <= r.hi
  {
    Rng(r.lo, r.lo + Delivered(r.hi - r.lo))
  }

  function RoundedAll(rs: seq<Rng>): seq<Rng>
    requires NonEmpty(rs)
  {
    seq(|rs|, i requires 0 <= i < |rs| => Rounded(rs[i]))
  }

  predicate AllExact(rs: seq<Rng>) { forall i :: 0 <= i < |rs| ==> rs[i].lo <= rs[i].hi && Exact(rs[i].hi - rs[i].lo) }

  /** The ranges after unmapping: untouched ones, then the kept parts. */
  function AfterUnmap(rs: seq<Rng>, start: nat, end: nat): seq<Rng> {
    Survivors(rs, start, end) + Keeps(rs, start, end)
  }

  ghost predicate Covers(rs: seq<Rng>, a: int) { exists i :: 0 <= i < |rs| && rs[i].lo <= a < rs[i].hi }

  /** Where a kept part comes from. */
  lemma {:induction false} KeepOrigin(rs: seq<Rng>, start: nat, end: nat, k: nat) returns (i: nat)
    requires k < |Keeps(rs, start, end)| && start < end
    ensures i < |rs| && Meets(rs[i], start, end)
    ensures var p := Keeps(rs, start, end)[k];
            || (p == Rng(rs[i].lo, start) && rs[i].lo < start)
            || (p == Rng(end, rs[i].hi) && end < rs[i].hi)
    decreases rs
  {
    var first := KeepsOf(rs[0], start, end);
    if k < |first| {
      i := 0;
    } else {
      i := KeepOrigin(rs[1..], start, end, k - |first|);
      i := i + 1;
    }
  }

  lemma {:induction false} SurvivorOrigin(rs: seq<Rng>, start: nat, end: nat, k: nat) returns (i: nat)
    requires k < |Survivors(rs, start, end)|
    ensures i < |rs| && !Meets(rs[i], start, end) && rs[i] == Survivors(rs, start, end)[k]
    decreases rs
  {
    var first := if Meets(rs[0], start, end) then [] else [rs[0]];
    if k < |first| {
      i := 0;
    } else {
      i := SurvivorOrigin(rs[1..], start, end, k - |first|);
      i := i + 1;
    }
  }

  lemma {:induction false} IsSurvivor(rs: seq<Rng>, start: nat, end: nat, i: nat) returns (k: nat)
    requires i < |rs| && !Meets(rs[i], start, end)
    ensures k < |Survivors(rs, start, end)| && Survivors(rs, start, end)[k] == rs[i]
    decreases rs
  {
    if i == 0 {
      k := 0;
    } else {
      k := IsSurvivor(rs[1..], start, end, i - 1);
      k := k + if Meets(rs[0], start, end) then 0 else 1;
    }
  }

  lemma {:induction false} IsKept(rs: seq<Rng>, start: nat, end: nat, i: nat, p: Rng) returns (k: nat)
    requires i < |rs| && p in KeepsOf(rs[i], start, end)
    ensures k < |Keeps(rs, start, end)| && Keeps(rs, start, end)[k] == p
    decreases rs
  {
    if i == 0 {
      k :| 0 <= k < |KeepsOf(rs[0], start, end)| && KeepsOf(rs[0], start, end)[k] == p;
    } else {
      k := IsKept(rs[1..], start, end, i - 1, p);
      k := k + |KeepsOf(rs[0], start, end)|;
    }
  }

  lemma KeepsNonEmpty(rs: seq<Rng>, start: nat, end: nat)
    requires start < end
    ensures NonEmpty(Keeps(rs, start, end))
  {
    forall k | 0 <= k < |Keeps(rs, start, end)| ensures Keeps(rs, start, end)[k].lo < Keeps(rs, start, end)[k].hi {
      var i := KeepOrigin(rs, start, end, k);
    }
  }

  lemma RoundedExact(rs: seq<Rng>)
    requires NonEmpty(rs)
    ensures AllExact(rs) <==> RoundedAll(rs) == rs
  {
    forall i | 0 <= i < |rs| ensures Exact(rs[i].hi - rs[i].lo) <==> Rounded(rs[i]) == rs[i] {
      SegmentsTotal(rs[i].hi - rs[i].lo);
    }
    if RoundedAll(rs) == rs {
      forall i | 0 <= i < |rs| ensures Rounded(rs[i]) == rs[i] {
        assert RoundedAll(rs)[i] == rs[i];
      }
    }
  }

  lemma DisjointConcat(a: seq<Rng>, b: seq<Rng>)
    requires Disjoint(a) && Disjoint(b)
    requires forall i, j :: 0 <= i < |a| && 0 <= j < |b| ==> Separate(a[i], b[j])
    ensures Disjoint(a + b)
  {
  }

  lemma {:induction false} KeepsDisjoint(rs: seq<Rng>, start: nat, end: nat)
    requires Disjoint(rs) && start < end
    ensures Disjoint(Keeps(rs, start, end))
    decreases rs
  {
    if rs != [] {
      KeepsDisjoint(rs[1..], start, end);
      var a, b := KeepsOf(rs[0], start, end), Keeps(rs[1..], start, end);
      forall i, j | 0 <= i < |a| && 0 <= j < |b| ensures Separate(a[i], b[j]) {
        var o := KeepOrigin(rs[1..], start, end, j);
        assert Separate(rs[0], rs[o + 1]);
      }
      DisjointConcat(a, b);
    }
  }

  lemma {:induction false} SurvivorsDisjoint(rs: seq<Rng>, start: nat, end: nat)
    requires Disjoint(rs)
    ensures Disjoint(Survivors(rs, start, end))
    decreases rs
  {
    if rs != [] {
      SurvivorsDisjoint(rs[1..], start, end);
      var a, b := if Meets(rs[0], start, end) then [] else [rs[0]], Survivors(rs[1..], start, end);
      forall i, j | 0 <= i < |a| && 0 <= j < |b| ensures Separate(a[i], b[j]) {
        var o := SurvivorOrigin(rs[1..], start, end, j);
        assert Separate(rs[0], rs[o + 1]);
      }
      DisjointConcat(a, b);
    }
  }

  /** Unmapping keeps the ranges disjoint and removes exactly [start, end). */
  lemma AfterUnmapRanges(rs: seq<Rng>, start: nat, end: nat)
    requires Disjoint(rs) && NonEmpty(rs) && start < end
    ensures Disjoint(AfterUnmap(rs, start, end)) && NonEmpty(AfterUnmap(rs, start, end))
    ensures forall a :: Covers(AfterUnmap(rs, start, end), a) <==> Covers(rs, a) && !(start <= a < end)
  {
    var a, b := Survivors(rs, start, end), Keeps(rs, start, end);
    SurvivorsDisjoint(rs, start, end);
    KeepsDisjoint(rs, start, end);
    KeepsNonEmpty(rs, start, end);
    forall i, j | 0 <= i < |a| && 0 <= j < |b| ensures Separate(a[i], b[j]) {
      var o := SurvivorOrigin(rs, start, end, i);
      var p := KeepOrigin(rs, start, end, j);
      assert o != p;
      assert o < p ==> Separate(rs[o], rs[p]);
      assert p < o ==> Separate(rs[p], rs[o]);
    }
    DisjointConcat(a, b);
    forall i | 0 <= i < |a| ensures a[i].lo < a[i].hi {
      var o := SurvivorOrigin(rs, start, end, i);
    }
    forall x ensures Covers(a + b, x) <==> Covers(rs, x) && !(start <= x < end) {
      UnmapCoverage(rs, start, end, x);
    }
  }

  lemma UnmapCoverage(rs: seq<Rng>, start: nat, end: nat, x: int)
    requires start < end
    ensures Covers(AfterUnmap(rs, start, end), x) <==> Covers(rs, x) && !(start <= x < end)
  {
    var a, b := Survivors(rs, start, end), Keeps(rs, start, end);
    var after: seq<Rng> := a + b;
    if Covers(a + b, x) {
      var k :| 0 <= k < |after| && after[k].lo <= x < after[k].hi;
      if k < |a| {
        var o := SurvivorOrigin(rs, start, end, k);
        assert rs[o].lo <= x < rs[o].hi;
      } else {
        var o := KeepOrigin(rs, start, end, k - |a|);
        assert rs[o].lo <= x < rs[o].hi;
      }
    }
    if Covers(rs, x) && !(start <= x < end) {
      var i :| 0 <= i < |rs| && rs[i].lo <= x < rs[i].hi;
      if !Meets(rs[i], start, end) {
        var k := IsSurvivor(rs, start, end, i);
        assert after[k].lo <= x < after[k].hi;
      } else {
        var p := if x < start then Rng(rs[i].lo, start) else Rng(end, rs[i].hi);
        var k := IsKept(rs, start, end, i, p);
        assert after[|a| + k] == p;
      }
    }
  }

  /** The ranges as recorded once `alloc_frames` has rounded the kept parts. */
  function Recorded(rs: seq<Rng>, start: nat, end: nat): seq<Rng>
    requires NonEmpty(Keeps(rs, start, end))
  {
    Survivors(rs, start, end) + RoundedAll(Keeps(rs, start, end))
  }

  ghost predicate LosesExactly(rs: seq<Rng>, after: seq<Rng>, start: nat, end: nat) {
    Disjoint(after) && forall a :: Covers(after, a) <==> Covers(rs, a) && !(start <= a < end)
  }

  lemma RecordedPart(rs: seq<Rng>, start: nat, end: nat, k: nat)
    requires NonEmpty(Keeps(rs, start, end)) && k < |Keeps(rs, start, end)|
    ensures var part, n := Keeps(rs, start, end)[k], |Survivors(rs, start, end)| + k;
            && n < |Recorded(rs, start, end)| && Recorded(rs, start, end)[n] == Rounded(part)
            && (!Exact(part.hi - part.lo) ==> part.lo <= part.hi < Rounded(part).hi)
  {
    var part := Keeps(rs, start, end)[k];
    SegmentsTotal(part.hi - part.lo);
  }

  /** A kept part that is rounded up runs into the unmapped window or into another range. */
  lemma InexactSpoils(rs: seq<Rng>, start: nat, end: nat, k: nat)
    requires Disjoint(rs) && start < end && NonEmpty(Keeps(rs, start, end))
    requires k < |Keeps(rs, start, end)| && !Exact(Keeps(rs, start, end)[k].hi - Keeps(rs, start, end)[k].lo)
    ensures !LosesExactly(rs, Recorded(rs, start, end), start, end)
  {
    var n, x := |Survivors(rs, start, end)| + k, Keeps(rs, start, end)[k].hi;
    var recorded := Recorded(rs, start, end);
    RecordedPart(rs, start, end, k);
    assert Covers(recorded, x) by { assert recorded[n].lo <= x < recorded[n].hi; }
    var o := KeepOrigin(rs, start, end, k);
    if Covers(rs, x) && x != start {
      var i :| 0 <= i < |rs| && rs[i].lo <= x < rs[i].hi;
      OverflowHitsSurvivor(rs, start, end, o, i);
      var s := IsSurvivor(rs, start, end, i);
      assert recorded[s] == rs[i] && !Separate(recorded[s], recorded[n]);
    }
  }

  /**
   With the sizes rounded as `alloc_frames` rounds them, the recorded ranges stay disjoint and
   lose exactly [start, end) if and only if every kept part has an exact size.
   */
  lemma UnmapExactIff(rs: seq<Rng>, start: nat, end: nat)
    requires Disjoint(rs) && NonEmpty(rs) && start < end && NonEmpty(Keeps(rs, start, end))
    ensures LosesExactly(rs, Recorded(rs, start, end), start, end) <==> AllExact(Keeps(rs, start, end))
  {
    var b := Keeps(rs, start, end);
    RoundedExact(b);
    AfterUnmapRanges(rs, start, end);
    hide Exact, Keeps, Survivors, Frames.Exact;
    if !AllExact(b) {
      var k :| 0 <= k < |b| && !Exact(b[k].hi - b[k].lo);
      InexactSpoils(rs, start, end, k);
    }
  }

  lemma OverflowHitsSurvivor(rs: seq<Rng>, start: nat, end: nat, o: nat, i: nat)
    requires Disjoint(rs) && o < |rs| && i < |rs| && end < rs[o].hi && Meets(rs[o], start, end)
    requires rs[i].lo <= rs[o].hi < rs[i].hi && start < end
    ensures !Meets(rs[i], start, end)
  {
    assert i < o ==> Separate(rs[i], rs[o]);
    assert o < i ==> Separate(rs[o], rs[i]);
  }

  // ----- where a new mapping is placed -----

  lemma FreeIffDisjoint(rs: seq<Rng>, start: nat, end: nat)
    requires Disjoint(rs) && start < end
    ensures Disjoint(rs + [Rng(start, end)]) <==> forall i :: 0 <= i < |rs| ==> Separate(rs[i], Rng(start, end))
  {
    var all := rs + [Rng(start, end)];
    assert all[|rs|] == Rng(start, end) && forall i :: 0 <= i < |rs| ==> all[i] == rs[i];
  }

  /**
   A mapping of `n` bytes at a free address is recorded with what `alloc_frames` delivers.  It stays
   apart from the others exactly if the addresses gained by rounding are free as well.
   */
  lemma PlacedIffTailFree(rs: seq<Rng>, n: nat, at: nat)
    requires Disjoint(rs) && NonEmpty(rs) && n > 0 && FreeOf(rs, at, at + n)
    ensures Delivered(n) >= n
    ensures Disjoint(rs + [Rng(at, at + Delivered(n))]) <==> FreeOf(rs, at + n, at + Delivered(n))
  {
    SegmentsTotal(n);
    hide Delivered, Frames.Delivered;
    FreeIffDisjoint(rs, at, at + Delivered(n));
    forall i | 0 <= i < |rs| ensures Separate(rs[i], Rng(at, at + Delivered(n))) <==>
        !Meets(rs[i], at + n, at + Delivered(n)) {
      assert !Meets(rs[i], at, at + n);
    }
  }

  /**
   The same for the highest gap: with the stack in place the gap always ends where something begins,
   so the new mapping stays apart from the others exactly if its size is exact.
   */
  lemma HighestPlacedIffExact(rs: seq<Rng>, n: nat, at: nat, stack: nat)
    requires Disjoint(rs) && NonEmpty(rs) && n > 0 && HighestFit(BelowStack(rs), n, Some(at))
    requires stack < |rs| && rs[stack].lo == USER_STACK_LOWER_BOUND
    ensures Disjoint(rs + [Rng(at, at + Delivered(n))]) <==> Exact(n)
  {
    NoneBesideStack(rs, stack);
    FreeRegionIff(rs, n, at);
    PlacedIffTailFree(rs, n, at);
    SegmentsTotal(n);
    hide Delivered, Exact, Frames.Delivered, Frames.Exact, BelowStack;
    var i := stack;
    if at + n < USER_STACK_LOWER_BOUND {
      i := FitEndsAtRange(rs, n, at);
    }
    if Delivered(n) > n {
      assert Meets(rs[i], at + n, at + Delivered(n));
    }
  }

  lemma NoneBesideStack(rs: seq<Rng>, stack: nat)
    requires Disjoint(rs) && NonEmpty(rs) && stack < |rs| && rs[stack].lo == USER_STACK_LOWER_BOUND
    ensures NoneStraddles(rs)
  {
    forall i | 0 <= i < |rs| ensures rs[i].hi <= USER_STACK_LOWER_BOUND || USER_STACK_LOWER_BOUND <= rs[i].lo {
      assert i < stack ==> Separate(rs[i], rs[stack]);
      assert stack < i ==> Separate(rs[stack], rs[i]);
    }
  }

  /** Three pages beside nothing but the stack: the gap chosen is just below it, the fourth page is the stack's. */
  lemma ThreePagesHitTheStack()
    ensures var rs := [Rng(USER_STACK_LOWER_BOUND, USER_STACK_TOP)];
            var at := USER_STACK_LOWER_BOUND - 3 * PAGE_SIZE;
            && HighestFit(BelowStack(rs), 3 * PAGE_SIZE, Some(at))
            && Delivered(3 * PAGE_SIZE) == 4 * PAGE_SIZE
            && !Disjoint(rs + [Rng(at, at + Delivered(3 * PAGE_SIZE))])
  {
    var rs := [Rng(USER_STACK_LOWER_BOUND, USER_STACK_TOP)];
    var at := USER_STACK_LOWER_BOUND - 3 * PAGE_SIZE;
    assert BelowStack(rs) == [];
    assert HighestFit([], 3 * PAGE_SIZE, Some(at));
    ThreePagesBecomeFour();
    HighestPlacedIffExact(rs, 3 * PAGE_SIZE, at, 0);
    assert Sum([4 * PAGE_SIZE]) == 4 * PAGE_SIZE;
  }
}
