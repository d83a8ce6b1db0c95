/** The parts of mappings that survive when a window is unmapped. */
module KeptParts {
  import opened Memory
  import opened BuddySpec
  import opened Buddy
  import opened Frames
  import opened Sv39
  import opened Ranges
  import opened MappingTable

  /** A part of a mapping that unmapping keeps. */
  datatype Keep = Keep(va: nat, size: nat, flags: Flags)

  predicate InKeep(k: Keep, va: nat) { va % PAGE_SIZE == 0 && k.va <= va < k.va + k.size }

  /** At most a left and a right part. */
  function PartsOf(m: UserMapping, start: nat, end: nat): seq<Keep> {
    var s, e := RangeStart(m), RangeEnd(m);
    if !Overlaps(m, start, end) then []
    else (if s < start then [Keep(s, start - s, m.flags)] else []) + (if end < e then [Keep(end, e - end, m.flags)]
        else [])
  }

  function KeepList(ms: seq<UserMapping>, start: nat, end: nat): seq<Keep> {
    if ms == [] then [] else PartsOf(ms[0], start, end) + KeepList(ms[1..], start, end)
  }

  function KeepRange(k: Keep): Rng { Rng(k.va, k.va + k.size) }

  function KeepRanges(ks: seq<Keep>): seq<Rng> { seq(|ks|, n requires 0 <= n < |ks| => KeepRange(ks[n])) }

  /** The orders of the blocks that hold copies of some ranges, range by range. */
  function OrdersOf(rs: seq<Rng>): seq<nat> {
    if rs == [] then [] else OrdersFor(if rs[0].lo < rs[0].hi then rs[0].hi - rs[0].lo else 0) + OrdersOf(rs[1..])
  }

  lemma OrdersStep(ks: seq<Keep>, n: nat)
    requires n < |ks|
    ensures OrdersOf(KeepRanges(ks[n..])) == OrdersFor(ks[n].size) + OrdersOf(KeepRanges(ks[n + 1..]))
  {
    assert KeepRanges(ks[n..])[1..] == KeepRanges(ks[n + 1..]) && KeepRanges(ks[n..])[0] == KeepRange(ks[n]);
  }

  lemma KeepRangesConcat(a: seq<Keep>, b: seq<Keep>)
    ensures KeepRanges(a + b) == KeepRanges(a) + KeepRanges(b)
  {
  }

  lemma {:induction false} KeepListRanges(ms: seq<UserMapping>, start: nat, end: nat)
    ensures KeepRanges(KeepList(ms, start, end)) == Keeps(RangesOf(ms), start, end)
    decreases ms
  {
    if ms != [] {
      KeepListRanges(ms[1..], start, end);
      assert RangesOf(ms)[1..] == RangesOf(ms[1..]) && RangesOf(ms)[0] == RangeOf(ms[0]);
      KeepRangesConcat(PartsOf(ms[0], start, end), KeepList(ms[1..], start, end));
      assert KeepRanges(PartsOf(ms[0], start, end)) == KeepsOf(RangeOf(ms[0]), start, end);
    }
  }

  /** Where a kept part comes from. */
  lemma {:induction false} PartOrigin(ms: seq<UserMapping>, start: nat, end: nat, n: nat) returns (i: nat)
    requires n < |KeepList(ms, start, end)| && start < end
    ensures i < |ms| && Overlaps(ms[i], start, end)
    ensures var k := KeepList(ms, start, end)[n];
            && k.flags == ms[i].flags && k.size > 0
            && RangeStart(ms[i]) <= k.va && k.va + k.size <= RangeEnd(ms[i])
            && (k.va + k.size == start || k.va == end)
            && (k.va == RangeStart(ms[i]) || k.va == end)
            && (k.va + k.size == start || k.va + k.size == RangeEnd(ms[i]))
    decreases ms
  {
    var first := PartsOf(ms[0], start, end);
    if n < |first| {
      i := 0;
    } else {
      i := PartOrigin(ms[1..], start, end, n - |first|);
      i := i + 1;
    }
  }

  lemma {:induction false} PartExists(ms: seq<UserMapping>, start: nat, end: nat, i: nat, k: Keep) returns (n: nat)
    requires i < |ms| && k in PartsOf(ms[i], start, end)
    ensures n < |KeepList(ms, start, end)| && KeepList(ms, start, end)[n] == k
    decreases ms
  {
    var first := PartsOf(ms[0], start, end);
    if i == 0 {
      n :| 0 <= n < |first| && first[n] == k;
    } else {
      n := PartExists(ms[1..], start, end, i - 1, k);
      n := n + |first|;
    }
  }

  lemma PartAligned(ms: seq<UserMapping>, start: nat, end: nat, n: nat) returns (i: nat)
    requires n < |KeepList(ms, start, end)| && start < end && AllSound(ms)
    requires start % PAGE_SIZE == 0 && end % PAGE_SIZE == 0
    ensures i < |ms| && Overlaps(ms[i], start, end)
    ensures var k := KeepList(ms, start, end)[n];
            && k.va % PAGE_SIZE == 0 && k.size % PAGE_SIZE == 0 && k.size > 0 && k.flags == ms[i].flags
            && IsCanonicalUserRange(k.va, k.va + k.size) && k.va + k.size <= ADDRESS_LIMIT
            && (forall va: nat :: InKeep(k, va) ==> InRange(ms[i], va) && !(start <= va < end))
  {
    i := PartOrigin(ms, start, end, n);
    var k := KeepList(ms, start, end)[n];
    SoundSize(ms[i]);
    PageDiff(k.va + k.size, k.va);
  }

  /** A torn-down page outside the window is in a kept part, and only such a page is. */
  lemma RestoredIff(ms: seq<UserMapping>, start: nat, end: nat, va: nat)
    requires AllSound(ms) && Disjoint(RangesOf(ms)) && start < end && start % PAGE_SIZE == 0 && end % PAGE_SIZE == 0
    ensures TornDown(ms, start, end, va) && !(start <= va < end)
            <==> exists n :: 0 <= n < |KeepList(ms, start, end)| && InKeep(KeepList(ms, start, end)[n], va)
  {
    var ks := KeepList(ms, start, end);
    if n :| 0 <= n < |ks| && InKeep(ks[n], va) {
      var i := PartAligned(ms, start, end, n);
      RangesDisjoint(ms, i, Find(ms, va), va);
    }
    if TornDown(ms, start, end, va) && !(start <= va < end) {
      var i := Find(ms, va);
      var k := if va < start then Keep(RangeStart(ms[i]), start - RangeStart(ms[i]), ms[i].flags)
               else Keep(end, RangeEnd(ms[i]) - end, ms[i].flags);
      var n := PartExists(ms, start, end, i, k);
      assert InKeep(ks[n], va);
    }
  }

  lemma KeepListStep(keeps: seq<Keep>, ms: seq<UserMapping>, i: nat, start: nat, end: nat)
    requires i < |ms|
    ensures keeps + KeepList(ms[i..], start, end) == keeps + PartsOf(ms[i], start, end) + KeepList(ms[i + 1..], start,
              end)
  {
    assert ms[i..][0] == ms[i] && ms[i..][1..] == ms[i + 1..];
  }

  /** Step one of `unmap_range`. */
  method CollectKeeps(ms: seq<UserMapping>, start: nat, end: nat) returns (keeps: seq<Keep>)
    ensures keeps == KeepList(ms, start, end)
  {
    keeps := [];
    var i := 0;
    assert ms[0..] == ms;
    while i < |ms|
      invariant i <= |ms| && KeepList(ms, start, end) == keeps + KeepList(ms[i..], start, end)
    {
      var parts := CollectParts(ms[i], start, end);
      KeepListStep(keeps, ms, i, start, end);
      keeps := keeps + parts;
      i := i + 1;
    }
  }

  /** The body of that loop, for one mapping. */
  method CollectParts(m: UserMapping, start: nat, end: nat) returns (parts: seq<Keep>)
    ensures parts == PartsOf(m, start, end)
  {
    parts := [];
    if Overlaps(m, start, end) {
      var s, e := RangeStart(m), RangeEnd(m);
      var overlapStart, overlapEnd := if s < start then start else s, if e < end then e else end;
      if s < overlapStart {
        parts := parts + [Keep(s, overlapStart - s, m.flags)];
      }
      if overlapEnd < e {
        parts := parts + [Keep(overlapEnd, e - overlapEnd, m.flags)];
      }
    }
  }

  // ----- buffers: kept parts with their new frames -----

  datatype Buffer = Buffer(frames: seq<Frame>, keep: Keep)

  function MappingOf(b: Buffer): UserMapping { UserMapping(b.keep.va, b.frames, b.keep.flags) }

  function MappingsOf(bufs: seq<Buffer>): seq<UserMapping> {
    seq(|bufs|, n requires 0 <= n < |bufs| => MappingOf(bufs[n]))
  }

  ghost predicate BufferOk(b: Buffer) {
    && b.frames != [] && AreFrames(b.frames) && DistinctFrames(b.frames)
    && PageAligned(b.frames) && FramesApart(b.frames) && TotalSize(b.frames) == b.keep.size
  }

  ghost predicate BuffersOk(bufs: seq<Buffer>) {
    && (forall n :: 0 <= n < |bufs| ==> BufferOk(bufs[n]))
    && (forall m, n :: 0 <= m < n < |bufs| ==> Blocks(bufs[m].frames) !! Blocks(bufs[n].frames))
  }

  /** The blocks of the buffers from number `n` on. */
  ghost function BufferBlocks(bufs: seq<Buffer>, n: nat): set<Block>
    requires BuffersOk(bufs)
  {
    set m, b | n <= m < |bufs| && b in Blocks(bufs[m].frames) :: b
  }

  lemma BufferBlocksSplit(bufs: seq<Buffer>, n: nat)
    requires BuffersOk(bufs) && n < |bufs|
    ensures BufferBlocks(bufs, n) == Blocks(bufs[n].frames) + BufferBlocks(bufs, n + 1)
    ensures Blocks(bufs[n].frames) !! BufferBlocks(bufs, n + 1)
  {
  }

  /** Every buffer holds the contents its part had in `page0`. */
  ghost predicate CopiedAll(page: map<nat, Page>, bufs: seq<Buffer>, ms: seq<UserMapping>, page0: map<nat, Page>) {
    forall n :: 0 <= n < |bufs| ==> CopiedFrom(page, bufs[n].frames, ms, page0, bufs[n].keep.va, bufs[n].keep.size)
  }

  lemma CopiedKept(page: map<nat, Page>, page': map<nat, Page>, frames: seq<Frame>, ms: seq<UserMapping>,
      page0: map<nat, Page>, va: nat, size: nat, live: set<Block>)
    requires CopiedFrom(page, frames, ms, page0, va, size) && AreFrames(frames) && PageAligned(frames)
              && size <= TotalSize(frames)
    requires Blocks(frames) <= live && LiveKept(page, page', live)
    ensures CopiedFrom(page', frames, ms, page0, va, size)
  {
    forall off | 0 <= off < size && off % PAGE_SIZE == 0
        ensures At(page', PhysAtOffset(frames, off)) == At(page, PhysAtOffset(frames, off)) {
      var i := PhysInFrame(frames, off);
      assert BlockOf(frames[i]) in Blocks(frames);
    }
  }

  lemma CopiedAllKept(page: map<nat, Page>, page': map<nat, Page>, bufs: seq<Buffer>, ms: seq<UserMapping>,
      page0: map<nat, Page>, live: set<Block>)
    requires BuffersOk(bufs) && CopiedAll(page, bufs, ms, page0)
    requires BufferBlocks(bufs, 0) <= live && LiveKept(page, page', live)
    ensures CopiedAll(page', bufs, ms, page0)
  {
    forall n | 0 <= n < |bufs|
        ensures CopiedFrom(page', bufs[n].frames, ms, page0, bufs[n].keep.va, bufs[n].keep.size) {
      assert BufferOk(bufs[n]);
      assert Blocks(bufs[n].frames) <= live by {
        forall b | b in Blocks(bufs[n].frames) ensures b in live { assert b in BufferBlocks(bufs, 0); }
      }
      CopiedKept(page, page', bufs[n].frames, ms, page0, bufs[n].keep.va, bufs[n].keep.size, live);
    }
  }

  lemma BuffersAppend(bufs: seq<Buffer>, b: Buffer)
    requires BuffersOk(bufs) && BufferOk(b) && Blocks(b.frames) !! BufferBlocks(bufs, 0)
    ensures BuffersOk(bufs + [b]) && BufferBlocks(bufs + [b], 0) == BufferBlocks(bufs, 0) + Blocks(b.frames)
  {
    hide AreFrames, DistinctFrames, PageAligned, FramesApart, TotalSize, Blocks, Frames.AreFrames,
        Frames.DistinctFrames, Frames.Blocks;
    var all := bufs + [b];
    assert all[|bufs|] == b && forall n :: 0 <= n < |bufs| ==> all[n] == bufs[n];
    forall m | 0 <= m < |bufs| ensures Blocks(bufs[m].frames) !! Blocks(b.frames) {
      assert forall c :: c in Blocks(bufs[m].frames) ==> c in BufferBlocks(bufs, 0);
    }
    forall m, n | 0 <= m < n < |all| ensures Blocks(all[m].frames) !! Blocks(all[n].frames) {}
    forall c | c in BufferBlocks(bufs, 0) ensures c in BufferBlocks(all, 0) {
      var m :| 0 <= m < |bufs| && c in Blocks(bufs[m].frames);
      assert c in Blocks(all[m].frames);
    }
    forall c | c in Blocks(b.frames) ensures c in BufferBlocks(all, 0) {
      assert c in Blocks(all[|bufs|].frames);
    }
  }

  function BufferRanges(bufs: seq<Buffer>): seq<Rng> { seq(|bufs|,
      n requires 0 <= n < |bufs| => KeepRange(bufs[n].keep)) }

  /** The range of the next buffer is still free when its predecessors are mapped. */
  lemma NextIsFree(base: seq<UserMapping>, bufs: seq<Buffer>, n: nat)
    requires BuffersOk(bufs) && n < |bufs| && Disjoint(RangesOf(base) + BufferRanges(bufs))
    requires forall m :: 0 <= m < |bufs| ==> bufs[m].keep.va % PAGE_SIZE == 0
    ensures RangeIsFree(base + MappingsOf(bufs)[..n], bufs[n].keep.va, bufs[n].keep.va + TotalSize(bufs[n].frames))
  {
    var ranges := RangesOf(base) + BufferRanges(bufs);
    var ms := base + MappingsOf(bufs)[..n];
    assert BufferOk(bufs[n]);
    assert ranges[|base| + n] == KeepRange(bufs[n].keep);
    forall i | 0 <= i < |ms| ensures !Overlaps(ms[i], bufs[n].keep.va, bufs[n].keep.va + TotalSize(bufs[n].frames)) {
      if i < |base| {
        assert ranges[i] == RangeOf(ms[i]);
      } else {
        assert BufferOk(bufs[i - |base|]) && ms[i] == MappingOf(bufs[i - |base|]);
        assert ranges[i] == RangeOf(ms[i]);
      }
      assert Separate(ranges[i], ranges[|base| + n]);
    }
  }

  lemma MappedPrefix(base: seq<UserMapping>, bufs: seq<Buffer>, n: nat)
    requires n < |bufs|
    ensures base + MappingsOf(bufs)[..n] + [MappingOf(bufs[n])] == base + MappingsOf(bufs)[..n + 1]
    ensures base + MappingsOf(bufs)[..0] == base && MappingsOf(bufs)[..|bufs|] == MappingsOf(bufs)
  {
  }

  // ----- windows that end inside a page -----

  /** `e` is `end` rounded up to a page. */
  predicate RoundsUp(end: nat, e: nat) { e % PAGE_SIZE == 0 && end <= e < end + PAGE_SIZE }

  lemma ExactIsPages(size: nat)
    requires Exact(size)
    ensures size % PAGE_SIZE == 0
  {
    var rest := size % TOP_SIZE;
    if rest != 0 {
      OrderSizePages(SizeToOrder(rest));
    }
    TopIsPages(size);
  }

  lemma TopIsPages(size: nat)
    requires size % TOP_SIZE % PAGE_SIZE == 0
    ensures size % PAGE_SIZE == 0
  {
    assert TOP_SIZE == 1024 * PAGE_SIZE;
  }

  lemma {:induction false} OrderSizePages(order: nat)
    ensures OrderSize(order) % PAGE_SIZE == 0
  {
    if order > 0 {
      OrderSizePages(order - 1);
    }
  }

  /** Unless a mapping is cut inside a page, the window might as well end with the page. */
  lemma SameParts(m: UserMapping, start: nat, end: nat, e: nat)
    requires Sound(m) && start < end && RoundsUp(end, e)
    requires Overlaps(m, start, end) && end < RangeEnd(m) ==> (RangeEnd(m) - end) % PAGE_SIZE == 0
    ensures Overlaps(m, start, end) <==> Overlaps(m, start, e)
    ensures PartsOf(m, start, end) == PartsOf(m, start, e)
  {
    SoundSize(m);
    if RangeStart(m) < e {
      NextPage(RangeStart(m), e);
    }
    if Overlaps(m, start, end) && end < RangeEnd(m) {
      PageDiff(RangeEnd(m), RangeEnd(m) - end);
      assert end % PAGE_SIZE == 0;
      if end != e {
        PageGap(end, e);
      }
    }
  }

  lemma RightPartOnPages(m: UserMapping, start: nat, end: nat)
    requires AllExact(KeepsOf(RangeOf(m), start, end)) && Overlaps(m, start, end) && end < RangeEnd(m)
    ensures (RangeEnd(m) - end) % PAGE_SIZE == 0
  {
    var parts := KeepsOf(RangeOf(m), start, end);
    assert parts[|parts| - 1] == Rng(end, RangeEnd(m));
    ExactIsPages(RangeEnd(m) - end);
  }

  lemma ExactParts(rs: seq<Rng>, start: nat, end: nat)
    requires rs != [] && AllExact(Keeps(rs, start, end))
    ensures AllExact(KeepsOf(rs[0], start, end)) && AllExact(Keeps(rs[1..], start, end))
  {
    ExactConcat(KeepsOf(rs[0], start, end), Keeps(rs[1..], start, end));
  }

  lemma ExactConcat(a: seq<Rng>, b: seq<Rng>)
    requires AllExact(a + b)
    ensures AllExact(a) && AllExact(b)
  {
    hide Exact, Frames.Exact;
    forall k | 0 <= k < |a| ensures a[k].lo <= a[k].hi && Exact(a[k].hi - a[k].lo) {
      assert (a + b)[k] == a[k];
    }
    forall k | 0 <= k < |b| ensures b[k].lo <= b[k].hi && Exact(b[k].hi - b[k].lo) {
      assert (a + b)[|a| + k] == b[k];
    }
  }

  lemma {:induction false} SameWindow(ms: seq<UserMapping>, start: nat, end: nat, e: nat)
    requires AllSound(ms) && start < end && RoundsUp(end, e) && AllExact(Keeps(RangesOf(ms), start, end))
    ensures Untouched(ms, start, end) == Untouched(ms, start, e) && KeepList(ms, start, end) == KeepList(ms, start, e)
    decreases ms
  {
    if ms != [] {
      var rs := RangesOf(ms);
      assert rs[1..] == RangesOf(ms[1..]) && rs[0] == RangeOf(ms[0]);
      ExactParts(rs, start, end);
      SameWindow(ms[1..], start, end, e);
      if Overlaps(ms[0], start, end) && end < RangeEnd(ms[0]) {
        RightPartOnPages(ms[0], start, end);
      }
      SameParts(ms[0], start, end, e);
    }
  }
}
