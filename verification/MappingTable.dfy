/**
 The mapping table of a task: which virtual ranges it records, which physical page backs each
 page of a range, and what unmapping a range leaves behind.
 */
module MappingTable {
  import opened Memory
  import opened BuddySpec
  import opened Buddy
  import opened Frames
  import opened Sv39
  import opened Ranges

  /** A run of virtual pages backed by frames laid end to end. */
  datatype UserMapping = UserMapping(va: nat, frames: seq<Frame>, flags: Flags)

  const LOW_HALF_END: nat := 0x40_0000_0000
  const HIGH_HALF_START: nat := 0xffff_ffc0_0000_0000
  const ADDRESS_LIMIT: nat := 0x1_0000_0000_0000_0000

  function AlignUp(a: nat): nat { (a + PAGE_SIZE - 1) / PAGE_SIZE * PAGE_SIZE }

  function TotalSize(frames: seq<Frame>): nat {
    if frames == [] then 0 else AlignUp(frames[0].size) + TotalSize(frames[1..])
  }

  // `mapping_range`
  function RangeStart(m: UserMapping): nat { m.va / PAGE_SIZE * PAGE_SIZE }
  function RangeEnd(m: UserMapping): nat { RangeStart(m) + TotalSize(m.frames) }

  function RangeOf(m: UserMapping): Rng { Rng(RangeStart(m), RangeEnd(m)) }

  function RangesOf(ms: seq<UserMapping>): seq<Rng> {
    seq(|ms|, i requires 0 <= i < |ms| => RangeOf(ms[i]))
  }

  predicate Overlaps(m: UserMapping, start: nat, end: nat) { Meets(RangeOf(m), start, end) }

  predicate RangeIsFree(ms: seq<UserMapping>, start: nat, end: nat) {
    forall i :: 0 <= i < |ms| ==> !Overlaps(ms[i], start, end)
  }

  /** `va` is one of the mapping's pages. */
  predicate InRange(m: UserMapping, va: nat) { va % PAGE_SIZE == 0 && RangeStart(m) <= va < RangeEnd(m) }

  /** The physical address `off` bytes into frames laid end to end. */
  function PhysAtOffset(frames: seq<Frame>, off: nat): nat {
    if frames == [] then 0
    else if off < frames[0].size then frames[0].start + off
    else PhysAtOffset(frames[1..], off - frames[0].size)
  }

  function PhysOf(m: UserMapping, va: nat): nat
    requires RangeStart(m) <= va
  {
    PhysAtOffset(m.frames, va - RangeStart(m))
  }

  /** Index of the first mapping that has page `va`; |ms| if none does. */
  function Find(ms: seq<UserMapping>, va: nat): (i: nat)
    ensures i <= |ms| && (i < |ms| ==> InRange(ms[i], va))
    ensures forall j :: 0 <= j < i ==> !InRange(ms[j], va)
  {
    if ms == [] then 0
    else if InRange(ms[0], va) then 0
    else
      var i := Find(ms[1..], va);
      assert forall j :: 1 <= j < 1 + i ==> ms[j] == ms[1..][j - 1];
      1 + i
  }

  /** `page_phys`: the physical page behind page `va`, according to the mapping table. */
  function PagePhys(ms: seq<UserMapping>, va: nat): Option<nat> {
    var i := Find(ms, va);
    if i == |ms| then None else Some(PhysOf(ms[i], va))
  }

  // ----- frames laid end to end -----

  ghost predicate PageAligned(frames: seq<Frame>) {
    forall i :: 0 <= i < |frames| ==> frames[i].start % PAGE_SIZE == 0 && frames[i].size % PAGE_SIZE == 0
  }

  lemma FrameAligned(f: Frame)
    requires IsFrame(f)
    ensures f.size % PAGE_SIZE == 0 && AlignUp(f.size) == f.size
  {
    var n := Pow2(SizeToOrder(f.size));
    assert f.size == PAGE_SIZE * n;
    assert PAGE_SIZE * n % PAGE_SIZE == 0;
  }

  lemma {:induction false} TotalIsSum(frames: seq<Frame>)
    requires AreFrames(frames)
    ensures TotalSize(frames) == Sum(Sizes(frames)) && TotalSize(frames) % PAGE_SIZE == 0
  {
    if frames != [] {
      FrameAligned(frames[0]);
      TotalIsSum(frames[1..]);
      assert Sizes(frames)[1..] == Sizes(frames[1..]);
      PageSum(frames[0].size, TotalSize(frames[1..]));
    }
  }

  /** The page at a page offset lies inside one of the frames. */
  lemma {:induction false} PhysInFrame(frames: seq<Frame>, off: nat) returns (i: nat)
    requires AreFrames(frames) && PageAligned(frames) && off % PAGE_SIZE == 0 && off < TotalSize(frames)
    ensures i < |frames| && PageOf(BlockOf(frames[i]), PhysAtOffset(frames, off))
    decreases frames
  {
    FrameAligned(frames[0]);
    if off < frames[0].size {
      i := 0;
      PageSum(frames[0].start, off);
    } else {
      PageDiff(off, frames[0].size);
      i := PhysInFrame(frames[1..], off - frames[0].size);
      i := i + 1;
    }
  }

  lemma PageDiff(a: nat, b: nat)
    requires a % PAGE_SIZE == 0 && b % PAGE_SIZE == 0 && b <= a
    ensures (a - b) % PAGE_SIZE == 0
  {
  }

  ghost predicate FramesApart(frames: seq<Frame>) {
    forall i, j :: 0 <= i < j < |frames| ==>
        frames[i].start + frames[i].size <= frames[j].start || frames[j].start + frames[j].size <= frames[i].start
  }

  /** Different page offsets reach different physical pages. */
  lemma {:induction false} PhysDistinct(frames: seq<Frame>, a: nat, b: nat)
    requires AreFrames(frames) && PageAligned(frames) && FramesApart(frames)
    requires a % PAGE_SIZE == 0 && b % PAGE_SIZE == 0 && a < b < TotalSize(frames)
    ensures PhysAtOffset(frames, a) != PhysAtOffset(frames, b)
    decreases frames
  {
    FrameAligned(frames[0]);
    var rest := frames[1..];
    if b >= frames[0].size {
      PageDiff(b, frames[0].size);
      if a >= frames[0].size {
        PageDiff(a, frames[0].size);
        PhysDistinct(rest, a - frames[0].size, b - frames[0].size);
      } else {
        var i := PhysInFrame(rest, b - frames[0].size);
        assert rest[i] == frames[i + 1];
      }
    }
  }

  lemma {:induction false} TotalPrefix(frames: seq<Frame>, i: nat)
    requires AreFrames(frames) && i < |frames|
    ensures TotalSize(frames[..i]) + frames[i].size == TotalSize(frames[..i + 1]) <= TotalSize(frames)
    decreases i
  {
    FrameAligned(frames[0]);
    if i > 0 {
      TotalPrefix(frames[1..], i - 1);
      assert frames[..i][1..] == frames[1..][..i - 1];
      assert frames[..i + 1][1..] == frames[1..][..i];
    } else {
      assert frames[..1] == [frames[0]] && frames[..0] == [];
      assert TotalSize([frames[0]]) == frames[0].size + TotalSize([frames[0]][1..]);
    }
  }

  /** Frame `i` starts where the frames before it end. */
  lemma {:induction false} PhysSplit(frames: seq<Frame>, i: nat, step: nat)
    requires AreFrames(frames) && i < |frames| && step < frames[i].size
    ensures PhysAtOffset(frames, TotalSize(frames[..i]) + step) == frames[i].start + step
    decreases i
  {
    if i > 0 {
      FrameAligned(frames[0]);
      PhysSplit(frames[1..], i - 1, step);
      assert frames[..i][1..] == frames[1..][..i - 1];
      assert TotalSize(frames[..i]) == frames[0].size + TotalSize(frames[1..][..i - 1]);
    }
  }

  // ----- canonical addresses -----

  predicate IsCanonicalUserRange(start: nat, end: nat) { end <= LOW_HALF_END || start >= HIGH_HALF_START }

  predicate Canonical(va: nat) { va < LOW_HALF_END || HIGH_HALF_START <= va < ADDRESS_LIMIT }

  predicate PageVa(va: nat) { va % PAGE_SIZE == 0 && Canonical(va) }

  /** The range check is exact: bit 38 and all bits above it are equal in every address of the range. */
  lemma CanonicalIff(start: nat, end: nat)
    requires start < end <= ADDRESS_LIMIT
    ensures IsCanonicalUserRange(start, end) <==> forall va: nat :: start <= va < end ==> SignExtended(va)
  {
    forall va: nat | va < ADDRESS_LIMIT ensures SignExtended(va) <==> Canonical(va) {
      SignExtendedIff(va);
    }
    if !IsCanonicalUserRange(start, end) {
      var va := if start < LOW_HALF_END then LOW_HALF_END else start;
      assert start <= va < end && !Canonical(va);
    }
  }

  /** Bits 38 to 63 of a 64-bit address are all zeros or all ones. */
  predicate SignExtended(va: nat) { va / 0x40_0000_0000 == 0 || va / 0x40_0000_0000 == 0x3ff_ffff }

  lemma SignExtendedIff(va: nat)
    requires va < ADDRESS_LIMIT
    ensures SignExtended(va) <==> Canonical(va)
  {
  }

  lemma VpnValue(va: nat)
    requires PageVa(va)
    ensures VpnOf(va) * PAGE_SIZE == if va < LOW_HALF_END then va else va - (ADDRESS_LIMIT - 2 * LOW_HALF_END)
  {
    var x := va / PAGE_SIZE;
    assert va == PAGE_SIZE * x;
    if va < LOW_HALF_END {
      assert x < VPNS;
    } else {
      var t := x - 33554431 * VPNS;
      assert 0 <= t < VPNS && x == 33554431 * VPNS + t;
    }
  }

  /** Distinct canonical pages have distinct virtual page numbers. */
  lemma VpnInjective(a: nat, b: nat)
    requires PageVa(a) && PageVa(b) && a != b
    ensures VpnOf(a) != VpnOf(b)
  {
    VpnValue(a);
    VpnValue(b);
  }

  // ----- what the mapping table owns, and what it says about each page -----

  /** A mapping as the kernel makes it: whole frames, a canonical non-empty range. */
  ghost predicate Sound(m: UserMapping) {
    && m.frames != [] && AreFrames(m.frames) && DistinctFrames(m.frames) && PageAligned(m.frames)
    && IsCanonicalUserRange(RangeStart(m), RangeEnd(m)) && RangeEnd(m) <= ADDRESS_LIMIT
  }

  ghost predicate AllSound(ms: seq<UserMapping>) { forall i :: 0 <= i < |ms| ==> Sound(ms[i]) }

  ghost function BlocksOf(m: UserMapping): set<Block>
    requires Sound(m)
  {
    Blocks(m.frames)
  }

  /** All blocks behind the mappings. */
  ghost function AllBlocks(ms: seq<UserMapping>): set<Block>
    requires AllSound(ms)
  {
    set i, b | 0 <= i < |ms| && b in BlocksOf(ms[i]) :: b
  }

  /** The mappings own live blocks, none of them reserved and none of them shared. */
  ghost predicate Owns(ms: seq<UserMapping>, live: set<Block>, reserved: set<Block>) {
    && AllSound(ms)
    && (forall i :: 0 <= i < |ms| ==> BlocksOf(ms[i]) <= live && BlocksOf(ms[i]) !! reserved)
    && (forall i, j :: 0 <= i < j < |ms| ==> BlocksOf(ms[i]) !! BlocksOf(ms[j]))
  }

  lemma SoundSize(m: UserMapping)
    requires Sound(m)
    ensures RangeStart(m) < RangeEnd(m) && RangeStart(m) % PAGE_SIZE == 0 && RangeEnd(m) % PAGE_SIZE == 0
    ensures forall va :: InRange(m, va) ==> PageVa(va)
  {
    TotalIsSum(m.frames);
    FrameAligned(m.frames[0]);
    PageSum(RangeStart(m), TotalSize(m.frames));
  }

  /** Every page of a mapping is a page of one of its blocks. */
  lemma PhysOwned(m: UserMapping, va: nat) returns (b: Block)
    requires Sound(m) && InRange(m, va)
    ensures b in BlocksOf(m) && PageOf(b, PhysOf(m, va))
  {
    SoundSize(m);
    PageDiff(va, RangeStart(m));
    var i := PhysInFrame(m.frames, va - RangeStart(m));
    b := BlockOf(m.frames[i]);
  }

  function ZeroPage(): (p: Page)
    ensures forall i :: 0 <= i < WORDS_PER_PAGE ==> p[i] == 0
  {
    seq(WORDS_PER_PAGE, _ => 0)
  }

  function At(page: map<nat, Page>, p: nat): Page { if p in page then page[p] else ZeroPage() }

  /** What a task sees at a page: nothing, or permissions and contents. */
  datatype PageView = Absent | Present(flags: Flags, contents: Page)

  function ViewOf(ms: seq<UserMapping>, page: map<nat, Page>, va: nat): PageView {
    var i := Find(ms, va);
    if i == |ms| then Absent else Present(ms[i].flags, At(page, PhysOf(ms[i], va)))
  }

  lemma RangesDisjoint(ms: seq<UserMapping>, i: nat, j: nat, va: nat)
    requires Disjoint(RangesOf(ms)) && i < |ms| && j < |ms| && InRange(ms[i], va) && InRange(ms[j], va)
    ensures i == j
  {
    assert RangesOf(ms)[i] == RangeOf(ms[i]) && RangesOf(ms)[j] == RangeOf(ms[j]);
  }

  /** In a disjoint table any mapping that has the page decides its view. */
  lemma ViewAt(ms: seq<UserMapping>, page: map<nat, Page>, i: nat, va: nat)
    requires Disjoint(RangesOf(ms)) && i < |ms| && InRange(ms[i], va)
    ensures Find(ms, va) == i && ViewOf(ms, page, va) == Present(ms[i].flags, At(page, PhysOf(ms[i], va)))
  {
    RangesDisjoint(ms, i, Find(ms, va), va);
  }

  /** Views survive anything that keeps the contents of the owned blocks. */
  lemma ViewKept(ms: seq<UserMapping>, page: map<nat, Page>, page': map<nat, Page>, live: set<Block>, va: nat)
    requires AllSound(ms) && AllBlocks(ms) <= live && LiveKept(page, page', live)
    ensures ViewOf(ms, page', va) == ViewOf(ms, page, va)
  {
    var i := Find(ms, va);
    if i < |ms| {
      var b := PhysOwned(ms[i], va);
      assert b in AllBlocks(ms);
    }
  }

  lemma ViewAppend(ms: seq<UserMapping>, m: UserMapping, page: map<nat, Page>, va: nat)
    requires Disjoint(RangesOf(ms + [m]))
    ensures ViewOf(ms + [m], page, va) == if InRange(m, va) then Present(m.flags, At(page, PhysOf(m, va)))
              else ViewOf(ms, page, va)
  {
    var all := ms + [m];
    assert all[|ms|] == m;
    if InRange(m, va) {
      ViewAt(all, page, |ms|, va);
    } else {
      var i := Find(ms, va);
      var k := Find(all, va);
      assert forall j :: 0 <= j < |ms| ==> all[j] == ms[j];
      assert i < |ms| ==> InRange(all[i], va);
      assert k < |all| ==> k < |ms| && InRange(ms[k], va);
    }
  }

  lemma ViewRemove(ms: seq<UserMapping>, i: nat, page: map<nat, Page>, va: nat)
    requires Disjoint(RangesOf(ms)) && i < |ms|
    ensures ViewOf(Without1(ms, i), page, va) == if InRange(ms[i], va) then Absent else ViewOf(ms, page, va)
    ensures Disjoint(RangesOf(Without1(ms, i)))
  {
    var rest := Without1(ms, i);
    forall j, k | 0 <= j < k < |rest| ensures Separate(RangesOf(rest)[j], RangesOf(rest)[k]) {
      var j', k' := if j < i then j else j + 1, if k < i then k else k + 1;
      assert Separate(RangesOf(ms)[j'], RangesOf(ms)[k']);
    }
    var f := Find(rest, va);
    if f < |rest| {
      var f' := if f < i then f else f + 1;
      ViewAt(ms, page, f', va);
      ViewAt(rest, page, f, va);
      if InRange(ms[i], va) {
        RangesDisjoint(ms, i, f', va);
      }
    } else {
      forall g | 0 <= g < |ms| && g != i ensures !InRange(ms[g], va) {
        assert rest[if g < i then g else g - 1] == ms[g];
      }
    }
  }

  // ----- ownership when mappings come and go -----

  /** Frames held by the kernel itself: live, not reserved, not behind any mapping. */
  ghost predicate InHand(frames: seq<Frame>, ms: seq<UserMapping>, live: set<Block>, reserved: set<Block>) {
    && frames != [] && AreFrames(frames) && DistinctFrames(frames) && PageAligned(frames) && FramesApart(frames)
    && AllSound(ms) && Spare(Blocks(frames), ms, live, reserved)
  }

  /** Live blocks that nobody in sight owns. */
  ghost predicate Spare(blocks: set<Block>, ms: seq<UserMapping>, live: set<Block>, reserved: set<Block>)
    requires AllSound(ms)
  {
    blocks <= live && blocks !! reserved && blocks !! AllBlocks(ms)
  }

  lemma AllBlocksAppend(ms: seq<UserMapping>, m: UserMapping)
    requires AllSound(ms) && Sound(m)
    ensures AllSound(ms + [m]) && AllBlocks(ms + [m]) == AllBlocks(ms) + BlocksOf(m)
  {
    var all := ms + [m];
    assert all[|ms|] == m && forall i :: 0 <= i < |ms| ==> all[i] == ms[i];
    forall b | b in AllBlocks(ms) ensures b in AllBlocks(all) {
      var i :| 0 <= i < |ms| && b in BlocksOf(ms[i]);
      assert b in BlocksOf(all[i]);
    }
    forall b | b in BlocksOf(m) ensures b in AllBlocks(all) {
      assert b in BlocksOf(all[|ms|]);
    }
  }

  lemma OwnsAppend(ms: seq<UserMapping>, m: UserMapping, live: set<Block>, reserved: set<Block>)
    requires Owns(ms, live, reserved) && Sound(m) && Spare(BlocksOf(m), ms, live, reserved)
    ensures Owns(ms + [m], live, reserved)
  {
    var all := ms + [m];
    AllBlocksAppend(ms, m);
    assert all[|ms|] == m && forall i :: 0 <= i < |ms| ==> all[i] == ms[i];
    forall i | 0 <= i < |ms| ensures BlocksOf(ms[i]) !! BlocksOf(m) {
      assert forall b :: b in BlocksOf(ms[i]) ==> b in AllBlocks(ms);
    }
  }

  function Without1(ms: seq<UserMapping>, i: nat): (rest: seq<UserMapping>)
    requires i < |ms|
    ensures |rest| == |ms| - 1 && forall j :: 0 <= j < |rest| ==> rest[j] == ms[if j < i then j else j + 1]
  {
    ms[..i] + ms[i + 1..]
  }

  lemma OwnsRemove(ms: seq<UserMapping>, i: nat, live: set<Block>, reserved: set<Block>)
    requires Owns(ms, live, reserved) && i < |ms|
    ensures Owns(Without1(ms, i), live - BlocksOf(ms[i]), reserved)
  {
    var rest := Without1(ms, i);
    forall j | 0 <= j < |rest| ensures Sound(rest[j]) && BlocksOf(rest[j]) <= live - BlocksOf(ms[i])
        && BlocksOf(rest[j]) !! reserved {
      var j' := if j < i then j else j + 1;
      assert if j' < i then BlocksOf(ms[j']) !! BlocksOf(ms[i]) else BlocksOf(ms[i]) !! BlocksOf(ms[j']);
    }
    forall j, k | 0 <= j < k < |rest| ensures BlocksOf(rest[j]) !! BlocksOf(rest[k]) {
      var j', k' := if j < i then j else j + 1, if k < i then k else k + 1;
      assert BlocksOf(ms[j']) !! BlocksOf(ms[k']);
    }
  }

  lemma AllBlocksRemove(ms: seq<UserMapping>, i: nat, live: set<Block>, reserved: set<Block>)
    requires Owns(ms, live, reserved) && i < |ms|
    ensures AllSound(Without1(ms, i)) && BlocksOf(ms[i]) <= AllBlocks(ms)
    ensures AllBlocks(Without1(ms, i)) == AllBlocks(ms) - BlocksOf(ms[i])
  {
    OwnsRemove(ms, i, live, reserved);
    RestBlocks(ms, i);
    hide Sound, BlocksOf, Owns, AllBlocks;
    assert AllBlocks(Without1(ms, i)) <= live - BlocksOf(ms[i]) by {
      AllBlocksLive(Without1(ms, i), live - BlocksOf(ms[i]), reserved);
    }
  }

  /** All blocks are those of one mapping and those of the rest. */
  lemma RestBlocks(ms: seq<UserMapping>, i: nat)
    requires AllSound(ms) && i < |ms| && AllSound(Without1(ms, i))
    ensures AllBlocks(ms) == AllBlocks(Without1(ms, i)) + BlocksOf(ms[i])
  {
    hide Sound, BlocksOf;
    var rest := Without1(ms, i);
    forall b | b in AllBlocks(ms) && b !in BlocksOf(ms[i]) ensures b in AllBlocks(rest) {
      var k :| 0 <= k < |ms| && b in BlocksOf(ms[k]);
      assert rest[if k < i then k else k - 1] == ms[k];
    }
    forall b | b in AllBlocks(rest) ensures b in AllBlocks(ms) {
      var k :| 0 <= k < |rest| && b in BlocksOf(rest[k]);
      assert b in BlocksOf(ms[if k < i then k else k + 1]);
    }
  }

  /** Growing the live set, or reserving pages that were not live, takes nothing away. */
  lemma OwnsGrows(ms: seq<UserMapping>, live: set<Block>, live': set<Block>, reserved: set<Block>,
      reserved': set<Block>)
    requires Owns(ms, live, reserved) && live <= live' && reserved' - reserved !! live
    ensures Owns(ms, live', reserved')
  {
    forall i | 0 <= i < |ms| ensures BlocksOf(ms[i]) <= live' && BlocksOf(ms[i]) !! reserved' {
      assert BlocksOf(ms[i]) <= live;
    }
  }

  lemma AllBlocksLive(ms: seq<UserMapping>, live: set<Block>, reserved: set<Block>)
    requires Owns(ms, live, reserved)
    ensures AllBlocks(ms) <= live && AllBlocks(ms) !! reserved
  {
  }

  lemma DisjointAppend(ms: seq<UserMapping>, m: UserMapping)
    requires Disjoint(RangesOf(ms)) && RangeIsFree(ms, RangeStart(m), RangeEnd(m)) && RangeStart(m) < RangeEnd(m)
    requires AllSound(ms)
    ensures Disjoint(RangesOf(ms + [m])) && RangesOf(ms + [m]) == RangesOf(ms) + [RangeOf(m)]
  {
    var all := ms + [m];
    assert RangesOf(all) == RangesOf(ms) + [RangeOf(m)];
    forall i | 0 <= i < |ms| ensures Separate(RangesOf(ms)[i], RangeOf(m)) {
      assert !Overlaps(ms[i], RangeStart(m), RangeEnd(m));
      SoundSize(ms[i]);
    }
  }

  /** Live blocks are page aligned and apart, so frames made of them are too. */
  lemma LiveFrames(lists: Lists, live: set<Block>, frames: seq<Frame>)
    requires Inv(lists, live) && AreFrames(frames) && DistinctFrames(frames) && Blocks(frames) <= live
    ensures PageAligned(frames) && FramesApart(frames)
  {
    forall i | 0 <= i < |frames| ensures frames[i].start % PAGE_SIZE == 0 && frames[i].size % PAGE_SIZE == 0 {
      FrameAligned(frames[i]);
      assert BlockOf(frames[i]) in Blocks(frames);
      assert Held(lists, live, BlockOf(frames[i]));
    }
    forall i, j | 0 <= i < j < |frames|
      ensures frames[i].start + frames[i].size <= frames[j].start || frames[j].start + frames[j].size <= frames[i].start
    {
      var b, c := BlockOf(frames[i]), BlockOf(frames[j]);
      assert b in Blocks(frames) && c in Blocks(frames);
      assert Held(lists, live, b) && Held(lists, live, c);
      assert b != c;
      assert Apart(b, c);
    }
  }

  // ----- mappings that a window leaves alone -----

  function Untouched(ms: seq<UserMapping>, start: nat, end: nat): seq<UserMapping> {
    if ms == [] then []
    else (if Overlaps(ms[0], start, end) then [] else [ms[0]]) + Untouched(ms[1..], start, end)
  }

  /** Going down from the last mapping, what has been kept so far and what is still to be looked at. */
  function HalfDone(ms: seq<UserMapping>, i: nat, start: nat, end: nat): seq<UserMapping>
    requires i <= |ms|
  {
    ms[..i] + Untouched(ms[i..], start, end)
  }

  lemma HalfDoneStep(ms: seq<UserMapping>, i: nat, start: nat, end: nat)
    requires i < |ms|
    ensures var now := HalfDone(ms, i + 1, start, end);
            && i < |now| && now[i] == ms[i]
            && HalfDone(ms, i, start, end) == if Overlaps(ms[i], start, end) then Without1(now, i) else now
  {
    assert ms[i..][1..] == ms[i + 1..] && ms[i..][0] == ms[i];
    assert ms[..i + 1] == ms[..i] + [ms[i]];
    var rest := Untouched(ms[i + 1..], start, end);
    assert ms[..i] + ([ms[i]] + rest) == ms[..i + 1] + rest;
  }

  lemma HalfDoneEnds(ms: seq<UserMapping>, start: nat, end: nat)
    ensures HalfDone(ms, |ms|, start, end) == ms && HalfDone(ms, 0, start, end) == Untouched(ms, start, end)
  {
    assert ms[|ms|..] == [] && ms[0..] == ms;
  }

  /** Page `va` belongs to a mapping that meets the window. */
  predicate TornDown(ms: seq<UserMapping>, start: nat, end: nat, va: nat) {
    Find(ms, va) < |ms| && Overlaps(ms[Find(ms, va)], start, end)
  }

  lemma {:induction false} UntouchedRanges(ms: seq<UserMapping>, start: nat, end: nat)
    ensures RangesOf(Untouched(ms, start, end)) == Survivors(RangesOf(ms), start, end)
    decreases ms
  {
    if ms != [] {
      UntouchedRanges(ms[1..], start, end);
      assert RangesOf(ms)[1..] == RangesOf(ms[1..]) && RangesOf(ms)[0] == RangeOf(ms[0]);
      assert RangesOf([ms[0]] + Untouched(ms[1..], start, end)) == [RangeOf(ms[0])]
          + RangesOf(Untouched(ms[1..], start, end));
    }
  }

  lemma FindCons(m: UserMapping, rest: seq<UserMapping>, va: nat)
    ensures Find([m] + rest, va) == if InRange(m, va) then 0 else 1 + Find(rest, va)
  {
    assert ([m] + rest)[1..] == rest;
  }

  /** A page of the first mapping belongs to no other. */
  lemma FirstOnly(ms: seq<UserMapping>, va: nat)
    requires ms != [] && Disjoint(RangesOf(ms)) && InRange(ms[0], va)
    ensures Find(ms[1..], va) == |ms| - 1
  {
    forall j | 1 <= j < |ms| ensures !InRange(ms[j], va) {
      if InRange(ms[j], va) {
        RangesDisjoint(ms, 0, j, va);
      }
    }
  }

  /** `u` holds page `va` exactly when a mapping outside the window does, and then the same mapping. */
  ghost predicate SameFind(ms: seq<UserMapping>, u: seq<UserMapping>, start: nat, end: nat, va: nat) {
    && (Find(u, va) < |u| <==> Find(ms, va) < |ms| && !Overlaps(ms[Find(ms, va)], start, end))
    && (Find(u, va) < |u| ==> u[Find(u, va)] == ms[Find(ms, va)])
  }

  lemma SameFindStep(m: UserMapping, rest: seq<UserMapping>, u: seq<UserMapping>, start: nat, end: nat, va: nat)
    requires SameFind(rest, u, start, end, va) && (InRange(m, va) ==> Find(rest, va) == |rest|)
    ensures SameFind([m] + rest, u, start, end, va) || !Overlaps(m, start, end)
    ensures SameFind([m] + rest, [m] + u, start, end, va) || Overlaps(m, start, end)
  {
    FindCons(m, rest, va);
    FindCons(m, u, va);
    hide Overlaps, InRange, Find;
  }

  lemma {:induction false} UntouchedFind(ms: seq<UserMapping>, start: nat, end: nat, va: nat)
    requires Disjoint(RangesOf(ms))
    ensures SameFind(ms, Untouched(ms, start, end), start, end, va)
    decreases ms
  {
    if ms != [] {
      assert RangesOf(ms[1..]) == RangesOf(ms)[1..];
      UntouchedFind(ms[1..], start, end, va);
      if InRange(ms[0], va) {
        FirstOnly(ms, va);
      }
      SameFindStep(ms[0], ms[1..], Untouched(ms[1..], start, end), start, end, va);
      hide SameFind, Overlaps, Find, InRange, RangesOf;
      assert ms == [ms[0]] + ms[1..];
      assert [] + Untouched(ms[1..], start, end) == Untouched(ms[1..], start, end);
    }
  }

  lemma UntouchedView(ms: seq<UserMapping>, page: map<nat, Page>, start: nat, end: nat, va: nat)
    requires Disjoint(RangesOf(ms))
    ensures ViewOf(Untouched(ms, start, end), page, va) == if TornDown(ms, start, end, va) then Absent
              else ViewOf(ms, page, va)
  {
    UntouchedFind(ms, start, end, va);
  }

  // ----- contents copied into frames -----

  /** `range_fully_mapped`: every page of [va, va + size) belongs to a mapping. */
  predicate AllPresent(ms: seq<UserMapping>, va: nat, size: nat) {
    forall off :: 0 <= off < size && off % PAGE_SIZE == 0 ==> Find(ms, va + off) < |ms|
  }

  /** The first `done` bytes of the frames hold what the pages from `va` on held in `page0`. */
  ghost predicate CopiedFrom(page: map<nat, Page>, frames: seq<Frame>, ms: seq<UserMapping>, page0: map<nat, Page>,
      va: nat, done: nat) {
    forall off :: 0 <= off < done && off % PAGE_SIZE == 0 ==>
      ViewOf(ms, page0, va + off).Present?
          && At(page, PhysAtOffset(frames, off)) == ViewOf(ms, page0, va + off).contents
  }

  /** Storing one more page of a copy disturbs neither the pages copied so far nor anybody else's. */
  lemma CopyStep(page: map<nat, Page>, frames: seq<Frame>, ms: seq<UserMapping>, page0: map<nat, Page>, va: nat,
      done: nat, contents: Page)
    requires AreFrames(frames) && PageAligned(frames) && FramesApart(frames) && done % PAGE_SIZE == 0
              && done < TotalSize(frames)
    requires CopiedFrom(page, frames, ms, page0, va, done)
    requires ViewOf(ms, page0, va + done).Present? && ViewOf(ms, page0, va + done).contents == contents
    ensures CopiedFrom(page[PhysAtOffset(frames, done) := contents], frames, ms, page0, va, done + PAGE_SIZE)
  {
    var page' := page[PhysAtOffset(frames, done) := contents];
    hide ViewOf, PhysAtOffset, TotalSize;
    forall off | 0 <= off < done + PAGE_SIZE && off % PAGE_SIZE == 0
      ensures ViewOf(ms, page0, va + off).Present?
                && At(page', PhysAtOffset(frames, off)) == ViewOf(ms, page0, va + off).contents
    {
      if off < done {
        PhysDistinct(frames, off, done);
      } else if off != done {
        PageGap(done, off);
      }
    }
  }

  /** A page of one live block is not a page of another. */
  lemma PageOfOne(lists: Lists, live: set<Block>, b: Block, c: Block, p: nat)
    requires Inv(lists, live) && b in live && c in live && PageOf(b, p) && PageOf(c, p)
    ensures b == c
  {
    assert Held(lists, live, b) && Held(lists, live, c);
  }

  /** Pages of the frames from `done` on are as they were. */
  ghost predicate TailKept(page: map<nat, Page>, page': map<nat, Page>, frames: seq<Frame>, done: nat) {
    forall off :: done <= off < TotalSize(frames) && off % PAGE_SIZE == 0 ==>
      At(page', PhysAtOffset(frames, off)) == At(page, PhysAtOffset(frames, off))
  }

  lemma TailStep(page: map<nat, Page>, page': map<nat, Page>, frames: seq<Frame>, done: nat, contents: Page)
    requires AreFrames(frames) && PageAligned(frames) && FramesApart(frames) && done % PAGE_SIZE == 0
              && done < TotalSize(frames)
    requires TailKept(page, page', frames, done)
    ensures TailKept(page, page'[PhysAtOffset(frames, done) := contents], frames, done + PAGE_SIZE)
  {
    forall off | done + PAGE_SIZE <= off < TotalSize(frames) && off % PAGE_SIZE == 0
      ensures At(page'[PhysAtOffset(frames, done) := contents], PhysAtOffset(frames, off)) == At(page,
                PhysAtOffset(frames, off))
    {
      PhysDistinct(frames, done, off);
    }
  }

  /** Every page of the frames up to `done` is zero. */
  ghost predicate Zeroed(page: map<nat, Page>, frames: seq<Frame>, done: nat) {
    forall off :: 0 <= off < done && off % PAGE_SIZE == 0 ==> At(page, PhysAtOffset(frames, off)) == ZeroPage()
  }

  lemma ZeroStep(page: map<nat, Page>, frames: seq<Frame>, done: nat)
    requires AreFrames(frames) && PageAligned(frames) && FramesApart(frames) && done % PAGE_SIZE == 0
              && done < TotalSize(frames)
    requires Zeroed(page, frames, done)
    ensures Zeroed(page[PhysAtOffset(frames, done) := ZeroPage()], frames, done + PAGE_SIZE)
  {
    var page' := page[PhysAtOffset(frames, done) := ZeroPage()];
    forall off | 0 <= off < done + PAGE_SIZE && off % PAGE_SIZE == 0
        ensures At(page', PhysAtOffset(frames, off)) == ZeroPage() {
      if off < done {
        PhysDistinct(frames, off, done);
      } else if off != done {
        PageGap(done, off);
      }
    }
  }

  /** A store into frames in hand leaves the contents of all other live blocks alone. */
  lemma StoreKeeps(lists: Lists, live: set<Block>, page: map<nat, Page>, frames: seq<Frame>, off: nat, contents: Page)
      returns (b: Block)
    requires Inv(lists, live) && AreFrames(frames) && PageAligned(frames) && Blocks(frames) <= live
    requires off % PAGE_SIZE == 0 && off < TotalSize(frames) && PhysAtOffset(frames, off) in page
    ensures b in Blocks(frames) && PageOf(b, PhysAtOffset(frames, off))
    ensures LiveKept(page, page[PhysAtOffset(frames, off) := contents], live - Blocks(frames))
  {
    var i := PhysInFrame(frames, off);
    b := BlockOf(frames[i]);
    assert b in Blocks(frames);
    var p := PhysAtOffset(frames, off);
    forall c, q | c in live - Blocks(frames) && PageOf(c, q) && q in page ensures q != p {
      if q == p {
        PageOfOne(lists, live, b, c, p);
      }
    }
  }

  lemma PresentPages(page: map<nat, Page>, lists: Lists, live: set<Block>, frames: seq<Frame>, off: nat)
    requires PagesPresent(page, lists, live) && AreFrames(frames) && PageAligned(frames) && Blocks(frames) <= live
    requires off % PAGE_SIZE == 0 && off < TotalSize(frames)
    ensures PhysAtOffset(frames, off) in page
  {
    var i := PhysInFrame(frames, off);
    assert BlockOf(frames[i]) in Blocks(frames);
    assert Held(lists, live, BlockOf(frames[i]));
  }
}
