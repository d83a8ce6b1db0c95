/** A MINIX V1 file system: the zone bitmap and the zone maps of its files. */
module Minix {
  import opened Memory
  import opened Chunks
  import opened FiniteSets
  import opened MinixSpec
  import Bitmap
  import opened MinixDevice
  import VirtioBlk

  // ----- sets of zones -----

  ghost function ZonesIn(s: seq<u16>): set<nat> { set i | 0 <= i < |s| :: s[i] as nat }

  ghost predicate Distinct(s: seq<u16>) { forall i, j :: 0 <= i < j < |s| ==> s[i] != s[j] }

  lemma ZonesInAppend(s: seq<u16>, z: u16)
    ensures ZonesIn(s + [z]) == ZonesIn(s) + {z as nat}
  {
    var t := s + [z];
    assert t[|s|] == z;
    forall x | x in ZonesIn(s) ensures x in ZonesIn(t) {
      var i :| 0 <= i < |s| && s[i] as nat == x;
      assert t[i] == s[i];
    }
  }

  /** The data zones whose bit is set in the map. */
  ghost function UsedIn(zmap: seq<Bitmap.Word>, first: nat, nzones: nat): set<nat>
    requires 1 <= first <= nzones
  {
    set z: nat | first <= z < nzones && ZoneMarked(zmap, first, nzones, z)
  }

  predicate ZoneMarked(zmap: seq<Bitmap.Word>, first: nat, nzones: nat, z: nat)
    requires first <= z < nzones
  {
    Bitmap.Marked(zmap, nzones - first + 1, z - first + 1)
  }

  /** What allocation may return: a data zone that was free, or nothing if there is none. */
  ghost predicate Proper(used: set<nat>, first: nat, nzones: nat, z: Option<u16>) {
    match z
    case None => used == Range(first, nzones)
    case Some(v) => first <= v < nzones && v as nat !in used
  }

  /** Writing a bit of the map changes at most its own zone, and no padding. */
  lemma ZoneWritten(zmap: seq<Bitmap.Word>, first: nat, nzones: nat, i: nat, v: bool)
    requires 1 <= first <= nzones && 1 <= i < |zmap| * Bitmap.WORD_BITS
              && nzones - first + 1 <= |zmap| * Bitmap.WORD_BITS
    ensures var used, used' := UsedIn(zmap, first, nzones), UsedIn(Bitmap.SetBit(zmap, i, v), first, nzones);
            used' == if i > nzones - first then used else if v then used + {i + first - 1} else used - {i + first - 1}
    ensures i <= nzones - first ==>
              (Bitmap.NothingBehind(Bitmap.SetBit(zmap, i, v), nzones - first + 1, true) <==>
                  Bitmap.NothingBehind(zmap, nzones - first + 1, true))
  {
    hide Bitmap.BitAt, Bitmap.SetBit;
    forall z: nat | first <= z < nzones
      ensures ZoneMarked(Bitmap.SetBit(zmap, i, v), first, nzones, z) == if z - first + 1 == i then v
                else ZoneMarked(zmap, first, nzones, z)
    {
      Bitmap.SetBitAt(zmap, i, v, z - first + 1);
    }
    if i <= nzones - first {
      Bitmap.BehindKept(zmap, nzones - first + 1, i, v, true);
    }
  }

  /** A full disk of nine zones with a second, clear word of padding: the search finds the bit of a tenth. */
  lemma FullDiskHandsOutAZone()
    ensures var zmap := [Bitmap.LowMask(10), Bitmap.LowMask(0)];
            && UsedIn(zmap, 1, 10) == Range(1, 10)
            && Bitmap.FirstWanted(zmap, 10, 1, true, Some(10)) && !Proper(UsedIn(zmap, 1, 10), 1, 10, Some(10 + 1 - 1))
  {
    var zmap := [Bitmap.LowMask(10), Bitmap.LowMask(0)];
    Bitmap.ScanFindsPadding();
    forall z: nat | Between(1, z, 10) ensures ZoneMarked(zmap, 1, 10, z) {
      assert Bitmap.BitAt(zmap, z);
    }
  }

  class MinixFs {
    const zoneSize: nat
    const first: nat
    const nzones: nat
    const dev: VirtioBlk.Device
    /** What the sectors of the device hold, zone by zone. */
    ghost var disk: Disk
    /** The zone bitmap, all its blocks.  Bit i stands for zone first - 1 + i; bit 0 is never allocated. */
    var zmap: seq<Bitmap.Word>

    /** How many bits of the map stand for something; the rest is padding. */
    function Bits(): nat
      requires first <= nzones
    {
      nzones - first + 1
    }

    ghost predicate Formed()
      reads this, dev
    {
      && 1024 <= zoneSize && zoneSize % 2 == 0 && 1 <= first <= nzones < 65536
      && |disk| == nzones && Uniform(disk, zoneSize) && |zmap| >= Bitmap.WordsFor(Bits())
      && Backs(dev, disk, zoneSize)
    }

    /** No padding bit that the search for a free bit looks at is clear. */
    ghost predicate Padded()
      requires first <= nzones
      reads this
    {
      Bitmap.NothingBehind(zmap, Bits(), true)
    }

    ghost predicate Valid()
      reads this, dev
      ensures Valid() ==> Formed()
    {
      Formed() && Padded()
    }

    /** `from_device`, once the superblock has been read. */
    constructor (dev: VirtioBlk.Device, zoneSize: nat, first: nat, nzones: nat, zmap: seq<Bitmap.Word>,
        ghost disk: Disk)
      ensures this.dev == dev && this.zoneSize == zoneSize && this.first == first && this.nzones == nzones
      ensures this.zmap == zmap && this.disk == disk
    {
      this.dev, this.zoneSize, this.first, this.nzones, this.zmap := dev, zoneSize, first, nzones, zmap;
      this.disk := disk;
    }

    function Per(): nat { zoneSize / 2 }

    /** The data zones whose bit is set. */
    ghost function Used(): (u: set<nat>)
      requires 1 <= first <= nzones
      reads this
    {
      UsedIn(zmap, first, nzones)
    }

    /**
     `alloc_zone`: the zone of the first clear bit, truncated to 16 bits.  That is a free data zone, or
     nothing, exactly if there is a free one or no padding bit is mistaken for one.
     */
    method AllocZone() returns (z: Option<u16>)
      requires Formed()
      modifies this`zmap
      ensures Formed()
      ensures Proper(old(Used()), first, nzones, z) <==>
                old(Used() != Range(first, nzones) || Padded() || first == nzones)
      ensures Proper(old(Used()), first, nzones, z) ==> (Padded() <==> old(Padded()))
      ensures z.None? ==> zmap == old(zmap)
      ensures Proper(old(Used()), first, nzones, z) && z.Some? ==>
                && z.value != 0 && Used() == old(Used()) + {z.value as nat}
                && forall y :: first <= y < z.value ==> y in old(Used())
      ensures !Proper(old(Used()), first, nzones, z) ==> z.Some? && Used() == old(Used())
    {
      hide Bitmap.SetBit, Bitmap.FirstWanted, Bitmap.NothingBehind, UsedIn, Uniform, Chunks.Uniform;
      Bitmap.BitsFit(zmap, Bits());
      var r := Bitmap.ScanWords(zmap, Bits(), 1, true);
      ScanFacts(r);
      if r.None? {
        return None;
      }
      ZoneWritten(zmap, first, nzones, r.value, true);
      zmap := Bitmap.SetBit(zmap, r.value, true);
      z := Some((r.value + first - 1) % 65536);
    }

    /** What the scan of the map means for zones. */
    lemma ScanFacts(r: Option<nat>)
      requires Formed() && if Bits() > 1 then Bitmap.FirstWanted(zmap, Bits(), 1, true, r) else r == None
      ensures r.Some? ==> r.value < |zmap| * Bitmap.WORD_BITS
      ensures if Used() != Range(first, nzones) || Padded() || first == nzones then
                && (r.None? ==> Used() == Range(first, nzones))
                && (r.Some? ==> 1 <= r.value < Bits() && r.value + first - 1 !in Used()
                                && forall y :: first <= y < r.value + first - 1 ==> y in Used())
              else r.Some? && r.value >= Bits() && Used() == Range(first, nzones)
    {
      Bitmap.BitsFit(zmap, Bits());
      hide Bitmap.BitAt, Bitmap.Looked;
      forall i: nat | 1 <= i < Bits() ensures Bitmap.BitAt(zmap, i) <==> i + first - 1 in Used() {
        assert ZoneMarked(zmap, first, nzones, i + first - 1) <==> Bitmap.BitAt(zmap, i);
      }
      assert forall z: nat :: z in Used() ==> Between(first, z, nzones);
      if first < nzones {
        Bitmap.ScanIsPlainIff(zmap, Bits(), 1, true, r);
        if r.Some? {
          Bitmap.LookedInside(zmap, Bits(), r.value);
        }
        if z: nat :| Between(first, z, nzones) && z !in Used() {
          assert !Bitmap.BitAt(zmap, z - first + 1);
        } else {
          assert Used() == Range(first, nzones);
        }
        if r.Some? {
          forall y: nat | first <= y < r.value + first - 1 && r.value < Bits() ensures y in Used() <==>
              Bitmap.BitAt(zmap, y - first + 1) {
            assert y == (y - first + 1) + first - 1;
          }
        }
      }
    }

    /** `free_zone`: zone numbers outside the data area are ignored. */
    method FreeZone(zone: u16)
      requires Formed()
      modifies this`zmap
      ensures Formed() && (Padded() <==> old(Padded())) && Used() == old(Used()) - {zone as nat}
    {
      if first <= zone < nzones {
        Bitmap.BitsFit(zmap, Bits());
        ZoneWritten(zmap, first, nzones, zone - first + 1, false);
        zmap := Bitmap.SetBit(zmap, zone - first + 1, false);
      }
    }

    method WriteZoneTable(zone: u16, table: seq<u16>)
      requires Valid() && zone < nzones && |table| == Per()
      modifies this`disk, dev
      ensures Valid() && Used() == old(Used()) && disk == old(disk)[zone as nat := EncodeTable(table)]
                && TableAt(disk, zone) == table
      ensures forall i :: 0 <= i < Per() ==>
                disk[zone][2 * i] == table[i] % 256 && disk[zone][2 * i + 1] == table[i] / 256
    {
      TableRoundTrip(table);
      forall i | 0 <= i < Per() ensures 2 * i + 1 < |EncodeTable(table)| && EncodeTable(table)[2 * i] == table[i] % 256
          && EncodeTable(table)[2 * i + 1] == table[i] / 256 {
        EncodedAt(table, i);
      }
      assert Splice(disk[zone], 0, EncodeTable(table)) == EncodeTable(table);
      hide Backs;
      WriteInZone(dev, disk, zoneSize, zone, 0, EncodeTable(table));
      disk := disk[zone as nat := EncodeTable(table)];
    }

    /** `read_zone_table`: a zone past the end of the disk is a read error. */
    method ReadZoneTable(zone: u16) returns (t: Option<seq<u16>>)
      requires Valid()
      ensures t == if zone < nzones then Some(TableAt(disk, zone)) else None
      ensures t.Some? ==> |t.value| == Per() && forall i :: 0 <= i < Per() ==>
                t.value[i] == disk[zone][2 * i] as nat + 256 * disk[zone][2 * i + 1] as nat
    {
      var bytes := ReadZone(dev, disk, zoneSize, zone);
      if bytes.None? {
        return None;
      }
      DecodeLength(bytes.value);
      forall i | 0 <= i < Per()
        ensures DecodeTable(bytes.value)[i] == bytes.value[2 * i] as nat + 256 * bytes.value[2 * i + 1] as nat
      {
        DecodedAt(bytes.value, i);
      }
      t := Some(DecodeTable(bytes.value));
    }

    /** A zone that is there is used as it is; otherwise a new one is allocated. */
    method EnsureZone(z: u16) returns (r: Option<u16>)
      requires Valid()
      modifies this`zmap
      ensures Valid()
      ensures r.None? ==> z == 0 && zmap == old(zmap) && |Used()| == nzones - first
      ensures r.Some? ==> Ensured(z, r.value, old(Used()), Used()) && (z == 0 ==> r.value < nzones)
    {
      if z != 0 {
        return Some(z);
      }
      r := AllocZone();
      RangeSize(first, nzones);
    }

    /** The direct entries, one slot after the other. */
    method SetDirect(zone: ZoneArray, zones: seq<u16>) returns (r: ZoneArray)
      ensures r[..DIRECT] == Pad(First(zones), DIRECT) && r[7] == zone[7] && r[8] == zone[8]
    {
      r := zone;
      var i := 0;
      while i < DIRECT
        invariant i <= DIRECT && r[7] == zone[7] && r[8] == zone[8]
        invariant forall k :: 0 <= k < i ==> r[k] == if k < |zones| then zones[k] else 0
      {
        r := r[i := if i < |zones| then zones[i] else 0];
        i := i + 1;
      }
    }

    /** Write one group table, allocating it if its slot is empty. */
    method WriteGroup(dbl: seq<u16>, i: nat, group: seq<u16>, ghost g: Growth)
        returns (dbl': seq<u16>, ok: bool, ghost cur: seq<u16>)
      requires Valid() && g.per == Per() && 0 < |group| <= Per() && i < |g.groups| <= Per() && g.groups[i] == group
      requires InDouble(g, dbl, i, disk, Used()) && forall z :: z in Used() ==> z < nzones
      modifies this`disk, this`zmap, dev
      ensures Valid()
      ensures ok ==> InDouble(g.(cur := cur), dbl', i + 1, disk, Used())
      ensures !ok ==> i >= |g.inds0| && disk == old(disk) && zmap == old(zmap) && |Used()| == nzones - first
    {
      cur := g.cur;
      dbl' := dbl;
      SlotAt(g, dbl, i, disk, Used());
      var ind := EnsureZone(dbl[i]);
      if ind.None? {
        ok := false;
        return;
      }
      dbl' := dbl[i := ind.value];
      WriteZoneTable(ind.value, Pad(group, Per()));
      cur := DoubleStep(g, dbl, i, old(disk), disk, old(Used()), Used(), ind.value);
      ok := true;
    }

    /** The single-indirect table. */
    method WriteSingle(zone: ZoneArray, zones: seq<u16>) returns (zone': ZoneArray, ok: bool)
      requires Valid() && zone[7] < nzones
      modifies this`disk, this`zmap, dev
      ensures Valid()
      ensures !ok ==>
                |zones| > DIRECT && zone[7] == 0 && zone' == zone && disk == old(disk) && zmap == old(zmap)
                && |Used()| == nzones - first
      ensures ok && |zones| <= DIRECT ==> zone' == zone[7 := 0] && disk == old(disk) && zmap == old(zmap)
      ensures ok && |zones| > DIRECT ==>
                && zone' == zone[7 := zone'[7]] && Ensured(zone[7], zone'[7], old(Used()), Used())
                && 0 < zone'[7] < nzones
                && SameOutside(old(disk), disk, {zone'[7] as nat})
                && TableAt(disk, zone'[7]) == Pad(Second(zones, Per()), Per())
    {
      if |zones| <= DIRECT {
        return zone[7 := 0], true;
      }
      var ind := EnsureZone(zone[7]);
      if ind.None? {
        return zone, false;
      }
      zone' := zone[7 := ind.value];
      WriteZoneTable(ind.value, Pad(Second(zones, Per()), Per()));
      ok := true;
    }

    /** Get the double-indirect table ready: allocate and clear it if it is not there, then read it. */
    method OpenDouble(z: u16, ghost inds0: seq<u16>) returns (r: Option<u16>, dbl: seq<u16>)
      requires Valid() && |inds0| <= Per() && z < nzones
      requires if z == 0 then inds0 == [] else TableAt(disk, z) == Pad(inds0, Per())
      modifies this`disk, this`zmap, dev
      ensures Valid()
      ensures r.None? ==> z == 0 && disk == old(disk) && zmap == old(zmap) && |Used()| == nzones - first
      ensures r.Some? ==>
                && Ensured(z, r.value, old(Used()), Used()) && 0 < r.value < nzones
                && SameOutside(old(disk), disk, {r.value as nat}) && dbl == TableAt(disk, r.value) == Pad(inds0, Per())
    {
      hide Pad, TableAt, Zeros, Backs, MinixFs.Used, MinixFs.Padded;
      dbl := [];
      r := Some(z);
      if z == 0 {
        r := NewDouble();
        if r.None? {
          return;
        }
      }
      var t := ReadZoneTable(r.value);
      dbl := t.value;
    }

    /** A new double-indirect table, cleared. */
    method NewDouble() returns (r: Option<u16>)
      requires Valid()
      modifies this`disk, this`zmap, dev
      ensures Valid()
      ensures r.None? ==> disk == old(disk) && zmap == old(zmap) && |Used()| == nzones - first
      ensures r.Some? ==>
                && Ensured(0, r.value, old(Used()), Used()) && 0 < r.value < nzones
                && SameOutside(old(disk), disk, {r.value as nat}) && TableAt(disk, r.value) == Pad([], Per())
    {
      assert Zeros(Per()) == Pad([], Per());
      hide Pad, TableAt, Zeros, Backs, MinixFs.Used, MinixFs.Padded;
      r := EnsureZone(0);
      if r.Some? {
        WriteZoneTable(r.value, Zeros(Per()));
      }
    }

    /** Fill the group tables one after the other. */
    method FillDouble(dbl0: seq<u16>, groups: seq<seq<u16>>, ghost g0: Growth)
        returns (dbl: seq<u16>, ok: bool, ghost g: Growth)
      requires Valid() && g0.per == Per() && g0.groups == groups && InDouble(g0, dbl0, 0, disk, Used())
      requires forall i :: 0 <= i < |groups| ==> 0 < |groups[i]| <= Per()
      modifies this`disk, this`zmap, dev
      ensures Valid() && g == g0.(cur := g.cur)
      ensures ok ==> InDouble(g, dbl, |groups|, disk, Used())
      ensures !ok ==>
                exists i :: |g.inds0| <= i < |groups| && InDouble(g, dbl, i, disk, Used()) && |Used()| == nzones - first
    {
      hide InDouble;
      dbl := dbl0;
      g := g0;
      GrowthFacts(g, dbl, 0, disk, Used());
      var i := 0;
      while i < |groups| && i < Per()
        invariant i <= |groups| <= Per() && Valid() && g == g0.(cur := g.cur) && InDouble(g, dbl, i, disk, Used())
      {
        ghost var cur;
        UsedInRange();
        var dbl', more;
        dbl', more, cur := WriteGroup(dbl, i, groups[i], g);
        if !more {
          ok := false;
          return;
        }
        dbl := dbl';
        g := g.(cur := cur);
        i := i + 1;
      }
      ok := true;
    }

    /** The double-indirect table and the group tables behind it. */
    method WriteDouble(zone: ZoneArray, zones: seq<u16>, ghost inds0: seq<u16>, ghost others: set<nat>)
      returns (zone': ZoneArray, ok: bool, ghost inds: seq<u16>)
      requires Valid() && Per() > 0 && GroupCount(|Third(zones, Per())|, Per()) <= Per()
      requires DoubleBefore(Per(), zone[8], inds0, GroupCount(|Third(zones, Per())|, Per()), others, disk, Used())
      modifies this`disk, this`zmap, dev
      ensures Valid() && zone' == zone[8 := zone'[8]]
      ensures ok && |zones| <= DIRECT + Per() ==> zone'[8] == 0 && inds == [] && disk == old(disk) && zmap == old(zmap)
      ensures ok && |zones| > DIRECT + Per() ==>
                DoubleAfter(Per(), zone[8], zone'[8], inds0, inds, Groups(Third(zones, Per()), Per()), others,
                    old(disk), disk, old(Used()), Used())
      ensures !ok ==>
                && |zones| > DIRECT + Per() && |Used()| == nzones - first
                && DoubleFailed(Per(), zone[8], zone'[8], inds0, inds, Groups(Third(zones, Per()), Per()), others,
                     old(disk), disk, old(Used()), Used())
    {
      hide InDouble, Groups, GroupCount, DoubleBefore, DoubleAfter, DoubleFailed, SameOutside, MinixFs.Used, TableAt,
          Pad, EncodeTable, MinixSpec.Third;
      if |zones| <= DIRECT + Per() {
        return zone[8 := 0], true, [];
      }
      UsedInRange();
      ThirdNonempty(zones, Per());
      BeforeFacts(Per(), zone[8], inds0, GroupCount(|Third(zones, Per())|, Per()), others, disk, Used());
      var groups := Groups(Third(zones, Per()), Per());
      var z, dbl := OpenDouble(zone[8], inds0);
      if z.None? {
        NothingOpened(Per(), zone[8], inds0, groups, others, disk, Used());
        return zone, false, [];
      }
      zone' := zone[8 := z.value];
      ghost var g := Growth(Per(), inds0, groups, disk, Used(), others + {z.value as nat}, inds0);
      DoubleStart(g, zone[8], z.value, others, old(disk), disk, old(Used()), Used());
      ghost var disk1, used1 := disk, Used();
      dbl, ok, g := FillDouble(dbl, groups, g);
      inds := g.cur;
      if !ok {
        DoubleStopped(g, dbl, zone[8], z.value, inds0, groups, others, old(disk), disk1, disk, old(Used()), used1,
            Used());
        return;
      }
      ghost var disk2 := disk;
      DoubleLength(g, dbl, disk, Used());
      WriteZoneTable(z.value, dbl);
      DoubleDone(g, dbl, zone[8], z.value, inds0, groups, others, old(disk), disk1, disk2, disk, old(Used()), used1,
          Used());
    }

    /**
     `write_file_zones`: grow a file's zone list from `zs0` to `zones`.  It works exactly if there
     are enough free zones for the tables; if not, the list cannot be read back.
     */
    method WriteFileZones(zone: ZoneArray, zones: seq<u16>, ghost zs0: seq<u16>, ghost inds0: seq<u16>)
      returns (zone': ZoneArray, ghost inds: seq<u16>, ghost ok: bool)
      requires Valid() && FileOk(disk, Per(), zone, zs0, inds0, Used()) && Grows(Per(), zone, zs0, inds0, zones, Used())
      modifies this`disk, this`zmap, dev
      ensures Valid()
      ensures ok <==> |old(Used())| + MetaCount(|zones|, Per()) - MetaCount(|zs0|, Per()) <= nzones - first
      ensures ok ==> FileOk(disk, Per(), zone', zones, inds, Used())
      ensures ok ==> Used() == old(Used()) + Meta(zone', inds) && Meta(zone', inds) - Meta(zone, inds0) !! old(Used())
      ensures !ok ==> CannotReach(disk, Per(), zone', zones)
      ensures old(Used()) <= Used()
      ensures forall z :: z in old(Used()) - Meta(zone, inds0) ==> disk[z] == old(disk[z])
    {
      hide FileOk, Grows, DoubleBefore, DoubleAfter, DoubleFailed, SingleAfter, SameOutside, MinixFs.Used, TableAt, Pad,
          EncodeTable, Meta, DataZones, MinixSpec.Second;
      ghost var s0 := Snap(disk, Used());
      OpenFacts(Per(), zone, zs0, inds0, zones, s0);
      UsedInRange();
      zone' := SetDirect(zone, zones);
      ghost var direct := zone';
      var more;
      zone', more := WriteSingle(zone', zones);
      inds := [];
      if !more {
        ok := false;
        SingleFailed(Per(), zone, zs0, inds0, zones, zone', s0);
        return;
      }
      ghost var s1 := Snap(disk, Used());
      ghost var single := zone';
      SingleDone(Per(), zone, single, zones, s0, s1);
      SingleThenDouble(Per(), zone, zs0, inds0, zones, single, s0, s1);
      zone', more, inds := WriteDouble(zone', zones, inds0, Others(zones, zone'[7]));
      ok := more;
      ghost var s2 := Snap(disk, Used());
      if ok {
        FileWritten(Per(), zone, zs0, inds0, zones, single, zone', inds, s0, s1, s2);
        UsedSize();
      } else {
        FileStopped(Per(), zone, zs0, inds0, zones, single, zone', inds, s0, s1, s2);
      }
      OthersKept(s0, s2.disk, zone, inds0, zone', inds);
    }

    /** `zone_table`: the table up to its first zero; no zone, no table. */
    method ReadTable(zone: u16) returns (t: Option<seq<u16>>)
      requires Valid()
      ensures t == if zone < nzones then Some(ZoneTable(disk, zone)) else None
    {
      if zone == 0 {
        return Some([]);
      }
      var full := ReadZoneTable(zone);
      if full.None? {
        return None;
      }
      var i := 0;
      while i < |full.value| && full.value[i] != 0
        invariant i <= |full.value| && NonzeroPrefix(full.value) == full.value[..i] + NonzeroPrefix(full.value[i..])
      {
        PrefixStep(full.value, i);
        i := i + 1;
      }
      if i < |full.value| {
        PrefixStep(full.value, i);
      } else {
        assert full.value[i..] == [];
      }
      assert NonzeroPrefix(full.value) == full.value[..i];
      t := Some(full.value[..i]);
    }

    /** `data_zones`; None when a table lies outside the disk. */
    method ReadZones(zone: ZoneArray) returns (r: Option<seq<u16>>)
      requires Valid()
      ensures r.Some? ==> r.value == DataZones(disk, zone)
      ensures r.None? <==> Unreadable(disk, zone)
    {
      var direct := ReadDirect(zone);
      if |direct| < DIRECT {
        return Some(direct);
      }
      var single := ReadTable(zone[7]);
      if single.None? {
        return None;
      }
      var inds := ReadTable(zone[8]);
      if inds.None? {
        return None;
      }
      var rest := ReadTables(inds.value);
      if rest.None? {
        return None;
      }
      return Some(direct + single.value + rest.value);
    }

    method ReadDirect(zone: ZoneArray) returns (direct: seq<u16>)
      ensures direct == NonzeroPrefix(zone[..DIRECT])
    {
      hide NonzeroPrefix, MinixSpec.NonzeroPrefix;
      var i := 0;
      direct := [];
      ghost var slots := zone[..DIRECT];
      assert slots[0..] == slots;
      while i < DIRECT
        invariant i <= DIRECT && NonzeroPrefix(slots) == direct + NonzeroPrefix(slots[i..])
      {
        PrefixOfRest(slots, i);
        if zone[i] == 0 {
          return;
        }
        direct := direct + [zone[i]];
        i := i + 1;
      }
      PrefixOfNone(slots);
    }

    /** The tables of several zones, end to end. */
    method ReadTables(inds: seq<u16>) returns (r: Option<seq<u16>>)
      requires Valid()
      ensures r.None? <==> !forall i :: 0 <= i < |inds| ==> inds[i] < nzones
      ensures r.Some? ==> r.value == TablesOf(disk, inds)
    {
      var all: seq<u16> := [];
      var i := 0;
      assert inds[0..] == inds;
      while i < |inds|
        invariant i <= |inds| && TablesOf(disk, inds) == all + TablesOf(disk, inds[i..])
        invariant forall j :: 0 <= j < i ==> inds[j] < nzones
      {
        var t := ReadTable(inds[i]);
        if t.None? {
          return None;
        }
        assert inds[i..][1..] == inds[i + 1..];
        all := all + t.value;
        i := i + 1;
      }
      r := Some(all);
    }

    /** Clear the bits of several zones. */
    method FreeZones(zs: seq<u16>)
      requires Valid()
      modifies this`zmap
      ensures Valid() && Used() == old(Used()) - ZonesIn(zs)
    {
      var i := 0;
      assert ZonesIn(zs[..0]) == {};
      while i < |zs|
        invariant i <= |zs| && Valid() && Used() == old(Used()) - ZonesIn(zs[..i])
      {
        FreeZone(zs[i]);
        ZonesInAppend(zs[..i], zs[i]);
        assert zs[..i + 1] == zs[..i] + [zs[i]];
        i := i + 1;
      }
      assert zs[..i] == zs;
    }

    /** `free_inode_blocks_at`: give back exactly the file's data zones and tables. */
    method FreeInodeBlocks(zone: ZoneArray, ghost zs: seq<u16>, ghost inds: seq<u16>) returns (ok: bool)
      requires Valid() && FileOk(disk, Per(), zone, zs, inds, Used())
      modifies this`zmap
      ensures ok && Valid() && Used() == old(Used()) - ZonesIn(zs) - Meta(zone, inds)
    {
      hide FileOk, Meta, MinixFs.Used, ZonesIn, DataZones, ZoneTable, Unreadable;
      UsedInRange();
      FileTables(disk, Per(), zone, zs, inds, Used());
      var data := ReadZones(zone);
      if data.None? {
        return false;
      }
      FreeZones(data.value);
      if zone[7] != 0 {
        FreeZone(zone[7]);
      }
      if zone[8] != 0 {
        var t := ReadTable(zone[8]);
        if t.None? {
          return false;
        }
        FreeZones(t.value);
        FreeZone(zone[8]);
      }
      AllFreed(zone, inds);
      ok := true;
    }

    lemma UsedSize()
      requires Valid()
      ensures |Used()| <= nzones - first
    {
      RangeSize(first, nzones);
      assert Used() <= Range(first, nzones);
      SubsetSize(Used(), Range(first, nzones));
    }

    lemma UsedInRange()
      requires Valid()
      ensures forall z :: z in Used() ==> z < nzones
    {
    }
  }

  lemma PrefixOfRest(t: seq<u16>, i: nat)
    requires i < |t|
    ensures NonzeroPrefix(t[i..]) == if t[i] == 0 then [] else [t[i]] + NonzeroPrefix(t[i + 1..])
  {
    assert t[i..][1..] == t[i + 1..];
  }

  lemma PrefixOfNone(t: seq<u16>)
    ensures NonzeroPrefix(t[|t|..]) == []
  {
  }

  /** `z` if it is a zone already, else a newly allocated one. */
  ghost predicate Ensured(z: u16, r: u16, used0: set<nat>, used: set<nat>) {
    if z != 0 then r == z && used == used0
    else r != 0 && r as nat !in used0 && used == used0 + {r as nat} && |used| == |used0| + 1
  }

  /** Zones outside `touched` hold what they held. */
  ghost predicate SameOutside(disk0: Disk, disk: Disk, touched: set<nat>) {
    |disk| == |disk0| && forall z :: 0 <= z < |disk| && z !in touched ==> disk[z] == disk0[z]
  }

  /** Filling the double-indirect table: what it had, what it is to hold, and what it has now. */
  datatype Growth = Growth(per: nat, inds0: seq<u16>, groups: seq<seq<u16>>, disk0: Disk, used0: set<nat>,
      others: set<nat>, cur: seq<u16>)

  /** The table in memory: what was there, then what has been added. */
  ghost predicate DoubleShape(g: Growth, dbl: seq<u16>, i: nat) {
    && i <= |g.groups| <= g.per && |g.inds0| <= |g.groups| && g.inds0 <= g.cur
    && |g.cur| == (if i < |g.inds0| then |g.inds0| else i)
    && dbl == Pad(g.cur, g.per) && AllNonzero(g.cur) && Distinct(g.cur)
  }

  ghost predicate GroupsWritten(g: Growth, i: nat, disk: Disk)
    requires i <= |g.groups| && i <= |g.cur|
  {
    forall j :: 0 <= j < i ==> |g.groups[j]| <= g.per && TableAt(disk, g.cur[j]) == Pad(g.groups[j], g.per)
  }

  /** Exactly the group tables have become used. */
  ghost predicate OnlyGroups(g: Growth, used: set<nat>) {
    && ZonesIn(g.cur) !! g.others && g.others <= g.used0 && ZonesIn(g.inds0) <= g.used0
    && used == g.used0 + ZonesIn(g.cur) && |used| == |g.used0| + |g.cur| - |g.inds0|
    && ZonesIn(g.cur) - ZonesIn(g.inds0) !! g.used0
  }

  /** The first `i` groups are written. */
  ghost predicate InDouble(g: Growth, dbl: seq<u16>, i: nat, disk: Disk, used: set<nat>) {
    DoubleShape(g, dbl, i) && GroupsWritten(g, i, disk) && OnlyGroups(g, used)
        && SameOutside(g.disk0, disk, ZonesIn(g.cur))
  }

  lemma SlotAt(g: Growth, dbl: seq<u16>, i: nat, disk: Disk, used: set<nat>)
    requires InDouble(g, dbl, i, disk, used) && i < |g.groups|
    ensures i < |dbl| && (dbl[i] != 0 <==> i < |g.inds0|)
              && (i < |g.inds0| ==> dbl[i] == g.cur[i] && dbl[i] as nat in used)
  {
    if i < |g.inds0| {
      assert g.cur[i] as nat in ZonesIn(g.cur);
    }
  }

  lemma TableElsewhere(disk: Disk, ind: nat, bytes: seq<byte>, z: nat)
    requires ind < |disk| && z != ind
    ensures TableAt(disk[ind := bytes], z) == TableAt(disk, z)
  {
  }

  lemma DoubleStep(g: Growth, dbl: seq<u16>, i: nat, disk: Disk, disk': Disk, used: set<nat>, used': set<nat>, ind: u16)
      returns (cur: seq<u16>)
    requires InDouble(g, dbl, i, disk, used) && i < |g.groups| && |g.groups[i]| <= g.per && i < |dbl|
              && Ensured(dbl[i], ind, used, used')
    requires ind as nat < |disk| && disk' == disk[ind as nat := EncodeTable(Pad(g.groups[i], g.per))]
              && TableAt(disk', ind) == Pad(g.groups[i], g.per)
    ensures InDouble(g.(cur := cur), dbl[i := ind], i + 1, disk', used')
  {
    hide InDouble;
    SlotAt(g, dbl, i, disk, used);
    if i < |g.inds0| {
      cur := g.cur;
      DoubleReuse(g, dbl, i, disk, disk', used, ind);
    } else {
      cur := g.cur + [ind];
      DoubleAppend(g, dbl, i, disk, disk', used, used', ind);
    }
  }

  /** A group table that was there already is overwritten. */
  lemma DoubleReuse(g: Growth, dbl: seq<u16>, i: nat, disk: Disk, disk': Disk, used: set<nat>, ind: u16)
    requires InDouble(g, dbl, i, disk, used) && i < |g.inds0| && |g.groups[i]| <= g.per && i < |dbl|
              && ind == dbl[i] == g.cur[i]
    requires ind as nat < |disk| && disk' == disk[ind as nat := EncodeTable(Pad(g.groups[i], g.per))]
              && TableAt(disk', ind) == Pad(g.groups[i], g.per)
    ensures InDouble(g, dbl[i := ind], i + 1, disk', used)
  {
    hide EncodeTable, TableAt, Pad, AllNonzero;
    assert dbl[i := ind] == dbl;
    assert ind as nat in ZonesIn(g.cur);
    forall j | 0 <= j < i ensures TableAt(disk', g.cur[j]) == Pad(g.groups[j], g.per) {
      TableElsewhere(disk, ind as nat, EncodeTable(Pad(g.groups[i], g.per)), g.cur[j]);
    }
  }

  /** A group table that was not there is appended. */
  lemma DoubleAppend(g: Growth, dbl: seq<u16>, i: nat, disk: Disk, disk': Disk, used: set<nat>, used': set<nat>,
      ind: u16)
    requires InDouble(g, dbl, i, disk, used) && |g.inds0| <= i < |g.groups| && |g.groups[i]| <= g.per
              && Ensured(0, ind, used, used')
    requires ind as nat < |disk| && disk' == disk[ind as nat := EncodeTable(Pad(g.groups[i], g.per))]
              && TableAt(disk', ind) == Pad(g.groups[i], g.per)
    ensures i < |dbl| && InDouble(g.(cur := g.cur + [ind]), dbl[i := ind], i + 1, disk', used')
  {
    hide DoubleShape, GroupsWritten, OnlyGroups, SameOutside, EncodeTable, TableAt, Pad;
    FreshGroup(g, used, used', ind);
    AppendShape(g, dbl, i, ind);
    AppendWritten(g, dbl, i, disk, disk', ind, EncodeTable(Pad(g.groups[i], g.per)));
  }

  lemma FreshGroup(g: Growth, used: set<nat>, used': set<nat>, ind: u16)
    requires OnlyGroups(g, used) && Ensured(0, ind, used, used')
    ensures OnlyGroups(g.(cur := g.cur + [ind]), used') && ind as nat !in ZonesIn(g.cur)
  {
    ZonesInAppend(g.cur, ind);
  }

  lemma AppendWritten(g: Growth, dbl: seq<u16>, i: nat, disk: Disk, disk': Disk, ind: u16, bytes: seq<byte>)
    requires DoubleShape(g, dbl, i) && GroupsWritten(g, i, disk) && |g.inds0| <= i < |g.groups|
              && SameOutside(g.disk0, disk, ZonesIn(g.cur))
    requires |g.groups[i]| <= g.per && ind as nat !in ZonesIn(g.cur) && ind as nat < |disk|
              && disk' == disk[ind as nat := bytes]
    requires TableAt(disk', ind) == Pad(g.groups[i], g.per)
    ensures GroupsWritten(g.(cur := g.cur + [ind]), i + 1, disk') && SameOutside(g.disk0, disk', ZonesIn(g.cur + [ind]))
  {
    hide TableAt, Pad;
    var cur := g.cur + [ind];
    ZonesInAppend(g.cur, ind);
    forall j | 0 <= j < i ensures TableAt(disk', cur[j]) == Pad(g.groups[j], g.per) {
      assert g.cur[j] as nat in ZonesIn(g.cur);
      TableElsewhere(disk, ind as nat, bytes, cur[j]);
    }
  }

  lemma AppendShape(g: Growth, dbl: seq<u16>, i: nat, ind: u16)
    requires DoubleShape(g, dbl, i) && |g.inds0| <= i < |g.groups| && ind != 0 && ind as nat !in ZonesIn(g.cur)
    ensures i < |dbl| && DoubleShape(g.(cur := g.cur + [ind]), dbl[i := ind], i + 1)
  {
    AppendDistinct(g.cur, ind);
    assert dbl[i := ind] == Pad(g.cur + [ind], g.per);
  }

  lemma AppendDistinct(s: seq<u16>, z: u16)
    requires Distinct(s) && z as nat !in ZonesIn(s)
    ensures Distinct(s + [z]) && forall j :: 0 <= j < |s| ==> s[j] != z
  {
    forall j | 0 <= j < |s| ensures s[j] != z {
      assert s[j] as nat in ZonesIn(s);
    }
  }

  lemma GrowthFacts(g: Growth, dbl: seq<u16>, i: nat, disk: Disk, used: set<nat>)
    requires InDouble(g, dbl, i, disk, used)
    ensures |g.groups| <= g.per && |g.inds0| <= |g.groups|
  {
  }

  /** What the file has before its double-indirect part is written; `others` are the file's other zones. */
  ghost predicate DoubleBefore(per: nat, z8: u16, inds0: seq<u16>, count: nat, others: set<nat>, disk: Disk,
      used: set<nat>) {
    && |inds0| <= count && count <= per && AllNonzero(inds0) && Distinct(inds0) && others <= used
    && ZonesIn(inds0) <= used && ZonesIn(inds0) !! others
    && (if z8 == 0 then inds0 == []
        else
          && z8 as nat in used && z8 as nat !in others && z8 as nat !in ZonesIn(inds0)
          && TableAt(disk, z8) == Pad(inds0, per))
  }

  /** The double-indirect part, written: tables in place, nothing else touched, exactly the new tables now used. */
  ghost predicate DoubleAfter(per: nat, z8: u16, z8': u16, inds0: seq<u16>, inds: seq<u16>, groups: seq<seq<u16>>,
      others: set<nat>, disk0: Disk, disk: Disk, used0: set<nat>, used: set<nat>) {
    && z8' != 0 && z8' as nat !in others && z8' as nat !in ZonesIn(inds) && ZonesIn(inds) !! others && Distinct(inds)
    && |inds| <= per
    && Holds(disk, per, inds, groups) && TableAt(disk, z8') == Pad(inds, per)
    && SameOutside(disk0, disk, {z8' as nat} + ZonesIn(inds))
    && used == used0 + {z8' as nat} + ZonesIn(inds) && |used| == |used0| + (if z8 == 0 then 1 else 0) + |inds| - |inds0|
    && ZonesIn(inds) - ZonesIn(inds0) !! used0 && (z8' == z8 || z8' as nat !in used0)
  }

  /** The disk ran full: fewer tables than groups can be reached, and too few zones were free. */
  ghost predicate DoubleFailed(per: nat, z8: u16, z8': u16, inds0: seq<u16>, inds: seq<u16>, groups: seq<seq<u16>>,
      others: set<nat>, disk0: Disk, disk: Disk, used0: set<nat>, used: set<nat>) {
    && |used| < |used0| + (if z8 == 0 then 1 else 0) + |groups| - |inds0|
    && |ZoneTable(disk, z8')| < |groups|
    && ({z8' as nat} - {0} + ZonesIn(inds)) !! others && SameOutside(disk0, disk, {z8' as nat} - {0} + ZonesIn(inds))
    && used0 <= used && ZonesIn(inds) - ZonesIn(inds0) !! used0 && (z8' == z8 || z8' as nat !in used0)
  }

  lemma BeforeFacts(per: nat, z8: u16, inds0: seq<u16>, count: nat, others: set<nat>, disk: Disk, used: set<nat>)
    requires DoubleBefore(per, z8, inds0, count, others, disk, used)
    ensures |inds0| <= per && AllNonzero(inds0) && others <= used
    ensures if z8 == 0 then inds0 == []
            else TableAt(disk, z8) == Pad(inds0, per) && z8 as nat in used && z8 as nat !in others
  {
  }

  lemma ThirdNonempty(zones: seq<u16>, per: nat)
    requires per > 0 && |zones| > DIRECT + per
    ensures |Groups(Third(zones, per), per)| == GroupCount(|Third(zones, per)|, per) > 0
    ensures forall i :: 0 <= i < |Groups(Third(zones, per), per)| ==> 0 < |Groups(Third(zones, per), per)[i]| <= per
  {
    GroupsAre(Third(zones, per), per);
  }

  lemma NothingOpened(per: nat, z8: u16, inds0: seq<u16>, groups: seq<seq<u16>>, others: set<nat>, disk: Disk,
      used: set<nat>)
    requires DoubleBefore(per, z8, inds0, |groups|, others, disk, used) && z8 == 0 && |groups| > 0
    ensures DoubleFailed(per, z8, z8, inds0, [], groups, others, disk, disk, used, used)
  {
    assert ZonesIn([]) == {};
  }

  lemma DoubleStart(g: Growth, z8: u16, z: u16, others: set<nat>, disk0: Disk, disk: Disk, used0: set<nat>,
      used: set<nat>)
    requires DoubleBefore(g.per, z8, g.inds0, |g.groups|, others, disk0, used0) && Ensured(z8, z, used0, used)
    requires g == Growth(g.per, g.inds0, g.groups, disk, used, others + {z as nat}, g.inds0)
    ensures InDouble(g, Pad(g.inds0, g.per), 0, disk, used)
  {
    assert used == g.used0 + ZonesIn(g.inds0);
  }

  lemma DoubleLength(g: Growth, dbl: seq<u16>, disk: Disk, used: set<nat>)
    requires InDouble(g, dbl, |g.groups|, disk, used)
    ensures |dbl| == g.per
  {
  }

  lemma DoubleDone(g: Growth, dbl: seq<u16>, z8: u16, z: u16, inds0: seq<u16>, groups: seq<seq<u16>>, others: set<nat>,
                   disk0: Disk, disk1: Disk, disk2: Disk, disk: Disk, used0: set<nat>, used1: set<nat>, used: set<nat>)
    requires InDouble(g, dbl, |groups|, disk2, used) && g.groups == groups && g.inds0 == inds0 && g.disk0 == disk1
              && g.used0 == used1 && g.others == others + {z as nat}
    requires Ensured(z8, z, used0, used1) && z != 0 && z as nat < |disk2| && SameOutside(disk0, disk1, {z as nat})
              && (z8 != 0 ==> z as nat in used0)
    requires (z as nat) !in others
    requires disk == disk2[z as nat := EncodeTable(dbl)] && TableAt(disk, z) == dbl
    ensures DoubleAfter(g.per, z8, z, inds0, g.cur, groups, others, disk0, disk, used0, used)
  {
    hide EncodeTable, TableAt;
    assert z as nat in g.others;
    forall i | 0 <= i < |g.cur| ensures TableAt(disk, g.cur[i]) == Pad(groups[i], g.per) {
      assert g.cur[i] as nat in ZonesIn(g.cur);
      TableElsewhere(disk2, z as nat, EncodeTable(dbl), g.cur[i]);
    }
  }

  lemma DoubleStopped(g: Growth, dbl: seq<u16>, z8: u16, z: u16, inds0: seq<u16>, groups: seq<seq<u16>>,
      others: set<nat>, disk0: Disk, disk1: Disk, disk: Disk, used0: set<nat>, used1: set<nat>, used: set<nat>)
    requires exists i :: |inds0| <= i < |groups| && InDouble(g, dbl, i, disk, used)
    requires g.groups == groups && g.inds0 == inds0 && g.disk0 == disk1 && g.used0 == used1
              && g.others == others + {z as nat}
    requires Ensured(z8, z, used0, used1) && z != 0 && SameOutside(disk0, disk1, {z as nat})
              && TableAt(disk1, z) == Pad(inds0, g.per) && (z as nat) !in others
    requires AllNonzero(inds0) && z as nat < |disk1| && |inds0| <= g.per
    ensures DoubleFailed(g.per, z8, z, inds0, g.cur, groups, others, disk0, disk, used0, used)
  {
    var i :| |inds0| <= i < |groups| && InDouble(g, dbl, i, disk, used);
    assert z as nat in g.others && disk[z as nat] == disk1[z as nat];
    PrefixOfPad(inds0, g.per);
  }

  // ----- whole files -----

  /** The zones that hold a file's tables. */
  ghost function Meta(zone: ZoneArray, inds: seq<u16>): set<nat> {
    {zone[7] as nat, zone[8] as nat} - {0} + ZonesIn(inds)
  }

  /** Every zone of the file is used, and has one place in it. */
  ghost predicate Owns(zone: ZoneArray, zs: seq<u16>, inds: seq<u16>, used: set<nat>) {
    && Distinct(zs) && Distinct(inds) && ZonesIn(zs) !! Meta(zone, inds) && ZonesIn(zs) <= used
    && Meta(zone, inds) <= used
    && (zone[7] != 0 ==> zone[7] as nat !in ZonesIn(inds) && zone[7] != zone[8])
    && (zone[8] != 0 ==> zone[8] as nat !in ZonesIn(inds))
  }

  ghost predicate FileOk(disk: Disk, per: nat, zone: ZoneArray, zs: seq<u16>, inds: seq<u16>, used: set<nat>) {
    per > 0 && Represents(disk, per, zone, zs, inds) && Owns(zone, zs, inds, used)
  }

  /** `zones` extends `zs0` by used zones that the file does not use yet, within what an inode can reach. */
  ghost predicate Grows(per: nat, zone: ZoneArray, zs0: seq<u16>, inds0: seq<u16>, zones: seq<u16>, used: set<nat>) {
    && zs0 <= zones && AllNonzero(zones) && Distinct(zones) && ZonesIn(zones) <= used
    && ZonesIn(zones) !! Meta(zone, inds0)
    && per > 0 && GroupCount(|Third(zones, per)|, per) <= per
  }

  /** How many tables a file of `n` zones needs. */
  function MetaCount(n: nat, per: nat): nat
    requires per > 0
  {
    (if n <= DIRECT then 0 else 1) + if n <= DIRECT + per then 0 else 1 + GroupCount(n - DIRECT - per, per)
  }

  datatype Snap = Snap(disk: Disk, used: set<nat>)

  ghost function Others(zones: seq<u16>, z7: u16): set<nat> { ZonesIn(zones) + ({z7 as nat} - {0}) }

  /** The single-indirect part, written. */
  ghost predicate SingleAfter(per: nat, z7: u16, z7': u16, zones: seq<u16>, s0: Snap, s: Snap) {
    if |zones| <= DIRECT then z7' == 0 && s == s0
    else
      && Ensured(z7, z7', s0.used, s.used) && z7' != 0 && SameOutside(s0.disk, s.disk, {z7' as nat})
      && TableAt(s.disk, z7') == Pad(Second(zones, per), per)
  }

  lemma OpenFacts(per: nat, zone: ZoneArray, zs0: seq<u16>, inds0: seq<u16>, zones: seq<u16>, s0: Snap)
    requires FileOk(s0.disk, per, zone, zs0, inds0, s0.used) && Grows(per, zone, zs0, inds0, zones, s0.used)
    ensures per > 0 && GroupCount(|Third(zones, per)|, per) <= per
    ensures (zone[7] != 0 ==> zone[7] as nat in s0.used) && (zone[8] != 0 ==> zone[8] as nat in s0.used)
  {
    assert zone[7] != 0 ==> zone[7] as nat in Meta(zone, inds0);
    assert zone[8] != 0 ==> zone[8] as nat in Meta(zone, inds0);
  }

  lemma SingleDone(per: nat, zone: ZoneArray, single: ZoneArray, zones: seq<u16>, s0: Snap, s1: Snap)
    requires |zones| <= DIRECT ==> single[7] == 0 && s1 == s0
    requires |zones| > DIRECT ==>
               && Ensured(zone[7], single[7], s0.used, s1.used) && 0 < single[7]
               && SameOutside(s0.disk, s1.disk, {single[7] as nat})
               && TableAt(s1.disk, single[7]) == Pad(Second(zones, per), per)
    ensures SingleAfter(per, zone[7], single[7], zones, s0, s1)
  {
  }

  lemma {:induction false} PrefixShorter(t: seq<u16>)
    ensures |NonzeroPrefix(t)| <= |t|
  {
    if t != [] && t[0] != 0 {
      PrefixShorter(t[1..]);
    }
  }

  lemma {:induction false} GroupCountGrows(a: nat, b: nat, per: nat)
    requires per > 0 && a <= b
    ensures GroupCount(a, per) <= GroupCount(b, per)
    decreases a
  {
    if a > 0 {
      GroupCountGrows(a - Min(per, a), b - Min(per, b), per);
    }
  }

  /** No single-indirect table: at most the direct zones can be read back. */
  lemma SingleFailed(per: nat, zone: ZoneArray, zs0: seq<u16>, inds0: seq<u16>, zones: seq<u16>, zone': ZoneArray,
      s0: Snap)
    requires FileOk(s0.disk, per, zone, zs0, inds0, s0.used) && Grows(per, zone, zs0, inds0, zones, s0.used)
    requires |zones| > DIRECT && zone[7] == 0 && zone'[7] == 0 && zone'[8] == zone[8]
    ensures CannotReach(s0.disk, per, zone', zones) && MetaCount(|zones|, per) > MetaCount(|zs0|, per)
  {
    hide TableAt, Holds, GroupCount, Owns;
  }

  /** The inode leads to fewer zones than the list has, whatever its data zones hold. */
  ghost predicate CannotReach(disk: Disk, per: nat, zone: ZoneArray, zones: seq<u16>)
    requires per > 0
  {
    || (|zones| > DIRECT && zone[7] == 0 && zone[8] == 0)
    || (|zones| > DIRECT + per && |ZoneTable(disk, zone[8])| < |Groups(Third(zones, per), per)|
         && zone[8] as nat !in ZonesIn(zones))
  }

  lemma CannotReadBack(disk: Disk, per: nat, zone: ZoneArray, zones: seq<u16>)
    requires per > 0 && Uniform(disk, 2 * per) && CannotReach(disk, per, zone, zones)
    ensures DataZones(disk, zone) != zones
  {
    hide ZoneTable, NonzeroPrefix, Groups;
    if zone[7] == 0 && zone[8] == 0 && |zones| > DIRECT {
      PrefixShorter(zone[..DIRECT]);
      assert ZoneTable(disk, 0) == [] && TablesOf(disk, []) == [] by { NoTable(disk); }
    } else {
      TooFewTables(disk, per, zone, zones);
    }
  }

  lemma NoTable(disk: Disk)
    ensures ZoneTable(disk, 0) == [] && TablesOf(disk, []) == []
  {
  }

  lemma SingleThenDouble(per: nat, zone: ZoneArray, zs0: seq<u16>, inds0: seq<u16>, zones: seq<u16>, single: ZoneArray,
      s0: Snap, s1: Snap)
    requires FileOk(s0.disk, per, zone, zs0, inds0, s0.used) && Grows(per, zone, zs0, inds0, zones, s0.used)
    requires SingleAfter(per, zone[7], single[7], zones, s0, s1) && single[8] == zone[8]
    ensures DoubleBefore(per, single[8], inds0, GroupCount(|Third(zones, per)|, per), Others(zones, single[7]), s1.disk,
              s1.used)
  {
    hide GroupCount, Pad, EncodeTable, DecodeTable;
    GroupsAre(Third(zs0, per), per);
    GroupCountGrows(|Third(zs0, per)|, |Third(zones, per)|, per);
    HoldsNonzero(s0.disk, per, inds0, Groups(Third(zs0, per), per));
    SingleApart(zone, zs0, inds0, zones, single[7], s0, s1, per);
    if zone[8] != 0 {
      assert zone[8] as nat in Meta(zone, inds0);
      assert |zs0| > DIRECT + per;
      SameTable(s0.disk, s1.disk, {single[7] as nat} - {0}, zone[8]);
    } else {
      assert inds0 == [];
    }
  }

  lemma SameTable(disk0: Disk, disk: Disk, touched: set<nat>, z: u16)
    requires SameOutside(disk0, disk, touched) && z as nat !in touched
    ensures TableAt(disk, z) == TableAt(disk0, z)
  {
  }

  /** The single-indirect table is none of the file's other zones. */
  lemma SingleApart(zone: ZoneArray, zs0: seq<u16>, inds0: seq<u16>, zones: seq<u16>, z7: u16, s0: Snap, s1: Snap,
      per: nat)
    requires Owns(zone, zs0, inds0, s0.used) && Grows(per, zone, zs0, inds0, zones, s0.used)
              && SingleAfter(per, zone[7], z7, zones, s0, s1)
    ensures Others(zones, z7) <= s1.used && ZonesIn(inds0) <= s1.used && ZonesIn(inds0) !! Others(zones, z7)
    ensures zone[8] != 0 ==> zone[8] as nat in s1.used && zone[8] as nat !in Others(zones, z7)
    ensures z7 != 0 ==> z7 as nat !in ZonesIn(zones)
    ensures SameOutside(s0.disk, s1.disk, {z7 as nat} - {0}) && s1.used == s0.used + ({z7 as nat} - {0})
    ensures |s1.used| == |s0.used| + if |zones| > DIRECT && zone[7] == 0 then 1 else 0
  {
    hide TableAt, Pad, AllNonzero, GroupCount, ZonesIn, Distinct, SameOutside, SingleAfter, Ensured;
    assert zone[7] != 0 ==> zone[7] as nat in Meta(zone, inds0);
    assert zone[8] != 0 ==> zone[8] as nat in Meta(zone, inds0);
    SingleFrame(per, zone[7], z7, zones, s0, s1);
  }

  lemma SingleFrame(per: nat, z7: u16, z7': u16, zones: seq<u16>, s0: Snap, s1: Snap)
    requires SingleAfter(per, z7, z7', zones, s0, s1) && (z7 != 0 ==> z7 as nat in s0.used)
    ensures SameOutside(s0.disk, s1.disk, {z7' as nat} - {0}) && s1.used == s0.used + ({z7' as nat} - {0})
    ensures |s1.used| == |s0.used| + if |zones| > DIRECT && z7 == 0 then 1 else 0
    ensures z7' != 0 ==> z7' == z7 || z7' as nat !in s0.used
  {
    hide TableAt, Pad;
    if |zones| <= DIRECT {
      assert {z7' as nat} - {0} == {};
    } else {
      assert {z7' as nat} - {0} == {z7' as nat};
    }
  }

  ghost predicate DoubleOk(per: nat, z8: u16, z8': u16, inds0: seq<u16>, inds: seq<u16>, zones: seq<u16>, z7: u16,
      s1: Snap, s2: Snap)
    requires per > 0
  {
    if |zones| <= DIRECT + per then z8' == 0 && inds == [] && s2 == s1
    else DoubleAfter(per, z8, z8', inds0, inds, Groups(Third(zones, per), per), Others(zones, z7), s1.disk, s2.disk,
        s1.used, s2.used)
  }

  /** All tables are in place and say what they should. */
  lemma NewRepresents(per: nat, zones: seq<u16>, zone: ZoneArray, inds0: seq<u16>, z7: u16, z8: u16, zone': ZoneArray,
      inds: seq<u16>, s0: Snap, s1: Snap, s2: Snap)
    requires per > 0 && AllNonzero(zones) && zone'[..DIRECT] == Pad(First(zones), DIRECT) && zone'[7] == z7
    requires SingleAfter(per, zone[7], z7, zones, s0, s1) && DoubleOk(per, z8, zone'[8], inds0, inds, zones, z7, s1, s2)
    ensures Represents(s2.disk, per, zone', zones, inds)
  {
    hide TableAt, Pad, Groups, AllNonzero;
    if |zones| > DIRECT + per {
      assert z7 as nat in Others(zones, z7);
      SameTable(s1.disk, s2.disk, {zone'[8] as nat} + ZonesIn(inds), z7);
    } else {
      assert Groups(Third(zones, per), per) == [] by { NoGroups(per); }
    }
  }

  lemma NoGroups(per: nat)
    requires per > 0
    ensures Groups([], per) == [] && GroupCount(0, per) == 0
  {
  }

  lemma NewOwns(per: nat, zone: ZoneArray, zs0: seq<u16>, inds0: seq<u16>, zones: seq<u16>, z7: u16, zone': ZoneArray,
      inds: seq<u16>, s0: Snap, s1: Snap, s2: Snap)
    requires Owns(zone, zs0, inds0, s0.used) && Grows(per, zone, zs0, inds0, zones, s0.used) && zone'[7] == z7
    requires SingleAfter(per, zone[7], z7, zones, s0, s1)
              && DoubleOk(per, zone[8], zone'[8], inds0, inds, zones, z7, s1, s2)
    ensures Owns(zone', zones, inds, s2.used) && s2.used == s0.used + Meta(zone', inds)
    ensures Meta(zone', inds) - Meta(zone, inds0) !! s0.used && SameOutside(s0.disk, s2.disk, Meta(zone', inds))
  {
    hide TableAt, Pad, GroupCount, Groups, Holds, SingleAfter, Ensured, ZonesIn, Distinct, SameOutside, DoubleAfter,
        Others, Owns, Meta;
    SingleApart(zone, zs0, inds0, zones, z7, s0, s1, per);
    InMeta(zone, zs0, inds0, s0.used);
    SingleFrame(per, zone[7], z7, zones, s0, s1);
    var m7 := {z7 as nat} - {0};
    if |zones| <= DIRECT + per {
      NoZones();
      ShortMeta(zone', inds);
      ShortOwns(zone', zones, inds, s0.used, s1.used);
    } else {
      LongMeta(zone', inds, s2, per, zones, zone[8], inds0, s1);
      TwoFrames(s0.disk, s1.disk, s2.disk, m7, {zone'[8] as nat} + ZonesIn(inds));
      LongOwns(zone', zones, inds, s0.used, s1.used, s2.used);
    }
    NewTables(zone, zs0, inds0, zone', inds, s0.used);
  }

  lemma InMeta(zone: ZoneArray, zs0: seq<u16>, inds0: seq<u16>, used: set<nat>)
    requires Owns(zone, zs0, inds0, used)
    ensures (zone[7] != 0 ==> zone[7] as nat in used && zone[7] as nat in Meta(zone, inds0))
    ensures (zone[8] != 0 ==> zone[8] as nat in used && zone[8] as nat in Meta(zone, inds0))
              && ZonesIn(inds0) <= Meta(zone, inds0)
  {
    assert zone[7] != 0 ==> zone[7] as nat in Meta(zone, inds0);
    assert zone[8] != 0 ==> zone[8] as nat in Meta(zone, inds0);
  }

  lemma ShortMeta(zone: ZoneArray, inds: seq<u16>)
    requires zone[8] == 0 && inds == [] && ZonesIn(inds) == {}
    ensures Meta(zone, inds) == {zone[7] as nat} - {0}
  {
  }

  lemma ShortOwns(zone: ZoneArray, zones: seq<u16>, inds: seq<u16>, used0: set<nat>, used: set<nat>)
    requires zone[8] == 0 && ZonesIn(inds) == {} && Distinct(inds) && Meta(zone, inds) == {zone[7] as nat} - {0}
    requires Distinct(zones) && ZonesIn(zones) <= used0 && used == used0 + ({zone[7] as nat} - {0})
    requires zone[7] != 0 ==> zone[7] as nat !in ZonesIn(zones)
    ensures Owns(zone, zones, inds, used)
  {
    hide Meta, ZonesIn, Distinct;
  }

  lemma LongMeta(zone: ZoneArray, inds: seq<u16>, s2: Snap, per: nat, zones: seq<u16>, z8: u16, inds0: seq<u16>,
      s1: Snap)
    requires per > 0 && DoubleAfter(per, z8, zone[8], inds0, inds, Groups(Third(zones, per), per),
              Others(zones, zone[7]), s1.disk, s2.disk, s1.used, s2.used)
    ensures Meta(zone, inds) == ({zone[7] as nat} - {0}) + ({zone[8] as nat} + ZonesIn(inds))
    ensures zone[8] != 0 && zone[8] as nat !in ZonesIn(zones) && zone[8] as nat !in ZonesIn(inds)
              && ZonesIn(inds) !! ZonesIn(zones) && Distinct(inds)
    ensures zone[7] != 0 ==> zone[7] != zone[8] && zone[7] as nat !in ZonesIn(inds)
    ensures s2.used == s1.used + {zone[8] as nat} + ZonesIn(inds)
              && SameOutside(s1.disk, s2.disk, {zone[8] as nat} + ZonesIn(inds))
    ensures ZonesIn(inds) - ZonesIn(inds0) !! s1.used && (zone[8] == z8 || zone[8] as nat !in s1.used)
  {
    hide TableAt, Pad, Groups, Distinct, SameOutside, ZonesIn;
    NotZero(inds, zone[8], s2, per, Groups(Third(zones, per), per));
    assert zone[7] != 0 ==> zone[7] as nat in Others(zones, zone[7]);
  }

  lemma LongOwns(zone: ZoneArray, zones: seq<u16>, inds: seq<u16>, used0: set<nat>, used1: set<nat>, used: set<nat>)
    requires Distinct(zones) && Distinct(inds) && ZonesIn(zones) <= used0 && used1 == used0 + ({zone[7] as nat} - {0})
    requires used == used1 + {zone[8] as nat} + ZonesIn(inds)
              && Meta(zone, inds) == ({zone[7] as nat} - {0}) + ({zone[8] as nat} + ZonesIn(inds))
    requires zone[8] as nat !in ZonesIn(zones) && zone[8] as nat !in ZonesIn(inds) && ZonesIn(inds) !! ZonesIn(zones)
    requires zone[7] != 0 ==>
              zone[7] != zone[8] && zone[7] as nat !in ZonesIn(inds) && zone[7] as nat !in ZonesIn(zones)
    ensures Owns(zone, zones, inds, used) && used == used0 + Meta(zone, inds)
  {
    hide Meta, ZonesIn, Distinct;
  }

  /** Tables the file did not have come from free zones. */
  lemma NewTables(zone: ZoneArray, zs0: seq<u16>, inds0: seq<u16>, zone': ZoneArray, inds: seq<u16>, used0: set<nat>)
    requires Owns(zone, zs0, inds0, used0)
    requires zone'[7] == 0 || zone'[7] == zone[7] || zone'[7] as nat !in used0
    requires zone'[8] == 0 || zone'[8] == zone[8] || zone'[8] as nat !in used0
    requires ZonesIn(inds) - ZonesIn(inds0) !! used0
    ensures Meta(zone', inds) - Meta(zone, inds0) !! used0
  {
    hide ZonesIn, Distinct;
  }

  lemma NoZones()
    ensures ZonesIn([]) == {} && Distinct([])
  {
  }

  lemma NotZero(inds: seq<u16>, z8: u16, s: Snap, per: nat, groups: seq<seq<u16>>)
    requires Holds(s.disk, per, inds, groups) && z8 != 0
    ensures 0 !in ZonesIn(inds)
  {
  }

  lemma TwoFrames(a: Disk, b: Disk, c: Disk, s: set<nat>, t: set<nat>)
    requires SameOutside(a, b, s) && SameOutside(b, c, t)
    ensures SameOutside(a, c, s + t)
  {
  }

  lemma NewCount(per: nat, zone: ZoneArray, zs0: seq<u16>, inds0: seq<u16>, zones: seq<u16>, z7: u16, zone': ZoneArray,
      inds: seq<u16>, s0: Snap, s1: Snap, s2: Snap)
    requires FileOk(s0.disk, per, zone, zs0, inds0, s0.used) && zs0 <= zones
    requires |s1.used| == |s0.used| + if |zones| > DIRECT && zone[7] == 0 then 1 else 0
    requires DoubleOk(per, zone[8], zone'[8], inds0, inds, zones, z7, s1, s2)
    ensures |s2.used| == |s0.used| + MetaCount(|zones|, per) - MetaCount(|zs0|, per)
  {
    hide TableAt, Pad, AllNonzero, Groups, Owns, SameOutside, GroupCount, FileOk, MinixSpec.Third, ZonesIn, Distinct;
    CountOf(s0.disk, per, zone, zs0, inds0, s0.used);
    if |zones| > DIRECT + per {
      ThirdCount(zones, per);
    }
  }

  lemma CountOf(disk: Disk, per: nat, zone: ZoneArray, zs: seq<u16>, inds: seq<u16>, used: set<nat>)
    requires FileOk(disk, per, zone, zs, inds, used)
    ensures per > 0 && |inds| == (if |zs| <= DIRECT + per then 0 else GroupCount(|zs| - DIRECT - per, per))
    ensures (zone[7] == 0 <==> |zs| <= DIRECT) && (zone[8] == 0 <==> |zs| <= DIRECT + per)
  {
    hide TableAt, Pad, AllNonzero, Owns, GroupCount;
    GroupsAre(Third(zs, per), per);
    NoGroups(per);
  }

  lemma ThirdCount(zones: seq<u16>, per: nat)
    requires per > 0 && |zones| > DIRECT + per
    ensures |Groups(Third(zones, per), per)| == GroupCount(|zones| - DIRECT - per, per)
  {
    GroupsAre(Third(zones, per), per);
  }

  lemma FileWritten(per: nat, zone: ZoneArray, zs0: seq<u16>, inds0: seq<u16>, zones: seq<u16>, single: ZoneArray,
      zone': ZoneArray, inds: seq<u16>, s0: Snap, s1: Snap, s2: Snap)
    requires FileOk(s0.disk, per, zone, zs0, inds0, s0.used) && Grows(per, zone, zs0, inds0, zones, s0.used)
    requires single[..DIRECT] == Pad(First(zones), DIRECT) && zone' == single[8 := zone'[8]] && single[8] == zone[8]
    requires SingleAfter(per, zone[7], single[7], zones, s0, s1)
              && DoubleOk(per, zone[8], zone'[8], inds0, inds, zones, single[7], s1, s2)
    ensures FileOk(s2.disk, per, zone', zones, inds, s2.used)
    ensures s2.used == s0.used + Meta(zone', inds) && Meta(zone', inds) - Meta(zone, inds0) !! s0.used
    ensures SameOutside(s0.disk, s2.disk, Meta(zone', inds))
    ensures |s2.used| == |s0.used| + MetaCount(|zones|, per) - MetaCount(|zs0|, per)
  {
    hide Represents, Owns, Grows, SingleAfter, DoubleOk, Meta, Pad, SameOutside;
    assert zone'[..DIRECT] == single[..DIRECT];
    GrowsFacts(per, zone, zs0, inds0, zones, s0.used);
    NewRepresents(per, zones, zone, inds0, single[7], zone[8], zone', inds, s0, s1, s2);
    NewOwns(per, zone, zs0, inds0, zones, single[7], zone', inds, s0, s1, s2);
    SingleApart(zone, zs0, inds0, zones, single[7], s0, s1, per);
    NewCount(per, zone, zs0, inds0, zones, single[7], zone', inds, s0, s1, s2);
  }

  lemma GrowsFacts(per: nat, zone: ZoneArray, zs0: seq<u16>, inds0: seq<u16>, zones: seq<u16>, used: set<nat>)
    requires Grows(per, zone, zs0, inds0, zones, used)
    ensures AllNonzero(zones) && per > 0 && zs0 <= zones
  {
  }

  lemma OthersKept(s0: Snap, disk: Disk, zone: ZoneArray, inds0: seq<u16>, zone': ZoneArray, inds: seq<u16>)
    requires SameOutside(s0.disk, disk, Meta(zone', inds)) && Meta(zone', inds) - Meta(zone, inds0) !! s0.used
    requires forall z :: z in s0.used ==> z < |disk|
    ensures forall z :: z in s0.used - Meta(zone, inds0) ==> disk[z] == s0.disk[z]
  {
    hide Meta;
  }

  lemma {:induction false} TablesShort(disk: Disk, per: nat, t: seq<u16>)
    requires Uniform(disk, 2 * per)
    ensures |TablesOf(disk, t)| <= |t| * per
    decreases t
  {
    if t != [] {
      TablesShort(disk, per, t[1..]);
      TableShort(disk, per, t[0]);
      MulStep(|t|, per);
    }
  }

  lemma TableShort(disk: Disk, per: nat, z: nat)
    requires Uniform(disk, 2 * per)
    ensures |ZoneTable(disk, z)| <= per
  {
    if z < |disk| {
      DecodeLength(disk[z]);
    }
    PrefixShorter(TableAt(disk, z));
  }

  lemma {:induction false} GroupCountBound(n: nat, per: nat)
    requires per > 0 && n > 0
    ensures GroupCount(n, per) > 0 && n > (GroupCount(n, per) - 1) * per
    decreases n
  {
    if n > per {
      GroupCountBound(n - per, per);
      MulStep(GroupCount(n, per) - 1, per);
    }
  }

  /** Fewer tables than groups: the list cannot be complete. */
  lemma TooFewTables(disk: Disk, per: nat, zone: ZoneArray, zones: seq<u16>)
    requires per > 0 && Uniform(disk, 2 * per) && |zones| > DIRECT + per
    requires |ZoneTable(disk, zone[8])| < |Groups(Third(zones, per), per)|
    ensures DataZones(disk, zone) != zones
  {
    hide ZoneTable, NonzeroPrefix, Groups, GroupCount;
    var t, n := ZoneTable(disk, zone[8]), |zones| - DIRECT - per;
    ThirdCount(zones, per);
    GroupCountBound(n, per);
    TablesShort(disk, per, t);
    TableShort(disk, per, zone[7]);
    PrefixShorter(zone[..DIRECT]);
    if |t| < GroupCount(n, per) - 1 {
      MulOrder(|t|, GroupCount(n, per) - 1, per);
    }
    assert |t| * per <= (GroupCount(n, per) - 1) * per;
  }

  lemma FileStopped(per: nat, zone: ZoneArray, zs0: seq<u16>, inds0: seq<u16>, zones: seq<u16>, single: ZoneArray,
      zone': ZoneArray, inds: seq<u16>, s0: Snap, s1: Snap, s2: Snap)
    requires FileOk(s0.disk, per, zone, zs0, inds0, s0.used) && Grows(per, zone, zs0, inds0, zones, s0.used)
              && |zones| > DIRECT + per
    requires zone' == single[8 := zone'[8]] && single[8] == zone[8]
              && SingleAfter(per, zone[7], single[7], zones, s0, s1)
    requires DoubleFailed(per, zone[8], zone'[8], inds0, inds, Groups(Third(zones, per), per), Others(zones, single[7]),
              s1.disk, s2.disk, s1.used, s2.used)
    ensures |s2.used| < |s0.used| + MetaCount(|zones|, per) - MetaCount(|zs0|, per)
    ensures CannotReach(s2.disk, per, zone', zones) && s0.used <= s2.used
    ensures SameOutside(s0.disk, s2.disk, Meta(zone', inds)) && Meta(zone', inds) - Meta(zone, inds0) !! s0.used
  {
    hide Represents, Owns, Grows, SingleAfter, Meta, Pad, SameOutside, Groups, GroupCount, ZoneTable, DataZones, Others,
        MinixSpec.Third, ZonesIn;
    GrowsFacts(per, zone, zs0, inds0, zones, s0.used);
    NotAmong(zone'[8], zones, single[7], {zone'[8] as nat} - {0} + ZonesIn(inds));
    SingleApart(zone, zs0, inds0, zones, single[7], s0, s1, per);
    InMeta(zone, zs0, inds0, s0.used);
    SingleFrame(per, zone[7], single[7], zones, s0, s1);
    CountOf(s0.disk, per, zone, zs0, inds0, s0.used);
    ThirdCount(zones, per);
    TwoFrames(s0.disk, s1.disk, s2.disk, {single[7] as nat} - {0}, {zone'[8] as nat} - {0} + ZonesIn(inds));
    MetaIs(zone', inds);
    NewTables(zone, zs0, inds0, zone', inds, s0.used);
  }

  lemma NotAmong(z: u16, zones: seq<u16>, z7: u16, touched: set<nat>)
    requires AllNonzero(zones) && touched !! Others(zones, z7) && (z != 0 ==> z as nat in touched)
    ensures z as nat !in ZonesIn(zones)
  {
  }

  lemma MetaIs(zone: ZoneArray, inds: seq<u16>)
    ensures Meta(zone, inds) == ({zone[7] as nat} - {0}) + ({zone[8] as nat} - {0} + ZonesIn(inds))
  {
  }

  lemma PrefixStep(t: seq<u16>, i: nat)
    requires i < |t|
    ensures t[i] == 0 ==> NonzeroPrefix(t[i..]) == []
    ensures t[i] != 0 ==> t[..i] + NonzeroPrefix(t[i..]) == t[..i + 1] + NonzeroPrefix(t[i + 1..])
  {
    assert t[i..][0] == t[i] && t[i..][1..] == t[i + 1..];
  }

  /** Some table of the file lies outside the disk. */
  ghost predicate Unreadable(disk: Disk, zone: ZoneArray) {
    && |NonzeroPrefix(zone[..DIRECT])| >= DIRECT
    && (zone[7] >= |disk| || zone[8] >= |disk|
        || exists i :: 0 <= i < |ZoneTable(disk, zone[8])| && ZoneTable(disk, zone[8])[i] >= |disk|)
  }

  /** A file's tables are on the disk and read back as its zones. */
  lemma FileTables(disk: Disk, per: nat, zone: ZoneArray, zs: seq<u16>, inds: seq<u16>, used: set<nat>)
    requires FileOk(disk, per, zone, zs, inds, used) && |disk| > 0 && forall z :: z in used ==> z < |disk|
    ensures DataZones(disk, zone) == zs && !Unreadable(disk, zone) && zone[7] < |disk| && zone[8] < |disk|
    ensures zone[8] != 0 ==> ZoneTable(disk, zone[8]) == inds
    ensures zone[8] == 0 ==> inds == []
  {
    hide DataZones, Distinct, NonzeroPrefix;
    ReadBack(disk, per, zone, zs, inds);
    HoldsNonzero(disk, per, inds, Groups(Third(zs, per), per));
    PrefixOfPad(inds, per);
    CountOf(disk, per, zone, zs, inds, used);
    InMeta(zone, zs, inds, used);
    if zs == [] {
      EmptyDisk(disk, per, zone, inds);
    } else {
      assert zs[0] as nat in ZonesIn(zs);
    }
    if zone[8] == 0 {
      assert ZoneTable(disk, zone[8]) == [];
    } else {
      assert forall i :: 0 <= i < |inds| ==> inds[i] as nat in ZonesIn(inds);
    }
  }

  lemma EmptyDisk(disk: Disk, per: nat, zone: ZoneArray, inds: seq<u16>)
    requires per > 0 && Represents(disk, per, zone, [], inds)
    ensures zone[7] == 0 && zone[8] == 0 && NonzeroPrefix(zone[..DIRECT]) == []
  {
    PrefixOfPad([], DIRECT);
  }

  lemma AllFreed(zone: ZoneArray, inds: seq<u16>)
    requires zone[8] == 0 ==> inds == []
    ensures forall u: set<nat>, z: set<nat> {:trigger u - z - Meta(zone, inds)} :: u - z - Meta(zone, inds) ==
              (u - z - (if zone[7] != 0 then {zone[7] as nat} else {})) - (if zone[8] != 0
                  then ZonesIn(inds) + {zone[8] as nat} else {})
  {
  }
}