/** Files on a MINIX V1 file system: each behaves like a sequence of bytes. */
module MinixFile {
  import opened Memory
  import opened Chunks
  import opened FiniteSets
  import opened MinixSpec
  import opened Minix
  import Bitmap
  import MinixDevice

  // ----- arithmetic of positions -----

  function ZoneOf(pos: nat, z: nat): nat
    requires z > 0
  {
    pos / z
  }

  function InZone(pos: nat, z: nat): nat
    requires z > 0
  {
    pos % z
  }

  lemma DivMod(pos: nat, z: nat)
    requires z > 0
    ensures pos == ZoneOf(pos, z) * z + InZone(pos, z) && InZone(pos, z) < z
  {
  }

  /** A position below n zones lies in one of them. */
  lemma ZoneIndex(pos: nat, z: nat, n: nat)
    requires z > 0 && pos < n * z
    ensures ZoneOf(pos, z) < n
  {
    hide *;
    DivMod(pos, z);
    var q := ZoneOf(pos, z);
    if q > n {
      MulOrder(n, q, z);
    }
  }

  /** How many zones `end` bytes take. */
  function ZonesFor(end: nat, z: nat): nat
    requires z > 0
  {
    ZoneOf(end + z - 1, z)
  }

  lemma ZonesForCovers(end: nat, z: nat)
    requires z > 0
    ensures end <= ZonesFor(end, z) * z && (end > 0 ==> (ZonesFor(end, z) - 1) * z < end)
  {
    hide ZoneOf, InZone;
    DivMod(end + z - 1, z);
    if end > 0 {
      assert end + z - 1 >= z;
      var q := ZoneOf(end + z - 1, z);
      assert q == 0 ==> q * z == 0;
      MulStep(q, z);
    }
  }

  // ----- what a file holds -----

  ghost predicate OnDisk(disk: Disk, zones: seq<u16>) { forall i :: 0 <= i < |zones| ==> zones[i] < |disk| }

  /** The contents of the file's zones. */
  ghost function ZoneBytes(disk: Disk, zones: seq<u16>): (r: seq<seq<byte>>)
    requires OnDisk(disk, zones)
    ensures |r| == |zones| && forall i :: 0 <= i < |zones| ==> r[i] == disk[zones[i]]
  {
    seq(|zones|, i requires 0 <= i < |zones| => disk[zones[i]])
  }

  lemma ZoneBytesUniform(disk: Disk, zones: seq<u16>, z: nat)
    requires OnDisk(disk, zones) && Uniform(disk, z)
    ensures Uniform(ZoneBytes(disk, zones), z) && |Flatten(ZoneBytes(disk, zones))| == |zones| * z
  {
    FlattenLength(ZoneBytes(disk, zones), z);
  }

  /** Writing inside one of the file's zones writes at that place of the file. */
  lemma WriteInZone(disk: Disk, zones: seq<u16>, z: nat, k: nat, at: nat, data: seq<byte>)
    requires OnDisk(disk, zones) && Uniform(disk, z) && Distinct(zones) && k < |zones| && at + |data| <= z
    ensures var disk' := disk[zones[k] as nat := Splice(disk[zones[k]], at, data)];
            && OnDisk(disk', zones) && Uniform(disk', z) && k * z + at + |data| <= |Flatten(ZoneBytes(disk, zones))|
            && Flatten(ZoneBytes(disk', zones)) == Splice(Flatten(ZoneBytes(disk, zones)), k * z + at, data)
            && SameOutside(disk, disk', ZonesIn(zones))
  {
    var disk' := disk[zones[k] as nat := Splice(disk[zones[k]], at, data)];
    var cs := ZoneBytes(disk, zones);
    FlattenSplice(cs, z, k, at, data);
    assert ZoneBytes(disk', zones) == cs[k := Splice(cs[k], at, data)];
    assert zones[k] as nat in ZonesIn(zones);
  }

  /** New zones come after the old ones. */
  lemma MoreZones(disk: Disk, zones: seq<u16>, zones': seq<u16>)
    requires OnDisk(disk, zones') && zones <= zones'
    ensures OnDisk(disk, zones) && Flatten(ZoneBytes(disk, zones)) <= Flatten(ZoneBytes(disk, zones'))
  {
    var a, b := ZoneBytes(disk, zones), ZoneBytes(disk, zones');
    assert b == a + b[|a|..];
    FlattenConcat(a, b[|a|..]);
  }

  /** The bytes from `offset` to `pos`; none if `offset` is behind the end. */
  ghost predicate Read(c: seq<byte>, offset: nat, pos: nat, buf: seq<byte>) {
    if offset > |c| then buf == [] else offset <= pos <= |c| && buf == c[offset..pos]
  }

  lemma ReadMore(c: seq<byte>, offset: nat, pos: nat, buf: seq<byte>, n: nat)
    requires offset <= pos && pos + n <= |c| && Read(c, offset, pos, buf)
    ensures Read(c, offset, pos + n, buf + c[pos..pos + n])
  {
    assert c[offset..pos + n] == c[offset..pos] + c[pos..pos + n];
  }

  class File {
    const fs: MinixFs
    var zone: ZoneArray
    var size: nat
    var zones: seq<u16>
    ghost var inds: seq<u16>

    constructor (fs: MinixFs, zone: ZoneArray, size: nat, zones: seq<u16>, ghost inds: seq<u16>)
      ensures this.fs == fs && this.zone == zone && this.size == size && this.zones == zones && this.inds == inds
    {
      this.fs, this.zone, this.size, this.zones, this.inds := fs, zone, size, zones, inds;
    }

    /** The file's zones are its own, and hold at least `size` bytes. */
    ghost predicate DataOk()
      reads this, fs, fs.dev
    {
      && fs.Valid() && AllNonzero(zones) && Distinct(zones) && ZonesIn(zones) <= fs.Used() && OnDisk(fs.disk, zones)
      && size <= |zones| * fs.zoneSize
    }

    ghost predicate Valid()
      reads this, fs, fs.dev
    {
      DataOk() && FileOk(fs.disk, fs.Per(), zone, zones, inds, fs.Used())
    }

    ghost function Contents(): (s: seq<byte>)
      requires DataOk()
      reads this, fs, fs.dev
      ensures |s| == size
    {
      ZoneBytesUniform(fs.disk, zones, fs.zoneSize);
      Flatten(ZoneBytes(fs.disk, zones))[..size]
    }

    /** `read_at`: at most `len` bytes from `offset` on. */
    method ReadAt(len: nat, offset: nat) returns (buf: seq<byte>)
      requires DataOk()
      ensures buf == if offset >= size then [] else Contents()[offset..Min(offset + len, size)]
    {
      hide File.DataOk, File.Contents, ZoneOf, InZone;
      ghost var c := Contents();
      buf := [];
      var pos := offset;
      assert offset <= |c| ==> c[offset..offset] == [];
      while pos < size && |buf| < len
        invariant pos == offset + |buf| && |buf| <= len && Read(c, offset, pos, buf)
        decreases len - |buf|
      {
        SizeFits();
        Place(pos);
        var n := Min(Min(fs.zoneSize - InZone(pos, fs.zoneSize), size - pos), len - |buf|);
        var part := ReadPiece(pos, n);
        ReadMore(c, offset, pos, buf, n);
        buf := buf + part;
        pos := pos + n;
      }
    }

    /** Read inside one zone of the file. */
    method ReadPiece(pos: nat, n: nat) returns (part: seq<byte>)
      requires DataOk() && 0 < n && pos + n <= size && InZone(pos, fs.zoneSize) + n <= fs.zoneSize
      ensures part == Contents()[pos..pos + n]
    {
      hide ZoneOf, InZone, File.Contents, MinixDevice.Backs, Distinct, AllNonzero, MinixFs.Used, MinixFs.Padded;
      Place(pos);
      var k, inZone := ZoneOf(pos, fs.zoneSize), InZone(pos, fs.zoneSize);
      ReadPart(k, inZone, n);
      var r := MinixDevice.ReadInZone(fs.dev, fs.disk, fs.zoneSize, zones[k], inZone, n);
      part := r.value;
    }

    /** Where byte `pos` of the file lies. */
    lemma Place(pos: nat)
      requires DataOk() && pos < |zones| * fs.zoneSize
      ensures fs.zoneSize > 0 && ZoneOf(pos, fs.zoneSize) < |zones| && zones[ZoneOf(pos, fs.zoneSize)] < |fs.disk|
      ensures |fs.disk[zones[ZoneOf(pos, fs.zoneSize)]]| == fs.zoneSize
      ensures pos == ZoneOf(pos, fs.zoneSize) * fs.zoneSize + InZone(pos, fs.zoneSize)
                && InZone(pos, fs.zoneSize) < fs.zoneSize
      ensures ZoneOf(pos, fs.zoneSize) * fs.zoneSize + fs.zoneSize <= |zones| * fs.zoneSize
    {
      hide ZoneOf, InZone, MinixFs.Used, ZonesIn, Distinct, AllNonzero;
      ZoneIndex(pos, fs.zoneSize, |zones|);
      DivMod(pos, fs.zoneSize);
      MulOrder(ZoneOf(pos, fs.zoneSize), |zones|, fs.zoneSize);
    }

    lemma SizeFits()
      requires DataOk()
      ensures size <= |zones| * fs.zoneSize
    {
    }

    lemma ReadPart(k: nat, inZone: nat, n: nat)
      requires DataOk() && k < |zones| && inZone + n <= fs.zoneSize && k * fs.zoneSize + inZone + n <= size
      ensures var from := k * fs.zoneSize + inZone;
              Contents()[from..from + n] == fs.disk[zones[k]][inZone..inZone + n]
    {
      hide Flatten, Chunks.Flatten, Distinct, AllNonzero, MinixFs.Used, MinixFs.Padded, MinixDevice.Backs;
      ZoneBytesUniform(fs.disk, zones, fs.zoneSize);
      FlattenSlice(ZoneBytes(fs.disk, zones), fs.zoneSize, k, inZone, inZone + n);
      var all, from := Flatten(ZoneBytes(fs.disk, zones)), k * fs.zoneSize + inZone;
      assert all[..size][from..from + n] == all[from..from + n];
    }

    /** `data`: the whole file, read through its inode. */
    method Data() returns (out: Option<seq<byte>>)
      requires Valid()
      ensures out == Some(Contents())
    {
      hide FileOk, Flatten, DataZones, Unreadable, AllNonzero, Distinct, MinixFs.Used, ZonesIn;
      if size == 0 {
        return Some([]);
      }
      fs.UsedInRange();
      FileTables(fs.disk, fs.Per(), zone, zones, inds, fs.Used());
      var zs := fs.ReadZones(zone);
      if zs.None? {
        return None;
      }
      ghost var cs := ZoneBytes(fs.disk, zones);
      var all: seq<byte> := [];
      var i := 0;
      FlattenNone(cs);
      while i < |zs.value|
        invariant i <= |zs.value| && all == Flatten(cs[..i])
      {
        FlattenNext(cs, i);
        var bytes := MinixDevice.ReadZone(fs.dev, fs.disk, fs.zoneSize, zs.value[i]);
        all := all + bytes.value;
        i := i + 1;
      }
      assert cs[..i] == cs;
      ZoneBytesUniform(fs.disk, zones, fs.zoneSize);
      out := Some(all[..size]);
    }

    /** Allocate zones until there are `need` of them or the disk is full. */
    method GrowZones(need: nat)
      requires DataOk()
      modifies this`zones, fs`zmap
      ensures fs.Valid() && Extension(old(zones), zones, old(fs.Used()), fs.Used()) && OnDisk(fs.disk, zones)
      ensures |zones| <= need || zones == old(zones)
      ensures |zones| < need ==> |fs.Used()| == fs.nzones - fs.first
    {
      ghost var zs0, used0 := zones, fs.Used();
      assert used0 == used0 + ZonesIn(zones);
      var more := true;
      while |zones| < need && more
        invariant fs.Valid() && Extension(zs0, zones, used0, fs.Used()) && OnDisk(fs.disk, zones)
                  && (|zones| <= need || zones == zs0)
        invariant !more ==> |fs.Used()| == fs.nzones - fs.first
        decreases need - |zones|, more
      {
        hide MinixFs.Used, MinixFs.Valid, Extension;
        more := GrowOne(zs0, used0);
      }
    }

    /** Allocate one more zone if there is one. */
    method GrowOne(ghost zs0: seq<u16>, ghost used0: set<nat>) returns (more: bool)
      requires fs.Valid() && Extension(zs0, zones, used0, fs.Used()) && OnDisk(fs.disk, zones)
      modifies this`zones, fs`zmap
      ensures fs.Valid() && Extension(zs0, zones, used0, fs.Used()) && OnDisk(fs.disk, zones)
      ensures |zones| == |old(zones)| + if more then 1 else 0
      ensures !more ==> zones == old(zones) && |fs.Used()| == fs.nzones - fs.first
    {
      hide MinixFs.Used, MinixFs.Padded, Extension;
      ghost var used1 := fs.Used();
      var z := fs.AllocZone();
      if z.None? {
        RangeSize(fs.first, fs.nzones);
        return false;
      }
      ExtendOne(zs0, zones, z.value, used0, used1);
      zones := zones + [z.value];
      more := true;
    }

    /** Write `buf` zone by zone, as far as the file has zones. */
    method WriteData(buf: seq<byte>, offset: nat) returns (done: nat)
      requires DataOk() && offset <= |zones| * fs.zoneSize
      modifies fs`disk, fs.dev
      ensures DataOk() && fs.Used() == old(fs.Used()) && done == Min(|buf|, |zones| * fs.zoneSize - offset)
      ensures Splices(old(fs.disk), fs.disk, zones, fs.zoneSize, offset, buf[..done])
    {
      hide File.DataOk, Splices, ZoneOf, InZone, MinixFs.Used, MinixFs.Valid;
      var capacity := |zones| * fs.zoneSize;
      done := 0;
      NothingSpliced(offset);
      ghost var disk0, used0 := fs.disk, fs.Used();
      assert buf[..0] == [];
      while done < |buf| && offset + done < capacity
        invariant DataOk() && fs.Valid() && fs.Used() == used0 && done <= |buf| && offset + done <= capacity
        invariant Splices(disk0, fs.disk, zones, fs.zoneSize, offset, buf[..done])
      {
        var pos := offset + done;
        Place(pos);
        var k, inZone := ZoneOf(pos, fs.zoneSize), InZone(pos, fs.zoneSize);
        var n := Min(fs.zoneSize - inZone, |buf| - done);
        ghost var disk1 := fs.disk;
        WritePart(k, inZone, buf[done..done + n]);
        SplicesMore(disk0, disk1, fs.disk, zones, fs.zoneSize, offset, buf[..done], buf[done..done + n]);
        assert buf[..done + n] == buf[..done] + buf[done..done + n];
        done := done + n;
      }
    }

    lemma NothingSpliced(offset: nat)
      requires DataOk() && offset <= |zones| * fs.zoneSize
      ensures fs.Valid() && Splices(fs.disk, fs.disk, zones, fs.zoneSize, offset, [])
    {
      ZoneBytesUniform(fs.disk, zones, fs.zoneSize);
      var flat := Flatten(ZoneBytes(fs.disk, zones));
      assert Splice(flat, offset, []) == flat;
    }

    /** Write inside one zone of the file. */
    method WritePart(k: nat, at: nat, data: seq<byte>)
      requires DataOk() && k < |zones| && at + |data| <= fs.zoneSize
      modifies fs`disk, fs.dev
      ensures DataOk() && fs.Valid() && fs.Used() == old(fs.Used())
                && Splices(old(fs.disk), fs.disk, zones, fs.zoneSize, k * fs.zoneSize + at, data)
    {
      WriteInZone(fs.disk, zones, fs.zoneSize, k, at, data);
      hide MinixDevice.Backs;
      MinixDevice.WriteInZone(fs.dev, fs.disk, fs.zoneSize, zones[k], at, data);
      fs.disk := fs.disk[zones[k] as nat := Splice(fs.disk[zones[k]], at, data)];
      assert fs.Used() == old(fs.Used());
    }

    /** The number of zones after writing up to `end`. */
    function CountAfter(end: nat): nat
      requires fs.zoneSize > 0
      reads this
    {
      Max(|zones|, ZonesFor(end, fs.zoneSize))
    }

    /** Enough free zones for the data and for the tables that list them. */
    ghost predicate Room(end: nat)
      requires fs.Valid() && fs.Per() > 0
      reads this, fs, fs.dev
    {
      |fs.Used()| + CountAfter(end) - |zones| + MetaCount(CountAfter(end), fs.Per()) - MetaCount(|zones|, fs.Per())
          <= fs.nzones - fs.first
    }

    /** The zones the file uses, data and tables. */
    ghost function Footprint(): set<nat>
      reads this
    {
      ZonesIn(zones) + Meta(zone, inds)
    }

    lemma AlwaysInReach()
      requires fs.Valid() && Distinct(zones) && ZonesIn(zones) <= fs.Used()
      ensures fs.Per() > 0 && InReach(|zones|, fs.Per())
    {
      DistinctSize(zones);
      SubsetSize(ZonesIn(zones), fs.Used());
      fs.UsedSize();
      NumbersInReach(|zones|, fs.Per());
    }

    /** Allocate what is missing and write the zone map if anything was. */
    method Enlarge(need: nat) returns (ghost ok: bool)
      requires Valid()
      modifies this`zones, this`zone, this`inds, fs, fs.dev
      ensures DataOk() && old(zones) <= zones && |zones| <= Max(|old(zones)|, need) && old(fs.Used()) <= fs.Used()
      ensures forall z :: z in old(fs.Used()) - old(Meta(zone, inds)) ==> fs.disk[z] == old(fs.disk[z])
      ensures |zones| < need ==> |old(fs.Used())| + |zones| - |old(zones)| == fs.nzones - fs.first
      ensures ZonesIn(zones) - ZonesIn(old(zones)) !! old(fs.Used()) && size == old(size)
      ensures ok ==> Valid() && |zones| >= need && Took(old(Footprint()), Footprint(), old(fs.Used()), fs.Used())
      ensures !ok && |zones| >= need ==> CannotReach(fs.disk, fs.Per(), zone, zones)
      ensures |zones| >= need ==>
                (ok <==> |old(fs.Used())| + |zones| - |old(zones)| + MetaCount(|zones|,
                    fs.Per()) - MetaCount(|old(zones)|, fs.Per()) <= fs.nzones - fs.first)
    {
      hide FileOk, MetaCount, Meta, CannotReach, DataZones, MinixFs.Used, ZonesIn, Distinct, AllNonzero, Extension,
          InReach, Grows, Took;
      ghost var zs0, used0, disk0 := zones, fs.Used(), fs.disk;
      var grew := |zones| < need;
      if !grew {
        fs.UsedSize();
        TookNothing(fs.disk, fs.Per(), zone, zones, inds, fs.Used());
        return true;
      }
      GrowZones(need);
      ExtensionFacts(zs0, zones, used0, fs.Used());
      AlwaysInReach();
      GrownFile(fs.disk, fs.Per(), zone, zs0, inds, zones, used0, fs.Used());
      MoreRoom(|zs0|, |zones|, fs.zoneSize);
      ghost var zone0, inds0, used1 := zone, inds, fs.Used();
      zone, inds, ok := fs.WriteFileZones(zone, zones, zs0, inds);
      if ok {
        TookBoth(zs0, zones, Meta(zone0, inds0), Meta(zone, inds), used0, used1, fs.Used());
      }
      ok := ok && |zones| >= need;
    }

    /**
     `write_at`: overwrite from min(offset, size) on, growing the file as needed.  All of `buf` is
     written and the inode lists every zone exactly if there was room.
     */
    method WriteAt(buf: seq<byte>, offset: nat) returns (done: nat)
      requires Valid()
      modifies this, fs, fs.dev
      ensures DataOk() && done <= |buf|
                && Contents() == Overwritten(old(Contents()), Min(offset, old(size)), buf[..done])
      ensures Valid() && done == |buf| <==> old(Room(Min(offset, size) + |buf|))
      ensures Valid() && done == |buf| ==> Took(old(Footprint()), Footprint(), old(fs.Used()), fs.Used())
      ensures done < |buf| ==>
                && Min(offset, old(size)) + done == |zones| * fs.zoneSize
                && |old(fs.Used())| + |zones| - |old(zones)| == fs.nzones - fs.first
      ensures |zones| <= |old(zones)| || (|zones| - 1) * fs.zoneSize < Min(offset, old(size)) + |buf|
      ensures old(fs.Used()) <= fs.Used() && forall z :: z in old(fs.Used()) - old(Footprint()) ==>
                fs.disk[z] == old(fs.disk[z])
    {
      hide File.Contents, FileOk, MetaCount, MinixFs.Used, MinixFs.Valid, ZonesFor, InReach, CannotReach, Splices,
          ZonesIn, Meta, Overwritten, Took,
        AllNonzero, Distinct, OnDisk, Flatten, DataZones, ZoneBytes;
      ghost var zs0, disk0, used0, size0, all0, foot0 := zones, fs.disk, fs.Used(), size, Contents(), Footprint();
      ghost var zone0, inds0, end := zone, inds, Min(offset, size) + |buf|;
      fs.UsedSize();
      FsFacts();
      if buf == [] {
        NoWrite(all0, Min(offset, size));
        NothingNeeded(zs0, size0, Min(offset, size), fs.zoneSize);
        TookNothing(fs.disk, fs.Per(), zone, zones, inds, fs.Used());
        return 0;
      }
      var at := Min(offset, size);
      var need := ZonesFor(at + |buf|, fs.zoneSize);
      ghost var ok := Enlarge(need);
      ghost var disk1 := fs.disk;
      FsFacts();
      StartKept(disk0, disk1, zs0, zones, size0, fs.zoneSize, zone0, inds0, used0, fs.Per());
      MoreRoom(|zs0|, |zones|, fs.zoneSize);
      done := WriteData(buf, at);
      FsFacts();
      size := Max(size, at + done);
      NewContents(disk1, size0, at, buf[..done], all0);
      EnoughZones(|zones|, need, at, |buf|, done, fs.zoneSize);
      NoSurplus(|zs0|, |zones|, at + |buf|, fs.zoneSize);
      MetaCountGrows(|zs0|, Max(|zs0|, need), fs.Per());
      SplicesFrame(disk1, fs.disk, zones, fs.zoneSize, at, buf[..done]);
      if ok {
        FileKept(disk1, fs.disk, fs.Per(), zone, zones, inds, fs.Used());
      } else if |zones| >= need {
        NotListed(disk1, fs.disk, fs.Per(), zone, zones, inds, fs.Used());
      }
      OutsideKept(disk0, disk1, fs.disk, zs0, zones, Meta(zone0, inds0), used0);
    }

    lemma FsFacts()
      requires DataOk()
      ensures |fs.disk| == fs.nzones && Uniform(fs.disk, fs.zoneSize) && fs.zoneSize == 2 * fs.Per()
      ensures forall z :: z in fs.Used() ==> z < fs.nzones
      ensures |Flatten(ZoneBytes(fs.disk, zones))| == |zones| * fs.zoneSize
                && Contents() == Flatten(ZoneBytes(fs.disk, zones))[..size]
    {
      ZoneBytesUniform(fs.disk, zones, fs.zoneSize);
    }

    lemma NewContents(disk1: Disk, size0: nat, at: nat, data: seq<byte>, all0: seq<byte>)
      requires DataOk() && Splices(disk1, fs.disk, zones, fs.zoneSize, at, data) && size == Max(size0, at + |data|)
                && at <= size0
      requires size0 <= |Flatten(ZoneBytes(disk1, zones))| && all0 == Flatten(ZoneBytes(disk1, zones))[..size0]
      ensures Contents() == Overwritten(all0, at, data)
    {
      var flat := Flatten(ZoneBytes(disk1, zones));
      SpliceContents(flat, size0, at, data);
    }
  }

  /** No more zones than the bytes take. */
  lemma NoSurplus(n0: nat, n: nat, end: nat, z: nat)
    requires z > 0 && end > 0 && n <= Max(n0, ZonesFor(end, z))
    ensures n <= n0 || (n - 1) * z < end
  {
    hide ZonesFor;
    ZonesForCovers(end, z);
    if n0 < n < ZonesFor(end, z) {
      MulOrder(n - 1, ZonesFor(end, z) - 1, z);
    }
  }

  function Max(a: nat, b: nat): nat { if a < b then b else a }

  /** A file of `n` zones is within what an inode can address. */
  predicate InReach(n: nat, per: nat)
    requires per > 0
  {
    n <= DIRECT + per || GroupCount(n - DIRECT - per, per) <= per
  }

  /** Zones are numbered by 16 bits and hold at least 1024 bytes, so every list of zones is. */
  lemma NumbersInReach(n: nat, per: nat)
    requires n < 65536 && per >= 512
    ensures InReach(n, per)
  {
    if n > DIRECT + per {
      var groups := GroupCount(n - DIRECT - per, per);
      GroupCountBound(n - DIRECT - per, per);
      if groups > per {
        MulOrder(per - 1, groups - 1, per);
        MulOrder(511, per, per);
      }
    }
  }

  lemma {:induction false} DistinctSize(zs: seq<u16>)
    requires Distinct(zs)
    ensures |ZonesIn(zs)| == |zs|
  {
    if zs != [] {
      var rest, z := zs[..|zs| - 1], zs[|zs| - 1];
      DistinctSize(rest);
      ZonesInAppend(rest, z);
      assert zs == rest + [z] && z as nat !in ZonesIn(rest);
    }
  }

  /** The bytes of the file's zones, with `data` written at `at`; nothing outside them has changed. */
  ghost predicate Splices(disk0: Disk, disk: Disk, zones: seq<u16>, z: nat, at: nat, data: seq<byte>) {
    && OnDisk(disk0, zones) && OnDisk(disk, zones) && SameOutside(disk0, disk, ZonesIn(zones))
    && at + |data| <= |Flatten(ZoneBytes(disk0, zones))|
    && Flatten(ZoneBytes(disk, zones)) == Splice(Flatten(ZoneBytes(disk0, zones)), at, data)
  }

  lemma SplicesMore(disk0: Disk, disk1: Disk, disk: Disk, zones: seq<u16>, z: nat, at: nat, a: seq<byte>, b: seq<byte>)
    requires Splices(disk0, disk1, zones, z, at, a) && Splices(disk1, disk, zones, z, at + |a|, b)
    ensures Splices(disk0, disk, zones, z, at, a + b)
  {
    hide Flatten, ZoneBytes, ZonesIn;
    var flat := Flatten(ZoneBytes(disk0, zones));
    assert at + |a| + |b| <= |flat|;
    SpliceSplice(flat, at, a, b);
  }

  /** `zs` extends `zs0` by newly allocated zones, and nothing else was allocated. */
  ghost predicate Extension(zs0: seq<u16>, zs: seq<u16>, used0: set<nat>, used: set<nat>) {
    && zs0 <= zs && AllNonzero(zs) && Distinct(zs) && used == used0 + ZonesIn(zs) && ZonesIn(zs) - ZonesIn(zs0) !! used0
    && |used| == |used0| + |zs| - |zs0|
  }

  lemma ExtendOne(zs0: seq<u16>, zs: seq<u16>, z: u16, used0: set<nat>, used: set<nat>)
    requires Extension(zs0, zs, used0, used) && z != 0 && z as nat !in used
    ensures Extension(zs0, zs + [z], used0, used + {z as nat})
  {
    ZonesInAppend(zs, z);
    AppendDistinct(zs, z);
  }

  lemma FlattenNone(cs: seq<seq<byte>>)
    ensures Flatten(cs[..0]) == []
  {
  }

  lemma FlattenNext(cs: seq<seq<byte>>, i: nat)
    requires i < |cs|
    ensures Flatten(cs[..i + 1]) == Flatten(cs[..i]) + cs[i]
  {
    FlattenConcat(cs[..i], [cs[i]]);
    assert cs[..i + 1] == cs[..i] + [cs[i]];
    assert Flatten([cs[i]]) == cs[i] + Flatten([cs[i]][1..]);
  }

  lemma ExtensionFacts(zs0: seq<u16>, zs: seq<u16>, used0: set<nat>, used: set<nat>)
    requires Extension(zs0, zs, used0, used)
    ensures zs0 <= zs && AllNonzero(zs) && Distinct(zs) && ZonesIn(zs) <= used && used0 <= used
              && |used| == |used0| + |zs| - |zs0|
    ensures ZonesIn(zs) - ZonesIn(zs0) !! used0
  {
  }

  lemma MoreRoom(a: nat, b: nat, z: nat)
    requires a <= b
    ensures a * z <= b * z
  {
    if a < b {
      MulOrder(a, b, z);
    }
  }

  /** Newly allocated zones leave the file as it is and can be added to it. */
  lemma GrownFile(disk: Disk, per: nat, zone: ZoneArray, zs0: seq<u16>, inds: seq<u16>, zs: seq<u16>, used0: set<nat>,
      used: set<nat>)
    requires FileOk(disk, per, zone, zs0, inds, used0) && Extension(zs0, zs, used0, used) && InReach(|zs|, per)
    ensures FileOk(disk, per, zone, zs0, inds, used) && Grows(per, zone, zs0, inds, zs, used)
  {
    hide Represents, GroupCount, Distinct, ZonesIn, Meta;
    assert |zs| <= DIRECT + per ==> GroupCount(0, per) == 0 by { NoGroups(per); }
  }

  /** What the file has gained was free before, and nothing else changed hands. */
  ghost predicate Took(foot0: set<nat>, foot: set<nat>, used0: set<nat>, used: set<nat>) {
    used == used0 + foot && foot - foot0 !! used0
  }

  lemma TookNothing(disk: Disk, per: nat, zone: ZoneArray, zs: seq<u16>, inds: seq<u16>, used: set<nat>)
    requires FileOk(disk, per, zone, zs, inds, used)
    ensures Took(ZonesIn(zs) + Meta(zone, inds), ZonesIn(zs) + Meta(zone, inds), used, used)
  {
  }

  lemma TookBoth(zs0: seq<u16>, zs: seq<u16>, meta0: set<nat>, meta: set<nat>, used0: set<nat>, used1: set<nat>,
      used: set<nat>)
    requires Extension(zs0, zs, used0, used1) && used == used1 + meta && meta - meta0 !! used1
    ensures Took(ZonesIn(zs0) + meta0, ZonesIn(zs) + meta, used0, used)
  {
    hide ZonesIn, Distinct, AllNonzero;
  }

  /** Writing one file leaves every other file as it is, zone map and contents. */
  lemma OtherFileKept(disk0: Disk, disk: Disk, per: nat, zone: ZoneArray, zs: seq<u16>, inds: seq<u16>, used0: set<nat>,
      used: set<nat>, foot: set<nat>)
    requires FileOk(disk0, per, zone, zs, inds, used0) && |disk| == |disk0| && used0 <= used
              && (forall z :: z in used0 ==> z < |disk|)
    requires ZonesIn(zs) + Meta(zone, inds) !! foot && forall z :: z in used0 - foot ==> disk[z] == disk0[z]
    ensures FileOk(disk, per, zone, zs, inds, used) && OnDisk(disk, zs) && OnDisk(disk0, zs)
              && ZoneBytes(disk, zs) == ZoneBytes(disk0, zs)
  {
    hide Groups, Pad, Distinct, AllNonzero, TableAt;
    InMeta(zone, zs, inds, used0);
    forall i | 0 <= i < |zs| ensures zs[i] as nat in used0 - foot {
      assert zs[i] as nat in ZonesIn(zs);
    }
    forall z: u16 | z as nat in used0 - foot ensures TableAt(disk, z) == TableAt(disk0, z) {
      OneTable(disk0, disk, z);
    }
    forall i | 0 <= i < |inds| ensures inds[i] as nat in used0 - foot {
      assert inds[i] as nat in ZonesIn(inds);
    }
  }

  lemma OneTable(disk0: Disk, disk: Disk, z: u16)
    requires |disk| == |disk0| && z < |disk| && disk[z] == disk0[z]
    ensures TableAt(disk, z) == TableAt(disk0, z)
  {
  }

  const NO_ZONES: ZoneArray := [0, 0, 0, 0, 0, 0, 0, 0, 0]

  /** An inode without zones is a file of length zero. */
  lemma EmptyFile(disk: Disk, per: nat, used: set<nat>)
    requires per > 0
    ensures FileOk(disk, per, NO_ZONES, [], [], used) && Meta(NO_ZONES, []) == {} && ZonesIn([]) == {}
  {
    NoGroups(per);
    assert Pad(First([]), DIRECT) == NO_ZONES[..DIRECT];
  }

  /** Create a file, fill it, and delete it: the zone bitmap is what it was. */
  method CreateAndDelete(fs: MinixFs, buf: seq<byte>) returns (done: nat)
    requires fs.Valid()
    requires |fs.Used()| + ZonesFor(|buf|, fs.zoneSize) + MetaCount(ZonesFor(|buf|, fs.zoneSize), fs.Per())
              <= fs.nzones - fs.first
    modifies fs, fs.dev
    ensures fs.Valid() && done == |buf| && fs.Used() == old(fs.Used())
    ensures forall z :: z in old(fs.Used()) ==> fs.disk[z] == old(fs.disk[z])
  {
    hide FileOk, MinixFs.Used, MinixFs.Padded, ZonesFor, GroupCount, DataZones, ZoneBytes, Flatten, Chunks.Flatten,
        Bitmap.WordsFor;
    EmptyFile(fs.disk, fs.Per(), fs.Used());
    var f := new File(fs, NO_ZONES, 0, [], []);
    assert f.Contents() == [];
    assert f.Room(|buf|);
    hide MetaCount, File.Room;
    done := f.WriteAt(buf, 0);
    var ok := fs.FreeInodeBlocks(f.zone, f.zones, f.inds);
  }

  /** `data` written over `c` from `at` on; it may reach past the end. */
  function Overwritten(c: seq<byte>, at: nat, data: seq<byte>): seq<byte>
    requires at <= |c|
  {
    c[..at] + data + c[Min(at + |data|, |c|)..]
  }

  lemma NoWrite(c: seq<byte>, at: nat)
    requires at <= |c|
    ensures Overwritten(c, at, []) == c
  {
  }

  lemma SpliceContents(flat: seq<byte>, size: nat, at: nat, data: seq<byte>)
    requires at <= size <= |flat| && at + |data| <= |flat|
    ensures Splice(flat, at, data)[..Max(size, at + |data|)] == Overwritten(flat[..size], at, data)
  {
    var l, r := Splice(flat, at, data)[..Max(size, at + |data|)], Overwritten(flat[..size], at, data);
    assert |l| == |r|;
    forall i | 0 <= i < |l| ensures l[i] == r[i] {}
  }

  /** Growing a file leaves its bytes where they are. */
  lemma StartKept(disk0: Disk, disk1: Disk, zs0: seq<u16>, zs: seq<u16>, size0: nat, z: nat, zone0: ZoneArray,
      inds0: seq<u16>, used0: set<nat>, per: nat)
    requires OnDisk(disk0, zs0) && OnDisk(disk1, zs) && zs0 <= zs && Uniform(disk0, z) && Uniform(disk1, z)
              && size0 <= |zs0| * z
    requires FileOk(disk0, per, zone0, zs0, inds0, used0) && |disk1| == |disk0|
    requires forall x :: x in used0 - Meta(zone0, inds0) ==> x < |disk0| && disk1[x] == disk0[x]
    ensures size0 <= |Flatten(ZoneBytes(disk1, zs))| && |Flatten(ZoneBytes(disk0, zs0))| == |zs0| * z
    ensures Flatten(ZoneBytes(disk1, zs))[..size0] == Flatten(ZoneBytes(disk0, zs0))[..size0]
  {
    hide Represents, Flatten, Meta;
    MoreZones(disk1, zs0, zs);
    forall i | 0 <= i < |zs0| ensures disk1[zs0[i]] == disk0[zs0[i]] {
      assert zs0[i] as nat in ZonesIn(zs0);
    }
    assert ZoneBytes(disk1, zs0) == ZoneBytes(disk0, zs0);
    ZoneBytesUniform(disk0, zs0, z);
  }

  /** All of the data fits exactly if there are as many zones as needed. */
  lemma EnoughZones(n: nat, need: nat, at: nat, len: nat, done: nat, z: nat)
    requires z > 0 && len > 0 && need == ZonesFor(at + len, z) && at <= n * z && done == Min(len, n * z - at)
    ensures done == len <==> n >= need
  {
    hide ZonesFor;
    ZonesForCovers(at + len, z);
    if n >= need {
      MoreRoom(need, n, z);
    } else {
      MoreRoom(n, need - 1, z);
    }
  }

  lemma NothingNeeded(zs: seq<u16>, size: nat, at: nat, z: nat)
    requires z > 0 && at <= size <= |zs| * z
    ensures Max(|zs|, ZonesFor(at, z)) == |zs|
  {
    hide ZonesFor;
    ZonesForCovers(at, z);
    var n := ZonesFor(at, z);
    if n > |zs| {
      assert at > 0 by { ZonesForNothing(z); }
      MoreRoom(|zs|, n - 1, z);
    }
  }

  lemma ZonesForNothing(z: nat)
    requires z > 0
    ensures ZonesFor(0, z) == 0
  {
  }

  lemma MetaCountGrows(a: nat, b: nat, per: nat)
    requires per > 0 && a <= b
    ensures MetaCount(a, per) <= MetaCount(b, per)
  {
    if a > DIRECT + per {
      GroupCountGrows(a - DIRECT - per, b - DIRECT - per, per);
    }
  }

  lemma SplicesFrame(disk0: Disk, disk: Disk, zones: seq<u16>, z: nat, at: nat, data: seq<byte>)
    requires Splices(disk0, disk, zones, z, at, data)
    ensures SameOutside(disk0, disk, ZonesIn(zones))
  {
  }

  /** Data written into a file's own data zones leaves its tables alone. */
  lemma FileKept(disk0: Disk, disk: Disk, per: nat, zone: ZoneArray, zs: seq<u16>, inds: seq<u16>, used: set<nat>)
    requires FileOk(disk0, per, zone, zs, inds, used) && SameOutside(disk0, disk, ZonesIn(zs))
    ensures FileOk(disk, per, zone, zs, inds, used)
  {
    hide Groups, Pad, Distinct, AllNonzero, TableAt;
    InMeta(zone, zs, inds, used);
    if zone[7] != 0 {
      SameTable(disk0, disk, ZonesIn(zs), zone[7]);
    }
    if zone[8] != 0 {
      SameTable(disk0, disk, ZonesIn(zs), zone[8]);
    }
    forall i | 0 <= i < |inds| ensures TableAt(disk, inds[i]) == TableAt(disk0, inds[i]) {
      assert inds[i] as nat in ZonesIn(inds);
      SameTable(disk0, disk, ZonesIn(zs), inds[i]);
    }
  }

  /** An inode that cannot reach all zones still cannot after data has been written. */
  lemma NotListed(disk0: Disk, disk: Disk, per: nat, zone: ZoneArray, zs: seq<u16>, inds: seq<u16>, used: set<nat>)
    requires per > 0 && CannotReach(disk0, per, zone, zs) && SameOutside(disk0, disk, ZonesIn(zs))
              && Uniform(disk, 2 * per)
    ensures !FileOk(disk, per, zone, zs, inds, used)
  {
    hide Groups, NonzeroPrefix, TableAt, DataZones, Represents;
    if |zs| > DIRECT + per && zone[8] as nat !in ZonesIn(zs) {
      SameTable(disk0, disk, ZonesIn(zs), zone[8]);
    }
    CannotReadBack(disk, per, zone, zs);
    if FileOk(disk, per, zone, zs, inds, used) {
      ReadBack(disk, per, zone, zs, inds);
    }
  }

  lemma OutsideKept(disk0: Disk, disk1: Disk, disk: Disk, zs0: seq<u16>, zs: seq<u16>, meta0: set<nat>, used0: set<nat>)
    requires |disk0| == |disk1| == |disk| && (forall x :: x in used0 ==> x < |disk|)
              && SameOutside(disk1, disk, ZonesIn(zs))
    requires forall x :: x in used0 - meta0 ==> disk1[x] == disk0[x]
    requires ZonesIn(zs) - ZonesIn(zs0) !! used0
    ensures forall x :: x in used0 - (ZonesIn(zs0) + meta0) ==> disk[x] == disk0[x]
  {
    hide ZonesIn;
  }
}