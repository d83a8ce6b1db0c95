/** Zones on a block device: what the file system does to zones, done to sectors. */
module MinixDevice {
  import opened Memory
  import opened Chunks
  import opened MinixSpec
  import opened VirtioBlk

  /** The device is exactly the zones of the disk, end to end. */
  ghost predicate Backs(dev: Device, disk: Disk, zoneSize: nat)
    reads dev
  {
    zoneSize > 0 && Uniform(disk, zoneSize) && dev.Bytes() == Flatten(disk)
  }

  /** `read_at` inside a zone: that part of the zone, or an error exactly past the end. */
  method ReadInZone(dev: Device, ghost disk: Disk, zoneSize: nat, zone: u16, at: nat, n: nat)
    returns (out: Option<seq<byte>>)
    requires Backs(dev, disk, zoneSize) && 0 < n && at + n <= zoneSize
    ensures out == if zone < |disk| then Some(disk[zone][at..at + n]) else None
  {
    ZonePart(disk, zoneSize, zone, at, n);
    var buf := new byte[n](_ => 0);
    ghost var was := buf[..];
    hide Filled, VirtioBlk.Filled, Device.Bytes, Flatten, Chunks.Flatten;
    var r := dev.ReadAt(buf, zone * zoneSize + at);
    if r == Failed {
      return None;
    }
    FilledWhole(dev.Bytes(), zone * zoneSize + at, was);
    out := Some(buf[..]);
  }

  lemma ZonePart(disk: Disk, zoneSize: nat, zone: nat, at: nat, n: nat)
    requires zoneSize > 0 && Uniform(disk, zoneSize) && 0 < n && at + n <= zoneSize
    ensures zone * zoneSize + at + n <= |Flatten(disk)| <==> zone < |disk|
    ensures zone < |disk| ==> Flatten(disk)[zone * zoneSize + at..zone * zoneSize + at + n] == disk[zone][at..at + n]
  {
    FlattenLength(disk, zoneSize);
    if zone < |disk| {
      FlattenSlice(disk, zoneSize, zone, at, at + n);
    } else if zone > |disk| {
      MulOrder(|disk|, zone, zoneSize);
    }
  }

  /** `read_zone_into`: the zone, or an error exactly past the end. */
  method ReadZone(dev: Device, ghost disk: Disk, zoneSize: nat, zone: u16) returns (out: Option<seq<byte>>)
    requires Backs(dev, disk, zoneSize)
    ensures out == if zone < |disk| then Some(disk[zone]) else None
  {
    out := ReadInZone(dev, disk, zoneSize, zone, 0, zoneSize);
    if zone < |disk| {
      assert disk[zone][0..zoneSize] == disk[zone];
    }
  }

  lemma FilledWhole(bytes: seq<byte>, offset: nat, orig: seq<byte>)
    requires offset + |orig| <= |bytes|
    ensures Filled(bytes, offset, |orig|, orig) == bytes[offset..offset + |orig|]
  {
  }

  /** `write_at` inside a zone: on the disk, exactly that part of that zone. */
  method WriteInZone(dev: Device, ghost disk: Disk, zoneSize: nat, zone: u16, at: nat, data: seq<byte>)
    requires Backs(dev, disk, zoneSize) && zone < |disk| && at + |data| <= zoneSize
    modifies dev
    ensures Backs(dev, disk[zone as nat := Splice(disk[zone], at, data)], zoneSize)
  {
    FlattenSplice(disk, zoneSize, zone, at, data);
    var buf := new byte[|data|](i requires 0 <= i < |data| => data[i]);
    assert buf[..] == data;
    var r := dev.WriteAt(buf, zone * zoneSize + at);
    if data == [] {
      assert Splice(disk[zone], at, data) == disk[zone];
      assert disk[zone as nat := disk[zone]] == disk;
    }
    assert data[..|data|] == data;
  }

  /** A zone table written to sectors and read back. */
  method StoreTable(dev: Device, ghost disk: Disk, zoneSize: nat, zone: u16, table: seq<u16>)
      returns (back: Option<seq<u16>>)
    requires Backs(dev, disk, zoneSize) && zone < |disk| && 2 * |table| == zoneSize
    modifies dev
    ensures Backs(dev, disk[zone as nat := EncodeTable(table)], zoneSize) && back == Some(table)
  {
    TableRoundTrip(table);
    assert Splice(disk[zone], 0, EncodeTable(table)) == EncodeTable(table);
    WriteInZone(dev, disk, zoneSize, zone, 0, EncodeTable(table));
    var bytes := ReadZone(dev, disk[zone as nat := EncodeTable(table)], zoneSize, zone);
    back := Some(DecodeTable(bytes.value));
  }
}
