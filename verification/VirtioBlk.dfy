/** virtio-blk: byte-granular reads and writes over a device that moves whole sectors. */
module VirtioBlk {
  import opened Memory
  import opened Chunks

  const SECTOR_SIZE: nat := 512

  type Sector = s: seq<byte> | |s| == SECTOR_SIZE witness seq(SECTOR_SIZE, _ => 0)

  datatype IoResult = Done(n: nat) | Failed

  /** How much of [offset, offset + len) the loop moves before it hits the end of the device. */
  function Reach(capacity: nat, offset: nat, len: nat): (r: nat)
    ensures r <= len && (r < len ==> r == 0 || offset + r == capacity)
    ensures r == len <==> len == 0 || offset + len <= capacity
  {
    if offset >= capacity then 0 else Min(len, capacity - offset)
  }

  class Device {
    var sectors: seq<Sector>

    ghost function Bytes(): (s: seq<byte>)
      reads this
      ensures |s| == |sectors| * SECTOR_SIZE
    {
      FlattenLength(sectors, SECTOR_SIZE);
      Flatten(sectors)
    }

    /** One request for one sector, to or from the device. */
    method ReadSector(sector: nat) returns (r: Option<Sector>)
      ensures r == if sector < |sectors| then Some(sectors[sector]) else None
    {
      r := if sector < |sectors| then Some(sectors[sector]) else None;
    }

    method WriteSector(sector: nat, data: Sector) returns (ok: bool)
      modifies this
      ensures ok <==> sector < |old(sectors)|
      ensures sectors == if ok then old(sectors)[sector := data] else old(sectors)
    {
      ok := sector < |sectors|;
      if ok {
        sectors := sectors[sector := data];
      }
    }

    /** Read `buf.Length` bytes from `offset` on; past the end of the device the rest of the buffer is kept. */
    method ReadAt(buf: array<byte>, offset: nat) returns (r: IoResult)
      modifies buf
      ensures var n := Reach(|Bytes()|, offset, buf.Length);
              && r == (if n == buf.Length then Done(n) else Failed)
              && buf[..] == Filled(Bytes(), offset, n, old(buf[..]))
    {
      hide Device.Bytes, Filled, Flatten;
      ghost var orig, bytes := buf[..], Bytes();
      var done: nat := 0;
      FilledNone(bytes, offset, orig);
      while done < buf.Length
        invariant done <= buf.Length && InReach(|bytes|, offset, done) && buf[..] == Filled(bytes, offset, done, orig)
      {
        var pos := offset + done;
        var sector, shift := pos / SECTOR_SIZE, pos % SECTOR_SIZE;
        var data := ReadSector(sector);
        if data.None? {
          return Failed;
        }
        var n := Min(SECTOR_SIZE - shift, buf.Length - done);
        CopySlice(buf, done, data.value, shift, n);
        SectorSlice(sectors, pos, n);
        FilledMore(bytes, offset, done, orig, n);
        done := done + n;
      }
      return Done(done);
    }

    lemma SectorSlice(sectors: seq<Sector>, pos: nat, n: nat)
      requires sectors == this.sectors && pos / SECTOR_SIZE < |sectors| && pos % SECTOR_SIZE + n <= SECTOR_SIZE
      ensures pos + n <= |Bytes()|
      ensures Bytes()[pos..pos + n] == sectors[pos / SECTOR_SIZE][pos % SECTOR_SIZE..pos % SECTOR_SIZE + n]
    {
      FlattenSlice(sectors, SECTOR_SIZE, pos / SECTOR_SIZE, pos % SECTOR_SIZE, pos % SECTOR_SIZE + n);
    }

    /** Write `buf` at `offset`; past the end of the device the rest is not written. */
    method WriteAt(buf: array<byte>, offset: nat) returns (r: IoResult)
      modifies this
      ensures |Bytes()| == |old(Bytes())|
      ensures var n := Reach(|Bytes()|, offset, buf.Length);
              && r == (if n == buf.Length then Done(n) else Failed)
              && Bytes() == Written(old(Bytes()), offset, n, buf[..])
    {
      hide Device.Bytes, Written, Flatten;
      ghost var bytes := Bytes();
      var done: nat := 0;
      WrittenNone(bytes, offset, buf[..]);
      while done < buf.Length
        invariant done <= buf.Length && InReach(|bytes|, offset, done) && |Bytes()| == |bytes|
        invariant Bytes() == Written(bytes, offset, done, buf[..])
      {
        var pos := offset + done;
        var n := Min(SECTOR_SIZE - pos % SECTOR_SIZE, buf.Length - done);
        var ok := WritePart(buf[done..done + n], pos);
        if !ok {
          return Failed;
        }
        WrittenMore(bytes, offset, done, buf[..], n);
        done := done + n;
      }
      return Done(done);
    }

    /** Write inside one sector: a whole sector directly, anything less by reading the sector back first. */
    method WritePart(data: seq<byte>, pos: nat) returns (ok: bool)
      requires 0 < |data| && pos % SECTOR_SIZE + |data| <= SECTOR_SIZE
      modifies this
      ensures |Bytes()| == |old(Bytes())|
      ensures ok <==> pos < |Bytes()|
      ensures ok ==> pos + |data| <= |Bytes()| && Bytes() == Splice(old(Bytes()), pos, data)
      ensures !ok ==> Bytes() == old(Bytes())
    {
      var sector, shift := pos / SECTOR_SIZE, pos % SECTOR_SIZE;
      if shift == 0 && |data| == SECTOR_SIZE {
        ok := WriteSector(sector, data);
      } else {
        var was := ReadSector(sector);
        if was.None? {
          return false;
        }
        ok := WriteSector(sector, Splice(was.value, shift, data));
      }
      if ok {
        FlattenSplice(old(sectors), SECTOR_SIZE, sector, shift, data);
        assert data == Splice(old(sectors)[sector], 0, data) || |data| < SECTOR_SIZE;
      }
    }
  }

  predicate InReach(capacity: nat, offset: nat, done: nat) { done == 0 || offset + done <= capacity }

  /** A buffer whose first `done` bytes have been read. */
  function Filled(bytes: seq<byte>, offset: nat, done: nat, orig: seq<byte>): seq<byte>
    requires done <= |orig| && InReach(|bytes|, offset, done)
  {
    if done == 0 then orig else bytes[offset..offset + done] + orig[done..]
  }

  lemma FilledNone(bytes: seq<byte>, offset: nat, orig: seq<byte>)
    ensures Filled(bytes, offset, 0, orig) == orig
  {
  }

  lemma FilledMore(bytes: seq<byte>, offset: nat, done: nat, orig: seq<byte>, n: nat)
    requires done + n <= |orig| && InReach(|bytes|, offset, done) && offset + done + n <= |bytes| && n > 0
    ensures |Filled(bytes, offset, done, orig)| == |orig|
    ensures Splice(Filled(bytes, offset, done, orig), done, bytes[offset + done..offset + done + n]) == Filled(bytes,
              offset, done + n, orig)
  {
    assert bytes[offset..offset + done + n] == bytes[offset..offset + done] + bytes[offset + done..offset + done + n];
  }

  /** A disk after the first `done` bytes of `data` have been written at `offset`. */
  function Written(bytes: seq<byte>, offset: nat, done: nat, data: seq<byte>): seq<byte>
    requires done <= |data| && InReach(|bytes|, offset, done)
  {
    if done == 0 then bytes else Splice(bytes, offset, data[..done])
  }

  lemma WrittenNone(bytes: seq<byte>, offset: nat, data: seq<byte>)
    ensures Written(bytes, offset, 0, data) == bytes
  {
  }

  lemma WrittenMore(bytes: seq<byte>, offset: nat, done: nat, data: seq<byte>, n: nat)
    requires done + n <= |data| && InReach(|bytes|, offset, done) && offset + done + n <= |bytes| && n > 0
    ensures |Written(bytes, offset, done, data)| == |bytes|
    ensures Splice(Written(bytes, offset, done, data), offset + done, data[done..done + n]) == Written(bytes, offset,
              done + n, data)
  {
    assert data[..done + n] == data[..done] + data[done..done + n];
    SpliceSplice(bytes, offset, data[..done], data[done..done + n]);
  }

  /** `copy_from_slice` into part of a buffer. */
  method CopySlice(buf: array<byte>, at: nat, data: seq<byte>, from: nat, n: nat)
    requires at + n <= buf.Length && from + n <= |data|
    modifies buf
    ensures buf[..] == Splice(old(buf[..]), at, data[from..from + n])
  {
    ghost var orig := buf[..];
    var i := 0;
    while i < n
      invariant i <= n && buf[..] == Splice(orig, at, data[from..from + i])
    {
      buf[at + i] := data[from + i];
      i := i + 1;
    }
  }

  /** What was written is what is read back. */
  lemma WriteThenRead(bytes: seq<byte>, offset: nat, data: seq<byte>, orig: seq<byte>)
    requires |data| == |orig| && offset + |data| <= |bytes|
    ensures Filled(Written(bytes, offset, |data|, data), offset, |data|, orig) == data
  {
    if data != [] {
      var after := Written(bytes, offset, |data|, data);
      assert data[..|data|] == data;
      assert after[offset..offset + |data|] == data;
    }
  }
}
