/** MINIX V1 zone maps: how an inode and its indirect tables encode a file's list of zones. */
module MinixSpec {
  import opened Memory
  import opened Chunks

  type u16 = w: nat | w < 65536

  const DIRECT: nat := 7

  /** The disk, zone by zone. */
  type Disk = seq<seq<byte>>

  // ----- tables of zone numbers, little-endian on disk -----

  function EncodeTable(t: seq<u16>): seq<byte> {
    if t == [] then [] else [t[0] % 256, t[0] / 256] + EncodeTable(t[1..])
  }

  function Word(lo: nat, hi: nat): u16
    requires lo < 256 && hi < 256
  {
    lo + 256 * hi
  }

  function DecodeTable(b: seq<byte>): seq<u16> {
    if |b| < 2 then [] else [Word(b[0], b[1])] + DecodeTable(b[2..])
  }

  lemma {:induction false} TableRoundTrip(t: seq<u16>)
    ensures |EncodeTable(t)| == 2 * |t| && DecodeTable(EncodeTable(t)) == t
  {
    if t != [] {
      TableRoundTrip(t[1..]);
      var e := EncodeTable(t);
      assert e[2..] == EncodeTable(t[1..]);
      assert Word(e[0], e[1]) == t[0];
    }
  }

  /** Zone numbers are little-endian: the low byte comes first. */
  lemma {:induction false} DecodedAt(b: seq<byte>, i: nat)
    requires i < |b| / 2
    ensures |DecodeTable(b)| == |b| / 2 && DecodeTable(b)[i] == b[2 * i] as nat + 256 * b[2 * i + 1] as nat
    decreases |b|
  {
    DecodeLength(b);
    if i > 0 {
      DecodedAt(b[2..], i - 1);
      assert b[2..][2 * (i - 1)] == b[2 * i] && b[2..][2 * (i - 1) + 1] == b[2 * i + 1];
    }
  }

  lemma {:induction false} EncodedAt(t: seq<u16>, i: nat)
    requires i < |t|
    ensures |EncodeTable(t)| == 2 * |t|
    ensures EncodeTable(t)[2 * i] == t[i] % 256 && EncodeTable(t)[2 * i + 1] == t[i] / 256
  {
    hide DecodeTable;
    TableRoundTrip(t);
    if i > 0 {
      EncodedAt(t[1..], i - 1);
      EncodedNext(t, 2 * (i - 1));
      EncodedNext(t, 2 * (i - 1) + 1);
    }
  }

  lemma EncodedNext(t: seq<u16>, j: nat)
    requires t != [] && j < |EncodeTable(t[1..])|
    ensures j + 2 < |EncodeTable(t)| && EncodeTable(t)[j + 2] == EncodeTable(t[1..])[j]
  {
  }

  lemma {:induction false} DecodeLength(b: seq<byte>)
    ensures |DecodeTable(b)| == |b| / 2
    decreases |b|
  {
    if |b| >= 2 {
      DecodeLength(b[2..]);
    }
  }

  function TableAt(disk: Disk, z: nat): seq<u16> { if z < |disk| then DecodeTable(disk[z]) else [] }

  /** Up to the first zero. */
  function NonzeroPrefix(t: seq<u16>): seq<u16> {
    if t == [] || t[0] == 0 then [] else [t[0]] + NonzeroPrefix(t[1..])
  }

  predicate AllNonzero(t: seq<u16>) { forall i :: 0 <= i < |t| ==> t[i] != 0 }

  function Zeros(n: nat): seq<u16> { seq(n, _ => 0) }

  /** `resize(n, 0)` of a list that fits. */
  function Pad(t: seq<u16>, n: nat): (r: seq<u16>)
    requires |t| <= n
    ensures |r| == n
  {
    t + Zeros(n - |t|)
  }

  /** Reading a padded list gives the list back. */
  lemma {:induction false} PrefixOfPad(t: seq<u16>, n: nat)
    requires |t| <= n && AllNonzero(t)
    ensures NonzeroPrefix(Pad(t, n)) == t
    decreases t
  {
    if t != [] {
      PrefixOfPad(t[1..], n - 1);
      assert Pad(t, n)[1..] == Pad(t[1..], n - 1);
    }
  }

  // ----- reading -----

  /** `zone_table`: no zone, no table. */
  function ZoneTable(disk: Disk, z: nat): seq<u16> {
    if z == 0 then [] else NonzeroPrefix(TableAt(disk, z))
  }

  /** The tables of a list of zones, end to end. */
  function TablesOf(disk: Disk, inds: seq<u16>): seq<u16> {
    if inds == [] then [] else ZoneTable(disk, inds[0]) + TablesOf(disk, inds[1..])
  }

  type ZoneArray = z: seq<u16> | |z| == 9 witness [0, 0, 0, 0, 0, 0, 0, 0, 0]

  /** `data_zones`: direct, then single indirect, then double indirect; a zero direct entry ends it. */
  function DataZones(disk: Disk, zone: ZoneArray): seq<u16> {
    var direct := NonzeroPrefix(zone[..DIRECT]);
    if |direct| < DIRECT then direct
    else direct + ZoneTable(disk, zone[7]) + TablesOf(disk, ZoneTable(disk, zone[8]))
  }

  // ----- the layout of a list of zones -----

  /** `chunks(per)`. */
  function Groups(s: seq<u16>, per: nat): seq<seq<u16>>
    requires per > 0
    decreases |s|
  {
    if s == [] then [] else [s[..Min(per, |s|)]] + Groups(s[Min(per, |s|)..], per)
  }

  /** The number of groups for `n` zones. */
  function GroupCount(n: nat, per: nat): nat
    requires per > 0
    decreases n
  {
    if n == 0 then 0 else 1 + GroupCount(n - Min(per, n), per)
  }

  lemma {:induction false} GroupsAre(s: seq<u16>, per: nat)
    requires per > 0
    ensures |Groups(s, per)| == GroupCount(|s|, per) && Flatten(Groups(s, per)) == s
    ensures forall i :: 0 <= i < |Groups(s, per)| ==> 0 < |Groups(s, per)[i]| <= per
    decreases |s|
  {
    if s != [] {
      var n := Min(per, |s|);
      GroupsAre(s[n..], per);
      assert s == s[..n] + s[n..];
    }
  }

  function First(zs: seq<u16>): seq<u16> { zs[..Min(|zs|, DIRECT)] }

  function Second(zs: seq<u16>, per: nat): seq<u16> {
    if |zs| <= DIRECT then [] else zs[DIRECT..Min(|zs|, DIRECT + per)]
  }

  function Third(zs: seq<u16>, per: nat): seq<u16> {
    if |zs| <= DIRECT + per then [] else zs[DIRECT + per..]
  }

  lemma ThreeParts(zs: seq<u16>, per: nat)
    ensures zs == First(zs) + Second(zs, per) + Third(zs, per)
  {
  }

  /** The group tables `inds` hold the groups. */
  ghost predicate Holds(disk: Disk, per: nat, inds: seq<u16>, groups: seq<seq<u16>>) {
    && |inds| == |groups|
    && forall i :: 0 <= i < |inds| ==>
         inds[i] != 0 && |groups[i]| <= per && TableAt(disk, inds[i]) == Pad(groups[i], per)
  }

  /** The inode and its tables say that the file's zones are `zs`; `inds` are the tables behind zone[8]. */
  ghost predicate Represents(disk: Disk, per: nat, zone: ZoneArray, zs: seq<u16>, inds: seq<u16>)
    requires per > 0
  {
    && AllNonzero(zs) && |inds| <= per
    && zone[..DIRECT] == Pad(First(zs), DIRECT)
    && (|zs| <= DIRECT <==> zone[7] == 0)
    && (|zs| > DIRECT ==> TableAt(disk, zone[7]) == Pad(Second(zs, per), per))
    && (|zs| <= DIRECT + per <==> zone[8] == 0)
    && (|zs| > DIRECT + per ==> TableAt(disk, zone[8]) == Pad(inds, per))
    && Holds(disk, per, inds, Groups(Third(zs, per), per))
  }

  lemma {:induction false} HeldTables(disk: Disk, per: nat, inds: seq<u16>, groups: seq<seq<u16>>)
    requires Holds(disk, per, inds, groups) && forall i :: 0 <= i < |groups| ==> AllNonzero(groups[i])
    ensures TablesOf(disk, inds) == Flatten(groups)
    decreases inds
  {
    if inds != [] {
      assert TableAt(disk, inds[0]) == Pad(groups[0], per) && AllNonzero(groups[0]);
      PrefixOfPad(groups[0], per);
      assert Holds(disk, per, inds[1..], groups[1..]) by {
        forall i | 0 <= i < |inds[1..]| ensures inds[1..][i] != 0 && |groups[1..][i]| <= per
            && TableAt(disk, inds[1..][i]) == Pad(groups[1..][i], per) {
          assert inds[1..][i] == inds[i + 1] && groups[1..][i] == groups[i + 1];
        }
      }
      forall i | 0 <= i < |groups[1..]| ensures AllNonzero(groups[1..][i]) {
        assert groups[1..][i] == groups[i + 1];
      }
      HeldTables(disk, per, inds[1..], groups[1..]);
    }
  }

  lemma {:induction false} GroupsNonzero(s: seq<u16>, per: nat)
    requires per > 0 && AllNonzero(s)
    ensures forall i :: 0 <= i < |Groups(s, per)| ==> AllNonzero(Groups(s, per)[i])
    decreases |s|
  {
    if s != [] {
      GroupsNonzero(s[Min(per, |s|)..], per);
    }
  }

  /** Reading back the layout gives the list. */
  lemma ReadBack(disk: Disk, per: nat, zone: ZoneArray, zs: seq<u16>, inds: seq<u16>)
    requires per > 0 && Represents(disk, per, zone, zs, inds)
    ensures DataZones(disk, zone) == zs
  {
    ThreeParts(zs, per);
    PrefixOfPad(First(zs), DIRECT);
    if |zs| > DIRECT {
      PrefixOfPad(Second(zs, per), per);
    }
    if |zs| > DIRECT + per {
      HoldsNonzero(disk, per, inds, Groups(Third(zs, per), per));
      PrefixOfPad(inds, per);
    } else {
      assert inds == [];
    }
    GroupsNonzero(Third(zs, per), per);
    HeldTables(disk, per, inds, Groups(Third(zs, per), per));
    GroupsAre(Third(zs, per), per);
  }

  lemma HoldsNonzero(disk: Disk, per: nat, inds: seq<u16>, groups: seq<seq<u16>>)
    requires Holds(disk, per, inds, groups)
    ensures AllNonzero(inds)
  {
  }

  lemma {:induction false} GroupAt(s: seq<u16>, per: nat, k: nat)
    requires per > 0 && k < |Groups(s, per)|
    ensures k * per < |s| && Groups(s, per)[k] == s[k * per..Min(k * per + per, |s|)]
    decreases k
  {
    if k > 0 {
      var n := Min(per, |s|);
      GroupAt(s[n..], per, k - 1);
      MulStep(k, per);
      assert Groups(s, per)[k] == Groups(s[n..], per)[k - 1];
      SliceAfter(s, n, (k - 1) * per, per);
    }
  }

  lemma SliceAfter(s: seq<u16>, n: nat, m: nat, per: nat)
    requires n <= |s| && m < |s| - n
    ensures s[n..][m..Min(m + per, |s[n..]|)] == s[m + n..Min(m + n + per, |s|)]
  {
  }

  /** Entry `k * per + r` lies in group `k` at place `r`. */
  lemma EntryOfGroup(s: seq<u16>, per: nat, k: nat, r: nat)
    requires r < per && k * per + r < |s|
    ensures k < |Groups(s, per)| && r < |Groups(s, per)[k]| && Groups(s, per)[k][r] == s[k * per + r]
  {
    hide Groups;
    GroupsReach(s, per);
    if k >= |Groups(s, per)| {
      MulOrder(|Groups(s, per)| - 1, k, per);
    }
    GroupAt(s, per, k);
  }

  lemma {:induction false} GroupsReach(s: seq<u16>, per: nat)
    requires per > 0
    ensures |s| <= |Groups(s, per)| * per && (s != [] ==> |Groups(s, per)| > 0)
    decreases |s|
  {
    if s != [] {
      GroupsReach(s[Min(per, |s|)..], per);
      MulStep(|Groups(s, per)|, per);
    }
  }

  lemma PaddedAt(t: seq<u16>, n: nat, i: nat)
    requires i < |t| <= n
    ensures Pad(t, n)[i] == t[i]
  {
  }

  /** The number of zone `i` is kept in the inode, or in the table of zone[7]. */
  lemma LayoutIs(disk: Disk, per: nat, zone: ZoneArray, zs: seq<u16>, inds: seq<u16>, i: nat)
    requires per > 0 && Represents(disk, per, zone, zs, inds) && i < |zs|
    ensures i < 7 ==> zs[i] == zone[i]
    ensures 7 <= i < 7 + per ==> |TableAt(disk, zone[7])| == per && zs[i] == TableAt(disk, zone[7])[i - 7]
  {
    hide Groups, TableAt, Pad, Holds;
    if i < 7 {
      PaddedAt(First(zs), DIRECT, i);
      assert zone[..DIRECT][i] == zone[i];
    } else if i < 7 + per {
      PaddedAt(Second(zs, per), per, i - 7);
    }
  }

  /** Or, further on, in entry `r` of the table whose zone is entry `k` of the table of zone[8]. */
  lemma DoubleLayoutIs(disk: Disk, per: nat, zone: ZoneArray, zs: seq<u16>, inds: seq<u16>, k: nat, r: nat, i: nat)
    requires r < per && Represents(disk, per, zone, zs, inds) && i == 7 + per + (k * per + r) && i < |zs|
    ensures |TableAt(disk, zone[8])| == per && k < per
    ensures |TableAt(disk, TableAt(disk, zone[8])[k])| == per
    ensures zs[i] == TableAt(disk, TableAt(disk, zone[8])[k])[r]
  {
    hide Groups, TableAt, Pad;
    EntryOfGroup(Third(zs, per), per, k, r);
    PaddedAt(inds, per, k);
    PaddedAt(Groups(Third(zs, per), per)[k], per, r);
  }
}
