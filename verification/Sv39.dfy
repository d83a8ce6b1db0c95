/**
 Sv39 page tables: the hardware walk of the RISC-V Privileged Architecture (version 20211203,
 sections 4.3.2 and 4.4), and what the kernel's table updates do to it.
 */
module Sv39 {
  import Memory

  const ENTRIES: nat := 512
  /** Number of virtual page numbers: three levels of nine bits. */
  const VPNS: nat := 134217728

  datatype Flags = Flags(r: bool, w: bool, x: bool, u: bool, g: bool, a: bool, d: bool)

  datatype Pte = Pte(v: bool, flags: Flags, ppn: nat)

  const NO_FLAGS := Flags(false, false, false, false, false, false, false)
  const EMPTY := Pte(false, NO_FLAGS, 0)

  type Table = t: seq<Pte> | |t| == ENTRIES witness seq(ENTRIES, _ => EMPTY)

  function Blank(): Table { seq(ENTRIES, _ => EMPTY) }

  datatype Translation = Fault | Mapped(ppn: nat, flags: Flags)

  function Vpn2(vpn: nat): nat { vpn / 262144 }
  function Vpn1(vpn: nat): nat { vpn / 512 % 512 }
  function Vpn0(vpn: nat): nat { vpn % 512 }

  predicate IsVpn(vpn: nat) { vpn < VPNS }

  /** The virtual page number of a 64-bit address: bits 12 to 38. */
  function VpnOf(va: nat): (vpn: nat)
    ensures IsVpn(vpn)
  {
    va / 4096 % VPNS
  }

  lemma VpnDigits(a: nat, b: nat)
    requires IsVpn(a) && IsVpn(b)
    ensures Vpn2(a) < ENTRIES && Vpn1(a) < ENTRIES && Vpn0(a) < ENTRIES
    ensures a == b <==> Vpn2(a) == Vpn2(b) && Vpn1(a) == Vpn1(b) && Vpn0(a) == Vpn0(b)
    ensures a == ENTRIES * ENTRIES * Vpn2(a) + ENTRIES * Vpn1(a) + Vpn0(a)
  {
    assert a == 262144 * Vpn2(a) + 512 * Vpn1(a) + Vpn0(a);
    assert b == 262144 * Vpn2(b) + 512 * Vpn1(b) + Vpn0(b);
  }

  /** Step 3 of the walk: invalid, or the reserved write-without-read encoding. */
  predicate Faults(e: Pte) { !e.v || (!e.flags.r && e.flags.w) }
  /** Step 4: a leaf is readable or executable. */
  predicate IsLeaf(e: Pte) { e.flags.r || e.flags.x }

  /** A valid entry that points to a table of the next level. */
  predicate IsPointer(e: Pte) { e.v && !e.flags.r && !e.flags.w && !e.flags.x }

  /** Step 6: a leaf above level 0 must be aligned to its size, in pages. */
  function LeafAt(e: Pte, vpn: nat, pages: nat): Translation
    requires pages > 0
  {
    if e.ppn % pages != 0 then Fault else Mapped(e.ppn + vpn % pages, e.flags)
  }

  /** A leaf translates every byte of its range to the byte at the same place of an aligned physical range. */
  lemma LeafIsRange(e: Pte, va: nat, pages: nat)
    requires pages == 262144 || pages == 512
    ensures LeafAt(e, VpnOf(va), pages).Mapped? <==> e.ppn % pages == 0
    ensures LeafAt(e, VpnOf(va), pages).Mapped? ==>
              && LeafAt(e, VpnOf(va), pages).flags == e.flags
              && LeafAt(e, VpnOf(va), pages).ppn * 4096 + va % 4096 == e.ppn * 4096 + va % (4096 * pages)
  {
    OffsetInLeaf(va, pages);
  }

  lemma OffsetInLeaf(va: nat, pages: nat)
    requires pages == 262144 || pages == 512
    ensures va % (4096 * pages) == VpnOf(va) % pages * 4096 + va % 4096
  {
    var x, o := va / 4096, va % 4096;
    var k, r := x / pages, x % pages;
    Memory.DivModUnique(va, 4096 * pages, k, r * 4096 + o);
    var y := x % VPNS;
    var m := VPNS / pages;
    assert x == pages * m * (x / VPNS) + y;
    Memory.DivModUnique(x, pages, m * (x / VPNS) + y / pages, y % pages);
  }

  /** The walk. `mem` holds every page that is a page table, by physical page number. */
  function Walk(root: Table, mem: map<nat, Table>, vpn: nat): Translation
    requires IsVpn(vpn)
  {
    var e2 := root[Vpn2(vpn)];
    if Faults(e2) then Fault
    else if IsLeaf(e2) then LeafAt(e2, vpn, 262144)
    else if e2.ppn !in mem then Fault
    else Walk1(mem[e2.ppn], mem, vpn)
  }

  function Walk1(table: Table, mem: map<nat, Table>, vpn: nat): Translation {
    var e1 := table[Vpn1(vpn)];
    if Faults(e1) then Fault
    else if IsLeaf(e1) then LeafAt(e1, vpn, 512)
    else if e1.ppn !in mem then Fault
    else Walk0(mem[e1.ppn], vpn)
  }

  function Walk0(table: Table, vpn: nat): Translation {
    var e0 := table[Vpn0(vpn)];
    if Faults(e0) || !IsLeaf(e0) then Fault else Mapped(e0.ppn, e0.flags)
  }

  // ----- an address space -----

  /** A space's own tables: the root and the intermediate tables it created, by page number. */
  datatype Space = Space(root: Table, tables: map<nat, Table>)

  /** Which slot refers to a table: a root slot, or a slot of the table below a root slot. */
  datatype Slot = L1(i: nat) | L0(i: nat, j: nat)

  predicate IsBlankOrPointer(e: Pte) { e == EMPTY || IsPointer(e) }

  /**
   The shape of every reachable space.  Root entries are empty or pointers; those into the
   space's own tables form a two-level tree in which no table has two parents.
   */
  ghost predicate TreeShaped(s: Space, owner: map<nat, Slot>) {
    && 0 !in s.tables
    && (forall i :: 0 <= i < ENTRIES ==> RootOk(s, owner, i))
    && (forall p :: p in s.tables && p in owner && owner[p].L1? ==> forall j :: 0 <= j < ENTRIES ==>
         Level1Ok(s, owner, p, j))
  }

  ghost predicate RootOk(s: Space, owner: map<nat, Slot>, i: nat)
    requires i < ENTRIES
  {
    IsBlankOrPointer(s.root[i])
    && (s.root[i].v && s.root[i].ppn in s.tables ==> s.root[i].ppn in owner && owner[s.root[i].ppn] == L1(i))
  }

  ghost predicate Level1Ok(s: Space, owner: map<nat, Slot>, p: nat, j: nat)
    requires p in s.tables && p in owner && owner[p].L1? && j < ENTRIES
  {
    var e := s.tables[p][j];
    IsBlankOrPointer(e) && (e.v ==> e.ppn in s.tables && e.ppn in owner && owner[e.ppn] == L0(owner[p].i, j))
  }

  /**
   `others` is the rest of page-table memory (the kernel's tables, other spaces): it shares no
   page with the space, points only into itself, and holds the root slots the space shares.
   */
  ghost predicate Placed(s: Space, others: map<nat, Table>) {
    && (forall p :: p in others ==> p !in s.tables)
    && (forall p, j :: p in others && 0 <= j < ENTRIES && IsPointer(others[p][j]) ==> others[p][j].ppn in others)
    && (forall i :: 0 <= i < ENTRIES && s.root[i].v ==> s.root[i].ppn in s.tables || s.root[i].ppn in others)
  }

  /** The walk in a machine whose remaining page-table memory is `others`. */
  ghost function WalkIn(s: Space, others: map<nat, Table>, vpn: nat): Translation
    requires IsVpn(vpn)
  {
    Walk(s.root, others + s.tables, vpn)
  }

  /** The root slot of `vpn` belongs to the kernel. */
  predicate IsShared(s: Space, vpn: nat)
    requires IsVpn(vpn)
  {
    VpnDigits(vpn, vpn);
    s.root[Vpn2(vpn)].v && s.root[Vpn2(vpn)].ppn !in s.tables
  }

  // ----- the three updates that `map` and `unmap` are made of -----

  function Pointer(ppn: nat): Pte { Pte(true, NO_FLAGS, ppn) }

  function NewLevel1(s: Space, i: nat, ppn: nat): Space
    requires i < ENTRIES
  {
    Space(s.root[i := Pointer(ppn)], s.tables[ppn := Blank()])
  }

  function NewLevel0(s: Space, p1: nat, j: nat, ppn: nat): Space
    requires p1 in s.tables && j < ENTRIES
  {
    s.(tables := s.tables[p1 := s.tables[p1][j := Pointer(ppn)]][ppn := Blank()])
  }

  function SetEntry(s: Space, p0: nat, k: nat, e: Pte): Space
    requires p0 in s.tables && k < ENTRIES
  {
    s.(tables := s.tables[p0 := s.tables[p0][k := e]])
  }

  /** A fresh blank level-1 table changes no translation. */
  lemma NewLevel1Same(s: Space, owner: map<nat, Slot>, i: nat, ppn: nat, others: map<nat, Table>)
    requires TreeShaped(s, owner) && i < ENTRIES && s.root[i] == EMPTY
    requires ppn != 0 && ppn !in s.tables && ppn !in others && Placed(s, others)
    ensures TreeShaped(NewLevel1(s, i, ppn), owner[ppn := L1(i)]) && Placed(NewLevel1(s, i, ppn), others)
    ensures forall vpn :: IsVpn(vpn) ==> WalkIn(NewLevel1(s, i, ppn), others, vpn) == WalkIn(s, others, vpn)
  {
    var s', owner' := NewLevel1(s, i, ppn), owner[ppn := L1(i)];
    forall k | 0 <= k < ENTRIES ensures RootOk(s', owner', k) {
      assert RootOk(s, owner, k);
    }
    forall p, j | p in s'.tables && p in owner' && owner'[p].L1? && 0 <= j < ENTRIES
        ensures Level1Ok(s', owner', p, j) {
      assert p != ppn ==> Level1Ok(s, owner, p, j);
    }
    forall vpn | IsVpn(vpn) ensures WalkIn(s', others, vpn) == WalkIn(s, others, vpn) {
      VpnDigits(vpn, vpn);
      var e2 := s.root[Vpn2(vpn)];
      assert RootOk(s, owner, Vpn2(vpn));
    }
  }

  /** A fresh blank level-0 table changes no translation. */
  lemma NewLevel0Same(s: Space, owner: map<nat, Slot>, i: nat, j: nat, ppn: nat, others: map<nat, Table>)
    requires TreeShaped(s, owner) && i < ENTRIES && j < ENTRIES
    requires s.root[i].v && s.root[i].ppn in s.tables && s.tables[s.root[i].ppn][j] == EMPTY
    requires ppn != 0 && ppn !in s.tables && ppn !in others && Placed(s, others)
    ensures TreeShaped(NewLevel0(s, s.root[i].ppn, j, ppn), owner[ppn := L0(i, j)])
    ensures Placed(NewLevel0(s, s.root[i].ppn, j, ppn), others)
    ensures forall vpn :: IsVpn(vpn) ==>
              WalkIn(NewLevel0(s, s.root[i].ppn, j, ppn), others, vpn) == WalkIn(s, others, vpn)
  {
    var p1 := s.root[i].ppn;
    assert RootOk(s, owner, i);
    var s', owner' := NewLevel0(s, p1, j, ppn), owner[ppn := L0(i, j)];
    forall k | 0 <= k < ENTRIES ensures RootOk(s', owner', k) {
      assert RootOk(s, owner, k);
    }
    forall p, l | p in s'.tables && p in owner' && owner'[p].L1? && 0 <= l < ENTRIES
        ensures Level1Ok(s', owner', p, l) {
      assert Level1Ok(s, owner, p, l);
    }
    forall vpn | IsVpn(vpn) ensures WalkIn(s', others, vpn) == WalkIn(s, others, vpn) {
      VpnDigits(vpn, vpn);
      var i2 := Vpn2(vpn);
      assert RootOk(s, owner, i2);
      if s.root[i2].v && s.root[i2].ppn in s.tables {
        assert Level1Ok(s, owner, s.root[i2].ppn, Vpn1(vpn));
      }
    }
  }

  /** What a level-0 entry translates to. */
  function Translated(e: Pte): Translation {
    if Faults(e) || !IsLeaf(e) then Fault else Mapped(e.ppn, e.flags)
  }

  /** Readable pages and executable ones that are not writable are mapped; all other entries fault. */
  lemma TranslatedIff(flags: Flags, ppn: nat)
    ensures Translated(Pte(true, flags, ppn)) == if flags.r || (flags.x && !flags.w) then Mapped(ppn, flags) else Fault
    ensures Translated(Pte(false, flags, ppn)) == Fault
  {
  }

  /** The level-0 table that serves `vpn`, when both levels above it exist. */
  predicate HasLeafTable(s: Space, vpn: nat)
    requires IsVpn(vpn)
  {
    VpnDigits(vpn, vpn);
    var e2 := s.root[Vpn2(vpn)];
    e2.v && e2.ppn in s.tables && s.tables[e2.ppn][Vpn1(vpn)].v && s.tables[e2.ppn][Vpn1(vpn)].ppn in s.tables
  }

  function LeafTable(s: Space, vpn: nat): nat
    requires IsVpn(vpn) && HasLeafTable(s, vpn)
  {
    VpnDigits(vpn, vpn);
    s.tables[s.root[Vpn2(vpn)].ppn][Vpn1(vpn)].ppn
  }

  /** Writing a level-0 entry decides the translation of its own page and of no other. */
  lemma SetEntryWalk(s: Space, owner: map<nat, Slot>, vpn: nat, e: Pte, others: map<nat, Table>)
    requires TreeShaped(s, owner) && Placed(s, others) && IsVpn(vpn) && HasLeafTable(s, vpn)
    ensures Vpn0(vpn) < ENTRIES
    ensures var s' := SetEntry(s, LeafTable(s, vpn), Vpn0(vpn), e);
            && TreeShaped(s', owner) && Placed(s', others)
            && (forall q :: IsVpn(q) ==>
                 WalkIn(s', others, q) == if q == vpn then Translated(e) else WalkIn(s, others, q))
            && (forall q :: IsVpn(q) && HasLeafTable(s, q) ==> HasLeafTable(s', q))
  {
    VpnDigits(vpn, vpn);
    var p0 := LeafTable(s, vpn);
    var s' := SetEntry(s, p0, Vpn0(vpn), e);
    assert RootOk(s, owner, Vpn2(vpn));
    assert Level1Ok(s, owner, s.root[Vpn2(vpn)].ppn, Vpn1(vpn));
    forall k | 0 <= k < ENTRIES ensures RootOk(s', owner, k) {
      assert RootOk(s, owner, k);
    }
    forall p, l | p in s'.tables && p in owner && owner[p].L1? && 0 <= l < ENTRIES ensures Level1Ok(s', owner, p, l) {
      assert Level1Ok(s, owner, p, l);
    }
    forall q | IsVpn(q)
      ensures WalkIn(s', others, q) == if q == vpn then Translated(e) else WalkIn(s, others, q)
      ensures HasLeafTable(s, q) ==> HasLeafTable(s', q)
    {
      VpnDigits(q, vpn);
      var i2 := Vpn2(q);
      assert RootOk(s, owner, i2);
      if s.root[i2].v && s.root[i2].ppn in s.tables {
        assert Level1Ok(s, owner, s.root[i2].ppn, Vpn1(q));
      }
    }
  }

  /** An unmapped page below a missing table already faults. */
  lemma NoLeafTableFaults(s: Space, owner: map<nat, Slot>, vpn: nat, others: map<nat, Table>)
    requires TreeShaped(s, owner) && IsVpn(vpn) && !HasLeafTable(s, vpn)
    requires s.root[Vpn2(vpn)].v ==> s.root[Vpn2(vpn)].ppn in s.tables
    ensures WalkIn(s, others, vpn) == Fault
  {
    VpnDigits(vpn, vpn);
    assert RootOk(s, owner, Vpn2(vpn));
    if s.root[Vpn2(vpn)].v {
      assert Level1Ok(s, owner, s.root[Vpn2(vpn)].ppn, Vpn1(vpn));
    }
  }

  // ----- tables that are not there yet -----

  /** The slot has no table: an empty root slot, or a slot below it without a leaf table. */
  predicate Lacks(s: Space, slot: Slot) {
    match slot
    case L1(i) => i < ENTRIES && !s.root[i].v
    case L0(i, j) =>
      i < ENTRIES && j < ENTRIES && !(s.root[i].v && s.root[i].ppn in s.tables && s.tables[s.root[i].ppn][j].v)
  }

  function Slot1(vpn: nat): Slot { L1(Vpn2(vpn)) }
  function Slot0(vpn: nat): Slot { L0(Vpn2(vpn), Vpn1(vpn)) }

  /** A page has a leaf table exactly if neither of its slots lacks one; the kernel's slots are apart. */
  lemma LacksIff(s: Space, owner: map<nat, Slot>, vpn: nat)
    requires TreeShaped(s, owner) && IsVpn(vpn) && !IsShared(s, vpn)
    ensures HasLeafTable(s, vpn) <==> !Lacks(s, Slot0(vpn))
    ensures Lacks(s, Slot1(vpn)) ==> Lacks(s, Slot0(vpn))
  {
    VpnDigits(vpn, vpn);
    assert RootOk(s, owner, Vpn2(vpn));
    var e2 := s.root[Vpn2(vpn)];
    if e2.v {
      assert Level1Ok(s, owner, e2.ppn, Vpn1(vpn));
    }
  }

  lemma NewLevel1Lacks(s: Space, i: nat, ppn: nat, others: map<nat, Table>)
    requires i < ENTRIES && !s.root[i].v && ppn !in s.tables && ppn !in others && Placed(s, others)
    ensures forall slot :: Lacks(NewLevel1(s, i, ppn), slot) <==> Lacks(s, slot) && slot != L1(i)
  {
  }

  lemma NewLevel0Lacks(s: Space, owner: map<nat, Slot>, i: nat, j: nat, ppn: nat, others: map<nat, Table>)
    requires TreeShaped(s, owner) && Placed(s, others) && i < ENTRIES && j < ENTRIES
    requires s.root[i].v && s.root[i].ppn in s.tables && ppn !in s.tables && ppn !in others
    ensures forall slot :: Lacks(NewLevel0(s, s.root[i].ppn, j, ppn), slot) <==> Lacks(s, slot) && slot != L0(i, j)
  {
    var s' := NewLevel0(s, s.root[i].ppn, j, ppn);
    forall slot ensures Lacks(s', slot) <==> Lacks(s, slot) && slot != L0(i, j) {
      if slot.L0? && slot.i < ENTRIES {
        assert RootOk(s, owner, slot.i) && RootOk(s, owner, i);
      }
    }
  }

  lemma SetEntryLacks(s: Space, owner: map<nat, Slot>, vpn: nat, k: nat, e: Pte)
    requires TreeShaped(s, owner) && IsVpn(vpn) && HasLeafTable(s, vpn) && k < ENTRIES
    ensures forall slot :: Lacks(SetEntry(s, LeafTable(s, vpn), k, e), slot) <==> Lacks(s, slot)
  {
    VpnDigits(vpn, vpn);
    assert RootOk(s, owner, Vpn2(vpn));
    assert Level1Ok(s, owner, s.root[Vpn2(vpn)].ppn, Vpn1(vpn));
    var s' := SetEntry(s, LeafTable(s, vpn), k, e);
    forall slot ensures Lacks(s', slot) <==> Lacks(s, slot) {
      if slot.L0? && slot.i < ENTRIES {
        assert RootOk(s, owner, slot.i);
      }
    }
  }

  /** The slots of `slots` that lack a table. */
  ghost function Missing(s: Space, slots: set<Slot>): set<Slot> { set x | x in slots && Lacks(s, x) }

  // ----- cloning -----

  function Redirect(e: Pte, remap: map<nat, nat>): Pte { if e.ppn in remap then e.(ppn := remap[e.ppn]) else e }

  function RedirectTable(t: Table, remap: map<nat, nat>): Table {
    seq(ENTRIES, i requires 0 <= i < ENTRIES => Redirect(t[i], remap))
  }

  /** `remap` sends every table of `s` to a page of its own outside `others` and `s`. */
  ghost predicate FreshCopies(s: Space, others: map<nat, Table>, remap: map<nat, nat>) {
    && remap.Keys == s.tables.Keys
    && (forall p :: p in remap ==> remap[p] != 0 && remap[p] !in s.tables && remap[p] !in others)
    && (forall p, q :: p in remap && q in remap && remap[p] == remap[q] ==> p == q)
  }

  /** `tables` holds, at the new addresses, the redirected copies of the tables of `s`. */
  ghost predicate IsCopy(s: Space, remap: map<nat, nat>, copy: Space) {
    && copy.root == RedirectTable(s.root, remap)
    && copy.tables.Keys == remap.Values
    && forall p :: p in remap && p in s.tables ==>
         remap[p] in copy.tables && copy.tables[remap[p]] == RedirectTable(s.tables[p], remap)
  }

  /** The page's walk ends in a level-0 entry of the space itself that targets one of its own tables. */
  ghost predicate TargetsOwnTable(s: Space, vpn: nat)
    requires IsVpn(vpn)
  {
    VpnDigits(vpn, vpn);
    HasLeafTable(s, vpn) &&
    var e := s.tables[LeafTable(s, vpn)][Vpn0(vpn)];
    Translated(e).Mapped? && e.ppn in s.tables
  }

  /** A slot shared with the kernel leads into `others` and never leaves it. */
  lemma SharedSlot(s: Space, others: map<nat, Table>, remap: map<nat, nat>, copy: Space, p: nat, vpn: nat)
    requires Placed(s, others) && FreshCopies(s, others, remap) && IsCopy(s, remap, copy) && p in others
    ensures p !in copy.tables && p !in s.tables
    ensures Walk1(others[p], others + copy.tables, vpn) == Walk1(others[p], others + s.tables, vpn)
  {
    assert forall q :: q in copy.tables ==> q !in others;
  }

  /**
   The clone translates a page as the original does, unless the page is a mapping of one of
   the space's own page tables.
   */
  lemma CloneTranslates(s: Space, owner: map<nat, Slot>, others: map<nat, Table>, remap: map<nat, nat>, copy: Space,
      vpn: nat)
    requires TreeShaped(s, owner) && Placed(s, others) && IsVpn(vpn)
    requires FreshCopies(s, others, remap) && IsCopy(s, remap, copy)
    ensures WalkIn(copy, others, vpn) == WalkIn(s, others, vpn) <==> !TargetsOwnTable(s, vpn)
  {
    VpnDigits(vpn, vpn);
    var i, j, k := Vpn2(vpn), Vpn1(vpn), Vpn0(vpn);
    assert RootOk(s, owner, i);
    var e2 := s.root[i];
    assert copy.root[i] == Redirect(e2, remap);
    if e2.v {
      if e2.ppn in s.tables {
        var t1 := s.tables[e2.ppn];
        assert Level1Ok(s, owner, e2.ppn, j);
        assert copy.tables[remap[e2.ppn]][j] == Redirect(t1[j], remap);
        if t1[j].v {
          var t0 := s.tables[t1[j].ppn];
          assert copy.tables[remap[t1[j].ppn]][k] == Redirect(t0[k], remap);
        }
      } else {
        SharedSlot(s, others, remap, copy, e2.ppn, vpn);
      }
    }
  }

  /** The slots of the copies are those of the originals. */
  ghost function CopiedOwner(owner: map<nat, Slot>, remap: map<nat, nat>): map<nat, Slot>
    requires forall p, q :: p in remap && q in remap && remap[p] == remap[q] ==> p == q
  {
    map p | p in remap && p in owner :: remap[p] := owner[p]
  }

  lemma CloneLevel1(s: Space, owner: map<nat, Slot>, others: map<nat, Table>, remap: map<nat, nat>, copy: Space, q: nat,
      j: nat)
    requires TreeShaped(s, owner) && FreshCopies(s, others, remap) && IsCopy(s, remap, copy) && j < ENTRIES
    requires q in copy.tables && q in CopiedOwner(owner, remap) && CopiedOwner(owner, remap)[q].L1?
    ensures Level1Ok(copy, CopiedOwner(owner, remap), q, j)
  {
    var p :| p in remap && p in owner && q == remap[p];
    assert Level1Ok(s, owner, p, j);
    var e := s.tables[p][j];
    assert copy.tables[q][j] == Redirect(e, remap);
    assert e.v ==> e.ppn in remap && remap[e.ppn] in CopiedOwner(owner, remap);
  }

  /** The clone is itself a well-shaped space, placed in the same surroundings. */
  lemma CloneIsSpace(s: Space, owner: map<nat, Slot>, others: map<nat, Table>, remap: map<nat, nat>, copy: Space)
    returns (owner': map<nat, Slot>)
    requires TreeShaped(s, owner) && Placed(s, others)
    requires FreshCopies(s, others, remap) && IsCopy(s, remap, copy)
    ensures TreeShaped(copy, owner') && Placed(copy, others)
  {
    hide *;
    owner' := FreshOwner(s, owner, others, remap);
    CloneTree(s, owner, others, remap, copy);
    ClonePlaced(s, owner, others, remap, copy);
  }

  ghost function FreshOwner(s: Space, owner: map<nat, Slot>, others: map<nat, Table>,
      remap: map<nat, nat>): map<nat, Slot>
    requires FreshCopies(s, others, remap)
  {
    CopiedOwner(owner, remap)
  }

  lemma CopiesApart(s: Space, others: map<nat, Table>, remap: map<nat, nat>, copy: Space)
    requires FreshCopies(s, others, remap) && IsCopy(s, remap, copy)
    ensures 0 !in copy.tables && forall p :: p in others ==> p !in copy.tables
  {
  }

  lemma CloneTree(s: Space, owner: map<nat, Slot>, others: map<nat, Table>, remap: map<nat, nat>, copy: Space)
    requires TreeShaped(s, owner) && Placed(s, others) && FreshCopies(s, others, remap) && IsCopy(s, remap, copy)
    ensures TreeShaped(copy, FreshOwner(s, owner, others, remap))
  {
    var owner' := FreshOwner(s, owner, others, remap);
    CopiesApart(s, others, remap, copy);
    hide RootOk, Level1Ok, FreshCopies, IsCopy, CopiedOwner, Placed;
    forall i | 0 <= i < ENTRIES ensures RootOk(copy, owner', i) {
      CloneRoot(s, owner, others, remap, copy, i);
    }
    forall q, j | q in copy.tables && q in owner' && owner'[q].L1? && 0 <= j < ENTRIES
        ensures Level1Ok(copy, owner', q, j) {
      CloneLevel1(s, owner, others, remap, copy, q, j);
    }
  }

  lemma ClonePlaced(s: Space, owner: map<nat, Slot>, others: map<nat, Table>, remap: map<nat, nat>, copy: Space)
    requires TreeShaped(s, owner) && Placed(s, others) && FreshCopies(s, others, remap) && IsCopy(s, remap, copy)
    ensures Placed(copy, others)
  {
    CopiesApart(s, others, remap, copy);
    hide RootOk, Level1Ok, FreshCopies, IsCopy, CopiedOwner, TreeShaped;
    forall i | 0 <= i < ENTRIES && copy.root[i].v ensures copy.root[i].ppn in copy.tables
        || copy.root[i].ppn in others {
      CloneRoot(s, owner, others, remap, copy, i);
    }
  }

  lemma CloneRoot(s: Space, owner: map<nat, Slot>, others: map<nat, Table>, remap: map<nat, nat>, copy: Space, i: nat)
    requires TreeShaped(s, owner) && Placed(s, others) && FreshCopies(s, others, remap) && IsCopy(s, remap, copy)
              && i < ENTRIES
    ensures RootOk(copy, CopiedOwner(owner, remap), i)
    ensures copy.root[i].v ==> copy.root[i].ppn in copy.tables || copy.root[i].ppn in others
  {
    assert RootOk(s, owner, i);
    assert copy.root[i] == Redirect(s.root[i], remap);
  }

  /** The clone has a leaf table wherever the original has one, and shares the same slots. */
  lemma CloneKeeps(s: Space, others: map<nat, Table>, remap: map<nat, nat>, copy: Space, vpn: nat)
    requires Placed(s, others) && IsVpn(vpn) && FreshCopies(s, others, remap) && IsCopy(s, remap, copy)
    ensures HasLeafTable(s, vpn) ==> HasLeafTable(copy, vpn)
    ensures IsShared(copy, vpn) <==> IsShared(s, vpn)
  {
    VpnDigits(vpn, vpn);
    var i, j := Vpn2(vpn), Vpn1(vpn);
    var e2 := s.root[i];
    assert copy.root[i] == Redirect(e2, remap);
    if e2.ppn in s.tables {
      assert copy.tables[remap[e2.ppn]][j] == Redirect(s.tables[e2.ppn][j], remap);
    }
  }

  /** No table outside the space and the kernel has any part in its translations. */
  lemma OtherSpacesInvisible(s: Space, kernel: map<nat, Table>, rest: map<nat, Table>, vpn: nat, owner: map<nat, Slot>)
    requires TreeShaped(s, owner) && Placed(s, kernel) && IsVpn(vpn)
    requires forall p :: p in rest ==> p !in s.tables && p !in kernel
    ensures WalkIn(s, kernel + rest, vpn) == WalkIn(s, kernel, vpn)
  {
    VpnDigits(vpn, vpn);
    assert RootOk(s, owner, Vpn2(vpn));
    var e2 := s.root[Vpn2(vpn)];
    if e2.v && e2.ppn in s.tables {
      assert Level1Ok(s, owner, e2.ppn, Vpn1(vpn));
    }
  }
}
