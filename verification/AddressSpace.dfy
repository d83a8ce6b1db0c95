/** Address spaces: page tables built on frames from the buddy system. */
module AddressSpaces {
  import opened Memory
  import opened BuddySpec
  import opened BuddyProperties
  import opened Buddy
  import opened Frames
  import opened Supplies
  import opened Sv39

  datatype MemResult = Ok | OutOfMemory | PageTableMissing

  function PageBlock(ppn: nat): Block { Block(ppn * PAGE_SIZE, 0) }

  /** The page-table pages in `tables` are live blocks of the buddy system. */
  ghost predicate Backed(tables: map<nat, Table>, live: set<Block>) {
    forall p :: p in tables ==> PageBlock(p) in live
  }

  ghost function TablePages(ppns: set<nat>): set<Block> { set p | p in ppns :: PageBlock(p) }

  /** The tables grew by pages that were not live before, and nothing else became live. */
  ghost predicate Grew(live: set<Block>, live': set<Block>, tables: map<nat, Table>, tables': map<nat, Table>) {
    var added := tables'.Keys - tables.Keys;
    tables.Keys <= tables'.Keys && live !! TablePages(added) && live' == live + TablePages(added)
  }

  lemma GrewTrans(l0: set<Block>, l1: set<Block>, l2: set<Block>, t0: map<nat, Table>, t1: map<nat, Table>,
      t2: map<nat, Table>)
    requires Grew(l0, l1, t0, t1) && Grew(l1, l2, t1, t2)
    ensures Grew(l0, l2, t0, t2)
  {
    var a, b, c := t1.Keys - t0.Keys, t2.Keys - t1.Keys, t2.Keys - t0.Keys;
    assert c == a + b;
    assert TablePages(c) == TablePages(a) + TablePages(b);
  }

  lemma GrewKeeps(live: set<Block>, live': set<Block>, tables: map<nat, Table>, tables': map<nat, Table>)
    requires Grew(live, live', tables, tables')
    ensures live <= live'
  {
  }

  lemma GrewSame(live: set<Block>, tables: map<nat, Table>, tables': map<nat, Table>)
    requires tables.Keys == tables'.Keys
    ensures Grew(live, live, tables, tables')
  {
    assert TablePages(tables'.Keys - tables.Keys) == {};
  }

  lemma GrewOne(live: set<Block>, tables: map<nat, Table>, tables': map<nat, Table>, ppn: nat)
    requires ppn !in tables && tables'.Keys == tables.Keys + {ppn} && PageBlock(ppn) !in live
    ensures Grew(live, live + {PageBlock(ppn)}, tables, tables')
  {
    assert tables'.Keys - tables.Keys == {ppn};
    assert TablePages({ppn}) == {PageBlock(ppn)};
  }

  /** Leaf tables, once there, stay. */
  ghost predicate KeepsLeafTables(s: Space, s': Space) {
    forall q :: IsVpn(q) && HasLeafTable(s, q) ==> HasLeafTable(s', q)
  }

  /**
   The tables that `slots` lacked before and no longer lack have cost a page each, and no other slot has
   changed.
   */
  ghost predicate Paid(tree0: Space, tree: Space, lists0: Lists, lists: Lists, slots: set<Slot>) {
    && (forall x :: Lacks(tree, x) ==> Lacks(tree0, x))
    && (forall x :: x !in slots ==> Lacks(tree, x) == Lacks(tree0, x))
    && FreePages(lists) + |Missing(tree0, slots)| == FreePages(lists0) + |Missing(tree, slots)|
  }

  lemma PaidNothing(tree: Space, lists: Lists, slots: set<Slot>)
    ensures Paid(tree, tree, lists, lists, slots)
  {
  }

  lemma PaidOne(tree0: Space, tree: Space, lists0: Lists, lists: Lists, slot: Slot)
    requires forall x :: Lacks(tree, x) <==> Lacks(tree0, x) && x != slot
    requires Lacks(tree0, slot) && FreePages(lists) == FreePages(lists0) - 1
    ensures Paid(tree0, tree, lists0, lists, {slot})
  {
    assert Missing(tree0, {slot}) == {slot} && Missing(tree, {slot}) == {};
  }

  lemma PaidTrans(tree0: Space, tree1: Space, tree: Space, lists0: Lists, lists1: Lists, lists: Lists,
      slots: set<Slot>)
    requires Paid(tree0, tree1, lists0, lists1, slots) && Paid(tree1, tree, lists1, lists, slots)
    ensures Paid(tree0, tree, lists0, lists, slots)
  {
  }

  lemma PaidSame(tree0: Space, tree1: Space, tree: Space, lists0: Lists, lists: Lists, slots: set<Slot>)
    requires Paid(tree0, tree1, lists0, lists, slots) && forall x :: Lacks(tree, x) == Lacks(tree1, x)
    ensures Paid(tree0, tree, lists0, lists, slots)
  {
    assert Missing(tree, slots) == Missing(tree1, slots);
  }

  lemma PaidMore(tree0: Space, tree: Space, lists0: Lists, lists: Lists, slots: set<Slot>, more: set<Slot>)
    requires Paid(tree0, tree, lists0, lists, slots) && slots <= more
    ensures Paid(tree0, tree, lists0, lists, more)
  {
    hide FreePages, Lacks;
    var rest := Missing(tree0, more - slots);
    assert rest == Missing(tree, more - slots);
    assert Missing(tree0, more) == Missing(tree0, slots) + rest;
    assert Missing(tree, more) == Missing(tree, slots) + rest;
  }

  /** A page for a new table: blank, and in use by nobody else. */
  method CreateTable(buddy: BuddyAllocator) returns (ppn: Option<nat>)
    requires buddy.Valid()
    modifies buddy, buddy.ram
    ensures buddy.Valid()
    ensures ppn.None? ==> buddy.state == old(buddy.state)
    ensures ppn.Some? ==>
              && ppn.value != 0 && PageBlock(ppn.value) !in old(buddy.state.live)
              && buddy.state.live == old(buddy.state.live) + {PageBlock(ppn.value)}
    ensures LiveKept(old(buddy.ram.page), buddy.ram.page, old(buddy.state.live))
    ensures Supplied(old(buddy.state.lists), [0], ppn.Some?, buddy.state.lists)
    ensures ppn.None? <==> FreePages(old(buddy.state.lists)) == 0
    ensures ppn.Some? ==> FreePages(buddy.state.lists) == FreePages(old(buddy.state.lists)) - 1
  {
    hide Supply, FreePages;
    OrderSizes();
    SizeToOrderInverts(0);
    OnePage(buddy.state.lists);
    SupplyOne(buddy.state.lists, 0);
    var f := AllocFrame(buddy, PAGE_SIZE);
    if f.None? {
      return None;
    }
    ghost var b := BlockOf(f.value);
    assert Held(buddy.state.lists, buddy.state.live, b);
    assert f.value.start == f.value.start / PAGE_SIZE * PAGE_SIZE;
    ppn := Some(f.value.start / PAGE_SIZE);
  }

  /** Dropping page-table handles returns their pages. */
  method DropTables(buddy: BuddyAllocator, ppns: set<nat>)
    requires buddy.Valid() && TablePages(ppns) <= buddy.state.live
    modifies buddy, buddy.ram
    ensures buddy.Valid() && buddy.state.live == old(buddy.state.live) - TablePages(ppns)
    ensures LiveKept(old(buddy.ram.page), buddy.ram.page, buddy.state.live)
  {
    OrderSizes();
    SizeToOrderInverts(0);
    var todo := ppns;
    while todo != {}
      invariant todo <= ppns && buddy.Valid()
      invariant buddy.state.live == old(buddy.state.live) - TablePages(ppns - todo)
      invariant LiveKept(old(buddy.ram.page), buddy.ram.page, buddy.state.live)
    {
      var p :| p in todo;
      ghost var page1, live1 := buddy.ram.page, buddy.state.live;
      assert TablePages(ppns - (todo - {p})) == TablePages(ppns - todo) + {PageBlock(p)} by {
        assert ppns - (todo - {p}) == ppns - todo + {p};
      }
      assert PageBlock(p) in TablePages(ppns) && PageBlock(p) !in TablePages(ppns - todo);
      DropFrame(buddy, Frame(p * PAGE_SIZE, PAGE_SIZE));
      LiveKeptSubset(old(buddy.ram.page), page1, live1, buddy.state.live);
      LiveKeptTrans(old(buddy.ram.page), page1, buddy.ram.page, buddy.state.live);
      todo := todo - {p};
    }
    assert ppns - {} == ppns;
  }

  ghost predicate Injective(m: map<nat, nat>) { forall p, q :: p in m && q in m && m[p] == m[q] ==> p == q }

  /** `copies` holds the tables of `tables` that `remap` has moved so far, each at its new page. */
  ghost predicate CopiedAs(tables: map<nat, Table>, remap: map<nat, nat>, copies: map<nat, Table>) {
    && remap.Keys <= tables.Keys && Injective(remap) && copies.Keys == remap.Values && 0 !in remap.Values
    && forall p :: p in remap ==> remap[p] in copies && copies[remap[p]] == tables[p]
  }

  /** The pages gathered for the copy are exactly what became live. */
  ghost predicate Took(live0: set<Block>, live: set<Block>, remap: map<nat, nat>) {
    TablePages(remap.Values) !! live0 && live == live0 + TablePages(remap.Values)
  }

  lemma CopiedNothing(tables: map<nat, Table>, live: set<Block>)
    ensures CopiedAs(tables, map[], map[]) && Took(live, live, map[])
  {
    var none: map<nat, nat> := map[];
    assert none.Values == {} && TablePages({}) == {};
  }

  lemma CopyOne(tables: map<nat, Table>, remap: map<nat, nat>, copies: map<nat, Table>, live0: set<Block>,
      live: set<Block>, p: nat, ppn: nat)
    requires CopiedAs(tables, remap, copies) && Took(live0, live, remap)
    requires p in tables && p !in remap && ppn != 0 && PageBlock(ppn) !in live
    ensures CopiedAs(tables, remap[p := ppn], copies[ppn := tables[p]])
    ensures Took(live0, live + {PageBlock(ppn)}, remap[p := ppn])
  {
    var remap' := remap[p := ppn];
    assert ppn in remap.Values ==> PageBlock(ppn) in TablePages(remap.Values);
    assert remap'.Values == remap.Values + {ppn} by {
      assert remap'[p] == ppn;
      forall q | q in remap.Values ensures q in remap'.Values {
        var o :| o in remap && remap[o] == q;
        assert remap'[o] == q;
      }
    }
    assert TablePages(remap'.Values) == TablePages(remap.Values) + {PageBlock(ppn)};
  }

  /** A page for the copy of one more table; without one, the copies made so far are dropped. */
  method CopyTable(buddy: BuddyAllocator, tables: map<nat, Table>, remap: map<nat, nat>, ghost copies: map<nat, Table>,
      p: nat, ghost page0: map<nat, Page>, ghost live0: set<Block>)
      returns (ppn: Option<nat>)
    requires buddy.Valid() && LiveKept(page0, buddy.ram.page, live0)
    requires CopiedAs(tables, remap, copies) && Took(live0, buddy.state.live, remap) && p in tables && p !in remap
    modifies buddy, buddy.ram
    ensures buddy.Valid() && LiveKept(page0, buddy.ram.page, live0)
    ensures Supplied(old(buddy.state.lists), [0], ppn.Some?, buddy.state.lists)
    ensures ppn.None? ==> buddy.state.live == live0
    ensures ppn.Some? ==>
              && CopiedAs(tables, remap[p := ppn.value], copies[ppn.value := tables[p]])
              && Took(live0, buddy.state.live, remap[p := ppn.value])
  {
    hide Supply, FreePages, BuddyAllocator.Valid, LiveKept, CopiedAs;
    ghost var page1, live1 := buddy.ram.page, buddy.state.live;
    ppn := CreateTable(buddy);
    LiveKeptSubset(page1, buddy.ram.page, live1, live0);
    LiveKeptTrans(page0, page1, buddy.ram.page, live0);
    if ppn.None? {
      ghost var page2 := buddy.ram.page;
      DropTables(buddy, remap.Values);
      assert buddy.state.live == live0;
      LiveKeptTrans(page0, page2, buddy.ram.page, live0);
    } else {
      CopyOne(tables, remap, copies, live0, live1, p, ppn.value);
    }
  }

  lemma LessOne(s: set<nat>, p: nat) returns (n: nat)
    requires p in s
    ensures n == |s| - 1 == |s - {p}|
  {
    n := |s| - 1;
  }

  /** Step two of `try_clone`: a fresh page and a copy for every intermediate table. */
  method CopyTables(buddy: BuddyAllocator, tables: map<nat, Table>)
      returns (ok: bool, remap: map<nat, nat>, copies: map<nat, Table>)
    requires buddy.Valid()
    modifies buddy, buddy.ram
    ensures buddy.Valid() && LiveKept(old(buddy.ram.page), buddy.ram.page, old(buddy.state.live))
    ensures !ok ==> buddy.state.live == old(buddy.state.live)
    ensures ok ==>
              remap.Keys == tables.Keys && CopiedAs(tables, remap, copies)
              && Took(old(buddy.state.live), buddy.state.live, remap)
    ensures Supplied(old(buddy.state.lists), Zeros(|tables|), ok, buddy.state.lists)
  {
    hide Supply, Zeros, BuddyAllocator.Valid, LiveKept, CopiedAs, Took;
    KeptSelf(buddy.ram.page, buddy.state.live);
    CopiedNothing(tables, buddy.state.live);
    ghost var page0, live0, lists0 := buddy.ram.page, buddy.state.live, buddy.state.lists;
    remap, copies := map[], map[];
    var todo := tables.Keys;
    ghost var n: nat := |tables|;
    while todo != {}
      invariant buddy.Valid() && todo <= tables.Keys && remap.Keys == tables.Keys - todo && n == |todo|
      invariant CopiedAs(tables, remap, copies) && Took(live0, buddy.state.live, remap)
      invariant LiveKept(page0, buddy.ram.page, live0)
      invariant Supply(lists0, Zeros(|tables|)) == Supply(buddy.state.lists, Zeros(n))
    {
      var p :| p in todo;
      SupplyZeros(buddy.state.lists, n);
      n := LessOne(todo, p);
      var ppn := CopyTable(buddy, tables, remap, copies, p, page0, live0);
      if ppn.None? {
        return false, map[], map[];
      }
      remap, copies := remap[p := ppn.value], copies[ppn.value := tables[p]];
      todo := todo - {p};
    }
    SupplyZeros(buddy.state.lists, 0);
    ok := true;
  }

  lemma CopiedFacts(tables: map<nat, Table>, remap: map<nat, nat>, copies: map<nat, Table>)
    requires CopiedAs(tables, remap, copies)
    ensures Injective(remap) && 0 !in remap.Values
  {
  }

  /** The pages of a clone: one for the root and one for every table, or none at all. */
  method PagesForCopy(buddy: BuddyAllocator, tables: map<nat, Table>)
      returns (ok: bool, rootPpn: nat, remap: map<nat, nat>, copies: map<nat, Table>)
    requires buddy.Valid()
    modifies buddy, buddy.ram
    ensures buddy.Valid() && LiveKept(old(buddy.ram.page), buddy.ram.page, old(buddy.state.live))
    ensures !ok ==> buddy.state.live == old(buddy.state.live)
    ensures ok ==>
              && rootPpn != 0 && PageBlock(rootPpn) !in old(buddy.state.live)
              && remap.Keys == tables.Keys && CopiedAs(tables, remap, copies)
              && Took(old(buddy.state.live) + {PageBlock(rootPpn)}, buddy.state.live, remap)
    ensures Supplied(old(buddy.state.lists), Zeros(1 + |tables|), ok, buddy.state.lists)
    ensures old(buddy.state.live) <= buddy.state.live
  {
    hide Supply, Zeros, FreePages, BuddyAllocator.Valid, LiveKept, CopiedAs;
    SupplyZeros(buddy.state.lists, 1 + |tables|);
    ghost var page0, live0 := buddy.ram.page, buddy.state.live;
    var page := CreateTable(buddy);
    if page.None? {
      return false, 0, map[], map[];
    }
    rootPpn := page.value;
    ghost var page1, live1 := buddy.ram.page, buddy.state.live;
    ok, remap, copies := CopyTables(buddy, tables);
    LiveKeptSubset(page1, buddy.ram.page, live1, live0);
    LiveKeptTrans(page0, page1, buddy.ram.page, live0);
    if !ok {
      ghost var page2 := buddy.ram.page;
      assert TablePages({rootPpn}) == {PageBlock(rootPpn)};
      DropTables(buddy, {rootPpn});
      assert buddy.state.live == live0;
      LiveKeptTrans(page0, page2, buddy.ram.page, live0);
    }
  }

  /** Redirect the entries of one table, slot by slot. */
  method RedirectEntries(from: Table, remap: map<nat, nat>) returns (to: Table)
    ensures to == RedirectTable(from, remap)
  {
    to := from;
    for i := 0 to ENTRIES
      invariant forall k :: 0 <= k < i ==> to[k] == Redirect(from[k], remap)
      invariant forall k :: i <= k < ENTRIES ==> to[k] == from[k]
    {
      if from[i].ppn in remap {
        to := to[i := to[i].(ppn := remap[from[i].ppn])];
      }
    }
  }

  /** Step four: redirect the entries of every copied table. */
  method RedirectAll(tables: map<nat, Table>, remap: map<nat, nat>, copies: map<nat, Table>)
      returns (out: map<nat, Table>)
    requires remap.Keys == tables.Keys && CopiedAs(tables, remap, copies)
    ensures out.Keys == remap.Values
    ensures forall p :: p in remap ==> remap[p] in out && out[remap[p]] == RedirectTable(tables[p], remap)
  {
    out := copies;
    var todo := tables.Keys;
    while todo != {}
      invariant todo <= tables.Keys && out.Keys == remap.Values
      invariant forall p :: p in remap && p !in todo ==>
                remap[p] in out && out[remap[p]] == RedirectTable(tables[p], remap)
    {
      var p :| p in todo;
      var t := RedirectEntries(tables[p], remap);
      assert remap[p] in out;
      out := out[remap[p] := t];
      todo := todo - {p};
    }
  }

  /** The redirected copies make a space of their own that translates like the original. */
  lemma FinishClone(s: Space, owner: map<nat, Slot>, kernel: map<nat, Table>, live0: set<Block>, live1: set<Block>,
      live: set<Block>, rootPpn: nat, remap: map<nat, nat>, copy: Space) returns (owner': map<nat, Slot>)
    requires TreeShaped(s, owner) && Placed(s, kernel) && Backed(s.tables, live0) && Backed(kernel, live0)
    requires PageBlock(rootPpn) !in live0 && live1 == live0 + {PageBlock(rootPpn)} && Took(live1, live, remap)
    requires remap.Keys == s.tables.Keys && Injective(remap) && 0 !in remap.Values && IsCopy(s, remap, copy)
    ensures TreeShaped(copy, owner') && Placed(copy, kernel) && Backed(copy.tables, live)
    ensures rootPpn !in copy.tables && rootPpn !in kernel
    ensures live0 !! TablePages({rootPpn} + copy.tables.Keys)
              && live == live0 + TablePages({rootPpn} + copy.tables.Keys)
    ensures forall q :: IsVpn(q) ==> (WalkIn(copy, kernel, q) == WalkIn(s, kernel, q) <==> !TargetsOwnTable(s, q))
    ensures KeepsLeafTables(s, copy) && forall q :: IsVpn(q) ==> IsShared(copy, q) == IsShared(s, q)
  {
    forall q | q in remap.Values ensures PageBlock(q) !in live1 && PageBlock(q) in live {
      assert PageBlock(q) in TablePages(remap.Values);
    }
    forall p | p in remap ensures remap[p] in remap.Values {}
    assert FreshCopies(s, kernel, remap);
    owner' := CloneIsSpace(s, owner, kernel, remap, copy);
    forall q | IsVpn(q) ensures WalkIn(copy, kernel, q) == WalkIn(s, kernel, q) <==> !TargetsOwnTable(s, q) {
      CloneTranslates(s, owner, kernel, remap, copy, q);
    }
    forall q | IsVpn(q) ensures (HasLeafTable(s, q) ==> HasLeafTable(copy, q)) && IsShared(copy, q) == IsShared(s, q) {
      CloneKeeps(s, kernel, remap, copy, q);
    }
    assert TablePages({rootPpn} + copy.tables.Keys) == {PageBlock(rootPpn)} + TablePages(remap.Values);
  }

  /** The copies, with every entry that points to a copied table redirected. */
  method RedirectCopy(s: Space, ghost owner: map<nat, Slot>, ghost kernel: map<nat, Table>, ghost live0: set<Block>,
      ghost live: set<Block>, ghost rootPpn: nat, remap: map<nat, nat>, copies: map<nat, Table>)
      returns (copy: Space, ghost owner': map<nat, Slot>)
    requires TreeShaped(s, owner) && Placed(s, kernel) && Backed(s.tables, live0) && Backed(kernel, live0)
    requires PageBlock(rootPpn) !in live0 && Took(live0 + {PageBlock(rootPpn)}, live, remap)
    requires remap.Keys == s.tables.Keys && CopiedAs(s.tables, remap, copies)
    ensures TreeShaped(copy, owner') && Placed(copy, kernel) && Backed(copy.tables, live)
    ensures rootPpn !in copy.tables && rootPpn !in kernel && PageBlock(rootPpn) in live
    ensures live0 !! TablePages({rootPpn} + copy.tables.Keys)
              && live == live0 + TablePages({rootPpn} + copy.tables.Keys)
    ensures forall q :: IsVpn(q) ==> (WalkIn(copy, kernel, q) == WalkIn(s, kernel, q) <==> !TargetsOwnTable(s, q))
    ensures KeepsLeafTables(s, copy) && forall q :: IsVpn(q) ==> IsShared(copy, q) == IsShared(s, q)
  {
    hide CopiedAs, WalkIn, TargetsOwnTable, IsShared, RedirectTable, TreeShaped, Placed, KeepsLeafTables;
    CopiedFacts(s.tables, remap, copies);
    var root := RedirectEntries(s.root, remap);
    var tables := RedirectAll(s.tables, remap, copies);
    copy := Space(root, tables);
    owner' := FinishClone(s, owner, kernel, live0, live0 + {PageBlock(rootPpn)}, live, rootPpn, remap, copy);
  }

  /** A kernel space as user spaces share it: nothing points out of its tables. */
  ghost predicate SelfContained(tables: map<nat, Table>) {
    forall p, j :: p in tables && 0 <= j < ENTRIES && IsPointer(tables[p][j]) ==> tables[p][j].ppn in tables
  }

  lemma PointerInside(tables: map<nat, Table>, p: nat, j: nat, ppn: nat)
    requires SelfContained(tables) && p in tables && j < ENTRIES
    ensures SelfContained(tables[p := tables[p][j := Pointer(ppn)]][ppn := Blank()])
  {
  }

  class AddressSpace {
    const buddy: BuddyAllocator
    const rootPpn: nat
    var root: Table
    var tables: map<nat, Table>
    /** Which slot refers to each table. */
    ghost var owner: map<nat, Slot>
    /** The kernel's tables, shared through the low half of the root. */
    ghost const kernel: map<nat, Table>

    function Tree(): Space
      reads this
    {
      Space(root, tables)
    }

    ghost predicate Shape()
      reads this
    {
      TreeShaped(Tree(), owner) && Placed(Tree(), kernel)
    }

    ghost predicate Valid()
      reads this, buddy, buddy.ram
    {
      && buddy.Valid() && Shape()
      && Backed(tables, buddy.state.live) && Backed(kernel, buddy.state.live)
      && PageBlock(rootPpn) in buddy.state.live && rootPpn !in tables && rootPpn !in kernel
    }

    constructor (buddy: BuddyAllocator, rootPpn: nat, root: Table, tables: map<nat, Table>, ghost owner: map<nat, Slot>,
        ghost kernel: map<nat, Table>)
      ensures this.buddy == buddy && this.rootPpn == rootPpn && this.kernel == kernel && this.owner == owner
      ensures this.root == root && this.tables == tables
    {
      this.buddy, this.rootPpn, this.root, this.tables := buddy, rootPpn, root, tables;
      this.owner, this.kernel := owner, kernel;
    }

    /** What the hardware sees. */
    ghost function Translate(vpn: nat): Translation
      requires IsVpn(vpn)
      reads this
    {
      WalkIn(Tree(), kernel, vpn)
    }

    /** A root slot that belongs to the kernel. */
    predicate Shared(vpn: nat)
      requires IsVpn(vpn)
      reads this
    {
      IsShared(Tree(), vpn)
    }

    /** Step one of `map`: the root slot gets a table of its own if it is empty. */
    method EnsureLevel1(i: nat) returns (r: MemResult)
      requires Valid() && i < ENTRIES
      modifies this, buddy, buddy.ram
      ensures Valid() && (r == Ok || r == OutOfMemory)
      ensures forall q :: IsVpn(q) ==> Translate(q) == old(Translate(q))
      ensures Grew(old(buddy.state.live), buddy.state.live, old(tables), tables)
      ensures LiveKept(old(buddy.ram.page), buddy.ram.page, old(buddy.state.live))
      ensures KeepsLeafTables(old(Tree()), Tree())
      ensures r == Ok ==> root[i].v && root == old(root)[i := root[i]]
      ensures old(root[i].v) || r != Ok ==>
                root == old(root) && tables == old(tables) && owner == old(owner) && buddy.state == old(buddy.state)
      ensures old(root[i].v) ==> r == Ok
      ensures r == Ok && !old(root[i].v) ==> root[i].ppn in tables
      ensures forall q :: IsVpn(q) ==> Shared(q) == old(Shared(q))
      ensures old(SelfContained(tables)) ==> SelfContained(tables)
      ensures Paid(old(Tree()), Tree(), old(buddy.state.lists), buddy.state.lists, {L1(i)})
      ensures r == OutOfMemory <==> Lacks(Tree(), L1(i))
      ensures r == OutOfMemory ==> FreePages(buddy.state.lists) == 0
    {
      hide FreePages, Supplied, Paid, LiveKept, Grew, BuddyAllocator.Valid, Missing;
      assert RootOk(Tree(), owner, i);
      GrewSame(buddy.state.live, tables, tables);
      PaidNothing(Tree(), buddy.state.lists, {L1(i)});
      KeptSelf(buddy.ram.page, buddy.state.live);
      if root[i].v {
        return Ok;
      }
      var ppn := CreateTable(buddy);
      if ppn.None? {
        return OutOfMemory;
      }
      NewLevel1Same(Tree(), owner, i, ppn.value, kernel);
      NewLevel1Lacks(Tree(), i, ppn.value, kernel);
      PaidOne(Tree(), NewLevel1(Tree(), i, ppn.value), old(buddy.state.lists), buddy.state.lists, L1(i));
      GrewOne(old(buddy.state.live), tables, tables[ppn.value := Blank()], ppn.value);
      owner := owner[ppn.value := L1(i)];
      root := root[i := root[i].(ppn := ppn.value, v := true)];
      tables := tables[ppn.value := Blank()];
      assert Tree() == NewLevel1(old(Tree()), i, ppn.value);
      return Ok;
    }

    /** Step two: the level-1 slot gets a table of its own if it is empty. */
    method EnsureLevel0(i: nat, j: nat) returns (r: MemResult)
      requires Valid() && i < ENTRIES && j < ENTRIES && root[i].v
      modifies this, buddy, buddy.ram
      ensures Valid() && root == old(root)
      ensures r == PageTableMissing <==> root[i].ppn !in old(tables)
      ensures forall q :: IsVpn(q) ==> Translate(q) == old(Translate(q))
      ensures Grew(old(buddy.state.live), buddy.state.live, old(tables), tables)
      ensures LiveKept(old(buddy.ram.page), buddy.ram.page, old(buddy.state.live))
      ensures KeepsLeafTables(old(Tree()), Tree())
      ensures r == Ok ==> root[i].ppn in tables && tables[root[i].ppn][j].v && tables[root[i].ppn][j].ppn in tables
      ensures r != Ok ==> tables == old(tables) && buddy.state == old(buddy.state)
      ensures forall q :: IsVpn(q) ==> Shared(q) == old(Shared(q))
      ensures root[i].ppn in old(tables) && old(tables)[root[i].ppn][j].v ==>
                r == Ok && tables == old(tables) && owner == old(owner) && buddy.state == old(buddy.state)
      ensures old(SelfContained(tables)) ==> SelfContained(tables)
      ensures Paid(old(Tree()), Tree(), old(buddy.state.lists), buddy.state.lists, {L0(i, j)})
      ensures r == OutOfMemory ==> FreePages(buddy.state.lists) == 0 && Lacks(Tree(), L0(i, j))
    {
      hide SelfContained, FreePages, Supplied, Paid, LiveKept, Grew, BuddyAllocator.Valid, Missing;
      assert RootOk(Tree(), owner, i);
      GrewSame(buddy.state.live, tables, tables);
      PaidNothing(Tree(), buddy.state.lists, {L0(i, j)});
      KeptSelf(buddy.ram.page, buddy.state.live);
      var p1 := root[i].ppn;
      if p1 !in tables {
        return PageTableMissing;
      }
      assert Level1Ok(Tree(), owner, p1, j);
      if tables[p1][j].v {
        return Ok;
      }
      var ppn := CreateTable(buddy);
      if ppn.None? {
        return OutOfMemory;
      }
      NewLevel0Same(Tree(), owner, i, j, ppn.value, kernel);
      NewLevel0Lacks(Tree(), owner, i, j, ppn.value, kernel);
      PaidOne(Tree(), NewLevel0(Tree(), p1, j, ppn.value), old(buddy.state.lists), buddy.state.lists, L0(i, j));
      if SelfContained(tables) {
        PointerInside(tables, p1, j, ppn.value);
      }
      tables := tables[p1 := tables[p1][j := tables[p1][j].(ppn := ppn.value, v := true)]][ppn.value := Blank()];
      GrewOne(old(buddy.state.live), old(tables), tables, ppn.value);
      owner := owner[ppn.value := L0(i, j)];
      assert Tree() == NewLevel0(old(Tree()), p1, j, ppn.value);
      return Ok;
    }

    /** Map the page of `va` to the page of `pa`. */
    method Map(va: nat, pa: nat, flags: Flags) returns (r: MemResult)
      requires Valid()
      modifies this, buddy, buddy.ram
      ensures Valid()
      ensures r == PageTableMissing <==> old(Shared(VpnOf(va)))
      ensures r == Ok ==> forall q :: IsVpn(q) ==>
                Translate(q) == if q == VpnOf(va) then Translated(Pte(true, flags, pa / PAGE_SIZE))
                    else old(Translate(q))
      ensures r == Ok ==>
                Translate(VpnOf(va)) ==
                if flags.r || (flags.x && !flags.w) then Mapped(pa / PAGE_SIZE, flags) else Fault
      ensures r == Ok ==> HasLeafTable(Tree(), VpnOf(va))
      ensures r != Ok ==> forall q :: IsVpn(q) ==> Translate(q) == old(Translate(q))
      ensures Grew(old(buddy.state.live), buddy.state.live, old(tables), tables)
      ensures LiveKept(old(buddy.ram.page), buddy.ram.page, old(buddy.state.live))
      ensures KeepsLeafTables(old(Tree()), Tree())
      ensures forall q :: IsVpn(q) ==> Shared(q) == old(Shared(q))
      ensures old(HasLeafTable(Tree(), VpnOf(va))) ==> r == Ok && buddy.state == old(buddy.state)
      ensures old(SelfContained(tables)) && (flags.r || flags.w || flags.x) ==> SelfContained(tables)
      ensures Paid(old(Tree()), Tree(), old(buddy.state.lists), buddy.state.lists, {Slot1(VpnOf(va)), Slot0(VpnOf(va))})
      ensures r == OutOfMemory ==> FreePages(buddy.state.lists) == 0 && Lacks(Tree(), Slot0(VpnOf(va)))
    {
      hide Paid, FreePages, LiveKept, Grew, BuddyAllocator.Valid, Translated, WalkIn;
      TranslatedIff(flags, pa / PAGE_SIZE);
      var vpn := VpnOf(va);
      VpnDigits(vpn, vpn);
      var i, j := Vpn2(vpn), Vpn1(vpn);
      ghost var lists0, tree0 := buddy.state.lists, Tree();
      r := EnsureLevel1(i);
      ghost var lists1 := buddy.state.lists;
      PaidMore(tree0, Tree(), lists0, lists1, {L1(i)}, {L1(i), L0(i, j)});
      if r != Ok {
        return;
      }
      ghost var live1, page1, tables1, tree1 := buddy.state.live, buddy.ram.page, tables, Tree();
      r := EnsureLevel0(i, j);
      PaidMore(tree1, Tree(), lists1, buddy.state.lists, {L0(i, j)}, {L1(i), L0(i, j)});
      PaidTrans(tree0, tree1, Tree(), lists0, lists1, buddy.state.lists, {L1(i), L0(i, j)});
      GrewTrans(old(buddy.state.live), live1, buddy.state.live, old(tables), tables1, tables);
      assert old(buddy.state.live) <= live1 by { GrewKeeps(old(buddy.state.live), live1, old(tables), tables1); }
      LiveKeptSubset(page1, buddy.ram.page, live1, old(buddy.state.live));
      LiveKeptTrans(old(buddy.ram.page), page1, buddy.ram.page, old(buddy.state.live));
      if r != Ok {
        return;
      }
      ghost var tables2, tree2 := tables, Tree();
      WriteEntry(vpn, Pte(true, flags, pa / PAGE_SIZE));
      PaidSame(tree0, tree2, Tree(), lists0, buddy.state.lists, {L1(i), L0(i, j)});
      GrewSame(buddy.state.live, tables2, tables);
      GrewTrans(old(buddy.state.live), buddy.state.live, buddy.state.live, old(tables), tables2, tables);
    }

    /** Overwrite the level-0 entry of a page whose leaf table exists. */
    method WriteEntry(vpn: nat, e: Pte)
      requires Valid() && IsVpn(vpn) && HasLeafTable(Tree(), vpn)
      modifies this
      ensures Valid() && root == old(root) && tables.Keys == old(tables).Keys
      ensures forall q :: IsVpn(q) ==> Translate(q) == if q == vpn then Translated(e) else old(Translate(q))
      ensures KeepsLeafTables(old(Tree()), Tree())
      ensures old(SelfContained(tables)) && !IsPointer(e) ==> SelfContained(tables)
      ensures forall x :: Lacks(Tree(), x) == old(Lacks(Tree(), x))
    {
      VpnDigits(vpn, vpn);
      SetEntryWalk(Tree(), owner, vpn, e, kernel);
      SetEntryLacks(Tree(), owner, vpn, Vpn0(vpn), e);
      var p0 := LeafTable(Tree(), vpn);
      tables := tables[p0 := tables[p0][Vpn0(vpn) := e]];
      assert Tree() == SetEntry(old(Tree()), p0, Vpn0(vpn), e);
    }

    /** Clear the entry of one page; intermediate tables stay. */
    method Unmap(va: nat)
      requires Valid()
      modifies this
      ensures Valid() && root == old(root) && tables.Keys == old(tables).Keys
      ensures forall q :: IsVpn(q) ==>
                Translate(q) == if q == VpnOf(va) && !old(Shared(q)) then Fault else old(Translate(q))
      ensures KeepsLeafTables(old(Tree()), Tree())
      ensures old(SelfContained(tables)) ==> SelfContained(tables)
      ensures forall x :: Lacks(Tree(), x) == old(Lacks(Tree(), x))
    {
      var vpn := VpnOf(va);
      VpnDigits(vpn, vpn);
      var e2 := root[Vpn2(vpn)];
      if !HasLeafTable(Tree(), vpn) && !Shared(vpn) {
        NoLeafTableFaults(Tree(), owner, vpn, kernel);
      }
      if !e2.v || e2.ppn !in tables {
        return;
      }
      var e1 := tables[e2.ppn][Vpn1(vpn)];
      if !e1.v || e1.ppn !in tables {
        return;
      }
      WriteEntry(vpn, EMPTY);
    }

    /** A deep copy of the page tables; null when memory runs out. */
    method TryClone() returns (c: AddressSpace?)
      requires Valid()
      modifies buddy, buddy.ram
      ensures Valid() && LiveKept(old(buddy.ram.page), buddy.ram.page, old(buddy.state.live))
      ensures c == null ==> buddy.state.live == old(buddy.state.live)
      ensures c != null ==>
                && fresh(c) && c.buddy == buddy && c.kernel == kernel && c.Valid()
                && c.rootPpn !in c.tables && c.rootPpn != 0
                && old(buddy.state.live) !! TablePages({c.rootPpn} + c.tables.Keys)
                && buddy.state.live == old(buddy.state.live) + TablePages({c.rootPpn} + c.tables.Keys)
                && (forall q :: IsVpn(q) ==> (c.Translate(q) == Translate(q) <==> !TargetsOwnTable(Tree(), q)))
                && KeepsLeafTables(Tree(), c.Tree()) && (forall q :: IsVpn(q) ==> c.Shared(q) == Shared(q))
      ensures Supplied(old(buddy.state.lists), Zeros(1 + |old(tables)|), c != null, buddy.state.lists)
    {
      hide Supply, Zeros, BuddyAllocator.Valid, LiveKept, CopiedAs, Took, WalkIn, TargetsOwnTable, IsShared,
          TreeShaped, Placed, KeepsLeafTables, Supplied;
      ghost var live0 := buddy.state.live;
      var ok, page, remap, copies := PagesForCopy(buddy, tables);
      if !ok {
        return null;
      }
      var copy;
      ghost var owner';
      copy, owner' := RedirectCopy(Tree(), owner, kernel, live0, buddy.state.live, page, remap, copies);
      c := new AddressSpace(buddy, page, copy.root, copy.tables, owner', kernel);
    }
  }

  // ----- new address spaces -----

  /** `AddressSpaceManager::new`: a kernel space that maps nothing. */
  method CreateKernelSpace(buddy: BuddyAllocator) returns (k: AddressSpace?)
    requires buddy.Valid()
    modifies buddy, buddy.ram
    ensures buddy.Valid() && LiveKept(old(buddy.ram.page), buddy.ram.page, old(buddy.state.live))
    ensures k == null ==> buddy.state == old(buddy.state)
    ensures k == null <==> FreePages(old(buddy.state.lists)) == 0
    ensures k != null ==>
              && fresh(k) && k.buddy == buddy && k.Valid() && k.kernel == map[] && k.tables == map[]
              && PageBlock(k.rootPpn) !in old(buddy.state.live)
              && buddy.state.live == old(buddy.state.live) + {PageBlock(k.rootPpn)}
              && SelfContained(k.tables) && forall q :: IsVpn(q) ==> k.Translate(q) == Fault
  {
    var page := CreateTable(buddy);
    if page.None? {
      return null;
    }
    k := new AddressSpace(buddy, page.value, Blank(), map[], map[], map[]);
    forall q | IsVpn(q) ensures k.Translate(q) == Fault {
      VpnDigits(q, q);
    }
  }

  /** `copy_low_half` of a root into an empty one, entry by entry. */
  method CopyLowHalf(from: Table) returns (to: Table)
    ensures to == LowHalf(from)
  {
    to := Blank();
    var i := 0;
    while i < ENTRIES / 2
      invariant i <= ENTRIES / 2 && forall j :: 0 <= j < ENTRIES ==> to[j] == if j < i then from[j] else EMPTY
    {
      to := to[i := from[i]];
      i := i + 1;
    }
  }

  function LowHalf(root: Table): Table {
    seq(ENTRIES, i requires 0 <= i < ENTRIES => if i < ENTRIES / 2 then root[i] else EMPTY)
  }

  lemma LowHalfShape(s: Space, owner: map<nat, Slot>)
    requires TreeShaped(s, owner) && Placed(s, map[]) && SelfContained(s.tables)
    ensures TreeShaped(Space(LowHalf(s.root), map[]), map[]) && Placed(Space(LowHalf(s.root), map[]), s.tables)
  {
    var low := Space(LowHalf(s.root), map[]);
    forall i | 0 <= i < ENTRIES ensures RootOk(low, map[], i) {
      assert RootOk(s, owner, i);
    }
  }

  /** The kernel's half translates as in the kernel, the other half not at all. */
  lemma LowHalfWalk(s: Space, vpn: nat)
    requires IsVpn(vpn)
    ensures WalkIn(Space(LowHalf(s.root), map[]), s.tables, vpn) == if Vpn2(vpn) < ENTRIES / 2
              then WalkIn(s, map[], vpn) else Fault
  {
    VpnDigits(vpn, vpn);
    var none: map<nat, Table> := map[];
    assert s.tables + none == s.tables && none + s.tables == s.tables;
  }

  /** `create_user_address_space`: a new root that shares the kernel's half. */
  method CreateUserSpace(k: AddressSpace) returns (c: AddressSpace?)
    requires k.Valid() && k.kernel == map[] && SelfContained(k.tables)
    modifies k.buddy, k.buddy.ram
    ensures k.Valid() && LiveKept(old(k.buddy.ram.page), k.buddy.ram.page, old(k.buddy.state.live))
    ensures c == null ==> k.buddy.state == old(k.buddy.state)
    ensures c == null <==> FreePages(old(k.buddy.state.lists)) == 0
    ensures c != null ==>
              && fresh(c) && c.buddy == k.buddy && c.kernel == k.tables && c.Valid() && c.tables == map[]
              && PageBlock(c.rootPpn) !in old(k.buddy.state.live)
              && k.buddy.state.live == old(k.buddy.state.live) + {PageBlock(c.rootPpn)}
              && forall q :: IsVpn(q) ==> c.Translate(q) == if Vpn2(q) < ENTRIES / 2 then k.Translate(q) else Fault
  {
    var page := CreateTable(k.buddy);
    if page.None? {
      return null;
    }
    var root := CopyLowHalf(k.root);
    LowHalfShape(k.Tree(), k.owner);
    c := new AddressSpace(k.buddy, page.value, root, map[], map[], k.tables);
    forall q | IsVpn(q) ensures c.Translate(q) == if Vpn2(q) < ENTRIES / 2 then k.Translate(q) else Fault {
      LowHalfWalk(k.Tree(), q);
    }
  }
}
