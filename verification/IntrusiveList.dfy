/**
 A singly linked list whose "next" words live in the first word of the listed pages
 themselves.  A list is its head address; 0 is the null pointer.
 */
module IntrusiveList {
  import opened Memory

  /** Following the links from `head` visits exactly the addresses of `items`, then null. */
  ghost predicate IsList(page: map<nat, Page>, head: nat, items: seq<nat>)
    decreases items
  {
    if items == [] then head == 0
    else head != 0 && head == items[0] && head in page && IsList(page, page[head][0], items[1..])
  }

  function Without(items: seq<nat>, item: nat): (rest: seq<nat>)
  {
    if items == [] then []
    else if items[0] == item then items[1..]
    else [items[0]] + Without(items[1..], item)
  }

  ghost predicate Distinct(items: seq<nat>) {
    forall i, j :: 0 <= i < j < |items| ==> items[i] != items[j]
  }

  lemma {:induction false} WithoutMembers(items: seq<nat>, item: nat)
    requires Distinct(items)
    ensures Distinct(Without(items, item))
    ensures forall x :: x in Without(items, item) <==> x in items && x != item
    ensures |Without(items, item)| == if item in items then |items| - 1 else |items|
  {
    if items != [] && items[0] != item {
      WithoutMembers(items[1..], item);
      assert items == [items[0]] + items[1..];
      assert items[0] !in items[1..];
    } else if items != [] {
      assert items == [item] + items[1..];
    }
  }

  lemma {:induction false} WithoutAt(items: seq<nat>, i: nat)
    requires i < |items| && items[i] !in items[..i]
    ensures Without(items, items[i]) == items[..i] + items[i + 1..]
  {
    if i > 0 {
      var rest := items[1..];
      assert items[0] == items[..i][0];
      assert forall x :: x in rest[..i - 1] ==> x in items[..i] by { assert items[..i] == [items[0]] + rest[..i - 1]; }
      WithoutAt(rest, i - 1);
      assert items[..i] + items[i + 1..] == [items[0]] + (rest[..i - 1] + rest[i..]);
    }
  }

  lemma {:induction false} WithoutAbsent(items: seq<nat>, item: nat)
    requires item !in items
    ensures Without(items, item) == items
  {
    if items != [] {
      WithoutAbsent(items[1..], item);
    }
  }

  /** The links determine the list. */
  lemma {:induction false} ListUnique(page: map<nat, Page>, head: nat, s: seq<nat>, t: seq<nat>)
    requires IsList(page, head, s) && IsList(page, head, t)
    ensures s == t
    decreases s
  {
    if s != [] && t != [] {
      ListUnique(page, page[head][0], s[1..], t[1..]);
      assert s == [head] + s[1..] && t == [head] + t[1..];
    }
  }

  lemma {:induction false} ListSuffix(page: map<nat, Page>, head: nat, s: seq<nat>, i: nat)
    requires IsList(page, head, s) && i < |s|
    ensures IsList(page, s[i], s[i..])
    ensures s[i] in page && s[i] != 0 && IsList(page, page[s[i]][0], s[i + 1..])
    decreases s
  {
    if i > 0 {
      ListSuffix(page, page[head][0], s[1..], i - 1);
      assert s[1..][i - 1..] == s[i..] && s[1..][i..] == s[i + 1..];
    } else {
      assert s[0..] == s;
    }
  }

  /** A finite list visits no address twice: the list is acyclic. */
  lemma {:induction false} ListAcyclic(page: map<nat, Page>, head: nat, s: seq<nat>)
    requires IsList(page, head, s)
    ensures Distinct(s)
  {
    forall i, j | 0 <= i < j < |s| ensures s[i] != s[j] {
      if s[i] == s[j] {
        ListSuffix(page, head, s, i);
        ListSuffix(page, head, s, j);
        assert |s[j..]| < |s[i..]|;
        ListUnique(page, s[i], s[i..], s[j..]);
      }
    }
  }

  /** Changing anything but the link words of the listed pages leaves the list alone. */
  lemma {:induction false} ListFrame(page: map<nat, Page>, page': map<nat, Page>, head: nat, s: seq<nat>)
    requires IsList(page, head, s)
    requires forall x :: x in s && x in page ==> x in page' && page'[x][0] == page[x][0]
    ensures IsList(page', head, s)
    decreases s
  {
    if s != [] {
      assert s[0] in s;
      ListFrame(page, page', page[head][0], s[1..]);
    }
  }

  /** Redirecting the link of item `i` past item `i + 1` unlinks item `i + 1`. */
  lemma {:induction false} ListUnlink(page: map<nat, Page>, head: nat, s: seq<nat>, i: nat)
    requires IsList(page, head, s) && i + 1 < |s|
    requires s[i] in page && s[i + 1] in page
    ensures IsList(page[s[i] := page[s[i]][0 := page[s[i + 1]][0]]], head, s[..i + 1] + s[i + 2..])
    decreases s
  {
    ListAcyclic(page, head, s);
    var page' := page[s[i] := page[s[i]][0 := page[s[i + 1]][0]]];
    var t := s[..i + 1] + s[i + 2..];
    if i == 0 {
      assert t[1..] == s[2..] && s[1..][1..] == s[2..];
      assert IsList(page, page[s[1]][0], s[2..]);
      ListFrame(page, page', page[s[1]][0], s[2..]);
    } else {
      ListUnlink(page, page[head][0], s[1..], i - 1);
      assert s[1..][i - 1] == s[i] && s[1..][i] == s[i + 1];
      assert t[1..] == s[1..][..i] + s[1..][i + 1..];
    }
  }

  method Push(ram: Ram, next: nat, item: nat, ghost items: seq<nat>) returns (head: nat)
    requires IsList(ram.page, next, items)
    requires item != 0 && item in ram.page && item !in items
    modifies ram
    ensures head == item
    ensures IsList(ram.page, head, [item] + items)
    ensures ram.page == old(ram.page)[item := old(ram.page)[item][0 := next]]
  {
    ram.page := ram.page[item := ram.page[item][0 := next]];
    head := item;
    ListFrame(old(ram.page), ram.page, next, items);
    assert ([item] + items)[1..] == items;
  }

  method Pop(ram: Ram, next: nat, ghost items: seq<nat>) returns (head: nat, item: Option<nat>)
    requires IsList(ram.page, next, items)
    ensures item == if items == [] then None else Some(items[0])
    ensures IsList(ram.page, head, if items == [] then [] else items[1..])
  {
    if next == 0 {
      return next, None;
    }
    item := Some(next);
    head := ram.page[next][0];
  }

  /** Unlinks the first occurrence of `item`, walking the links with a cursor. */
  method Remove(ram: Ram, next: nat, item: nat, ghost items: seq<nat>) returns (head: nat, found: bool)
    requires IsList(ram.page, next, items) && item != 0
    modifies ram
    ensures found <==> item in items
    ensures IsList(ram.page, head, Without(items, item))
    ensures ram.page.Keys == old(ram.page).Keys
    ensures forall x :: x in ram.page ==>
              ram.page[x] == old(ram.page)[x]
              || (x in items && x != item && ram.page[x] == old(ram.page)[x][0 := ram.page[x][0]])
  {
    ListAcyclic(ram.page, next, items);
    if next == item {
      head := ram.page[next][0];
      return head, true;
    }
    head := next;
    var current := next;
    ghost var i := 0;
    while current != 0
      invariant i <= |items| && IsList(ram.page, current, items[i..])
      invariant i < |items| ==> items[i] != item
      invariant item !in items[..i]
      invariant ram.page == old(ram.page)
      decreases |items| - i
    {
      assert items[i..][0] == items[i] && items[i..][1..] == items[i + 1..];
      var after := ram.page[current][0];
      if after == item {
        assert items[i + 1..][0] == items[i + 1];
        WithoutAt(items, i + 1) by {
          assert items[..i + 1] == items[..i] + [items[i]];
        }
        ListUnlink(ram.page, next, items, i);
        ram.page := ram.page[current := ram.page[current][0 := ram.page[after][0]]];
        return head, true;
      }
      assert i + 1 < |items| ==> items[i + 1..][0] == items[i + 1];
      assert items[..i + 1] == items[..i] + [items[i]];
      current := after;
      i := i + 1;
    }
    assert items[..i] == items;
    WithoutAbsent(items, item);
    return head, false;
  }
}
