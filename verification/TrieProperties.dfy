/** What the trie promises: it is a finite map, in one canonical shape, listed in order. */
module TrieProperties {
  import opened Memory
  import opened TrieSpec

  // ----- children by name -----

  function ChildOf<V>(edges: seq<Edge<V>>, name: Name): Option<Node<V>> {
    var i := Find(edges, name);
    if i == |edges| then None else Some(edges[i].child)
  }

  ghost predicate DistinctNames<V>(edges: seq<Edge<V>>) {
    forall i, j :: 0 <= i < j < |edges| ==> edges[i].name != edges[j].name
  }

  lemma SortedDistinct<V>(edges: seq<Edge<V>>)
    requires Sorted(edges)
    ensures DistinctNames(edges)
  {
    forall i, j | 0 <= i < j < |edges| ensures edges[i].name != edges[j].name {
      NameOrder(edges[i].name, edges[j].name);
    }
  }

  /** With distinct names the child at a position is the child of that name. */
  lemma ChildAt<V>(edges: seq<Edge<V>>, i: nat)
    requires DistinctNames(edges) && i < |edges|
    ensures Find(edges, edges[i].name) == i && ChildOf(edges, edges[i].name) == Some(edges[i].child)
  {
  }

  lemma ChildReplaced<V>(edges: seq<Edge<V>>, i: nat, child: Node<V>, name: Name)
    requires i < |edges| && i == Find(edges, edges[i].name)
    ensures ChildOf(edges[i := Edge(edges[i].name, child)], name) == if name == edges[i].name then Some(child)
              else ChildOf(edges, name)
  {
    var now := edges[i := Edge(edges[i].name, child)];
    assert forall j :: 0 <= j < |edges| ==> now[j].name == edges[j].name;
    assert Find(now, name) == Find(edges, name);
  }

  lemma ChildInserted<V>(edges: seq<Edge<V>>, p: nat, e: Edge<V>, name: Name)
    requires p <= |edges| && DistinctNames(edges) && Find(edges, e.name) == |edges|
    ensures ChildOf(InsertAt(edges, p, e), name) == if name == e.name then Some(e.child) else ChildOf(edges, name)
  {
    hide Find, InsertAt, DistinctNames;
    var now := InsertAt(edges, p, e);
    InsertedDistinct(edges, p, e);
    var i := Find(edges, name);
    if name == e.name {
      ChildAt(now, p);
    } else if i < |edges| {
      var k := if i < p then i else i + 1;
      assert now[k] == edges[i];
      ChildAt(now, k);
    } else {
      StillMissing(edges, p, e, name);
    }
  }

  lemma StillMissing<V>(edges: seq<Edge<V>>, p: nat, e: Edge<V>, name: Name)
    requires p <= |edges| && Find(edges, name) == |edges| && name != e.name
    ensures Find(InsertAt(edges, p, e), name) == |edges| + 1
  {
    hide Find, InsertAt;
  }

  lemma InsertedDistinct<V>(edges: seq<Edge<V>>, p: nat, e: Edge<V>)
    requires p <= |edges| && DistinctNames(edges) && Find(edges, e.name) == |edges|
    ensures DistinctNames(InsertAt(edges, p, e))
  {
    hide Find, InsertAt;
  }

  lemma ChildRemoved<V>(edges: seq<Edge<V>>, i: nat, name: Name)
    requires i < |edges| && DistinctNames(edges)
    ensures ChildOf(RemoveAt(edges, i), name) == if name == edges[i].name then None else ChildOf(edges, name)
  {
    hide Find, RemoveAt;
    var now := RemoveAt(edges, i);
    var f, k := Find(edges, name), Find(now, name);
    if k < |now| {
      ChildAt(edges, if k < i then k else k + 1);
    }
    if f < |edges| && f != i {
      assert now[if f < i then f else f - 1] == edges[f];
    }
  }

  lemma GetChild<V>(n: Node<V>, key: Key)
    requires key != []
    ensures Get(n, key) == var c := ChildOf(n.edges, key[0]); if c.None? then None else Get(c.value, key[1..])
  {
    GetStep(n, key);
  }

  // ----- insert and remove as map operations -----

  lemma {:induction false} InsertGet<V>(n: Node<V>, key: Key, v: V, k: Key)
    requires WellFormed(n)
    ensures Get(Insert(n, key, v), k) == if k == key then Some(v) else Get(n, k)
    decreases key
  {
    hide Get;
    if key == [] || k == [] {
      GetEmpty(n, key, v, k);
    } else {
      var i := Find(n.edges, key[0]);
      GetChild(Insert(n, key, v), k);
      GetChild(n, k);
      assert k == key <==> k[0] == key[0] && k[1..] == key[1..] by { Split(k, key); }
      if i < |n.edges| {
        InsertGet(n.edges[i].child, key[1..], v, k[1..]);
        ChildReplaced(n.edges, i, Insert(n.edges[i].child, key[1..], v), k[0]);
      } else {
        var p := Position(n.edges, key[0]);
        InsertGet(Empty<V>(), key[1..], v, k[1..]);
        SortedDistinct(n.edges);
        ChildInserted(n.edges, p, Edge(key[0], Insert(Empty(), key[1..], v)), k[0]);
        EmptyGet<V>(k[1..]);
      }
    }
  }

  lemma Split(k: Key, key: Key)
    requires k != [] && key != []
    ensures k == key <==> k[0] == key[0] && k[1..] == key[1..]
  {
    assert k == [k[0]] + k[1..] && key == [key[0]] + key[1..];
  }

  lemma EmptyGet<V>(k: Key)
    ensures Get(Empty<V>(), k) == None
  {
  }

  lemma GetEmpty<V>(n: Node<V>, key: Key, v: V, k: Key)
    requires key == [] || k == []
    ensures Get(Insert(n, key, v), k) == if k == key then Some(v) else Get(n, k)
  {
    if k != [] {
      GetStep(n, k);
      GetStep(Insert(n, key, v), k);
    }
  }

  lemma {:induction false} RemoveGet<V>(n: Node<V>, key: Key, k: Key)
    requires WellFormed(n)
    ensures Get(Remove(n, key), k) == if k == key then None else Get(n, k)
    decreases key
  {
    hide Get;
    if key == [] || k == [] {
      RemoveEmpty(n, key, k);
    } else {
      var i := Find(n.edges, key[0]);
      GetChild(Remove(n, key), k);
      GetChild(n, k);
      GetChild(n, key);
      assert k == key <==> k[0] == key[0] && k[1..] == key[1..] by { Split(k, key); }
      if i < |n.edges| && Get(n.edges[i].child, key[1..]).Some? {
        var child := Remove(n.edges[i].child, key[1..]);
        RemoveGet(n.edges[i].child, key[1..], k[1..]);
        SortedDistinct(n.edges);
        if Prunable(child) {
          ChildRemoved(n.edges, i, k[0]);
          PrunableGet(child, k[1..]);
        } else {
          ChildReplaced(n.edges, i, child, k[0]);
        }
      }
    }
  }

  lemma PrunableGet<V>(n: Node<V>, k: Key)
    requires Prunable(n)
    ensures Get(n, k) == None
  {
  }

  lemma RemoveEmpty<V>(n: Node<V>, key: Key, k: Key)
    requires key == [] || k == []
    ensures Get(Remove(n, key), k) == if k == key then None else Get(n, k)
  {
    if k != [] {
      GetStep(n, k);
      GetStep(Remove(n, key), k);
    }
  }

  // ----- the shape stays canonical -----

  lemma SortedInsert<V>(edges: seq<Edge<V>>, e: Edge<V>)
    requires Sorted(edges) && Find(edges, e.name) == |edges|
    ensures Sorted(InsertAt(edges, Position(edges, e.name), e))
  {
    hide Find, InsertAt, Position, NameLess;
    var p := Position(edges, e.name);
    forall j | p <= j < |edges| ensures NameLess(e.name, edges[j].name) {
      NameOrder(e.name, edges[p].name);
      if j > p {
        NameTrans(e.name, edges[p].name, edges[j].name);
      }
    }
  }

  lemma {:induction false} InsertWellFormed<V>(n: Node<V>, key: Key, v: V)
    requires WellFormed(n)
    ensures WellFormed(Insert(n, key, v)) && HasEntry(Insert(n, key, v))
    decreases key
  {
    if key != [] {
      var i := Find(n.edges, key[0]);
      var now := Insert(n, key, v);
      if i < |n.edges| {
        InsertWellFormed(n.edges[i].child, key[1..], v);
        assert HasEntry(now.edges[i].child);
      } else {
        var p := Position(n.edges, key[0]);
        InsertWellFormed(Empty<V>(), key[1..], v);
        SortedInsert(n.edges, Edge(key[0], Insert(Empty(), key[1..], v)));
        assert HasEntry(now.edges[p].child);
      }
    }
  }

  lemma {:induction false} RemoveWellFormed<V>(n: Node<V>, key: Key)
    requires WellFormed(n)
    ensures WellFormed(Remove(n, key))
    decreases key
  {
    if key != [] {
      var i := Find(n.edges, key[0]);
      if i < |n.edges| && Get(n.edges[i].child, key[1..]).Some? {
        var child := Remove(n.edges[i].child, key[1..]);
        RemoveWellFormed(n.edges[i].child, key[1..]);
        if !Prunable(child) {
          StillHasEntry(child);
        }
      }
    }
  }

  /** A well-formed node that cannot be pruned leads to a value. */
  lemma StillHasEntry<V>(n: Node<V>)
    requires WellFormed(n) && !Prunable(n)
    ensures HasEntry(n)
  {
    if n.value.None? {
      assert HasEntry(n.edges[0].child);
    }
  }

  // ----- entries -----

  lemma {:induction false} EntriesConcat<V>(a: seq<Edge<V>>, b: seq<Edge<V>>)
    ensures EntriesOf(a + b) == EntriesOf(a) + EntriesOf(b)
  {
    if a == [] {
      assert a + b == b;
    } else {
      assert (a + b)[1..] == a[1..] + b;
      EntriesConcat(a[1..], b);
    }
  }

  /** A tree lists exactly what it holds. */
  lemma {:induction false} ListedIffHeld<V>(n: Node<V>, key: Key, v: V)
    requires WellFormed(n)
    ensures Entry(key, v) in Entries(n) <==> Get(n, key) == Some(v)
    decreases n, 1
  {
    hide Get;
    SortedDistinct(n.edges);
    if key == [] {
      assert Get(n, []) == n.value by { RootGet(n); }
      NoEmptyKey(n.edges, v);
    } else {
      GetChild(n, key);
      ListedBelow(n, n.edges, key, v);
    }
  }

  lemma RootGet<V>(n: Node<V>)
    ensures Get(n, []) == n.value
  {
  }

  lemma {:induction false} NoEmptyKey<V>(edges: seq<Edge<V>>, v: V)
    ensures Entry([], v) !in EntriesOf(edges)
  {
    if edges != [] {
      NoEmptyKey(edges[1..], v);
    }
  }

  lemma UnderIn<V>(name: Name, es: seq<Entry<V>>, key: Key, v: V)
    requires key != []
    ensures Entry(key, v) in Under(name, es) <==> key[0] == name && Entry(key[1..], v) in es
  {
    assert key == [key[0]] + key[1..];
    var u := Under(name, es);
    if Entry(key, v) in u {
      var i :| 0 <= i < |u| && u[i] == Entry(key, v);
      assert ([name] + es[i].key)[0] == name && ([name] + es[i].key)[1..] == es[i].key;
    }
    if key[0] == name && Entry(key[1..], v) in es {
      var i :| 0 <= i < |es| && es[i] == Entry(key[1..], v);
      assert u[i] == Entry(key, v);
    }
  }

  lemma {:induction false} ListedBelow<V>(n: Node<V>, edges: seq<Edge<V>>, key: Key, v: V)
    requires WellFormed(n) && DistinctNames(edges) && key != [] && forall i :: 0 <= i < |edges| ==> edges[i] in n.edges
    ensures Entry(key, v) in EntriesOf(edges) <==>
              var c := ChildOf(edges, key[0]); c.Some? && Get(c.value, key[1..]) == Some(v)
    decreases n, 0, edges
  {
    hide Get, Find, Entries;
    if edges != [] {
      assert edges[0] in n.edges;
      ListedIffHeld(edges[0].child, key[1..], v);
      UnderIn(edges[0].name, Entries(edges[0].child), key, v);
      ListedBelow(n, edges[1..], key, v);
      TailChild(edges, key[0]);
      ChildAt(edges, 0);
    }
  }

  ghost predicate Ascending<V>(es: seq<Entry<V>>) {
    forall i, j :: 0 <= i < j < |es| ==> KeyLess(es[i].key, es[j].key)
  }

  lemma UnderAscending<V>(name: Name, es: seq<Entry<V>>)
    requires Ascending(es)
    ensures Ascending(Under(name, es))
  {
    NameOrder(name, name);
    var u := Under(name, es);
    forall i, j | 0 <= i < j < |u| ensures KeyLess(u[i].key, u[j].key) {
      assert u[i].key[1..] == es[i].key && u[j].key[1..] == es[j].key;
    }
  }

  /** Every entry below some children starts with the name of one of them. */
  lemma {:induction false} StartsWithChild<V>(edges: seq<Edge<V>>, i: nat) returns (k: nat)
    requires i < |EntriesOf(edges)|
    ensures k < |edges| && EntriesOf(edges)[i].key != [] && EntriesOf(edges)[i].key[0] == edges[k].name
  {
    var first := Under(edges[0].name, Entries(edges[0].child));
    if i < |first| {
      k := 0;
    } else {
      k := StartsWithChild(edges[1..], i - |first|);
      k := k + 1;
    }
  }

  /** The entries are listed in strictly ascending order, each once. */
  lemma {:induction false} EntriesAscending<V>(n: Node<V>)
    requires WellFormed(n)
    ensures Ascending(Entries(n))
    decreases n, 1
  {
    BelowAscending(n, n.edges);
    var es := EntriesOf(n.edges);
    forall i | 0 <= i < |es| ensures KeyLess([], es[i].key) {
      var k := StartsWithChild(n.edges, i);
    }
  }

  lemma {:induction false} BelowAscending<V>(n: Node<V>, edges: seq<Edge<V>>)
    requires WellFormed(n) && Sorted(edges) && forall i :: 0 <= i < |edges| ==> edges[i] in n.edges
    ensures Ascending(EntriesOf(edges))
    decreases n, 0, edges
  {
    if edges != [] {
      assert edges[0] in n.edges;
      EntriesAscending(edges[0].child);
      UnderAscending(edges[0].name, Entries(edges[0].child));
      BelowAscending(n, edges[1..]);
      var a, b := Under(edges[0].name, Entries(edges[0].child)), EntriesOf(edges[1..]);
      forall i, j | 0 <= i < |a| && 0 <= j < |b| ensures KeyLess(a[i].key, b[j].key) {
        var k := StartsWithChild(edges[1..], j);
        assert NameLess(edges[0].name, edges[k + 1].name);
        assert a[i].key[0] == edges[0].name;
      }
      AscendingConcat(a, b);
    }
  }

  lemma AscendingConcat<V>(a: seq<Entry<V>>, b: seq<Entry<V>>)
    requires Ascending(a) && Ascending(b) && forall i, j :: 0 <= i < |a| && 0 <= j < |b| ==> KeyLess(a[i].key, b[j].key)
    ensures Ascending(a + b)
  {
    hide KeyLess;
  }

  // ----- counting -----

  function CountOf<V>(edges: seq<Edge<V>>): nat {
    if edges == [] then 0 else Count(edges[0].child) + CountOf(edges[1..])
  }

  /** `count`: the entries of a subtree. */
  function Count<V>(n: Node<V>): nat {
    (if n.value.Some? then 1 else 0) + CountOf(n.edges)
  }

  lemma {:induction false} CountIs<V>(n: Node<V>)
    ensures Count(n) == |Entries(n)|
    decreases n, 1
  {
    CountBelow(n, n.edges);
  }

  lemma {:induction false} CountBelow<V>(n: Node<V>, edges: seq<Edge<V>>)
    requires forall i :: 0 <= i < |edges| ==> edges[i] in n.edges
    ensures CountOf(edges) == |EntriesOf(edges)|
    decreases n, 0, edges
  {
    if edges != [] {
      assert edges[0] in n.edges;
      CountIs(edges[0].child);
      CountBelow(n, edges[1..]);
    }
  }

  lemma {:induction false} CountConcat<V>(a: seq<Edge<V>>, b: seq<Edge<V>>)
    ensures CountOf(a + b) == CountOf(a) + CountOf(b)
  {
    if a == [] {
      assert a + b == b;
    } else {
      assert (a + b)[1..] == a[1..] + b;
      CountConcat(a[1..], b);
    }
  }

  lemma CountSplit<V>(edges: seq<Edge<V>>, i: nat)
    requires i < |edges|
    ensures CountOf(edges) == CountOf(edges[..i]) + Count(edges[i].child) + CountOf(edges[i + 1..])
  {
    assert edges == edges[..i] + edges[i..];
    CountConcat(edges[..i], edges[i..]);
    assert edges[i..][1..] == edges[i + 1..];
  }

  /** A new key adds one entry, an old one none. */
  lemma {:induction false} InsertCount<V>(n: Node<V>, key: Key, v: V)
    ensures Count(Insert(n, key, v)) == Count(n) + if Get(n, key).None? then 1 else 0
    decreases key
  {
    if key != [] {
      var i := Find(n.edges, key[0]);
      GetStep(n, key);
      if i < |n.edges| {
        InsertCount(n.edges[i].child, key[1..], v);
        CountReplaced(n.edges, Insert(n, key, v).edges, i);
      } else {
        InsertCount(Empty<V>(), key[1..], v);
        EmptyGet<V>(key[1..]);
        CountInserted(n.edges, Insert(n, key, v).edges, Position(n.edges, key[0]));
      }
    }
  }

  lemma CountReplaced<V>(edges: seq<Edge<V>>, edges': seq<Edge<V>>, i: nat)
    requires i < |edges| == |edges'| && forall j :: 0 <= j < |edges| && j != i ==> edges'[j] == edges[j]
    ensures CountOf(edges') == CountOf(edges) - Count(edges[i].child) + Count(edges'[i].child)
  {
    CountSplit(edges, i);
    CountSplit(edges', i);
    assert edges'[..i] == edges[..i] && edges'[i + 1..] == edges[i + 1..];
  }

  lemma CountInserted<V>(edges: seq<Edge<V>>, edges': seq<Edge<V>>, p: nat)
    requires p <= |edges| && |edges'| == |edges| + 1 && edges'[..p] == edges[..p] && edges'[p + 1..] == edges[p..]
    ensures CountOf(edges') == CountOf(edges) + Count(edges'[p].child)
  {
    CountSplit(edges', p);
    CountConcat(edges[..p], edges[p..]);
    assert edges == edges[..p] + edges[p..];
  }

  lemma {:induction false} RemoveCount<V>(n: Node<V>, key: Key)
    ensures Count(Remove(n, key)) == Count(n) - if Get(n, key).Some? then 1 else 0
    decreases key
  {
    if key != [] {
      var i := Find(n.edges, key[0]);
      var now := Remove(n, key);
      GetStep(n, key);
      if i < |n.edges| && Get(n.edges[i].child, key[1..]).Some? {
        RemoveCount(n.edges[i].child, key[1..]);
        CountSplit(n.edges, i);
        var child := Remove(n.edges[i].child, key[1..]);
        if Prunable(child) {
          CountConcat(now.edges[..i], now.edges[i..]);
          assert now.edges == now.edges[..i] + now.edges[i..];
        } else {
          CountSplit(now.edges, i);
          assert now.edges[..i] == n.edges[..i] && now.edges[i + 1..] == n.edges[i + 1..];
        }
      }
    }
  }

  // ----- one shape for one map -----

  /** A node that leads to a value has a key with a value. */
  lemma {:induction false} SomeKey<V>(n: Node<V>) returns (key: Key)
    requires WellFormed(n) && HasEntry(n)
    ensures Get(n, key).Some?
    decreases n
  {
    if n.value.Some? {
      key := [];
    } else {
      var i :| 0 <= i < |n.edges| && HasEntry(n.edges[i].child);
      var rest := SomeKey(n.edges[i].child);
      key := [n.edges[i].name] + rest;
      SortedDistinct(n.edges);
      ChildAt(n.edges, i);
      GetChild(n, key);
      assert key[1..] == rest;
    }
  }

  lemma {:induction false} SameEdges<V>(a: seq<Edge<V>>, b: seq<Edge<V>>)
    requires Sorted(a) && Sorted(b) && forall name :: ChildOf(a, name) == ChildOf(b, name)
    ensures a == b
    decreases |a|
  {
    hide Find, NameLess;
    SortedDistinct(a);
    SortedDistinct(b);
    if a == [] {
      if b != [] {
        ChildAt(b, 0);
      }
    } else {
      ChildAt(a, 0);
      var j := Find(b, a[0].name);
      assert ChildOf(b, a[0].name).Some?;
      FirstFirst(a, b, j);
      ChildAt(b, 0);
      forall name ensures ChildOf(a[1..], name) == ChildOf(b[1..], name) {
        TailChild(a, name);
        TailChild(b, name);
      }
      SameEdges(a[1..], b[1..]);
      assert a == [a[0]] + a[1..] && b == [b[0]] + b[1..];
    }
  }

  lemma TailChild<V>(edges: seq<Edge<V>>, name: Name)
    requires edges != [] && DistinctNames(edges)
    ensures ChildOf(edges[1..], name) == if name == edges[0].name then None else ChildOf(edges, name)
    ensures Sorted(edges) ==> Sorted(edges[1..])
  {
    assert name == edges[0].name ==> Find(edges[1..], name) == |edges| - 1;
  }

  /** The smallest name of one list is the smallest of the other. */
  lemma FirstFirst<V>(a: seq<Edge<V>>, b: seq<Edge<V>>, j: nat)
    requires Sorted(a) && Sorted(b) && a != [] && j < |b| && b[j].name == a[0].name
    requires forall name :: ChildOf(a, name) == ChildOf(b, name)
    ensures b[0].name == a[0].name
  {
    hide NameLess;
    if j > 0 {
      SortedDistinct(b);
      ChildAt(b, 0);
      assert ChildOf(a, b[0].name).Some?;
      var k := Find(a, b[0].name);
      NameOrder(a[0].name, b[0].name);
    }
  }

  /** Two well-formed trees that hold the same entries are the same tree. */
  lemma {:induction false} OneShape<V>(a: Node<V>, b: Node<V>)
    requires WellFormed(a) && WellFormed(b) && forall key :: Get(a, key) == Get(b, key)
    ensures a == b
    decreases a
  {
    hide Get, Find, NameLess;
    RootGet(a);
    RootGet(b);
    forall name ensures ChildOf(a.edges, name) == ChildOf(b.edges, name) {
      SameChild(a, b, name);
    }
    SameEdges(a.edges, b.edges);
  }

  lemma {:induction false} SameChild<V>(a: Node<V>, b: Node<V>, name: Name)
    requires WellFormed(a) && WellFormed(b) && forall key :: Get(a, key) == Get(b, key)
    ensures ChildOf(a.edges, name) == ChildOf(b.edges, name)
    decreases a, 0
  {
    hide Get, Find, NameLess;
    var ca, cb := ChildOf(a.edges, name), ChildOf(b.edges, name);
    forall k: Key ensures (ca.Some? ==> Get(a, [name] + k) == Get(ca.value, k))
        && (ca.None? ==> Get(a, [name] + k) == None) {
      GetChild(a, [name] + k);
      assert ([name] + k)[1..] == k;
    }
    forall k: Key ensures (cb.Some? ==> Get(b, [name] + k) == Get(cb.value, k))
        && (cb.None? ==> Get(b, [name] + k) == None) {
      GetChild(b, [name] + k);
      assert ([name] + k)[1..] == k;
    }
    if ca.Some? {
      var k := SomeKey(ca.value);
      assert Get(a, [name] + k).Some?;
    }
    if cb.Some? {
      var k := SomeKey(cb.value);
      assert Get(b, [name] + k).Some?;
    }
    if ca.Some? && cb.Some? {
      forall k ensures Get(ca.value, k) == Get(cb.value, k) {
        assert Get(a, [name] + k) == Get(b, [name] + k);
      }
      OneShape(ca.value, cb.value);
    }
  }
}
