/** Prefix trees keyed by sequences of path components. */
module TrieSpec {
  import opened Memory

  type Name = string
  type Key = seq<Name>

  /** A node: an optional value and its children in ascending order of their names. */
  datatype Node<V> = Node(value: Option<V>, edges: seq<Edge<V>>)
  datatype Edge<V> = Edge(name: Name, child: Node<V>)

  // ----- order -----

  predicate NameLess(a: Name, b: Name) {
    b != [] && (a == [] || a[0] < b[0] || (a[0] == b[0] && NameLess(a[1..], b[1..])))
  }

  lemma {:induction false} NameOrder(a: Name, b: Name)
    ensures !(NameLess(a, b) && NameLess(b, a)) && (a == b ==> !NameLess(a, b))
              && (NameLess(a, b) || a == b || NameLess(b, a))
    decreases |a| + |b|
  {
    if a != [] && b != [] {
      if a[0] == b[0] {
        NameOrder(a[1..], b[1..]);
        assert a == [a[0]] + a[1..] && b == [b[0]] + b[1..];
      }
    }
  }

  lemma {:induction false} NameTrans(a: Name, b: Name, c: Name)
    requires NameLess(a, b) && NameLess(b, c)
    ensures NameLess(a, c)
    decreases |a|
  {
    if a != [] && a[0] == b[0] && b[0] == c[0] {
      NameTrans(a[1..], b[1..], c[1..]);
    }
  }

  /** Lexicographic: a proper prefix comes first, otherwise the first difference decides. */
  lemma {:induction false} NameLessIs(a: Name, b: Name, i: nat)
    requires i <= |a| && i <= |b| && a[..i] == b[..i]
    ensures i < |a| && i < |b| && a[i] < b[i] ==> NameLess(a, b)
    ensures i == |a| < |b| ==> NameLess(a, b)
    decreases i
  {
    if i > 0 {
      assert a[0] == a[..i][0] == b[..i][0] == b[0];
      assert a[1..][..i - 1] == a[..i][1..] && b[1..][..i - 1] == b[..i][1..];
      NameLessIs(a[1..], b[1..], i - 1);
    }
  }

  /** Lexicographic order of keys. */
  predicate KeyLess(a: Key, b: Key) {
    b != [] && (a == [] || NameLess(a[0], b[0]) || (a[0] == b[0] && KeyLess(a[1..], b[1..])))
  }

  lemma {:induction false} KeyLessIs(a: Key, b: Key, i: nat)
    requires i <= |a| && i <= |b| && a[..i] == b[..i]
    ensures i < |a| && i < |b| && NameLess(a[i], b[i]) ==> KeyLess(a, b)
    ensures i == |a| < |b| ==> KeyLess(a, b)
    decreases i
  {
    hide NameLess;
    if i > 0 {
      assert a[0] == a[..i][0] == b[..i][0] == b[0];
      assert a[1..][..i - 1] == a[..i][1..] && b[1..][..i - 1] == b[..i][1..];
      KeyLessIs(a[1..], b[1..], i - 1);
    }
  }

  lemma {:induction false} KeyOrder(a: Key)
    ensures !KeyLess(a, a)
    decreases a
  {
    if a != [] {
      NameOrder(a[0], a[0]);
      KeyOrder(a[1..]);
    }
  }

  // ----- well-formed nodes -----

  ghost predicate Sorted<V>(edges: seq<Edge<V>>) {
    forall i, j :: 0 <= i < j < |edges| ==> NameLess(edges[i].name, edges[j].name)
  }

  predicate HasEntry<V>(n: Node<V>) {
    n.value.Some? || exists i :: 0 <= i < |n.edges| && HasEntry(n.edges[i].child)
  }

  /** Children in order, and every child leads to a value. */
  ghost predicate WellFormed<V>(n: Node<V>) {
    Sorted(n.edges) && forall i :: 0 <= i < |n.edges| ==> HasEntry(n.edges[i].child) && WellFormed(n.edges[i].child)
  }

  function Empty<V>(): Node<V> { Node(None, []) }

  // ----- looking up -----

  /** The position of a child, or the number of children. */
  function Find<V>(edges: seq<Edge<V>>, name: Name): (i: nat)
    ensures i <= |edges| && (i < |edges| ==> edges[i].name == name) && forall j :: 0 <= j < i ==> edges[j].name != name
  {
    if edges == [] then 0
    else if edges[0].name == name then 0
    else
      var i := Find(edges[1..], name);
      assert forall j :: 1 <= j < 1 + i ==> edges[j] == edges[1..][j - 1];
      1 + i
  }

  function NodeAt<V>(n: Node<V>, key: Key): Option<Node<V>>
    decreases key
  {
    if key == [] then Some(n)
    else
      var i := Find(n.edges, key[0]);
      if i == |n.edges| then None else NodeAt(n.edges[i].child, key[1..])
  }

  function Get<V>(n: Node<V>, key: Key): Option<V> {
    var m := NodeAt(n, key);
    if m.None? then None else m.value.value
  }

  /** One step of a lookup. */
  lemma GetStep<V>(n: Node<V>, key: Key)
    requires key != []
    ensures Get(n, key) == var i := Find(n.edges, key[0]); if i == |n.edges| then None
              else Get(n.edges[i].child, key[1..])
  {
  }

  // ----- inserting -----

  /** Where a new child goes. */
  function Position<V>(edges: seq<Edge<V>>, name: Name): (i: nat)
    ensures i <= |edges| && (forall j :: 0 <= j < i ==> NameLess(edges[j].name, name))
              && (i < |edges| ==> !NameLess(edges[i].name, name))
  {
    if edges == [] || !NameLess(edges[0].name, name) then 0
    else
      var i := Position(edges[1..], name);
      assert forall j :: 1 <= j < 1 + i ==> edges[j] == edges[1..][j - 1];
      1 + i
  }

  function InsertAt<V>(edges: seq<Edge<V>>, p: nat, e: Edge<V>): (r: seq<Edge<V>>)
    requires p <= |edges|
    ensures |r| == |edges| + 1 && r[p] == e
    ensures forall j :: 0 <= j < |r| && j != p ==> r[j] == edges[if j < p then j else j - 1]
    ensures r[..p] == edges[..p] && r[p + 1..] == edges[p..]
  {
    edges[..p] + [e] + edges[p..]
  }

  function RemoveAt<V>(edges: seq<Edge<V>>, i: nat): (r: seq<Edge<V>>)
    requires i < |edges|
    ensures |r| == |edges| - 1
    ensures forall j :: 0 <= j < |r| ==> r[j] == edges[if j < i then j else j + 1]
    ensures r[..i] == edges[..i] && r[i..] == edges[i + 1..]
  {
    edges[..i] + edges[i + 1..]
  }

  function Insert<V>(n: Node<V>, key: Key, v: V): Node<V>
    decreases key
  {
    if key == [] then Node(Some(v), n.edges)
    else
      var i := Find(n.edges, key[0]);
      if i < |n.edges| then Node(n.value, n.edges[i := Edge(key[0], Insert(n.edges[i].child, key[1..], v))])
      else
        var p := Position(n.edges, key[0]);
        Node(n.value, InsertAt(n.edges, p, Edge(key[0], Insert(Empty(), key[1..], v))))
  }

  // ----- removing -----

  predicate Prunable<V>(n: Node<V>) { n.value.None? && n.edges == [] }

  function Remove<V>(n: Node<V>, key: Key): Node<V>
    decreases key
  {
    if key == [] then Node(None, n.edges)
    else
      var i := Find(n.edges, key[0]);
      if i == |n.edges| || Get(n.edges[i].child, key[1..]).None? then n
      else
        var child := Remove(n.edges[i].child, key[1..]);
        Node(n.value, if Prunable(child) then RemoveAt(n.edges, i) else n.edges[i := Edge(key[0], child)])
  }

  // ----- the entries of a tree -----

  datatype Entry<V> = Entry(key: Key, value: V)

  function Under<V>(name: Name, es: seq<Entry<V>>): (r: seq<Entry<V>>)
    ensures |r| == |es| && forall i :: 0 <= i < |es| ==> r[i] == Entry([name] + es[i].key, es[i].value)
  {
    if es == [] then [] else [Entry([name] + es[0].key, es[0].value)] + Under(name, es[1..])
  }

  /** All entries below some children, in the children's order. */
  function EntriesOf<V>(edges: seq<Edge<V>>): seq<Entry<V>> {
    if edges == [] then [] else Under(edges[0].name, Entries(edges[0].child)) + EntriesOf(edges[1..])
  }

  /** All entries: the node's own first, then those of its children. */
  function Entries<V>(n: Node<V>): seq<Entry<V>> {
    (if n.value.Some? then [Entry([], n.value.value)] else []) + EntriesOf(n.edges)
  }
}
