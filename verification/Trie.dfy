/** The trie as a mutable container, and its explicit-stack iterator. */
module Trie {
  import opened Memory
  import opened TrieSpec
  import opened TrieProperties

  class Tree<V> {
    var root: Node<V>
    var len: nat

    ghost predicate Valid()
      reads this
    {
      WellFormed(root) && len == Count(root)
    }

    /** The map this tree stands for. */
    ghost function Value(key: Key): Option<V>
      reads this
    {
      Get(root, key)
    }

    constructor ()
      ensures Valid() && len == 0 && forall key :: Value(key) == None
    {
      root, len := Empty(), 0;
    }

    /** `node_of`: walk down along the key. */
    method NodeOf(key: Key) returns (r: Option<Node<V>>)
      ensures r == NodeAt(root, key)
    {
      var node := root;
      var i := 0;
      assert key[0..] == key;
      while i < |key|
        invariant i <= |key| && NodeAt(root, key) == NodeAt(node, key[i..])
      {
        assert key[i..][0] == key[i] && key[i..][1..] == key[i + 1..];
        var k := Find(node.edges, key[i]);
        if k == |node.edges| {
          return None;
        }
        node := node.edges[k].child;
        i := i + 1;
      }
      return Some(node);
    }

    method Lookup(key: Key) returns (r: Option<V>)
      ensures r == Value(key)
    {
      var n := NodeOf(key);
      r := if n.None? then None else n.value.value;
    }

    /** `contains_prefix`: some entry starts with `prefix`. */
    method ContainsPrefix(prefix: Key) returns (r: bool)
      requires Valid()
      ensures r <==> exists key :: Value(prefix + key).Some?
    {
      var n := NodeOf(prefix);
      r := n.Some? && HasEntry(n.value);
      forall key ensures Value(prefix + key) == if n.None? then None else Get(n.value, key) {
        GetBelow(root, prefix, key);
      }
      if n.Some? {
        NodeWellFormed(root, prefix);
        if r {
          var key := SomeKey(n.value);
          assert Value(prefix + key).Some?;
        } else {
          forall key ensures Get(n.value, key) == None {
            NoEntry(n.value, key);
          }
        }
      }
    }

    /** `insert`: the old value, if there was one, is returned. */
    method Insert(key: Key, v: V) returns (was: Option<V>)
      requires Valid()
      modifies this
      ensures Valid() && was == old(Value(key)) && len == old(len) + if was.None? then 1 else 0
      ensures forall k :: Value(k) == if k == key then Some(v) else old(Value(k))
    {
      was := Lookup(key);
      InsertWellFormed(root, key, v);
      InsertCount(root, key, v);
      forall k ensures Get(TrieSpec.Insert(root, key, v), k) == if k == key then Some(v) else Get(root, k) {
        InsertGet(root, key, v, k);
      }
      root := TrieSpec.Insert(root, key, v);
      if was.None? {
        len := len + 1;
      }
    }

    /** `remove`: branches that become empty are pruned. */
    method Remove(key: Key) returns (was: Option<V>)
      requires Valid()
      modifies this
      ensures Valid() && was == old(Value(key)) && len == old(len) - if was.Some? then 1 else 0
      ensures forall k :: Value(k) == if k == key then None else old(Value(k))
      ensures was.None? ==> root == old(root)
    {
      was := Lookup(key);
      RemoveWellFormed(root, key);
      RemoveCount(root, key);
      forall k ensures Get(TrieSpec.Remove(root, key), k) == if k == key then None else Get(root, k) {
        RemoveGet(root, key, k);
      }
      if was.None? {
        OneShape(root, TrieSpec.Remove(root, key));
      }
      root := TrieSpec.Remove(root, key);
      if was.Some? {
        len := len - 1;
      }
    }

    /** `longest_prefix`: the longest stored key that `key` starts with. */
    method LongestPrefix(key: Key) returns (r: Option<(nat, V)>)
      ensures r.None? ==> forall d :: 0 <= d <= |key| ==> Value(key[..d]) == None
      ensures r.Some? ==>
                && r.value.0 <= |key| && Value(key[..r.value.0]) == Some(r.value.1)
                && forall d :: r.value.0 < d <= |key| ==> Value(key[..d]) == None
    {
      var node := root;
      var best: Option<(nat, V)> := if node.value.Some? then Some((0, node.value.value)) else None;
      var i: nat := 0;
      assert key[..0] == [];
      while i < |key|
        invariant i <= |key| && NodeAt(root, key[..i]) == Some(node)
        invariant best.None? ==> forall d :: 0 <= d <= i ==> Value(key[..d]) == None
        invariant best.Some? ==>
                    && best.value.0 <= i && Value(key[..best.value.0]) == Some(best.value.1)
                    && forall d :: best.value.0 < d <= i ==> Value(key[..d]) == None
      {
        var k := Find(node.edges, key[i]);
        StepDown(root, key, i);
        if k == |node.edges| {
          forall d | i < d <= |key| ensures Value(key[..d]) == None {
            PastTheEnd(root, key, i, d);
          }
          break;
        }
        node := node.edges[k].child;
        i := i + 1;
        if node.value.Some? {
          best := Some((i, node.value.value));
        }
      }
      r := best;
    }
  }

  lemma {:induction false} NodeBelow<V>(n: Node<V>, a: Key, b: Key)
    ensures NodeAt(n, a + b) == var m := NodeAt(n, a); if m.None? then None else NodeAt(m.value, b)
    decreases a
  {
    if a == [] {
      assert a + b == b;
    } else {
      var i := Find(n.edges, a[0]);
      assert (a + b)[0] == a[0] && (a + b)[1..] == a[1..] + b;
      if i < |n.edges| {
        NodeBelow(n.edges[i].child, a[1..], b);
      }
    }
  }

  lemma GetBelow<V>(n: Node<V>, a: Key, b: Key)
    ensures Get(n, a + b) == var m := NodeAt(n, a); if m.None? then None else Get(m.value, b)
  {
    NodeBelow(n, a, b);
  }

  lemma StepDown<V>(root: Node<V>, key: Key, i: nat)
    requires i < |key| && NodeAt(root, key[..i]).Some?
    ensures var n := NodeAt(root, key[..i]).value;
            var k := Find(n.edges, key[i]);
            NodeAt(root, key[..i + 1]) == if k == |n.edges| then None else Some(n.edges[k].child)
  {
    assert key[..i + 1] == key[..i] + [key[i]];
    NodeBelow(root, key[..i], [key[i]]);
    assert [key[i]][1..] == [];
  }

  lemma PastTheEnd<V>(root: Node<V>, key: Key, i: nat, d: nat)
    requires i < d <= |key| && NodeAt(root, key[..i + 1]).None?
    ensures Get(root, key[..d]) == None
  {
    assert key[..d] == key[..i + 1] + key[i + 1..d];
    NodeBelow(root, key[..i + 1], key[i + 1..d]);
  }

  lemma {:induction false} NodeWellFormed<V>(n: Node<V>, key: Key)
    requires WellFormed(n) && NodeAt(n, key).Some?
    ensures WellFormed(NodeAt(n, key).value)
    decreases key
  {
    if key != [] {
      NodeWellFormed(n.edges[Find(n.edges, key[0])].child, key[1..]);
    }
  }

  lemma {:induction false} NoEntry<V>(n: Node<V>, key: Key)
    requires !HasEntry(n)
    ensures Get(n, key) == None
    decreases key
  {
    if key != [] {
      var i := Find(n.edges, key[0]);
      if i < |n.edges| {
        NoEntry(n.edges[i].child, key[1..]);
      }
    }
  }

  // ----- the iterator -----

  /** A node on the stack: the next child to visit, and whether its own value has been given out. */
  datatype Frame<V> = Frame(node: Node<V>, next: nat, emitted: bool)

  function Prefixed<V>(path: Key, es: seq<Entry<V>>): (r: seq<Entry<V>>)
    ensures |r| == |es| && forall i :: 0 <= i < |es| ==> r[i] == Entry(path + es[i].key, es[i].value)
  {
    seq(|es|, i requires 0 <= i < |es| => Entry(path + es[i].key, es[i].value))
  }

  /** What a frame still has to give out, below the path of its node. */
  function Left<V>(f: Frame<V>): seq<Entry<V>>
    requires f.next <= |f.node.edges|
  {
    (if !f.emitted && f.node.value.Some? then [Entry([], f.node.value.value)] else [])
        + EntriesOf(f.node.edges[f.next..])
  }

  predicate Framed<V>(frames: seq<Frame<V>>) { forall i :: 0 <= i < |frames| ==>
      frames[i].next <= |frames[i].node.edges| }

  function Up(path: Key): Key { if path == [] then [] else path[..|path| - 1] }

  /** What the whole stack still has to give out, from the top down. */
  function Pending<V>(frames: seq<Frame<V>>, path: Key): seq<Entry<V>>
    requires Framed(frames)
    decreases |frames|
  {
    if frames == [] then []
    else
      var n := |frames| - 1;
      assert Framed(frames[..n]);
      Prefixed(path, Left(frames[n])) + Pending(frames[..n], Up(path))
  }

  // A measure of the steps still to be taken.

  function SizeOf<V>(edges: seq<Edge<V>>): nat {
    if edges == [] then 0 else Size(edges[0].child) + SizeOf(edges[1..])
  }

  function Size<V>(n: Node<V>): nat { 3 + SizeOf(n.edges) }

  function Work<V>(frames: seq<Frame<V>>): nat
    requires Framed(frames)
    decreases |frames|
  {
    if frames == [] then 0
    else
      var n := |frames| - 1;
      assert Framed(frames[..n]);
      WorkOf(frames[n]) + Work(frames[..n])
  }

  function WorkOf<V>(f: Frame<V>): nat
    requires f.next <= |f.node.edges|
  {
    1 + (if f.emitted then 0 else 1) + SizeOf(f.node.edges[f.next..])
  }

  class Iter<V> {
    var frames: seq<Frame<V>>
    var path: Key
    var remaining: nat

    ghost predicate Valid()
      reads this
    {
      Framed(frames) && remaining == |Pending(frames, path)|
    }

    ghost function ToCome(): seq<Entry<V>>
      requires Valid()
      reads this
    {
      Pending(frames, path)
    }

    /** Everything below `root`, whose path is `path`. */
    constructor (root: Node<V>, path: Key, remaining: nat)
      requires remaining == Count(root)
      ensures Valid() && ToCome() == Prefixed(path, Entries(root)) && this.remaining == remaining
    {
      this.frames := [Frame(root, 0, false)];
      this.path := path;
      this.remaining := remaining;
      new;
      StartPending(root, path);
      CountIs(root);
    }

    /** `next`: the first entry that has not been given out yet. */
    method Next() returns (r: Option<Entry<V>>)
      requires Valid()
      modifies this
      ensures Valid()
      ensures r == if old(ToCome()) == [] then None else Some(old(ToCome())[0])
      ensures ToCome() == if old(ToCome()) == [] then [] else old(ToCome())[1..]
    {
      hide Pending, Work;
      ghost var all := ToCome();
      while true
        invariant Valid() && ToCome() == all
        decreases Work(frames)
      {
        if frames == [] {
          NothingLeft<V>(path);
          return None;
        }
        var n := |frames| - 1;
        var f := frames[n];
        if !f.emitted {
          Emit(frames, path);
          frames := frames[n := f.(emitted := true)];
          if f.node.value.Some? {
            remaining := remaining - 1;
            return Some(Entry(path, f.node.value.value));
          }
        } else if f.next < |f.node.edges| {
          var e := f.node.edges[f.next];
          Descend(frames, path);
          path := path + [e.name];
          frames := frames[n := f.(next := f.next + 1)] + [Frame(e.child, 0, false)];
        } else {
          Ascend(frames, path);
          frames := frames[..n];
          path := Up(path);
        }
      }
    }
  }

  lemma StartPending<V>(root: Node<V>, path: Key)
    ensures Framed([Frame(root, 0, false)]) && Pending([Frame(root, 0, false)], path) == Prefixed(path, Entries(root))
  {
    var f := Frame(root, 0, false);
    assert root.edges[0..] == root.edges && Left(f) == Entries(root);
    assert [f][..0] == [] && [f][0] == f;
    assert Pending([f], path) == Prefixed(path, Left(f)) + Pending([f][..0], Up(path));
  }

  lemma NothingLeft<V>(path: Key)
    ensures Pending<V>([], path) == []
  {
  }

  lemma PrefixedConcat<V>(path: Key, a: seq<Entry<V>>, b: seq<Entry<V>>)
    ensures Prefixed(path, a + b) == Prefixed(path, a) + Prefixed(path, b)
  {
  }

  lemma PrefixedUnder<V>(path: Key, name: Name, es: seq<Entry<V>>)
    ensures Prefixed(path, Under(name, es)) == Prefixed(path + [name], es)
  {
    var a, b := Prefixed(path, Under(name, es)), Prefixed(path + [name], es);
    forall i | 0 <= i < |es| ensures a[i] == b[i] {
      assert path + ([name] + es[i].key) == path + [name] + es[i].key;
    }
  }

  /** The top of the stack and the rest. */
  lemma Top<V>(frames: seq<Frame<V>>, f: Frame<V>, path: Key)
    requires Framed(frames) && f.next <= |f.node.edges|
    ensures Framed(frames + [f])
    ensures Pending(frames + [f], path) == Prefixed(path, Left(f)) + Pending(frames, Up(path))
    ensures Work(frames + [f]) == WorkOf(f) + Work(frames)
  {
    assert (frames + [f])[..|frames|] == frames;
  }

  /** Giving out the node's own value, or passing over a node without one. */
  lemma Emit<V>(frames: seq<Frame<V>>, path: Key)
    requires Framed(frames) && frames != [] && !frames[|frames| - 1].emitted
    ensures var n := |frames| - 1;
            var f := frames[n];
            var now := frames[n := f.(emitted := true)];
            && Framed(now) && Work(now) < Work(frames)
            && Pending(frames, path) == (if f.node.value.Some? then [Entry(path, f.node.value.value)] else [])
                 + Pending(now, path)
  {
    hide Pending, Work, EntriesOf, SizeOf, Prefixed;
    var n := |frames| - 1;
    var f, rest := frames[n], frames[..n];
    var g := f.(emitted := true);
    Top(rest, f, path);
    Top(rest, g, path);
    assert frames == rest + [f] && frames[n := g] == rest + [g];
    var own := if f.node.value.Some? then [Entry([], f.node.value.value)] else [];
    PrefixedConcat(path, own, Left(g));
    assert Left(f) == own + Left(g);
    OwnEntry(path, f.node.value);
  }

  lemma OwnEntry<V>(path: Key, value: Option<V>)
    ensures Prefixed(path, if value.Some? then [Entry([], value.value)] else []) == if value.Some?
              then [Entry(path, value.value)] else []
  {
    assert path + [] == path;
  }

  /** Going down to the next child. */
  lemma Descend<V>(frames: seq<Frame<V>>, path: Key)
    requires Framed(frames) && frames != [] && frames[|frames| - 1].emitted
    requires frames[|frames| - 1].next < |frames[|frames| - 1].node.edges|
    ensures var n := |frames| - 1;
            var f := frames[n];
            var e := f.node.edges[f.next];
            var now := frames[n := f.(next := f.next + 1)] + [Frame(e.child, 0, false)];
            && Framed(now) && Work(now) < Work(frames) && Pending(now, path + [e.name]) == Pending(frames, path)
  {
    hide Pending, Work, Prefixed, Left, WorkOf, Entries, Under;
    var n := |frames| - 1;
    var f, rest := frames[n], frames[..n];
    var e := f.node.edges[f.next];
    var g, h := f.(next := f.next + 1), Frame(e.child, 0, false);
    FrameSplit(f);
    Top(rest, f, path);
    Top(rest, g, path);
    Top(rest + [g], h, path + [e.name]);
    assert frames == rest + [f] && frames[n := g] == rest + [g];
    assert Up(path + [e.name]) == path;
    PrefixedConcat(path, Under(e.name, Entries(e.child)), Left(g));
    PrefixedUnder(path, e.name, Entries(e.child));
  }

  /** What a frame has left is its next child's part and what is left after that. */
  lemma FrameSplit<V>(f: Frame<V>)
    requires f.emitted && f.next < |f.node.edges|
    ensures var e := f.node.edges[f.next];
            var g, h := f.(next := f.next + 1), Frame(e.child, 0, false);
            && Left(f) == Under(e.name, Entries(e.child)) + Left(g) && Left(h) == Entries(e.child)
            && WorkOf(g) + WorkOf(h) < WorkOf(f)
  {
    var e := f.node.edges[f.next];
    var g, h := f.(next := f.next + 1), Frame(e.child, 0, false);
    var tail := f.node.edges[f.next..];
    assert tail[0] == e && tail[1..] == f.node.edges[f.next + 1..];
    assert e.child.edges[0..] == e.child.edges;
    assert SizeOf(tail) == Size(e.child) + SizeOf(tail[1..]);
  }

  /** Going back up from a finished node. */
  lemma Ascend<V>(frames: seq<Frame<V>>, path: Key)
    requires Framed(frames) && frames != [] && frames[|frames| - 1].emitted
    requires frames[|frames| - 1].next == |frames[|frames| - 1].node.edges|
    ensures var rest := frames[..|frames| - 1];
            Framed(rest) && Work(rest) < Work(frames) && Pending(rest, Up(path)) == Pending(frames, path)
  {
    var n := |frames| - 1;
    var f, rest := frames[n], frames[..n];
    Top(rest, f, path);
    assert frames == rest + [f] && f.node.edges[f.next..] == [];
    assert Left(f) == [];
  }

  /** Draining an iterator gives everything that was to come, in order. */
  method Drain<V>(it: Iter<V>) returns (out: seq<Entry<V>>)
    requires it.Valid()
    modifies it
    ensures out == old(it.ToCome())
  {
    ghost var all := it.ToCome();
    out := [];
    while true
      invariant it.Valid() && all == out + it.ToCome()
      decreases |it.ToCome()|
    {
      var e := it.Next();
      if e.None? {
        return;
      }
      out := out + [e.value];
    }
  }

  /** `iter`: all entries, in strictly ascending order of their keys, each once. */
  method IterateAll<V>(t: Tree<V>) returns (out: seq<Entry<V>>)
    requires t.Valid()
    ensures Ascending(out) && |out| == t.len
    ensures forall key, v :: Entry(key, v) in out <==> t.Value(key) == Some(v)
  {
    var it := new Iter(t.root, [], t.len);
    out := Drain(it);
    WholeTree(t.root);
    CountIs(t.root);
    EntriesAscending(t.root);
    forall key, v ensures Entry(key, v) in Entries(t.root) <==> Get(t.root, key) == Some(v) {
      ListedIffHeld(t.root, key, v);
    }
  }

  lemma WholeTree<V>(root: Node<V>)
    ensures Prefixed([], Entries(root)) == Entries(root)
  {
    var es := Entries(root);
    forall i | 0 <= i < |es| ensures Entry([] + es[i].key, es[i].value) == es[i] {
      assert [] + es[i].key == es[i].key;
    }
  }

  /** How many entries the iterator over a prefix announces. */
  function CountUnder<V>(root: Node<V>, prefix: Key): nat {
    match NodeAt(root, prefix)
    case None => 0
    case Some(n) => Count(n)
  }

  lemma {:induction false} PrefixedLess(prefix: Key, a: Key, b: Key)
    requires KeyLess(a, b)
    ensures KeyLess(prefix + a, prefix + b)
    decreases prefix
  {
    if prefix == [] {
      assert prefix + a == a && prefix + b == b;
    } else {
      PrefixedLess(prefix[1..], a, b);
      assert (prefix + a)[1..] == prefix[1..] + a && (prefix + b)[1..] == prefix[1..] + b;
    }
  }

  lemma PrefixedAscending<V>(prefix: Key, es: seq<Entry<V>>)
    requires Ascending(es)
    ensures Ascending(Prefixed(prefix, es))
  {
    forall i, j | 0 <= i < j < |es| ensures KeyLess(prefix + es[i].key, prefix + es[j].key) {
      PrefixedLess(prefix, es[i].key, es[j].key);
    }
  }

  /** `iter_prefix`: the entries whose keys start with `prefix`. */
  method IteratePrefix<V>(t: Tree<V>, prefix: Key) returns (out: seq<Entry<V>>)
    requires t.Valid()
    ensures Ascending(out) && |out| == CountUnder(t.root, prefix)
    ensures forall key, v :: Entry(key, v) in out <==> prefix <= key && t.Value(key) == Some(v)
  {
    var n := t.NodeOf(prefix);
    forall key ensures n.None? && prefix <= key ==> t.Value(key) == None {
      if prefix <= key {
        assert key == prefix + key[|prefix|..];
        GetBelow(t.root, prefix, key[|prefix|..]);
      }
    }
    if n.None? {
      return [];
    }
    var it := new Iter(n.value, prefix, Count(n.value));
    out := Drain(it);
    NodeWellFormed(t.root, prefix);
    CountIs(n.value);
    EntriesAscending(n.value);
    PrefixedAscending(prefix, Entries(n.value));
    forall key, v ensures Entry(key, v) in out <==> prefix <= key && t.Value(key) == Some(v) {
      UnderPrefix(t.root, n.value, prefix, key, v);
    }
  }

  lemma UnderPrefix<V>(root: Node<V>, n: Node<V>, prefix: Key, key: Key, v: V)
    requires NodeAt(root, prefix) == Some(n) && WellFormed(n)
    ensures Entry(key, v) in Prefixed(prefix, Entries(n)) <==> prefix <= key && Get(root, key) == Some(v)
  {
    var es := Entries(n);
    var out := Prefixed(prefix, es);
    if prefix <= key {
      var rest := key[|prefix|..];
      assert key == prefix + rest;
      GetBelow(root, prefix, rest);
      ListedIffHeld(n, rest, v);
      if Entry(rest, v) in es {
        var i :| 0 <= i < |es| && es[i] == Entry(rest, v);
        assert out[i] == Entry(key, v);
      }
    }
    if Entry(key, v) in out {
      var i :| 0 <= i < |out| && out[i] == Entry(key, v);
      assert key == prefix + es[i].key && key[|prefix|..] == es[i].key;
    }
  }
}
