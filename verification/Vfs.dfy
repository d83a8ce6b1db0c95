/** The mount table: which file system an absolute path leads to. */
module Vfs {
  import opened Memory
  import opened TrieSpec
  import opened TrieProperties
  import opened Trie

  const SEPARATOR: char := '/'

  // ----- paths and their components -----

  /** The length of the part before the first separator. */
  function Segment(s: string): (n: nat)
    ensures n <= |s| && (forall i :: 0 <= i < n ==> s[i] != SEPARATOR) && (n < |s| ==> s[n] == SEPARATOR)
  {
    if s == [] || s[0] == SEPARATOR then 0 else 1 + Segment(s[1..])
  }

  /** `split('/')`. */
  function Split(s: string): seq<string>
    decreases |s|
  {
    var n := Segment(s);
    if n == |s| then [s] else [s[..n]] + Split(s[n + 1..])
  }

  function Nonempty(parts: seq<string>): seq<string> {
    if parts == [] then [] else (if parts[0] == [] then [] else [parts[0]]) + Nonempty(parts[1..])
  }

  /** `components`: the non-empty parts between separators. */
  function Components(path: string): Key { Nonempty(Split(path)) }

  predicate IsComponent(c: Name) { c != [] && forall i :: 0 <= i < |c| ==> c[i] != SEPARATOR }

  predicate AllComponents(key: Key) { forall i :: 0 <= i < |key| ==> IsComponent(key[i]) }

  /** Components written one after the other, each after a separator. */
  function Joined(rest: Key): string {
    if rest == [] then "" else [SEPARATOR] + rest[0] + Joined(rest[1..])
  }

  /** The components of a path, up to and after its first separator. */
  lemma Parts(s: string)
    ensures var n := Segment(s);
            Components(s) == (if n == 0 then [] else [s[..n]]) + if n == |s| then [] else Components(s[n + 1..])
  {
    hide Segment, Nonempty;
    var n := Segment(s);
    var head, rest := s[..n], if n == |s| then [] else Split(s[n + 1..]);
    assert |head| == n;
    NonemptyCons(head, rest);
    assert Split(s) == [head] + rest by {
      if n == |s| {
        assert head == s;
      }
    }
  }

  lemma NonemptyCons(part: string, parts: seq<string>)
    ensures Nonempty([part] + parts) == (if part == [] then [] else [part]) + Nonempty(parts)
    ensures Nonempty([]) == [] && [part] + [] == [part]
  {
    assert ([part] + parts)[1..] == parts;
  }

  lemma {:induction false} ComponentsAre(path: string)
    ensures AllComponents(Components(path))
    decreases |path|
  {
    hide Components, Segment;
    Parts(path);
    var n := Segment(path);
    if n < |path| {
      ComponentsAre(path[n + 1..]);
    }
  }

  /** The first component of a path that starts with one. */
  lemma FirstComponent(c: Name, s: string)
    requires IsComponent(c) && (s == [] || s[0] == SEPARATOR)
    ensures Components(c + s) == [c] + Components(s)
  {
    hide Components, Segment;
    var p := c + s;
    SegmentOf(c, s);
    Parts(p);
    Parts(s);
    assert p[..|c|] == c;
    if s != [] {
      assert p[|c| + 1..] == s[1..];
    }
  }

  lemma {:induction false} SegmentOf(c: Name, s: string)
    requires (forall i :: 0 <= i < |c| ==> c[i] != SEPARATOR) && (s == [] || s[0] == SEPARATOR)
    ensures Segment(c + s) == |c|
    decreases c
  {
    if c == [] {
      assert c + s == s;
    } else {
      SegmentOf(c[1..], s);
      assert (c + s)[1..] == c[1..] + s;
    }
  }

  /** A separator in front changes nothing. */
  lemma LeadingSeparator(s: string)
    requires s != [] && s[0] == SEPARATOR
    ensures Components(s) == Components(s[1..])
  {
    Parts(s);
  }

  /** Splitting undoes joining. */
  lemma {:induction false} JoinThenSplit(rest: Key)
    requires AllComponents(rest)
    ensures Components(Joined(rest)) == rest
    decreases rest
  {
    hide Components;
    if rest == [] {
      Parts("");
    } else {
      var tail := Joined(rest[1..]);
      JoinThenSplit(rest[1..]);
      LeadingSeparator(Joined(rest));
      assert Joined(rest)[1..] == rest[0] + tail;
      FirstComponent(rest[0], tail);
    }
  }

  /** `relative_path`: the path inside a file system; the mount point itself is its root. */
  method RelativePath(rest: Key) returns (path: string)
    requires AllComponents(rest)
    ensures path != [] && path[0] == SEPARATOR && Components(path) == rest
  {
    path := "";
    var i := 0;
    while i < |rest|
      invariant i <= |rest| && Joined(rest) == path + Joined(rest[i..])
    {
      assert rest[i..][1..] == rest[i + 1..];
      path := path + [SEPARATOR] + rest[i];
      i := i + 1;
    }
    assert rest[i..] == [] && path == Joined(rest);
    JoinThenSplit(rest);
    if path == "" {
      path := "/";
      LeadingSeparator("/");
      assert "/"[1..] == "";
    }
  }

  // ----- mounting -----

  datatype FsError = NoError | Invalid | NotFound | AlreadyExists | Io

  predicate IsAbsolute(path: string) { path != [] && path[0] == SEPARATOR }

  function TrimEnd(s: string): (r: string)
    ensures r <= s && (r != [] ==> r[|r| - 1] != SEPARATOR) && forall i :: |r| <= i < |s| ==> s[i] == SEPARATOR
  {
    if s != [] && s[|s| - 1] == SEPARATOR then TrimEnd(s[..|s| - 1]) else s
  }

  /** Trailing separators make no difference to the components. */
  lemma {:induction false} TrailingSeparator(s: string)
    ensures Components(s + [SEPARATOR]) == Components(s)
    decreases |s|
  {
    hide Components, Segment;
    var n := Segment(s);
    var t := s + [SEPARATOR];
    Parts(s);
    Parts(t);
    if n < |s| {
      TrailingSeparator(s[n + 1..]);
      assert t == s[..n] + (s[n..] + [SEPARATOR]);
      SegmentOf(s[..n], s[n..] + [SEPARATOR]);
      assert t[n + 1..] == s[n + 1..] + [SEPARATOR] && t[..n] == s[..n];
    } else {
      SegmentOf(s, [SEPARATOR]);
      assert t[|s| + 1..] == "" && t[..|s|] == s && s[..n] == s;
      Parts("");
      assert Components("") == [];
    }
  }

  lemma {:induction false} TrimmedComponents(s: string)
    ensures Components(TrimEnd(s)) == Components(s)
    decreases |s|
  {
    if s != [] && s[|s| - 1] == SEPARATOR {
      TrimmedComponents(s[..|s| - 1]);
      TrailingSeparator(s[..|s| - 1]);
      assert s == s[..|s| - 1] + [SEPARATOR];
    }
  }

  /** `mount_path`: an absolute path without trailing separators. */
  function MountPath(path: string): (r: Option<string>)
    ensures r.None? <==> !IsAbsolute(path)
    ensures r.Some? ==> Components(r.value) == Components(path)
    ensures r.Some? ==>
              IsAbsolute(r.value) && r.value <= path && (r.value == "/" || r.value[|r.value| - 1] != SEPARATOR)
  {
    if !IsAbsolute(path) then None
    else
      var p := TrimEnd(path);
      TrimmedComponents(path);
      if p == [] then
        LeadingSeparator("/");
        assert "/"[1..] == "";
        Some("/")
      else Some(p)
  }

  /** A file system, known by a number. */
  type FileSystem = nat

  class Mounts {
    const table: Tree<FileSystem>
    var superBlocks: seq<FileSystem>

    ghost predicate Valid()
      reads this, table
    {
      table.Valid()
    }

    constructor ()
      ensures Valid() && fresh(table) && superBlocks == [] && forall key :: table.Value(key) == None
    {
      table := new Tree();
      superBlocks := [];
    }

    /** `mount`: one mount for each path.  `stat` is what the file system says when asked about its root. */
    method Mount(path: string, fs: FileSystem, stat: FsError) returns (e: FsError)
      requires Valid()
      modifies this, table
      ensures Valid()
      ensures e == if !IsAbsolute(path) then Invalid
                   else if stat != NoError then stat
                   else if old(table.Value(Components(path))).Some? then AlreadyExists
                   else NoError
      ensures forall key :: table.Value(key) == if e == NoError && key == Components(path) then Some(fs)
                else old(table.Value(key))
      ensures superBlocks == if e == NoError then old(superBlocks) + [fs] else old(superBlocks)
    {
      var p := MountPath(path);
      if p.None? {
        return Invalid;
      }
      if stat != NoError {
        return stat;
      }
      var key := Components(p.value);
      var there := table.Lookup(key);
      if there.Some? {
        return AlreadyExists;
      }
      var was := table.Insert(key, fs);
      superBlocks := superBlocks + [fs];
      return NoError;
    }

    /**
     `resolve`: the file system mounted at the longest component prefix of the path, and the rest
     of the path inside it.  It fails exactly if no prefix is mounted.
     */
    method Resolve(path: string) returns (e: FsError, fs: FileSystem, relative: string)
      requires Valid()
      ensures e == Invalid <==> !IsAbsolute(path)
      ensures e == NotFound <==> IsAbsolute(path) && forall d :: 0 <= d <= |Components(path)| ==>
                table.Value(Components(path)[..d]) == None
      ensures e == NoError || e == Invalid || e == NotFound
      ensures e == NoError ==>
                && IsAbsolute(relative)
                && exists key :: IsMountOf(table.root, Components(path), key, fs)
                     && key + Components(relative) == Components(path)
    {
      fs, relative := 0, "";
      if !IsAbsolute(path) {
        return Invalid, fs, relative;
      }
      var components := Components(path);
      var best := table.LongestPrefix(components);
      if best.None? {
        return NotFound, fs, relative;
      }
      var d := best.value.0;
      ComponentsAre(path);
      relative := RelativePath(components[d..]);
      assert components[..d] + components[d..] == components;
      ghost var key := components[..d];
      assert key <= components && |key| == d;
      forall k: Key | d < |k| && k <= components ensures Get(table.root, k) == None {
        assert k == components[..|k|];
      }
      assert IsMountOf(table.root, components, key, best.value.1);
      return NoError, best.value.1, relative;
    }
  }

  /** `key` is the longest stored prefix of `components`, and `fs` is mounted there. */
  ghost predicate IsMountOf(root: Node<FileSystem>, components: Key, key: Key, fs: FileSystem) {
    && key <= components && Get(root, key) == Some(fs)
    && forall k: Key :: |key| < |k| && k <= components ==> Get(root, k) == None
  }

  /** There is only one such key. */
  lemma OneMount(root: Node<FileSystem>, components: Key, a: Key, b: Key, f: FileSystem, g: FileSystem)
    requires IsMountOf(root, components, a, f) && IsMountOf(root, components, b, g)
    ensures a == b && f == g
  {
    assert a == components[..|a|] && b == components[..|b|];
  }
}
