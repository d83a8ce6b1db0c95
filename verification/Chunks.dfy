/** Byte sequences cut into chunks of one size: sectors of a disk, zones of a file. */
module Chunks {
  type byte = b: nat | b < 256

  function Flatten<T>(cs: seq<seq<T>>): seq<T> {
    if cs == [] then [] else cs[0] + Flatten(cs[1..])
  }

  predicate Uniform<T>(cs: seq<seq<T>>, n: nat) { forall i :: 0 <= i < |cs| ==> |cs[i]| == n }

  /** Overwrite part of a sequence in place. */
  function Splice<T>(s: seq<T>, at: nat, data: seq<T>): (r: seq<T>)
    requires at + |data| <= |s|
    ensures |r| == |s|
  {
    s[..at] + data + s[at + |data|..]
  }

  lemma MulStep(k: nat, n: nat)
    requires k > 0
    ensures k * n == (k - 1) * n + n
  {
  }

  lemma MulOrder(j: nat, k: nat, n: nat)
    requires j < k
    ensures j * n + n <= k * n
  {
    assert k * n == j * n + (k - j) * n;
    assert (k - j) * n >= n by { MulStep(k - j, n); }
  }

  lemma {:induction false} FlattenLength<T>(cs: seq<seq<T>>, n: nat)
    requires Uniform(cs, n)
    ensures |Flatten(cs)| == |cs| * n
  {
    if cs != [] {
      FlattenLength(cs[1..], n);
      MulStep(|cs|, n);
    }
  }

  /** Chunk `k` occupies positions [k * n, k * n + n). */
  lemma {:induction false} FlattenChunk<T>(cs: seq<seq<T>>, n: nat, k: nat)
    requires Uniform(cs, n) && k < |cs|
    ensures k * n + n <= |Flatten(cs)| && Flatten(cs)[k * n..k * n + n] == cs[k]
    decreases k
  {
    FlattenLength(cs, n);
    MulOrder(k, |cs|, n);
    if k > 0 {
      FlattenChunk(cs[1..], n, k - 1);
      MulStep(k, n);
      assert Flatten(cs)[n..] == Flatten(cs[1..]);
      assert Flatten(cs)[k * n..k * n + n] == Flatten(cs)[n..][(k - 1) * n..(k - 1) * n + n];
    }
  }

  /** A slice inside one chunk. */
  lemma FlattenSlice<T>(cs: seq<seq<T>>, n: nat, k: nat, lo: nat, hi: nat)
    requires Uniform(cs, n) && k < |cs| && lo <= hi <= n
    ensures k * n + n <= |Flatten(cs)| && Flatten(cs)[k * n + lo..k * n + hi] == cs[k][lo..hi]
  {
    FlattenChunk(cs, n, k);
    var chunk := Flatten(cs)[k * n..k * n + n];
    assert chunk[lo..hi] == Flatten(cs)[k * n + lo..k * n + hi];
  }

  lemma SpliceInside<T>(before: seq<T>, chunk: seq<T>, after: seq<T>, at: nat, data: seq<T>)
    requires at + |data| <= |chunk|
    ensures Splice(before + (chunk + after), |before| + at, data) == before + (Splice(chunk, at, data) + after)
  {
    var l, r := Splice(before + (chunk + after), |before| + at, data), before + (Splice(chunk, at, data) + after);
    assert |l| == |r|;
    forall i | 0 <= i < |l| ensures l[i] == r[i] {}
  }

  lemma {:induction false} FlattenConcat<T>(a: seq<seq<T>>, b: seq<seq<T>>)
    ensures Flatten(a + b) == Flatten(a) + Flatten(b)
  {
    if a == [] {
      assert a + b == b;
    } else {
      FlattenConcat(a[1..], b);
      assert (a + b)[1..] == a[1..] + b;
      Regroup(a[0], Flatten(a[1..]), Flatten(b));
    }
  }

  lemma Regroup<T>(a: seq<T>, b: seq<T>, c: seq<T>)
    ensures a + (b + c) == a + b + c
  {
  }

  /** Overwriting part of one chunk overwrites the same part of the whole. */
  lemma FlattenSplice<T>(cs: seq<seq<T>>, n: nat, k: nat, at: nat, data: seq<T>)
    requires Uniform(cs, n) && k < |cs| && at + |data| <= n
    ensures k * n + at + |data| <= |Flatten(cs)|
    ensures Flatten(cs[k := Splice(cs[k], at, data)]) == Splice(Flatten(cs), k * n + at, data)
    ensures Uniform(cs[k := Splice(cs[k], at, data)], n)
  {
    hide Flatten;
    var chunk := Splice(cs[k], at, data);
    FlattenAround(cs, n, k, cs[k]);
    FlattenAround(cs, n, k, chunk);
    assert cs[k := cs[k]] == cs;
    SpliceInside(Flatten(cs[..k]), cs[k], Flatten(cs[k + 1..]), at, data);
  }

  /** The whole around one chunk. */
  lemma FlattenAround<T>(cs: seq<seq<T>>, n: nat, k: nat, chunk: seq<T>)
    requires Uniform(cs, n) && k < |cs|
    ensures |Flatten(cs[..k])| == k * n && Flatten(cs[k := chunk]) == Flatten(cs[..k]) + (chunk + Flatten(cs[k + 1..]))
  {
    FlattenLength(cs[..k], n);
    assert cs[k := chunk] == cs[..k] + ([chunk] + cs[k + 1..]);
    FlattenConcat(cs[..k], [chunk] + cs[k + 1..]);
    assert ([chunk] + cs[k + 1..])[1..] == cs[k + 1..];
  }

  /** Two splices end to end are one. */
  lemma SpliceSplice<T>(s: seq<T>, at: nat, a: seq<T>, b: seq<T>)
    requires at + |a| + |b| <= |s|
    ensures Splice(Splice(s, at, a), at + |a|, b) == Splice(s, at, a + b)
  {
    var l, r := Splice(Splice(s, at, a), at + |a|, b), Splice(s, at, a + b);
    forall i | 0 <= i < |s| ensures l[i] == r[i] {}
  }
}
