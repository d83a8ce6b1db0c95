/** Counting finite sets of numbers. */
module FiniteSets {
  predicate Between(lo: nat, z: nat, hi: nat) { lo <= z < hi }

  function Range(lo: nat, hi: nat): set<nat> { set z: nat | lo <= z < hi && Between(lo, z, hi) }

  lemma {:induction false} RangeSize(lo: nat, hi: nat)
    requires lo <= hi
    ensures |Range(lo, hi)| == hi - lo
    decreases hi
  {
    if lo < hi {
      RangeSize(lo, hi - 1);
      assert Range(lo, hi) == Range(lo, hi - 1) + {hi - 1};
    } else {
      assert Range(lo, hi) == {};
    }
  }

  lemma {:induction false} SubsetSize(a: set<nat>, b: set<nat>)
    requires a <= b
    ensures |a| <= |b| && (a != b ==> |a| < |b|)
    decreases a
  {
    if a == {} {
      assert b != {} ==> exists x :: x in b;
    } else {
      var x :| x in a;
      SubsetSize(a - {x}, b - {x});
    }
  }

  /** A finite non-empty set of numbers has a largest and a smallest element. */
  lemma {:induction false} HasMax(s: set<nat>) returns (m: nat)
    requires s != {}
    ensures m in s && forall x :: x in s ==> x <= m
    decreases s
  {
    var x :| x in s;
    m := x;
    if s != {x} {
      var n := HasMax(s - {x});
      m := if n < x then x else n;
      assert forall y :: y in s ==> y == x || y in s - {x};
    }
  }

  lemma {:induction false} HasMin(s: set<nat>) returns (m: nat)
    requires s != {}
    ensures m in s && forall x :: x in s ==> m <= x
    decreases s
  {
    var x :| x in s;
    m := x;
    if s != {x} {
      var n := HasMin(s - {x});
      m := if n < x then n else x;
      assert forall y :: y in s ==> y == x || y in s - {x};
    }
  }
}
