/** The writer-preferring read-write spin lock as a system of atomic steps. */
module RwLock {
  const WRITER: nat := 1
  const READER: nat := 2

  /** Where a thread stands: about to do the step named, or holding the lock. */
  datatype Pc =
    | Idle
    | CheckWaiting        // read: about to load waiting_writers
    | LoadState           // read: about to load state
    | TryRead(seen: nat)  // read: about to compare-exchange state from `seen`
    | Reading             // holds a read guard
    | Announce            // write: about to increment waiting_writers
    | TryWrite            // write: about to compare-exchange state from 0
    | Retract             // write: has the lock, about to decrement waiting_writers
    | Writing             // holds the write guard

  /** The two atomics and the threads; `max` is the largest value of an atomic. */
  datatype Lock = Lock(max: nat, state: nat, waiting: nat, pcs: seq<Pc>)

  /** What a thread does next, when it has a choice: an idle thread may ask to read or to write. */
  datatype Choice = ToRead | ToWrite

  function At(s: Lock, t: nat, pc: Pc): Lock
    requires t < |s.pcs|
  {
    s.(pcs := s.pcs[t := pc])
  }

  /** One atomic step of thread `t`. */
  function Step(s: Lock, t: nat, c: Choice): Lock
    requires t < |s.pcs|
  {
    match s.pcs[t]
    case Idle => At(s, t, if c.ToRead? then CheckWaiting else Announce)
    case CheckWaiting => if s.waiting != 0 then s else At(s, t, LoadState)
    case LoadState =>
      if s.state % 2 == WRITER || s.state + READER > s.max then At(s, t, CheckWaiting) else At(s, t, TryRead(s.state))
    case TryRead(seen) =>
      if s.state == seen then At(s.(state := seen + READER), t, Reading) else At(s, t, CheckWaiting)
    case Reading => At(s.(state := if s.state >= READER then s.state - READER else 0), t, Idle)
    case Announce => At(s.(waiting := s.waiting + 1), t, TryWrite)
    case TryWrite => if s.state == 0 then At(s.(state := WRITER), t, Retract) else s
    case Retract => At(s.(waiting := if s.waiting > 0 then s.waiting - 1 else 0), t, Writing)
    case Writing => At(s.(state := 0), t, Idle)
  }

  // ----- what holds in every state -----

  predicate Holds(pc: Pc) { pc == Retract || pc == Writing }
  predicate Waits(pc: Pc) { pc == TryWrite || pc == Retract }

  ghost function Readers(s: Lock): set<nat> { set t: nat | t < |s.pcs| && s.pcs[t] == Reading }
  ghost function Holders(s: Lock): set<nat> { set t: nat | t < |s.pcs| && Holds(s.pcs[t]) }
  ghost function Waiters(s: Lock): set<nat> { set t: nat | t < |s.pcs| && Waits(s.pcs[t]) }

  /** A reader only remembers states in which nobody was writing. */
  predicate SawNoWriter(pc: Pc) { pc.TryRead? ==> pc.seen % 2 == 0 }

  /**
   The state word is twice the number of readers plus the writer bit, never both; at most one
   writer holds the lock; waiting_writers counts the writers between announcing and retracting.
   */
  ghost predicate Inv(s: Lock) {
    && s.state == READER * |Readers(s)| + |Holders(s)| && |Holders(s)| <= 1
    && (|Holders(s)| == 0 || |Readers(s)| == 0)
    && s.waiting == |Waiters(s)|
    && forall t :: 0 <= t < |s.pcs| ==> SawNoWriter(s.pcs[t])
  }

  function One(b: bool): nat { if b then 1 else 0 }

  /** How moving one thread changes the three counts. */
  lemma Moved(s: Lock, s': Lock, t: nat)
    requires t < |s.pcs| == |s'.pcs| && s'.pcs == s.pcs[t := s'.pcs[t]]
    ensures |Readers(s')| == |Readers(s)| + One(s'.pcs[t] == Reading) - One(s.pcs[t] == Reading)
    ensures |Holders(s')| == |Holders(s)| + One(Holds(s'.pcs[t])) - One(Holds(s.pcs[t]))
    ensures |Waiters(s')| == |Waiters(s)| + One(Waits(s'.pcs[t])) - One(Waits(s.pcs[t]))
  {
    hide Readers, Holders, Waiters;
    MovedReaders(s, s', t);
    MovedHolders(s, s', t);
    MovedWaiters(s, s', t);
  }

  lemma MovedReaders(s: Lock, s': Lock, t: nat)
    requires t < |s.pcs| == |s'.pcs| && s'.pcs == s.pcs[t := s'.pcs[t]]
    ensures |Readers(s')| == |Readers(s)| + One(s'.pcs[t] == Reading) - One(s.pcs[t] == Reading)
  {
    OneMoved(Readers(s), Readers(s'), t, s'.pcs[t] == Reading);
  }

  lemma MovedHolders(s: Lock, s': Lock, t: nat)
    requires t < |s.pcs| == |s'.pcs| && s'.pcs == s.pcs[t := s'.pcs[t]]
    ensures |Holders(s')| == |Holders(s)| + One(Holds(s'.pcs[t])) - One(Holds(s.pcs[t]))
  {
    hide Holds;
    OneMoved(Holders(s), Holders(s'), t, Holds(s'.pcs[t]));
  }

  lemma MovedWaiters(s: Lock, s': Lock, t: nat)
    requires t < |s.pcs| == |s'.pcs| && s'.pcs == s.pcs[t := s'.pcs[t]]
    ensures |Waiters(s')| == |Waiters(s)| + One(Waits(s'.pcs[t])) - One(Waits(s.pcs[t]))
  {
    hide Waits;
    OneMoved(Waiters(s), Waiters(s'), t, Waits(s'.pcs[t]));
  }

  lemma OneMoved(a: set<nat>, b: set<nat>, t: nat, now: bool)
    requires b == if now then a + {t} else a - {t}
    ensures |b| == |a| + One(now) - One(t in a)
  {
  }

  /** A thread that is somewhere is counted there. */
  lemma Counted(s: Lock, t: nat)
    requires t < |s.pcs|
    ensures (s.pcs[t] == Reading ==> |Readers(s)| > 0) && (Holds(s.pcs[t]) ==> |Holders(s)| > 0)
              && (Waits(s.pcs[t]) ==> |Waiters(s)| > 0)
  {
    assert s.pcs[t] == Reading ==> t in Readers(s);
    assert Holds(s.pcs[t]) ==> t in Holders(s);
    assert Waits(s.pcs[t]) ==> t in Waiters(s);
  }

  /** Every step of every thread keeps the invariant. */
  lemma StepKeeps(s: Lock, t: nat, c: Choice)
    requires Inv(s) && t < |s.pcs|
    ensures Inv(Step(s, t, c)) && |Step(s, t, c).pcs| == |s.pcs|
  {
    hide Readers, Holders, Waiters;
    var s' := Step(s, t, c);
    assert s'.pcs == s.pcs[t := s'.pcs[t]];
    Moved(s, s', t);
    Counted(s, t);
    assert SawNoWriter(s.pcs[t]);
  }

  // ----- all runs -----

  /** A scheduler's decision: which thread steps, and what it chooses. */
  datatype Turn = Turn(t: nat, c: Choice)

  ghost predicate Schedule(s: Lock, turns: seq<Turn>) { forall i :: 0 <= i < |turns| ==> turns[i].t < |s.pcs| }

  /** The state after some turns. */
  ghost function Run(s: Lock, turns: seq<Turn>): Lock
    requires Schedule(s, turns)
    decreases turns
  {
    if turns == [] then s
    else
      var s' := Step(s, turns[0].t, turns[0].c);
      assert Schedule(s', turns[1..]);
      Run(s', turns[1..])
  }

  function Fresh(max: nat, threads: nat): Lock { Lock(max, 0, 0, seq(threads, _ => Idle)) }

  lemma FreshInv(max: nat, threads: nat)
    ensures Inv(Fresh(max, threads))
  {
    var s := Fresh(max, threads);
    assert Readers(s) == {} && Holders(s) == {} && Waiters(s) == {};
  }

  lemma {:induction false} RunKeeps(s: Lock, turns: seq<Turn>)
    requires Inv(s) && Schedule(s, turns)
    ensures Inv(Run(s, turns)) && |Run(s, turns).pcs| == |s.pcs|
    decreases turns
  {
    if turns != [] {
      StepKeeps(s, turns[0].t, turns[0].c);
      RunKeeps(Step(s, turns[0].t, turns[0].c), turns[1..]);
    }
  }

  /** Mutual exclusion in every interleaving: a writer is alone. */
  lemma WriterAlone(max: nat, threads: nat, turns: seq<Turn>, t: nat, u: nat)
    requires Schedule(Fresh(max, threads), turns) && t < threads && u < threads && t != u
    ensures var s := Run(Fresh(max, threads), turns);
            |s.pcs| == threads && (Holds(s.pcs[t]) ==> !Holds(s.pcs[u]) && s.pcs[u] != Reading)
  {
    FreshInv(max, threads);
    RunKeeps(Fresh(max, threads), turns);
    var s := Run(Fresh(max, threads), turns);
    if Holds(s.pcs[t]) && Holds(s.pcs[u]) {
      assert {t, u} <= Holders(s);
      TwoIsMore(Holders(s), t, u);
    }
    if Holds(s.pcs[t]) && s.pcs[u] == Reading {
      Counted(s, t);
      Counted(s, u);
    }
  }

  lemma TwoIsMore(h: set<nat>, t: nat, u: nat)
    requires t in h && u in h && t != u
    ensures |h| >= 2
  {
    var rest := h - {t};
    assert u in rest && h == rest + {t};
  }

  // ----- writers come first -----

  /** The thread has found no writer waiting and has not acquired the lock yet. */
  predicate Passed(pc: Pc) { pc == LoadState || pc.TryRead? }

  /** The turn makes the thread a reader. */
  ghost predicate Acquires(s: Lock, turn: Turn)
    requires turn.t < |s.pcs|
  {
    s.pcs[turn.t] != Reading && Step(s, turn.t, turn.c).pcs[turn.t] == Reading
  }

  /** How often thread `t` acquires a read lock during some turns. */
  ghost function Acquisitions(s: Lock, turns: seq<Turn>, t: nat): nat
    requires Schedule(s, turns)
    decreases turns
  {
    if turns == [] then 0
    else
      var s' := Step(s, turns[0].t, turns[0].c);
      assert Schedule(s', turns[1..]);
      One(turns[0].t == t && Acquires(s, turns[0])) + Acquisitions(s', turns[1..], t)
  }

  /** Writer `w` waits through all the turns. */
  ghost predicate WaitsThroughout(s: Lock, turns: seq<Turn>, w: nat)
    requires Schedule(s, turns) && w < |s.pcs|
    decreases turns
  {
    s.pcs[w] == TryWrite &&
    (turns == [] ||
     var s' := Step(s, turns[0].t, turns[0].c);
     assert Schedule(s', turns[1..]);
     WaitsThroughout(s', turns[1..], w))
  }

  /** While a writer waits nobody passes the waiting check. */
  lemma NobodyPasses(s: Lock, turn: Turn, w: nat, t: nat)
    requires Inv(s) && turn.t < |s.pcs| && w < |s.pcs| && s.pcs[w] == TryWrite && t < |s.pcs|
    ensures var s' := Step(s, turn.t, turn.c);
            && (Passed(s'.pcs[t]) ==> Passed(s.pcs[t]))
            && (turn.t == t && Acquires(s, turn) ==> Passed(s.pcs[t]) && !Passed(s'.pcs[t]))
  {
    Counted(s, w);
  }

  /**
   While a writer waits, a thread acquires a read lock at most once, and only if it had passed
   the waiting check before.
   */
  lemma {:induction false} WriterPreferred(s: Lock, turns: seq<Turn>, w: nat, t: nat)
    requires Inv(s) && Schedule(s, turns) && w < |s.pcs| && t < |s.pcs| && WaitsThroughout(s, turns, w)
    ensures Acquisitions(s, turns, t) <= One(Passed(s.pcs[t]))
    decreases turns
  {
    if turns != [] {
      StepKeeps(s, turns[0].t, turns[0].c);
      NobodyPasses(s, turns[0], w, t);
      WriterPreferred(Step(s, turns[0].t, turns[0].c), turns[1..], w, t);
    }
  }

  /** In particular, counted from the increment: a thread that had not passed by then does not get in. */
  lemma AfterAnnouncing(s: Lock, turns: seq<Turn>, w: nat, c: Choice, t: nat)
    requires Inv(s) && w < |s.pcs| && s.pcs[w] == Announce && t < |s.pcs| && t != w
    requires Schedule(s, turns) && Schedule(Step(s, w, c), turns) && WaitsThroughout(Step(s, w, c), turns, w)
    ensures Acquisitions(Step(s, w, c), turns, t) <= One(Passed(s.pcs[t]))
  {
    StepKeeps(s, w, c);
    WriterPreferred(Step(s, w, c), turns, w, t);
  }

  /** With nobody inside, a waiting writer's next step succeeds. */
  lemma FreeLockIsTaken(s: Lock, w: nat, c: Choice)
    requires Inv(s) && w < |s.pcs| && s.pcs[w] == TryWrite
    requires forall t :: 0 <= t < |s.pcs| ==> s.pcs[t] != Reading && !Holds(s.pcs[t])
    ensures Holds(Step(s, w, c).pcs[w])
  {
    assert Readers(s) == {} && Holders(s) == {};
  }

  // ----- who gets in, and what leaving does -----

  /** Three turns of one thread in a row, whatever it chooses. */
  ghost function Three(s: Lock, t: nat, c: Choice): Lock
    requires t < |s.pcs|
  {
    Run(s, [Turn(t, c), Turn(t, c), Turn(t, c)])
  }

  lemma ThreeSteps(s: Lock, t: nat, c: Choice)
    requires t < |s.pcs|
    ensures |Step(s, t, c).pcs| == |s.pcs| && |Step(Step(s, t, c), t, c).pcs| == |s.pcs|
    ensures Three(s, t, c) == Step(Step(Step(s, t, c), t, c), t, c)
  {
    var turn, s1, s2 := Turn(t, c), Step(s, t, c), Step(Step(s, t, c), t, c);
    assert [turn, turn, turn][1..] == [turn, turn] && [turn, turn][1..] == [turn] && [turn][1..] == [];
    assert Run(s2, [turn]) == Step(s2, t, c);
    assert Run(s1, [turn, turn]) == Run(s2, [turn]);
  }

  lemma BitIsHolder(s: Lock)
    requires Inv(s)
    ensures s.state % 2 == WRITER <==> exists u :: 0 <= u < |s.pcs| && Holds(s.pcs[u])
    ensures s.state == 0 <==> forall u :: 0 <= u < |s.pcs| ==> s.pcs[u] != Reading && !Holds(s.pcs[u])
  {
    if |Holders(s)| > 0 {
      var u :| u in Holders(s);
    }
    if |Readers(s)| > 0 {
      var u :| u in Readers(s);
    }
    forall u | 0 <= u < |s.pcs| ensures (s.pcs[u] == Reading ==> s.state != 0)
        && (Holds(s.pcs[u]) ==> s.state % 2 == WRITER) {
      Counted(s, u);
    }
  }

  /**
   A thread that asks to read and is not disturbed gets in exactly if no writer waits or holds the lock and the
   word has room; readers inside do not keep it out, and every other thread stays where it is.
   */
  lemma ReaderEnters(s: Lock, t: nat, c: Choice)
    requires Inv(s) && t < |s.pcs| && s.pcs[t] == CheckWaiting
    ensures var open := s.waiting == 0 && s.state + READER <= s.max
                && (forall u :: 0 <= u < |s.pcs| ==> !Holds(s.pcs[u]));
            && |Three(s, t, c).pcs| == |s.pcs| && (Three(s, t, c).pcs[t] == Reading <==> open)
            && (open ==> Three(s, t, c) == s.(state := s.state + READER, pcs := s.pcs[t := Reading]))
  {
    hide Inv;
    ThreeSteps(s, t, c);
    BitIsHolder(s);
    assert s.state % 2 == 0 || s.state % 2 == WRITER;
    if s.waiting == 0 {
      var s1 := Step(s, t, c);
      assert s1 == At(s, t, LoadState);
      var s2 := Step(s1, t, c);
      if s.state % 2 == WRITER || s.state + READER > s.max {
        assert s2 == At(s, t, CheckWaiting);
      } else {
        assert s2 == At(s, t, TryRead(s.state));
        assert Step(s2, t, c) == At(s.(state := s.state + READER), t, Reading);
      }
    }
  }

  /** A thread that asks to write and is not disturbed gets in exactly if nobody is inside; else it waits. */
  lemma WriterEnters(s: Lock, t: nat, c: Choice)
    requires Inv(s) && t < |s.pcs| && s.pcs[t] == Announce
    ensures var open := forall u :: 0 <= u < |s.pcs| ==> s.pcs[u] != Reading && !Holds(s.pcs[u]);
            Three(s, t, c) == if open then s.(state := WRITER, pcs := s.pcs[t := Writing])
                else s.(waiting := s.waiting + 1, pcs := s.pcs[t := TryWrite])
  {
    hide Inv;
    ThreeSteps(s, t, c);
    BitIsHolder(s);
    var s1 := Step(s, t, c);
    assert s1 == At(s.(waiting := s.waiting + 1), t, TryWrite);
    if s.state == 0 {
      assert Step(s1, t, c) == At(s1.(state := WRITER), t, Retract);
    }
  }

  /** `k` turns of one thread in a row. */
  ghost function Alone(s: Lock, t: nat, c: Choice, k: nat): (r: Lock)
    requires t < |s.pcs|
    ensures |r.pcs| == |s.pcs|
    decreases k
  {
    if k == 0 then s else Alone(Step(s, t, c), t, c, k - 1)
  }

  /** Wherever a thread stands on its way in, it gets in within a few turns of its own once the lock is open to it. */
  lemma GetsIn(s: Lock, t: nat, c: Choice) returns (k: nat)
    requires Inv(s) && t < |s.pcs|
    ensures (Passed(s.pcs[t]) || s.pcs[t] == CheckWaiting) && s.waiting == 0 && s.state + READER <= s.max
              && (forall u :: 0 <= u < |s.pcs| ==> !Holds(s.pcs[u])) ==>
              && k <= 4 && Alone(s, t, c, k) == s.(state := s.state + READER, pcs := s.pcs[t := Reading])
    ensures s.pcs[t] == TryWrite && (forall u :: 0 <= u < |s.pcs| ==> s.pcs[u] != Reading && !Holds(s.pcs[u])) ==>
              && k <= 4 && s.waiting > 0
              && Alone(s, t, c, k) == s.(state := WRITER, waiting := s.waiting - 1, pcs := s.pcs[t := Writing])
    ensures s.pcs[t] == Retract ==>
              && k <= 4 && s.waiting > 0
              && Alone(s, t, c, k) == s.(waiting := s.waiting - 1, pcs := s.pcs[t := Writing])
  {
    BitIsHolder(s);
    Counted(s, t);
    hide Inv;
    var s1 := Step(s, t, c);
    var s2 := Step(s1, t, c);
    match s.pcs[t]
    case CheckWaiting =>
      k := 3;
      ThreeSteps(s, t, c);
      ReaderEnters(s, t, c);
    case LoadState => k := 2;
    case TryRead(seen) =>
      k := if seen == s.state then 1 else 4;
      if seen != s.state {
        StepKeeps(s, t, c);
        ReaderEnters(s1, t, c);
        ThreeSteps(s1, t, c);
      }
    case TryWrite => k := 2;
    case Retract => k := 1;
    case _ => k := 0;
    AloneIs(s, t, c);
    AloneIs(s1, t, c);
  }

  lemma AloneIs(s: Lock, t: nat, c: Choice)
    requires t < |s.pcs|
    ensures Alone(s, t, c, 1) == Step(s, t, c) && Alone(s, t, c, 2) == Step(Step(s, t, c), t, c)
    ensures Alone(s, t, c, 3) == Step(Step(Step(s, t, c), t, c), t, c)
    ensures Alone(s, t, c, 4) == Alone(Step(s, t, c), t, c, 3)
  {
    var s1 := Step(s, t, c);
    var s2 := Step(s1, t, c);
    assert Alone(s1, t, c, 1) == Alone(s2, t, c, 0) && Alone(s2, t, c, 1) == Alone(Step(s2, t, c), t, c, 0);
  }

  /** Asking and leaving: one turn each.  Once a writer has left, nobody is inside. */
  lemma AskAndLeave(s: Lock, t: nat, c: Choice)
    requires Inv(s) && t < |s.pcs|
    ensures s.pcs[t] == Idle ==> Step(s, t, c) == s.(pcs := s.pcs[t := if c == ToRead then CheckWaiting else Announce])
    ensures s.pcs[t] == Reading ==>
              s.state >= READER && Step(s, t, c) == s.(state := s.state - READER, pcs := s.pcs[t := Idle])
    ensures s.pcs[t] == Writing ==>
              && Step(s, t, c) == s.(state := 0, pcs := s.pcs[t := Idle])
              && forall u :: 0 <= u < |s.pcs| ==>
                   Step(s, t, c).pcs[u] != Reading && !Holds(Step(s, t, c).pcs[u])
  {
    Counted(s, t);
    if s.pcs[t] == Writing {
      StepKeeps(s, t, c);
      BitIsHolder(Step(s, t, c));
    }
  }

  /** With few enough threads the overflow check never fails. */
  lemma NoOverflow(s: Lock)
    requires Inv(s) && READER * |s.pcs| + READER <= s.max
    ensures s.state % 2 != WRITER ==> s.state + READER <= s.max
  {
    ReadersBound(s, |s.pcs|);
  }

  lemma {:induction false} ReadersBound(s: Lock, n: nat)
    requires n <= |s.pcs|
    ensures |set t | 0 <= t < n && s.pcs[t] == Reading| <= n
    ensures n == |s.pcs| ==> (set t | 0 <= t < n && s.pcs[t] == Reading) == Readers(s)
    decreases n
  {
    var r := set t | 0 <= t < n && s.pcs[t] == Reading;
    if n > 0 {
      ReadersBound(s, n - 1);
      var q := set t | 0 <= t < n - 1 && s.pcs[t] == Reading;
      assert r == if s.pcs[n - 1] == Reading then q + {n - 1} else q;
    } else {
      assert r == {};
    }
  }
}
