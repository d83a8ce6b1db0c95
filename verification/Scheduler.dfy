/** Round-robin selection of the next task. */
module Scheduler {
  import opened Memory
  import opened FiniteSets

  datatype Status = Running | Waiting | Sleeping | Zombie | Stopped | Dead

  predicate Runnable(s: Status) { s == Running }

  /** The task table: task ids with their status. */
  type Table = map<nat, Status>

  predicate CanRun(tasks: Table, t: nat) { t in tasks && Runnable(tasks[t]) }

  /** How far ahead of the cursor a task id is, going up and wrapping at `limit`. */
  function Distance(cursor: Option<nat>, t: nat, limit: nat): (d: nat)
    requires t < limit && (cursor.Some? ==> cursor.value < limit)
    ensures d > 0
  {
    match cursor
    case None => t + 1
    case Some(c) => if t > c then t - c else limit + t - c
  }

  /** All ids in the table are below `limit`. */
  ghost predicate Below(tasks: Table, limit: nat) { forall t :: t in tasks ==> t < limit }

  /** The runnable task closest ahead of the cursor. */
  ghost predicate IsNext(tasks: Table, cursor: Option<nat>, limit: nat, r: nat)
    requires Below(tasks, limit) && (cursor.Some? ==> cursor.value < limit)
  {
    CanRun(tasks, r) && forall t: nat :: CanRun(tasks, t) ==> Distance(cursor, r, limit) <= Distance(cursor, t, limit)
  }

  class Tasks {
    var tasks: Table
    var cursor: Option<nat>
    /** An upper bound for task ids; it plays no part in what is computed. */
    ghost const limit: nat

    ghost predicate Valid()
      reads this
    {
      Below(tasks, limit) && (cursor.Some? ==> cursor.value < limit)
    }

    constructor (ghost limit: nat)
      ensures Valid() && tasks == map[] && cursor == None && this.limit == limit
    {
      this.tasks, this.cursor, this.limit := map[], None, limit;
    }

    /** The first runnable task after `from`, in ascending order; from the start if there is no `from`. */
    method FirstFrom(from: Option<nat>) returns (r: Option<nat>)
      ensures r.Some? ==>
                && CanRun(tasks, r.value) && (from.Some? ==> r.value > from.value)
                && forall t: nat :: CanRun(tasks, t) && (from.Some? ==> t > from.value) ==> r.value <= t
      ensures r.None? ==> forall t: nat :: CanRun(tasks, t) ==> from.Some? && t <= from.value
    {
      var todo := set t | t in tasks && (from.None? || t > from.value);
      assert forall t :: t in tasks && (from.None? || t > from.value) ==> t in todo;
      while todo != {}
        invariant forall t :: t in todo ==> t in tasks && (from.None? || t > from.value)
        invariant forall t :: t in tasks && (from.None? || t > from.value) && t !in todo ==> !CanRun(tasks, t)
      {
        ghost var bottom := HasMin(todo);
        var t :| t in todo && forall u :: u in todo ==> t <= u;
        if Runnable(tasks[t]) {
          return Some(t);
        }
        todo := todo - {t};
      }
      return None;
    }

    /** `select_next`: the closest runnable task ahead of the cursor becomes the cursor. */
    method SelectNext() returns (r: Option<nat>)
      requires Valid()
      modifies this
      ensures Valid() && tasks == old(tasks)
      ensures r.None? ==> cursor == old(cursor) && forall t: nat :: !CanRun(tasks, t)
      ensures r.Some? ==> cursor == r && IsNext(tasks, old(cursor), limit, r.value)
    {
      r := None;
      if cursor.Some? {
        r := FirstFrom(cursor);
      }
      if r.None? {
        r := FirstFrom(None);
      }
      if r.None? {
        return;
      }
      cursor := r;
      tasks := tasks[r.value := Running];
      assert tasks == old(tasks);
    }
  }

  /** Selecting somebody else brings a runnable task strictly closer. */
  lemma Closer(tasks: Table, cursor: Option<nat>, limit: nat, r: nat, t: nat)
    requires Below(tasks, limit) && (cursor.Some? ==> cursor.value < limit) && IsNext(tasks, cursor, limit, r)
              && CanRun(tasks, t) && t != r
    ensures Distance(Some(r), t, limit) < Distance(cursor, t, limit)
  {
    assert Distance(cursor, r, limit) <= Distance(cursor, t, limit);
  }

  /** The cursor before selection `i`. */
  function CursorAt(cursor: Option<nat>, chosen: seq<nat>, i: nat): Option<nat>
    requires i <= |chosen|
  {
    if i == 0 then cursor else Some(chosen[i - 1])
  }

  /** A run: before each selection the table may be anything, as long as ids stay below `limit`. */
  ghost predicate Selections(tables: seq<Table>, cursor: Option<nat>, limit: nat, chosen: seq<nat>) {
    && |chosen| == |tables| && (cursor.Some? ==> cursor.value < limit)
    && (forall i :: 0 <= i < |tables| ==> Below(tables[i], limit))
    && (forall i :: 0 <= i < |chosen| ==> chosen[i] < limit)
    && forall i :: 0 <= i < |tables| ==> IsNext(tables[i], CursorAt(cursor, chosen, i), limit, chosen[i])
  }

  /**
   A task that is runnable at every selection is chosen within as many selections as it is ahead
   of the cursor, whatever happens to the other tasks in between.
   */
  lemma {:induction false} ChosenInTime(tables: seq<Table>, cursor: Option<nat>, limit: nat, chosen: seq<nat>, t: nat)
      returns (k: nat)
    requires t < limit && Selections(tables, cursor, limit, chosen)
    requires (forall i :: 0 <= i < |tables| ==> CanRun(tables[i], t)) && |tables| >= Distance(cursor, t, limit)
    ensures k < Distance(cursor, t, limit) && k < |chosen| && chosen[k] == t
    decreases |tables|
  {
    assert IsNext(tables[0], CursorAt(cursor, chosen, 0), limit, chosen[0]);
    if chosen[0] == t {
      k := 0;
    } else {
      Closer(tables[0], cursor, limit, chosen[0], t);
      LaterSelections(tables, cursor, limit, chosen);
      k := ChosenInTime(tables[1..], Some(chosen[0]), limit, chosen[1..], t);
      k := k + 1;
    }
  }

  lemma LaterSelections(tables: seq<Table>, cursor: Option<nat>, limit: nat, chosen: seq<nat>)
    requires Selections(tables, cursor, limit, chosen) && tables != []
    ensures Selections(tables[1..], Some(chosen[0]), limit, chosen[1..])
  {
    forall i | 0 <= i < |tables[1..]|
      ensures IsNext(tables[1..][i], CursorAt(Some(chosen[0]), chosen[1..], i), limit, chosen[1..][i])
    {
      assert IsNext(tables[i + 1], CursorAt(cursor, chosen, i + 1), limit, chosen[i + 1]);
    }
  }
}
