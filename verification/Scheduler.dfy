/** Round-robin picking (src/task.c): a slot that stays runnable waits for at most one turn of
    every other slot, whatever else happens in between.  Any number of slots. */
module Scheduler {
  import opened ProcessTable

  predicate CanRun(slots: seq<Slot>, i: int) { 0 <= i < |slots| && slots[i].status.Runnable? }

  /** How many slots are passed over when going on from slot `from` until `to` is reached. */
  function Ahead(n: nat, from: int, to: int): int { if to > from then to - from - 1 else to - from - 1 + n }

  /** What one pick after `from` may return: the nearest runnable slot, or nothing if there is none. */
  ghost predicate Picks(slots: seq<Slot>, from: int, next: int) {
    if next == -1 then forall i :: 0 <= i < |slots| ==> !CanRun(slots, i)
    else CanRun(slots, next) && forall i :: CanRun(slots, i) ==> Ahead(|slots|, from, next) <= Ahead(|slots|, from, i)
  }

  /** (from + 1 + pass) % n is the slot that lies `pass` slots ahead, and every slot is one. */
  lemma {:induction false} AheadIndex(n: nat, from: int, pass: nat)
    requires -1 <= from < n && pass < n
    ensures var i := (from + 1 + pass) % n; 0 <= i < n && Ahead(n, from, i) == pass
  {
    if from + 1 + pass >= n {
      assert (from + 1 + pass) % n == from + 1 + pass - n by {
        Remainder(from + 1 + pass - n, n);
      }
    }
  }

  lemma {:induction false} Remainder(r: nat, n: nat)
    requires r < n
    ensures (r + n) % n == r
  {
  }

  /** The picks made one after the other while the statuses change in any way: each starts from the
      slot picked before it, or from where it was if nothing could run. */
  ghost predicate IsSchedule(n: nat, history: seq<seq<Slot>>, cursor: int, picks: seq<int>) {
    |picks| == |history| && forall k :: 0 <= k < |picks| ==> IsPick(n, history, cursor, picks, k)
  }

  ghost predicate IsPick(n: nat, history: seq<seq<Slot>>, cursor: int, picks: seq<int>, k: nat)
    requires |picks| == |history| && k < |picks|
  {
    |history[k]| == n && Picks(history[k], Cursor(cursor, picks, k), picks[k])
  }

  /** The cursor after k picks. */
  function Cursor(cursor: int, picks: seq<int>, k: nat): int
    requires k <= |picks|
  {
    if k == 0 then cursor else if picks[k - 1] == -1 then Cursor(cursor, picks, k - 1) else picks[k - 1]
  }

  /** A pick that passes over the runnable j brings it nearer. */
  lemma {:induction false} Nearer(slots: seq<Slot>, from: int, next: int, j: int)
    requires -1 <= from < |slots| && Picks(slots, from, next) && CanRun(slots, j) && next != j
    ensures CanRun(slots, next) && Ahead(|slots|, next, j) < Ahead(|slots|, from, j)
  {
  }

  /** As long as j is passed over, every pick counts. */
  lemma {:induction false} Passed(n: nat, history: seq<seq<Slot>>, cursor: int, picks: seq<int>, j: int, i: nat, k: nat)
    requires -1 <= cursor < n && IsSchedule(n, history, cursor, picks) && i <= k <= |picks|
    requires forall l :: 0 <= l < k ==> CanRun(history[l], j) && picks[l] != j
    ensures -1 <= Cursor(cursor, picks, k) < n && (k > 0 ==> Cursor(cursor, picks, k) == picks[k - 1])
    ensures Ahead(n, Cursor(cursor, picks, k), j) + k - i <= Ahead(n, Cursor(cursor, picks, i), j)
    decreases k
  {
    if k > 0 {
      Passed(n, history, cursor, picks, j, if i == k then i - 1 else i, k - 1);
      assert IsPick(n, history, cursor, picks, k - 1);
      Nearer(history[k - 1], Cursor(cursor, picks, k - 1), picks[k - 1], j);
    }
  }

  /** A slot that stays runnable is picked within n picks, and no other slot gets two turns before. */
  lemma {:induction false} BoundedWaiting(n: nat, history: seq<seq<Slot>>, cursor: int, picks: seq<int>, j: nat)
    returns (k: nat)
    requires -1 <= cursor < n && j < n && IsSchedule(n, history, cursor, picks) && |picks| >= n
    requires forall i :: 0 <= i < n ==> CanRun(history[i], j)
    ensures k < n && picks[k] == j && j !in picks[..k]
    ensures forall a, b :: 0 <= a < b < k ==> picks[a] != picks[b]
  {
    k := FirstPick(picks, n, j);
    Passed(n, history, cursor, picks, j, 0, k);
    forall a, b | 0 <= a < b < k ensures picks[a] != picks[b] {
      NoRepeat(n, history, cursor, picks, j, a, b);
    }
  }

  /** The first of n picks that is j, or n. */
  lemma {:induction false} FirstPick(picks: seq<int>, n: nat, j: int) returns (k: nat)
    requires n <= |picks|
    ensures k <= n && (k < n ==> picks[k] == j) && forall i :: 0 <= i < k ==> picks[i] != j
  {
    k := 0;
    while k < n && picks[k] != j
      invariant k <= n && forall i :: 0 <= i < k ==> picks[i] != j
    {
      k := k + 1;
    }
  }

  /** While j is passed over, no slot is picked twice. */
  lemma {:induction false} NoRepeat(n: nat, history: seq<seq<Slot>>, cursor: int, picks: seq<int>, j: int, a: nat,
                                    b: nat)
    requires -1 <= cursor < n && IsSchedule(n, history, cursor, picks) && a < b < |picks|
    requires forall l :: 0 <= l <= b ==> CanRun(history[l], j) && picks[l] != j
    ensures picks[a] != picks[b]
  {
    Passed(n, history, cursor, picks, j, a + 1, b + 1);
    Passed(n, history, cursor, picks, j, 0, a + 1);
  }

  class RoundRobin {
    var cursor: int
    var active: int

    ghost predicate Valid(n: nat)
      reads this
    {
      -1 <= cursor < n && -1 <= active < n
    }

    /** The process that runs is the one picked last. */
    ghost predicate InStep()
      reads this
    {
      active == -1 || active == cursor
    }

    constructor ()
      ensures cursor == -1 && active == -1 && forall n: nat :: Valid(n)
    {
      cursor, active := -1, -1;
    }

    /** task_pick_next_runnable */
    method PickNext(slots: seq<Slot>, current: int) returns (next: int)
      requires -1 <= current < |slots|
      modifies this`cursor
      ensures Picks(slots, current, next) && cursor == if next == -1 then old(cursor) else next
    {
      var n := |slots|;
      var pass := 0;
      while pass < n
        invariant 0 <= pass <= n && cursor == old(cursor)
        invariant forall i :: CanRun(slots, i) ==> Ahead(n, current, i) >= pass
      {
        AheadIndex(n, current, pass);
        var index := (current + 1 + pass) % n;
        if slots[index].status.Runnable? {
          cursor := index;
          return index;
        }
        pass := pass + 1;
      }
      next := -1;
    }

    /** One turn of the loop in task_run_scheduler_session: nothing is active, a slot is picked and, if
        it passes validation, resumed. */
    method Dispatch(slots: seq<Slot>, fit: bool) returns (next: int)
      requires Valid(|slots|)
      modifies this
      ensures Valid(|slots|) && InStep() && Picks(slots, old(cursor), next)
      ensures cursor == if next == -1 then old(cursor) else next
      ensures active == if fit then next else -1
    {
      next := PickNext(slots, cursor);
      active := if fit then next else -1;
    }

    /** task_timer_tick; only every second tick in user mode switches.  A slot that does not pass
        validation is picked, but the running one stays. */
    method TimerTick(slots: seq<Slot>, userMode: bool, odd: bool, fit: bool)
      requires Valid(|slots|) && (active != -1 ==> CanRun(slots, active))
      modifies this
      ensures Valid(|slots|) && (old(InStep()) && fit ==> InStep())
      ensures if userMode && old(active) >= 0 && !odd
              then cursor >= 0 && Picks(slots, old(active), cursor) && active == if fit then cursor else old(active)
              else active == old(active) && cursor == old(cursor)
    {
      if !userMode || active < 0 || odd {
        return;
      }
      var next := PickNext(slots, active);
      if fit {
        active := next;
      }
    }
  }

  /** A stretch of scheduling: slots[k] are the statuses at the k-th turn, and ticks[k] says whether the
      timer makes it or the running process gives up the processor.  The picks are a schedule, so
      whoever stays runnable for n turns gets one of them. */
  method Schedule(r: RoundRobin, n: nat, history: seq<seq<Slot>>, ticks: seq<bool>) returns (picks: seq<int>)
    requires r.Valid(n) && r.InStep() && |ticks| == |history| && forall k :: 0 <= k < |history| ==> |history[k]| == n
    modifies r
    ensures r.Valid(n) && r.InStep() && IsSchedule(n, history, old(r.cursor), picks)
    ensures |history| >= n ==> forall j :: 0 <= j < n && Stays(history, n, j) ==> j in picks[..n]
  {
    picks := [];
    ghost var cursor := r.cursor;
    for k := 0 to |history|
      invariant |picks| == k && r.Valid(n) && r.InStep() && r.cursor == Cursor(cursor, picks, k)
      invariant IsSchedule(n, history[..k], cursor, picks)
    {
      var next := Turn(r, history[k], ticks[k]);
      ScheduleOn(n, history, cursor, picks, k, next);
      picks := picks + [next];
    }
    assert history[..|history|] == history;
    forall j | |history| >= n && 0 <= j < n && Stays(history, n, j) ensures j in picks[..n] {
      var i := BoundedWaiting(n, history, cursor, picks, j);
      assert picks[..n][i] == j;
    }
  }

  /** Slot j can run at the first n turns. */
  ghost predicate Stays(history: seq<seq<Slot>>, n: nat, j: int)
    requires n <= |history|
  {
    forall i :: 0 <= i < n ==> CanRun(history[i], j)
  }

  /** One turn. */
  method Turn(r: RoundRobin, slots: seq<Slot>, tick: bool) returns (next: int)
    requires r.Valid(|slots|) && r.InStep()
    modifies r
    ensures r.Valid(|slots|) && r.InStep() && Picks(slots, old(r.cursor), next)
    ensures r.cursor == if next == -1 then old(r.cursor) else next
  {
    if tick && r.active >= 0 && slots[r.active].status.Runnable? {
      r.TimerTick(slots, true, false, true);
      next := r.cursor;
    } else {
      next := r.Dispatch(slots, true);
    }
  }

  lemma {:induction false} ScheduleOn(n: nat, history: seq<seq<Slot>>, cursor: int, picks: seq<int>, k: nat, next: int)
    requires k < |history| && |picks| == k && IsSchedule(n, history[..k], cursor, picks)
    requires |history[k]| == n && Picks(history[k], Cursor(cursor, picks, k), next)
    ensures IsSchedule(n, history[..k + 1], cursor, picks + [next])
    ensures Cursor(cursor, picks + [next], k + 1) == if next == -1 then Cursor(cursor, picks, k) else next
  {
    var history', picks' := history[..k + 1], picks + [next];
    CursorSame(cursor, picks, picks', k);
    forall i | 0 <= i < |picks'| ensures IsPick(n, history', cursor, picks', i) {
      CursorSame(cursor, picks, picks', if i < k then i else k);
      assert i < k ==> IsPick(n, history[..k], cursor, picks, i);
    }
  }

  lemma {:induction false} CursorSame(cursor: int, picks: seq<int>, picks': seq<int>, k: nat)
    requires picks <= picks' && k <= |picks|
    ensures Cursor(cursor, picks', k) == Cursor(cursor, picks, k)
  {
    if k > 0 {
      CursorSame(cursor, picks, picks', k - 1);
    }
  }
}
