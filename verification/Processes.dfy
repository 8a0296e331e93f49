/** The slot table as the kernel keeps it (src/task.c): fields updated in place by loops over the
    slots.  Every operation is one event of ProcessTable. */
module Processes {
  import opened ProcessTable

  /** The search loops below stop at this index. */
  lemma {:induction false} FirstIs(slots: seq<Slot>, p: Slot -> bool, i: nat)
    requires i <= |slots| && (i < |slots| ==> p(slots[i])) && forall k :: 0 <= k < i ==> !p(slots[k])
    ensures First(slots, p) == i
  {
  }

  /** A finished process, if still there, whose parent is not a process of the table. */
  predicate IsRoot(slots: seq<Slot>, pid: nat) {
    var i := First(slots, s => HasPid(s, pid));
    i < |slots| ==> slots[i].status.Zombie? && !HasSlot(slots, slots[i].parentPid)
  }

  /** An exit leaves no process running. */
  lemma {:induction false} ExitKeeps(t: Table, code: int)
    requires Sound(t)
    ensures Sound(Next(t, Terminate(code)).(active := -1))
  {
    NextKeeps(t, Terminate(code));
  }

  class Kernel {
    var slots: seq<Slot>
    var active: int
    var nextPid: nat
    ghost var exits: map<nat, Exit>
    ghost var reports: seq<Report>

    ghost function View(): Table
      reads this
    {
      Table(slots, active, nextPid, exits, reports)
    }

    ghost predicate Valid()
      reads this
    {
      Sound(View())
    }

    /** task_init */
    constructor (n: nat)
      ensures Valid() && View() == Start(n)
    {
      slots := seq(n, _ => EMPTY);
      active := -1;
      nextPid := 2;
      exits := map[];
      reports := [];
      new;
      RunSound(n, []);
    }

    /** The search of task_alloc_slot. */
    method FreeIndex() returns (i: nat)
      ensures i == First(slots, IsFree)
    {
      i := 0;
      while i < |slots|
        invariant i <= |slots| && forall k :: 0 <= k < i ==> !IsFree(slots[k])
      {
        if slots[i].status.Free? {
          break;
        }
        i := i + 1;
      }
      FirstIs(slots, IsFree, i);
    }

    /** task_slot_for_pid */
    method SlotForPid(pid: nat) returns (i: nat)
      ensures i == First(slots, s => HasPid(s, pid))
    {
      i := 0;
      while i < |slots|
        invariant i <= |slots| && forall k :: 0 <= k < i ==> !HasPid(slots[k], pid)
      {
        if !slots[i].status.Free? && slots[i].pid == pid {
          break;
        }
        i := i + 1;
      }
      FirstIs(slots, s => HasPid(s, pid), i);
    }

    /** task_has_matching_child */
    method HasMatchingChild(parent: nat, requested: int) returns (found: bool)
      ensures found <==> First(slots, s => IsChild(s, parent, requested)) < |slots|
    {
      var i := 0;
      while i < |slots|
        invariant i <= |slots| && forall k :: 0 <= k < i ==> !IsChild(slots[k], parent, requested)
      {
        if !slots[i].status.Free? && slots[i].parentPid == parent {
          if Matches(requested, slots[i].pid) {
            FirstIs(slots, s => IsChild(s, parent, requested), i);
            return true;
          }
        }
        i := i + 1;
      }
      FirstIs(slots, s => IsChild(s, parent, requested), i);
      return false;
    }

    /** The new slot of fork and spawn. */
    method Occupy(i: nat, parent: nat) returns (pid: nat)
      requires i == First(slots, IsFree) < |slots|
      modifies this
      ensures View() == Added(old(View()), parent) && pid == old(nextPid)
    {
      pid := nextPid;
      nextPid := nextPid + 1;
      slots := slots[i := NewSlot(pid, parent)];
    }

    /** task_fork_from_user; `copied` is whether the address space could be copied. */
    method ForkCurrent(copied: bool) returns (result: int)
      requires Valid() && HasActive(View())
      modifies this
      ensures Valid() && View() == Next(old(View()), Fork(copied))
      ensures if copied && First(old(slots), IsFree) < |slots| then result == old(nextPid) else result == ERR_NOMEM
    {
      NextKeeps(View(), Fork(copied));
      var i := FreeIndex();
      if i == |slots| || !copied {
        return ERR_NOMEM;
      }
      result := Occupy(i, slots[active].pid);
    }

    /** task_spawn_kernel; the image may fail to load, before or after a pid was taken. */
    method SpawnChild(parent: nat, loaded: bool, pidTaken: bool) returns (result: int)
      requires Valid() && parent < nextPid
      modifies this
      ensures Valid() && View() == Next(old(View()), Spawn(parent, loaded, pidTaken))
      ensures if loaded && First(old(slots), IsFree) < |slots| then result == old(nextPid) else result < 0
    {
      NextKeeps(View(), Spawn(parent, loaded, pidTaken));
      var i := FreeIndex();
      if i == |slots| {
        return ERR_NOMEM;
      }
      if !loaded {
        if pidTaken {
          nextPid := nextPid + 1;
        }
        return ERR_NOMEM;
      }
      result := Occupy(i, parent);
    }

    /** task_wake_waiting_parents for the zombie in slot c. */
    method WakeWaitingParents(c: nat)
      requires c < |slots| && slots[c].status.Zombie?
      modifies this
      ensures active == old(active) && nextPid == old(nextPid) && exits == old(exits)
      ensures var child := old(slots[c]);
        var w := Waiter(old(slots), child);
        if w == |old(slots)| then slots == old(slots) && reports == old(reports)
        else slots == old(slots)[w := Woken(old(slots)[w], child.pid)][c := EMPTY] &&
             reports == old(reports) + [Report(old(slots)[w].pid, child.pid, StatusWord(child.exitCode))]
    {
      var child := slots[c];
      var i := 0;
      while i < |slots|
        invariant i <= |slots| && slots == old(slots) && reports == old(reports) && exits == old(exits)
        invariant active == old(active) && nextPid == old(nextPid)
        invariant forall k :: 0 <= k < i ==> !WaitsFor(slots[k], child)
      {
        if slots[i].status.Waiting? && slots[i].pid == child.parentPid && Matches(slots[i].waitPid, child.pid) {
          assert WaitsFor(slots[i], child) && Waiter(slots, child) == i;
          reports := reports + [Report(slots[i].pid, child.pid, StatusWord(child.exitCode))];
          slots := slots[i := Woken(slots[i], child.pid)];
          slots := slots[c := EMPTY];
          return;
        }
        i := i + 1;
      }
      assert Waiter(slots, child) == i;
    }

    /** task_exit_current */
    method ExitCurrent(code: int)
      requires Valid()
      modifies this
      ensures Valid() && active == -1
      ensures View() == Next(old(View()), Terminate(code)).(active := -1)
    {
      ExitKeeps(View(), code);
      EndActive(code);
    }

    method EndActive(code: int)
      modifies this
      ensures View() == Next(old(View()), Terminate(code)).(active := -1)
    {
      if 0 <= active < |slots| && !slots[active].status.Free? {
        var c := active;
        exits := exits[slots[c].pid := Exit(slots[c].parentPid, code)];
        slots := slots[c := Zombified(slots[c], code)];
        WakeWaitingParents(c);
      }
      active := -1;
    }

    /** task_reap_matching_child for the active process; 0 when there is nothing to reap. */
    method ReapMatchingChild(requested: int, wantStatus: bool, writable: bool) returns (result: int)
      requires HasActive(View())
      modifies this
      ensures var me := old(slots[active].pid);
        var z := First(old(slots), s => IsZombieChild(s, me, requested));
        if z == |old(slots)| then result == 0 && View() == old(View())
        else if wantStatus && !writable then result == ERR_FAULT && View() == old(View())
        else result == old(slots)[z].pid && View() == Reaped(old(View()), z)
    {
      var me := slots[active].pid;
      var i := 0;
      while i < |slots|
        invariant i <= |slots| && View() == old(View())
        invariant forall k :: 0 <= k < i ==> !IsZombieChild(slots[k], me, requested)
      {
        if !slots[i].status.Free? && slots[i].parentPid == me && slots[i].status.Zombie? {
          if Matches(requested, slots[i].pid) {
            FirstIs(slots, s => IsZombieChild(s, me, requested), i);
            if wantStatus && !writable {
              return ERR_FAULT;
            }
            result := slots[i].pid;
            reports := reports + [Report(me, slots[i].pid, StatusWord(slots[i].exitCode))];
            slots := slots[i := EMPTY];
            return;
          }
        }
        i := i + 1;
      }
      FirstIs(slots, s => IsZombieChild(s, me, requested), i);
      result := 0;
    }

    /** task_waitpid_from_user, after its checks. */
    method WaitActive(pid: int, wantStatus: bool, writable: bool) returns (answer: Answer)
      requires Valid() && HasActive(View())
      modifies this
      ensures (View(), answer) == Waited(old(View()), pid, 0, wantStatus, writable)
    {
      var me := slots[active].pid;
      var result := ReapMatchingChild(pid, wantStatus, writable);
      if result != 0 {
        return Returns(result);
      }
      var found := HasMatchingChild(me, pid);
      if !found {
        return Returns(ERR_CHILD);
      }
      slots := slots[active := slots[active].(status := Waiting, waitPid := pid, eax := 0)];
      active := -1;
      answer := Blocks;
    }

    /** task_waitpid_from_user */
    method WaitChild(pid: int, wantStatus: bool, options: int, writable: bool) returns (answer: Answer)
      requires Valid()
      modifies this
      ensures Valid() && (View(), answer) == Waited(old(View()), pid, options, wantStatus, writable)
    {
      NextKeeps(View(), WaitPid(pid, options, wantStatus, writable));
      if !(0 <= active < |slots| && !slots[active].status.Free?) || options != 0 {
        return Returns(ERR_INVAL);
      }
      answer := WaitActive(pid, wantStatus, writable);
    }

    /** task_sleep_current */
    method SleepCurrent(wakeTick: int, value: int)
      requires Valid()
      modifies this
      ensures Valid() && View() == Next(old(View()), Sleep(wakeTick, value))
    {
      NextKeeps(View(), Sleep(wakeTick, value));
      if 0 <= active < |slots| && !slots[active].status.Free? {
        slots := slots[active := slots[active].(status := Sleeping, wakeTick := wakeTick, eax := value)];
        active := -1;
      }
    }

    /** task_wake_slot */
    method WakeSlot(i: int, value: int)
      requires Valid()
      modifies this
      ensures Valid() && View() == Next(old(View()), Wake(i, value))
    {
      NextKeeps(View(), Wake(i, value));
      if 0 <= i < |slots| && !slots[i].status.Free? {
        slots := slots[i := WokenBy(slots[i], value)];
      }
    }

    /** The loop of task_wake_ready_slots. */
    method WakeDue(now: int)
      modifies this`slots
      ensures slots == AllDue(old(slots), now)
    {
      var i := 0;
      while i < |slots|
        invariant i <= |slots| == |old(slots)|
        invariant forall k :: 0 <= k < |slots| ==> slots[k] == if k < i then Due(old(slots)[k], now) else old(slots)[k]
      {
        if IsDue(slots[i], now) {
          slots := slots[i := slots[i].(status := Runnable, wakeTick := 0)];
        }
        i := i + 1;
      }
    }

    /** task_wake_ready_slots */
    method WakeReadySlots(now: int)
      requires Valid()
      modifies this
      ensures Valid() && View() == Next(old(View()), WakeReady(now))
    {
      NextKeeps(View(), WakeReady(now));
      WakeDue(now);
    }

    /** task_has_live_slots */
    method HasLiveSlots() returns (live: bool)
      ensures live <==> exists i :: 0 <= i < |slots| && IsLive(slots[i])
    {
      var i := 0;
      while i < |slots|
        invariant i <= |slots| && forall k :: 0 <= k < i ==> !IsLive(slots[k])
      {
        if !slots[i].status.Free? && !slots[i].status.Zombie? {
          assert IsLive(slots[i]);
          return true;
        }
        i := i + 1;
      }
      live := false;
    }

    /** What task_run_scheduler_session does when nothing is live any more: all slots are freed, and the
        exit code of the root process is its result, if its zombie was still there. */
    method EndSession(root: nat) returns (code: int)
      requires Valid() && forall i :: 0 <= i < |slots| ==> !IsLive(slots[i])
      modifies this
      ensures Valid() && View() == Next(old(View()), ProcessTable.EndSession)
      ensures if HasSlot(old(slots), root) then root in exits && code == exits[root].code else code == -1
    {
      NextKeeps(View(), ProcessTable.EndSession);
      var r := SlotForPid(root);
      code := if r < |slots| then slots[r].exitCode else -1;
      code := FreeSlots(root, code);
      active := -1;
      if r < |old(slots)| {
        assert HasPid(old(slots)[r], root) && !IsLive(old(slots)[r]);
      }
    }

    /** The loop that frees them. */
    method FreeSlots(root: nat, start: int) returns (code: int)
      requires forall i :: 0 <= i < |slots| && HasPid(slots[i], root) ==> start == slots[i].exitCode
      modifies this`slots
      ensures slots == Emptied(old(slots)) && code == start
    {
      code := start;
      var i := 0;
      while i < |slots|
        invariant i <= |slots| == |old(slots)| && code == start
        invariant slots[..i] == Emptied(old(slots))[..i] && slots[i..] == old(slots)[i..]
      {
        assert slots[i] == slots[i..][0] == old(slots)[i];
        if !slots[i].status.Free? {
          if slots[i].pid == root {
            assert HasPid(old(slots)[i], root);
            code := slots[i].exitCode;
          }
          slots := slots[i := EMPTY];
        }
        i := i + 1;
      }
    }

    /** The end of task_run_argv_alongside: the kernel frees the process it started. */
    method CollectRoot(root: nat) returns (code: int)
      requires Valid()
      requires IsRoot(slots, root)
      modifies this
      ensures Valid() && View() == Next(old(View()), Collect(root))
      ensures HasSlot(old(slots), root) ==> root in exits && code == exits[root].code && !Reported(reports, root)
    {
      NextKeeps(View(), Collect(root));
      var i := SlotForPid(root);
      code := -1;
      if i < |slots| {
        code := slots[i].exitCode;
        slots := slots[i := EMPTY];
      }
    }
  }
}
