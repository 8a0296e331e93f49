/** The process slots (src/task.c) as a state machine: fork, spawn, exit, waitpid, sleep and wake.
    Each event is atomic: system calls run to completion before another task is switched to. */
module ProcessTable {
  datatype Status = Free | Runnable | Sleeping | Waiting | Zombie

  /** task_slot_t.  A slot is `used` in the source exactly when its status here is not Free. */
  datatype Slot = Slot(status: Status, pid: nat, parentPid: nat, exitCode: int, waitPid: int, wakeTick: int, eax: int)

  const EMPTY := Slot(Free, 0, 0, 0, 0, 0, 0)
  const SLEEP_FOREVER := 0xFFFF_FFFF
  const ERR_NOMEM := -12
  const ERR_CHILD := -10
  const ERR_FAULT := -14
  const ERR_INVAL := -22

  /** How a process ended, and which report of it a parent got. */
  datatype Exit = Exit(parent: nat, code: int)
  datatype Report = Report(parent: nat, child: nat, status: int)

  /** The table, with the history of exits and of the reports handed to parents. */
  datatype Table = Table(slots: seq<Slot>, active: int, nextPid: nat, exits: map<nat, Exit>, reports: seq<Report>)

  datatype Event =
    | Switch(to: int)
    | Fork(ok: bool)
    | Spawn(parent: nat, ok: bool, pidTaken: bool)
    | KernelPid
    | Terminate(code: int)
    | WaitPid(pid: int, options: int, wantStatus: bool, writable: bool)
    | Sleep(wakeTick: int, value: int)
    | Yield(value: int)
    | Wake(slot: int, value: int)
    | WakeReady(now: int)
    | Collect(root: nat)
    | EndSession

  // ----- the steps -----

  /** The least index whose slot satisfies p, or |slots|. */
  function First(slots: seq<Slot>, p: Slot -> bool): (i: nat)
    ensures i <= |slots| && (i < |slots| ==> p(slots[i]))
    ensures forall k :: 0 <= k < i ==> !p(slots[k])
  {
    if slots == [] || p(slots[0]) then 0
    else
      var i := 1 + First(slots[1..], p);
      assert forall k :: 1 <= k < i ==> slots[k] == slots[1..][k - 1];
      i
  }

  /** (exit_code & 0xff) << 8 */
  function StatusWord(code: int): int { code % 256 * 256 }

  /** task_wait_matches */
  predicate Matches(requested: int, pid: nat) { requested != 0 && (requested < 0 || pid == requested) }

  predicate IsFree(s: Slot) { s.status.Free? }
  predicate IsLive(s: Slot) { !s.status.Free? && !s.status.Zombie? }
  predicate HasPid(s: Slot, pid: nat) { !s.status.Free? && s.pid == pid }
  predicate HasSlot(slots: seq<Slot>, pid: nat) {
    exists i :: 0 <= i < |slots| && HasPid(slots[i], pid)
  }
  predicate IsChild(s: Slot, parent: nat, requested: int) {
    !s.status.Free? && s.parentPid == parent && Matches(requested, s.pid)
  }
  predicate IsZombieChild(s: Slot, parent: nat, requested: int) {
    s.status.Zombie? && IsChild(s, parent, requested)
  }
  predicate WaitsFor(s: Slot, child: Slot) {
    s.status.Waiting? && s.pid == child.parentPid && Matches(s.waitPid, child.pid)
  }
  /** The comparison (i32)(now - wake_tick) >= 0. */
  predicate IsDue(s: Slot, now: int) {
    s.status.Sleeping? && s.wakeTick != SLEEP_FOREVER && (now - s.wakeTick) % 0x1_0000_0000 < 0x8000_0000
  }

  predicate HasActive(t: Table) { 0 <= t.active < |t.slots| && !t.slots[t.active].status.Free? }

  function NewSlot(pid: nat, parent: nat): Slot { Slot(Runnable, pid, parent, 0, 0, 0, 0) }

  function Added(t: Table, parent: nat): Table
  {
    var i := First(t.slots, IsFree);
    if i == |t.slots| then t
    else t.(slots := t.slots[i := NewSlot(t.nextPid, parent)], nextPid := t.nextPid + 1)
  }

  /** The first slot that waits for c, or |slots|. */
  function Waiter(slots: seq<Slot>, c: Slot): (i: nat)
    ensures i <= |slots| && (i < |slots| ==> WaitsFor(slots[i], c)) && forall k :: 0 <= k < i ==> !WaitsFor(slots[k], c)
  {
    First(slots, s => WaitsFor(s, c))
  }

  function Zombified(s: Slot, code: int): Slot { s.(status := Zombie, exitCode := code) }
  function Woken(s: Slot, child: nat): Slot { s.(status := Runnable, waitPid := 0, eax := child) }

  /** task_exit_current: the slot becomes a zombie, or is handed over at once to a waiting parent. */
  function Terminated(t: Table, code: int): Table
    requires HasActive(t)
  {
    var c := Zombified(t.slots[t.active], code);
    var slots := t.slots[t.active := c];
    var w := Waiter(slots, c);
    var exits := t.exits[c.pid := Exit(c.parentPid, code)];
    if w == |slots| then Table(slots, -1, t.nextPid, exits, t.reports)
    else Table(slots[w := Woken(slots[w], c.pid)][t.active := EMPTY], -1, t.nextPid, exits,
               t.reports + [Report(slots[w].pid, c.pid, StatusWord(code))])
  }

  /** task_reap_matching_child of the zombie slot z. */
  function Reaped(t: Table, z: nat): Table
    requires HasActive(t) && z < |t.slots|
  {
    t.(slots := t.slots[z := EMPTY],
       reports := t.reports + [Report(t.slots[t.active].pid, t.slots[z].pid, StatusWord(t.slots[z].exitCode))])
  }

  function Blocked(t: Table, pid: int): Table
    requires HasActive(t)
  {
    t.(slots := t.slots[t.active := t.slots[t.active].(status := Waiting, waitPid := pid, eax := 0)], active := -1)
  }

  /** What task_waitpid_from_user returns, when it returns. */
  datatype Answer = Returns(value: int) | Blocks

  function Waited(t: Table, pid: int, options: int, wantStatus: bool, writable: bool): (Table, Answer) {
    if !HasActive(t) || options != 0 then (t, Returns(ERR_INVAL))
    else
      var me := t.slots[t.active].pid;
      var z := First(t.slots, s => IsZombieChild(s, me, pid));
      if z < |t.slots| then
        if wantStatus && !writable then (t, Returns(ERR_FAULT))
        else (Reaped(t, z), Returns(t.slots[z].pid))
      else if First(t.slots, s => IsChild(s, me, pid)) == |t.slots| then (t, Returns(ERR_CHILD))
      else (Blocked(t, pid), Blocks)
  }

  function Slept(t: Table, wakeTick: int, value: int): Table {
    if !HasActive(t) then t
    else
      var asleep := t.slots[t.active].(status := Sleeping, wakeTick := wakeTick, eax := value);
      t.(slots := t.slots[t.active := asleep], active := -1)
  }

  function Yielded(t: Table, value: int): Table {
    if !HasActive(t) then t
    else t.(slots := t.slots[t.active := t.slots[t.active].(status := Runnable, eax := value)], active := -1)
  }

  function WokenBy(s: Slot, value: int): Slot {
    s.(eax := value, wakeTick := 0, status := if s.status.Zombie? then Zombie else Runnable)
  }

  /** task_wake_slot */
  function WokenSlot(t: Table, i: int, value: int): Table {
    if 0 <= i < |t.slots| && !t.slots[i].status.Free? then t.(slots := t.slots[i := WokenBy(t.slots[i], value)]) else t
  }

  function Due(s: Slot, now: int): Slot { if IsDue(s, now) then s.(status := Runnable, wakeTick := 0) else s }

  /** task_wake_ready_slots */
  function AllDue(slots: seq<Slot>, now: int): (r: seq<Slot>)
    ensures |r| == |slots| && forall i :: 0 <= i < |r| ==> r[i] == Due(slots[i], now)
  {
    seq(|slots|, i requires 0 <= i < |slots| => Due(slots[i], now))
  }

  /** The kernel frees a finished process that it started itself (task_run_argv_alongside). */
  function Collected(t: Table, pid: nat): Table {
    var i := First(t.slots, s => HasPid(s, pid));
    if i < |t.slots| && t.slots[i].status.Zombie? && !HasSlot(t.slots, t.slots[i].parentPid)
    then t.(slots := t.slots[i := EMPTY]) else t
  }

  /** The end of task_run_scheduler_session: when nothing is live any more, every slot is freed. */
  function Cleared(t: Table): Table {
    if exists i :: 0 <= i < |t.slots| && IsLive(t.slots[i]) then t
    else t.(slots := Emptied(t.slots), active := -1)
  }

  function Emptied(slots: seq<Slot>): (r: seq<Slot>)
    ensures |r| == |slots|
    ensures forall i :: 0 <= i < |r| ==>
      r[i] == (if slots[i].status.Free? then slots[i] else EMPTY) && r[i].status.Free?
  {
    seq(|slots|, i requires 0 <= i < |slots| => if slots[i].status.Free? then slots[i] else EMPTY)
  }

  function Next(t: Table, e: Event): Table {
    match e
    case Switch(to) => if 0 <= to < |t.slots| && t.slots[to].status.Runnable? then t.(active := to) else t
    case Fork(ok) => if HasActive(t) && ok then Added(t, t.slots[t.active].pid) else t
    case Spawn(parent, ok, pidTaken) =>
      if First(t.slots, IsFree) == |t.slots| || parent >= t.nextPid then t
      else if ok then Added(t, parent)
      else if pidTaken then t.(nextPid := t.nextPid + 1)
      else t
    case KernelPid => t.(nextPid := t.nextPid + 1, active := -1)
    case Terminate(code) => if HasActive(t) then Terminated(t, code) else t
    case WaitPid(pid, options, wantStatus, writable) => Waited(t, pid, options, wantStatus, writable).0
    case Sleep(wakeTick, value) => Slept(t, wakeTick, value)
    case Yield(value) => Yielded(t, value)
    case Wake(i, value) => WokenSlot(t, i, value)
    case WakeReady(now) => t.(slots := AllDue(t.slots, now))
    case Collect(root) => Collected(t, root)
    case EndSession => Cleared(t)
  }

  function Run(t: Table, es: seq<Event>): Table {
    if es == [] then t else Next(Run(t, es[..|es| - 1]), es[|es| - 1])
  }

  /** task_init with n slots; the kernel itself takes the pid 1. */
  function Start(n: nat): Table { Table(seq(n, _ => EMPTY), -1, 2, map[], []) }

  // ----- what every step keeps -----

  ghost predicate Pids(slots: seq<Slot>, nextPid: nat) {
    && (forall i :: 0 <= i < |slots| && !slots[i].status.Free? ==> slots[i].parentPid < slots[i].pid < nextPid)
    && (forall i, j :: 0 <= i < j < |slots| && !slots[i].status.Free? && !slots[j].status.Free? ==>
          slots[i].pid != slots[j].pid)
  }

  /** Some live child of s may still end its wait. */
  ghost predicate HasLiveChild(slots: seq<Slot>, s: Slot) {
    exists j :: 0 <= j < |slots| && IsLive(slots[j]) && IsChild(slots[j], s.pid, s.waitPid)
  }

  ghost predicate NoZombieChild(slots: seq<Slot>, s: Slot) {
    forall j :: 0 <= j < |slots| ==> !IsZombieChild(slots[j], s.pid, s.waitPid)
  }

  /** Whoever waits has a live child to wait for, and no dead one that was missed. */
  ghost predicate Waits(slots: seq<Slot>) {
    forall i :: 0 <= i < |slots| && slots[i].status.Waiting? ==>
      HasLiveChild(slots, slots[i]) && NoZombieChild(slots, slots[i])
  }

  ghost predicate Reported(reports: seq<Report>, pid: nat) {
    exists k :: 0 <= k < |reports| && reports[k].child == pid
  }

  /** Every report is the report of an exit, and no exit has two. */
  ghost predicate Truthful(exits: map<nat, Exit>, reports: seq<Report>) {
    && (forall k :: 0 <= k < |reports| ==>
          var r := reports[k];
          r.child in exits && r == Report(exits[r.child].parent, r.child, StatusWord(exits[r.child].code)))
    && (forall k, l :: 0 <= k < l < |reports| ==> reports[k].child != reports[l].child)
  }

  ghost predicate HasZombie(slots: seq<Slot>, pid: nat, e: Exit) {
    exists i ::
      && 0 <= i < |slots| && slots[i].status.Zombie?
      && slots[i].pid == pid && slots[i].parentPid == e.parent && slots[i].exitCode == e.code
  }

  /** The zombies are exits that are still to be reported ... */
  ghost predicate Pending(slots: seq<Slot>, exits: map<nat, Exit>, reports: seq<Report>) {
    forall i :: 0 <= i < |slots| && !slots[i].status.Free? ==>
      if slots[i].status.Zombie? then
        && slots[i].pid in exits && exits[slots[i].pid] == Exit(slots[i].parentPid, slots[i].exitCode)
        && !Reported(reports, slots[i].pid)
      else slots[i].pid !in exits
  }

  /** ... and all of them, as long as the parent has a slot. */
  ghost predicate Queued(slots: seq<Slot>, exits: map<nat, Exit>, reports: seq<Report>) {
    forall p :: p in exits && HasSlot(slots, exits[p].parent) && !Reported(reports, p) ==> HasZombie(slots, p, exits[p])
  }

  ghost predicate Known(exits: map<nat, Exit>, nextPid: nat) {
    forall p :: p in exits ==> exits[p].parent < p < nextPid
  }

  ghost predicate ActiveRuns(slots: seq<Slot>, active: int) {
    active == -1 || (0 <= active < |slots| && slots[active].status.Runnable?)
  }

  ghost predicate Sound(t: Table) {
    && 0 < t.nextPid && Pids(t.slots, t.nextPid) && ActiveRuns(t.slots, t.active) && Waits(t.slots)
    && Truthful(t.exits, t.reports) && Pending(t.slots, t.exits, t.reports)
    && Queued(t.slots, t.exits, t.reports) && Known(t.exits, t.nextPid)
  }

  /** The same processes, none of them newly waiting. */
  predicate Alike(s: Slot, s': Slot) {
    && s'.pid == s.pid && s'.parentPid == s.parentPid && s'.exitCode == s.exitCode
    && s'.status.Free? == s.status.Free? && s'.status.Zombie? == s.status.Zombie?
    && (s'.status.Waiting? ==> s.status.Waiting? && s'.waitPid == s.waitPid)
  }

  lemma {:induction false} AlikeKeeps(t: Table, t': Table)
    requires Sound(t) && |t'.slots| == |t.slots| && forall i :: 0 <= i < |t.slots| ==> Alike(t.slots[i], t'.slots[i])
    requires ActiveRuns(t'.slots, t'.active) && t.nextPid <= t'.nextPid && t'.exits == t.exits
    requires t'.reports == t.reports
    ensures Sound(t')
  {
    forall i | 0 <= i < |t'.slots| && t'.slots[i].status.Waiting?
      ensures HasLiveChild(t'.slots, t'.slots[i]) && NoZombieChild(t'.slots, t'.slots[i])
    {
      assert HasLiveChild(t.slots, t.slots[i]) && NoZombieChild(t.slots, t.slots[i]);
      var j :| 0 <= j < |t.slots| && IsLive(t.slots[j]) && IsChild(t.slots[j], t.slots[i].pid, t.slots[i].waitPid);
      assert IsLive(t'.slots[j]) && IsChild(t'.slots[j], t'.slots[i].pid, t'.slots[i].waitPid);
      forall k | 0 <= k < |t'.slots|
        ensures !IsZombieChild(t'.slots[k], t'.slots[i].pid, t'.slots[i].waitPid)
      {
        assert Alike(t.slots[k], t'.slots[k]);
        assert !IsZombieChild(t.slots[k], t.slots[i].pid, t.slots[i].waitPid);
      }
    }
    forall p | p in t'.exits && HasSlot(t'.slots, t'.exits[p].parent) && !Reported(t'.reports, p)
      ensures HasZombie(t'.slots, p, t'.exits[p])
    {
      var i :| 0 <= i < |t'.slots| && HasPid(t'.slots[i], t'.exits[p].parent);
      assert HasPid(t.slots[i], t.exits[p].parent);
      assert HasZombie(t.slots, p, t.exits[p]);
    }
  }

  /** No one but slot i may be waiting for s. */
  ghost predicate Ignored(slots: seq<Slot>, i: nat, s: Slot) {
    forall k :: 0 <= k < |slots| && k != i && slots[k].status.Waiting? ==> !IsChild(s, slots[k].pid, slots[k].waitPid)
  }

  /** One slot changes: the waits stay in order if no one waits for what ends. */
  lemma {:induction false} WaitsUpdate(slots: seq<Slot>, i: nat, x: Slot)
    requires Waits(slots) && i < |slots|
    requires
      || !IsLive(slots[i]) || Ignored(slots, i, slots[i])
      || (IsLive(x) && x.pid == slots[i].pid && x.parentPid == slots[i].parentPid)
    requires x.status.Zombie? ==> Ignored(slots, i, x)
    requires x.status.Waiting? ==> HasLiveChild(slots[i := x], x) && NoZombieChild(slots[i := x], x)
    ensures Waits(slots[i := x])
  {
    var slots' := slots[i := x];
    forall k | 0 <= k < |slots'| && slots'[k].status.Waiting?
      ensures HasLiveChild(slots', slots'[k]) && NoZombieChild(slots', slots'[k])
    {
      if k != i {
        var s := slots[k];
        assert HasLiveChild(slots, s) && NoZombieChild(slots, s);
        var j :| 0 <= j < |slots| && IsLive(slots[j]) && IsChild(slots[j], s.pid, s.waitPid);
        assert IsLive(slots'[j]) && IsChild(slots'[j], s.pid, s.waitPid);
      }
    }
  }

  /** One slot changes without giving up a zombie: the queue of exits stays in order. */
  lemma {:induction false} QueuedUpdate(slots: seq<Slot>, i: nat, x: Slot, exits: map<nat, Exit>, reports: seq<Report>)
    requires Queued(slots, exits, reports) && i < |slots| && !slots[i].status.Zombie?
    requires x.status.Free? || HasPid(slots[i], x.pid) || forall p :: p in exits ==> exits[p].parent != x.pid
    ensures Queued(slots[i := x], exits, reports)
  {
    var slots' := slots[i := x];
    forall p | p in exits && HasSlot(slots', exits[p].parent) && !Reported(reports, p)
      ensures HasZombie(slots', p, exits[p])
    {
      var k :| 0 <= k < |slots'| && HasPid(slots'[k], exits[p].parent);
      assert HasPid(slots[k], exits[p].parent);
      assert HasZombie(slots, p, exits[p]);
      var j :| 0 <= j < |slots| && slots[j].status.Zombie? && slots[j].pid == p &&
               slots[j].parentPid == exits[p].parent && slots[j].exitCode == exits[p].code;
      assert slots'[j] == slots[j];
    }
  }

  lemma {:induction false} AddedKeeps(t: Table, parent: nat)
    requires Sound(t) && parent < t.nextPid
    ensures Sound(Added(t, parent))
  {
    var i := First(t.slots, IsFree);
    if i < |t.slots| {
      WaitsUpdate(t.slots, i, NewSlot(t.nextPid, parent));
      QueuedUpdate(t.slots, i, NewSlot(t.nextPid, parent), t.exits, t.reports);
    }
  }

  /** An exit that no one waits for leaves a zombie. */
  lemma {:induction false} ZombieKeeps(t: Table, code: int, c: Slot, t': Table)
    requires Sound(t) && HasActive(t) && c == Zombified(t.slots[t.active], code)
    requires forall i :: 0 <= i < |t.slots| ==> !WaitsFor(t.slots[i], c)
    requires t' == Table(t.slots[t.active := c], -1, t.nextPid, t.exits[c.pid := Exit(c.parentPid, code)], t.reports)
    ensures Sound(t')
  {
    assert Ignored(t.slots, t.active, c) by {
      forall k | 0 <= k < |t.slots| && k != t.active && t.slots[k].status.Waiting?
        ensures !IsChild(c, t.slots[k].pid, t.slots[k].waitPid)
      {
        assert !WaitsFor(t.slots[k], c);
      }
    }
    WaitsUpdate(t.slots, t.active, c);
    assert !Reported(t.reports, c.pid);
    QueuedUpdate(t.slots, t.active, c, t.exits, t.reports);
    NewExit(t'.slots, t.active, t.exits, t.reports, Exit(c.parentPid, code));
  }

  lemma {:induction false} NewExit(slots: seq<Slot>, i: nat, exits: map<nat, Exit>, reports: seq<Report>, e: Exit)
    requires Queued(slots, exits, reports) && i < |slots| && slots[i].status.Zombie?
    requires e == Exit(slots[i].parentPid, slots[i].exitCode)
    ensures Queued(slots, exits[slots[i].pid := e], reports)
  {
    assert HasZombie(slots, slots[i].pid, e);
  }

  /** A report is added, or none. */
  ghost predicate Handed(t: Table, z: nat, reports: seq<Report>)
    requires z < |t.slots|
  {
    var s := t.slots[z];
    || reports == t.reports + [Report(s.parentPid, s.pid, StatusWord(s.exitCode))]
    || (reports == t.reports && !HasSlot(t.slots, s.parentPid))
  }

  lemma {:induction false} HandedKnown(t: Table, z: nat, reports: seq<Report>, p: nat)
    requires z < |t.slots| && Handed(t, z, reports)
    ensures Reported(t.reports, p) ==> Reported(reports, p)
    ensures Reported(reports, p) ==> Reported(t.reports, p) || p == t.slots[z].pid
    ensures Reported(reports, t.slots[z].pid) || !HasSlot(t.slots, t.slots[z].parentPid)
  {
    assert t.reports <= reports;
    if reports != t.reports {
      assert reports[|t.reports|].child == t.slots[z].pid;
    }
    if Reported(t.reports, p) {
      var k :| 0 <= k < |t.reports| && t.reports[k].child == p;
      assert reports[k].child == p;
    }
  }

  /** A zombie goes when it is reported, or when no process is there to ask for it. */
  lemma {:induction false} GoneKeeps(t: Table, z: nat, t': Table)
    requires Sound(t) && z < |t.slots| && t.slots[z].status.Zombie? && Handed(t, z, t'.reports)
    requires t' == Table(t.slots[z := EMPTY], t.active, t.nextPid, t.exits, t'.reports)
    ensures Sound(t')
  {
    WaitsUpdate(t.slots, z, EMPTY);
    forall i | 0 <= i < |t'.slots| && t'.slots[i].status.Zombie?
      ensures !Reported(t'.reports, t'.slots[i].pid)
    {
      HandedKnown(t, z, t'.reports, t.slots[i].pid);
    }
    GoneQueued(t, z, t');
    assert !Reported(t.reports, t.slots[z].pid);
  }

  lemma {:induction false} GoneQueued(t: Table, z: nat, t': Table)
    requires Sound(t) && z < |t.slots| && t.slots[z].status.Zombie? && Handed(t, z, t'.reports)
    requires t'.slots == t.slots[z := EMPTY] && t'.exits == t.exits
    ensures Queued(t'.slots, t'.exits, t'.reports)
  {
    forall p | p in t.exits && HasSlot(t'.slots, t.exits[p].parent) && !Reported(t'.reports, p)
      ensures HasZombie(t'.slots, p, t.exits[p])
    {
      HandedKnown(t, z, t'.reports, p);
      var k :| 0 <= k < |t'.slots| && HasPid(t'.slots[k], t.exits[p].parent);
      assert HasPid(t.slots[k], t.exits[p].parent);
      assert HasZombie(t.slots, p, t.exits[p]);
      var i :| 0 <= i < |t.slots| && t.slots[i].status.Zombie? && t.slots[i].pid == p &&
               t.slots[i].parentPid == t.exits[p].parent && t.slots[i].exitCode == t.exits[p].code;
      assert t'.slots[i] == t.slots[i];
    }
  }

  lemma {:induction false} TerminatedKeeps(t: Table, code: int)
    requires Sound(t) && HasActive(t)
    ensures Sound(Terminated(t, code))
  {
    var c := Zombified(t.slots[t.active], code);
    var slots := t.slots[t.active := c];
    var w := Waiter(slots, c);
    var exits := t.exits[c.pid := Exit(c.parentPid, code)];
    if w == |slots| {
      assert forall i :: 0 <= i < |slots| ==> !WaitsFor(slots[i], c);
      assert forall i :: 0 <= i < |slots| && i != t.active ==> slots[i] == t.slots[i];
      ZombieKeeps(t, code, c, Terminated(t, code));
    } else {
      var t1 := t.(slots := t.slots[w := Woken(t.slots[w], c.pid)]);
      AlikeKeeps(t, t1);
      var t2 := Table(t1.slots[t.active := c], -1, t.nextPid, exits, t.reports);
      ZombieKeeps(t1, code, c, t2);
      assert t2.slots[t.active := EMPTY] == Terminated(t, code).slots;
      GoneKeeps(t2, t.active, Terminated(t, code));
    }
  }

  lemma {:induction false} BlockedKeeps(t: Table, pid: int)
    requires Sound(t) && HasActive(t)
    requires forall j :: 0 <= j < |t.slots| ==> !IsZombieChild(t.slots[j], t.slots[t.active].pid, pid)
    requires exists j :: 0 <= j < |t.slots| && IsChild(t.slots[j], t.slots[t.active].pid, pid)
    ensures Sound(Blocked(t, pid))
  {
    var slots' := Blocked(t, pid).slots;
    var a := t.active;
    var j :| 0 <= j < |t.slots| && IsChild(t.slots[j], t.slots[a].pid, pid);
    assert IsLive(slots'[j]) && IsChild(slots'[j], slots'[a].pid, pid);
    assert NoZombieChild(slots', slots'[a]);
    WaitsUpdate(t.slots, a, slots'[a]);
    QueuedUpdate(t.slots, a, slots'[a], t.exits, t.reports);
  }

  lemma {:induction false} WaitedKeeps(t: Table, pid: int, options: int, wantStatus: bool, writable: bool)
    requires Sound(t)
    ensures Sound(Waited(t, pid, options, wantStatus, writable).0)
  {
    var t' := Waited(t, pid, options, wantStatus, writable).0;
    if HasActive(t) && options == 0 {
      var me := t.slots[t.active].pid;
      var z := First(t.slots, s => IsZombieChild(s, me, pid));
      var j := First(t.slots, s => IsChild(s, me, pid));
      if z < |t.slots| {
        if !wantStatus || writable {
          GoneKeeps(t, z, t');
        }
      } else if j < |t.slots| {
        BlockedKeeps(t, pid);
      }
    }
  }

  lemma {:induction false} CollectedKeeps(t: Table, pid: nat)
    requires Sound(t)
    ensures Sound(Collected(t, pid))
  {
    var i := First(t.slots, s => HasPid(s, pid));
    if i < |t.slots| && t.slots[i].status.Zombie? && !HasSlot(t.slots, t.slots[i].parentPid) {
      GoneKeeps(t, i, Collected(t, pid));
    }
  }

  predicate IsQuiet(e: Event) {
    e.Switch? || e.KernelPid? || e.Sleep? || e.Yield? || e.Wake? || e.WakeReady?
  }

  lemma {:induction false} QuietAlike(t: Table, e: Event)
    requires Sound(t) && IsQuiet(e)
    ensures var t' := Next(t, e);
      && |t'.slots| == |t.slots| && (forall i :: 0 <= i < |t.slots| ==> Alike(t.slots[i], t'.slots[i]))
      && ActiveRuns(t'.slots, t'.active) && t.nextPid <= t'.nextPid && t'.exits == t.exits && t'.reports == t.reports
  {
  }

  lemma {:induction false} QuietKeeps(t: Table, e: Event)
    requires Sound(t) && IsQuiet(e)
    ensures Sound(Next(t, e))
  {
    var t' := Next(t, e);
    QuietAlike(t, e);
    AlikeKeeps(t, t');
  }

  lemma {:induction false} BirthKeeps(t: Table, e: Event)
    requires Sound(t) && (e.Fork? || e.Spawn?)
    ensures Sound(Next(t, e))
  {
    AlikeKeeps(t, t.(nextPid := t.nextPid + 1));
    if e.Fork? {
      if HasActive(t) {
        AddedKeeps(t, t.slots[t.active].pid);
      }
    } else if e.parent < t.nextPid {
      AddedKeeps(t, e.parent);
    }
  }

  /** Every step keeps the table valid. */
  lemma {:induction false} NextKeeps(t: Table, e: Event)
    requires Sound(t)
    ensures Sound(Next(t, e))
  {
    if IsQuiet(e) {
      QuietKeeps(t, e);
    } else if e.Fork? || e.Spawn? {
      BirthKeeps(t, e);
    } else if e.Terminate? {
      if HasActive(t) {
        TerminatedKeeps(t, e.code);
      }
    } else if e.WaitPid? {
      WaitedKeeps(t, e.pid, e.options, e.wantStatus, e.writable);
    } else if e.Collect? {
      CollectedKeeps(t, e.root);
    }
  }

  /** ... and so does every run from the start, with any number of slots. */
  lemma {:induction false} RunSound(n: nat, es: seq<Event>)
    ensures Sound(Run(Start(n), es))
  {
    if es != [] {
      RunSound(n, es[..|es| - 1]);
      NextKeeps(Run(Start(n), es[..|es| - 1]), es[|es| - 1]);
    }
  }

  // ----- no wait deadlock -----

  /** A live slot of the largest pid among the live ones. */
  lemma {:induction false} Youngest(slots: seq<Slot>, i: nat) returns (m: nat)
    requires i < |slots| && IsLive(slots[i])
    ensures m < |slots| && IsLive(slots[m])
    ensures forall k :: 0 <= k < |slots| && IsLive(slots[k]) ==> slots[k].pid <= slots[m].pid
  {
    m := i;
    var n := 0;
    while n < |slots|
      invariant m < |slots| && IsLive(slots[m]) && n <= |slots|
      invariant forall k :: 0 <= k < n && IsLive(slots[k]) ==> slots[k].pid <= slots[m].pid
    {
      if IsLive(slots[n]) && slots[n].pid > slots[m].pid {
        m := n;
      }
      n := n + 1;
    }
  }

  /** In every reachable state the youngest live process is not waiting, so as long as any process
      is live, one can run or will be woken by something other than a child's exit. */
  lemma {:induction false} NoWaitDeadlock(n: nat, es: seq<Event>, i: nat) returns (m: nat)
    requires var slots := Run(Start(n), es).slots; i < |slots| && IsLive(slots[i])
    ensures var slots := Run(Start(n), es).slots;
      && m < |slots| && (slots[m].status.Runnable? || slots[m].status.Sleeping?)
      && forall k :: 0 <= k < |slots| && IsLive(slots[k]) ==> slots[k].pid <= slots[m].pid
  {
    var slots := Run(Start(n), es).slots;
    RunSound(n, es);
    m := Youngest(slots, i);
    assert slots[m].status.Waiting? ==> HasLiveChild(slots, slots[m]);
  }

  // ----- exit reports -----

  /** The logs only grow, and an exit once recorded stays as it was. */
  lemma {:induction false} LogsGrow(t: Table, e: Event)
    requires Sound(t)
    ensures t.reports <= Next(t, e).reports
    ensures forall p :: p in t.exits ==> p in Next(t, e).exits && Next(t, e).exits[p] == t.exits[p]
  {
  }

  /** In every reachable state: a report is made to the parent, with the child's pid and status
      word; an exit has at most one; and an exit without one whose parent has a slot is there as
      exactly one zombie. */
  lemma {:induction false} ExactlyOnce(n: nat, es: seq<Event>, p: nat)
    requires p in Run(Start(n), es).exits
    ensures var t := Run(Start(n), es);
      && (forall k :: 0 <= k < |t.reports| && t.reports[k].child == p ==>
            t.reports[k] == Report(t.exits[p].parent, p, StatusWord(t.exits[p].code)))
      && (forall k, l :: 0 <= k < l < |t.reports| ==> !(t.reports[k].child == p && t.reports[l].child == p))
      && (HasSlot(t.slots, t.exits[p].parent) && !Reported(t.reports, p) ==> HasZombie(t.slots, p, t.exits[p]))
      && (forall i, j :: 0 <= i < j < |t.slots| ==> !(HasPid(t.slots[i], p) && HasPid(t.slots[j], p)))
      && (Reported(t.reports, p) ==> !HasSlot(t.slots, p))
  {
    RunSound(n, es);
    var t := Run(Start(n), es);
    if HasSlot(t.slots, p) {
      var i :| 0 <= i < |t.slots| && HasPid(t.slots[i], p);
      assert !Reported(t.reports, p);
    }
  }

  /** The parent that waits for the process that exits is the one to hear of it, at once. */
  lemma {:induction false} ExitWakesParent(t: Table, code: int, w: nat)
    requires Sound(t) && HasActive(t) && w < |t.slots| && WaitsFor(t.slots[w], t.slots[t.active])
    ensures var c, t' := t.slots[t.active], Terminated(t, code);
      && t'.slots[w].status.Runnable? && t'.slots[w].eax == c.pid && !HasSlot(t'.slots, c.pid)
      && t'.reports == t.reports + [Report(t.slots[w].pid, c.pid, StatusWord(code))]
  {
    var c := Zombified(t.slots[t.active], code);
    var slots := t.slots[t.active := c];
    assert WaitsFor(slots[w], c);
    assert Waiter(slots, c) == w;
  }

  /** Fork adds a runnable child of the active process, with the next pid and a return value of 0, and
      changes no other slot. */
  lemma {:induction false} ForkMakesChild(t: Table) returns (i: nat)
    requires Sound(t) && HasActive(t) && exists k :: 0 <= k < |t.slots| && IsFree(t.slots[k])
    ensures var t' := Next(t, Fork(true));
      && i < |t.slots| && IsFree(t.slots[i]) && t'.slots == t.slots[i := t'.slots[i]] && t'.active == t.active
      && t'.slots[i].status.Runnable? && t'.slots[i].eax == 0
      && IsChild(t'.slots[i], t.slots[t.active].pid, -1) && !HasSlot(t.slots, t'.slots[i].pid)
  {
    i := First(t.slots, IsFree);
  }

  /** A process forks, the child runs and exits, the parent runs again and waits for it: it gets the
      child's pid and the report with the child's exit code, whatever else is in the table. */
  lemma {:induction false} ForkExitWait(t: Table, code: int, wantStatus: bool) returns (i: nat)
    requires Sound(t) && HasActive(t) && exists k :: 0 <= k < |t.slots| && IsFree(t.slots[k])
    ensures i < |t.slots|
    ensures var me, child := t.slots[t.active].pid, t.nextPid;
      var t' := Next(Next(Next(Next(t, Fork(true)), Switch(i)), Terminate(code)), Switch(t.active));
      var (t'', answer) := Waited(t', child, 0, wantStatus, true);
      answer == Returns(child) && t''.reports == t.reports + [Report(me, child, StatusWord(code))]
  {
    i := ChildRuns(t);
    var t2 := Next(Next(t, Fork(true)), Switch(i));
    ChildExits(t, i, t2, code);
    WaitFinds(Next(Next(t2, Terminate(code)), Switch(t.active)), i, wantStatus);
  }

  /** The forked child is switched to. */
  lemma {:induction false} ChildRuns(t: Table) returns (i: nat)
    requires Sound(t) && HasActive(t) && exists k :: 0 <= k < |t.slots| && IsFree(t.slots[k])
    ensures i < |t.slots| && IsFree(t.slots[i]) && i != t.active
    ensures var t2 := Next(Next(t, Fork(true)), Switch(i));
      && t2.slots == t.slots[i := NewSlot(t.nextPid, t.slots[t.active].pid)]
      && t2.active == i && t2.reports == t.reports
  {
    i := ForkMakesChild(t);
  }

  /** It exits while its parent is not waiting, and the parent is switched to. */
  lemma {:induction false} ChildExits(t: Table, i: nat, t2: Table, code: int)
    requires Sound(t) && HasActive(t) && i < |t.slots| && i != t.active && t2.active == i && t2.reports == t.reports
    requires t2.slots == t.slots[i := NewSlot(t.nextPid, t.slots[t.active].pid)]
    ensures var t4 := Next(Next(t2, Terminate(code)), Switch(t.active));
      && t4.slots == t.slots[i := Zombified(NewSlot(t.nextPid, t.slots[t.active].pid), code)]
      && t4.active == t.active && t4.reports == t.reports
  {
    LoneExit(t2, code);
  }

  /** A zombie child is what waiting for its pid finds. */
  lemma {:induction false} WaitFinds(t: Table, i: nat, wantStatus: bool)
    requires HasActive(t) && i < |t.slots| && t.slots[i].status.Zombie? && t.slots[i].pid != 0
    requires t.slots[i].parentPid == t.slots[t.active].pid
    requires forall k :: 0 <= k < |t.slots| && k != i && !t.slots[k].status.Free? ==> t.slots[k].pid != t.slots[i].pid
    ensures Waited(t, t.slots[i].pid, 0, wantStatus, true) == (Reaped(t, i), Returns(t.slots[i].pid))
  {
    var me, child := t.slots[t.active].pid, t.slots[i].pid;
    var z := First(t.slots, s => IsZombieChild(s, me, child));
    assert IsZombieChild(t.slots[i], me, child);
    assert z == i;
  }

  /** The exit of a process whose parent is not waiting leaves a zombie in its slot. */
  lemma {:induction false} LoneExit(t: Table, code: int)
    requires HasActive(t)
    requires forall k :: 0 <= k < |t.slots| ==> !WaitsFor(t.slots[k], t.slots[t.active])
    ensures var t' := Terminated(t, code);
      t'.slots == t.slots[t.active := Zombified(t.slots[t.active], code)] && t'.reports == t.reports && t'.active == -1
  {
    var c := Zombified(t.slots[t.active], code);
    var slots := t.slots[t.active := c];
    assert forall k :: 0 <= k < |slots| ==> !WaitsFor(slots[k], c);
  }

  /** waitpid by cases on the children, for a writable status word. */
  lemma {:induction false} WaitAnswers(t: Table, pid: int, wantStatus: bool)
    requires Sound(t) && HasActive(t)
    ensures var me := t.slots[t.active].pid;
      var (t', a) := Waited(t, pid, 0, wantStatus, true);
      && (a == Returns(ERR_CHILD) <==> forall j :: 0 <= j < |t.slots| ==> !IsChild(t.slots[j], me, pid))
      && ((a.Returns? && a.value > 0) <==> exists j :: 0 <= j < |t.slots| && IsZombieChild(t.slots[j], me, pid))
      && (a.Returns? && a.value > 0 ==>
            && Reported(t'.reports, a.value) && !Reported(t.reports, a.value) && Matches(pid, a.value)
            && HasSlot(t.slots, a.value) && !HasSlot(t'.slots, a.value))
      && (a.Blocks? <==> HasLiveChild(t.slots, t.slots[t.active].(waitPid := pid)) &&
                         forall j :: 0 <= j < |t.slots| ==> !IsZombieChild(t.slots[j], me, pid))
  {
    var me := t.slots[t.active].pid;
    var z := First(t.slots, s => IsZombieChild(s, me, pid));
    var j := First(t.slots, s => IsChild(s, me, pid));
    if z < |t.slots| {
      var t' := Reaped(t, z);
      assert HasPid(t.slots[z], t.slots[z].pid);
      assert t'.reports[|t.reports|].child == t.slots[z].pid;
    } else if j < |t.slots| {
      assert IsLive(t.slots[j]);
    }
  }
}
