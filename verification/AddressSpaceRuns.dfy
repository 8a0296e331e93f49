/** Whole runs of the paging code: lists of calls carried out on physical memory, against the
    reference in which a fork copies every page; and the runs on which fork and destruction
    break what they should keep. */
module AddressSpaceRuns {
  import opened Entries
  import opened PageTables
  import opened FrameAllocator
  import opened CopyOnWrite
  import opened PartialFork
  import opened AddressSpaces

  /** What a user of the paging code asks for; address spaces are numbered in order of creation. */
  datatype Command =
    | New
    | AllocAt(space: nat, va: U32, flags: bv12)
    | ForkOf(space: nat)
    | Store(space: nat, va: U32, value: Word)

  /** The command speaks of one of n spaces and of the user range. */
  predicate Proper(c: Command, n: nat) {
    match c
    case New => true
    case AllocAt(i, va, _) => i < n && va % 4096 == 0 && UserPage(va / 4096)
    case ForkOf(i) => i < n
    case Store(i, va, _) => i < n && UserPage(va / 4096)
  }

  function Created(c: Command): nat { if c.New? || c.ForkOf? then 1 else 0 }

  predicate AllProper(cs: seq<Command>, n: nat) {
    cs == [] || (Proper(cs[0], n) && AllProper(cs[1..], n + Created(cs[0])))
  }

  /** The frames the command takes in this state. */
  ghost function Need(k: Paging, m: Machine, c: Command, ds: seq<Frame>): int
    requires Proper(c, |ds|)
  {
    match c
    case New => 1
    case AllocAt(i, va, _) => k.PageCost(m.mem, ds[i], va / 4096)
    case ForkOf(i) => k.ForkCost(m, ds[i])
    case Store(i, va, _) => k.StoreCost(m, (ds[i], va / 4096))
  }

  /** The most it takes in any state: a user range of 12 slots needs 12 tables. */
  function Cost(c: Command): nat {
    match c
    case New => 1
    case AllocAt(_, _, _) => 2
    case ForkOf(_) => 13
    case Store(_, _, _) => 1
  }

  function Budget(cs: seq<Command>): nat {
    if cs == [] then 0 else Cost(cs[0]) + Budget(cs[1..])
  }

  lemma NeedBound(k: Paging, m: Machine, c: Command, ds: seq<Frame>)
    requires Proper(c, |ds|)
    ensures Need(k, m, c, ds) <= Cost(c)
  {
    if c.ForkOf? {
      SubsetSize(PageSlots(m.flat, ds[c.space], KERNEL_PD_INDEX * ENTRIES), Interval(8, 12));
    }
  }

  ghost predicate AllDirs(m: Machine, ds: seq<Frame>) {
    forall i :: 0 <= i < |ds| ==> IsDir(m.roles, ds[i])
  }

  /** e is the command's event, where ds[n] is the space it creates, if it creates one. */
  ghost predicate Does(c: Command, ds: seq<Frame>, n: nat, e: Event) {
    && Proper(c, n) && n + Created(c) <= |ds|
    && match c
       case New => e == Create(ds[n])
       case AllocAt(i, va, flags) =>
         e.Alloc? && e.space == ds[i] && e.page == va / 4096 && e.entry == MapEntry(e.entry.frame, flags | USER)
       case ForkOf(i) => e == Fork(ds[i], ds[n])
       case Store(i, va, x) => e == Write(ds[i], va / 4096, va % 4096 / 4, x)
  }

  lemma DirsKept(m: Machine, e: Event, m': Machine, ds: seq<Frame>)
    requires Step(View(m), e, View(m')) && AllDirs(m, ds)
    ensures AllDirs(m', ds)
  {
    forall i | 0 <= i < |ds| ensures IsDir(m'.roles, ds[i]) {
      assert ds[i] in View(m).spaces;
    }
  }

  /** One command.  With the frames it needs it is exactly its step and takes exactly those; without them
      it fails and changes nothing, but for a fork, which may succeed with pages missing. */
  method Perform(k: Paging, c: Command, ds: seq<Frame>) returns (ok: bool, ds': seq<Frame>, ghost e: Event)
    requires k.Good() && Proper(c, |ds|) && AllDirs(k.m, ds)
    modifies k`m, k.frames, k.frames.bitmap
    ensures k.Good() && AllDirs(k.m, ds') && ds <= ds' && (ok ==> |ds'| == |ds| + Created(c))
    ensures Need(k, old(k.m), c, ds) <= old(k.frames.FreeCount()) ==>
      && ok && Step(View(old(k.m)), e, View(k.m)) && Does(c, ds', |ds|, e)
      && k.frames.FreeCount() == old(k.frames.FreeCount()) - Need(k, old(k.m), c, ds)
    ensures Need(k, old(k.m), c, ds) > old(k.frames.FreeCount()) ==> ok ==> c.ForkOf?
    ensures !ok ==> k.m == old(k.m) && k.frames.used == old(k.frames.used)
  {
    ds', e := ds, Create(0);
    match c {
      case New =>
        var d := k.CreateDirectory();
        ok := d != 0;
        if ok {
          ds', e := ds + [d], Create(d);
          DirsKept(old(k.m), e, k.m, ds);
        }
      case AllocAt(i, va, flags) =>
        ghost var f;
        ok, f := k.AllocUserPage(ds[i], va, flags);
        if ok {
          e := Alloc(ds[i], va / 4096, MapEntry(f, flags | USER), old(k.m).mem[f]);
          DirsKept(old(k.m), e, k.m, ds);
        }
      case ForkOf(i) =>
        ok, ds', e := PerformFork(k, i, ds);
      case Store(i, va, x) =>
        var oom := k.UserWrite(ds[i], va, x);
        ok, e := !oom, Write(ds[i], va / 4096, va % 4096 / 4, x);
        if ok {
          DirsKept(old(k.m), e, k.m, ds);
        }
    }
  }

  lemma DirsGrow(m: Machine, m': Machine, ds: seq<Frame>, q: Frame)
    requires AllDirs(m, ds) && Dirs(m'.roles) == Dirs(m.roles) + {q}
    ensures AllDirs(m', ds + [q])
  {
    forall j | 0 <= j <= |ds| ensures IsDir(m'.roles, (ds + [q])[j]) {
      assert (ds + [q])[j] in Dirs(m'.roles);
    }
  }

  method PerformFork(k: Paging, i: nat, ds: seq<Frame>) returns (ok: bool, ds': seq<Frame>, ghost e: Event)
    requires k.Good() && i < |ds| && AllDirs(k.m, ds)
    modifies k`m, k.frames, k.frames.bitmap
    ensures k.Good() && AllDirs(k.m, ds') && ds <= ds' && (ok ==> |ds'| == |ds| + 1)
    ensures k.ForkCost(old(k.m), ds[i]) <= old(k.frames.FreeCount()) ==>
      && ok && Step(View(old(k.m)), e, View(k.m)) && Does(ForkOf(i), ds', |ds|, e)
      && k.frames.FreeCount() == old(k.frames.FreeCount()) - k.ForkCost(old(k.m), ds[i])
    ensures !ok ==> k.m == old(k.m) && k.frames.used == old(k.frames.used)
  {
    var q := k.CopyCow(ds[i]);
    ok, ds', e := q != 0, ds, Fork(ds[i], q);
    if ok {
      DirsGrow(old(k.m), k.m, ds, q);
      ds' := ds + [q];
    }
  }

  // ----- lists of commands -----

  /** The machine, the number of free frames and the spaces before a command. */
  datatype Snapshot = Snapshot(m: Machine, free: int, ds: seq<Frame>)

  ghost predicate OneStep(k: Paging, s: Snapshot, c: Command, e: Event, s': Snapshot) {
    && Proper(c, |s.ds|) && Need(k, s.m, c, s.ds) <= s.free && s'.free == s.free - Need(k, s.m, c, s.ds)
    && s.ds <= s'.ds && |s'.ds| == |s.ds| + Created(c)
    && Step(View(s.m), e, View(s'.m)) && Does(c, s'.ds, |s.ds|, e)
  }

  /** Each command finds the frames it needs, takes them, and does its step. */
  ghost predicate Trace(k: Paging, snaps: seq<Snapshot>, cs: seq<Command>, es: seq<Event>) {
    && |snaps| == |es| + 1 && |es| <= |cs|
    && forall i :: 0 <= i < |es| ==> OneStep(k, snaps[i], cs[i], es[i], snaps[i + 1])
  }

  /** A list of commands, up to the first that fails visibly.  The trace goes to the first command for
      which the frames do not suffice, and otherwise to the end. */
  method Execute(k: Paging, cs: seq<Command>, ds: seq<Frame>)
    returns (ds': seq<Frame>, ghost snaps: seq<Snapshot>, ghost es: seq<Event>)
    requires k.Good() && AllProper(cs, |ds|) && AllDirs(k.m, ds)
    modifies k`m, k.frames, k.frames.bitmap
    ensures k.Good() && Trace(k, snaps, cs, es) && snaps[0] == Snapshot(old(k.m), old(k.frames.FreeCount()), ds)
    ensures var last := snaps[|es|];
      if |es| == |cs| then last == Snapshot(k.m, k.frames.FreeCount(), ds')
      else Proper(cs[|es|], |last.ds|) && last.free < Need(k, last.m, cs[|es|], last.ds)
  {
    ds', snaps, es := ds, [Snapshot(k.m, k.frames.FreeCount(), ds)], [];
    var i, ok := 0, true;
    ghost var first, short := snaps[0], false;
    assert cs[0..] == cs;
    while ok && i < |cs|
      invariant 0 <= i <= |cs| && k.Good() && AllDirs(k.m, ds') && (ok ==> AllProper(cs[i..], |ds'|)) && (!ok ==> short)
      invariant Tracked(k, snaps, cs, es, i, short, Snapshot(k.m, k.frames.FreeCount(), ds')) && snaps[0] == first
      decreases |cs| - i
    {
      ghost var before := Snapshot(k.m, k.frames.FreeCount(), ds');
      assert cs[i..][0] == cs[i] && cs[i..][1..] == cs[i + 1..];
      ghost var e;
      ok, ds', e := Perform(k, cs[i], ds');
      snaps, es, short := Track(k, snaps, cs, es, i, short, before, e, Snapshot(k.m, k.frames.FreeCount(), ds'));
      i := i + 1;
    }
  }

  ghost predicate Lacks(k: Paging, s: Snapshot, c: Command) {
    Proper(c, |s.ds|) && s.free < Need(k, s.m, c, s.ds)
  }

  /** The trace goes to the present state, or to where frames were lacking. */
  ghost predicate Tracked(k: Paging, snaps: seq<Snapshot>, cs: seq<Command>, es: seq<Event>, i: nat, short: bool,
                          now: Snapshot) {
    && Trace(k, snaps, cs, es)
    && if short then |es| < |cs| && Lacks(k, snaps[|es|], cs[|es|]) else |es| == i && snaps[i] == now
  }

  lemma Track(k: Paging, snaps: seq<Snapshot>, cs: seq<Command>, es: seq<Event>, i: nat, short: bool, s: Snapshot,
              e: Event, s': Snapshot)
    returns (snaps': seq<Snapshot>, es': seq<Event>, short': bool)
    requires Tracked(k, snaps, cs, es, i, short, s) && i < |cs| && Proper(cs[i], |s.ds|)
    requires Lacks(k, s, cs[i]) || OneStep(k, s, cs[i], e, s')
    ensures Tracked(k, snaps', cs, es', i + 1, short', s') && snaps'[0] == snaps[0]
    ensures short' <==> short || Lacks(k, s, cs[i])
  {
    snaps', es', short' := snaps, es, short || Lacks(k, s, cs[i]);
    if !short' {
      snaps', es' := snaps + [s'], es + [e];
      assert forall j :: 0 <= j < |es| ==> OneStep(k, snaps[j], cs[j], es[j], snaps[j + 1]);
    }
  }

  /** Along a trace every page of every address space shows what it would if fork had copied all pages. */
  lemma {:induction false} TraceShows(k: Paging, snaps: seq<Snapshot>, cs: seq<Command>, es: seq<Event>,
                                      before: seq<Event>, i: nat)
    requires Trace(k, snaps, cs, es) && i <= |es|
    requires NoSharedWritable(View(snaps[0].m)) && Shows(View(snaps[0].m), EagerRun(before))
    ensures NoSharedWritable(View(snaps[i].m)) && Shows(View(snaps[i].m), EagerRun(before + es[..i]))
  {
    var states := seq(|snaps|, j requires 0 <= j < |snaps| => View(snaps[j].m));
    assert forall j :: 0 <= j < |es| ==> OneStep(k, snaps[j], cs[j], es[j], snaps[j + 1]);
    ChainShows(states, es, before, i);
  }

  /** With as many frames as the commands can take at most, the trace goes to the end. */
  lemma {:induction false} BudgetSuffices(k: Paging, snaps: seq<Snapshot>, cs: seq<Command>, es: seq<Event>, i: nat)
    requires Trace(k, snaps, cs, es) && i <= |es| && Budget(cs) <= snaps[0].free
    ensures Budget(cs[i..]) <= snaps[i].free
    ensures i < |cs| && Proper(cs[i], |snaps[i].ds|) ==> Need(k, snaps[i].m, cs[i], snaps[i].ds) <= snaps[i].free
  {
    if i == 0 {
      assert cs[0..] == cs;
    } else {
      BudgetSuffices(k, snaps, cs, es, i - 1);
      assert OneStep(k, snaps[i - 1], cs[i - 1], es[i - 1], snaps[i]);
      NeedBound(k, snaps[i - 1].m, cs[i - 1], snaps[i - 1].ds);
      assert cs[i - 1..][1..] == cs[i..];
    }
    if i < |cs| && Proper(cs[i], |snaps[i].ds|) {
      NeedBound(k, snaps[i].m, cs[i], snaps[i].ds);
    }
  }

  /** From a machine without address spaces: when the frames suffice to the end, memory shows at the end
      what the reference does; and they do if there are as many as the commands can take at most. */
  method Run(k: Paging, cs: seq<Command>) returns (ds: seq<Frame>, ghost snaps: seq<Snapshot>, ghost es: seq<Event>)
    requires k.Valid() && Dirs(k.m.roles) == {} && AllProper(cs, 0)
    modifies k`m, k.frames, k.frames.bitmap
    ensures k.Good() && Trace(k, snaps, cs, es)
    ensures |es| < |cs| ==> Lacks(k, snaps[|es|], cs[|es|])
    ensures |es| == |cs| ==> Shows(View(k.m), EagerRun(es)) && NoSharedWritable(View(k.m))
    ensures Budget(cs) <= old(k.frames.FreeCount()) ==> |es| == |cs|
  {
    assert k.m.flat == map[] by {
      assert forall d :: IsDir(k.m.roles, d) ==> d in Dirs(k.m.roles);
    }
    ds, snaps, es := Execute(k, cs, []);
    TraceShows(k, snaps, cs, es, [], |es|);
    assert [] + es[..|es|] == es;
    if Budget(cs) <= snaps[0].free {
      BudgetSuffices(k, snaps, cs, es, |es|);
    }
  }

  // ----- where fork and destruction fall short -----

  /** A space with the one page va. */
  method OnePage(k: Paging, va: U32, flags: bv12) returns (p: Frame)
    requires k.Good() && va % 4096 == 0 && UserPage(va / 4096) && k.frames.FreeCount() >= 3
    modifies k`m, k.frames, k.frames.bitmap
    ensures k.Good() && IsDir(k.m.roles, p) && k.frames.FreeCount() == old(k.frames.FreeCount()) - 3
    ensures forall v :: (p, v) in k.m.flat <==> v == va / 4096
    ensures var w := k.m.flat[(p, va / 4096)]; w == MapEntry(w.frame, flags | USER) && k.frames.Manages(w.frame)
    ensures k.ForkCost(k.m, p) == 2
  {
    p := k.CreateDirectory();
    assert forall v :: (p, v) !in k.m.flat;
    var ok, f := k.AllocUserPage(p, va, flags);
    OneSlot(k.m.flat, p, va / 4096, KERNEL_PD_INDEX * ENTRIES);
  }

  /** Fork does not carry permissions over: the child may write the page its parent may not. */
  method ForkWidens(k: Paging, va: U32) returns (p: Frame, q: Frame)
    requires k.Good() && va % 4096 == 0 && UserPage(va / 4096) && k.frames.FreeCount() >= 5
    modifies k`m, k.frames, k.frames.bitmap
    ensures k.Good() && (p, va / 4096) in k.m.flat && (q, va / 4096) in k.m.flat
    ensures !MayWrite(k.m.flat[(p, va / 4096)]) && MayWrite(k.m.flat[(q, va / 4096)])
  {
    p := OnePage(k, va, 0);
    ghost var m := k.m;
    q := k.CopyCow(p);
    ForkedEntry(m.flat, p, q, (p, va / 4096));
    ForkedEntry(m.flat, p, q, (q, va / 4096));
  }

  /** Fork reports success though the child lacks a page: one frame is left, and the directory gets it. */
  method ForkLoses(k: Paging, va: U32) returns (p: Frame, q: Frame)
    requires k.Good() && va % 4096 == 0 && UserPage(va / 4096) && k.frames.FreeCount() == 4
    modifies k`m, k.frames, k.frames.bitmap
    ensures k.Good() && q != 0 && (p, va / 4096) in k.m.flat && (q, va / 4096) !in k.m.flat
  {
    p := OnePage(k, va, RW);
    q := k.CopyCow(p);
  }

  /** Destruction of a forked space takes the page from under the other: its frame is free. */
  method ForkThenDestroy(k: Paging, va: U32) returns (p: Frame)
    requires k.Good() && va % 4096 == 0 && UserPage(va / 4096) && k.frames.FreeCount() >= 5
    modifies k`m, k.frames, k.frames.bitmap
    ensures (p, va / 4096) in k.m.flat && k.frames.Free(k.m.flat[(p, va / 4096)].frame) && !k.Good()
  {
    p := OnePage(k, va, RW);
    ghost var m, v := k.m, va / 4096;
    var q := k.CopyCow(p);
    ForkedEntry(m.flat, p, q, (p, v));
    ForkedEntry(m.flat, p, q, (q, v));
    ghost var m2 := k.m;
    assert m2.flat[(p, v)].frame == m2.flat[(q, v)].frame;
    k.Destroy(q);
    assert Backs(m2, q, v, m2.flat[(q, v)].frame);
  }
}
