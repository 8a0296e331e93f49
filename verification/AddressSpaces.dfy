/** The paging operations of src/paging.c and the copy-on-write fork of src/task.c, working in
    place on physical memory.  Each operation is tied to a step of `CopyOnWrite`, with the exact
    condition on free frames under which it is taken; `AddressSpaceRuns` carries out whole runs.

    Frames are reached through the kernel's mapping of physical memory, which is the identity
    up to an offset (ptable_ptr); the fault handler's temporary mapping is modelled by the copy
    it makes. */
module AddressSpaces {
  import opened Entries
  import opened PageTables
  import opened FrameAllocator
  import opened CopyOnWrite
  import opened PartialFork
  import Bytes

  type U32 = Bytes.U32

  /** Physical memory; which frames translation goes through; the user entries of all
      directories as one flat map. */
  datatype Machine = Machine(mem: Memory, ghost roles: Roles, ghost flat: map<Place, Word>)

  /** `flat` is what the tables say. */
  ghost predicate FlatOk(m: Machine) {
    && (forall k :: k in m.flat ==> IsDir(m.roles, k.0) && UserPage(k.1) && Owned(m.flat[k]))
    && (forall d, v {:trigger Walk(m.mem, d, v)} :: IsDir(m.roles, d) && UserPage(v) ==>
          Walk(m.mem, d, v) == if (d, v) in m.flat then Some(m.flat[(d, v)]) else None)
  }

  ghost function Dirs(roles: Roles): set<Frame> {
    set f | f in roles && roles[f] == Directory
  }

  ghost function View(m: Machine): Lazy {
    Lazy(Dirs(m.roles), m.flat, m.mem)
  }

  // ----- the writes the operations are made of -----

  function EntryPut(mem: Memory, t: Frame, j: int, w: Word): Memory
    requires 0 <= j < ENTRIES
  {
    mem[t := mem[t][j := w]]
  }

  /** pt->entries[pt_idx] = w */
  function WithEntry(m: Machine, d: Frame, v: int, w: Word): Machine
    requires 0 <= v < FRAMES
  {
    Machine(EntryPut(m.mem, m.mem[d][v / ENTRIES].frame, v % ENTRIES, w), m.roles,
            if UserPage(v) then m.flat[(d, v) := w] else m.flat)
  }

  /** The directory entry page_map makes for a new table. */
  function TableEntry(t: Frame, flags: bv12): (w: Word)
    ensures Present(w) && Owned(w) && w.frame == t
  {
    Word(t, PRESENT | RW | ALLOCATED | (flags & USER))
  }

  /** A zeroed table t behind slot i of d. */
  function WithTable(m: Machine, d: Frame, i: int, t: Frame, flags: bv12): Machine
    requires 0 <= i < ENTRIES
  {
    Machine(m.mem[d := m.mem[d][i := TableEntry(t, flags)]][t := ZeroPage()],
            if UserSlot(i) then m.roles[t := Table(d, i)] else m.roles, m.flat)
  }

  /** pd->entries[i] |= PTE_USER */
  function WithUserBit(m: Machine, d: Frame, i: int): Machine
    requires 0 <= i < ENTRIES
  {
    Machine(m.mem[d := m.mem[d][i := Word(m.mem[d][i].frame, m.mem[d][i].flags | USER)]], m.roles, m.flat)
  }

  /** The user slots of d that have a table. */
  ghost function TableSlots(mem: Memory, d: Frame): set<int> {
    set i | 8 <= i < 20 && Present(mem[d][i])
  }

  // ----- what a directory owns -----

  /** f backs page v of d. */
  ghost predicate Backs(m: Machine, d: Frame, v: int, f: int) {
    (d, v) in m.flat && m.flat[(d, v)].frame == f
  }

  /** f backs a page of d below c. */
  ghost predicate BacksPage(m: Machine, d: Frame, c: int, f: int) {
    exists v :: v < c && Backs(m, d, v, f)
  }

  /** f is the table of a slot of d below i. */
  ghost predicate IsTableOf(m: Machine, d: Frame, i: int, f: int) {
    f in m.roles && m.roles[f].Table? && m.roles[f].dir == d && m.roles[f].slot < i
  }

  /** f is the directory's own frame, one of its tables, or backs one of its pages. */
  ghost predicate Owns(m: Machine, d: Frame, f: int) {
    f == d || IsTableOf(m, d, KERNEL_PD_INDEX, f) || BacksPage(m, d, KERNEL_PD_INDEX * ENTRIES, f)
  }

  lemma BacksNext(m: Machine, d: Frame, c: int, f: int)
    ensures BacksPage(m, d, c + 1, f) <==> BacksPage(m, d, c, f) || Backs(m, d, c, f)
  {
  }

  /** No frame of a page of d is mapped anywhere else. */
  ghost predicate Private(m: Machine, d: Frame) {
    forall k, k' :: k in m.flat && k' in m.flat && k.0 == d && m.flat[k].frame == m.flat[k'].frame ==> k == k'
  }

  class Paging {
    const frames: Allocator
    /** kernel_page_directory */
    const kernel: Page
    var m: Machine

    /** The state paging_init leaves: kernel tables are in use, no user directory exists. */
    constructor (frames: Allocator, kernel: Page, mem: Memory, ghost roles: Roles)
      requires frames.Valid() && KernelOk(kernel, roles)
      requires forall f :: f in roles ==> roles[f] == KernelTable && !frames.Free(f)
      ensures Valid() && this.frames == frames && this.kernel == kernel
      ensures m == Machine(mem, roles, map[])
    {
      this.frames := frames;
      this.kernel := kernel;
      m := Machine(mem, roles, map[]);
    }

    /** Tables in order, and no frame of theirs can be handed out. */
    ghost predicate Sound(m: Machine, used: set<int>) {
      && WellFormed(m.mem, kernel, m.roles) && FlatOk(m)
      && (forall f :: f in m.roles && frames.Manages(f) ==> f in used)
    }

    ghost predicate Valid()
      reads this, frames, frames.bitmap
    {
      frames.Valid() && Sound(m, frames.used)
    }

    /** A frame outside the structure that will not be handed out: user data, if anything. */
    ghost predicate DataFrame(m: Machine, used: set<int>, f: int) {
      f !in m.roles && (frames.Manages(f) ==> f in used)
    }

    /** No user page lies on a directory, a table, or a frame that could be handed out again. */
    ghost predicate Apart(m: Machine, used: set<int>) {
      forall k :: k in m.flat ==> DataFrame(m, used, m.flat[k].frame)
    }

    /** From m to m', frames of the structure keep their role, new ones are tables of d and the
        only frames taken, and data frames keep their contents. */
    ghost predicate Preserves(m: Machine, used: set<int>, m': Machine, used': set<int>, d: int) {
      && (forall f :: f in m.roles ==> f in m'.roles && m'.roles[f] == m.roles[f])
      && (forall f :: f in m'.roles && f !in m.roles ==> m'.roles[f].Table? && m'.roles[f].dir == d)
      && (forall f: Frame :: DataFrame(m, used, f) ==> m'.mem[f] == m.mem[f] && f !in m'.roles)
      && (forall f :: f in used' <==> f in used || (f in m'.roles && f !in m.roles))
    }

    /** Moreover, all translations but that of page v in d are kept. */
    ghost predicate Keeps(m: Machine, used: set<int>, m': Machine, used': set<int>, d: int, v: int) {
      OthersKept(m.mem, m.roles, m'.mem, d, v) && Preserves(m, used, m', used', d)
    }

    lemma PreservesTwice(m: Machine, used: set<int>, m1: Machine, used1: set<int>, m2: Machine, used2: set<int>, d: int)
      requires Preserves(m, used, m1, used1, d) && Preserves(m1, used1, m2, used2, d)
      ensures Preserves(m, used, m2, used2, d)
    {
    }

    lemma EntrySet(m: Machine, used: set<int>, d: Frame, v: int, w: Word)
      requires Sound(m, used) && IsDir(m.roles, d) && UserPage(v) && Present(m.mem[d][v / ENTRIES])
      requires Present(w) && Owned(w)
      ensures Sound(WithEntry(m, d, v, w), used)
      ensures Keeps(m, used, WithEntry(m, d, v, w), used, d, v)
      ensures Walk(WithEntry(m, d, v, w).mem, d, v) == Some(w)
      ensures forall d' :: IsDir(m.roles, d') ==> WithEntry(m, d, v, w).mem[d'] == m.mem[d']
    {
      var m' := WithEntry(m, d, v, w);
      WalkFrame(m.mem, kernel, m.roles, d, v);
      EntryWrite(m.mem, kernel, m.roles, d, v, m.mem[d][v / ENTRIES].frame, w, m'.mem);
      assert FlatOk(m') by {
        forall d', v' | IsDir(m.roles, d') && UserPage(v')
          ensures Walk(m'.mem, d', v') == if (d', v') in m'.flat then Some(m'.flat[(d', v')]) else None
        {
          assert (d', v') != (d, v) ==> Walk(m'.mem, d', v') == Walk(m.mem, d', v');
        }
      }
    }

    lemma TableSet(m: Machine, used: set<int>, d: Frame, i: int, t: Frame, flags: bv12)
      requires Sound(m, used) && IsDir(m.roles, d) && UserSlot(i) && !Present(m.mem[d][i])
      requires frames.Manages(t) && t !in used
      ensures Sound(WithTable(m, d, i, t, flags), used + {t})
      ensures Keeps(m, used, WithTable(m, d, i, t, flags), used + {t}, d, -1)
      ensures Present(WithTable(m, d, i, t, flags).mem[d][i])
    {
      var m' := WithTable(m, d, i, t, flags);
      TableAdd(m.mem, kernel, m.roles, d, i, t, m'.mem[d][i], m'.mem);
      assert FlatOk(m') by {
        forall d', v' | IsDir(m'.roles, d') && UserPage(v')
          ensures Walk(m'.mem, d', v') == if (d', v') in m'.flat then Some(m'.flat[(d', v')]) else None
        {
          assert Walk(m'.mem, d', v') == Walk(m.mem, d', v');
        }
      }
    }

    lemma UserBitSet(m: Machine, used: set<int>, d: Frame, i: int)
      requires Sound(m, used) && IsDir(m.roles, d) && UserSlot(i) && Present(m.mem[d][i])
      ensures Sound(WithUserBit(m, d, i), used)
      ensures Keeps(m, used, WithUserBit(m, d, i), used, d, -1)
      ensures Present(WithUserBit(m, d, i).mem[d][i])
    {
      var m' := WithUserBit(m, d, i);
      assert SlotOk(m.mem, kernel, m.roles, d, i);
      SlotFlags(m.mem, kernel, m.roles, d, i, m'.mem[d][i], m'.mem);
      assert FlatOk(m') by {
        forall d', v' | IsDir(m.roles, d') && UserPage(v')
          ensures Walk(m'.mem, d', v') == if (d', v') in m'.flat then Some(m'.flat[(d', v')]) else None
        {
          assert Walk(m'.mem, d', v') == Walk(m.mem, d', v');
        }
      }
    }

    /** The second half of page_map, after the table has been found or made. */
    lemma EntrySetAfter(m: Machine, used: set<int>, m1: Machine, used1: set<int>, d: Frame, v: int, w: Word)
      requires Sound(m1, used1) && Keeps(m, used, m1, used1, d, -1) && m1.flat == m.flat
      requires IsDir(m.roles, d) && UserPage(v) && Present(m1.mem[d][v / ENTRIES])
      requires Present(w) && Owned(w)
      ensures Sound(WithEntry(m1, d, v, w), used1)
      ensures Keeps(m, used, WithEntry(m1, d, v, w), used1, d, v)
      ensures WithEntry(m1, d, v, w).flat == m.flat[(d, v) := w]
      ensures Walk(WithEntry(m1, d, v, w).mem, d, v) == Some(w) && WithEntry(m1, d, v, w).mem[d] == m1.mem[d]
    {
      EntrySet(m1, used1, d, v, w);
    }

    /** Nothing changed yet. */
    lemma KeepsSelf(m: Machine, used: set<int>, d: int)
      ensures Keeps(m, used, m, used, d, -1)
    {
    }

    /** The slot of page v can take a mapping with these flags: it is a user slot, or it leads to a
        kernel table and need not be opened to user mode. */
    predicate Takes(mem: Memory, d: Frame, v: int, flags: bv12)
      requires 0 <= v < FRAMES
    {
      var pde := mem[d][v / ENTRIES];
      UserPage(v) || (Present(pde) && (flags & USER == 0 || pde.flags & USER != 0))
    }

    /** A table for page v has been found or made. */
    ghost predicate TableReady(m: Machine, used: set<int>, m1: Machine, used1: set<int>, d: Frame, v: int, flags: bv12)
      requires 0 <= v < FRAMES
    {
      && Present(m1.mem[d][v / ENTRIES])
      && if UserPage(v) then UserTabled(m, used, m1, used1, d, v) else KernelTabled(m, used, m1, used1, d, v, flags)
    }

    ghost predicate UserTabled(m: Machine, used: set<int>, m1: Machine, used1: set<int>, d: Frame, v: int) {
      && Sound(m1, used1) && Keeps(m, used, m1, used1, d, -1) && m1.flat == m.flat
      && TableSlots(m1.mem, d) == TableSlots(m.mem, d) + {v / ENTRIES}
    }

    lemma TableMade(m: Machine, used: set<int>, d: Frame, v: int, t: Frame, flags: bv12)
      requires Sound(m, used) && IsDir(m.roles, d) && 0 <= v < FRAMES && !Present(m.mem[d][v / ENTRIES])
      requires frames.Manages(t) && t !in used
      ensures TableReady(m, used, WithTable(m, d, v / ENTRIES, t, flags), used + {t}, d, v, flags)
    {
      WalkFrame(m.mem, kernel, m.roles, d, v);
      if UserPage(v) {
        TableSet(m, used, d, v / ENTRIES, t, flags);
        assert d != t;
      }
    }

    lemma TableOpened(m: Machine, used: set<int>, d: Frame, v: int, flags: bv12)
      requires Sound(m, used) && IsDir(m.roles, d) && 0 <= v < FRAMES && Present(m.mem[d][v / ENTRIES])
      requires flags & USER != 0 && m.mem[d][v / ENTRIES].flags & USER == 0
      ensures TableReady(m, used, WithUserBit(m, d, v / ENTRIES), used, d, v, flags)
    {
      WalkFrame(m.mem, kernel, m.roles, d, v);
      if UserPage(v) {
        UserBitSet(m, used, d, v / ENTRIES);
      } else {
        var before, after := m.mem[d][v / ENTRIES].flags, m.mem[d][v / ENTRIES].flags | USER;
        assert after & USER != 0 && (before & PRESENT != 0 ==> after & PRESENT != 0);
      }
    }

    lemma TableFound(m: Machine, used: set<int>, d: Frame, v: int, flags: bv12)
      requires Sound(m, used) && IsDir(m.roles, d) && 0 <= v < FRAMES && Present(m.mem[d][v / ENTRIES])
      requires flags & USER == 0 || m.mem[d][v / ENTRIES].flags & USER != 0
      ensures TableReady(m, used, m, used, d, v, flags)
    {
      WalkFrame(m.mem, kernel, m.roles, d, v);
      KeepsSelf(m, used, d);
    }

    /** Outside the user slots. */
    ghost predicate KernelTabled(m: Machine, used: set<int>, m1: Machine, used1: set<int>, d: Frame, v: int,
                                 flags: bv12)
      requires 0 <= v < FRAMES
    {
      && m1.roles == m.roles && m1.flat == m.flat && used <= used1 && Present(m1.mem[d][v / ENTRIES])
      && if Takes(m.mem, d, v, flags) then m1 == m && used1 == used
         else m1.mem[d][v / ENTRIES] != m.mem[d][v / ENTRIES] && m1.mem[d][v / ENTRIES].frame != d
    }

    /** A mapping outside the user slots: it shows in d, and the tables stay in order exactly when
        the slot takes it. */
    lemma KernelMapped(m: Machine, used: set<int>, m1: Machine, used1: set<int>, d: Frame, v: int, w: Word, flags: bv12)
      requires Sound(m, used) && IsDir(m.roles, d) && 0 <= v < FRAMES && !UserPage(v) && Present(w)
      requires KernelTabled(m, used, m1, used1, d, v, flags)
      ensures Walk(WithEntry(m1, d, v, w).mem, d, v) == Some(w)
      ensures Sound(WithEntry(m1, d, v, w), used1) <==> Takes(m.mem, d, v, flags)
    {
      var m', i := WithEntry(m1, d, v, w), v / ENTRIES;
      assert SlotOk(m.mem, kernel, m.roles, d, i);
      WalkFrame(m.mem, kernel, m.roles, d, v);
      if Takes(m.mem, d, v, flags) {
        KernelEntryWrite(m.mem, kernel, m.roles, m.mem[d][i].frame, m'.mem[m.mem[d][i].frame], m'.mem);
        forall d', v' | IsDir(m.roles, d') && UserPage(v')
          ensures Walk(m'.mem, d', v') == if (d', v') in m'.flat then Some(m'.flat[(d', v')]) else None
        {
          assert Walk(m'.mem, d', v') == Walk(m.mem, d', v');
        }
      } else {
        assert !SlotOk(m'.mem, kernel, m'.roles, d, i);
      }
    }

    /** The first half of page_map: the table of page v is found, opened to user mode or made. */
    method TableFor(d: Frame, v: int, flags: bv12) returns (ok: bool)
      requires Valid() && IsDir(m.roles, d) && 0 <= v < FRAMES
      modifies this`m, frames, frames.bitmap
      ensures frames.Valid() && (ok <==> old(Present(m.mem[d][v / ENTRIES])) || old(frames.FreeCount()) > 0)
      ensures !ok ==> m == old(m) && frames.used == old(frames.used)
      ensures ok ==> TableReady(old(m), old(frames.used), m, frames.used, d, v, flags)
      ensures ok ==>
        frames.FreeCount() == old(frames.FreeCount()) - if old(Present(m.mem[d][v / ENTRIES])) then 0 else 1
    {
      var i := v / ENTRIES;
      if !Present(m.mem[d][i]) {
        var t := frames.Alloc();
        if t == 0 {
          return false;
        }
        TableMade(m, old(frames.used), d, v, t, flags);
        m := WithTable(m, d, i, t, flags);
      } else if flags & USER != 0 && m.mem[d][i].flags & USER == 0 {
        TableOpened(m, frames.used, d, v, flags);
        m := WithUserBit(m, d, i);
      } else {
        TableFound(m, frames.used, d, v, flags);
      }
      ok := true;
    }

    /** page_map.  Outside the user slots it writes a table all directories share, or makes one the
        kernel does not know of. */
    method PageMap(d: Frame, va: U32, pa: U32, flags: bv12) returns (ok: bool)
      requires Valid() && IsDir(m.roles, d)
      modifies this`m, frames, frames.bitmap
      ensures ok <==> va % 4096 == 0 && pa % 4096 == 0 &&
                      (old(Present(m.mem[d][va / 4096 / ENTRIES])) || old(frames.FreeCount()) > 0)
      ensures !ok ==> m == old(m) && frames.used == old(frames.used)
      ensures Valid() <==> ok ==> Takes(old(m).mem, d, va / 4096, flags)
      ensures ok ==> Walk(m.mem, d, va / 4096) == Some(MapEntry(pa / 4096, flags))
      ensures ok ==>
        frames.FreeCount() == old(frames.FreeCount()) - if old(Present(m.mem[d][va / 4096 / ENTRIES])) then 0 else 1
      ensures ok && UserPage(va / 4096) ==>
        && m.flat == old(m).flat[(d, va / 4096) := MapEntry(pa / 4096, flags)]
        && Keeps(old(m), old(frames.used), m, frames.used, d, va / 4096)
        && TableSlots(m.mem, d) == TableSlots(old(m).mem, d) + {va / 4096 / ENTRIES}
    {
      if va % 4096 != 0 || pa % 4096 != 0 {
        return false;
      }
      var v, w := va / 4096, MapEntry(pa / 4096, flags);
      ok := TableFor(d, v, flags);
      if !ok {
        return;
      }
      if UserPage(v) {
        EntrySetAfter(old(m), old(frames.used), m, frames.used, d, v, w);
      } else {
        KernelMapped(old(m), old(frames.used), m, frames.used, d, v, w, flags);
      }
      m := WithEntry(m, d, v, w);
    }

    /** page_get_phys: 0 when the page is not mapped. */
    method PageGetPhys(d: Frame, va: U32) returns (pa: int)
      ensures pa == match Walk(m.mem, d, va / 4096)
                    case None => 0
                    case Some(w) => w.frame * 4096 + va % 4096
    {
      var pde := m.mem[d][va / 4096 / ENTRIES];
      if !Present(pde) {
        return 0;
      }
      var pte := m.mem[pde.frame][va / 4096 % ENTRIES];
      if !Present(pte) {
        return 0;
      }
      pa := pte.frame * 4096 + va % 4096;
    }

    /** What page_map installs is what page_get_phys finds, offset included. */
    method MapThenTranslate(d: Frame, va: U32, pa: U32, flags: bv12, offset: int) returns (ok: bool, phys: int)
      requires Valid() && IsDir(m.roles, d) && 0 <= offset < 4096
      modifies this`m, frames, frames.bitmap
      ensures ok ==> phys == pa + offset
    {
      ok := PageMap(d, va, pa, flags);
      phys := 0;
      if ok {
        assert (va + offset) / 4096 == va / 4096 && (va + offset) % 4096 == offset;
        phys := PageGetPhys(d, va + offset);
      }
    }

    // ----- private pages -----

    ghost predicate Good()
      reads this, frames, frames.bitmap
    {
      Valid() && Apart(m, frames.used)
    }

    /** Mapping a data frame keeps user pages apart from everything else, and what they show. */
    lemma MappedApart(m: Machine, used: set<int>, m': Machine, used': set<int>, d: Frame, v: int, w: Word)
      requires Apart(m, used) && Keeps(m, used, m', used', d, v) && m'.flat == m.flat[(d, v) := w]
      requires DataFrame(m, used, w.frame)
      ensures Apart(m', used') && KeepsFrames(View(m), View(m'), -1) && Dirs(m'.roles) == Dirs(m.roles)
      ensures m'.mem[w.frame] == m.mem[w.frame]
    {
      forall k | k in m.flat ensures m'.mem[m.flat[k].frame] == m.mem[m.flat[k].frame] {
        assert DataFrame(m, used, m.flat[k].frame);
      }
    }

    /** Mapping a frame that was free. */
    lemma MappedFresh(m: Machine, used: set<int>, m': Machine, used': set<int>, d: Frame, v: int, w: Word)
      requires Sound(m, used) && Apart(m, used) && IsDir(m.roles, d) && frames.Manages(w.frame) && w.frame !in used
      requires Keeps(m, used + {w.frame}, m', used', d, v) && m'.flat == m.flat[(d, v) := w]
      ensures AllocStep(View(m), d, v, w, m.mem[w.frame], View(m'))
    {
      MappedApart(m, used + {w.frame}, m', used', d, v, w);
      forall k | k in m.flat ensures m.flat[k].frame != w.frame {
        assert DataFrame(m, used, m.flat[k].frame);
      }
    }

    /** Taking a frame disturbs nothing, and it may be mapped. */
    lemma MoreUsed(m: Machine, used: set<int>, f: Frame)
      requires Sound(m, used) && Apart(m, used) && frames.Manages(f) && f !in used
      ensures Sound(m, used + {f}) && Apart(m, used + {f}) && DataFrame(m, used + {f}, f)
    {
      forall k | k in m.flat ensures DataFrame(m, used + {f}, m.flat[k].frame) {
        assert DataFrame(m, used, m.flat[k].frame);
      }
    }

    /** page_map of a data frame in the user range. */
    method MapData(d: Frame, va: U32, pa: U32, flags: bv12) returns (ok: bool)
      requires Good() && IsDir(m.roles, d) && UserPage(va / 4096) && pa % 4096 == 0
      requires DataFrame(m, frames.used, pa / 4096)
      modifies this`m, frames, frames.bitmap
      ensures Good()
      ensures ok <==> va % 4096 == 0 && (old(Present(m.mem[d][va / 4096 / ENTRIES])) || old(frames.FreeCount()) > 0)
      ensures !ok ==> m == old(m) && frames.used == old(frames.used)
      ensures ok ==> m.flat == old(m).flat[(d, va / 4096) := MapEntry(pa / 4096, flags)]
      ensures ok ==> Keeps(old(m), old(frames.used), m, frames.used, d, va / 4096)
      ensures ok ==> TableSlots(m.mem, d) == TableSlots(old(m).mem, d) + {va / 4096 / ENTRIES}
      ensures ok ==>
        frames.FreeCount() == old(frames.FreeCount()) - if old(Present(m.mem[d][va / 4096 / ENTRIES])) then 0 else 1
    {
      ok := PageMap(d, va, pa, flags);
      if ok {
        MappedApart(old(m), old(frames.used), m, frames.used, d, va / 4096, MapEntry(pa / 4096, flags));
      }
    }

    /** The frames a new page at v takes: its own, and that of a table if the slot has none. */
    ghost function PageCost(mem: Memory, d: Frame, v: int): int
      requires 0 <= v < FRAMES
    {
      if Present(mem[d][v / ENTRIES]) then 1 else 2
    }

    /** paging_alloc_user_page. The frame is handed over with whatever it last held. */
    method AllocUserPage(d: Frame, va: U32, flags: bv12) returns (ok: bool, ghost f: int)
      requires Good() && IsDir(m.roles, d) && (UserPage(va / 4096) || va / 4096 >= KERNEL_PD_INDEX * ENTRIES)
      modifies this`m, frames, frames.bitmap
      ensures Good()
      ensures ok <==>
        UserPage(va / 4096) && va % 4096 == 0 && PageCost(old(m).mem, d, va / 4096) <= old(frames.FreeCount())
      ensures !ok ==> m == old(m) && frames.used == old(frames.used)
      ensures ok ==> 0 < f < FRAMES && old(frames.Free(f))
      ensures ok ==> AllocStep(View(old(m)), d, va / 4096, MapEntry(f, flags | USER), old(m).mem[f], View(m))
      ensures ok ==> Keeps(old(m), old(frames.used) + {f}, m, frames.used, d, va / 4096)
      ensures ok ==> frames.FreeCount() == old(frames.FreeCount()) - PageCost(old(m).mem, d, va / 4096)
    {
      if va / 4096 >= KERNEL_PD_INDEX * ENTRIES {
        return false, 0;
      }
      var frame := frames.Alloc();
      f := frame;
      if frame == 0 {
        return false, f;
      }
      MoreUsed(m, old(frames.used), frame);
      ok := MapData(d, va, frame * 4096, flags | USER);
      if ok {
        MappedFresh(old(m), old(frames.used), m, frames.used, d, va / 4096, MapEntry(f, flags | USER));
      } else {
        frames.Release(frame);
        assert frames.used == old(frames.used);
      }
    }

    // ----- directories -----

    function WithDirectory(m: Machine, d: Frame): Machine {
      Machine(m.mem[d := NewDirectory(kernel)], m.roles[d := Directory], m.flat)
    }

    lemma DirectorySet(m: Machine, used: set<int>, d: Frame)
      requires Sound(m, used) && Apart(m, used) && frames.Manages(d) && d !in used
      ensures Sound(WithDirectory(m, d), used + {d}) && Apart(WithDirectory(m, d), used + {d})
      ensures CreateStep(View(m), d, View(WithDirectory(m, d)))
    {
      DirectorySound(m, used, d);
      DirectoryCreates(m, used, d);
    }

    lemma DirectorySound(m: Machine, used: set<int>, d: Frame)
      requires Sound(m, used) && frames.Manages(d) && d !in used
      ensures Sound(WithDirectory(m, d), used + {d})
    {
      var m' := WithDirectory(m, d);
      DirectoryAdd(m.mem, kernel, m.roles, d, m'.mem);
      forall d', v' | IsDir(m'.roles, d') && UserPage(v')
        ensures Walk(m'.mem, d', v') == if (d', v') in m'.flat then Some(m'.flat[(d', v')]) else None
      {
        assert d' != d ==> Walk(m'.mem, d', v') == Walk(m.mem, d', v');
      }
    }

    lemma DirectoryCreates(m: Machine, used: set<int>, d: Frame)
      requires Sound(m, used) && Apart(m, used) && frames.Manages(d) && d !in used
      ensures Apart(WithDirectory(m, d), used + {d}) && CreateStep(View(m), d, View(WithDirectory(m, d)))
    {
      var m' := WithDirectory(m, d);
      assert Dirs(m'.roles) == Dirs(m.roles) + {d};
      forall k | k in m.flat
        ensures m'.mem[m.flat[k].frame] == m.mem[m.flat[k].frame] && DataFrame(m', used + {d}, m.flat[k].frame)
      {
        assert DataFrame(m, used, m.flat[k].frame);
      }
    }

    /** page_directory_create; 0 when no frame is left. */
    method CreateDirectory() returns (d: Frame)
      requires Good()
      modifies this`m, frames, frames.bitmap
      ensures Good()
      ensures d != 0 <==> old(frames.FreeCount()) > 0
      ensures d == 0 ==> m == old(m) && frames.used == old(frames.used)
      ensures d != 0 ==> old(frames.Free(d)) && frames.used == old(frames.used) + {d} && m == WithDirectory(old(m), d)
      ensures d != 0 ==> CreateStep(View(old(m)), d, View(m)) && frames.FreeCount() == old(frames.FreeCount()) - 1
    {
      var f := frames.Alloc();
      if f == 0 {
        return 0;
      }
      d := f;
      DirectorySet(m, old(frames.used), d);
      m := WithDirectory(m, d);
    }

    // ----- user stores -----

    /** Memory with frame f replaced. */
    function WithFrame(m: Machine, f: Frame, page: Page): Machine {
      Machine(m.mem[f := page], m.roles, m.flat)
    }

    lemma FrameSet(m: Machine, used: set<int>, f: Frame, page: Page)
      requires Sound(m, used) && f !in m.roles
      ensures Sound(WithFrame(m, f, page), used)
    {
      DataWrite(m.mem, kernel, m.roles, f, page);
      var m' := WithFrame(m, f, page);
      forall d, v | IsDir(m.roles, d) && UserPage(v)
        ensures Walk(m'.mem, d, v) == if (d, v) in m'.flat then Some(m'.flat[(d, v)]) else None
      {
        assert Walk(m'.mem, d, v) == Walk(m.mem, d, v);
      }
    }

    /** Copying a page to frame f and pointing its entry there. */
    lemma PageMoved(m: Machine, used: set<int>, d: Frame, v: int, f: Frame)
      requires Sound(m, used) && Apart(m, used) && (d, v) in m.flat && Cow(m.flat[(d, v)])
      requires Present(m.mem[d][v / ENTRIES])
      requires frames.Manages(f) && f !in used && Present(m.flat[(d, v)])
      ensures var w := m.flat[(d, v)]; var m' := WithEntry(WithFrame(m, f, m.mem[w.frame]), d, v, Privatize(w, f));
        Sound(m', used + {f}) && Apart(m', used + {f}) && FaultStep(View(m), (d, v), f, View(m'))
    {
      var w := m.flat[(d, v)];
      var m1 := WithFrame(m, f, m.mem[w.frame]);
      FrameSet(m, used + {f}, f, m.mem[w.frame]);
      assert f != d;
      EntrySet(m1, used + {f}, d, v, Privatize(w, f));
      MappedApart(m1, used + {f}, WithEntry(m1, d, v, Privatize(w, f)), used + {f}, d, v, Privatize(w, f));
    }

    /** The copy-on-write branch of page_fault_handler: false when no frame is left. */
    method CowFault(d: Frame, v: int) returns (ok: bool, ghost f: int)
      requires Good() && (d, v) in m.flat && Cow(m.flat[(d, v)])
      modifies this`m, frames, frames.bitmap
      ensures Good()
      ensures ok <==> old(frames.FreeCount()) > 0
      ensures !ok ==> m == old(m) && frames.used == old(frames.used)
      ensures ok ==> 0 < f < FRAMES && FaultStep(View(old(m)), (d, v), f, View(m))
      ensures ok ==> frames.FreeCount() == old(frames.FreeCount()) - 1
    {
      var frame := frames.Alloc();
      f := frame;
      if frame == 0 {
        return false, f;
      }
      assert Walk(m.mem, d, v) == Some(m.flat[(d, v)]);
      var pte := m.mem[m.mem[d][v / ENTRIES].frame][v % ENTRIES];
      PageMoved(m, old(frames.used), d, v, frame);
      m := WithEntry(WithFrame(m, frame, m.mem[pte.frame]), d, v, Privatize(pte, frame));
      ok := true;
    }

    /** A store the hardware lets through. */
    method StoreWord(d: Frame, v: int, i: int, x: Word)
      requires Good() && (d, v) in m.flat && 0 <= i < ENTRIES
      modifies this`m
      ensures Good() && StoreStep(View(old(m)), (d, v), i, x, View(m))
    {
      assert Walk(m.mem, d, v) == Some(m.flat[(d, v)]);
      var f := m.mem[m.mem[d][v / ENTRIES].frame][v % ENTRIES].frame;
      FrameSet(m, frames.used, f, m.mem[f][i := x]);
      m := WithFrame(m, f, m.mem[f][i := x]);
    }

    /** The frames a store to place k takes: one for the copy, if it is to be made. */
    ghost function StoreCost(m: Machine, k: Place): int {
      if k in m.flat && Cow(m.flat[k]) && !Writable(m.flat[k]) then 1 else 0
    }

    /** A 32-bit user store: directly, after a copy-on-write fault, or refused. */
    method UserWrite(d: Frame, va: U32, x: Word) returns (oom: bool)
      requires Good() && IsDir(m.roles, d) && UserPage(va / 4096)
      modifies this`m, frames, frames.bitmap
      ensures Good()
      ensures oom <==> old(frames.FreeCount()) < StoreCost(old(m), (d, va / 4096))
      ensures oom ==> m == old(m) && frames.used == old(frames.used)
      ensures !oom ==> frames.FreeCount() == old(frames.FreeCount()) - StoreCost(old(m), (d, va / 4096))
      ensures !oom ==> Step(View(old(m)), Write(d, va / 4096, va % 4096 / 4, x), View(m))
    {
      oom := false;
      frames.Fits();
      var v, i := va / 4096, va % 4096 / 4;
      assert Walk(m.mem, d, v) == if (d, v) in m.flat then Some(m.flat[(d, v)]) else None;
      var pde := m.mem[d][v / ENTRIES];
      if !Present(pde) {
        return;
      }
      var w := m.mem[pde.frame][v % ENTRIES];
      if !Present(w) || !(Writable(w) || Cow(w)) {
        return;
      }
      if !Writable(w) {
        var ok, f := CowFault(d, v);
        if !ok {
          return true;
        }
        ghost var m1 := m;
        StoreWord(d, v, i, x);
        FaultThenStore(View(old(m)), (d, v), f, View(m1), i, x, View(m));
      } else {
        StoreWord(d, v, i, x);
      }
    }

    // ----- fork -----

    /** A writable entry of the parent becomes read-only and copy-on-write. */
    method MarkEntry(p: Frame, v: int, ghost q: Frame) returns (pte: Word)
      requires Good() && (p, v) in m.flat && IsDir(m.roles, q)
      modifies this`m
      ensures Good() && Preserves(old(m), frames.used, m, frames.used, q)
      ensures pte == old(m).flat[(p, v)] && m.flat == old(m).flat[(p, v) := MarkCow(pte)] && m.roles == old(m).roles
      ensures m.mem[q] == old(m).mem[q]
    {
      assert Walk(m.mem, p, v) == Some(m.flat[(p, v)]);
      pte := m.mem[m.mem[p][v / ENTRIES].frame][v % ENTRIES];
      if Writable(pte) {
        EntrySet(m, frames.used, p, v, MarkCow(pte));
        MappedApart(m, frames.used, WithEntry(m, p, v, MarkCow(pte)), frames.used, p, v, MarkCow(pte));
        m := WithEntry(m, p, v, MarkCow(pte));
      }
    }

    /** Marking the parent's entry and then mapping the child's. */
    lemma PageShared(m: Machine, used: set<int>, m1: Machine, m2: Machine, used2: set<int>, q: Frame, v: int)
      requires Preserves(m, used, m1, used, q) && Keeps(m1, used, m2, used2, q, v)
      ensures Preserves(m, used, m2, used2, q)
    {
      PreservesTwice(m, used, m1, used, m2, used2, q);
    }

    /** The loop body of page_directory_copy_cow for a present entry. */
    method ShareEntry(p: Frame, q: Frame, v: int) returns (ok: bool)
      requires Good() && (p, v) in m.flat && IsDir(m.roles, q) && p != q
      modifies this`m, frames, frames.bitmap
      ensures Good() && Preserves(old(m), old(frames.used), m, frames.used, q)
      ensures ok <==> v / ENTRIES in TableSlots(old(m).mem, q) || old(frames.FreeCount()) > 0
      ensures var w := old(m).flat[(p, v)]; var m1 := old(m).flat[(p, v) := MarkCow(w)];
              m.flat == if ok then m1[(q, v) := ShareCow(w)] else m1
      ensures TableSlots(m.mem, q) == TableSlots(old(m).mem, q) + if ok then {v / ENTRIES} else {}
      ensures frames.FreeCount() ==
        old(frames.FreeCount()) - if ok && v / ENTRIES !in TableSlots(old(m).mem, q) then 1 else 0
    {
      var pte := MarkEntry(p, v, q);
      ghost var m1 := m;
      assert TableSlots(m1.mem, q) == TableSlots(old(m).mem, q);
      var va, pa := v * 4096, pte.frame * 4096;
      assert va / 4096 == v && pa / 4096 == pte.frame;
      assert DataFrame(m, frames.used, m.flat[(p, v)].frame);
      ok := MapData(q, va, pa, CowFlags(pte));
      if ok {
        PageShared(old(m), old(frames.used), m1, m, frames.used, q, v);
      }
    }

    /** The number of tables that can be made while `used` are taken. */
    ghost function Room(used: set<int>): int { frames.totalFrames - |used| }

    ghost function Progressed(m: Machine, used0: set<int>, used: set<int>, q: Frame): Progress {
      Progress(m.flat, TableSlots(m.mem, q), |used| - |used0|)
    }

    /** The state of page_directory_copy_cow when it has passed the pages below c. */
    ghost predicate Forking(m0: Machine, used0: set<int>, m: Machine, used: set<int>, p: Frame, q: Frame, c: nat) {
      && Sound(m, used) && Apart(m, used)
      && Preserves(m0, used0, m, used, q)
      && Progressed(m, used0, used, q) == Visited(m0.flat, p, q, c, Room(used0))
    }

    /** One round of the inner loop of page_directory_copy_cow: entry j of the table t of slot i. */
    method SharePage(p: Frame, q: Frame, i: int, j: int, t: Frame, ghost m0: Machine, ghost used0: set<int>)
      requires IsDir(m0.roles, p) && IsDir(m0.roles, q) && p != q
      requires UserSlot(i) && 0 <= j < ENTRIES && t in m0.roles && m0.roles[t] == Table(p, i)
      requires frames.Valid() && Forking(m0, used0, m, frames.used, p, q, i * ENTRIES + j)
      modifies this`m, frames, frames.bitmap
      ensures frames.Valid() && Forking(m0, used0, m, frames.used, p, q, i * ENTRIES + j + 1)
    {
      var v := i * ENTRIES + j;
      EntryAt(m, frames.used, p, i, j, t);
      if Present(m.mem[t][j]) {
        ghost var m1, used1 := m, frames.used;
        var ok := ShareEntry(p, q, v);
        ForkingNext(m0, used0, m1, used1, m, frames.used, p, q, v, ok);
      }
    }

    /** Word w is what the flat map says of page v. */
    ghost predicate EntryShows(m: Machine, d: Frame, v: int, w: Word) {
      if Present(w) then (d, v) in m.flat && m.flat[(d, v)] == w && Owned(w) else (d, v) !in m.flat
    }

    /** Entry j of slot i's table is what the flat map says of page i * 1024 + j. */
    lemma EntryAt(m: Machine, used: set<int>, d: Frame, i: int, j: int, t: Frame)
      requires Sound(m, used) && IsDir(m.roles, d) && UserSlot(i) && 0 <= j < ENTRIES && t in m.roles
      requires m.roles[t] == Table(d, i)
      ensures EntryShows(m, d, i * ENTRIES + j, m.mem[t][j])
    {
      var v := i * ENTRIES + j;
      assert v / ENTRIES == i && v % ENTRIES == j;
      assert Linked(m.mem, m.roles, t);
      assert Walk(m.mem, d, v) == if (d, v) in m.flat then Some(m.flat[(d, v)]) else None;
    }

    /** What sharing page v makes of m1. */
    ghost predicate Shared(m1: Machine, used1: set<int>, m: Machine, used: set<int>, p: Frame, q: Frame, v: nat,
                           ok: bool) {
      && (p, v) in m1.flat && (ok <==> v / ENTRIES in TableSlots(m1.mem, q) || Room(used1) > 0)
      && (var w := m1.flat[(p, v)];
          var f := m1.flat[(p, v) := MarkCow(w)];
          m.flat == if ok then f[(q, v) := ShareCow(w)] else f)
      && TableSlots(m.mem, q) == TableSlots(m1.mem, q) + (if ok then {v / ENTRIES} else {})
      && Room(used) == Room(used1) - if ok && v / ENTRIES !in TableSlots(m1.mem, q) then 1 else 0
    }

    lemma SharedVisits(used0: set<int>, m1: Machine, used1: set<int>, m: Machine, used: set<int>, p: Frame, q: Frame,
                       v: nat, ok: bool)
      requires Shared(m1, used1, m, used, p, q, v, ok)
      ensures Progressed(m, used0, used, q) == Visit(Progressed(m1, used0, used1, q), p, q, v, Room(used0))
    {
    }

    lemma ForkingNext(m0: Machine, used0: set<int>, m1: Machine, used1: set<int>, m: Machine, used: set<int>,
                      p: Frame, q: Frame, v: nat, ok: bool)
      requires Forking(m0, used0, m1, used1, p, q, v) && Shared(m1, used1, m, used, p, q, v, ok)
      requires Sound(m, used) && Apart(m, used) && Preserves(m1, used1, m, used, q)
      ensures Forking(m0, used0, m, used, p, q, v + 1)
    {
      PreservesTwice(m0, used0, m1, used1, m, used, q);
      SharedVisits(used0, m1, used1, m, used, p, q, v, ok);
    }

    /** One round of its outer loop. */
    method ShareSlot(p: Frame, q: Frame, i: int, ghost m0: Machine, ghost used0: set<int>)
      requires IsDir(m0.roles, p) && IsDir(m0.roles, q) && p != q && 0 <= i < KERNEL_PD_INDEX
      requires frames.Valid() && Forking(m0, used0, m, frames.used, p, q, i * ENTRIES)
      modifies this`m, frames, frames.bitmap
      ensures frames.Valid() && Forking(m0, used0, m, frames.used, p, q, (i + 1) * ENTRIES)
    {
      var pde := m.mem[p][i];
      SlotForked(m0, used0, m, frames.used, p, q, i);
      if Present(pde) && Owned(pde) {
        ShareTable(p, q, i, pde.frame, m0, used0);
      }
    }

    /** A slot without an own table has no pages to share. */
    lemma SlotForked(m0: Machine, used0: set<int>, m: Machine, used: set<int>, p: Frame, q: Frame, i: int)
      requires IsDir(m0.roles, p) && p != q && 0 <= i < KERNEL_PD_INDEX
      requires Forking(m0, used0, m, used, p, q, i * ENTRIES)
      ensures var e := m.mem[p][i];
        if Present(e) && Owned(e) then UserSlot(i) && e.frame in m0.roles && m0.roles[e.frame] == Table(p, i)
        else Forking(m0, used0, m, used, p, q, (i + 1) * ENTRIES)
    {
      SlotKind(m, used, p, i);
      var e := m.mem[p][i];
      if !(Present(e) && Owned(e)) {
        VisitedSkip(m0.flat, p, q, i * ENTRIES, (i + 1) * ENTRIES, Room(used0));
      }
    }

    /** The inner loop. */
    method ShareTable(p: Frame, q: Frame, i: int, t: Frame, ghost m0: Machine, ghost used0: set<int>)
      requires IsDir(m0.roles, p) && IsDir(m0.roles, q) && p != q
      requires UserSlot(i) && t in m0.roles && m0.roles[t] == Table(p, i)
      requires frames.Valid() && Forking(m0, used0, m, frames.used, p, q, i * ENTRIES)
      modifies this`m, frames, frames.bitmap
      ensures frames.Valid() && Forking(m0, used0, m, frames.used, p, q, (i + 1) * ENTRIES)
    {
      for j := 0 to ENTRIES
        invariant frames.Valid() && Forking(m0, used0, m, frames.used, p, q, i * ENTRIES + j)
      {
        SharePage(p, q, i, j, t, m0, used0);
      }
    }

    /** A slot below the kernel half either leads to an own table or to no user page. */
    lemma SlotKind(m: Machine, used: set<int>, p: Frame, i: int)
      requires Sound(m, used) && IsDir(m.roles, p) && 0 <= i < KERNEL_PD_INDEX
      ensures var e := m.mem[p][i];
        if Present(e) && Owned(e) then UserSlot(i) && e.frame in m.roles && m.roles[e.frame] == Table(p, i)
        else forall v :: i * ENTRIES <= v < (i + 1) * ENTRIES ==> (p, v) !in m.flat
    {
      assert SlotOk(m.mem, kernel, m.roles, p, i);
      forall v | !(Present(m.mem[p][i]) && Owned(m.mem[p][i])) && i * ENTRIES <= v < (i + 1) * ENTRIES
        ensures (p, v) !in m.flat
      {
        if UserPage(v) {
          WalkFrame(m.mem, kernel, m.roles, p, v);
          assert Walk(m.mem, p, v) == None;
        }
      }
    }

    /** A new directory has no tables yet. */
    lemma ForkBegins(m: Machine, used: set<int>, p: Frame, q: Frame)
      requires Sound(m, used) && Apart(m, used) && Room(used) >= 0 && m.mem[q] == NewDirectory(kernel)
      requires forall k :: k in m.flat ==> k.0 != q
      ensures Forking(m, used, m, used, p, q, 0)
    {
      assert TableSlots(m.mem, q) == {};
    }

    /** The two loops of page_directory_copy_cow. */
    method ShareAll(p: Frame, q: Frame)
      requires Good() && IsDir(m.roles, p) && IsDir(m.roles, q) && p != q && m.mem[q] == NewDirectory(kernel)
      requires frames.FreeCount() >= 0 && forall k :: k in m.flat ==> k.0 != q
      modifies this`m, frames, frames.bitmap
      ensures frames.Valid() && Forking(old(m), old(frames.used), m, frames.used, p, q, KERNEL_PD_INDEX * ENTRIES)
    {
      ghost var m0, used0 := m, frames.used;
      ForkBegins(m, frames.used, p, q);
      for i := 0 to KERNEL_PD_INDEX
        invariant frames.Valid() && Forking(m0, used0, m, frames.used, p, q, i * ENTRIES)
      {
        ShareSlot(p, q, i, m0, used0);
      }
    }

    /** The frames a fork of p takes: one for the directory, one per slot of p that holds a page. */
    ghost function ForkCost(m: Machine, p: Frame): int {
      1 + |PageSlots(m.flat, p, KERNEL_PD_INDEX * ENTRIES)|
    }

    /** What the whole loop leaves: the entries. */
    lemma ForkFinished(m: Machine, used: set<int>, p: Frame, q: Frame, m': Machine, used': set<int>)
      requires Sound(m, used) && Apart(m, used) && IsDir(m.roles, p) && frames.Manages(q) && q !in used
      requires Room(used) > 0
      requires Forking(WithDirectory(m, q), used + {q}, m', used', p, q, KERNEL_PD_INDEX * ENTRIES)
      ensures ForkStep(View(m), p, q, View(m')) <==> ForkCost(m, p) <= Room(used)
      ensures IsDir(m'.roles, q) && Dirs(m'.roles) == Dirs(m.roles) + {q}
    {
      var m0, used0 := WithDirectory(m, q), used + {q};
      assert Room(used0) == Room(used) - 1;
      DirectorySet(m, used, q);
      ForkDone(m.flat, p, q, KERNEL_PD_INDEX * ENTRIES, Room(used0));
      assert Dirs(m'.roles) == Dirs(m0.roles) == Dirs(m.roles) + {q};
      forall k | k in m.flat ensures m'.mem[m.flat[k].frame] == m.mem[m.flat[k].frame] {
        assert DataFrame(m0, used0, m0.flat[k].frame);
      }
    }

    /** And the frames. */
    lemma ForkTakes(m: Machine, used: set<int>, p: Frame, q: Frame, m': Machine, used': set<int>)
      requires Sound(m, used) && IsDir(m.roles, p) && q !in m.roles && q !in used && Room(used) > 0
      requires Progressed(m', used + {q}, used', q) ==
        Visited(m.flat, p, q, KERNEL_PD_INDEX * ENTRIES, Room(used + {q}))
      ensures Room(used') == if ForkCost(m, p) <= Room(used) then Room(used) - ForkCost(m, p) else 0
      ensures PartlyForked(m.flat, m'.flat, p, q, KERNEL_PD_INDEX * ENTRIES, ReachedPages(m.flat, p, Room(used) - 1))
    {
      var c, n := KERNEL_PD_INDEX * ENTRIES, Room(used) - 1;
      assert Room(used + {q}) == n;
      VisitedTables(m.flat, p, q, c, n);
      VisitedEntries(m.flat, p, q, c, n);
      assert |used'| - |used + {q}| == Visited(m.flat, p, q, c, n).taken;
    }

    /** What fork makes of m: a whole copy exactly when the frames suffice, and otherwise the pages
        of the first slots, as many as there are frames for. */
    ghost predicate Forked(m: Machine, used: set<int>, p: Frame, q: Frame, m': Machine, used': set<int>) {
      && PartlyForked(m.flat, m'.flat, p, q, KERNEL_PD_INDEX * ENTRIES, ReachedPages(m.flat, p, Room(used) - 1))
      && (ForkStep(View(m), p, q, View(m')) <==> ForkCost(m, p) <= Room(used))
      && IsDir(m'.roles, q) && Dirs(m'.roles) == Dirs(m.roles) + {q}
      && Room(used') == if ForkCost(m, p) <= Room(used) then Room(used) - ForkCost(m, p) else 0
    }

    /** Everything after the new directory q has been made. */
    method Populate(p: Frame, q: Frame, ghost m0: Machine, ghost used0: set<int>)
      requires frames.Valid() && Sound(m0, used0) && Apart(m0, used0) && IsDir(m0.roles, p)
      requires frames.Manages(q) && q !in used0 && m == WithDirectory(m0, q) && frames.used == used0 + {q}
      modifies this`m, frames, frames.bitmap
      ensures Good() && Forked(m0, used0, p, q, m, frames.used)
    {
      frames.Fits();
      DirectorySet(m0, used0, q);
      ShareAll(p, q);
      ForkFinished(m0, used0, p, q, m, frames.used);
      ForkTakes(m0, used0, p, q, m, frames.used);
    }

    /** page_directory_copy_cow; 0 exactly when not even a directory could be made.  A page_map that
        runs out of frames is ignored by the source, so that the child may lack pages. */
    method CopyCow(p: Frame) returns (q: Frame)
      requires Good() && IsDir(m.roles, p)
      modifies this`m, frames, frames.bitmap
      ensures Good()
      ensures q != 0 <==> old(frames.FreeCount()) > 0
      ensures q == 0 ==> m == old(m) && frames.used == old(frames.used)
      ensures q != 0 ==> old(frames.Free(q)) && Forked(old(m), old(frames.used), p, q, m, frames.used)
    {
      q := CreateDirectory();
      if q == 0 {
        return;
      }
      Populate(p, q, old(m), old(frames.used));
    }

    // ----- destruction -----

    /** page_directory_destroy has freed the pages below c and the tables below slot i. */
    ghost predicate Freeing(m: Machine, used0: set<int>, used: set<int>, d: Frame, c: int, i: int) {
      forall f :: f in used <==> f in used0 && !BacksPage(m, d, c, f) && !IsTableOf(m, d, i, f)
    }

    /** No managed frame backs two pages of d below c. */
    ghost predicate Once(m: Machine, d: Frame, c: int) {
      forall v :: v < c && (d, v) in m.flat && frames.Manages(m.flat[(d, v)].frame) ==>
        !BacksPage(m, d, v, m.flat[(d, v)].frame)
    }

    /** The allocator while d is being destroyed: the count is `lost` short, one for every page whose
        frame an earlier page has. */
    ghost predicate Releasing(m: Machine, used0: set<int>, d: Frame, c: int, i: int, lost: nat)
      reads frames, frames.bitmap
    {
      frames.Marks() && Freed(m, used0, frames.used, frames.usedFrames, d, c, i, lost)
    }

    ghost predicate Freed(m: Machine, used0: set<int>, used: set<int>, count: U32, d: Frame, c: int, i: int,
                          lost: nat) {
      Freeing(m, used0, used, d, c, i) && lost <= c && (lost == 0 <==> Once(m, d, c)) && count == Short(|used|, lost)
    }

    /** The frame behind page c is still in use when its turn comes, unless an earlier page has it. */
    lemma PageNext(m: Machine, used0: set<int>, used: set<int>, d: Frame, c: int, i: int)
      requires Apart(m, used0) && Freeing(m, used0, used, d, c, i)
      ensures (d, c) in m.flat ==>
        var f := m.flat[(d, c)].frame;
        && (frames.Manages(f) ==> (f in used <==> !BacksPage(m, d, c, f)))
        && Freeing(m, used0, used - {f}, d, c + 1, i)
        && (Once(m, d, c + 1) <==> Once(m, d, c) && (frames.Manages(f) ==> !BacksPage(m, d, c, f)))
      ensures (d, c) !in m.flat ==> Freeing(m, used0, used, d, c + 1, i) && (Once(m, d, c + 1) <==> Once(m, d, c))
    {
      forall f ensures BacksPage(m, d, c + 1, f) <==> BacksPage(m, d, c, f) || Backs(m, d, c, f) {
        BacksNext(m, d, c, f);
      }
      if (d, c) in m.flat {
        assert DataFrame(m, used0, m.flat[(d, c)].frame);
      }
    }

    /** Releasing the frame of page c. */
    lemma PageFreed(m: Machine, used0: set<int>, used: set<int>, count: U32, d: Frame, c: int, i: int, lost: nat)
      requires Apart(m, used0) && Freed(m, used0, used, count, d, c, i, lost) && (d, c) in m.flat
      requires c < 0x100000 && |used| <= 0x100000 && forall f :: f in used ==> frames.Manages(f)
      ensures var f := m.flat[(d, c)].frame;
        Freed(m, used0, used - {f}, if frames.Manages(f) then Down(count) else count, d, c + 1, i,
              if frames.Manages(f) && f !in used then lost + 1 else lost)
    {
      PageNext(m, used0, used, d, c, i);
      var f := m.flat[(d, c)].frame;
      ShortNext(used, f, lost);
      assert !frames.Manages(f) ==> used - {f} == used;
    }

    /** One round of the inner loop: entry j of the table t of slot i. */
    method FreePage(d: Frame, i: int, j: int, t: Frame, ghost used0: set<int>, ghost lost: nat)
      returns (ghost lost': nat)
      requires UserSlot(i) && 0 <= j < ENTRIES && EntryShows(m, d, i * ENTRIES + j, m.mem[t][j])
      requires Apart(m, used0) && Releasing(m, used0, d, i * ENTRIES + j, i, lost)
      modifies frames, frames.bitmap
      ensures Releasing(m, used0, d, i * ENTRIES + j + 1, i, lost')
    {
      var pte := m.mem[t][j];
      lost' := lost;
      if Present(pte) && Owned(pte) {
        frames.Fits();
        PageFreed(m, used0, frames.used, frames.usedFrames, d, i * ENTRIES + j, i, lost);
        lost' := if frames.Manages(pte.frame) && pte.frame !in frames.used then lost + 1 else lost;
        frames.Release(pte.frame);
      } else {
        PageNext(m, used0, frames.used, d, i * ENTRIES + j, i);
      }
    }

    /** What is left to free once the pages behind slot i are gone. */
    lemma SlotNext(m: Machine, used0: set<int>, used: set<int>, d: Frame, i: int)
      requires Sound(m, used0) && Apart(m, used0) && IsDir(m.roles, d) && 0 <= i < KERNEL_PD_INDEX
      ensures var e := m.mem[d][i];
        if Present(e) && Owned(e) then
          Freeing(m, used0, used, d, (i + 1) * ENTRIES, i) ==>
            (frames.Manages(e.frame) ==> e.frame in used) &&
            Freeing(m, used0, used - {e.frame}, d, (i + 1) * ENTRIES, i + 1)
        else
          (Freeing(m, used0, used, d, i * ENTRIES, i) ==> Freeing(m, used0, used, d, (i + 1) * ENTRIES, i + 1)) &&
          (Once(m, d, (i + 1) * ENTRIES) <==> Once(m, d, i * ENTRIES))
    {
      SlotKind(m, used0, d, i);
      TableNext(m, used0, d, i);
      if Present(m.mem[d][i]) && Owned(m.mem[d][i]) {
        BacksNoTable(m, used0, d, (i + 1) * ENTRIES, m.mem[d][i].frame);
      } else {
        assert forall f :: BacksPage(m, d, (i + 1) * ENTRIES, f) <==> BacksPage(m, d, i * ENTRIES, f);
      }
    }

    /** One round of the outer loop. */
    method FreeSlot(d: Frame, i: int, ghost used0: set<int>, ghost lost: nat) returns (ghost lost': nat)
      requires Sound(m, used0) && Apart(m, used0) && IsDir(m.roles, d)
      requires 0 <= i < KERNEL_PD_INDEX && Releasing(m, used0, d, i * ENTRIES, i, lost)
      modifies frames, frames.bitmap
      ensures Releasing(m, used0, d, (i + 1) * ENTRIES, i + 1, lost')
    {
      lost' := lost;
      var pde := m.mem[d][i];
      if !Present(pde) || !Owned(pde) {
        SlotNext(m, used0, frames.used, d, i);
        return;
      }
      SlotKind(m, used0, d, i);
      var t := pde.frame;
      lost' := FreePages(d, i, t, used0, lost);
      SlotNext(m, used0, frames.used, d, i);
      frames.Fits();
      ShortNext(frames.used, t, lost');
      frames.Release(t);
    }

    /** The inner loop. */
    method FreePages(d: Frame, i: int, t: Frame, ghost used0: set<int>, ghost lost: nat) returns (ghost lost': nat)
      requires Sound(m, used0) && Apart(m, used0) && IsDir(m.roles, d)
      requires UserSlot(i) && t in m.roles && m.roles[t] == Table(d, i) && Releasing(m, used0, d, i * ENTRIES, i, lost)
      modifies frames, frames.bitmap
      ensures Releasing(m, used0, d, (i + 1) * ENTRIES, i, lost')
    {
      lost' := lost;
      for j := 0 to ENTRIES
        invariant Releasing(m, used0, d, i * ENTRIES + j, i, lost')
      {
        EntryAt(m, used0, d, i, j, t);
        lost' := FreePage(d, i, j, t, used0, lost');
      }
    }

    /** The table of slot i, if any, is the one the directory entry names. */
    lemma TableNext(m: Machine, used: set<int>, d: Frame, i: int)
      requires Sound(m, used) && IsDir(m.roles, d) && 0 <= i < KERNEL_PD_INDEX
      ensures forall f :: IsTableOf(m, d, i + 1, f) <==>
        IsTableOf(m, d, i, f) || (Present(m.mem[d][i]) && Owned(m.mem[d][i]) && f == m.mem[d][i].frame)
    {
      SlotKind(m, used, d, i);
      assert SlotOk(m.mem, kernel, m.roles, d, i);
      forall f ensures IsTableOf(m, d, i + 1, f) <==>
        IsTableOf(m, d, i, f) || (Present(m.mem[d][i]) && Owned(m.mem[d][i]) && f == m.mem[d][i].frame)
      {
        if f in m.roles { assert Linked(m.mem, m.roles, f); }
      }
    }

    /** At the start nothing has been freed. */
    lemma NothingBelow(m: Machine, used: set<int>, d: Frame)
      requires Sound(m, used)
      ensures Freeing(m, used, used, d, 0, 0)
    {
      forall f ensures !IsTableOf(m, d, 0, f) && !BacksPage(m, d, 0, f) {
        if f in m.roles { assert Linked(m.mem, m.roles, f); }
      }
    }

    lemma BacksNoTable(m: Machine, used: set<int>, d: Frame, c: int, t: Frame)
      requires Apart(m, used) && t in m.roles
      ensures !BacksPage(m, d, c, t)
    {
      forall v | (d, v) in m.flat ensures m.flat[(d, v)].frame != t {
        assert DataFrame(m, used, m.flat[(d, v)].frame);
      }
    }

    /** The machine without directory d. */
    ghost function Without(m: Machine, d: Frame): Machine {
      Machine(m.mem,
              map f | f in m.roles && f != d && !(m.roles[f].Table? && m.roles[f].dir == d) :: m.roles[f],
              map k | k in m.flat && k.0 != d :: m.flat[k])
    }

    /** No managed frame behind a page of d is mapped anywhere else. */
    ghost predicate Unshared(m: Machine, d: Frame) {
      forall k, k' :: k in m.flat && k' in m.flat && k.0 == d && k != k' && frames.Manages(m.flat[k].frame) ==>
        m.flat[k].frame != m.flat[k'].frame
    }

    /** page_directory_destroy: exactly the frames of d, its tables and its pages are given back.
        The count stays right exactly when none of them backs two pages of d; and everything stays in
        order exactly when none is mapped elsewhere: destruction takes no account of sharing by fork. */
    method Destroy(d: Frame)
      requires Good() && IsDir(m.roles, d)
      modifies this`m, frames, frames.bitmap
      ensures m == Without(old(m), d) && frames.Marks()
      ensures forall f :: f in frames.used <==> f in old(frames.used) && !Owns(old(m), d, f)
      ensures frames.Valid() <==> Once(old(m), d, KERNEL_PD_INDEX * ENTRIES)
      ensures Good() <==> Unshared(old(m), d)
    {
      ghost var used0, lost: nat := frames.used, 0;
      NothingBelow(m, used0, d);
      for i := 0 to KERNEL_PD_INDEX
        invariant m == old(m) && Releasing(m, used0, d, i * ENTRIES, i, lost)
      {
        lost := FreeSlot(d, i, used0, lost);
      }
      frames.Fits();
      LastFreed(m, used0, frames.used, frames.usedFrames, d, lost);
      frames.Release(d);
      DirectoryGone(m, used0, d, frames.used);
      DestroySafeIff(m, used0, d, frames.used);
      UnsharedSplit(m, used0, d);
      m := Machine(m.mem, Without(m, d).roles, Without(m, d).flat);
    }

    /** The directory itself comes last. */
    lemma LastFreed(m: Machine, used0: set<int>, used: set<int>, count: U32, d: Frame, lost: nat)
      requires Sound(m, used0) && Apart(m, used0) && IsDir(m.roles, d) && |used| <= 0x100000
      requires Freed(m, used0, used, count, d, KERNEL_PD_INDEX * ENTRIES, KERNEL_PD_INDEX, lost)
      requires forall f :: f in used ==> frames.Manages(f)
      ensures forall f :: f in used - {d} <==> f in used0 && !Owns(m, d, f)
      ensures (if frames.Manages(d) then Down(count) else count) == |used - {d}| <==>
        Once(m, d, KERNEL_PD_INDEX * ENTRIES)
    {
      BacksNoTable(m, used0, d, KERNEL_PD_INDEX * ENTRIES, d);
      ShortNext(used, d, lost);
      ShortNext(used - {d}, d, lost);
      assert !frames.Manages(d) ==> used - {d} == used;
    }

    /** Not mapped elsewhere: neither in another directory nor twice in d. */
    lemma UnsharedSplit(m: Machine, used: set<int>, d: Frame)
      requires Sound(m, used)
      ensures Unshared(m, d) <==> Once(m, d, KERNEL_PD_INDEX * ENTRIES) && UnsharedWithOthers(m, d)
    {
      if Unshared(m, d) {
        forall v | (d, v) in m.flat && frames.Manages(m.flat[(d, v)].frame)
          ensures !BacksPage(m, d, v, m.flat[(d, v)].frame)
        {
          forall u | u < v ensures !Backs(m, d, u, m.flat[(d, v)].frame) {
            assert (d, u) != (d, v);
          }
        }
      }
      if Once(m, d, KERNEL_PD_INDEX * ENTRIES) && UnsharedWithOthers(m, d) {
        forall k, k' | k in m.flat && k' in m.flat && k.0 == d && k != k' && frames.Manages(m.flat[k].frame)
          ensures m.flat[k].frame != m.flat[k'].frame
        {
          if k'.0 == d {
            OnceApart(m, d, k.1, k'.1);
          }
        }
      }
    }

    lemma OnceApart(m: Machine, d: Frame, v: int, v': int)
      requires Once(m, d, KERNEL_PD_INDEX * ENTRIES) && (d, v) in m.flat && (d, v') in m.flat && v != v'
      requires v < KERNEL_PD_INDEX * ENTRIES && v' < KERNEL_PD_INDEX * ENTRIES && frames.Manages(m.flat[(d, v)].frame)
      ensures m.flat[(d, v)].frame != m.flat[(d, v')].frame
    {
      var lo, hi := if v < v' then v else v', if v < v' then v' else v;
      assert Backs(m, d, lo, m.flat[(d, lo)].frame);
      assert frames.Manages(m.flat[(d, hi)].frame) ==> !BacksPage(m, d, hi, m.flat[(d, hi)].frame);
    }

    /** No managed frame behind a page of d is mapped in another directory. */
    ghost predicate UnsharedWithOthers(m: Machine, d: Frame) {
      forall k, k' :: k in m.flat && k' in m.flat && k.0 == d && k'.0 != d && frames.Manages(m.flat[k].frame) ==>
        m.flat[k].frame != m.flat[k'].frame
    }

    lemma DirectoryGone(m: Machine, used: set<int>, d: Frame, used': set<int>)
      requires Sound(m, used) && Apart(m, used) && IsDir(m.roles, d)
      requires forall f :: f in used' <==> f in used && !Owns(m, d, f)
      ensures Sound(Without(m, d), used')
    {
      var m' := Without(m, d);
      forall d', i | IsDir(m'.roles, d') && 0 <= i < ENTRIES ensures SlotOk(m'.mem, kernel, m'.roles, d', i) {
        assert SlotOk(m.mem, kernel, m.roles, d', i);
      }
      forall t | t in m'.roles ensures Linked(m'.mem, m'.roles, t) {
        assert Linked(m.mem, m.roles, t);
      }
      assert FlatOk(m');
      forall f | f in m'.roles && frames.Manages(f) ensures f in used' {
        BacksNoTable(m, used, d, KERNEL_PD_INDEX * ENTRIES, f);
      }
    }

    /** Once the frames d owns are free, the other address spaces keep their pages exactly when
        none of them shares a frame with d. */
    lemma DestroySafeIff(m: Machine, used: set<int>, d: Frame, used': set<int>)
      requires Sound(m, used) && Apart(m, used) && IsDir(m.roles, d)
      requires forall f :: f in used' <==> f in used && !Owns(m, d, f)
      ensures Apart(Without(m, d), used') <==> UnsharedWithOthers(m, d)
    {
      var m' := Without(m, d);
      forall k | k in m.flat && k.0 == d ensures Owns(m, d, m.flat[k].frame) {
        assert Backs(m, d, k.1, m.flat[k].frame);
      }
      forall k' | k' in m.flat && k'.0 != d
        ensures DataFrame(m', used', m.flat[k'].frame) <==>
          (frames.Manages(m.flat[k'].frame) ==> !BacksPage(m, d, KERNEL_PD_INDEX * ENTRIES, m.flat[k'].frame))
      {
        assert DataFrame(m, used, m.flat[k'].frame);
      }
      if Apart(m', used') {
        forall k, k' | k in m.flat && k' in m.flat && k.0 == d && k'.0 != d && frames.Manages(m.flat[k].frame)
          ensures m.flat[k].frame != m.flat[k'].frame
        {
          assert DataFrame(m', used', m'.flat[k'].frame);
        }
      }
    }

    // ----- conservation -----

    /** Mapping a fresh frame f at page v of d: of the frames in use, d comes to own exactly the
        new ones; what it owned behind that page before is lost to it. */
    lemma OwnershipGrows(m: Machine, used: set<int>, m': Machine, used': set<int>, d: Frame, v: int, w: Word)
      requires Sound(m, used) && Apart(m, used) && IsDir(m.roles, d) && Private(m, d)
      requires UserPage(v) && frames.Manages(w.frame) && w.frame !in used
      requires Sound(m', used') && Keeps(m, used + {w.frame}, m', used', d, v) && m'.flat == m.flat[(d, v) := w]
      ensures Private(m', d)
      ensures forall g :: g in used' && !Owns(m', d, g) <==>
        (g in used && !Owns(m, d, g)) || (g in used && Backs(m, d, v, g))
    {
      forall k | k in m.flat ensures m.flat[k].frame != w.frame {
        assert DataFrame(m, used, m.flat[k].frame);
      }
      forall g
        ensures IsTableOf(m', d, KERNEL_PD_INDEX, g) <==>
          IsTableOf(m, d, KERNEL_PD_INDEX, g) || (g in m'.roles && g !in m.roles)
      {
        if g in m'.roles { assert Linked(m'.mem, m'.roles, g); }
      }
      BacksUpdate(m, m', d, v, w);
    }

    lemma BacksUpdate(m: Machine, m': Machine, d: Frame, v: int, w: Word)
      requires UserPage(v) && m'.flat == m.flat[(d, v) := w] && Private(m, d)
      requires forall k :: k in m.flat ==> m.flat[k].frame != w.frame
      ensures forall g :: BacksPage(m', d, KERNEL_PD_INDEX * ENTRIES, g) <==>
                (g == w.frame || (BacksPage(m, d, KERNEL_PD_INDEX * ENTRIES, g) && !Backs(m, d, v, g)))
    {
      var c := KERNEL_PD_INDEX * ENTRIES;
      forall g ensures BacksPage(m', d, c, g) <==> (g == w.frame || (BacksPage(m, d, c, g) && !Backs(m, d, v, g))) {
        if BacksPage(m', d, c, g) {
          var u :| u < c && Backs(m', d, u, g);
          assert g != w.frame ==> Backs(m, d, u, g);
        }
        if BacksPage(m, d, c, g) && !Backs(m, d, v, g) {
          var u :| u < c && Backs(m, d, u, g);
          assert Backs(m', d, u, g);
        }
        if g == w.frame {
          assert Backs(m', d, v, g);
        }
      }
    }

    /** A new directory owns itself only. */
    lemma NewOwner(m: Machine, used: set<int>, d: Frame)
      requires Sound(m, used) && frames.Manages(d) && d !in used
      ensures Private(WithDirectory(m, d), d)
      ensures forall g :: Owns(WithDirectory(m, d), d, g) <==> g == d
    {
      var m' := WithDirectory(m, d);
      forall g ensures !IsTableOf(m', d, KERNEL_PD_INDEX, g) {
        if g in m.roles { assert Linked(m.mem, m.roles, g); }
      }
    }

    /** The frames in use that d does not own are those of `before`. */
    ghost predicate Accounts(d: Frame, before: set<int>)
      reads this, frames
    {
      Private(m, d) && forall g :: g in frames.used && !Owns(m, d, g) <==> g in before
    }

    /** One allocation of a page that was not mapped. */
    method AllocNew(d: Frame, va: U32, flags: bv12, ghost before: set<int>) returns (ok: bool)
      requires Good() && IsDir(m.roles, d) && UserPage(va / 4096) && (d, va / 4096) !in m.flat && Accounts(d, before)
      modifies this`m, frames, frames.bitmap
      ensures Good() && IsDir(m.roles, d) && Accounts(d, before)
      ensures m.flat.Keys <= old(m).flat.Keys + {(d, va / 4096)}
    {
      ghost var f;
      ok, f := AllocUserPage(d, va, flags);
      if ok {
        OwnershipGrows(old(m), old(frames.used), m, frames.used, d, va / 4096, MapEntry(f, flags | USER));
      }
    }

    /** A whole life of an address space that maps each page at most once: every frame it took
        is back in the pool, whatever was allocated and wherever allocation stopped. */
    method Lifetime(pages: seq<U32>, flags: bv12)
      requires Good()
      requires forall i :: 0 <= i < |pages| ==> UserPage(pages[i] / 4096)
      requires forall i, j :: 0 <= i < j < |pages| ==> pages[i] / 4096 != pages[j] / 4096
      modifies this`m, frames, frames.bitmap
      ensures Good() && frames.used == old(frames.used) && frames.usedFrames == old(frames.usedFrames)
    {
      ghost var before := frames.used;
      var d := CreateDirectory();
      if d == 0 {
        return;
      }
      NewOwner(old(m), before, d);
      for i := 0 to |pages|
        invariant Good() && IsDir(m.roles, d) && Accounts(d, before)
        invariant forall j :: i <= j < |pages| ==> (d, pages[j] / 4096) !in m.flat
      {
        var ok := AllocNew(d, pages[i], flags, before);
        if !ok {
          break;
        }
      }
      GiveBack(d, before);
    }

    /** Destruction returns exactly what the directory owns. */
    method GiveBack(d: Frame, ghost before: set<int>)
      requires Good() && IsDir(m.roles, d) && Accounts(d, before)
      modifies this`m, frames, frames.bitmap
      ensures Good() && frames.used == before
    {
      ghost var used, m0 := frames.used, m;
      assert forall g :: g in before <==> g in used && !Owns(m0, d, g);
      Destroy(d);
      assert forall g :: g in frames.used <==> g in before;
    }
  }
}
