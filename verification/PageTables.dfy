/** Two-level page tables stored in the frames they manage (src/paging.c; section 4.3 of
    volume 3A of the Intel SDM, 32-bit paging).  This module holds the structure that keeps
    directories, tables and data apart, and what each kind of memory write does to every
    translation. */
module PageTables {
  import opened Entries

  datatype Option<T> = None | Some(value: T)

  const KERNEL_PD_INDEX := 768

  /** Directory slots of the user range, USER_BASE >> 22 up to USER_LIMIT >> 22. */
  predicate UserSlot(i: int) { 8 <= i < 20 }

  predicate UserPage(v: int) { 8 * 1024 <= v < 20 * 1024 }

  /** The hardware's (and page_get_phys's) walk for virtual page v. */
  function Walk(mem: Memory, d: Frame, v: int): Option<Word>
    requires 0 <= v < FRAMES
  {
    var pde := mem[d][v / ENTRIES];
    if !Present(pde) then None else
    var pte := mem[pde.frame][v % ENTRIES];
    if Present(pte) then Some(pte) else None
  }

  /** What page_directory_create copies from the kernel directory into slot i. */
  function KernelEntry(kernel: Page, i: int): Word
    requires 0 <= i < ENTRIES
  {
    if i >= KERNEL_PD_INDEX then kernel[i]
    else if Present(kernel[i]) then Word(kernel[i].frame, kernel[i].flags & !ALLOCATED)
    else ZERO
  }

  function NewDirectory(kernel: Page): Page {
    seq(1024, i requires 0 <= i < 1024 => if UserSlot(i) then ZERO else KernelEntry(kernel, i))
  }

  function ZeroPage(): Page { seq(1024, _ => ZERO) }

  /** What a frame that translation goes through is for. */
  datatype Role = Directory | Table(dir: Frame, slot: int) | KernelTable

  type Roles = map<Frame, Role>

  ghost predicate IsDir(roles: Roles, d: int) { 0 <= d < FRAMES && d in roles && roles[d] == Directory }

  /** Slot i of directory d leads to that directory's own table, or to the kernel's. */
  ghost predicate SlotOk(mem: Memory, kernel: Page, roles: Roles, d: Frame, i: int)
    requires 0 <= i < ENTRIES
  {
    var e := mem[d][i];
    if !UserSlot(i) then e == KernelEntry(kernel, i)
    else e == ZERO || (Present(e) && Owned(e) && e.frame in roles && roles[e.frame] == Table(d, i))
  }

  ghost predicate KernelOk(kernel: Page, roles: Roles) {
    forall i :: 0 <= i < ENTRIES && !UserSlot(i) && Present(KernelEntry(kernel, i)) ==>
      KernelEntry(kernel, i).frame in roles && roles[KernelEntry(kernel, i).frame] == KernelTable
  }

  /** A table's directory does lead to it. */
  ghost predicate Linked(mem: Memory, roles: Roles, t: Frame)
    requires t in roles
  {
    roles[t].Table? ==>
      var Table(d, i) := roles[t];
      IsDir(roles, d) && UserSlot(i) && Present(mem[d][i]) && mem[d][i].frame == t
  }

  ghost predicate WellFormed(mem: Memory, kernel: Page, roles: Roles) {
    && KernelOk(kernel, roles)
    && (forall d, i :: IsDir(roles, d) && 0 <= i < ENTRIES ==> SlotOk(mem, kernel, roles, d, i))
    && (forall t {:trigger Linked(mem, roles, t)} :: t in roles ==> Linked(mem, roles, t))
  }

  /** All translations but the one of page v in directory d are as before. */
  ghost predicate OthersKept(mem: Memory, roles: Roles, mem': Memory, d: int, v: int) {
    forall d', v' :: IsDir(roles, d') && 0 <= v' < FRAMES && (d', v') != (d, v) ==>
      Walk(mem', d', v') == Walk(mem, d', v')
  }

  /** The table a walk of a user page reads is the directory's own. */
  lemma WalkFrame(mem: Memory, kernel: Page, roles: Roles, d: Frame, v: int)
    requires WellFormed(mem, kernel, roles) && IsDir(roles, d) && 0 <= v < FRAMES
    ensures UserPage(v) <==> UserSlot(v / ENTRIES)
    ensures Present(mem[d][v / ENTRIES]) ==>
      var t := mem[d][v / ENTRIES].frame;
      t in roles && roles[t] == if UserPage(v) then Table(d, v / ENTRIES) else KernelTable
  {
    assert SlotOk(mem, kernel, roles, d, v / ENTRIES);
  }

  /** Writing a frame outside the structure changes no translation. */
  lemma DataWrite(mem: Memory, kernel: Page, roles: Roles, f: Frame, page: Page)
    requires WellFormed(mem, kernel, roles) && f !in roles
    ensures WellFormed(mem[f := page], kernel, roles) && OthersKept(mem, roles, mem[f := page], -1, -1)
  {
    var mem' := mem[f := page];
    forall d, v | IsDir(roles, d) && 0 <= v < FRAMES ensures Walk(mem', d, v) == Walk(mem, d, v) {
      WalkFrame(mem, kernel, roles, d, v);
    }
    assert forall d, i :: IsDir(roles, d) && 0 <= i < ENTRIES ==>
        SlotOk(mem, kernel, roles, d, i) ==> SlotOk(mem', kernel, roles, d, i);
    assert forall t :: t in roles ==> Linked(mem, roles, t) ==> Linked(mem', roles, t);
  }

  /** Writing entry v of directory d's own table changes that one translation. */
  lemma EntryWrite(mem: Memory, kernel: Page, roles: Roles, d: Frame, v: int, t: Frame, w: Word, mem': Memory)
    requires WellFormed(mem, kernel, roles) && IsDir(roles, d) && UserPage(v)
    requires Present(mem[d][v / ENTRIES]) && mem[d][v / ENTRIES].frame == t
    requires mem' == mem[t := mem[t][v % ENTRIES := w]]
    ensures WellFormed(mem', kernel, roles)
    ensures Walk(mem', d, v) == if Present(w) then Some(w) else None
    ensures OthersKept(mem, roles, mem', d, v)
  {
    WalkFrame(mem, kernel, roles, d, v);
    assert forall d, i :: IsDir(roles, d) && 0 <= i < ENTRIES ==>
        SlotOk(mem, kernel, roles, d, i) ==> SlotOk(mem', kernel, roles, d, i);
    assert forall t :: t in roles ==> Linked(mem, roles, t) ==> Linked(mem', roles, t);
    forall d', v' | IsDir(roles, d') && 0 <= v' < FRAMES && (d', v') != (d, v)
      ensures Walk(mem', d', v') == Walk(mem, d', v')
    {
      WalkFrame(mem, kernel, roles, d', v');
    }
  }

  /** Writing a kernel table changes no user translation. */
  lemma KernelEntryWrite(mem: Memory, kernel: Page, roles: Roles, t: Frame, page: Page, mem': Memory)
    requires WellFormed(mem, kernel, roles) && t in roles && roles[t] == KernelTable
    requires mem' == mem[t := page]
    ensures WellFormed(mem', kernel, roles)
    ensures forall d, v :: IsDir(roles, d) && UserPage(v) ==> Walk(mem', d, v) == Walk(mem, d, v)
  {
    assert forall d, i :: IsDir(roles, d) && 0 <= i < ENTRIES ==>
        SlotOk(mem, kernel, roles, d, i) ==> SlotOk(mem', kernel, roles, d, i);
    assert forall t :: t in roles ==> Linked(mem, roles, t) ==> Linked(mem', roles, t);
    forall d, v | IsDir(roles, d) && UserPage(v) ensures Walk(mem', d, v) == Walk(mem, d, v) {
      WalkFrame(mem, kernel, roles, d, v);
    }
  }

  /** Hooking a zeroed fresh frame into an empty slot changes no translation. */
  lemma TableAdd(mem: Memory, kernel: Page, roles: Roles, d: Frame, i: int, t: Frame, pde: Word, mem': Memory)
    requires WellFormed(mem, kernel, roles) && IsDir(roles, d) && UserSlot(i) && t !in roles
    requires !Present(mem[d][i]) && Present(pde) && Owned(pde) && pde.frame == t
    requires mem' == mem[d := mem[d][i := pde]][t := ZeroPage()]
    ensures WellFormed(mem', kernel, roles[t := Table(d, i)])
    ensures OthersKept(mem, roles, mem', -1, -1)
  {
    var roles' := roles[t := Table(d, i)];
    forall d', i' | IsDir(roles', d') && 0 <= i' < ENTRIES ensures SlotOk(mem', kernel, roles', d', i') {
      assert SlotOk(mem, kernel, roles, d', i');
    }
    forall f | f in roles' ensures Linked(mem', roles', f) {
      if f != t { assert Linked(mem, roles, f); }
    }
    forall d', v | IsDir(roles, d') && 0 <= v < FRAMES ensures Walk(mem', d', v) == Walk(mem, d', v) {
      WalkFrame(mem, kernel, roles, d', v);
    }
  }

  /** A new directory starts without user pages and disturbs no other. */
  lemma DirectoryAdd(mem: Memory, kernel: Page, roles: Roles, d: Frame, mem': Memory)
    requires WellFormed(mem, kernel, roles) && d !in roles
    requires mem' == mem[d := NewDirectory(kernel)]
    ensures WellFormed(mem', kernel, roles[d := Directory])
    ensures OthersKept(mem, roles, mem', -1, -1)
    ensures forall v :: UserPage(v) ==> Walk(mem', d, v) == None
  {
    var roles' := roles[d := Directory];
    forall d', i | IsDir(roles', d') && 0 <= i < ENTRIES ensures SlotOk(mem', kernel, roles', d', i) {
      if d' != d { assert SlotOk(mem, kernel, roles, d', i); }
    }
    forall f | f in roles' ensures Linked(mem', roles', f) {
      if f != d { assert Linked(mem, roles, f); }
    }
    forall d', v | IsDir(roles, d') && 0 <= v < FRAMES ensures Walk(mem', d', v) == Walk(mem, d', v) {
      WalkFrame(mem, kernel, roles, d', v);
    }
  }

  /** Changing only the permission bits of a table's directory slot changes no translation. */
  lemma SlotFlags(mem: Memory, kernel: Page, roles: Roles, d: Frame, i: int, pde: Word, mem': Memory)
    requires WellFormed(mem, kernel, roles) && IsDir(roles, d) && UserSlot(i)
    requires Present(mem[d][i]) && Present(pde) && Owned(pde) && pde.frame == mem[d][i].frame
    requires mem' == mem[d := mem[d][i := pde]]
    ensures WellFormed(mem', kernel, roles) && OthersKept(mem, roles, mem', -1, -1)
  {
    forall d', i' | IsDir(roles, d') && 0 <= i' < ENTRIES ensures SlotOk(mem', kernel, roles, d', i') {
      assert SlotOk(mem, kernel, roles, d', i');
    }
    assert forall t :: t in roles ==> Linked(mem, roles, t) ==> Linked(mem', roles, t);
    forall d', v | IsDir(roles, d') && 0 <= v < FRAMES ensures Walk(mem', d', v) == Walk(mem, d', v) {
      WalkFrame(mem, kernel, roles, d', v);
    }
  }
}
