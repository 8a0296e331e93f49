/** The user address space layout of one task (src/task.c): the mapping table, the search for a
    free stretch, and the program break.  Addresses are 32-bit words and wrap as such. */
module MmapLayout {
  import opened Bytes
  import opened UserRange

  const PAGE := 4096
  const MMAP_BASE := 0x03C0_0000
  const MMAP_TOP := 0x04EF_0000
  const ERR_INVAL := -22
  const ERR_BADF := -9
  const ERR_NOMEM := -12

  datatype Mapping = Unused | Mapped(base: U32, length: U32)

  /** NoReturn: the kernel clears a range whose end has wrapped, over addresses it mapped nothing at. */
  datatype Result = Ok(base: U32) | Err(code: int) | NoReturn

  /** What is mapped: the framebuffer, a shared memory file, or fresh pages that are cleared. */
  datatype Backing = Framebuffer(bytes: U32) | SharedFile | Cleared

  /** The length of the mapping that is recorded. */
  function Length(backing: Backing, size: U32): U32 {
    if backing.Framebuffer? && backing.bytes <= size then AlignUp(backing.bytes) else size
  }

  function AlignDown(x: U32): (r: U32)
    ensures r <= x < r + PAGE && r % PAGE == 0
  {
    x / PAGE * PAGE
  }

  /** align_up: the sum wraps, so the top 4095 values go to 0. */
  function AlignUp(x: U32): (r: U32)
    ensures r % PAGE == 0
    ensures if x <= WORD - PAGE then x <= r < x + PAGE else r == 0
  {
    AlignDown((x + PAGE - 1) % WORD)
  }

  /** range_overlaps, with ends that wrap. */
  predicate RangeOverlaps(a: U32, la: U32, b: U32, lb: U32) {
    !((a + la) % WORD <= b || (b + lb) % WORD <= a)
  }

  /** The intervals [a, a + la) and [b, b + lb) of the integers. */
  predicate Overlap(a: int, la: int, b: int, lb: int) { a < b + lb && b < a + la }

  lemma {:induction false} OverlapWithoutWrap(a: U32, la: U32, b: U32, lb: U32)
    requires a + la < WORD && b + lb < WORD
    ensures RangeOverlaps(a, la, b, lb) == Overlap(a, la, b, lb)
  {
  }

  // ----- what is meant -----

  /** A mapping inside the window. */
  predicate Placed(base: int, length: int) {
    base % PAGE == 0 && length % PAGE == 0 && MMAP_BASE <= base && 0 <= length && base + length <= MMAP_TOP
  }

  /** Nothing is mapped in [base, base + length), and the program and its heap end below it. */
  ghost predicate Clear(ms: seq<Mapping>, brk: int, base: int, length: int) {
    && (forall i :: 0 <= i < |ms| && ms[i].Mapped? ==> !Overlap(base, length, ms[i].base, ms[i].length))
    && (brk > USER_BASE ==> !Overlap(base, length, USER_BASE, brk - USER_BASE))
  }

  ghost predicate Layout(ms: seq<Mapping>, brk: int) {
    && USER_BASE <= brk <= USER_LIMIT
    && (forall i :: 0 <= i < |ms| && ms[i].Mapped? ==>
          Placed(ms[i].base, ms[i].length) && !Overlap(ms[i].base, ms[i].length, USER_BASE, brk - USER_BASE))
    && (forall i, j :: 0 <= i < j < |ms| && ms[i].Mapped? && ms[j].Mapped? ==>
          !Overlap(ms[i].base, ms[i].length, ms[j].base, ms[j].length))
  }

  /** A place where `length` bytes can be mapped. */
  ghost predicate Fits(ms: seq<Mapping>, brk: int, base: int, length: int) {
    Placed(base, length) && Clear(ms, brk, base, length)
  }

  /** No place lies higher than this. */
  ghost predicate Ceiling(ms: seq<Mapping>, brk: int, size: int, base: int) {
    forall b :: Fits(ms, brk, b, size) ==> b <= base
  }

  lemma {:induction false} CeilingSinks(ms: seq<Mapping>, brk: int, size: int, base: int)
    requires Ceiling(ms, brk, size, base) && base % PAGE == 0 && !Clear(ms, brk, base, size)
    ensures Ceiling(ms, brk, size, base - PAGE)
  {
    forall b | Fits(ms, brk, b, size) ensures b <= base - PAGE {
      assert b != base && b % PAGE == 0;
    }
  }

  lemma {:induction false} LayoutAdd(ms: seq<Mapping>, brk: int, k: nat, base: U32, length: U32)
    requires Layout(ms, brk) && k < |ms| && ms[k].Unused? && Fits(ms, brk, base, length)
    ensures Layout(ms[k := Mapped(base, length)], brk)
  {
  }

  /** And only there. */
  lemma {:induction false} LayoutNeeds(ms: seq<Mapping>, brk: int, k: nat, base: U32, length: U32)
    requires k < |ms| && ms[k].Unused? && Layout(ms[k := Mapped(base, length)], brk)
    ensures Fits(ms, brk, base, length)
  {
    var ms' := ms[k := Mapped(base, length)];
    assert ms'[k] == Mapped(base, length);
    forall i | 0 <= i < |ms| && ms[i].Mapped? ensures !Overlap(base, length, ms[i].base, ms[i].length) {
      assert ms'[i] == ms[i];
    }
  }

  /** A shorter stretch from the same base is clear as well. */
  lemma {:induction false} FitsShorter(ms: seq<Mapping>, brk: int, base: int, length: int, l: int)
    requires Fits(ms, brk, base, length) && 0 <= l <= length && l % PAGE == 0 && 0 < length
    ensures Fits(ms, brk, base, l)
  {
  }

  /** Recording a mapping where `size` bytes fit, or where the end has wrapped. */
  lemma {:induction false} Recorded(ms: seq<Mapping>, brk: int, k: nat, base: U32, size: U32, backing: Backing,
                                    inRange: bool)
    requires Layout(ms, brk) && k < |ms| && ms[k].Unused? && 0 < size && size % PAGE == 0
    requires if inRange then Fits(ms, brk, base, size) else base + size >= WORD
    ensures Layout(ms[k := Mapped(base, Length(backing, size))], brk) <==>
      inRange || Fits(ms, brk, base, Length(backing, size))
    ensures !backing.Framebuffer? ==> (Layout(ms[k := Mapped(base, Length(backing, size))], brk) <==> inRange)
  {
    var length := Length(backing, size);
    if inRange {
      FitsShorter(ms, brk, base, size, length);
    }
    if Fits(ms, brk, base, length) {
      LayoutAdd(ms, brk, k, base, length);
    } else if Layout(ms[k := Mapped(base, length)], brk) {
      LayoutNeeds(ms, brk, k, base, length);
    }
  }

  class Task {
    var mappings: seq<Mapping>
    var brk: U32
    const brkBase: U32

    ghost predicate Valid()
      reads this
    {
      Layout(mappings, brk) && USER_BASE <= brkBase <= brk
    }

    /** A task that has just been loaded: no mappings, the break at the end of the image. */
    constructor (slots: nat, imageEnd: U32)
      requires USER_BASE <= imageEnd <= USER_LIMIT
      ensures Valid() && brkBase == brk == imageEnd
      ensures |mappings| == slots && forall i :: 0 <= i < slots ==> mappings[i].Unused?
    {
      mappings := seq(slots, _ => Unused);
      brk := imageEnd;
      brkBase := imageEnd;
    }

    /** task_mapping_overlaps */
    method MappingOverlaps(base: U32, length: U32) returns (r: bool)
      requires Valid()
      ensures base + length < WORD ==> r == !Clear(mappings, brk, base, length)
      ensures MMAP_TOP <= base && brk <= base ==> !r
      ensures USER_BASE < (base + length) % WORD && USER_BASE <= base < brk ==> r
    {
      var i := 0;
      while i < |mappings|
        invariant i <= |mappings|
        invariant forall k :: 0 <= k < i && mappings[k].Mapped? ==>
          !RangeOverlaps(base, length, mappings[k].base, mappings[k].length)
      {
        if mappings[i].Mapped? {
          if RangeOverlaps(base, length, mappings[i].base, mappings[i].length) {
            assert base + length < WORD ==> Overlap(base, length, mappings[i].base, mappings[i].length);
            return true;
          }
        }
        i := i + 1;
      }
      r := brk > USER_BASE && RangeOverlaps(base, length, USER_BASE, brk - USER_BASE);
    }

    /** The first unused entry of the table. */
    method UnusedEntry() returns (k: nat)
      ensures k <= |mappings| && (k < |mappings| ==> mappings[k].Unused?)
      ensures forall i :: 0 <= i < k ==> mappings[i].Mapped?
    {
      k := 0;
      while k < |mappings|
        invariant k <= |mappings| && forall i :: 0 <= i < k ==> mappings[i].Mapped?
      {
        if mappings[k].Unused? {
          return;
        }
        k := k + 1;
      }
    }

    /** The downward search of task_mmap.  `found` is the test that follows it. */
    method Search(size: U32) returns (base: U32, found: bool)
      requires Valid() && 0 < size && size % PAGE == 0
      ensures size <= MMAP_TOP && found ==> Fits(mappings, brk, base, size)
      ensures size <= MMAP_TOP && found ==> Ceiling(mappings, brk, size, base)
      ensures size <= MMAP_TOP && !found ==> forall b :: !Fits(mappings, brk, b, size)
      // Of the sizes that wrap, those end up beyond the window for which the break is low enough.
      ensures MMAP_TOP < size ==> (found <==> brk <= WORD + MMAP_TOP - size)
      ensures MMAP_TOP < size && found ==> base == WORD + MMAP_TOP - size
    {
      base := (MMAP_TOP - size) % WORD;
      while base >= MMAP_BASE
        invariant size <= MMAP_TOP ==> base <= MMAP_TOP - size && base % PAGE == 0
        invariant size <= MMAP_TOP ==> Ceiling(mappings, brk, size, base)
        invariant MMAP_TOP < size ==> base <= WORD + MMAP_TOP - size
        invariant MMAP_TOP < size && base < WORD + MMAP_TOP - size ==> base < WORD + MMAP_TOP - size < brk
        decreases base
      {
        var overlaps := MappingOverlaps(base, size);
        if !overlaps {
          break;
        }
        if base == MMAP_BASE {
          break;
        }
        if size <= MMAP_TOP {
          CeilingSinks(mappings, brk, size, base);
        }
        base := base - PAGE;
      }
      found := false;
      if base >= MMAP_BASE {
        var overlaps := MappingOverlaps(base, size);
        found := !overlaps;
      }
    }

    /** Whether the arithmetic of task_mmap stays below 2^32. */
    static predicate InRange(addr: U32, size: U32, fixed: bool) {
      if fixed then AlignDown(addr) + size < WORD else size <= MMAP_TOP
    }

    /** Requests beyond the user's addresses whose end wraps back below the top of the window. */
    static predicate WrapsUnseen(addr: U32, size: U32, fixed: bool, brk: U32) {
      if fixed
      then MMAP_TOP <= AlignDown(addr) && brk <= AlignDown(addr) && WORD <= AlignDown(addr) + size <= WORD + MMAP_TOP
      else MMAP_TOP < size <= WORD + MMAP_TOP - brk
    }

    /** The placement part of task_mmap. */
    method Place(addr: U32, size: U32, fixed: bool) returns (r: Result)
      requires Valid() && 0 < size && size % PAGE == 0
      ensures InRange(addr, size, fixed) && r.Ok? ==> Fits(mappings, brk, r.base, size)
      ensures !InRange(addr, size, fixed) && r.Ok? ==> r.base + size >= WORD && (fixed || MMAP_TOP < r.base)
      ensures !r.NoReturn?
      ensures fixed && r.Ok? ==> r.base == AlignDown(addr)
      ensures fixed && r.Err? ==> r.code == ERR_INVAL && !Fits(mappings, brk, AlignDown(addr), size)
      ensures !fixed && size <= MMAP_TOP && r.Ok? ==> forall b :: Fits(mappings, brk, b, size) ==> b <= r.base
      ensures !fixed && r.Err? ==> r.code == ERR_NOMEM
      ensures !fixed && size <= MMAP_TOP && r.Err? ==> forall b :: !Fits(mappings, brk, b, size)
      ensures WrapsUnseen(addr, size, fixed, brk) ==> r == Ok(if fixed then AlignDown(addr) else WORD + MMAP_TOP - size)
    {
      if fixed {
        var base := AlignDown(addr);
        if base < MMAP_BASE || (base + size) % WORD > MMAP_TOP {
          return Err(ERR_INVAL);
        }
        var overlaps := MappingOverlaps(base, size);
        return if overlaps then Err(ERR_INVAL) else Ok(base);
      }
      var base, found := Search(size);
      r := if found then Ok(base) else Err(ERR_NOMEM);
    }

    /** task_mmap.  `kind` is whether MAP_SHARED or MAP_PRIVATE was given, `fdOk` the descriptor
        check, `refusal` the error if the pages could not be had, else 0. */
    method Mmap(addr: U32, length: U32, fixed: bool, kind: bool, fdOk: bool, backing: Backing, refusal: int)
      returns (r: Result, ghost k: nat)
      requires Valid()
      modifies this
      ensures brk == old(brk) && |mappings| == |old(mappings)|
      ensures !r.Ok? ==> mappings == old(mappings) && Valid()
      ensures r.Ok? ==> k < |mappings| && old(mappings)[k].Unused?
      ensures r.Ok? ==> mappings == old(mappings)[k := Mapped(r.base, Length(backing, AlignUp(length)))]
      // It keeps the layout exactly when the sizes do not wrap, or what is recorded happens to fit.
      ensures !fixed && r.Ok? ==> (Valid() <==> InRange(addr, AlignUp(length), fixed))
      ensures fixed && r.Ok? ==>
        (Valid() <==> InRange(addr, AlignUp(length), fixed) ||
                      Fits(old(mappings), brk, AlignDown(addr), Length(backing, AlignUp(length))))
      ensures r.Ok? && !backing.Framebuffer? ==> (Valid() <==> InRange(addr, AlignUp(length), fixed))
      // A fixed mapping goes where it was asked to go, the others as high as possible.
      ensures fixed && r.Ok? ==> r.base == AlignDown(addr)
      ensures !fixed && AlignUp(length) <= MMAP_TOP && r.Ok? ==>
        forall b :: Fits(old(mappings), brk, b, AlignUp(length)) ==> b <= r.base
      // It fails for these reasons only.
      ensures InRange(addr, AlignUp(length), fixed) ==>
        var size := AlignUp(length);
        && !r.NoReturn?
        && (r.Ok? <==>
              && size != 0 && kind && fdOk && refusal == 0
              && Unused in old(mappings)
              && (exists b :: Fits(old(mappings), brk, b, size) && (fixed ==> b == AlignDown(addr))))
      // Sizes that wrap are taken for free ones.
      ensures kind && fdOk && Unused in old(mappings) && WrapsUnseen(addr, AlignUp(length), fixed, brk) ==>
        if backing.Cleared? then r == NoReturn
        else refusal == 0 ==> r == Ok(if fixed then AlignDown(addr) else WORD + MMAP_TOP - AlignUp(length))
      ensures backing.Cleared? && r.Ok? ==> InRange(addr, AlignUp(length), fixed)
    {
      var size := AlignUp(length);
      k := 0;
      if size == 0 || !kind {
        return Err(ERR_INVAL), k;
      }
      if !fdOk {
        return Err(ERR_BADF), k;
      }
      var i := UnusedEntry();
      if i == |mappings| {
        return Err(ERR_NOMEM), k;
      }
      r := Place(addr, size, fixed);
      if r.Err? {
        return;
      }
      if backing.Cleared? && r.base + size >= WORD {
        return NoReturn, k;
      }
      if refusal != 0 {
        return Err(refusal), k;
      }
      k := i;
      Recorded(mappings, brk, k, r.base, size, backing, InRange(addr, size, fixed));
      mappings := mappings[i := Mapped(r.base, Length(backing, size))];
    }

    /** task_munmap with task_mapping_find */
    method Munmap(addr: U32, length: U32) returns (result: int)
      requires Valid()
      modifies this
      ensures Valid() && brk == old(brk)
      ensures result == if Mapped(addr, AlignUp(length)) in old(mappings) then 0 else ERR_INVAL
      ensures result != 0 ==> mappings == old(mappings)
      ensures result == 0 ==>
        exists k ::
          && 0 <= k < |old(mappings)| && old(mappings)[k] == Mapped(addr, AlignUp(length))
          && mappings == old(mappings)[k := Unused]
    {
      var size := AlignUp(length);
      var i := 0;
      while i < |mappings|
        invariant i <= |mappings| && mappings == old(mappings) && brk == old(brk)
        invariant Mapped(addr, size) !in mappings[..i]
      {
        if mappings[i] == Mapped(addr, size) {
          mappings := mappings[i := Unused];
          return 0;
        }
        i := i + 1;
      }
      result := ERR_INVAL;
    }

    /** task_brk; `backed` is whether the new pages could be had.  The overlap test never refuses. */
    method Brk(requested: U32, backed: bool) returns (r: U32)
      requires Valid()
      modifies this
      ensures Valid() && mappings == old(mappings) && r == brk
      ensures brk ==
        if brkBase <= requested < MMAP_BASE && requested != 0 && (requested > old(brk) ==> backed) then requested
        else old(brk)
    {
      if requested == 0 {
        return brk;
      }
      if requested < brkBase || requested >= MMAP_BASE {
        return brk;
      }
      if requested > brk {
        var overlaps := MappingOverlaps(brk, requested - brk);
        if overlaps {
          return brk;
        }
        if !backed {
          return brk;
        }
      }
      brk := requested;
      r := brk;
    }
  }

  /** A mapping that is unmapped again leaves the table as it was. */
  method MapUnmap(t: Task, addr: U32, length: U32, fixed: bool)
    requires t.Valid() && Task.InRange(addr, AlignUp(length), fixed)
    modifies t
    ensures t.Valid() && t.mappings == old(t.mappings) && t.brk == old(t.brk)
  {
    var r, k := t.Mmap(addr, length, fixed, true, true, Cleared, 0);
    if r.Ok? {
      ghost var mapped := t.mappings;
      var result := t.Munmap(r.base, length);
      ghost var j :| 0 <= j < |mapped| && mapped[j] == mapped[k] && t.mappings == mapped[j := Unused];
    }
  }

  /** Two requests for a framebuffer of 3 MiB that are accepted and break the layout: a fixed one whose
      end wraps ... */
  method FixedWraps() returns (t: Task)
    ensures !t.Valid()
  {
    t := new Task(16, USER_BASE);
    assert t.mappings[0] == Unused;
    var r, k := t.Mmap(0x8000_0000, 0x8000_0000, true, true, true, Framebuffer(0x30_0000), 0);
    assert t.mappings[k].base == 0x8000_0000;
  }

  /** ... and one so long that the first base tried wraps. */
  method LengthWraps() returns (t: Task)
    ensures !t.Valid()
  {
    t := new Task(16, USER_BASE);
    assert t.mappings[0] == Unused;
    var r, k := t.Mmap(0, 0x8000_0000, false, true, true, Framebuffer(0x30_0000), 0);
    assert t.mappings[k].base == 0x84EF_0000;
  }
}
