/** Page-table entries (include/paging.h).

    A 32-bit memory word is held as its upper 20 bits (a page-frame number) and its
    lower 12 bits (flags).  Every word of physical memory has this shape, so a frame
    can be read as user data or as a page table without any conversion. */
module Entries {
  const FRAMES := 0x100000
  const ENTRIES := 1024

  type Frame = f: int | 0 <= f < FRAMES

  datatype Word = Word(frame: Frame, flags: bv12)

  type Page = p: seq<Word> | |p| == 1024 witness seq(1024, _ => Word(0, 0))

  /** Physical memory: 4 GiB of frames. */
  type Memory = m: seq<Page> | |m| == FRAMES ghost witness seq(FRAMES, _ => seq(1024, _ => Word(0, 0)))

  const PRESENT: bv12 := 0x001
  const RW: bv12 := 0x002
  const USER: bv12 := 0x004
  const COW: bv12 := 0x200
  const ALLOCATED: bv12 := 0x400

  const ZERO := Word(0, 0)

  predicate Present(w: Word) { w.flags & PRESENT != 0 }
  predicate Writable(w: Word) { w.flags & RW != 0 }
  predicate Cow(w: Word) { w.flags & COW != 0 }
  predicate Owned(w: Word) { w.flags & ALLOCATED != 0 }

  /** entry_create as page_map uses it: the frame is present and owned. */
  function MapEntry(frame: Frame, flags: bv12): (w: Word)
    ensures Present(w) && Owned(w) && w.frame == frame
    ensures Writable(w) == (flags & RW != 0) && Cow(w) == (flags & COW != 0)
  {
    Word(frame, flags | PRESENT | ALLOCATED)
  }

  /** What fork leaves in the parent: a writable entry becomes read-only and copy-on-write. */
  function MarkCow(w: Word): (r: Word)
    ensures r.frame == w.frame && !Writable(r)
    ensures Present(r) == Present(w) && Owned(r) == Owned(w)
    ensures Cow(r) == (Writable(w) || Cow(w))
  {
    if Writable(w) then Word(w.frame, (w.flags & !RW) | COW) else w
  }

  /** The flags fork passes to page_map for the child. */
  function CowFlags(w: Word): (f: bv12)
    ensures f & COW != 0 && f & RW == 0
  {
    (w.flags | COW) & !RW
  }

  /** What fork installs in the child. */
  function ShareCow(w: Word): (r: Word)
    ensures r.frame == w.frame && Present(r) && Owned(r) && Cow(r) && !Writable(r)
  {
    MapEntry(w.frame, CowFlags(w))
  }

  /** What the fault handler installs once the page has been copied into `frame`. */
  function Privatize(w: Word, frame: Frame): (r: Word)
    ensures r.frame == frame && Writable(r) && !Cow(r) && Owned(r)
    ensures Present(r) == Present(w)
  {
    Word(frame, (w.flags & !COW) | RW | ALLOCATED)
  }
}
