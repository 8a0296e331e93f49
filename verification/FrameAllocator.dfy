/** The physical frame allocator (src/paging.c): one bit per frame, in 32-bit words.
    Frames are named by their number; the source multiplies it by PAGE_SIZE, so frame 0
    stands for its null result. */
module FrameAllocator {
  import opened Bytes

  /** A 32-bit word as its bits, least significant first: `word |= 1u << k` is `word[k := true]`. */
  type Bits = w: seq<bool> | |w| == 32 witness seq(32, _ => false)

  const NO_BITS: Bits := seq(32, _ => false)

  /** The frames first, first + 1, ..., n of them. */
  ghost function Interval(first: int, n: nat): (s: set<int>)
    ensures forall f :: f in s <==> first <= f < first + n
    ensures |s| == n
  {
    if n == 0 then {} else Interval(first, n - 1) + {first + n - 1}
  }

  /** The decrement of an unsigned 32-bit number. */
  function Down(n: U32): U32 {
    if n == 0 then WORD - 1 else n - 1
  }

  /** Counting down `lost` times too often: from |used| = n, modulo 2^32. */
  function Short(n: nat, lost: nat): int {
    if lost <= n then n - lost else n - lost + WORD
  }

  class Allocator {
    const bitmap: array<Bits>
    const totalFrames: nat
    const firstFrame: nat
    var usedFrames: U32
    /** The frames whose bit is set. */
    ghost var used: set<int>

    predicate Manages(f: int) { firstFrame <= f < firstFrame + totalFrames }

    /** The frame's bit. */
    predicate Marked(f: int)
      requires Manages(f) && totalFrames <= 32 * bitmap.Length
      reads bitmap
    {
      bitmap[(f - firstFrame) / 32][(f - firstFrame) % 32]
    }

    ghost predicate BitmapShows(s: set<int>)
      reads bitmap
    {
      && bitmap.Length == (totalFrames + 31) / 32
      && (forall f :: f in s ==> Manages(f))
      && forall f {:trigger Marked(f)} :: Manages(f) ==> (f in s <==> Marked(f))
    }

    /** The bitmap is in order; the count may be off. */
    ghost predicate Marks()
      reads this, bitmap
    {
      1 <= firstFrame && firstFrame + totalFrames <= 0x100000 && BitmapShows(used)
    }

    ghost predicate Valid()
      reads this, bitmap
    {
      Marks() && usedFrames == |used|
    }

    /** A frame the allocator may still hand out. */
    ghost predicate Free(f: int)
      reads this
    {
      Manages(f) && f !in used
    }

    /** How many those are. */
    ghost function FreeCount(): int
      reads this
    {
      totalFrames - |used|
    }

    ghost function Managed(): (s: set<int>)
      ensures |s| == totalFrames && forall f :: f in s <==> Manages(f)
    {
      Interval(firstFrame, totalFrames)
    }

    /** The count that is kept tells whether there is a free frame. */
    lemma {:induction false} SomeFree()
      requires Marks()
      ensures 0 <= FreeCount()
      ensures FreeCount() > 0 <==> exists f :: Free(f)
    {
      SubsetSize(used, Managed());
      if FreeCount() == 0 {
        SubsetFull(used, Managed());
      } else {
        assert used != Managed();
        var f :| f in Managed() && f !in used;
        assert Free(f);
      }
    }

    lemma Fits()
      requires Marks()
      ensures |used| <= totalFrames <= 0x100000
    {
      SubsetSize(used, Managed());
    }

    /** bitmap[i / 32] |= 1u << (i % 32), or the clearing of that bit. */
    method Mark(f: int, bit: bool, ghost s: set<int>)
      requires Manages(f) && BitmapShows(s)
      modifies bitmap
      ensures BitmapShows(if bit then s + {f} else s - {f})
    {
      var i := f - firstFrame;
      bitmap[i / 32] := bitmap[i / 32][i % 32 := bit];
      forall g | Manages(g) ensures Marked(g) == if g == f then bit else g in s {
        assert old(Marked(g)) == (g in s);
      }
    }

    /** Sets the frame's bit and counts it. */
    method Take(f: int)
      requires Valid() && Free(f)
      modifies this, bitmap
      ensures Valid() && used == old(used) + {f}
    {
      SubsetSize(used + {f}, Managed());
      Mark(f, true, used);
      used := used + {f};
      usedFrames := usedFrames + 1;
    }

    /** The cleared bitmap frame_alloc_init starts from. */
    constructor (total: nat, first: nat)
      requires 1 <= first && first + total <= 0x100000
      ensures Valid() && fresh(bitmap) && used == {}
      ensures totalFrames == total && firstFrame == first
    {
      bitmap := new Bits[(total + 31) / 32](_ => NO_BITS);
      totalFrames := total;
      firstFrame := first;
      usedFrames := 0;
      used := {};
    }

    /** frame_alloc_init: bits 0 to firstFrame are set before anything is handed out. */
    method Init()
      requires Valid() && used == {} && firstFrame <= totalFrames
      modifies this, bitmap
      ensures Valid() && usedFrames == firstFrame
      ensures forall f :: f in used <==> firstFrame <= f < 2 * firstFrame
    {
      for i := 0 to firstFrame
        invariant Valid() && usedFrames == i
        invariant forall f :: f in used <==> firstFrame <= f < firstFrame + i
      {
        Take(firstFrame + i);
      }
    }

    /** frame_alloc: the lowest free frame, or 0 when there is none. */
    method Alloc() returns (f: int)
      requires Valid()
      modifies this, bitmap
      ensures Valid()
      ensures f != 0 <==> old(FreeCount()) > 0
      ensures f == 0 ==> used == old(used)
      ensures f != 0 ==> old(Free(f)) && used == old(used) + {f} && FreeCount() == old(FreeCount()) - 1
      ensures f != 0 ==> forall g :: old(Free(g)) ==> f <= g
    {
      SomeFree();
      for i := 0 to totalFrames
        invariant forall g :: firstFrame <= g < firstFrame + i ==> g in used
      {
        f := firstFrame + i;
        if !Marked(f) {
          assert Free(f);
          Take(f);
          return;
        }
      }
      f := 0;
    }

    /** frame_free: a frame the allocator does not manage is ignored; one that is not in use is
        counted down all the same. */
    method Release(f: int)
      requires Marks()
      modifies this, bitmap
      ensures Marks() && used == old(used) - {f}
      ensures usedFrames == if Manages(f) then Down(old(usedFrames)) else old(usedFrames)
      ensures old(Valid()) ==> (Valid() <==> !Manages(f) || f in old(used))
    {
      if f < firstFrame || f >= firstFrame + totalFrames {
        return;
      }
      SubsetSize(used, Managed());
      Mark(f, false, used);
      used := used - {f};
      usedFrames := Down(usedFrames);
    }

  }

  lemma {:induction false} SubsetSize(a: set<int>, b: set<int>)
    requires a <= b
    ensures |a| <= |b|
  {
    assert b == a + (b - a);
  }

  lemma {:induction false} SubsetFull(a: set<int>, b: set<int>)
    requires a <= b && |a| == |b|
    ensures a == b
  {
    assert b == a + (b - a);
  }

  /** A release of a frame in use keeps the shortfall, one of another frame adds to it. */
  lemma ShortNext(used: set<int>, f: int, lost: nat)
    requires lost < 0x100000 && |used| <= 0x100000
    ensures 0 <= Short(|used|, lost) < WORD && (Short(|used|, lost) == |used| <==> lost == 0)
    ensures Down(Short(|used|, lost)) == Short(|used - {f}|, if f in used then lost else lost + 1)
  {
    assert if f in used then |used - {f}| == |used| - 1 else used - {f} == used;
  }

  /** Releasing a frame twice: the count is one short, and below zero it wraps. */
  method ReleaseTwice(frames: Allocator) returns (f: int)
    requires frames.Valid() && frames.FreeCount() > 0
    modifies frames, frames.bitmap
    ensures !frames.Valid() && frames.used == old(frames.used)
    ensures frames.usedFrames == if |frames.used| == 0 then WORD - 1 else |frames.used| - 1
  {
    f := frames.Alloc();
    frames.Release(f);
    assert frames.used == old(frames.used);
    frames.Release(f);
    assert frames.used == old(frames.used);
  }
}
