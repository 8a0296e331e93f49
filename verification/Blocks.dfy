/** The kernel heap's block list as a value (src/memory.c): first fit with splitting, and
    coalescing.  The list is determined by its used blocks, which gives the laws of the heap. */
module Blocks {
  /** sizeof(block_header_t) */
  const HEADER := 12

  datatype Block = Block(addr: nat, size: nat, free: bool)

  function End(b: Block): nat { b.addr + HEADER + b.size }

  /** The blocks lie end to end from `start` to `end`. */
  predicate Tiles(bs: seq<Block>, start: int, end: int) {
    if bs == [] then start == end
    else bs[0].addr == start && Tiles(bs[1..], End(bs[0]), end)
  }

  /** No two neighbours are both free. */
  predicate Coalesced(bs: seq<Block>) {
    forall i :: 0 <= i < |bs| - 1 ==> !(bs[i].free && bs[i + 1].free)
  }

  function Used(bs: seq<Block>): seq<Block> {
    if bs == [] then [] else (if bs[0].free then [] else [bs[0]]) + Used(bs[1..])
  }

  lemma {:induction false} TilesConcat(xs: seq<Block>, ys: seq<Block>, start: int, mid: int, end: int)
    requires Tiles(xs, start, mid)
    ensures Tiles(xs + ys, start, end) <==> Tiles(ys, mid, end)
  {
    if xs == [] {
      assert xs + ys == ys;
    } else {
      assert (xs + ys)[1..] == xs[1..] + ys;
      TilesConcat(xs[1..], ys, End(xs[0]), mid, end);
    }
  }

  lemma {:induction false} UsedConcat(xs: seq<Block>, ys: seq<Block>)
    ensures Used(xs + ys) == Used(xs) + Used(ys)
  {
    if xs == [] {
      assert xs + ys == ys;
    } else {
      assert (xs + ys)[1..] == xs[1..] + ys;
      UsedConcat(xs[1..], ys);
    }
  }

  /** Used blocks lie inside the region. */
  lemma {:induction false} UsedInside(bs: seq<Block>, start: int, end: int)
    requires Tiles(bs, start, end)
    ensures start <= end
    ensures forall b :: b in Used(bs) ==> start <= b.addr && End(b) <= end
  {
    if bs != [] {
      UsedInside(bs[1..], End(bs[0]), end);
    }
  }

  /** A leading free block reaches to the first used block, or to the end. */
  lemma {:induction false} FreeHead(bs: seq<Block>, start: int, end: int)
    requires Tiles(bs, start, end) && Coalesced(bs) && bs != [] && bs[0].free
    ensures End(bs[0]) == if Used(bs) == [] then end else Used(bs)[0].addr
  {
    if |bs| > 1 {
      assert !bs[1].free && bs[1..][0] == bs[1];
    }
  }

  lemma {:induction false} UsedTail(bs: seq<Block>)
    requires bs != []
    ensures Used(bs[1..]) == if bs[0].free then Used(bs) else Used(bs)[1..]
  {
  }

  /** A coalesced tiling is determined by its used blocks. */
  lemma {:induction false} UsedDetermines(xs: seq<Block>, ys: seq<Block>, start: int, end: int)
    requires Tiles(xs, start, end) && Tiles(ys, start, end)
    requires Coalesced(xs) && Coalesced(ys) && Used(xs) == Used(ys)
    ensures xs == ys
  {
    if xs != [] { UsedInside(xs[1..], End(xs[0]), end); }
    if ys != [] { UsedInside(ys[1..], End(ys[0]), end); }
    if xs != [] && ys != [] {
      SameHead(xs, ys, start, end);
      assert Coalesced(xs[1..]) && Coalesced(ys[1..]);
      UsedTail(xs);
      UsedTail(ys);
      UsedDetermines(xs[1..], ys[1..], End(xs[0]), end);
      assert xs == [xs[0]] + xs[1..] && ys == [ys[0]] + ys[1..];
    }
  }

  lemma {:induction false} SameHead(xs: seq<Block>, ys: seq<Block>, start: int, end: int)
    requires Tiles(xs, start, end) && Tiles(ys, start, end) && xs != [] && ys != []
    requires Coalesced(xs) && Coalesced(ys) && Used(xs) == Used(ys)
    ensures xs[0] == ys[0]
  {
    UsedInside(xs[1..], End(xs[0]), end);
    UsedInside(ys[1..], End(ys[0]), end);
    if !xs[0].free { assert Used(xs)[0] == xs[0] && xs[0] in Used(ys); }
    if !ys[0].free { assert Used(ys)[0] == ys[0] && ys[0] in Used(xs); }
    if xs[0].free && ys[0].free {
      FreeHead(xs, start, end);
      FreeHead(ys, start, end);
    }
  }

  // ----- merge_blocks -----

  /** One pass over the list, joining a free block with a free successor as often as possible. */
  function Merge(bs: seq<Block>): seq<Block>
    decreases |bs|
  {
    if |bs| < 2 then bs
    else if bs[0].free && bs[1].free then
      Merge([Joined(bs[0], bs[1])] + bs[2..])
    else [bs[0]] + Merge(bs[1..])
  }

  function Joined(b: Block, c: Block): Block {
    Block(b.addr, b.size + HEADER + c.size, true)
  }

  lemma {:induction false} MergeKeeps(bs: seq<Block>, start: int, end: int)
    requires Tiles(bs, start, end)
    ensures Tiles(Merge(bs), start, end) && Used(Merge(bs)) == Used(bs) && Coalesced(Merge(bs))
    ensures bs != [] ==> Merge(bs) != [] && Merge(bs)[0].free == bs[0].free
    decreases |bs|
  {
    if |bs| >= 2 {
      assert bs[1..][1..] == bs[2..] && bs[1..][0] == bs[1];
      if bs[0].free && bs[1].free {
        var bs' := [Joined(bs[0], bs[1])] + bs[2..];
        assert bs'[1..] == bs[2..];
        MergeKeeps(bs', start, end);
      } else {
        MergeKeeps(bs[1..], End(bs[0]), end);
        assert Merge(bs)[1..] == Merge(bs[1..]);
      }
    }
  }

  /** The list after one join at k. */
  function JoinedList(bs: seq<Block>, k: nat): seq<Block>
    requires k + 1 < |bs|
  {
    bs[..k] + [Joined(bs[k], bs[k + 1])] + bs[k + 2..]
  }

  lemma {:induction false} JoinedKeeps(bs: seq<Block>, k: nat, start: int, end: int)
    requires Tiles(bs, start, end) && k + 1 < |bs| && bs[k].free && bs[k + 1].free
    ensures Tiles(JoinedList(bs, k), start, end)
    ensures Used(bs) == Used(bs[..k]) + Used(bs[k + 2..]) && Used(JoinedList(bs, k)) == Used(bs)
    ensures JoinedList(bs, k)[..k] == bs[..k] && Merge(JoinedList(bs, k)[k..]) == Merge(bs[k..])
  {
    var j := Joined(bs[k], bs[k + 1]);
    TilesSplit(bs, k, start, end);
    assert bs[k + 1..][0] == bs[k + 1] && bs[k + 1..][1..] == bs[k + 2..];
    assert Tiles([j] + bs[k + 2..], j.addr, end) by { assert ([j] + bs[k + 2..])[1..] == bs[k + 2..]; }
    TilesConcat(bs[..k], [j] + bs[k + 2..], start, j.addr, end);
    UsedConcat(bs[..k], [j] + bs[k + 2..]);
    assert JoinedList(bs, k) == bs[..k] + ([j] + bs[k + 2..]);
    assert ([j] + bs[k + 2..])[1..] == bs[k + 2..];
    assert JoinedList(bs, k)[k..] == [j] + bs[k + 2..];
    assert bs[k..][0] == bs[k] && bs[k..][1] == bs[k + 1] && bs[k..][2..] == bs[k + 2..];
  }

  /** A block that cannot be joined with its successor is passed over. */
  lemma {:induction false} MergePasses(bs: seq<Block>, k: nat)
    requires k + 1 < |bs| && !(bs[k].free && bs[k + 1].free)
    ensures Merge(bs[k..]) == [bs[k]] + Merge(bs[k + 1..])
  {
    assert bs[k..][0] == bs[k] && bs[k..][1] == bs[k + 1] && bs[k..][1..] == bs[k + 1..];
  }

  /** A coalesced list is a fixpoint, so memory_defragment does nothing to it. */
  lemma {:induction false} MergeFixpoint(bs: seq<Block>)
    requires Coalesced(bs)
    ensures Merge(bs) == bs
  {
    if |bs| >= 2 {
      assert Coalesced(bs[1..]);
      MergeFixpoint(bs[1..]);
      assert bs == [bs[0]] + bs[1..];
    }
  }

  // ----- memory_stats -----

  /** The payload bytes of a list. */
  function Total(bs: seq<Block>): nat {
    if bs == [] then 0 else bs[0].size + Total(bs[1..])
  }

  lemma {:induction false} TotalSplit(bs: seq<Block>, k: nat)
    requires k < |bs|
    ensures Total(bs[k..]) == bs[k].size + Total(bs[k + 1..])
    ensures Total(Used(bs[k..])) == (if bs[k].free then 0 else bs[k].size) + Total(Used(bs[k + 1..]))
  {
    assert bs[k..][1..] == bs[k + 1..] && bs[k..][0] == bs[k];
    if bs[k].free {
      assert Used(bs[k..]) == Used(bs[k + 1..]);
    } else {
      assert Used(bs[k..])[1..] == Used(bs[k + 1..]);
    }
  }

  /** The headers and the payloads fill the region. */
  lemma {:induction false} TilesTotal(bs: seq<Block>, start: int, end: int)
    requires Tiles(bs, start, end)
    ensures Total(bs) + HEADER * |bs| == end - start
  {
    if bs != [] {
      TilesTotal(bs[1..], End(bs[0]), end);
    }
  }

  // ----- kmalloc -----

  /** The first free block of at least `needed` bytes, or |bs|. */
  function FirstFit(bs: seq<Block>, needed: nat): (i: nat)
    ensures i <= |bs|
    ensures i < |bs| ==> bs[i].free && bs[i].size >= needed
    ensures forall k :: 0 <= k < i ==> !(bs[k].free && bs[k].size >= needed)
  {
    if bs == [] then 0
    else if bs[0].free && bs[0].size >= needed then 0
    else
      var i := 1 + FirstFit(bs[1..], needed);
      assert forall k :: 1 <= k < i ==> bs[k] == bs[1..][k - 1];
      i
  }

  /** The chosen block, split if the rest is worth a header. */
  function Carve(b: Block, needed: nat): seq<Block>
    requires b.size >= needed
  {
    if b.size > needed + HEADER + 8 then
      [Block(b.addr, needed, false), Block(b.addr + HEADER + needed, b.size - needed - HEADER, true)]
    else
      [Block(b.addr, b.size, false)]
  }

  function Allocated(bs: seq<Block>, i: nat, needed: nat): seq<Block>
    requires i < |bs| && bs[i].size >= needed
  {
    bs[..i] + Carve(bs[i], needed) + bs[i + 1..]
  }

  lemma {:induction false} TilesAt(bs: seq<Block>, i: nat, start: int, end: int)
    requires Tiles(bs, start, end) && i < |bs|
    ensures Tiles(bs[..i], start, bs[i].addr) && Tiles(bs[i + 1..], End(bs[i]), end)
    decreases i
  {
    if i > 0 {
      TilesAt(bs[1..], i - 1, End(bs[0]), end);
      assert bs[1..][..i - 1] == bs[..i][1..] && bs[1..][i..] == bs[i + 1..];
    }
  }

  lemma {:induction false} UsedAt(bs: seq<Block>, i: nat)
    requires i < |bs|
    ensures Used(bs) == Used(bs[..i]) + (if bs[i].free then [] else [bs[i]]) + Used(bs[i + 1..])
  {
    assert bs == bs[..i] + ([bs[i]] + bs[i + 1..]);
    UsedConcat(bs[..i], [bs[i]] + bs[i + 1..]);
    assert ([bs[i]] + bs[i + 1..])[1..] == bs[i + 1..];
  }

  lemma {:induction false} TilesSplit(bs: seq<Block>, i: nat, start: int, end: int)
    requires Tiles(bs, start, end) && i < |bs|
    ensures Tiles(bs[..i], start, bs[i].addr) && Tiles(bs[i + 1..], End(bs[i]), end)
    ensures Used(bs) == Used(bs[..i]) + (if bs[i].free then [] else [bs[i]]) + Used(bs[i + 1..])
  {
    TilesAt(bs, i, start, end);
    UsedAt(bs, i);
  }

  lemma {:induction false} CarveKeeps(b: Block, needed: nat)
    requires b.size >= needed
    ensures var c := Carve(b, needed); Tiles(c, b.addr, End(b)) && Used(c) == [c[0]] && Used(c[1..]) == [] && !c[0].free
  {
    var c := Carve(b, needed);
    if |c| == 2 {
      assert c[1..] == [c[1]] && c[1..][1..] == [];
    } else {
      assert c[1..] == [];
    }
    UsedTail(c);
  }

  lemma {:induction false} AllocatedKeeps(bs: seq<Block>, i: nat, needed: nat, start: int, end: int)
    requires Tiles(bs, start, end) && Coalesced(bs) && i < |bs| && bs[i].free && bs[i].size >= needed
    ensures Tiles(Allocated(bs, i, needed), start, end) && Coalesced(Allocated(bs, i, needed))
    ensures Used(Allocated(bs, i, needed)) == Used(bs[..i]) + [Carve(bs[i], needed)[0]] + Used(bs[i + 1..])
  {
    var c := Carve(bs[i], needed);
    TilesSplit(bs, i, start, end);
    CarveKeeps(bs[i], needed);
    TilesConcat(bs[..i], c, start, bs[i].addr, End(bs[i]));
    TilesConcat(bs[..i] + c, bs[i + 1..], start, End(bs[i]), end);
    UsedConcat(bs[..i], c);
    UsedConcat(bs[..i] + c, bs[i + 1..]);
  }

  // ----- kfree -----

  function Freed(bs: seq<Block>, i: nat): seq<Block>
    requires i < |bs|
  {
    Merge(bs[i := Block(bs[i].addr, bs[i].size, true)])
  }

  lemma {:induction false} FreedKeeps(bs: seq<Block>, i: nat, start: int, end: int)
    requires Tiles(bs, start, end) && i < |bs|
    ensures Tiles(Freed(bs, i), start, end) && Coalesced(Freed(bs, i))
    ensures Used(Freed(bs, i)) == Used(bs[..i]) + Used(bs[i + 1..])
  {
    FlaggedKeeps(bs, i, start, end);
    MergeKeeps(bs[i := Block(bs[i].addr, bs[i].size, true)], start, end);
  }

  /** The list with block i marked free, before the merge. */
  lemma {:induction false} FlaggedKeeps(bs: seq<Block>, i: nat, start: int, end: int)
    requires Tiles(bs, start, end) && i < |bs|
    ensures var bs' := bs[i := Block(bs[i].addr, bs[i].size, true)];
      Tiles(bs', start, end) && Used(bs') == Used(bs[..i]) + Used(bs[i + 1..])
  {
    var b := Block(bs[i].addr, bs[i].size, true);
    TilesAt(bs, i, start, end);
    assert ([b] + bs[i + 1..])[1..] == bs[i + 1..];
    TilesConcat(bs[..i], [b] + bs[i + 1..], start, b.addr, end);
    assert bs[i := b] == bs[..i] + ([b] + bs[i + 1..]);
    UsedAt(bs[i := b], i);
    assert bs[i := b][..i] == bs[..i] && bs[i := b][i + 1..] == bs[i + 1..];
  }

  /** Freeing the block that was allocated gives the list back. */
  lemma {:induction false} FreeUndoesAlloc(bs: seq<Block>, i: nat, needed: nat, start: int, end: int)
    requires Tiles(bs, start, end) && Coalesced(bs) && i < |bs| && bs[i].free && bs[i].size >= needed
    ensures Freed(Allocated(bs, i, needed), i) == bs
  {
    var as' := Allocated(bs, i, needed);
    AllocatedKeeps(bs, i, needed, start, end);
    FreedKeeps(as', i, start, end);
    UsedRestored(bs, i, needed);
    UsedDetermines(Freed(as', i), bs, start, end);
  }

  lemma {:induction false} UsedRestored(bs: seq<Block>, i: nat, needed: nat)
    requires i < |bs| && bs[i].free && bs[i].size >= needed
    ensures var as' := Allocated(bs, i, needed); i < |as'| && Used(as'[..i]) + Used(as'[i + 1..]) == Used(bs)
  {
    AllocatedSlices(bs, i, needed);
    CarveKeeps(bs[i], needed);
    UsedConcat(Carve(bs[i], needed)[1..], bs[i + 1..]);
    UsedAt(bs, i);
  }

  lemma {:induction false} AllocatedSlices(bs: seq<Block>, i: nat, needed: nat)
    requires i < |bs| && bs[i].size >= needed
    ensures var as', c := Allocated(bs, i, needed), Carve(bs[i], needed);
      i < |as'| && as'[..i] == bs[..i] && as'[i] == c[0] && as'[i + 1..] == c[1..] + bs[i + 1..]
  {
  }

  // ----- freeing everything -----

  function IndexOf(bs: seq<Block>, a: nat): (i: nat)
    ensures i <= |bs| && (i < |bs| ==> bs[i].addr == a)
    ensures forall k :: 0 <= k < i ==> bs[k].addr != a
  {
    if bs == [] then 0 else if bs[0].addr == a then 0 else
      var i := 1 + IndexOf(bs[1..], a);
      assert forall k :: 1 <= k < i ==> bs[k] == bs[1..][k - 1];
      i
  }

  lemma {:induction false} IndexOfMember(bs: seq<Block>, b: Block)
    requires b in Used(bs)
    ensures IndexOf(bs, b.addr) < |bs|
  {
    UsedAmong(bs);
    var k :| 0 <= k < |bs| && bs[k] == b;
  }

  /** kmalloc keeps every live block, and hands out a stretch that touches none. */
  lemma {:induction false} AllocatedLive(bs: seq<Block>, i: nat, needed: nat, start: int, end: int, b: Block)
    requires Tiles(bs, start, end) && Coalesced(bs) && i < |bs| && bs[i].free && bs[i].size >= needed
    requires b in Used(bs)
    ensures b in Used(Allocated(bs, i, needed)) && (End(b) <= bs[i].addr || End(bs[i]) <= b.addr)
    ensures i < |Allocated(bs, i, needed)| && Allocated(bs, i, needed)[i] == Carve(bs[i], needed)[0]
    ensures Allocated(bs, i, needed)[i] in Used(Allocated(bs, i, needed))
  {
    AllocatedKeeps(bs, i, needed, start, end);
    AllocatedSlices(bs, i, needed);
    TilesSplit(bs, i, start, end);
    UsedInside(bs[..i], start, bs[i].addr);
    UsedInside(bs[i + 1..], End(bs[i]), end);
  }

  /** kfree of the block whose header is at a. */
  function FreeAt(bs: seq<Block>, a: nat): seq<Block> {
    var i := IndexOf(bs, a);
    if i < |bs| then Freed(bs, i) else bs
  }

  /** The addresses of a tiling are all different. */
  lemma {:induction false} IndexUnique(bs: seq<Block>, i: nat, start: int, end: int)
    requires Tiles(bs, start, end) && i < |bs|
    ensures IndexOf(bs, bs[i].addr) == i && start <= bs[i].addr
    decreases i
  {
    if i > 0 {
      IndexUnique(bs[1..], i - 1, End(bs[0]), end);
      assert bs[1..][i - 1] == bs[i];
    }
  }

  /** kfree of the address kmalloc gave undoes kmalloc exactly. */
  lemma {:induction false} FreeAtUndoesAlloc(bs: seq<Block>, i: nat, needed: nat, start: int, end: int)
    requires Tiles(bs, start, end) && Coalesced(bs) && i < |bs| && bs[i].free && bs[i].size >= needed
    ensures FreeAt(Allocated(bs, i, needed), bs[i].addr) == bs && IndexOf(Allocated(bs, i, needed), bs[i].addr) == i
  {
    AllocatedKeeps(bs, i, needed, start, end);
    AllocatedSlices(bs, i, needed);
    IndexUnique(Allocated(bs, i, needed), i, start, end);
    FreeUndoesAlloc(bs, i, needed, start, end);
  }

  function FreeAll(bs: seq<Block>, order: seq<nat>): seq<Block>
    decreases |order|
  {
    if order == [] then bs else FreeAll(FreeAt(bs, order[0]), order[1..])
  }

  lemma {:induction false} FreeAtUsed(bs: seq<Block>, a: nat, start: int, end: int)
    requires Tiles(bs, start, end) && Coalesced(bs)
    ensures Tiles(FreeAt(bs, a), start, end) && Coalesced(FreeAt(bs, a))
    ensures forall b :: b in Used(FreeAt(bs, a)) ==> b in Used(bs) && b.addr != a
  {
    var i := IndexOf(bs, a);
    if i < |bs| {
      FreedKeeps(bs, i, start, end);
      TilesSplit(bs, i, start, end);
      UsedInside(bs[..i], start, a);
      UsedInside(bs[i + 1..], End(bs[i]), end);
    } else {
      UsedAmong(bs);
    }
  }

  lemma {:induction false} UsedAmong(bs: seq<Block>)
    ensures forall b :: b in Used(bs) ==> b in bs && !b.free
  {
    if bs != [] {
      UsedAmong(bs[1..]);
      assert forall b :: b in bs[1..] ==> b in bs;
    }
  }

  lemma {:induction false} EmptyOrNot(bs: seq<Block>)
    ensures bs == [] || exists b :: b in bs
  {
    if bs != [] {
      assert bs[0] in bs;
    }
  }

  /** Freeing every used block, in whatever order, gives back the single initial block. */
  lemma {:induction false} FreeAllRestores(bs: seq<Block>, order: seq<nat>, start: nat, end: nat)
    requires Tiles(bs, start, end) && Coalesced(bs) && start + HEADER <= end
    requires forall b :: b in Used(bs) ==> b.addr in order
    ensures FreeAll(bs, order) == [Block(start, end - start - HEADER, true)]
    decreases |order|
  {
    if order == [] {
      var one := [Block(start, end - start - HEADER, true)];
      assert one[1..] == [];
      EmptyOrNot(Used(bs));
      UsedDetermines(bs, one, start, end);
    } else {
      FreeAtUsed(bs, order[0], start, end);
      FreeAllRestores(FreeAt(bs, order[0]), order[1..], start, end);
    }
  }
}
