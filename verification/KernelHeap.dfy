/** The kernel heap in memory (src/memory.c), on one contiguous region: 12-byte headers in
    front of the blocks they describe, linked by address.  Every operation refines its
    counterpart in `Blocks`, and leaves the bytes of live blocks alone. */
module KernelHeap {
  import opened Bytes
  import opened Blocks

  /** align_up(size, 8) in 32-bit arithmetic. */
  function Needed(size: U32): (n: U32)
    ensures n >= size <==> size <= 0xFFFF_FFF8
    ensures if size <= 0xFFFF_FFF8 then n < size + 8 && n % 8 == 0 else n == 0
  {
    var x := if size + 7 < 0x1_0000_0000 then size + 7 else size + 7 - 0x1_0000_0000;
    x - x % 8
  }

  // ----- headers: size at +0, free at +4, next at +8 -----

  function Size(m: seq<Byte>, p: nat): U32 requires p + HEADER <= |m| { Load32(m, p) }
  function Free(m: seq<Byte>, p: nat): bool requires p + HEADER <= |m| { m[p + 4] != 0 }
  function Next(m: seq<Byte>, p: nat): U32 requires p + HEADER <= |m| { Load32(m, p + 8) }

  /** m' is m with the header at p rewritten. */
  predicate HeaderSet(m: seq<Byte>, m': seq<Byte>, p: nat, size: int, free: bool, next: int) {
    && p + HEADER <= |m| && SameBut(m, m', p, HEADER)
    && Size(m', p) == size && Free(m', p) == free && Next(m', p) == next
  }

  method SetSize(m: seq<Byte>, p: nat, x: U32) returns (m': seq<Byte>)
    requires p + HEADER <= |m|
    ensures HeaderSet(m, m', p, x, Free(m, p), Next(m, p))
  {
    m' := Store32(m, p, x);
    SameWord(m, m', p + 8);
  }

  method SetFree(m: seq<Byte>, p: nat, free: bool) returns (m': seq<Byte>)
    requires p + HEADER <= |m|
    ensures HeaderSet(m, m', p, Size(m, p), free, Next(m, p))
  {
    m' := m[p + 4 := if free then 1 else 0];
    SameWord(m, m', p);
    SameWord(m, m', p + 8);
  }

  method SetNext(m: seq<Byte>, p: nat, x: U32) returns (m': seq<Byte>)
    requires p + HEADER <= |m|
    ensures HeaderSet(m, m', p, Size(m, p), Free(m, p), x)
  {
    m' := Store32(m, p + 8, x);
    SameWord(m, m', p);
  }

  lemma {:induction false} HeaderKept(m: seq<Byte>, m': seq<Byte>, p: nat)
    requires p + HEADER <= |m| == |m'| && forall a :: p <= a < p + HEADER ==> m'[a] == m[a]
    ensures Size(m', p) == Size(m, p) && Free(m', p) == Free(m, p) && Next(m', p) == Next(m, p)
  {
    SameWord(m, m', p);
    SameWord(m, m', p + 8);
  }

  // ----- linked segments -----

  /** Following the links from p to q visits exactly the blocks bs. */
  predicate Seg(m: seq<Byte>, bs: seq<Block>, p: nat, q: nat) {
    if bs == [] then p == q
    else
      && p == bs[0].addr && p + HEADER <= |m|
      && Size(m, p) == bs[0].size && Free(m, p) == bs[0].free
      && Seg(m, bs[1..], Next(m, p), q)
  }

  lemma {:induction false} SegConcat(m: seq<Byte>, xs: seq<Block>, ys: seq<Block>, p: nat, mid: nat, q: nat)
    requires Seg(m, xs, p, mid) && Seg(m, ys, mid, q)
    ensures Seg(m, xs + ys, p, q)
  {
    if xs == [] {
      assert xs + ys == ys;
    } else {
      SegConcat(m, xs[1..], ys, Next(m, p), mid, q);
      assert (xs + ys)[1..] == xs[1..] + ys;
    }
  }

  lemma {:induction false} SegSplit(m: seq<Byte>, bs: seq<Block>, i: nat, p: nat, q: nat)
    requires Seg(m, bs, p, q) && i < |bs|
    ensures Seg(m, bs[..i], p, bs[i].addr) && Seg(m, bs[i..], bs[i].addr, q)
    ensures bs[i].addr + HEADER <= |m| && Size(m, bs[i].addr) == bs[i].size && Free(m, bs[i].addr) == bs[i].free
    ensures Seg(m, bs[i + 1..], Next(m, bs[i].addr), q)
    decreases i
  {
    if i > 0 {
      SegSplit(m, bs[1..], i - 1, Next(m, p), q);
      assert bs[1..][..i - 1] == bs[..i][1..] && bs[1..][i - 1..] == bs[i..] && bs[1..][i..] == bs[i + 1..];
    }
  }

  /** A segment depends only on the memory its blocks tile. */
  lemma {:induction false} SegFrame(m: seq<Byte>, m': seq<Byte>, bs: seq<Block>, p: nat, q: nat, lo: int, hi: int)
    requires Tiles(bs, lo, hi) && Seg(m, bs, p, q) && |m| == |m'|
    requires forall a :: lo <= a < hi && 0 <= a < |m| ==> m'[a] == m[a]
    ensures Seg(m', bs, p, q)
  {
    if bs != [] {
      UsedInside(bs[1..], End(bs[0]), hi);
      HeaderKept(m, m', p);
      SegFrame(m, m', bs[1..], Next(m, p), q, End(bs[0]), hi);
    }
  }

  predicate SameOutside(m: seq<Byte>, m': seq<Byte>, lo: int, hi: int) {
    |m| == |m'| && forall a :: 0 <= a < |m| && !(lo <= a < hi) ==> m'[a] == m[a]
  }

  /** Replacing the blocks from i to j by `mid` over the same stretch of memory. */
  lemma {:induction false} SegReplace(m: seq<Byte>, m': seq<Byte>, bs: seq<Block>, i: nat, j: nat, mid: seq<Block>,
                                      start: nat, end: nat, next: nat)
    requires Tiles(bs, start, end) && Seg(m, bs, start, 0) && i <= j < |bs|
    requires bs[j].addr + HEADER <= |m| && next == Next(m, bs[j].addr)
    requires SameOutside(m, m', bs[i].addr, End(bs[j]))
    requires Seg(m', mid, bs[i].addr, next)
    ensures Seg(m', bs[..i] + mid + bs[j + 1..], start, 0)
  {
    SegBefore(m, m', bs, i, start, end);
    SegBehind(m, m', bs, j, start, end);
    SegConcat(m', bs[..i], mid, start, bs[i].addr, next);
    SegConcat(m', bs[..i] + mid, bs[j + 1..], start, next, 0);
  }

  lemma {:induction false} SegBefore(m: seq<Byte>, m': seq<Byte>, bs: seq<Block>, i: nat, start: nat, end: nat)
    requires Tiles(bs, start, end) && Seg(m, bs, start, 0) && i < |bs| && |m| == |m'|
    requires forall a :: 0 <= a < |m| && a < bs[i].addr ==> m'[a] == m[a]
    ensures Seg(m', bs[..i], start, bs[i].addr)
  {
    SegSplit(m, bs, i, start, 0);
    TilesAt(bs, i, start, end);
    SegFrame(m, m', bs[..i], start, bs[i].addr, start, bs[i].addr);
  }

  lemma {:induction false} SegBehind(m: seq<Byte>, m': seq<Byte>, bs: seq<Block>, j: nat, start: nat, end: nat)
    requires Tiles(bs, start, end) && Seg(m, bs, start, 0) && j < |bs| && |m| == |m'|
    requires forall a :: 0 <= a < |m| && End(bs[j]) <= a ==> m'[a] == m[a]
    ensures bs[j].addr + HEADER <= |m| && Seg(m', bs[j + 1..], Next(m, bs[j].addr), 0)
  {
    SegSplit(m, bs, j, start, 0);
    TilesAt(bs, j, start, end);
    SegFrame(m, m', bs[j + 1..], Next(m, bs[j].addr), 0, End(bs[j]), end);
  }

  /** A block of a tiling lies within its bounds, and later blocks lie behind it. */
  lemma {:induction false} BlockBounds(bs: seq<Block>, i: nat, start: int, end: int)
    requires Tiles(bs, start, end) && i < |bs|
    ensures start <= bs[i].addr && End(bs[i]) <= end
    ensures i + 1 < |bs| ==> bs[i + 1].addr == End(bs[i])
    ensures i + 1 == |bs| ==> End(bs[i]) == end
  {
    TilesAt(bs, i, start, end);
    UsedInside(bs[..i], start, bs[i].addr);
    UsedInside(bs[i + 1..], End(bs[i]), end);
    if i + 1 < |bs| {
      assert bs[i + 1..][0] == bs[i + 1];
    }
  }

  /** Live blocks keep their header and their contents. */
  predicate LiveKept(m: seq<Byte>, m': seq<Byte>, live: seq<Block>) {
    |m| == |m'| && forall b :: b in live ==> BytesKept(m, m', b)
  }

  predicate BytesKept(m: seq<Byte>, m': seq<Byte>, b: Block)
    requires |m| == |m'|
  {
    forall a :: 0 <= a < |m| && b.addr <= a < End(b) ==> m'[a] == m[a]
  }

  /** A change within a stretch that holds no live block keeps them all. */
  lemma {:induction false} OutsideKeeps(m: seq<Byte>, m': seq<Byte>, bs: seq<Block>, i: nat, j: nat, start: int,
                                        end: int)
    requires Tiles(bs, start, end) && i <= j < |bs| && SameOutside(m, m', bs[i].addr, End(bs[j]))
    ensures LiveKept(m, m', Used(bs[..i]) + Used(bs[j + 1..]))
  {
    TilesAt(bs, i, start, end);
    TilesAt(bs, j, start, end);
    UsedInside(bs[..i], start, bs[i].addr);
    UsedInside(bs[j + 1..], End(bs[j]), end);
  }

  // ----- merge_blocks -----

  lemma {:induction false} JoinStep(m: seq<Byte>, bs: seq<Block>, k: nat, start: nat, end: nat, m': seq<Byte>)
    requires Tiles(bs, start, end) && Seg(m, bs, start, 0) && end <= |m|
    requires k + 1 < |bs| && bs[k].free && bs[k + 1].free && bs[k + 1].addr + HEADER <= |m|
    requires HeaderSet(m, m', bs[k].addr, bs[k].size + HEADER + bs[k + 1].size, true, Next(m, bs[k + 1].addr))
    ensures Seg(m', JoinedList(bs, k), start, 0)
    ensures LiveKept(m, m', Used(bs[..k]) + Used(bs[k + 2..]))
  {
    BlockBounds(bs, k, start, end);
    BlockBounds(bs, k + 1, start, end);
    var j := Joined(bs[k], bs[k + 1]);
    assert [j][1..] == [];
    SegReplace(m, m', bs, k, k + 1, [j], start, end, Next(m, bs[k + 1].addr));
    OutsideKeeps(m, m', bs, k, k + 1, start, end);
  }

  /** The state of merge_blocks at block k of the current list c: what was passed is final. */
  ghost predicate Merging(m0: seq<Byte>, bs0: seq<Block>, m: seq<Byte>, c: seq<Block>, k: nat, start: nat, end: nat) {
    && Tiles(c, start, end) && Seg(m, c, start, 0) && k < |c| && end <= |m|
    && Merge(bs0) == c[..k] + Merge(c[k..])
    && Used(c) == Used(bs0) && LiveKept(m0, m, Used(bs0))
  }

  lemma {:induction false} MergingJoins(m0: seq<Byte>, bs0: seq<Block>, m: seq<Byte>, c: seq<Block>, k: nat,
                                        start: nat, end: nat, m': seq<Byte>)
    requires Merging(m0, bs0, m, c, k, start, end)
    requires k + 1 < |c| && c[k].free && c[k + 1].free && c[k + 1].addr + HEADER <= |m|
    requires HeaderSet(m, m', c[k].addr, c[k].size + HEADER + c[k + 1].size, true, Next(m, c[k + 1].addr))
    ensures Merging(m0, bs0, m', JoinedList(c, k), k, start, end)
  {
    JoinedKeeps(c, k, start, end);
    JoinStep(m, c, k, start, end, m');
  }

  lemma {:induction false} MergingMoves(m0: seq<Byte>, bs0: seq<Block>, m: seq<Byte>, c: seq<Block>, k: nat,
                                        start: nat, end: nat)
    requires Merging(m0, bs0, m, c, k, start, end)
    requires k + 1 < |c| && !(c[k].free && c[k + 1].free)
    ensures Merging(m0, bs0, m, c, k + 1, start, end)
  {
    MergePasses(c, k);
    assert c[..k + 1] == c[..k] + [c[k]];
    assert c[..k] + ([c[k]] + Merge(c[k + 1..])) == c[..k + 1] + Merge(c[k + 1..]);
  }

  /** What block->next holds. */
  lemma {:induction false} NextBlock(m: seq<Byte>, bs: seq<Block>, k: nat, start: nat, end: nat)
    requires Tiles(bs, start, end) && Seg(m, bs, start, 0) && k < |bs|
    ensures bs[k].addr + HEADER <= |m| && Size(m, bs[k].addr) == bs[k].size && Free(m, bs[k].addr) == bs[k].free
    ensures Next(m, bs[k].addr) == if k + 1 < |bs| then bs[k + 1].addr else 0
    ensures start <= bs[k].addr && End(bs[k]) <= end && (k + 1 < |bs| ==> bs[k + 1].addr == End(bs[k]))
  {
    SegSplit(m, bs, k, start, 0);
    BlockBounds(bs, k, start, end);
    if k + 1 < |bs| {
      assert bs[k + 1..][0] == bs[k + 1];
    }
  }

  /** block->size += sizeof(block_header_t) + next->size; block->next = next->next */
  method JoinHeaders(m: seq<Byte>, p: nat, n: nat) returns (m': seq<Byte>)
    requires p + HEADER <= n && n + HEADER <= |m| && Size(m, p) + HEADER + Size(m, n) < 0x1_0000_0000
    ensures HeaderSet(m, m', p, Size(m, p) + HEADER + Size(m, n), Free(m, p), Next(m, n))
  {
    m' := SetSize(m, p, Size(m, p) + HEADER + Size(m, n));
    HeaderKept(m, m', n);
    m' := SetNext(m', p, Next(m', n));
  }

  predicate HeaderIs(m: seq<Byte>, p: nat, size: int, free: bool, next: int) {
    p + HEADER <= |m| && Size(m, p) == size && Free(m, p) == free && Next(m, p) == next
  }

  /** The headers kmalloc leaves where block p was. */
  predicate CarvedAt(m: seq<Byte>, m': seq<Byte>, p: nat, size: nat, needed: nat, next: int) {
    && SameOutside(m, m', p, p + HEADER + size)
    && if size > needed + HEADER + 8 then
         && HeaderIs(m', p, needed, false, p + HEADER + needed)
         && HeaderIs(m', p + HEADER + needed, size - needed - HEADER, true, next)
       else
         HeaderIs(m', p, size, false, next)
  }

  lemma {:induction false} CarveStep(m: seq<Byte>, bs: seq<Block>, i: nat, needed: nat, start: nat, end: nat,
                                     m': seq<Byte>)
    requires Tiles(bs, start, end) && Seg(m, bs, start, 0) && i < |bs| && bs[i].size >= needed
    requires bs[i].addr + HEADER <= |m| && CarvedAt(m, m', bs[i].addr, bs[i].size, needed, Next(m, bs[i].addr))
    ensures Seg(m', Allocated(bs, i, needed), start, 0)
    ensures LiveKept(m, m', Used(bs[..i]) + Used(bs[i + 1..]))
  {
    var c, next := Carve(bs[i], needed), Next(m, bs[i].addr);
    assert Seg(m', c, bs[i].addr, next) by {
      if |c| == 2 {
        assert c[1..] == [c[1]] && c[1..][1..] == [];
      } else {
        assert c[1..] == [];
      }
    }
    SegReplace(m, m', bs, i, i, c, start, end, next);
    OutsideKeeps(m, m', bs, i, i, start, end);
  }

  lemma {:induction false} FreeStep(m: seq<Byte>, bs: seq<Block>, i: nat, start: nat, end: nat, m': seq<Byte>)
    requires Tiles(bs, start, end) && Seg(m, bs, start, 0) && i < |bs| && bs[i].addr + HEADER <= |m|
    requires HeaderSet(m, m', bs[i].addr, bs[i].size, true, Next(m, bs[i].addr))
    ensures var bs' := bs[i := Block(bs[i].addr, bs[i].size, true)]; Seg(m', bs', start, 0) && Tiles(bs', start, end)
    ensures LiveKept(m, m', Used(bs[..i]) + Used(bs[i + 1..]))
  {
    var b := Block(bs[i].addr, bs[i].size, true);
    assert [b][1..] == [];
    SegReplace(m, m', bs, i, i, [b], start, end, Next(m, bs[i].addr));
    OutsideKeeps(m, m', bs, i, i, start, end);
    assert bs[i := b] == bs[..i] + [b] + bs[i + 1..];
    TilesAt(bs, i, start, end);
    TilesConcat(bs[..i], [b], start, b.addr, End(b));
    TilesConcat(bs[..i] + [b], bs[i + 1..], start, End(b), end);
  }

  /** The body of kmalloc once a block has been found. */
  method CarveHeaders(m: seq<Byte>, p: nat, needed: nat) returns (m': seq<Byte>)
    requires p + HEADER <= |m| <= 0x1_0000_0000 && p + HEADER + Size(m, p) <= |m| && Size(m, p) >= needed
    ensures CarvedAt(m, m', p, Size(m, p), needed, Next(m, p))
  {
    m' := m;
    var size := Size(m, p);
    if size > needed + HEADER + 8 {
      m' := SplitHeaders(m, p, needed);
    }
    m' := ClearFree(m', p, p + HEADER + needed, size > needed + HEADER + 8);
  }

  /** Writes the header of the split-off rest and relinks the block. */
  method SplitHeaders(m: seq<Byte>, p: nat, needed: nat) returns (m': seq<Byte>)
    requires p + HEADER <= |m| <= 0x1_0000_0000 && Size(m, p) > needed + HEADER + 8 && p + HEADER + Size(m, p) <= |m|
    ensures SameOutside(m, m', p, p + HEADER + Size(m, p))
    ensures HeaderIs(m', p, needed, Free(m, p), p + HEADER + needed)
    ensures HeaderIs(m', p + HEADER + needed, Size(m, p) - needed - HEADER, true, Next(m, p))
  {
    var sp := p + HEADER + needed;
    var m1 := SetSize(m, sp, Size(m, p) - needed - HEADER);
    m1 := SetFree(m1, sp, true);
    m1 := SetNext(m1, sp, Next(m, p));
    HeaderKept(m, m1, p);
    m' := SetNext(m1, p, sp);
    m' := SetSize(m', p, needed);
    HeaderKept(m1, m', sp);
  }

  /** block->free = false; another header at sp, if there is one, stays. */
  method ClearFree(m: seq<Byte>, p: nat, ghost sp: nat, ghost other: bool) returns (m': seq<Byte>)
    requires p + HEADER <= |m| && (other ==> p + HEADER <= sp && sp + HEADER <= |m|)
    ensures HeaderSet(m, m', p, Size(m, p), false, Next(m, p))
    ensures other ==> HeaderIs(m', sp, Size(m, sp), Free(m, sp), Next(m, sp))
  {
    m' := SetFree(m, p, false);
    if other {
      HeaderKept(m, m', sp);
    }
  }

  /** The loop of merge_blocks over a linked list in memory. */
  method MergeList(mem: seq<Byte>, ghost bs: seq<Block>, start: nat, ghost end: nat)
    returns (m: seq<Byte>, ghost c: seq<Block>, merged: bool)
    requires 16 <= start && start + HEADER <= end <= |mem| <= 0x1_0000_0000
    requires Tiles(bs, start, end) && Seg(mem, bs, start, 0)
    ensures |m| == |mem| && Tiles(c, start, end) && Seg(m, c, start, 0)
    ensures c == Merge(bs) && LiveKept(mem, m, Used(bs))
    ensures if merged then |c| < |bs| else m == mem && c == bs
  {
    m, c, merged := mem, bs, false;
    ghost var k := 0;
    assert c[..0] + Merge(c[0..]) == Merge(c) by { assert c[0..] == c; }
    var p := start;
    NextBlock(m, c, 0, start, end);
    while p != 0 && Next(m, p) != 0
      invariant Merging(mem, bs, m, c, k, start, end)
      invariant p == c[k].addr && p + HEADER <= |m|
      invariant if merged then |c| < |bs| else m == mem && c == bs
      decreases |c| - k
    {
      NextBlock(m, c, k, start, end);
      var n := Next(m, p);
      NextBlock(m, c, k + 1, start, end);
      if Free(m, p) && Free(m, n) {
        var m' := JoinHeaders(m, p, n);
        MergingJoins(mem, bs, m, c, k, start, end, m');
        m, c, merged := m', JoinedList(c, k), true;
        NextBlock(m, c, k, start, end);
      } else {
        MergingMoves(mem, bs, m, c, k, start, end);
        p := n;
        k := k + 1;
      }
    }
    NextBlock(m, c, k, start, end);
    assert c[k..] == [c[k]] && c == c[..k] + [c[k]];
  }

  class Heap {
    var mem: seq<Byte>
    /** heap_head; the region ends at `end`. */
    const start: nat
    const end: nat
    ghost var blocks: seq<Block>

    ghost predicate Linked()
      reads this
    {
      && 16 <= start && start + HEADER <= end <= |mem| <= 0x1_0000_0000
      && Tiles(blocks, start, end) && Seg(mem, blocks, start, 0)
    }

    ghost predicate Valid()
      reads this
    {
      Linked() && Coalesced(blocks)
    }

    /** memory_init on one region. */
    constructor (mem: seq<Byte>, start: nat, end: nat)
      requires 16 <= start && start + HEADER <= end <= |mem| <= 0x1_0000_0000
      ensures Valid() && this.start == start && this.end == end
      ensures blocks == [Block(start, end - start - HEADER, true)]
    {
      this.start := start;
      this.end := end;
      var m := SetSize(mem, start, end - start - HEADER);
      m := SetFree(m, start, true);
      m := SetNext(m, start, 0);
      this.mem := m;
      blocks := [Block(start, end - start - HEADER, true)];
      assert [Block(start, end - start - HEADER, true)][1..] == [];
    }

    /** merge_blocks, which is also one pass of memory_defragment. */
    method MergeBlocks() returns (merged: bool)
      requires Linked()
      modifies this
      ensures Linked() && |mem| == |old(mem)|
      ensures blocks == Merge(old(blocks)) && LiveKept(old(mem), mem, Used(old(blocks)))
      ensures if merged then |blocks| < |old(blocks)| else mem == old(mem) && blocks == old(blocks)
    {
      mem, blocks, merged := MergeList(mem, blocks, start, end);
    }

    /** memory_defragment: passes until one joins nothing. */
    method Defragment()
      requires Linked()
      modifies this
      ensures Valid() && blocks == Merge(old(blocks)) && LiveKept(old(mem), mem, Used(old(blocks)))
      ensures old(Valid()) ==> mem == old(mem)
    {
      MergeKeeps(blocks, start, end);
      MergeFixpoint(Merge(blocks));
      var merged := MergeBlocks();
      ghost var m := mem;
      while merged
        invariant Linked() && blocks == Merge(old(blocks)) && mem == m
        decreases merged
      {
        merged := MergeBlocks();
      }
      if Coalesced(old(blocks)) {
        MergeFixpoint(old(blocks));
      }
    }

    /** memory_stats: with the headers, the used and the free bytes make up the region. */
    method Stats() returns (used: nat, free: nat)
      requires Valid()
      ensures used == Total(Used(blocks)) && used + free + HEADER * |blocks| == end - start
    {
      used, free := 0, 0;
      var block := start;
      ghost var k := 0;
      NextBlock(mem, blocks, 0, start, end);
      assert blocks[0..] == blocks;
      while block != 0
        invariant k <= |blocks| && block == (if k < |blocks| then blocks[k].addr else 0)
        invariant (block == 0 <==> k == |blocks|)
        invariant used + Total(Used(blocks[k..])) == Total(Used(blocks))
        invariant used + free + Total(blocks[k..]) == Total(blocks)
        decreases |blocks| - k
      {
        NextBlock(mem, blocks, k, start, end);
        TotalSplit(blocks, k);
        if Free(mem, block) {
          free := free + Size(mem, block);
        } else {
          used := used + Size(mem, block);
        }
        block := Next(mem, block);
        k := k + 1;
      }
      TilesTotal(blocks, start, end);
    }

    /** The block at p, of at least `needed` bytes, is taken. */
    method TakeBlock(p: nat, needed: nat, ghost k: nat)
      requires Valid() && k < |blocks| && p == blocks[k].addr && blocks[k].free && blocks[k].size >= needed
      modifies this
      ensures Valid() && |mem| == |old(mem)|
      ensures LiveKept(old(mem), mem, Used(old(blocks))) && blocks == Allocated(old(blocks), k, needed)
    {
      NextBlock(mem, blocks, k, start, end);
      var m := CarveHeaders(mem, p, needed);
      CarveStep(mem, blocks, k, needed, start, end, m);
      AllocatedKeeps(blocks, k, needed, start, end);
      UsedAt(blocks, k);
      mem := m;
      blocks := Allocated(blocks, k, needed);
    }

    /** kmalloc: first fit. */
    method Kmalloc(size: U32) returns (p: nat)
      requires Valid()
      modifies this
      ensures Valid() && |mem| == |old(mem)|
      ensures LiveKept(old(mem), mem, Used(old(blocks)))
      ensures var i := FirstFit(old(blocks), Needed(size));
        if size == 0 || i == |old(blocks)| then
          p == 0 && blocks == old(blocks) && mem == old(mem)
        else
          p == old(blocks)[i].addr + HEADER && blocks == Allocated(old(blocks), i, Needed(size))
    {
      if size == 0 {
        return 0;
      }
      var needed := Needed(size);
      var block := start;
      ghost var i, k := FirstFit(blocks, needed), 0;
      NextBlock(mem, blocks, 0, start, end);
      while block != 0
        invariant mem == old(mem) && blocks == old(blocks)
        invariant k <= i && block == (if k < |blocks| then blocks[k].addr else 0) && (block == 0 <==> k == |blocks|)
        decreases |blocks| - k
      {
        NextBlock(mem, blocks, k, start, end);
        if Free(mem, block) && Size(mem, block) >= needed {
          TakeBlock(block, needed, k);
          return block + HEADER;
        }
        block := Next(mem, block);
        k := k + 1;
      }
      p := 0;
    }

    /** kfree of a block of the list; the null pointer is ignored. */
    method Kfree(p: nat)
      requires Valid() && (p != 0 ==> HasBlock(blocks, p))
      modifies this
      ensures Valid() && |mem| == |old(mem)|
      ensures p == 0 ==> blocks == old(blocks) && mem == old(mem)
      ensures p != 0 ==> blocks == FreeAt(old(blocks), p - HEADER)
      ensures p != 0 ==> LiveKeptBut(old(mem), mem, Used(old(blocks)), p - HEADER)
    {
      if p == 0 {
        return;
      }
      ghost var i := IndexOf(blocks, p - HEADER);
      NextBlock(mem, blocks, i, start, end);
      var m := SetFree(mem, p - HEADER, true);
      FreeStep(mem, blocks, i, start, end, m);
      FreedKeeps(blocks, i, start, end);
      mem := m;
      blocks := blocks[i := Block(blocks[i].addr, blocks[i].size, true)];
      var _ := MergeBlocks();
      FreedLive(old(mem), m, mem, old(blocks), i);
    }

    /** memcpy of n bytes into the live block at q. */
    method CopyInto(q: nat, p: nat, n: nat, ghost k: nat)
      requires Valid() && k < |blocks| && q == blocks[k].addr + HEADER && n <= blocks[k].size && p + n <= |mem|
      modifies this`mem
      ensures Valid() && |mem| == |old(mem)| && q + n <= |mem|
      ensures Span(mem, q, n) == Span(old(mem), p, n)
      ensures SameOutside(old(mem), mem, q, q + n)
    {
      NextBlock(mem, blocks, k, start, end);
      var m := Put(mem, q, mem[p..p + n]);
      PayloadStep(mem, blocks, k, start, end, m);
      mem := m;
    }

    /** The end of krealloc: b's contents move to the block j just taken, then b is freed. */
    method MoveOver(p: nat, q: nat, n: nat, ghost b: Block, ghost m: seq<Byte>, ghost bs: seq<Block>, ghost j: nat,
                    ghost needed: nat)
      requires Valid() && Tiles(bs, start, end) && Coalesced(bs) && b in Used(bs) && LiveKept(m, mem, Used(bs))
      requires j < |bs| && bs[j].free && bs[j].size >= needed && b.size <= Carve(bs[j], needed)[0].size
      requires blocks == Allocated(bs, j, needed)
      requires p == b.addr + HEADER && n == b.size && p + n <= |mem| && q == bs[j].addr + HEADER
      modifies this
      ensures Valid() && Moved(m, bs, b, j, needed, mem, blocks)
    {
      AllocatedLive(bs, j, needed, start, end, b);
      IndexOfMember(blocks, b);
      ghost var m1 := mem;
      CopyInto(q, p, n, j);
      ghost var m2 := mem;
      Kfree(p);
      MoveDone(m, m1, m2, mem, bs, b, p, n, j, needed, start, end);
    }

    /** The part of krealloc that finds a larger block for b. */
    method Grow(p: nat, n: nat, newSize: U32, ghost b: Block) returns (r: nat)
      requires Valid() && b in Used(blocks) && p == b.addr + HEADER && n == b.size < newSize && End(b) <= |mem|
      requires CopyFits(blocks, b, newSize)
      modifies this
      ensures Valid()
      ensures var j := FirstFit(old(blocks), Needed(newSize));
        if j == |old(blocks)| then
          r == 0 && blocks == old(blocks) && mem == old(mem)
        else
          r == old(blocks)[j].addr + HEADER && Moved(old(mem), old(blocks), b, j, Needed(newSize), mem, blocks)
    {
      r := Kmalloc(newSize);
      if r == 0 {
        return;
      }
      MoveOver(p, r, n, b, old(mem), old(blocks), FirstFit(old(blocks), Needed(newSize)), Needed(newSize));
    }

    /** krealloc. Excluded is a request for which the block found is smaller than the old contents. */
    method Krealloc(p: nat, newSize: U32) returns (r: nat)
      requires Valid()
      requires p != 0 ==> HasBlock(blocks, p) && !blocks[IndexOf(blocks, p - HEADER)].free
      requires p != 0 ==> CopyFits(blocks, blocks[IndexOf(blocks, p - HEADER)], newSize)
      modifies this
      ensures Valid() && |mem| == |old(mem)|
      ensures p == 0 ==> LiveKept(old(mem), mem, Used(old(blocks)))
      ensures p == 0 ==>
        var i := FirstFit(old(blocks), Needed(newSize));
        if newSize == 0 || i == |old(blocks)| then
          r == 0 && blocks == old(blocks) && mem == old(mem)
        else
          r == old(blocks)[i].addr + HEADER && blocks == Allocated(old(blocks), i, Needed(newSize))
      ensures p != 0 && newSize == 0 ==>
        && r == 0 && blocks == FreeAt(old(blocks), p - HEADER)
        && LiveKeptBut(old(mem), mem, Used(old(blocks)), p - HEADER)
      ensures p != 0 && newSize != 0 ==>
        var b, j := old(blocks)[IndexOf(old(blocks), p - HEADER)], FirstFit(old(blocks), Needed(newSize));
        if b.size >= newSize then
          r == p && blocks == old(blocks) && mem == old(mem)
        else if j == |old(blocks)| then
          r == 0 && blocks == old(blocks) && mem == old(mem)
        else
          r == old(blocks)[j].addr + HEADER && Moved(old(mem), old(blocks), b, j, Needed(newSize), mem, blocks)
    {
      if p == 0 {
        r := Kmalloc(newSize);
        return;
      }
      if newSize == 0 {
        Kfree(p);
        return 0;
      }
      ghost var i := IndexOf(blocks, p - HEADER);
      NextBlock(mem, blocks, i, start, end);
      UsedAt(blocks, i);
      var n := Size(mem, p - HEADER);
      if n >= newSize {
        return p;
      }
      r := Grow(p, n, newSize, blocks[i]);
    }
  }

  /** The block kmalloc would find for this size holds the contents of b, if it finds one. */
  predicate CopyFits(bs: seq<Block>, b: Block, newSize: U32) {
    var j := FirstFit(bs, Needed(newSize));
    j < |bs| && newSize > b.size ==> b.size <= Carve(bs[j], Needed(newSize))[0].size
  }

  /** Exactly when the rounded size does not wrap, or b is kept, or nothing is free, or the first free
      block is not split and holds the contents, or there are none. */
  lemma FitsExactly(bs: seq<Block>, b: Block, newSize: U32)
    ensures CopyFits(bs, b, newSize) <==>
      || newSize <= 0xFFFF_FFF8 || newSize <= b.size || FirstFit(bs, 0) == |bs|
      || b.size <= Handed(bs[FirstFit(bs, 0)])
  {
  }

  /** The size of the block that kmalloc makes of b when the size asked for has wrapped to 0. */
  function Handed(b: Block): nat { if b.size > HEADER + 8 then 0 else b.size }

  /** When the contents do not fit, the memcpy of krealloc runs past the end of the block that kmalloc
      handed out, and what lies there is overwritten with the old contents. */
  method Overrun(h: Heap, p: nat, newSize: U32) returns (q: nat)
    requires h.Valid() && HasBlock(h.blocks, p) && !h.blocks[IndexOf(h.blocks, p - HEADER)].free
    requires !CopyFits(h.blocks, h.blocks[IndexOf(h.blocks, p - HEADER)], newSize)
    requires var b, j := h.blocks[IndexOf(h.blocks, p - HEADER)], FirstFit(h.blocks, 0);
      j < |h.blocks| ==> h.blocks[j].addr + HEADER + b.size <= |h.mem|
    modifies h
    ensures var b, j := old(h.blocks)[IndexOf(old(h.blocks), p - HEADER)], FirstFit(old(h.blocks), 0);
      && j < |old(h.blocks)| && h.blocks == Allocated(old(h.blocks), j, 0) && j < |h.blocks|
      && q == h.blocks[j].addr + HEADER && End(h.blocks[j]) < q + b.size <= |h.mem| == |old(h.mem)|
      && p + b.size <= |h.mem| && Span(h.mem, q, b.size) == Span(old(h.mem), p, b.size)
  {
    ghost var i, j, bs, m := IndexOf(h.blocks, p - HEADER), FirstFit(h.blocks, 0), h.blocks, h.mem;
    TooSmall(bs, bs[i], newSize);
    LiveBlock(h.mem, bs, i, h.start, h.end);
    var n := Size(h.mem, p - HEADER);
    q := h.Kmalloc(newSize);
    LiveSpan(m, h.mem, bs, i);
    h.mem := CopyBytes(h.mem, q, p, n);
  }

  /** The block kmalloc hands out when the contents of b do not fit. */
  lemma {:induction false} TooSmall(bs: seq<Block>, b: Block, newSize: U32)
    requires !CopyFits(bs, b, newSize)
    ensures var j := FirstFit(bs, 0);
      && newSize != 0 && Needed(newSize) == 0 && j < |bs| && j < |Allocated(bs, j, 0)|
      && Allocated(bs, j, 0)[j] == Block(bs[j].addr, Handed(bs[j]), false) && Handed(bs[j]) < b.size
  {
    FitsExactly(bs, b, newSize);
    AllocatedSlices(bs, FirstFit(bs, 0), 0);
  }

  /** A used block of the list, with its size in memory. */
  lemma {:induction false} LiveBlock(m: seq<Byte>, bs: seq<Block>, i: nat, start: nat, end: nat)
    requires 16 <= start && start + HEADER <= end <= |m| <= 0x1_0000_0000
    requires Tiles(bs, start, end) && Seg(m, bs, start, 0) && i < |bs| && !bs[i].free
    ensures bs[i] in Used(bs) && End(bs[i]) <= |m| && Size(m, bs[i].addr) == bs[i].size
  {
    NextBlock(m, bs, i, start, end);
    UsedAt(bs, i);
  }

  lemma {:induction false} LiveSpan(m: seq<Byte>, m': seq<Byte>, bs: seq<Block>, i: nat)
    requires i < |bs| && bs[i] in Used(bs) && End(bs[i]) <= |m| && LiveKept(m, m', Used(bs))
    ensures Span(m', bs[i].addr + HEADER, bs[i].size) == Span(m, bs[i].addr + HEADER, bs[i].size)
  {
    assert BytesKept(m, m', bs[i]);
    SpanKept(m, m', bs[i].addr + HEADER, bs[i].size);
  }

  /** memcpy */
  method CopyBytes(m: seq<Byte>, q: nat, p: nat, n: nat) returns (m': seq<Byte>)
    requires p + n <= |m| && q + n <= |m|
    ensures |m'| == |m| && Span(m', q, n) == Span(m, p, n) && SameOutside(m, m', q, q + n)
  {
    m' := Put(m, q, m[p..p + n]);
  }

  /** In particular, if the first free block is split, what lies there is the header of the rest. */
  method HeaderOverrun(h: Heap, p: nat, newSize: U32) returns (q: nat)
    requires h.Valid() && HasBlock(h.blocks, p) && newSize > 0xFFFF_FFF8
    requires var b := h.blocks[IndexOf(h.blocks, p - HEADER)]; !b.free && HEADER <= b.size < newSize
    requires var b, j := h.blocks[IndexOf(h.blocks, p - HEADER)], FirstFit(h.blocks, 0);
      j < |h.blocks| && h.blocks[j].size > HEADER + 8 && h.blocks[j].addr + HEADER + b.size <= |h.mem|
    modifies h
    ensures var j := FirstFit(old(h.blocks), 0);
      && j + 1 < |h.blocks| && h.blocks[j].size == 0 && h.blocks[j + 1].addr == q
      && q + HEADER <= |h.mem| == |old(h.mem)| && p + HEADER <= |h.mem|
      && Span(h.mem, q, HEADER) == Span(old(h.mem), p, HEADER)
  {
    ghost var i, j, bs, m := IndexOf(h.blocks, p - HEADER), FirstFit(h.blocks, 0), h.blocks, h.mem;
    FitsExactly(bs, bs[i], newSize);
    EmptyCarve(bs, j);
    q := Overrun(h, p, newSize);
    assert Span(h.mem, q, HEADER) == Span(h.mem, q, bs[i].size)[..HEADER];
    assert Span(m, p, HEADER) == Span(m, p, bs[i].size)[..HEADER];
  }

  lemma {:induction false} EmptyCarve(bs: seq<Block>, j: nat)
    requires j < |bs| && bs[j].size > HEADER + 8
    ensures var bs' := Allocated(bs, j, 0);
      j + 1 < |bs'| && bs'[j].size == 0 && bs'[j + 1].addr == bs[j].addr + HEADER
  {
    AllocatedSlices(bs, j, 0);
    assert Allocated(bs, j, 0)[j + 1] == Allocated(bs, j, 0)[j + 1..][0];
  }

  /** kmalloc and then kfree: the block list is the old one, and no live byte has changed. */
  method AllocThenFree(h: Heap, size: U32) returns (p: nat)
    requires h.Valid()
    modifies h
    ensures h.Valid() && h.blocks == old(h.blocks) && LiveKept(old(h.mem), h.mem, Used(old(h.blocks)))
  {
    ghost var bs, m := h.blocks, h.mem;
    p := h.Kmalloc(size);
    if p != 0 {
      ghost var i, m1 := FirstFit(bs, Needed(size)), h.mem;
      FreeAtUndoesAlloc(bs, i, Needed(size), h.start, h.end);
      AllocatedSlices(bs, i, Needed(size));
      h.Kfree(p);
      LiveThrough(m, m1, h.mem, bs, i, Needed(size), h.start, h.end);
    }
  }

  lemma {:induction false} LiveThrough(m: seq<Byte>, m1: seq<Byte>, m2: seq<Byte>, bs: seq<Block>, i: nat, needed: nat,
                                       start: int, end: int)
    requires Tiles(bs, start, end) && Coalesced(bs) && i < |bs| && bs[i].free && bs[i].size >= needed
    requires LiveKept(m, m1, Used(bs)) && LiveKeptBut(m1, m2, Used(Allocated(bs, i, needed)), bs[i].addr)
    ensures LiveKept(m, m2, Used(bs))
  {
    forall b | b in Used(bs) ensures BytesKept(m, m2, b) {
      AllocatedLive(bs, i, needed, start, end, b);
      assert BytesKept(m, m1, b) && BytesKept(m1, m2, b);
    }
  }

  /** What krealloc does to a live block b that has to move to the free block j: the contents
      move along, everything else that is live stays. */
  ghost predicate Moved(m: seq<Byte>, bs: seq<Block>, b: Block, j: nat, needed: nat, m': seq<Byte>, bs': seq<Block>)
    requires j < |bs| && bs[j].size >= needed
  {
    var q := bs[j].addr + HEADER;
    && bs' == FreeAt(Allocated(bs, j, needed), b.addr)
    && LiveKeptBut(m, m', Used(bs), b.addr)
    && End(b) <= |m| && q + b.size <= |m'| && Span(m', q, b.size) == Span(m, b.addr + HEADER, b.size)
  }

  /** The n bytes at p. */
  function Span(m: seq<Byte>, p: nat, n: nat): (s: seq<Byte>)
    requires p + n <= |m|
  {
    m[p..p + n]
  }

  lemma {:induction false} SpanKept(m: seq<Byte>, m': seq<Byte>, p: nat, n: nat)
    requires p + n <= |m| == |m'| && forall a :: p <= a < p + n ==> m'[a] == m[a]
    ensures Span(m', p, n) == Span(m, p, n)
  {
  }

  /** kmalloc (m1), memcpy (m2) and kfree (m3) together move the contents. */
  lemma {:induction false} MoveDone(m0: seq<Byte>, m1: seq<Byte>, m2: seq<Byte>, m3: seq<Byte>, bs: seq<Block>,
                                    b: Block, p: nat, n: nat, j: nat, needed: nat, start: int, end: int)
    requires Tiles(bs, start, end) && Coalesced(bs) && j < |bs| && bs[j].free && bs[j].size >= needed
    requires n == b.size <= Carve(bs[j], needed)[0].size
    requires b in Used(bs) && LiveKept(m0, m1, Used(bs)) && p == b.addr + HEADER && p + n <= |m1|
    requires var q := bs[j].addr + HEADER;
      0 <= q && q + n <= |m1| == |m2| && SameOutside(m1, m2, q, q + n) && Span(m2, q, n) == Span(m1, p, n)
    requires LiveKeptBut(m2, m3, Used(Allocated(bs, j, needed)), b.addr)
    ensures Moved(m0, bs, b, j, needed, m3, FreeAt(Allocated(bs, j, needed), b.addr))
  {
    var q := bs[j].addr + HEADER;
    AllocatedLive(bs, j, needed, start, end, b);
    SpanKept(m0, m1, p, n);
    SpanKept(m2, m3, q, n);
    OthersStay(m0, m1, m2, m3, bs, b, j, needed, start, end);
  }

  lemma {:induction false} OthersStay(m0: seq<Byte>, m1: seq<Byte>, m2: seq<Byte>, m3: seq<Byte>, bs: seq<Block>,
                                      b: Block, j: nat, needed: nat, start: int, end: int)
    requires Tiles(bs, start, end) && Coalesced(bs) && j < |bs| && bs[j].free && bs[j].size >= needed
    requires b.size <= Carve(bs[j], needed)[0].size
    requires LiveKept(m0, m1, Used(bs)) && LiveKeptBut(m2, m3, Used(Allocated(bs, j, needed)), b.addr)
    requires SameOutside(m1, m2, bs[j].addr + HEADER, bs[j].addr + HEADER + b.size)
    ensures LiveKeptBut(m0, m3, Used(bs), b.addr)
  {
    forall b' | b' in Used(bs) && b'.addr != b.addr
      ensures BytesKept(m0, m3, b')
    {
      AllocatedLive(bs, j, needed, start, end, b');
      assert BytesKept(m0, m1, b') && BytesKept(m2, m3, b');
    }
  }

  /** p is the payload of a block of the list. */
  ghost predicate HasBlock(bs: seq<Block>, p: nat) {
    p >= HEADER && IndexOf(bs, p - HEADER) < |bs|
  }

  /** Live blocks other than the one with its header at h keep their bytes. */
  predicate LiveKeptBut(m: seq<Byte>, m': seq<Byte>, live: seq<Block>, h: int) {
    |m| == |m'| && forall b :: b in live && b.addr != h ==> BytesKept(m, m', b)
  }

  /** Writing into a payload leaves the list as it is. */
  lemma {:induction false} PayloadStep(m: seq<Byte>, bs: seq<Block>, i: nat, start: nat, end: nat, m': seq<Byte>)
    requires Tiles(bs, start, end) && Seg(m, bs, start, 0) && i < |bs|
    requires SameOutside(m, m', bs[i].addr + HEADER, End(bs[i]))
    ensures Seg(m', bs, start, 0)
  {
    SegSplit(m, bs, i, start, 0);
    HeaderKept(m, m', bs[i].addr);
    assert [bs[i]][1..] == [];
    SegReplace(m, m', bs, i, i, [bs[i]], start, end, Next(m, bs[i].addr));
    assert bs == bs[..i] + [bs[i]] + bs[i + 1..];
  }

  /** Marking block i free (m1) and merging (m2) keep every live block but that one. */
  lemma {:induction false} FreedLive(m: seq<Byte>, m1: seq<Byte>, m2: seq<Byte>, bs: seq<Block>, i: nat)
    requires i < |bs| && LiveKept(m, m1, Used(bs[..i]) + Used(bs[i + 1..]))
    requires LiveKept(m1, m2, Used(bs[i := Block(bs[i].addr, bs[i].size, true)]))
    ensures LiveKeptBut(m, m2, Used(bs), bs[i].addr)
  {
    var bs' := bs[i := Block(bs[i].addr, bs[i].size, true)];
    UsedAt(bs', i);
    assert bs'[..i] == bs[..i] && bs'[i + 1..] == bs[i + 1..];
    UsedAt(bs, i);
    forall b | b in Used(bs) && b.addr != bs[i].addr
      ensures BytesKept(m, m2, b)
    {
      assert b in Used(bs');
      assert BytesKept(m, m1, b) && BytesKept(m1, m2, b);
    }
  }
}
