/** Streaming SHA-1 (ports/libsha1/libsha1.c): any sequence of calls to sha1_hash gives the digest
    that FIPS 180-4 defines for the concatenation of the data. */
module Sha1 {
  import opened Bytes
  import opened Words
  import opened Sha1Spec

  /** sha1_load_be32 */
  method LoadBe32(b: seq<Byte>, i: nat) returns (w: U32)
    requires i + 4 <= |b|
    ensures w == BigEndian(b, i)
  {
    LoadByOr(b[i], b[i + 1], b[i + 2], b[i + 3]);
    w := Or(Or(Or(b[i] as int * 0x100_0000, b[i + 1] as int * 0x1_0000), b[i + 2] as int * 0x100), b[i + 3]);
  }

  lemma {:induction false} LoadByOr(p: Byte, q: Byte, r: Byte, s: Byte)
    ensures var x := Or(p as int * 0x100_0000, q as int * 0x1_0000);
      Or(Or(x, r as int * 0x100), s) == 0x100_0000 * p as int + 0x1_0000 * q as int + 0x100 * r as int + s as int
  {
    Powers();
    var x: int := p as int * 0x100 + q as int;
    assert Or(p as int * 0x100_0000, q as int * 0x1_0000) == x * 0x1_0000 by {
      OrIsPlus(p, q as int * 0x1_0000, 24);
    }
    var y: int := x * 0x100 + r as int;
    assert Or(x * 0x1_0000, r as int * 0x100) == y * 0x100 by {
      OrIsPlus(x, r as int * 0x100, 16);
    }
    OrIsPlus(y, s, 8);
  }

  /** sha1_store_be32 */
  function StoreBe32(w: U32): (s: seq<Byte>)
    ensures |s| == 4
  {
    [w / 0x100_0000, w / 0x1_0000 % 256, w / 0x100 % 256, w % 256]
  }

  /** sha1_store_be64: the bytes of the high half, then those of the low half. */
  function StoreBe64(x: nat): (s: seq<Byte>)
    requires x < 0x1_0000_0000_0000_0000
    ensures |s| == 8
  {
    StoreBe32(x / 0x1_0000_0000) + StoreBe32(x % 0x1_0000_0000)
  }

  lemma {:induction false} FromBytes(w: U32, a: nat, b: nat, c: nat, d: nat)
    requires w == 0x100_0000 * a + 0x1_0000 * b + 0x100 * c + d && a < 256 && b < 256 && c < 256 && d < 256
    ensures w / 0x100_0000 == a && w / 0x1_0000 % 256 == b && w / 0x100 % 256 == c && w % 256 == d
  {
    assert w / 0x1_0000 == 256 * a + b;
    assert w / 0x100 == 0x1_0000 * a + 0x100 * b + c;
  }

  lemma {:induction false} StoresFour(w: U32)
    ensures StoreBe32(w) == Four(w)
  {
    var h, l := w / 0x1_0000, w % 0x1_0000;
    FromBytes(w, h / 256, h % 256, l / 256, l % 256);
  }

  lemma {:induction false} StoresEight(x: nat)
    requires x < 0x1_0000_0000_0000_0000
    ensures StoreBe64(x) == Eight(x)
  {
    StoresFour(x / 0x1_0000_0000);
    StoresFour(x % 0x1_0000_0000);
  }

  method Choose(b: U32, c: U32, d: U32) returns (f: U32)
    ensures f == Ch(b, c, d)
  {
    ChooseByOr(b, c, d);
    f := Or(And(b, c), And(Not(b), d));
  }

  method Majority(b: U32, c: U32, d: U32) returns (f: U32)
    ensures f == Maj(b, c, d)
  {
    MajorityByOr(b, c, d);
    f := Or(Or(And(b, c), And(b, d)), And(c, d));
  }

  /** The function and the constant of step i. */
  method Mix(i: nat, b: U32, c: U32, d: U32) returns (f: U32, k: U32)
    ensures f == F(i, b, c, d) && k == K(i)
  {
    if i < 20 {
      f := Choose(b, c, d);
      k := 0x5A82_7999;
    } else if i < 40 {
      f, k := Xor(Xor(b, c), d), 0x6ED9_EBA1;
    } else if i < 60 {
      f := Majority(b, c, d);
      k := 0x8F1B_BCDC;
    } else {
      f, k := Xor(Xor(b, c), d), 0xCA62_C1D6;
    }
  }

  /** The message schedule in sha1_transform. */
  method MakeSchedule(m: Block) returns (w: array<U32>)
    ensures w[..] == Schedule(m)
  {
    w := new U32[80];
    var i := 0;
    while i < 16
      invariant 0 <= i <= 16 && forall t :: 0 <= t < i ==> w[t] == W(m, t)
    {
      w[i] := LoadBe32(m, 4 * i);
      i := i + 1;
    }
    while i < 80
      invariant 16 <= i <= 80 && forall t :: 0 <= t < i ==> w[t] == W(m, t)
    {
      w[i] := Rotl(Xor(Xor(Xor(w[i - 3], w[i - 8]), w[i - 14]), w[i - 16]), 1);
      i := i + 1;
    }
  }

  /** One step of the loop in sha1_transform. */
  method Step(i: nat, v: State, w: U32) returns (r: State)
    ensures r == Round(i, v, w)
  {
    var f, k := Mix(i, v.b, v.c, v.d);
    var temp := Add(Add(Add(Add(Rotl(v.a, 5), f), v.e), k), w);
    r := State(temp, v.a, Rotl(v.b, 30), v.c, v.d);
  }

  /** The eighty steps. */
  method Steps(w: array<U32>, state: State) returns (v: State)
    ensures v == Rounds(w[..], state)
  {
    v := state;
    var i := 0;
    while i < w.Length
      invariant 0 <= i <= w.Length && v == Rounds(w[..i], state)
    {
      v := Step(i, v, w[i]);
      RoundsNext(w[..i + 1], state);
      assert w[..i + 1][..i] == w[..i];
      i := i + 1;
    }
    assert w[..i] == w[..];
  }

  lemma {:induction false} RoundsNext(ws: seq<U32>, v: State)
    requires ws != []
    ensures Rounds(ws, v) == Round(|ws| - 1, Rounds(ws[..|ws| - 1], v), ws[|ws| - 1])
  {
  }

  /** sha1_transform */
  method Transform(state: State, m: Block) returns (r: State)
    ensures r == Compress(state, m)
  {
    var w := MakeSchedule(m);
    var v := Steps(w, state);
    r := Sum(state, v);
  }

  /** One more block. */
  lemma {:induction false} FoldBlock(f: (State, Block) -> State, h: State, xs: seq<Byte>, m: Block)
    requires |xs| % 64 == 0
    ensures Fold(f, h, xs + m) == f(Fold(f, h, xs), m)
  {
    FoldConcat(f, h, xs, m);
    assert m[..64] == m && m[64..] == [];
  }

  /** f is the compression function of the standard, looked up on demand. */
  ghost predicate Honest(f: (State, Block) -> State) {
    forall h, m {:trigger Asked(f, h, m)} :: Asked(f, h, m) ==> f(h, m) == Compress(h, m)
  }

  ghost predicate Asked(f: (State, Block) -> State, h: State, m: Block) { true }

  /** sha1_transform on the block that follows xs. */
  method NextBlock(h: State, ghost f: (State, Block) -> State, ghost iv: State, ghost xs: seq<Byte>, m: Block)
    returns (r: State)
    requires Honest(f) && |xs| % 64 == 0 && h == Fold(f, iv, xs)
    ensures r == Fold(f, iv, xs + m)
  {
    FoldBlock(f, iv, xs, m);
    r := Transform(h, m);
    assert Asked(f, h, m);
  }

  /** The loop of sha1_hash: whole blocks straight from the data. */
  method WholeBlocks(h: State, ghost f: (State, Block) -> State, ghost iv: State, ghost xs: seq<Byte>, bytes: seq<Byte>)
    returns (r: State, at: nat)
    requires Honest(f) && |xs| % 64 == 0 && h == Fold(f, iv, xs)
    ensures at <= |bytes| < at + 64 && at % 64 == 0 && r == Fold(f, iv, xs + bytes[..at])
  {
    r, at := h, 0;
    assert xs + bytes[..0] == xs;
    while |bytes| - at >= 64
      invariant at <= |bytes| && at % 64 == 0 && r == Fold(f, iv, xs + bytes[..at])
    {
      r := NextBlock(r, f, iv, xs + bytes[..at], bytes[at..at + 64]);
      assert xs + bytes[..at] + bytes[at..at + 64] == xs + bytes[..at + 64];
      at := at + 64;
    }
  }

  /** sha1_ctx */
  class Context {
    var state: State
    var totalLen: nat
    var bufferLen: nat
    const buffer: array<Byte>
    /** The chain's function and start, and the blocks that have gone into the state. */
    ghost const f: (State, Block) -> State
    ghost const iv: State
    ghost var whole: seq<Byte>

    ghost predicate Chain()
      reads this, buffer
    {
      && Honest(f) && buffer.Length == 64 && bufferLen < 64
      && |whole| % 64 == 0 && state == Fold(f, iv, whole)
    }

    /** All the data hashed so far. */
    ghost function Message(): seq<Byte>
      requires Chain()
      reads this, buffer
    {
      whole + buffer[..bufferLen]
    }

    ghost predicate Valid()
      reads this, buffer
    {
      Chain() && (|Message()| < 0x1_0000_0000_0000_0000 ==> totalLen == |Message()|)
    }

    /** sha1_begin, which takes h to be INITIAL. */
    constructor (h: State, ghost f: (State, Block) -> State)
      requires Honest(f)
      ensures Valid() && Message() == [] && this.f == f && iv == h && fresh(buffer)
    {
      buffer := new Byte[64];
      this.f := f;
      iv := h;
      state := h;
      totalLen := 0;
      bufferLen := 0;
      whole := [];
    }

    /** The last memcpy of sha1_hash. */
    method Keep(rest: seq<Byte>)
      requires buffer.Length == 64 && |rest| < 64
      modifies this`bufferLen, buffer
      ensures bufferLen == |rest| && buffer[..bufferLen] == rest
    {
      forall i | 0 <= i < |rest| {
        buffer[i] := rest[i];
      }
      bufferLen := |rest|;
    }

    /** The end of sha1_hash, when the buffer is empty or the data is used up. */
    method HashRest(bytes: seq<Byte>)
      requires Chain() && (bufferLen == 0 || bytes == [])
      modifies this`state, this`bufferLen, this`whole, buffer
      ensures Chain() && Message() == old(Message()) + bytes
    {
      var at;
      state, at := WholeBlocks(state, f, iv, whole, bytes);
      whole := whole + bytes[..at];
      if at != |bytes| {
        Keep(bytes[at..]);
        assert whole + bytes[at..] == old(whole) + bytes;
      }
    }

    /** The start of sha1_hash: bytes that complete the buffered block, or fail to. */
    method FillBuffer(bytes: seq<Byte>)
      requires Chain() && bufferLen + |bytes| <= 64 && 0 < bufferLen
      modifies this`state, this`bufferLen, this`whole, buffer
      ensures Chain() && Message() == old(Message()) + bytes
      ensures bufferLen == if old(bufferLen) + |bytes| == 64 then 0 else old(bufferLen) + |bytes|
    {
      ghost var before := buffer[..bufferLen];
      forall i | 0 <= i < |bytes| {
        buffer[bufferLen + i] := bytes[i];
      }
      bufferLen := bufferLen + |bytes|;
      var held := buffer[..bufferLen];
      assert held == before + bytes;
      if bufferLen == 64 {
        state := NextBlock(state, f, iv, whole, held);
        whole := whole + held;
        bufferLen := 0;
      }
    }

    /** sha1_hash but for the total length. */
    method Absorb(data: seq<Byte>)
      requires Chain()
      modifies this`state, this`bufferLen, this`whole, buffer
      ensures Chain() && Message() == old(Message()) + data
    {
      var bytes := data;
      if bufferLen != 0 {
        var needed := if 64 - bufferLen > |bytes| then |bytes| else 64 - bufferLen;
        FillBuffer(bytes[..needed]);
        bytes := bytes[needed..];
        assert old(Message()) + data == Message() + bytes;
      }
      HashRest(bytes);
    }

    /** sha1_hash */
    method Hash(data: seq<Byte>)
      requires Valid()
      modifies this, buffer
      ensures Valid() && Message() == old(Message()) + data
    {
      totalLen := (totalLen + |data|) % 0x1_0000_0000_0000_0000;
      Absorb(data);
    }

    /** The padding of sha1_end. */
    method Finalize()
      requires Valid() && Short(Message())
      modifies this`state
      ensures state == Fold(f, iv, Pad(old(Message())))
    {
      state := Padding(state, f, iv, whole, buffer[..bufferLen], totalLen);
    }

    /** sha1_end but for clearing the context. */
    method End() returns (digest: seq<Byte>)
      requires Valid() && Short(Message())
      modifies this`state
      ensures state == Fold(f, iv, Pad(old(Message()))) && digest == StateBytes(state)
    {
      Finalize();
      digest := StoreState(state);
    }
  }

  /** The two halves of the length and the blocks that hold it. */
  method Padding(h: State, ghost f: (State, Block) -> State, ghost iv: State, ghost xs: seq<Byte>, rest: seq<Byte>,
                 totalLen: nat)
    returns (r: State)
    requires Honest(f) && |rest| < 64 && |xs| % 64 == 0 && h == Fold(f, iv, xs)
    requires Short(xs + rest) && totalLen == |xs + rest|
    ensures r == Fold(f, iv, Pad(xs + rest))
  {
    var length := BitLength(totalLen);
    r := Finish(h, f, iv, xs, rest, length);
  }

  /** bit_len, stored. */
  method BitLength(totalLen: nat) returns (length: seq<Byte>)
    requires totalLen < 0x2000_0000_0000_0000
    ensures length == Eight(8 * totalLen)
  {
    var bitLen := totalLen * 8 % 0x1_0000_0000_0000_0000;
    assert bitLen == 8 * totalLen;
    StoresEight(bitLen);
    length := StoreBe64(bitLen);
  }

  /** The padding in sha1_end: one more block or two. */
  method Finish(h: State, ghost f: (State, Block) -> State, ghost iv: State, ghost xs: seq<Byte>, rest: seq<Byte>,
                length: seq<Byte>)
    returns (r: State)
    requires Honest(f) && |rest| < 64 && |xs| % 64 == 0 && h == Fold(f, iv, xs) && |length| == 8
    ensures r == Fold(f, iv, PadWith(xs + rest, length))
  {
    r := h;
    ghost var ys := xs;
    var tail := rest + [0x80];
    PadTail(xs, rest, length);
    if |tail| > 56 {
      var block: Block := tail + Zeros(64 - |tail|);
      r := NextBlock(r, f, iv, ys, block);
      ys := ys + block;
      tail := [];
    }
    var last: Block := tail + Zeros(56 - |tail|) + length;
    assert ys + last == PadWith(xs + rest, length);
    r := NextBlock(r, f, iv, ys, last);
  }

  /** The loop at the end of sha1_end. */
  method StoreState(h: State) returns (digest: seq<Byte>)
    ensures digest == StateBytes(h)
  {
    StoresFour(h.a);
    StoresFour(h.b);
    StoresFour(h.c);
    StoresFour(h.d);
    StoresFour(h.e);
    digest := StoreBe32(h.a) + StoreBe32(h.b) + StoreBe32(h.c) + StoreBe32(h.d) + StoreBe32(h.e);
  }

  /** The padded message: whole blocks, then one block, or two when the length does not fit into one. */
  lemma {:induction false} PadTail(xs: seq<Byte>, rest: seq<Byte>, length: seq<Byte>)
    requires |rest| < 64 && |xs| % 64 == 0 && |length| == 8
    ensures var n, s := |rest|, PadWith(xs + rest, length);
      && (n < 56 ==> s == xs + (rest + [0x80] + Zeros(55 - n) + length))
      && (n >= 56 ==> s == xs + (rest + [0x80] + Zeros(63 - n)) + ([] + Zeros(56) + length))
  {
    var n := |rest|;
    assert |xs + rest| % 64 == n;
    if n < 56 {
      assert ZeroCount(|xs + rest|) == 55 - n;
    } else {
      assert ZeroCount(|xs + rest|) == 119 - n;
      assert Zeros(119 - n) == Zeros(63 - n) + Zeros(56);
    }
  }

  lemma {:induction false} CompressIsHonest()
    ensures Honest(Compress)
  {
  }

  /** The concatenation of the data passed to sha1_hash. */
  function Concat(chunks: seq<seq<Byte>>): seq<Byte> {
    if chunks == [] then [] else Concat(chunks[..|chunks| - 1]) + chunks[|chunks| - 1]
  }

  /** sha1_begin, any number of calls to sha1_hash, sha1_end. */
  method Sha1(chunks: seq<seq<Byte>>) returns (digest: seq<Byte>)
    requires Short(Concat(chunks))
    ensures digest == Digest(Concat(chunks))
  {
    CompressIsHonest();
    var c := new Context(INITIAL, Compress);
    HashAll(c, chunks);
    digest := c.End();
  }

  method HashAll(c: Context, chunks: seq<seq<Byte>>)
    requires c.Valid() && c.Message() == []
    modifies c, c.buffer
    ensures c.Valid() && c.Message() == Concat(chunks)
  {
    var i := 0;
    while i < |chunks|
      invariant 0 <= i <= |chunks| && c.Valid() && c.Message() == Concat(chunks[..i])
    {
      assert chunks[..i + 1][..i] == chunks[..i];
      c.Hash(chunks[i]);
      i := i + 1;
    }
    assert chunks[..i] == chunks;
  }
}
