/** SHA-1 as FIPS 180-4 defines it, on messages of whole bytes. */
module Sha1Spec {
  import opened Bytes
  import opened Words

  /** Section 5.2.1: a block is sixteen words. */
  type Block = b: seq<Byte> | |b| == 64 witness seq(64, _ => 0)

  datatype State = State(a: U32, b: U32, c: U32, d: U32, e: U32)

  function BigEndian(b: seq<Byte>, i: nat): U32
    requires i + 4 <= |b|
  {
    0x100_0000 * (b[i] as int) + 0x1_0000 * (b[i + 1] as int) + 0x100 * (b[i + 2] as int) + (b[i + 3] as int)
  }

  // Section 3.2: rotation by 1, 5 and 30 bits.
  function Rotl(x: U32, n: nat): U32
    requires n == 1 || n == 5 || n == 30
  {
    if n == 1 then Or(x * 2 % 0x1_0000_0000, x / 0x8000_0000)
    else if n == 5 then Or(x * 32 % 0x1_0000_0000, x / 0x800_0000)
    else Or(x * 0x4000_0000 % 0x1_0000_0000, x / 4)
  }

  // Section 4.1.1
  function Ch(x: U32, y: U32, z: U32): U32 { Xor(And(x, y), And(Not(x), z)) }
  function Parity(x: U32, y: U32, z: U32): U32 { Xor(Xor(x, y), z) }
  function Maj(x: U32, y: U32, z: U32): U32 { Xor(Xor(And(x, y), And(x, z)), And(y, z)) }

  function F(t: nat, x: U32, y: U32, z: U32): U32 {
    if t < 20 then Ch(x, y, z) else if t < 40 then Parity(x, y, z) else if t < 60 then Maj(x, y, z) else Parity(x, y, z)
  }

  // Section 4.2.1
  function K(t: nat): U32 {
    if t < 20 then 0x5A82_7999 else if t < 40 then 0x6ED9_EBA1 else if t < 60 then 0x8F1B_BCDC else 0xCA62_C1D6
  }

  // Section 5.3.1
  const INITIAL := State(0x6745_2301, 0xEFCD_AB89, 0x98BA_DCFE, 0x1032_5476, 0xC3D2_E1F0)

  // Section 6.1.2, steps 1 to 4
  function W(m: Block, t: nat): U32 {
    if t < 16 then BigEndian(m, 4 * t) else Rotl(Xor(Xor(Xor(W(m, t - 3), W(m, t - 8)), W(m, t - 14)), W(m, t - 16)), 1)
  }

  function Schedule(m: Block): seq<U32> { seq(80, t requires 0 <= t => W(m, t)) }

  function Round(t: nat, v: State, w: U32): State {
    State(Add(Add(Add(Add(Rotl(v.a, 5), F(t, v.b, v.c, v.d)), v.e), K(t)), w), v.a, Rotl(v.b, 30), v.c, v.d)
  }

  function Rounds(ws: seq<U32>, v: State): State {
    if ws == [] then v else Round(|ws| - 1, Rounds(ws[..|ws| - 1], v), ws[|ws| - 1])
  }

  function Sum(h: State, v: State): State {
    State(Add(h.a, v.a), Add(h.b, v.b), Add(h.c, v.c), Add(h.d, v.d), Add(h.e, v.e))
  }

  function Compress(h: State, m: Block): State { Sum(h, Rounds(Schedule(m), h)) }

  /** Section 6.1.2 as a whole: block after block. */
  function Fold(f: (State, Block) -> State, h: State, s: seq<Byte>): State
    decreases |s|
  {
    if |s| < 64 then h else Fold(f, f(h, s[..64]), s[64..])
  }

  // Section 5.1.1
  function Zeros(n: nat): (s: seq<Byte>)
    ensures |s| == n
  {
    seq(n, _ => 0)
  }

  /** The smallest number of zero bytes that leaves room for the length. */
  function ZeroCount(n: nat): (z: nat)
    ensures z < 64 && (n + 1 + z + 8) % 64 == 0
  {
    (119 - n % 64) % 64
  }

  // Numbers as bytes, the most significant first.
  function Two(x: nat): (s: seq<Byte>)
    requires x < 0x1_0000
    ensures |s| == 2
  {
    [x / 256, x % 256]
  }

  function Four(x: nat): (s: seq<Byte>)
    requires x < 0x1_0000_0000
    ensures |s| == 4
  {
    Two(x / 0x1_0000) + Two(x % 0x1_0000)
  }

  function Eight(x: nat): (s: seq<Byte>)
    requires x < 0x1_0000_0000_0000_0000
    ensures |s| == 8
  {
    Four(x / 0x1_0000_0000) + Four(x % 0x1_0000_0000)
  }

  function PadWith(m: seq<Byte>, length: seq<Byte>): (s: seq<Byte>)
    requires |length| == 8
    ensures |s| % 64 == 0
  {
    m + [0x80] + Zeros(ZeroCount(|m|)) + length
  }

  /** The length of the message, which is less than 2^64 bits. */
  predicate Short(m: seq<Byte>) { 8 * |m| < 0x1_0000_0000_0000_0000 }

  function Pad(m: seq<Byte>): (s: seq<Byte>)
    requires Short(m)
    ensures |s| % 64 == 0
  {
    PadWith(m, Eight(8 * |m|))
  }

  function StateBytes(h: State): (s: seq<Byte>)
    ensures |s| == 20
  {
    Four(h.a) + Four(h.b) + Four(h.c) + Four(h.d) + Four(h.e)
  }

  function Digest(m: seq<Byte>): (s: seq<Byte>)
    requires Short(m)
    ensures |s| == 20
  {
    StateBytes(Fold(Compress, INITIAL, Pad(m)))
  }

  lemma {:induction false} FoldConcat(f: (State, Block) -> State, h: State, xs: seq<Byte>, ys: seq<Byte>)
    requires |xs| % 64 == 0
    ensures Fold(f, h, xs + ys) == Fold(f, Fold(f, h, xs), ys)
    decreases |xs|
  {
    if |xs| < 64 {
      assert xs + ys == ys;
    } else {
      assert (xs + ys)[..64] == xs[..64] && (xs + ys)[64..] == xs[64..] + ys;
      FoldConcat(f, f(h, xs[..64]), xs[64..], ys);
    }
  }
}
