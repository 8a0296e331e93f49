/** Byte-addressed memory with little-endian 32-bit words. */
module Bytes {
  type Byte = b: int | 0 <= b < 256
  type U32 = n: int | 0 <= n < 0x1_0000_0000

  /** 2^32 */
  const WORD := 0x1_0000_0000

  function Min(a: nat, b: nat): nat { if a < b then a else b }

  /** The number with these little-endian digits. */
  function Decode(s: seq<Byte>): nat {
    if s == [] then 0 else s[0] as int + 0x100 * Decode(s[1..])
  }

  function Encode(x: U32): (s: seq<Byte>)
    ensures |s| == 4
  {
    [x % 0x100, x / 0x100 % 0x100, x / 0x100 / 0x100 % 0x100, x / 0x100 / 0x100 / 0x100]
  }

  lemma {:induction false} DecodeFour(s: seq<Byte>)
    requires |s| == 4
    ensures Decode(s) == s[0] as int + 0x100 * (s[1] as int) + 0x1_0000 * (s[2] as int) + 0x100_0000 * (s[3] as int)
    ensures Decode(s) < 0x1_0000_0000
  {
    var t := s[1..];
    var u := t[1..];
    var v := u[1..];
    assert v[1..] == [] && v[0] == s[3] && u[0] == s[2] && t[0] == s[1];
    assert Decode(v) == s[3] as int;
    assert Decode(u) == s[2] as int + 0x100 * Decode(v);
    assert Decode(t) == s[1] as int + 0x100 * Decode(u);
  }

  lemma {:induction false} DecodeEncode(x: U32)
    ensures Decode(Encode(x)) == x
  {
    DecodeFour(Encode(x));
  }

  function Load32(m: seq<Byte>, a: nat): (x: U32)
    requires a + 4 <= |m|
  {
    DecodeFour(m[a..a + 4]);
    Decode(m[a..a + 4])
  }

  /** m with the bytes of d at address a. */
  function Put(m: seq<Byte>, a: nat, d: seq<Byte>): (m': seq<Byte>)
    requires a + |d| <= |m|
    ensures |m'| == |m| && m'[a..a + |d|] == d
    ensures forall i :: 0 <= i < |m| ==> m'[i] == if a <= i < a + |d| then d[i - a] else m[i]
  {
    m[..a] + d + m[a + |d|..]
  }

  /** The two memories agree outside [a, a + n). */
  predicate SameBut(m: seq<Byte>, m': seq<Byte>, a: nat, n: nat) {
    |m| == |m'| && forall i :: 0 <= i < |m| && !(a <= i < a + n) ==> m'[i] == m[i]
  }

  function Store32(m: seq<Byte>, a: nat, x: U32): (m': seq<Byte>)
    requires a + 4 <= |m|
    ensures SameBut(m, m', a, 4) && Load32(m', a) == x
  {
    DecodeEncode(x);
    Put(m, a, Encode(x))
  }

  /** Words are determined by their bytes. */
  lemma {:induction false} SameWord(m: seq<Byte>, m': seq<Byte>, a: nat)
    requires a + 4 <= |m| && a + 4 <= |m'|
    requires forall i :: a <= i < a + 4 ==> m'[i] == m[i]
    ensures Load32(m', a) == Load32(m, a)
  {
    assert m'[a..a + 4] == m[a..a + 4];
  }
}
