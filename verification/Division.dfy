/** Shift-subtract division of 64-bit numbers (src/compiler_rt.c, src/syscall.c). */
module Division {
  import opened Bytes
  import opened Words

  const DOUBLE_WORD := 0x1_0000_0000_0000_0000

  // ----- arithmetic -----

  lemma {:induction false} Multiples(m: int, k: int)
    requires m > 0
    ensures k >= 1 ==> m * k >= m
    ensures k <= -1 ==> m * k <= -m
  {
  }

  /** Quotient and remainder are determined by what they add up to. */
  lemma {:induction false} DivMod(x: nat, m: nat, q: nat, r: nat)
    requires m > 0 && r < m && x == m * q + r
    ensures x / m == q && x % m == r
  {
    var k := x / m - q;
    assert x == m * (x / m) + x % m;
    assert m * k == r - x % m by {
      assert m * (x / m) - m * q == m * (x / m - q);
    }
    Multiples(m, k);
  }

  // ----- udivmoddi4 -----

  /** The first loop: the largest shift that keeps b within 64 bits. */
  method Normalize(b: nat) returns (shift: nat)
    requires 1 < b < DOUBLE_WORD
    ensures shift < 64 && DOUBLE_WORD / 2 <= b * Power(shift) < DOUBLE_WORD
  {
    shift := 0;
    while shift < 64 && b * Power(shift) < DOUBLE_WORD / 2
      invariant 0 <= shift <= 64 && b * Power(shift) < DOUBLE_WORD
      decreases 64 - shift
    {
      assert b * Power(shift + 1) == 2 * (b * Power(shift));
      shift := shift + 1;
    }
    if shift == 64 {
      PowerLarge(b);
      assert false;
    }
  }

  lemma {:induction false} PowerLarge(b: nat)
    requires b > 1
    ensures b * Power(64) >= DOUBLE_WORD
  {
    PowerSum(32, 32);
    Powers();
    Multiples(Power(64), b);
  }

  lemma {:induction false} PowerSum(i: nat, j: nat)
    ensures Power(i + j) == Power(i) * Power(j)
  {
    if i > 0 {
      PowerSum(i - 1, j);
      assert Power(i) * Power(j) == 2 * (Power(i - 1) * Power(j));
    }
  }

  /** What is left to divide is less than b * 2^s, and the quotient has only bits from s on. */
  ghost predicate Level(a: nat, b: nat, q: nat, n: nat, s: nat, k: nat) {
    a == q * b + n && n < b * Power(s) && q == k * Power(s)
  }

  lemma {:induction false} LevelDown(a: nat, b: nat, q: nat, n: nat, s: nat, k: nat)
    requires Level(a, b, q, n, s + 1, k)
    ensures var t := b * Power(s);
      if n >= t then Level(a, b, q + Power(s), n - t, s, 2 * k + 1) && Bitwise(OR, q, Power(s)) == q + Power(s)
      else Level(a, b, q, n, s, 2 * k)
  {
    var p := Power(s);
    var t := b * p;
    assert Power(s + 1) == 2 * p;
    assert b * (2 * p) == 2 * t;
    assert k * (2 * p) == (2 * k) * p;
    assert (2 * k + 1) * p == (2 * k) * p + p;
    assert (q + p) * b == q * b + p * b;
    OrIsPlus(k, p, s + 1);
  }

  lemma {:induction false} LevelTop(a: nat, b: nat, s: nat)
    requires a < DOUBLE_WORD <= 2 * (b * Power(s))
    ensures Level(a, b, 0, a, s + 1, 0)
  {
    assert b * Power(s + 1) == 2 * (b * Power(s));
  }

  /** udivmoddi4; b << shift never loses a bit. */
  method UDivMod(a: nat, b: nat) returns (quot: nat, rem: nat)
    requires a < DOUBLE_WORD && b < DOUBLE_WORD
    ensures b == 0 ==> quot == 0 && rem == 0
    ensures b > 0 ==> quot == a / b && rem == a % b
  {
    if b == 0 {
      return 0, 0;
    }
    if b == 1 {
      return a, 0;
    }
    var shift := Normalize(b);
    LevelTop(a, b, shift);
    quot, rem := Subtract(a, b, shift);
    DivMod(a, b, quot, rem);
  }

  /** The second loop. */
  method Subtract(a: nat, b: nat, start: nat) returns (quot: nat, rem: nat)
    requires start < 64 && Level(a, b, 0, a, start + 1, 0) && b * Power(start) < DOUBLE_WORD
    ensures a == b * quot + rem && rem < b
  {
    quot, rem := 0, a;
    var shift := start;
    ghost var k: nat := 0;
    while true
      invariant shift < 64 && Level(a, b, quot, rem, shift + 1, k) && b * Power(shift) < DOUBLE_WORD
      decreases shift
    {
      var t := b * Power(shift);
      LevelDown(a, b, quot, rem, shift, k);
      if rem >= t {
        rem := rem - t;
        quot := Bitwise(OR, quot, Power(shift));
        k := 2 * k + 1;
      } else {
        k := 2 * k;
      }
      if shift == 0 {
        break;
      }
      ShiftDown(b, shift);
      shift := shift - 1;
    }
  }

  lemma {:induction false} ShiftDown(b: nat, s: nat)
    requires s > 0
    ensures b * Power(s - 1) <= b * Power(s)
  {
    assert b * Power(s) == 2 * (b * Power(s - 1));
  }

  // ----- divide_u64_u32 -----

  /** The next bit of the dividend, of which the bits above 2 * p have been read as hi. */
  lemma {:induction false} TakeBit(x: nat, hi: nat, lo: nat, p: nat) returns (b: nat, rest: nat)
    requires p > 0 && x == hi * (2 * p) + lo && lo < 2 * p
    ensures b < 2 && rest < p && lo == b * p + rest && x == (2 * hi + b) * p + rest && x / p % 2 == b
  {
    b := if lo >= p then 1 else 0;
    rest := lo - b * p;
    assert (2 * hi + b) * p == hi * (2 * p) + b * p;
    DivMod(x, p, 2 * hi + b, rest);
  }

  /** One step: the remainder takes the bit, and gives the divisor if it can. */
  lemma {:induction false} Deduct(x: nat, d: nat, q: nat, r: nat, p: nat, lo: nat, b: nat, rest: nat)
    requires x == d * q + r * (2 * p) + lo && lo == b * p + rest && b < 2 && r < d
    ensures var r' := 2 * r + b;
      if r' >= d then x == d * (q + p) + (r' - d) * p + rest && r' - d < d else x == d * q + r' * p + rest
  {
    assert (2 * r + b) * p == r * (2 * p) + b * p;
    assert d * (q + p) == d * q + d * p;
    assert (2 * r + b - d) * p == (2 * r + b) * p - d * p;
  }

  /** Setting a bit of the full quotient sets it in the low 32 bits too, or leaves them alone. */
  lemma {:induction false} LowBits(q: nat, k: nat, s: nat)
    requires q == k * Power(s + 1)
    ensures (q + Power(s)) % WORD == if s < 32 then Bitwise(OR, q % WORD, Power(s)) else q % WORD
  {
    if s < 32 {
      LowBit(q, k, s);
    } else {
      Power32();
      PowerSum(s - 32, 32);
      LowUnset(q, Power(s - 32));
    }
  }

  lemma {:induction false} LowBit(q: nat, k: nat, s: nat)
    requires q == k * Power(s + 1) && s < 32
    ensures (q + Power(s)) % WORD == Bitwise(OR, q % WORD, Power(s))
  {
    Power32();
    PowerSum(31 - s, s + 1);
    var e := LowSet(q, k, Power(31 - s), Power(s));
    OrIsPlus(e, Power(s), s + 1);
  }

  lemma {:induction false} Power32()
    ensures Power(32) == WORD
  {
    Powers();
  }

  lemma {:induction false} LowSet(q: nat, k: nat, m: nat, p: nat) returns (e: nat)
    requires m > 0 && p > 0 && q == k * (2 * p) && m * (2 * p) == WORD
    ensures q % WORD == e * (2 * p) && (q + p) % WORD == e * (2 * p) + p
  {
    var j := k / m;
    e := k % m;
    LowPart(q, k, m, 2 * p, j, e);
    DivMod(q, WORD, j, e * (2 * p));
    DivMod(q + p, WORD, j, e * (2 * p) + p);
  }

  lemma {:induction false} LowUnset(q: nat, c: nat)
    ensures (q + c * WORD) % WORD == q % WORD
  {
    DivMod(q + c * WORD, WORD, q / WORD + c, q % WORD);
  }

  lemma {:induction false} LowPart(q: nat, k: nat, m: nat, p: nat, j: nat, e: nat)
    requires m > 0 && p > 0 && q == k * p && m * p == WORD && j == k / m && e == k % m
    ensures q == WORD * j + e * p && e * p + p <= WORD
  {
    assert k == m * j + e;
    assert (m * j + e) * p == (m * p) * j + e * p;
    assert (e + 1) * p == e * p + p;
    assert (m - 1 - e) * p >= 0;
    assert (m - 1 - e) * p == m * p - (e + 1) * p;
  }

  /** After the bits from `bit` on: x is accounted for by the quotient, the remainder and what is left. */
  ghost predicate Accounted(x: nat, d: nat, q: nat, k: nat, r: int, hi: nat, lo: nat, bit: nat) {
    var p := Power(bit);
    0 <= r < d && q == k * p && lo < p && x == hi * p + lo && x == d * q + r * p + lo
  }

  /** The body of the loop. */
  method BringDown(x: nat, d: nat, bit: nat, quotient: nat, r: nat, ghost q: nat, ghost k: nat, ghost hi: nat,
                   ghost lo: nat)
    returns (quotient': nat, r': nat, ghost q': nat, ghost k': nat, ghost hi': nat, ghost lo': nat)
    requires Accounted(x, d, q, k, r, hi, lo, bit + 1) && quotient == q % WORD
    ensures Accounted(x, d, q', k', r', hi', lo', bit) && quotient' == q' % WORD
  {
    ghost var b;
    b, q', k', hi', lo' := Brought(x, d, q, k, r, hi, lo, bit);
    LowAfter(x, d, q, k, r, hi, lo, bit);
    OrIsPlus(r, b, 1);
    quotient', r' := quotient, Bitwise(OR, 2 * r, x / Power(bit) % 2);
    if r' >= d {
      r' := r' - d;
      if bit < 32 {
        quotient' := Bitwise(OR, quotient, Power(bit));
      }
    }
  }

  lemma {:induction false} LowAfter(x: nat, d: nat, q: nat, k: nat, r: nat, hi: nat, lo: nat, bit: nat)
    requires Accounted(x, d, q, k, r, hi, lo, bit + 1)
    ensures (q + Power(bit)) % WORD == if bit < 32 then Bitwise(OR, q % WORD, Power(bit)) else q % WORD
  {
    LowBits(q, k, bit);
  }

  /** The next bit b, and the account after it. */
  lemma {:induction false} Brought(x: nat, d: nat, q: nat, k: nat, r: nat, hi: nat, lo: nat, bit: nat)
    returns (b: nat, q': nat, k': nat, hi': nat, rest: nat)
    requires Accounted(x, d, q, k, r, hi, lo, bit + 1)
    ensures b < 2 && x / Power(bit) % 2 == b && q' == if 2 * r + b >= d then q + Power(bit) else q
    ensures Accounted(x, d, q', k', if 2 * r + b >= d then 2 * r + b - d else 2 * r + b, hi', rest, bit)
  {
    var p := Power(bit);
    b, rest := TakeBit(x, hi, lo, p);
    Deduct(x, d, q, r, p, lo, b, rest);
    KeepFactor(k, p);
    hi' := 2 * hi + b;
    q', k' := if 2 * r + b >= d then q + p else q, if 2 * r + b >= d then 2 * k + 1 else 2 * k;
  }

  /** divide_u64_u32: the quotient, cut to 32 bits. */
  method Divide(dividend: nat, divisor: nat) returns (quotient: nat)
    requires dividend < DOUBLE_WORD && divisor < WORD
    ensures quotient == if divisor == 0 then 0 else dividend / divisor % WORD
  {
    if divisor == 0 {
      return 0;
    }
    var remainder: nat := 0;
    quotient := 0;
    var bit := 64;
    ghost var q: nat, k: nat, hi: nat, lo: nat := 0, 0, 0, dividend;
    TopBit(dividend);
    while bit > 0
      invariant 0 <= bit <= 64 && Accounted(dividend, divisor, q, k, remainder, hi, lo, bit) && quotient == q % WORD
    {
      bit := bit - 1;
      quotient, remainder, q, k, hi, lo := BringDown(dividend, divisor, bit, quotient, remainder, q, k, hi, lo);
    }
    DivMod(dividend, divisor, q, remainder);
  }

  lemma {:induction false} KeepFactor(k: nat, p: nat)
    ensures k * (2 * p) == (2 * k) * p && (2 * k + 1) * p == (2 * k) * p + p
  {
  }

  lemma {:induction false} TopBit(x: nat)
    requires x < DOUBLE_WORD
    ensures x < Power(64)
  {
    PowerSum(32, 32);
    Powers();
  }

  // ----- __ffsdi2 -----

  /** How often x can be halved. */
  function Zeros(x: nat): nat
    requires x > 0
  {
    if x % 2 == 1 then 0 else 1 + Zeros(x / 2)
  }

  lemma {:induction false} Shifted(x: nat, n: nat)
    requires x > 0 && x % Power(n) == 0
    ensures x / Power(n) > 0 && Zeros(x) == n + Zeros(x / Power(n))
  {
    if n > 0 {
      var p := Power(n - 1);
      HalfMultiple(x, p);
      Shifted(x / 2, n - 1);
    }
  }

  /** A multiple of 2 * p. */
  lemma {:induction false} HalfMultiple(x: nat, p: nat)
    requires p > 0 && x % (2 * p) == 0
    ensures x % 2 == 0 && x / 2 % p == 0 && x / (2 * p) == x / 2 / p
  {
    var q := x / (2 * p);
    assert x == (2 * p) * q == 2 * (p * q);
    DivMod(x / 2, p, q, 0);
  }

  lemma {:induction false} Narrow(x: nat, p: nat)
    requires p > 0 && x % p == 0
    ensures x / p % p == 0 ==> x % (p * p) == 0
  {
    var y := x / p;
    assert x == p * y;
    if y % p == 0 {
      var z := y / p;
      assert y == p * z;
      assert p * (p * z) == (p * p) * z;
      DivMod(x, p * p, z, 0);
    }
  }

  /** One test of __ffsdi2: if the low n bits are clear, they are shifted out. */
  method Halve(x: nat, n: nat, p: nat) returns (y: nat, shifted: bool)
    requires x > 0 && p == Power(n) && x % (p * p) != 0
    ensures y > 0 && y % p != 0 && Zeros(x) == Zeros(y) + if shifted then n else 0
  {
    shifted := x % p == 0;
    y := x;
    if shifted {
      Shifted(x, n);
      Narrow(x, p);
      y := x / p;
    }
  }

  /** The tests for 8, 4, 2 and 1 bits. */
  method LowHalf(x: nat) returns (n: nat)
    requires x > 0 && x % 0x1_0000 != 0
    ensures n == Zeros(x)
  {
    n := 0;
    Powers();
    assert Power(1) == 2 && Power(2) == 4 && Power(4) == 16;
    var y, s := Halve(x, 8, 0x100);
    n := if s then n + 8 else n;
    y, s := Halve(y, 4, 0x10);
    n := if s then n + 4 else n;
    y, s := Halve(y, 2, 0x4);
    n := if s then n + 2 else n;
    y, s := Halve(y, 1, 0x2);
    n := if s then n + 1 else n;
  }

  /** __ffsdi2: one more than the number of low bits that are zero, or 0. */
  method FindFirstSet(x: nat) returns (n: nat)
    requires x < DOUBLE_WORD
    ensures n == if x == 0 then 0 else 1 + Zeros(x)
  {
    if x == 0 {
      return 0;
    }
    Powers();
    n := 1;
    var y, s := Halve(x, 32, 0x1_0000_0000);
    n := if s then n + 32 else n;
    y, s := Halve(y, 16, 0x1_0000);
    n := if s then n + 16 else n;
    var low := LowHalf(y);
    n := n + low;
  }
}
