/** Bitwise operations on natural numbers, and 32-bit words. */
module Words {
  import opened Bytes

  datatype Op = AND | OR | XOR

  predicate Bit(op: Op, p: bool, q: bool) {
    match op
    case AND => p && q
    case OR => p || q
    case XOR => p != q
  }

  /** Bit by bit, from the lowest. */
  function Bitwise(op: Op, x: nat, y: nat): nat
    decreases x + y
  {
    if x == 0 && y == 0 then 0
    else 2 * Bitwise(op, x / 2, y / 2) + if Bit(op, x % 2 == 1, y % 2 == 1) then 1 else 0
  }

  function Power(n: nat): (p: nat)
    ensures p > 0
  {
    if n == 0 then 1 else 2 * Power(n - 1)
  }

  lemma {:induction false} Below(op: Op, x: nat, y: nat, n: nat)
    requires x < Power(n) && y < Power(n)
    ensures Bitwise(op, x, y) < Power(n)
  {
    if n > 0 {
      Below(op, x / 2, y / 2, n - 1);
    }
  }

  lemma {:induction false} Powers()
    ensures Power(8) == 0x100 && Power(16) == 0x1_0000 && Power(24) == 0x100_0000 && Power(32) == 0x1_0000_0000
  {
  }

  /** One step of the definition, which holds of zeros as well. */
  lemma {:induction false} Lowest(op: Op, x: nat, y: nat)
    ensures Bitwise(op, x, y) / 2 == Bitwise(op, x / 2, y / 2)
    ensures Bitwise(op, x, y) % 2 == 1 <==> Bit(op, x % 2 == 1, y % 2 == 1)
  {
  }

  /** Numbers with the same lowest bit and the same rest are the same. */
  lemma {:induction false} SameBits(x: nat, y: nat)
    requires x / 2 == y / 2 && (x % 2 == 1 <==> y % 2 == 1)
    ensures x == y
  {
  }

  lemma {:induction false} OrIsXor(p: nat, q: nat)
    requires Bitwise(AND, p, q) == 0
    ensures Bitwise(OR, p, q) == Bitwise(XOR, p, q)
    decreases p + q
  {
    if p != 0 || q != 0 {
      Lowest(AND, p, q);
      OrIsXor(p / 2, q / 2);
    }
  }

  /** Where x selects y, its complement selects nothing. */
  lemma {:induction false} ComplementApart(x: nat, y: nat, z: nat, n: nat)
    requires x < Power(n) && y < Power(n) && z < Power(n)
    ensures Bitwise(AND, Bitwise(AND, x, y), Bitwise(AND, Power(n) - 1 - x, z)) == 0
  {
    if n > 0 {
      var c := Power(n) - 1 - x;
      assert c / 2 == Power(n - 1) - 1 - x / 2;
      ComplementApart(x / 2, y / 2, z / 2, n - 1);
      Lowest(AND, x, y);
      Lowest(AND, c, z);
      Lowest(AND, Bitwise(AND, x, y), Bitwise(AND, c, z));
    }
  }

  lemma {:induction false} ChooseByOr(x: U32, y: U32, z: U32)
    ensures Or(And(x, y), And(Not(x), z)) == Xor(And(x, y), And(Not(x), z))
  {
    Powers();
    ComplementApart(x, y, z, 32);
    OrIsXor(And(x, y), And(Not(x), z));
  }

  lemma {:induction false} OrZero(x: nat)
    ensures Bitwise(OR, x, 0) == x
  {
    if x > 0 {
      OrZero(x / 2);
    }
  }

  /** Or of numbers whose bits do not meet is their sum. */
  lemma {:induction false} OrIsPlus(q: nat, y: nat, n: nat)
    requires y < Power(n)
    ensures Bitwise(OR, q * Power(n), y) == q * Power(n) + y
  {
    if n == 0 {
      OrZero(q);
    } else {
      assert q * Power(n) == 2 * (q * Power(n - 1));
      OrIsPlus(q, y / 2, n - 1);
      Lowest(OR, q * Power(n), y);
    }
  }

  lemma {:induction false} MajorityBits(x: nat, y: nat, z: nat)
    ensures Bitwise(OR, Bitwise(OR, Bitwise(AND, x, y), Bitwise(AND, x, z)), Bitwise(AND, y, z)) ==
            Bitwise(XOR, Bitwise(XOR, Bitwise(AND, x, y), Bitwise(AND, x, z)), Bitwise(AND, y, z))
    decreases x + y + z
  {
    if x + y + z > 0 {
      var p, q, r := Bitwise(AND, x, y), Bitwise(AND, x, z), Bitwise(AND, y, z);
      Lowest(AND, x, y);
      Lowest(AND, x, z);
      Lowest(AND, y, z);
      Lowest(OR, p, q);
      Lowest(OR, Bitwise(OR, p, q), r);
      Lowest(XOR, p, q);
      Lowest(XOR, Bitwise(XOR, p, q), r);
      MajorityBits(x / 2, y / 2, z / 2);
      SameBits(Bitwise(OR, Bitwise(OR, p, q), r), Bitwise(XOR, Bitwise(XOR, p, q), r));
    }
  }

  lemma {:induction false} MajorityByOr(x: U32, y: U32, z: U32)
    ensures Or(Or(And(x, y), And(x, z)), And(y, z)) == Xor(Xor(And(x, y), And(x, z)), And(y, z))
  {
    MajorityBits(x, y, z);
  }

  function Combine(op: Op, x: U32, y: U32): U32 {
    Powers();
    Below(op, x, y, 32);
    Bitwise(op, x, y)
  }

  function And(x: U32, y: U32): U32 { Combine(AND, x, y) }
  function Or(x: U32, y: U32): U32 { Combine(OR, x, y) }
  function Xor(x: U32, y: U32): U32 { Combine(XOR, x, y) }
  function Not(x: U32): U32 { 0xFFFF_FFFF - x }
  function Add(x: U32, y: U32): U32 { (x + y) % 0x1_0000_0000 }
}
