/** The bitwise operations of C on unsigned words, by binary digits, and what a mask of
  * consecutive ones means arithmetically. */
module Words {
  import opened Arith

  const WORD32 := 0x1_0000_0000
  const WORD64 := 0x1_0000_0000_0000_0000

  function And(x: nat, y: nat): nat {
    if x == 0 || y == 0 then 0
    else 2 * And(x / 2, y / 2) + (if x % 2 == 1 && y % 2 == 1 then 1 else 0)
  }

  function Or(x: nat, y: nat): nat {
    if x == 0 then y
    else if y == 0 then x
    else 2 * Or(x / 2, y / 2) + (if x % 2 == 1 || y % 2 == 1 then 1 else 0)
  }

  lemma {:induction false} HalfMod(x: nat, k: nat)
    requires k > 0
    ensures x % Pow2(k) == 2 * ((x / 2) % Pow2(k - 1)) + x % 2
    ensures x / Pow2(k) == (x / 2) / Pow2(k - 1)
  {
    var p := Pow2(k - 1);
    var q, r := (x / 2) / p, (x / 2) % p;
    assert x / 2 == q * p + r;
    assert q * (2 * p) == 2 * (q * p);
    DivModUnique(x, 2 * p, q, 2 * r + x % 2);
  }

  /** Masking with k ones keeps the remainder modulo 2^k. */
  lemma {:induction false} AndOnes(x: nat, k: nat)
    ensures And(x, Pow2(k) - 1) == x % Pow2(k)
  {
    if k > 0 {
      HalfMod(x, k);
      AndOnes(x / 2, k - 1);
      assert (Pow2(k) - 1) / 2 == Pow2(k - 1) - 1;
    }
  }

  lemma {:induction false} AndDouble(x: nat, y: nat)
    ensures And(x, 2 * y) == 2 * And(x / 2, y)
  {
    assert 2 * y / 2 == y;
  }

  function ShiftLeft(x: nat, k: nat): nat {
    if k == 0 then x else 2 * ShiftLeft(x, k - 1)
  }

  function ShiftRight(x: nat, k: nat): nat
    decreases k
  {
    if k == 0 then x else ShiftRight(x / 2, k - 1)
  }

  lemma {:induction false} ShiftLeftIsTimes(x: nat, k: nat)
    ensures ShiftLeft(x, k) == x * Pow2(k)
  {
    if k > 0 {
      ShiftLeftIsTimes(x, k - 1);
      assert 2 * (x * Pow2(k - 1)) == x * Pow2(k);
    }
  }

  lemma {:induction false} ShiftRightIsDivide(x: nat, k: nat)
    ensures ShiftRight(x, k) == x / Pow2(k)
    decreases k
  {
    if k > 0 {
      ShiftRightIsDivide(x / 2, k - 1);
      HalfMod(x, k);
    }
  }

  lemma {:induction false} AndThroughShifts(x: nat, m: nat, k: nat)
    ensures And(x, ShiftLeft(m, k)) == ShiftLeft(And(ShiftRight(x, k), m), k)
    decreases k
  {
    hide And;
    if k > 0 {
      AndThroughShifts(x / 2, m, k - 1);
      AndDouble(x, ShiftLeft(m, k - 1));
    }
  }

  /** Masking with m shifted left by k masks the bits from k up. */
  lemma {:induction false} AndShifted(x: nat, mask: nat, m: nat, k: nat)
    requires mask == m * Pow2(k)
    ensures ShiftRight(x, k) == x / Pow2(k)
    ensures And(x, mask) == And(ShiftRight(x, k), m) * Pow2(k)
  {
    hide And, Pow2, ShiftLeft, ShiftRight;
    ShiftLeftIsTimes(m, k);
    ShiftRightIsDivide(x, k);
    AndThroughShifts(x, m, k);
    ShiftLeftIsTimes(And(ShiftRight(x, k), m), k);
  }

  lemma {:induction false} OrThroughShift(x: nat, m: nat, k: nat)
    requires x < Pow2(k)
    ensures Or(x, ShiftLeft(m, k)) == ShiftLeft(m, k) + x
  {
    if k > 0 && x > 0 {
      OrThroughShift(x / 2, m, k - 1);
    }
  }

  /** Combining a multiple of 2^k with a number below 2^k adds them. */
  lemma {:induction false} OrDisjoint(x: nat, y: nat, m: nat, k: nat)
    requires x < Pow2(k) && y == m * Pow2(k)
    ensures Or(x, y) == y + x
  {
    hide Or, Pow2, ShiftLeft;
    OrThroughShift(x, m, k);
    ShiftLeftIsTimes(m, k);
  }

  lemma {:induction false} Powers()
    ensures Pow2(8) == 0x100 && Pow2(12) == 0x1000 && Pow2(32) == WORD32
    ensures Pow2(37) == 0x20_0000_0000 && Pow2(40) == 0x100_0000_0000
    ensures Pow2(52) == 0x10_0000_0000_0000 && Pow2(64) == WORD64
  {
    assert Pow2(4) == 0x10 && Pow2(5) == 0x20;
    Pow2Add(4, 4);
    Pow2Add(8, 4);
    Pow2Add(12, 8);
    Pow2Add(12, 20);
    Pow2Add(32, 5);
    Pow2Add(32, 8);
    Pow2Add(40, 12);
    Pow2Add(52, 12);
  }
}
