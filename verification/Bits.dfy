/** The bitwise operators on naturals, bit by bit, and the laws of exclusive or. */
module Bits {
  import opened Arith

  lemma BitStep(x: nat, k: nat)
    ensures Bit(x, 0) == x % 2 && Bit(x, k + 1) == Bit(x / 2, k)
  {
    hide Pow;
    Pow2One();
    Pow2Succ(k);
    DivDiv(x, 2, Pow2(k));
    assert x / 1 == x;
  }

  lemma BitShifted(x: nat, n: nat, k: nat)
    ensures x / Pow2(n) >= 0 && Bit(x / Pow2(n), k) == Bit(x, n + k)
  {
    hide Pow;
    DivDiv(x, Pow2(n), Pow2(k));
    Pow2Add(n, k);
    DivMod(x, Pow2(n));
  }

  /** The bits determine the number. */
  lemma {:induction false} SameBits(x: nat, y: nat)
    requires forall k: nat :: Bit(x, k) == Bit(y, k)
    ensures x == y
    decreases x + y
  {
    hide Bit, Pow, Pow2;
    BitStep(x, 0);
    BitStep(y, 0);
    assert Bit(x, 0) == Bit(y, 0);
    if x + y > 0 {
      forall k: nat
        ensures Bit(x / 2, k) == Bit(y / 2, k)
      {
        BitStep(x, k);
        BitStep(y, k);
      }
      SameBits(x / 2, y / 2);
    }
  }

  lemma XorParts(x: nat, y: nat)
    ensures BitXor(x, y) / 2 == BitXor(x / 2, y / 2)
    ensures BitXor(x, y) % 2 == if x % 2 != y % 2 then 1 else 0
  {
  }

  lemma OrParts(x: nat, y: nat)
    ensures BitOr(x, y) / 2 == BitOr(x / 2, y / 2)
    ensures BitOr(x, y) % 2 == if x % 2 == 1 || y % 2 == 1 then 1 else 0
  {
  }

  lemma AndParts(x: nat, y: nat)
    ensures BitAnd(x, y) / 2 == BitAnd(x / 2, y / 2)
    ensures BitAnd(x, y) % 2 == if x % 2 == 1 && y % 2 == 1 then 1 else 0
  {
  }

  /** Every bit of the results, from the same bit of the operands. */
  lemma {:induction false} BitwiseBits(x: nat, y: nat, k: nat)
    ensures Bit(BitXor(x, y), k) == if Bit(x, k) != Bit(y, k) then 1 else 0
    ensures Bit(BitOr(x, y), k) == if Bit(x, k) == 1 || Bit(y, k) == 1 then 1 else 0
    ensures Bit(BitAnd(x, y), k) == if Bit(x, k) == 1 && Bit(y, k) == 1 then 1 else 0
    decreases k
  {
    hide Bit, BitXor, BitOr, BitAnd;
    XorParts(x, y);
    OrParts(x, y);
    AndParts(x, y);
    var i := if k == 0 then 0 else k - 1;
    BitStep(x, i);
    BitStep(y, i);
    BitStep(BitXor(x, y), i);
    BitStep(BitOr(x, y), i);
    BitStep(BitAnd(x, y), i);
    if k > 0 {
      BitwiseBits(x / 2, y / 2, k - 1);
    }
  }

  lemma {:induction false} XorAssoc(x: nat, y: nat, z: nat)
    ensures BitXor(BitXor(x, y), z) == BitXor(x, BitXor(y, z))
  {
    if x != 0 {
      hide BitXor;
      XorAssoc(x / 2, y / 2, z / 2);
      XorParts(x, y);
      XorParts(y, z);
      XorParts(BitXor(x, y), z);
      XorParts(x, BitXor(y, z));
    }
  }

  lemma {:induction false} OrAssoc(x: nat, y: nat, z: nat)
    ensures BitOr(BitOr(x, y), z) == BitOr(x, BitOr(y, z))
  {
    if x != 0 {
      hide BitOr;
      OrAssoc(x / 2, y / 2, z / 2);
      OrParts(x, y);
      OrParts(y, z);
      OrParts(BitOr(x, y), z);
      OrParts(x, BitOr(y, z));
    }
  }

  lemma XorDouble(x: nat, y: nat)
    ensures BitXor(2 * x, 2 * y) == 2 * BitXor(x, y)
  {
    hide BitXor;
    XorParts(2 * x, 2 * y);
  }

  /** High and low parts do not meet. */
  lemma {:induction false} XorSplit(g: nat, l: nat, h: nat, m: nat, k: nat)
    requires l < Pow2(k) && m < Pow2(k)
    ensures BitXor(l, m) < Pow2(k)
    ensures g * Pow2(k) >= 0 && h * Pow2(k) >= 0
    ensures BitXor(g * Pow2(k) + l, h * Pow2(k) + m) == BitXor(g, h) * Pow2(k) + BitXor(l, m)
  {
    hide BitXor, Pow, Pow2;
    MulMono(0, g, Pow2(k));
    MulMono(0, h, Pow2(k));
    if k == 0 {
      Pow2One();
      XorNothing(0);
    } else {
      Pow2Succ(k - 1);
      XorSplit(g, l / 2, h, m / 2, k - 1);
      var p := Pow2(k - 1);
      DoubledPart(g, p, l);
      DoubledPart(h, p, m);
      XorParts(g * (2 * p) + l, h * (2 * p) + m);
      XorParts(l, m);
      MulAssoc(BitXor(g, h), 2, p);
      MulAssoc(2, BitXor(g, h), p);
    }
  }

  lemma XorNothing(x: nat)
    ensures BitXor(x, 0) == x && BitXor(0, x) == x
  {
  }

  lemma DoubledPart(g: nat, p: int, l: nat)
    requires p >= 1
    ensures g * (2 * p) + l >= 0 && g * p + l / 2 >= 0
    ensures (g * (2 * p) + l) / 2 == g * p + l / 2 && (g * (2 * p) + l) % 2 == l % 2
  {
    hide *;
    MulMono(0, g, p);
    MulAssoc(g, 2, p);
    MulAssoc(2, g, p);
    DivUnique(g * (2 * p) + l, 2, g * p + l / 2, l % 2);
  }
}
