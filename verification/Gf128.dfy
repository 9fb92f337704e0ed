/**
 The tweaks of XTS as powers: blocks are polynomials over GF(2), least significant bit first, and
 each tweak is the first one times a power of x modulo x^128 + x^7 + x^2 + x + 1.
 */
module Gf128 {
  import opened Arith
  import opened Bits
  import opened Blocks
  import opened Xts

  /** The product of two polynomials: shifted copies of a, one for each term of b. */
  function Product(a: nat, b: nat): nat
  {
    if b == 0 then 0 else BitXor(if b % 2 == 1 then a else 0, 2 * Product(a, b / 2))
  }

  /** x^128 + x^7 + x^2 + x + 1. */
  function Modulus(): nat
  {
    Pow2(128) + Pow2(7) + Pow2(2) + Pow2(1) + Pow2(0)
  }

  /** v and w differ by a multiple of the modulus. */
  ghost predicate Congruent(v: nat, w: nat)
  {
    exists q: nat :: BitXor(v, w) == Product(Modulus(), q)
  }

  lemma SmallPowers()
    ensures Pow2(0) == 1 && Pow2(1) == 2 && Pow2(2) == 4 && Pow2(7) == 128 && Pow2(8) == 256
  {
    hide Pow, Pow2;
    Pow2One();
    Pow2Succ(1);
    Pow2Add(2, 2);
    Pow2Add(4, 4);
    Pow2Succ(7);
  }

  lemma ModulusValue()
    ensures Modulus() == Pow2(128) + 0x87
  {
    hide Pow2;
    SmallPowers();
  }

  // ---------------------------------------------------------------- little-endian values

  lemma {:induction false} LeValBound(s: seq<Byte>)
    ensures LeVal(s) < Pow2(8 * |s|)
  {
    hide LeVal, Pow, Pow2;
    if s == [] {
      LeValNone();
      Pow2One();
    } else {
      LeValStep(s);
      LeValBound(s[1..]);
      SmallPowers();
      Pow2Add(8, 8 * |s[1..]|);
    }
  }

  lemma LeValNone()
    ensures LeVal([]) == 0
  {
  }

  lemma {:induction false} LeValBytes(v: nat, n: nat)
    requires v < Pow2(8 * n)
    ensures LeVal(LeBytes(v, n)) == v
  {
    hide LeVal, LeBytes, Pow, Pow2;
    Pow2One();
    if n == 0 {
      LeBytesNone(v);
      LeValNone();
    } else {
      SmallPowers();
      Pow2Add(8, 8 * (n - 1));
      LeBytesStep(v, n);
      LeValBytes(v / 256, n - 1);
      LeValStep(LeBytes(v, n));
      assert LeBytes(v, n)[1..] == LeBytes(v / 256, n - 1);
    }
  }

  lemma LeBytesNone(v: nat)
    ensures LeBytes(v, 0) == []
  {
  }

  /** The value of a string whose first byte is xored. */
  lemma LeValXorFirst(s: seq<Byte>, m: Byte)
    requires s != []
    ensures LeVal(s[0 := Xor(s[0], m)]) == BitXor(LeVal(s), m)
  {
    hide LeVal, BitXor, Xor, Pow, Pow2;
    var t := s[0 := Xor(s[0], m)];
    LeValStep(s);
    LeValStep(t);
    assert t[1..] == s[1..];
    XorLow(LeVal(s), m);
    XorByte(s[0], m);
    DivUnique(LeVal(s), 256, LeVal(s[1..]), s[0]);
  }

  // ---------------------------------------------------------------- one step

  /** Multiplication by x: the value is doubled, and reduced by the modulus when it overflows. */
  lemma AlphaValue(x: Block)
    ensures LeVal(Alpha(x)) == BitXor(2 * LeVal(x), if LeVal(x) < Pow2(127) then 0 else Modulus())
  {
    hide LeVal, LeBytes, Alpha, Doubled, BitXor, Xor, Pow, Pow2, Modulus;
    var v, m: Byte := LeVal(x), if x[15] >= 128 then 0x87 else 0;
    var d := Doubled(x, 0);
    AlphaDoubled(x);
    LeValXorFirst(d, m);
    TopByte(x);
    Pow2Succ(127);
    LeValBound(x);
    DoubledIsDouble(x, 0);
    if v < Pow2(127) {
      LeValBytes(2 * v, 16);
    } else {
      Overflow(v);
    }
  }

  lemma AlphaDoubled(x: Block)
    ensures var d := Doubled(x, 0); Alpha(x) == d[0 := Xor(d[0], if x[15] >= 128 then 0x87 else 0)]
  {
    hide Doubled, Xor;
    var d := Doubled(x, 0);
    var a := Alpha(x);
    DoubledAt(x, 0, 0);
    forall j | 1 <= j < 16
      ensures a[j] == d[j]
    {
      DoubledAt(x, 0, j);
    }
    assert a[1..] == d[1..];
  }

  lemma TopByte(x: Block)
    ensures LeVal(x) >= Pow2(127) <==> x[15] >= 128
  {
    hide LeVal, Pow, Pow2;
    LeValTop(x);
    SmallPowers();
    Pow2Add(120, 7);
    var r, p, t: int := LeVal(x[..15]), Pow2(120), x[15];
    LeValBound(x[..15]);
    if t >= 128 {
      MulMono(128, t, p);
    } else {
      MulMono(t, 127, p);
      MulDist(p, 128, -1);
    }
  }

  lemma LeValTop(x: Block)
    ensures LeVal(x) == LeVal(x[..15]) + x[15] * Pow2(120)
  {
    hide LeVal, Pow, Pow2;
    LeValConcat(x[..15], x[15..]);
    assert x == x[..15] + x[15..];
    LeValStep(x[15..]);
    assert x[15..][1..] == [];
    LeValNone();
  }

  lemma {:induction false} LeValConcat(a: seq<Byte>, b: seq<Byte>)
    ensures LeVal(a + b) == LeVal(a) + LeVal(b) * Pow2(8 * |a|)
  {
    hide LeVal, Pow, Pow2;
    if a == [] {
      assert a + b == b;
      LeValNone();
      Pow2One();
    } else {
      var t := a[1..];
      assert (a + b)[1..] == t + b;
      LeValConcat(t, b);
      LeValStep(a);
      LeValStep(a + b);
      SmallPowers();
      Pow2Add(8, 8 * |t|);
      var p, y: int := Pow2(8 * |t|), LeVal(b);
      MulAssoc(256, y, p);
      MulAssoc(y, 256, p);
    }
  }

  /** A doubled value with bit 128 set loses it, and bytes beyond the sixteenth do not show. */
  lemma Overflow(v: nat)
    requires Pow2(127) <= v < Pow2(128)
    ensures BitXor(LeVal(LeBytes(2 * v, 16)), 0x87) == BitXor(2 * v, Modulus())
  {
    hide LeVal, LeBytes, BitXor, Pow, Pow2, Modulus;
    var p: nat, w := Pow2(128), 2 * v - Pow2(128);
    Pow2Succ(127);
    ModulusValue();
    SmallPowers();
    PowMono(2, 8, 128);
    BlockRadix();
    LeBytesMod(2 * v, 16, p);
    ModShift(2 * v, w, 1, p);
    ModSmall(w, p);
    LeValBytes(w, 16);
    XorSplit(1, w, 1, 0x87, 128);
    XorOnes();
  }

  lemma XorOnes()
    ensures BitXor(1, 1) == 0
  {
    assert BitXor(0, 0) == 0;
  }

  lemma BlockRadix()
    ensures Pow(256, 16) == Pow2(128)
  {
    hide Pow;
    SmallPowers();
    PowPow(2, 8, 16);
  }

  // ---------------------------------------------------------------- every tweak

  /** Tweak n is the first tweak times x^n, reduced. */
  lemma {:induction false} TweakIsPower(t: Block, n: nat)
    ensures LeVal(Tweak(t, n)) < Pow2(128)
    ensures LeVal(t) * Pow2(n) >= 0 && Congruent(LeVal(t) * Pow2(n), LeVal(Tweak(t, n)))
  {
    hide LeVal, Tweak, Pow, Pow2, BitXor, Modulus, Product;
    LeValBound(Tweak(t, n));
    MulMono(0, LeVal(t), Pow2(n));
    TweakSteps(t, n);
    if n == 0 {
      Pow2One();
      BitXorSelf(LeVal(t));
      ProductNothing(Modulus());
    } else {
      TweakIsPower(t, n - 1);
      Pow2Succ(n - 1);
      var u := Tweak(t, n - 1);
      var a: nat, r := LeVal(t) * Pow2(n - 1), LeVal(u);
      MulAssoc(LeVal(t), 2, Pow2(n - 1));
      MulAssoc(2, LeVal(t), Pow2(n - 1));
      AlphaValue(u);
      CongruentStep(a, r, r >= Pow2(127));
    }
  }

  lemma TweakSteps(t: Block, n: nat)
    ensures Tweak(t, 0) == t && (n > 0 ==> Tweak(t, n) == Alpha(Tweak(t, n - 1)))
  {
    hide Alpha;
  }

  lemma ProductNothing(a: nat)
    ensures Product(a, 0) == 0
  {
  }

  lemma ProductStep(a: nat, b: nat)
    ensures Product(a, 2 * b) == 2 * Product(a, b)
    ensures Product(a, 2 * b + 1) == BitXor(a, 2 * Product(a, b))
  {
    hide BitXor;
    XorNothing(2 * Product(a, b));
    assert (2 * b) / 2 == b && (2 * b + 1) / 2 == b;
  }

  lemma CongruentStep(a: nat, r: nat, over: bool)
    requires Congruent(a, r)
    ensures Congruent(2 * a, BitXor(2 * r, if over then Modulus() else 0))
  {
    hide BitXor, Modulus, Product;
    var m := Modulus();
    var q: nat :| BitXor(a, r) == Product(m, q);
    XorDouble(a, r);
    ProductStep(m, q);
    if over {
      XorAssoc(2 * a, 2 * r, m);
      BitXorCommutes(BitXor(2 * a, 2 * r), m);
      assert BitXor(2 * a, BitXor(2 * r, m)) == Product(m, 2 * q + 1);
    } else {
      XorNothing(2 * r);
      assert BitXor(2 * a, BitXor(2 * r, 0)) == Product(m, 2 * q);
    }
  }

  /** Below x^128 the reduced value is unique: a nonzero multiple of the modulus reaches x^128. */
  lemma ReducedUnique(v: nat, r: nat, r': nat)
    requires r < Pow2(128) && r' < Pow2(128) && Congruent(v, r) && Congruent(v, r')
    ensures r == r'
  {
    hide BitXor, Modulus, Product, Pow2, Pow;
    var m := Modulus();
    var q: nat :| BitXor(v, r) == Product(m, q);
    var q': nat :| BitXor(v, r') == Product(m, q');
    Cancel(v, r, r');
    ProductXor(m, q, q');
    Degree(BitXor(q, q'));
    XorSplit(0, r, 0, r', 128);
    XorNothing(0);
    ProductNothing(m);
    XorEqual(r, r');
  }

  lemma Cancel(v: nat, r: nat, r': nat)
    ensures BitXor(BitXor(v, r), BitXor(v, r')) == BitXor(r, r')
  {
    hide BitXor;
    BitXorCommutes(v, r);
    XorAssoc(r, v, BitXor(v, r'));
    XorAssoc(v, v, r');
    BitXorSelf(v);
    XorNothing(r');
  }

  lemma XorEqual(r: nat, r': nat)
    requires BitXor(r, r') == 0
    ensures r == r'
  {
    BitXorInvolution(r, r');
    XorNothing(r');
  }

  /** The product distributes. */
  lemma {:induction false} ProductXor(a: nat, b: nat, c: nat)
    ensures Product(a, BitXor(b, c)) == BitXor(Product(a, b), Product(a, c))
  {
    hide BitXor, Product;
    ProductNothing(a);
    if b == 0 {
      XorNothing(c);
      XorNothing(Product(a, c));
    } else {
      ProductXor(a, b / 2, c / 2);
      XorParts(b, c);
      var (p, q) := (Product(a, b / 2), Product(a, c / 2));
      ProductHalf(a, b);
      ProductHalf(a, c);
      ProductHalf(a, BitXor(b, c));
      XorDouble(p, q);
      Interchange(if b % 2 == 1 then a else 0, 2 * p, if c % 2 == 1 then a else 0, 2 * q);
      BitXorSelf(a);
      XorNothing(a);
      XorNothing(0);
    }
  }

  lemma ProductHalf(a: nat, b: nat)
    ensures Product(a, b) == BitXor(if b % 2 == 1 then a else 0, 2 * Product(a, b / 2))
  {
  }

  lemma Interchange(a: nat, b: nat, c: nat, d: nat)
    ensures BitXor(BitXor(a, b), BitXor(c, d)) == BitXor(BitXor(a, c), BitXor(b, d))
  {
    hide BitXor;
    XorAssoc(a, b, BitXor(c, d));
    XorAssoc(b, c, d);
    BitXorCommutes(b, c);
    XorAssoc(c, b, d);
    XorAssoc(a, c, BitXor(b, d));
  }

  lemma {:induction false} Degree(q: nat)
    ensures q > 0 ==> Product(Modulus(), q) >= Pow2(128)
  {
    hide BitXor, Modulus, Product, Pow2, Pow;
    if q > 0 {
      var m, p: nat := Modulus(), Pow2(129);
      ModulusValue();
      Pow2Succ(128);
      SmallPowers();
      PowMono(2, 8, 128);
      ProductHalf(m, q);
      if q == 1 {
        ProductNothing(m);
        XorNothing(m);
      } else {
        Degree(q / 2);
        var u, w := 2 * Product(m, q / 2), if q % 2 == 1 then m else 0;
        HighStays(u, w);
        BitXorCommutes(u, w);
      }
    }
  }

  lemma HighStays(u: nat, w: nat)
    requires u >= Pow2(129) > w
    ensures BitXor(u, w) >= Pow2(129)
  {
    hide BitXor, Pow2, Pow;
    var p := Pow2(129);
    DivMod(u, p);
    XorSplit(u / p, u % p, 0, w, 129);
    XorNothing(u / p);
    if u / p >= 1 {
      MulMono(1, u / p, p);
    } else {
      MulCong(u / p, 0, p);
    }
  }
}
