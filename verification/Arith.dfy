/**
 Number theory shared by the multi-precision modules: powers, Euclidean division,
 congruences, common divisors, and the bitwise operators of C on naturals.
 */
module Arith {

  // ---------------------------------------------------------------- powers

  function Pow(b: int, e: nat): int
  {
    if e == 0 then 1 else b * Pow(b, e - 1)
  }

  lemma {:induction false} PowPos(b: int, e: nat)
    requires b >= 1
    ensures Pow(b, e) >= 1
  {
    if e > 0 {
      PowPos(b, e - 1);
      MulMono(1, b, Pow(b, e - 1));
    }
  }

  lemma PowSucc(b: int, e: nat)
    ensures Pow(b, e + 1) == b * Pow(b, e) && Pow(b, 0) == 1
  {
  }

  lemma {:induction false} PowAdd(b: int, m: nat, n: nat)
    ensures Pow(b, m + n) == Pow(b, m) * Pow(b, n)
  {
    if m > 0 {
      PowAdd(b, m - 1, n);
      assert Pow(b, m + n) == b * Pow(b, m - 1 + n);
      MulAssoc(b, Pow(b, m - 1), Pow(b, n));
    }
  }

  lemma {:induction false} PowMulBase(a: int, b: int, n: nat)
    ensures Pow(a * b, n) == Pow(a, n) * Pow(b, n)
  {
    if n > 0 {
      PowMulBase(a, b, n - 1);
      MulSwap(a, b, Pow(a, n - 1), Pow(b, n - 1));
    }
  }

  lemma {:induction false} PowPow(b: int, m: nat, n: nat)
    ensures Pow(b, m * n) == Pow(Pow(b, m), n)
    decreases n
  {
    if n == 0 {
      assert m * n == 0;
    } else {
      PowPow(b, m, n - 1);
      assert m * n == m + m * (n - 1);
      PowAdd(b, m, m * (n - 1));
    }
  }

  lemma {:induction false} PowMono(b: int, m: nat, n: nat)
    requires b >= 1 && m <= n
    ensures 1 <= Pow(b, m) <= Pow(b, n)
  {
    hide *;
    PowPos(b, m);
    PowPos(b, n - m);
    PowAdd(b, m, n - m);
    MulMono(1, Pow(b, n - m), Pow(b, m));
  }

  function Pow2(n: nat): (r: int)
    ensures r == Pow(2, n) && r >= 1
  {
    PowPos(2, n);
    Pow(2, n)
  }

  lemma Pow2Add(m: nat, n: nat)
    ensures Pow2(m + n) == Pow2(m) * Pow2(n)
  {
    hide *;
    PowAdd(2, m, n);
  }

  lemma Pow2Succ(n: nat)
    ensures Pow2(n + 1) == 2 * Pow2(n)
  {
  }

  lemma Pow2One()
    ensures Pow2(1) == 2 && Pow2(0) == 1
  {
  }

  /** Bit k of x. */
  function Bit(x: int, k: nat): int
  {
    (x / Pow2(k)) % 2
  }

  // ---------------------------------------------------------------- products

  lemma MulAssoc(a: int, b: int, c: int)
    ensures a * (b * c) == (a * b) * c
  {
    hide *;
  }

  lemma MulDist(a: int, b: int, c: int)
    ensures a * (b + c) == a * b + a * c
    ensures (b + c) * a == b * a + c * a
  {
    hide *;
  }

  /** Equals may be replaced inside a product. */
  lemma MulCong(a: int, b: int, c: int)
    requires a == b
    ensures a * c == b * c
    ensures c * a == c * b
  {
    hide *;
  }

  lemma MulSwap(a: int, b: int, c: int, d: int)
    ensures (a * b) * (c * d) == (a * c) * (b * d)
  {
    hide *;
    MulAssoc(a * b, c, d);
    MulAssoc(a, b, c);
    MulAssoc(a, c, b);
    MulAssoc(a * c, b, d);
  }

  lemma MulMono(a: int, b: int, c: int)
    requires a <= b && 0 <= c
    ensures a * c <= b * c
    ensures c * a <= c * b
  {
    hide *;
  }

  lemma MulStrict(a: int, b: int, c: int)
    requires a < b && 0 < c
    ensures a * c < b * c
    ensures a * c + c <= b * c
  {
    hide *;
    MulMono(a + 1, b, c);
  }

  /** Cancels a positive factor from a strict inequality. */
  lemma MulCancelLess(a: int, b: int, c: int)
    requires a * c < b * c && 0 <= c
    ensures a < b
  {
    hide *;
    if b <= a {
      MulMono(b, a, c);
    }
  }

  // ---------------------------------------------------------------- division

  lemma DivUnique(a: int, n: int, q: int, r: int)
    requires a == q * n + r && 0 <= r < n
    ensures a / n == q && a % n == r
  {
    hide *;
    var q', r' := a / n, a % n;
    assert q' * n + r' == a;
    if q' < q {
      MulStrict(q', q, n);
    } else if q < q' {
      MulStrict(q, q', n);
    }
  }

  lemma DivMod(v: int, n: int)
    requires v >= 0 && n > 0
    ensures 0 <= v % n < n && 0 <= v / n && v == v % n + (v / n) * n
  {
    hide *;
  }

  /** The division identity, for every dividend. */
  lemma DivModAny(v: int, n: int)
    requires n > 0
    ensures 0 <= v % n < n && v == v % n + (v / n) * n
  {
    hide *;
  }

  lemma DivDiv(v: int, a: int, b: int)
    requires v >= 0 && a >= 1 && b >= 1
    ensures a * b >= 1 && (v / a) / b == v / (a * b)
  {
    hide *;
    MulMono(1, a, b);
    DivMod(v, a);
    var q, r := v / a, v % a;
    DivMod(q, b);
    var q2, r2 := q / b, q % b;
    // v == (q2*b + r2)*a + r
    MulCong(q, q2 * b + r2, a);
    MulDist(a, q2 * b, r2);
    MulAssoc(q2, b, a);
    MulMono(r2, b - 1, a);
    MulDist(a, b, -1);
    DivUnique(v, a * b, q2, r2 * a + r);
  }

  lemma ModShift(a: int, b: int, k: int, n: int)
    requires n > 0 && a == b + k * n
    ensures a % n == b % n
  {
    hide *;
    assert a == (b / n + k) * n + b % n;
    DivUnique(a, n, b / n + k, b % n);
  }

  /** Two numbers with the same residue differ by a multiple of the modulus. */
  lemma ModDiff(a: int, b: int, n: int) returns (k: int)
    requires n > 0 && a % n == b % n
    ensures a == b + k * n
  {
    hide *;
    k := a / n - b / n;
    assert a == (a / n) * n + a % n;
    assert b == (b / n) * n + b % n;
  }

  lemma ModMul(a: int, b: int, c: int, n: int)
    requires n > 0 && a % n == b % n
    ensures (a * c) % n == (b * c) % n
  {
    hide *;
    var k := ModDiff(a, b, n);
    assert a * c == b * c + (k * c) * n;
    ModShift(a * c, b * c, k * c, n);
  }

  /** Reducing the operands of a sum first does not change its residue. */
  lemma ModAdd(a: int, b: int, n: int)
    requires n > 0
    ensures (a % n + b % n) % n == (a + b) % n
  {
    hide *;
    MulDist(n, a / n, b / n);
    ModShift(a + b, a % n + b % n, a / n + b / n, n);
  }

  lemma ModSubMod(a: int, b: int, n: int)
    requires n > 0
    ensures (a - b % n) % n == (a - b) % n
  {
    hide *;
    ModShift(a - b % n, a - b, b / n, n);
  }

  lemma ModMul2(a: int, b: int, c: int, d: int, n: int)
    requires n > 0 && a % n == b % n && c % n == d % n
    ensures (a * c) % n == (b * d) % n
  {
    hide *;
    ModMul(a, b, c, n);
    ModMul(c, d, b, n);
  }

  lemma ModMod(a: int, n: int)
    requires n > 0
    ensures (a % n) % n == a % n
  {
    hide *;
    DivUnique(a % n, n, 0, a % n);
  }

  lemma {:induction false} ModPow(a: int, b: int, e: nat, n: int)
    requires n > 0 && a % n == b % n
    ensures Pow(a, e) % n == Pow(b, e) % n
  {
    if e > 0 {
      ModPow(a, b, e - 1, n);
      ModMul2(a, b, Pow(a, e - 1), Pow(b, e - 1), n);
    }
  }

  /** If f*g is 1 modulo n then f can be cancelled modulo n. */
  lemma ModCancel(a: int, b: int, f: int, g: int, n: int)
    requires n > 0 && (f * g) % n == 1 % n && (a * f) % n == (b * f) % n
    ensures a % n == b % n
  {
    hide *;
    ModMul(a * f, b * f, g, n);
    ModMul(f * g, 1, a, n);
    ModMul(f * g, 1, b, n);
    assert a * f * g == f * g * a && b * f * g == f * g * b;
  }

  lemma ModSmall(a: int, n: int)
    requires 0 <= a < n
    ensures a % n == a
  {
    hide *;
    DivUnique(a, n, 0, a);
  }

  // ---------------------------------------------------------------- divisibility

  predicate Divides(d: int, a: int)
    requires d > 0
  {
    a % d == 0
  }

  lemma DividesWitness(d: int, a: int, k: int)
    requires d > 0 && a == k * d
    ensures Divides(d, a)
  {
    DivUnique(a, d, k, 0);
  }

  lemma DividesQuotient(d: int, a: int) returns (k: int)
    requires d > 0 && Divides(d, a)
    ensures a == k * d
  {
    k := a / d;
  }

  /** g is the greatest common divisor of a and b: its divisors are exactly the common divisors. */
  ghost predicate IsGcd(g: int, a: int, b: int)
  {
    && g >= 0
    && forall d: int :: d > 0 ==> (Divides(d, a) && Divides(d, b) <==> Divides(d, g))
  }

  lemma DividesSum(d: int, a: int, b: int)
    requires d > 0 && Divides(d, a) && Divides(d, b)
    ensures Divides(d, a + b) && Divides(d, a - b)
  {
    hide *;
    var j := DividesQuotient(d, a);
    var k := DividesQuotient(d, b);
    assert a + b == (j + k) * d && a - b == (j - k) * d;
    DividesWitness(d, a + b, j + k);
    DividesWitness(d, a - b, j - k);
  }

  lemma DividesMultiple(d: int, a: int, m: int)
    requires d > 0 && Divides(d, a)
    ensures Divides(d, m * a)
  {
    hide *;
    var k := DividesQuotient(d, a);
    assert m * a == (m * k) * d;
    DividesWitness(d, m * a, m * k);
  }

  /** Subtracting one argument from the other keeps the greatest common divisor. */
  lemma GcdSub(g: int, a: int, b: int)
    ensures IsGcd(g, a - b, b) <==> IsGcd(g, a, b)
  {
    forall d: int | d > 0
      ensures Divides(d, a) && Divides(d, b) <==> Divides(d, a - b) && Divides(d, b)
    {
      if Divides(d, b) {
        if Divides(d, a) {
          DividesSum(d, a, b);
        } else if Divides(d, a - b) {
          DividesSum(d, a - b, b);
        }
      }
    }
  }

  lemma GcdSym(g: int, a: int, b: int)
    ensures IsGcd(g, a, b) <==> IsGcd(g, b, a)
  {
  }

  /** Coprime numbers combine to one: Euclid's algorithm by subtraction. */
  lemma {:induction false} Bezout(a: nat, b: nat) returns (x: int, y: int)
    requires IsGcd(1, a, b)
    ensures x * a + y * b == 1
    decreases a + b
  {
    hide IsGcd;
    if a == 0 || b == 0 {
      CoprimeToZero(a, b);
      x, y := a, b;
    } else if a >= b {
      GcdSub(1, a, b);
      x, y := Bezout(a - b, b);
      MulDist(x, a, 0 - b);
      MulDist(b, y, 0 - x);
      y := y - x;
    } else {
      GcdSym(1, a, b);
      GcdSub(1, b, a);
      GcdSym(1, b - a, a);
      x, y := Bezout(a, b - a);
      MulDist(y, b, 0 - a);
      MulDist(a, x, 0 - y);
      x := x - y;
    }
  }

  lemma CoprimeToZero(a: nat, b: nat)
    requires IsGcd(1, a, b) && (a == 0 || b == 0)
    ensures a + b == 1
  {
    var d := if a + b == 0 then 2 else a + b;
    DividesWitness(d, 0, 0);
    DividesWitness(d, d, 1);
    assert Divides(d, 1);
    if d > 1 {
      ModSmall(1, d);
    }
  }

  lemma OddDivisor(d: int, b: int)
    requires d > 0 && b % 2 == 1 && Divides(d, b)
    ensures d % 2 == 1
  {
    hide *;
    var k := DividesQuotient(d, b);
    var e, r := d / 2, d % 2;
    assert b == 2 * (k * e) + k * r;
  }

  /** An odd divisor of 2a divides a. */
  lemma OddDividesHalf(d: int, a: int)
    requires d > 0 && d % 2 == 1 && Divides(d, 2 * a)
    ensures Divides(d, a)
  {
    hide *;
    var k := DividesQuotient(d, 2 * a);
    var j, r := k / 2, k % 2;
    assert 2 * a == 2 * (j * d) + r * d;
    DividesWitness(d, a, j);
  }

  /** A factor two of one argument is irrelevant when the other is odd. */
  lemma GcdHalve(g: int, a: int, b: int)
    requires b % 2 == 1
    ensures IsGcd(g, 2 * a, b) <==> IsGcd(g, a, b)
  {
    forall d: int | d > 0
      ensures Divides(d, 2 * a) && Divides(d, b) <==> Divides(d, a) && Divides(d, b)
    {
      if Divides(d, b) {
        OddDivisor(d, b);
        if Divides(d, 2 * a) {
          OddDividesHalf(d, a);
        } else if Divides(d, a) {
          DividesMultiple(d, a, 2);
        }
      }
    }
  }

  lemma DividesDouble(d: int, a: int)
    requires d > 0
    ensures d % 2 == 0 ==> (Divides(d, 2 * a) <==> Divides(d / 2, a))
    ensures d % 2 == 1 ==> (Divides(d, 2 * a) <==> Divides(d, a))
  {
    hide *;
    if d % 2 == 0 {
      var e := d / 2;
      if Divides(d, 2 * a) {
        var k := DividesQuotient(d, 2 * a);
        assert 2 * a == 2 * (k * e);
        DividesWitness(e, a, k);
      }
      if Divides(e, a) {
        var k := DividesQuotient(e, a);
        assert 2 * a == k * d;
        DividesWitness(d, 2 * a, k);
      }
    } else {
      if Divides(d, 2 * a) { OddDividesHalf(d, a); }
      if Divides(d, a) { DividesMultiple(d, a, 2); }
    }
  }

  /** A common factor two moves out of the greatest common divisor. */
  lemma GcdDouble(g: int, a: int, b: int)
    requires IsGcd(g, a, b)
    ensures IsGcd(2 * g, 2 * a, 2 * b)
  {
    forall d: int | d > 0
      ensures Divides(d, 2 * a) && Divides(d, 2 * b) <==> Divides(d, 2 * g)
    {
      DividesDouble(d, a);
      DividesDouble(d, b);
      DividesDouble(d, g);
    }
  }

  lemma GcdZero(b: int)
    requires b >= 0
    ensures IsGcd(b, 0, b)
  {
    forall d: int | d > 0
      ensures Divides(d, 0)
    {
      DividesWitness(d, 0, 0);
    }
  }

  /** The greatest common divisor is unique. */
  lemma GcdUnique(g: int, h: int, a: int, b: int)
    requires IsGcd(g, a, b) && IsGcd(h, a, b)
    ensures g == h
  {
    forall d: int | d > 0
      ensures Divides(d, g) <==> Divides(d, h)
    {
    }
    if g > 0 {
      DividesWitness(g, g, 1);
      assert Divides(g, h);
    }
    if h > 0 {
      DividesWitness(h, h, 1);
      assert Divides(h, g);
    }
    if g > 0 && h > 0 {
      var j := DividesQuotient(g, h);
      var k := DividesQuotient(h, g);
      if j <= 0 { MulMono(j, 0, g); }
      if k <= 0 { MulMono(k, 0, h); }
      MulMono(1, j, g);
      MulMono(1, k, h);
    } else if g > 0 {
      assert Divides(g + 1, h) by { DividesWitness(g + 1, 0, 0); }
      assert Divides(g + 1, g);
      DivUnique(g, g + 1, 0, g);
    } else if h > 0 {
      assert Divides(h + 1, g) by { DividesWitness(h + 1, 0, 0); }
      assert Divides(h + 1, h);
      DivUnique(h, h + 1, 0, h);
    }
  }

  // ---------------------------------------------------------------- bitwise operators

  function BitAnd(x: nat, y: nat): nat
  {
    if x == 0 || y == 0 then 0
    else (if x % 2 == 1 && y % 2 == 1 then 1 else 0) + 2 * BitAnd(x / 2, y / 2)
  }

  function BitOr(x: nat, y: nat): nat
  {
    if x == 0 then y
    else if y == 0 then x
    else (if x % 2 == 1 || y % 2 == 1 then 1 else 0) + 2 * BitOr(x / 2, y / 2)
  }

  function BitXor(x: nat, y: nat): nat
  {
    if x == 0 then y
    else if y == 0 then x
    else (if x % 2 != y % 2 then 1 else 0) + 2 * BitXor(x / 2, y / 2)
  }

  /** A mask of k one bits keeps a k-bit number. */
  lemma {:induction false} BitAndMask(x: nat, k: nat)
    requires x < Pow(2, k)
    ensures Pow(2, k) >= 1 && BitAnd(x, Pow(2, k) - 1) == x
  {
    hide Pow;
    PowPos(2, k);
    PowSucc(2, 0);
    if x > 0 {
      PowSucc(2, k - 1);
      BitAndMask(x / 2, k - 1);
      assert (Pow(2, k) - 1) / 2 == Pow(2, k - 1) - 1;
    }
  }

  /** x << k. */
  function Shl(x: nat, k: nat): nat
  {
    if k == 0 then x else 2 * Shl(x, k - 1)
  }

  lemma {:induction false} ShlValue(x: nat, k: nat)
    ensures Shl(x, k) == x * Pow(2, k)
  {
    if k > 0 {
      ShlValue(x, k - 1);
      MulCong(Pow(2, k), 2 * Pow(2, k - 1), x);
    }
  }

  /** Disjoint bit fields: OR is addition. */
  lemma {:induction false} BitOrDisjoint(hi: nat, lo: nat, k: nat)
    requires lo < Pow(2, k)
    ensures hi * Pow(2, k) >= 0 && BitOr(hi * Pow(2, k), lo) == hi * Pow(2, k) + lo
  {
    hide *;
    ShlValue(hi, k);
    BitOrShl(hi, lo, k);
  }

  lemma {:induction false} BitOrShl(hi: nat, lo: nat, k: nat)
    requires lo < Pow(2, k)
    ensures BitOr(Shl(hi, k), lo) == Shl(hi, k) + lo
  {
    if k > 0 {
      BitOrShl(hi, lo / 2, k - 1);
      BitOrDouble(Shl(hi, k - 1), lo);
    }
  }

  lemma BitOrDouble(z: nat, lo: nat)
    requires BitOr(z, lo / 2) == z + lo / 2
    ensures BitOr(2 * z, lo) == 2 * z + lo
  {
  }

  lemma {:induction false} BitXorBound(x: nat, y: nat, k: nat)
    requires x < Pow(2, k) && y < Pow(2, k)
    ensures BitXor(x, y) < Pow(2, k)
  {
    if x > 0 && y > 0 {
      assert Pow(2, k) == 2 * Pow(2, k - 1);
      BitXorBound(x / 2, y / 2, k - 1);
    }
  }

  /** XOR with the same mask twice is the identity. */
  lemma {:induction false} BitXorInvolution(x: nat, y: nat)
    ensures BitXor(BitXor(x, y), y) == x
  {
    if x == 0 {
      BitXorSelf(y);
    } else if y > 0 {
      BitXorInvolution(x / 2, y / 2);
      var z := BitXor(x, y);
      assert z / 2 == BitXor(x / 2, y / 2);
      if z == 0 {
        assert BitXor(z / 2, y / 2) == y / 2;
      }
    }
  }

  lemma {:induction false} BitXorSelf(y: nat)
    ensures BitXor(y, y) == 0
  {
    if y > 0 {
      BitXorSelf(y / 2);
    }
  }

  /** Masking with 2^k - 1 is reduction modulo 2^k. */
  lemma {:induction false} MaskIsMod(x: nat, k: nat)
    ensures Pow(2, k) >= 1 && BitAnd(x, Pow(2, k) - 1) == x % Pow(2, k)
  {
    hide BitAnd;
    PowPos(2, k);
    if k == 0 || x == 0 {
      MaskZero(x, k);
    } else {
      var m: int := Pow(2, k - 1);
      assert Pow(2, k) == 2 * m;
      PowPos(2, k - 1);
      MaskIsMod(x / 2, k - 1);
      HalfMod(x, m);
      MaskStep(x, m);
    }
  }

  lemma MaskZero(a: nat, k: nat)
    requires (k == 0 || a == 0) && Pow(2, k) >= 1
    ensures BitAnd(a, Pow(2, k) - 1) == a % Pow(2, k)
  {
    if a == 0 {
      ModSmall(0, Pow(2, k));
    }
  }

  lemma MaskStep(a: nat, m: nat)
    requires a > 0 && m >= 1
    ensures BitAnd(a, 2 * m - 1) == a % 2 + 2 * BitAnd(a / 2, m - 1)
  {
    assert (2 * m - 1) / 2 == m - 1 && (2 * m - 1) % 2 == 1;
  }

  lemma HalfMod(a: int, m: int)
    requires m >= 1 && a >= 0
    ensures a % (2 * m) == a % 2 + 2 * (a / 2 % m)
    ensures (2 * m - 1) / 2 == m - 1 && (2 * m - 1) % 2 == 1
  {
    var q, r := a / 2 / m, a / 2 % m;
    DivMod(a / 2, m);
    assert a == 2 * (a / 2) + a % 2;
    MulAssoc(2, m, q);
    MulDist(2, m * q, r);
    DivUnique(a, 2 * m, q, a % 2 + 2 * r);
  }
}
