/** Binary greatest common divisor and binary extended modular inverse. */
module GcdInv {
  import opened Arith
  import opened Limbs
  import opened Mpis
  import opened MpiBits
  import opened MpiDiv

  // ---------------------------------------------------------------- greatest common divisor

  function Min(i: nat, j: nat): nat
  {
    if i < j then i else j
  }

  /** Powers of two attached to odd numbers only leave their common part in the gcd. */
  lemma {:induction false} GcdPow2(g: int, x: int, y: int, i: nat, j: nat)
    requires x % 2 == 1 && y % 2 == 1 && IsGcd(g, x, y)
    ensures IsGcd(Pow2(Min(i, j)) * g, Pow2(i) * x, Pow2(j) * y)
    decreases i + j
  {
    hide IsGcd;
    if i == 0 && j == 0 {
    } else if i > 0 && j > 0 {
      GcdPow2(g, x, y, i - 1, j - 1);
      GcdDouble(Pow2(Min(i, j) - 1) * g, Pow2(i - 1) * x, Pow2(j - 1) * y);
      DoublePow(Min(i, j), g);
      DoublePow(i, x);
      DoublePow(j, y);
    } else if i > 0 {
      GcdPow2(g, x, y, i - 1, j);
      GcdHalve(g, Pow2(i - 1) * x, y);
      DoublePow(i, x);
    } else {
      GcdPow2(g, x, y, i, j - 1);
      GcdSym(g, x, Pow2(j - 1) * y);
      GcdHalve(g, Pow2(j - 1) * y, x);
      GcdSym(g, 2 * (Pow2(j - 1) * y), x);
      DoublePow(j, y);
    }
  }

  lemma DoublePow(k: nat, x: int)
    requires k > 0
    ensures Pow2(k) * x == 2 * (Pow2(k - 1) * x)
  {
    hide *;
    Pow2One();
    Pow2Add(1, k - 1);
    MulAssoc(2, Pow2(k - 1), x);
  }

  /** Any gcd of (x, y), scaled by 2^k, is the gcd of (a, b). */
  ghost predicate Leads(x: int, y: int, k: nat, a: int, b: int)
  {
    forall g: int {:trigger IsGcd(g, x, y)} :: IsGcd(g, x, y) ==> IsGcd(Pow2(k) * g, a, b)
  }

  /** Removing all factors of two from both numbers. */
  lemma LeadsShift(x: int, y: int, i: nat, j: nat, x': int, y': int, k: nat, a: int, b: int)
    requires Leads(x, y, k, a, b) && x == Pow2(i) * x' && y == Pow2(j) * y' && x' % 2 == 1 && y' % 2 == 1
    ensures Leads(x', y', k + Min(i, j), a, b)
  {
    hide IsGcd, Pow2;
    forall g: int | IsGcd(g, x', y')
      ensures IsGcd(Pow2(k + Min(i, j)) * g, a, b)
    {
      GcdPow2(g, x', y', i, j);
      Pow2Add(k, Min(i, j));
      MulAssoc(Pow2(k), Pow2(Min(i, j)), g);
      assert IsGcd(Pow2(Min(i, j)) * g, x, y);
    }
  }

  /** Replacing the larger of two odd numbers by half the difference. */
  lemma LeadsHalfDifference(x: int, y: int, k: nat, a: int, b: int)
    requires Leads(x, y, k, a, b) && x % 2 == 1 && y % 2 == 1
    ensures Leads((x - y) / 2, y, k, a, b)
  {
    hide IsGcd;
    var h := (x - y) / 2;
    forall g: int | IsGcd(g, h, y)
      ensures IsGcd(Pow2(k) * g, a, b)
    {
      GcdHalve(g, h, y);
      GcdSub(g, x, y);
      assert IsGcd(g, x, y);
    }
  }

  lemma LeadsSym(x: int, y: int, k: nat, a: int, b: int)
    requires Leads(x, y, k, a, b)
    ensures Leads(y, x, k, a, b)
  {
    hide IsGcd;
    forall g: int | IsGcd(g, y, x)
      ensures IsGcd(Pow2(k) * g, a, b)
    {
      GcdSym(g, x, y);
      assert IsGcd(g, x, y);
    }
  }

  lemma LeadsSelf(a: int, b: int)
    ensures Leads(a, b, 0, a, b)
  {
    Pow2One();
  }

  lemma LeadsEnd(y: int, k: nat, a: int, b: int)
    requires Leads(0, y, k, a, b) && y >= 0
    ensures IsGcd(Pow2(k) * y, a, b)
  {
    GcdZero(y);
  }

  /** A multiple of 2^s has an even quotient by any smaller power of two. */
  lemma EvenQuotient(v: int, r: nat, s: nat)
    requires r < s && v % Pow2(s) == 0
    ensures (v / Pow2(r)) % 2 == 0
  {
    hide *;
    var q := v / Pow2(s);
    var h := Pow2(s - r - 1);
    Pow2One();
    Pow2Add(s - r - 1, 1);
    Pow2Add(s - r, r);
    MulCong(Pow2(s), 2 * h * Pow2(r), q);
    MulAssoc(q, 2 * h, Pow2(r));
    MulAssoc(q, 2, h);
    MulAssoc(2, q, h);
    DivUnique(v, Pow2(r), 2 * (q * h), 0);
  }

  lemma LsbUnique(v: int, r: nat, s: nat)
    requires IsLsb(v, r) && IsLsb(v, s)
    ensures r == s
  {
    hide Pow, Pow2;
    if v != 0 {
      if r < s { EvenQuotient(v, r, s); }
      if s < r { EvenQuotient(v, s, r); }
    }
  }

  /** G = gcd(|A|, |Y|), except that Y == 0 gives A itself, with its sign. */
  method GcdMpi(G: Mpi, A: Mpi, Y: Mpi)
    modifies G
    ensures old(Y.Value()) == 0 ==> G.Value() == old(A.Value())
    ensures old(Y.Value()) != 0 ==> IsGcd(G.Value(), AbsInt(old(A.Value())), AbsInt(old(Y.Value())))
  {
    hide Val, Pow, Pow2, IsGcd, Leads, IsLsb;
    var TA := new Mpi();
    var TB := new Mpi();
    Copy(TA, A);
    Copy(TB, Y);
    ghost var a, b := Val(TA.p), Val(TB.p);
    var lz := Lsb(TA);
    var lzt := Lsb(TB);
    var bit := GetBit0(TB);
    if lzt == 0 && bit == 0 {
      ZeroTest(b);
      Copy(G, A);
      return;
    }
    NonzeroTest(b, lzt, bit);
    ghost var la, lb := lz, lzt;
    if lzt < lz {
      lz := lzt;
    }
    TA.s, TB.s := 1, 1;
    GcdLoop(TA, TB, lz, la, lb);
    assert a == AbsInt(old(A.Value())) && b == AbsInt(old(Y.Value()));
    Copy(G, TB);
  }

  /** Runs the rounds until TA is 0 and puts the shared power of two back. */
  method GcdLoop(TA: Mpi, TB: Mpi, lz: nat, ghost la: nat, ghost lb: nat)
    requires TA != TB && TA.s == 1 && TB.s == 1 && Val(TB.p) > 0
    requires IsLsb(Val(TA.p), la) && IsLsb(Val(TB.p), lb) && lz == Min(la, lb)
    modifies TA, TB
    ensures IsGcd(TB.Value(), old(Val(TA.p)), old(Val(TB.p)))
  {
    hide Val, Pow, Pow2, IsGcd, Leads, IsLsb;
    ghost var a, b := Val(TA.p), Val(TB.p);
    if a == 0 {
      ZeroLsb(a, la);
    }
    ghost var k := GcdRounds(TA, TB, lz, la, lb);
    LeadsEnd(Val(TB.p), k, a, b);
    ShiftL(TB, lz);
  }

  method GcdRounds(TA: Mpi, TB: Mpi, lz: nat, ghost la: nat, ghost lb: nat) returns (ghost k: nat)
    requires TA != TB && TA.s == 1 && TB.s == 1 && Val(TB.p) > 0
    requires IsLsb(Val(TA.p), la) && IsLsb(Val(TB.p), lb) && lz == Min(la, lb)
    modifies TA, TB
    ensures TB.s == 1 && Leads(0, Val(TB.p), k, old(Val(TA.p)), old(Val(TB.p)))
    ensures k == lz || (k == 0 && old(Val(TA.p)) == 0 && Val(TB.p) == old(Val(TB.p)))
  {
    hide Val, Pow, Pow2, IsGcd, Leads, IsLsb;
    ghost var a, b := Val(TA.p), Val(TB.p);
    k := 0;
    LeadsSelf(a, b);
    var c := CmpInt(TA, 0);
    while c != 0
      invariant TA.s == 1 && TB.s == 1 && Val(TB.p) > 0 && c == Cmp(Val(TA.p), 0)
      invariant Leads(Val(TA.p), Val(TB.p), k, a, b)
      invariant (k == 0 && Val(TA.p) == a && Val(TB.p) == b)
             || (k == lz && (Val(TA.p) % 2 == 1 || Val(TB.p) % 2 == 1))
      decreases Val(TA.p) + Val(TB.p)
    {
      k := GcdRound(TA, TB, k, lz, a, b, la, lb);
      c := CmpInt(TA, 0);
    }
  }

  /** Bit 0, which is 0 for an empty number. */
  method GetBit0(X: Mpi) returns (r: int)
    ensures r == Val(X.p) % 2
  {
    if |X.p| == 0 {
      return 0;
    }
    Parity(X.p);
    r := X.p[0] % 2;
  }

  lemma ZeroTest(b: int)
    requires IsLsb(b, 0) && b % 2 == 0
    ensures b == 0
  {
    Pow2One();
  }

  lemma ZeroLsb(a: int, la: nat)
    requires a == 0 && IsLsb(a, la)
    ensures la == 0
  {
  }

  lemma NonzeroTest(b: int, r: nat, bit: int)
    requires IsLsb(b, r) && (r != 0 || bit != 0) && bit == b % 2
    ensures b != 0
  {
  }

  /** Both numbers lose their factors of two, then the larger becomes half the difference. */
  method GcdRound(TA: Mpi, TB: Mpi, ghost k: nat, ghost lz: nat, ghost a: int, ghost b: int, ghost la: nat,
                  ghost lb: nat)
    returns (ghost k': nat)
    requires TA != TB && TA.s == 1 && TB.s == 1 && Val(TA.p) > 0 && Val(TB.p) > 0
    requires Leads(Val(TA.p), Val(TB.p), k, a, b) && lz == Min(la, lb)
    requires (k == 0 && Val(TA.p) == a && Val(TB.p) == b && IsLsb(a, la) && IsLsb(b, lb))
          || (k == lz && (Val(TA.p) % 2 == 1 || Val(TB.p) % 2 == 1))
    modifies TA, TB
    ensures TA.s == 1 && TB.s == 1 && Val(TB.p) > 0 && k' == lz
    ensures Leads(Val(TA.p), Val(TB.p), k', a, b) && (Val(TA.p) % 2 == 1 || Val(TB.p) % 2 == 1)
    ensures Val(TA.p) + Val(TB.p) < old(Val(TA.p) + Val(TB.p))
  {
    hide Val, Pow, Pow2, IsGcd, Leads, IsLsb;
    ghost var x, y := Val(TA.p), Val(TB.p);
    var i := Lsb(TA);
    LsbParts(x, i);
    ShiftR(TA, i);
    var j := Lsb(TB);
    LsbParts(y, j);
    ShiftR(TB, j);
    ghost var x', y' := Val(TA.p), Val(TB.p);
    LeadsShift(x, y, i, j, x', y', k, a, b);
    k' := k + Min(i, j);
    SharedPower(x, y, i, j, k, lz, a, b, la, lb);
    HalfDifference(TA, TB, k', a, b);
  }

  /** The larger of two odd numbers becomes half the difference. */
  method HalfDifference(TA: Mpi, TB: Mpi, ghost k: nat, ghost a: int, ghost b: int)
    requires TA != TB && TA.s == 1 && TB.s == 1 && Val(TA.p) % 2 == 1 && Val(TB.p) % 2 == 1
    requires Leads(Val(TA.p), Val(TB.p), k, a, b)
    modifies TA, TB
    ensures TA.s == 1 && TB.s == 1 && Val(TB.p) > 0
    ensures Leads(Val(TA.p), Val(TB.p), k, a, b) && (Val(TA.p) % 2 == 1 || Val(TB.p) % 2 == 1)
    ensures Val(TA.p) + Val(TB.p) < old(Val(TA.p) + Val(TB.p))
  {
    hide Val, Pow, Pow2, IsGcd, Leads;
    ghost var x, y := Val(TA.p), Val(TB.p);
    Pow2One();
    var c := CmpMpi(TA, TB);
    if c >= 0 {
      LeadsHalfDifference(x, y, k, a, b);
      var _ := SubAbs(TA, TA, TB);
      ShiftR(TA, 1);
    } else {
      LeadsSym(x, y, k, a, b);
      LeadsHalfDifference(y, x, k, a, b);
      LeadsSym((y - x) / 2, x, k, a, b);
      var _ := SubAbs(TB, TB, TA);
      ShiftR(TB, 1);
    }
  }

  lemma LsbParts(x: int, i: nat)
    requires x > 0 && IsLsb(x, i)
    ensures x == Pow2(i) * (x / Pow2(i)) && (x / Pow2(i)) % 2 == 1 && 0 < x / Pow2(i) <= x
  {
    hide Pow, Pow2;
    DivMod(x, Pow2(i));
    MulMono(1, Pow2(i), x / Pow2(i));
  }

  lemma SharedPower(x: int, y: int, i: nat, j: nat, k: nat, lz: nat, a: int, b: int, la: nat, lb: nat)
    requires x > 0 && y > 0 && IsLsb(x, i) && IsLsb(y, j) && lz == Min(la, lb)
    requires (k == 0 && x == a && y == b && IsLsb(a, la) && IsLsb(b, lb))
          || (k == lz && (x % 2 == 1 || y % 2 == 1))
    ensures k + Min(i, j) == lz
  {
    hide Pow, Pow2;
    if k == 0 && x == a && y == b && IsLsb(a, la) && IsLsb(b, lb) {
      LsbUnique(a, i, la);
      LsbUnique(b, j, lb);
    } else {
      OddLsb(x, i);
      OddLsb(y, j);
    }
  }

  lemma OddLsb(x: int, i: nat)
    requires x > 0 && IsLsb(x, i)
    ensures x % 2 == 1 ==> i == 0
  {
    hide Pow, Pow2;
    if x % 2 == 1 && i > 0 {
      Pow2One();
      EvenQuotient(x, 0, i);
    }
  }

  /** The result is the gcd exactly when it is not the copied negative A. */
  lemma GcdExact(g: int, a: int, b: int)
    requires b == 0 ==> g == a
    requires b != 0 ==> IsGcd(g, AbsInt(a), AbsInt(b))
    ensures IsGcd(g, AbsInt(a), AbsInt(b)) <==> !(b == 0 && a < 0)
  {
    if b == 0 && a >= 0 {
      GcdZero(a);
      GcdSym(a, a, 0);
    }
  }

  // ---------------------------------------------------------------- modular inverse

  ghost predicate Coprime(x: int, y: int)
  {
    forall d: int :: d > 0 && Divides(d, x) && Divides(d, y) ==> d == 1
  }

  /** Every divisor of y divides x. */
  ghost predicate DivisorsOf(y: int, x: int)
  {
    forall d: int {:trigger Divides(d, y)} :: d > 0 && Divides(d, y) ==> Divides(d, x)
  }

  lemma CoprimeVia(x: int, y: int, x': int, y': int)
    requires Coprime(x, y) && DivisorsOf(x', x) && DivisorsOf(y', y)
    ensures Coprime(x', y')
  {
  }

  lemma CoprimeSub(x: int, y: int)
    requires Coprime(x, y)
    ensures Coprime(x - y, y) && Coprime(y, x - y)
  {
    forall d: int | d > 0 && Divides(d, x - y) && Divides(d, y)
      ensures d == 1
    {
      DividesSum(d, x - y, y);
      assert Divides(d, x);
    }
  }

  lemma CoprimeZero(y: int)
    requires Coprime(0, y) && y > 0
    ensures y == 1
  {
    DividesWitness(y, 0, 0);
    DividesWitness(y, y, 1);
  }

  /** A greatest common divisor of 1 means coprime, also after reduction. */
  lemma CoprimeReduced(a: int, n: int)
    requires n > 1 && IsGcd(1, AbsInt(a), n)
    ensures Coprime(a % n, n) && a % n != 0 && (a % n % 2 == 1 || n % 2 == 1)
  {
    var t := a % n;
    forall d: int | d > 0 && Divides(d, t) && Divides(d, n)
      ensures d == 1
    {
      CommonOfReduced(d, a, n);
    }
    DividesWitness(n, 0, 0);
    DividesWitness(n, n, 1);
    assert t % 2 == 0 && n % 2 == 0 ==> Divides(2, t) && Divides(2, n);
  }

  lemma CommonOfReduced(d: int, a: int, n: int)
    requires n > 1 && d > 0 && IsGcd(1, AbsInt(a), n) && Divides(d, a % n) && Divides(d, n)
    ensures d == 1
  {
    hide Divides;
    DivModAny(a, n);
    DividesMultiple(d, n, a / n);
    DividesSum(d, (a / n) * n, a % n);
    DividesAbs(d, a);
    assert Divides(d, 1);
    var k := DividesQuotient(d, 1);
    UnitDivisor(k, d);
  }

  lemma UnitDivisor(k: int, d: int)
    requires d > 0 && k * d == 1
    ensures d == 1
  {
    if k <= 0 { MulMono(k, 0, d); }
    MulMono(1, k, d);
  }

  lemma DividesAbs(d: int, a: int)
    requires d > 0 && Divides(d, a)
    ensures Divides(d, AbsInt(a))
  {
    var k := DividesQuotient(d, a);
    if a < 0 {
      NegMul(k, d);
      DividesWitness(d, 0 - a, 0 - k);
    }
  }

  /** TU is even, so U1 and U2 are both even, or both become even by adding TB and subtracting TA. */
  lemma HalvingExact(u1: int, u2: int, ta: int, tb: int, tu: int)
    requires u1 * ta + u2 * tb == tu && tu % 2 == 0 && (ta % 2 == 1 || tb % 2 == 1)
    ensures u1 % 2 == 1 || u2 % 2 == 1 ==> (u1 + tb) % 2 == 0 && (u2 - ta) % 2 == 0
    ensures (u1 + tb) * ta + (u2 - ta) * tb == tu
  {
    hide *;
    ShiftCofactors(u1, u2, ta, tb);
    ParityMul(u1, ta);
    ParityMul(u2, tb);
    ParityCases(u1, u2, ta, tb, u1 * ta, u2 * tb);
  }

  lemma ShiftCofactors(u1: int, u2: int, ta: int, tb: int)
    ensures (u1 + tb) * ta + (u2 - ta) * tb == u1 * ta + u2 * tb
  {
    MulDist(ta, u1, tb);
    MulDist(tb, u2, 0 - ta);
    NegMul(ta, tb);
  }

  lemma ParityCases(u1: int, u2: int, ta: int, tb: int, p: int, q: int)
    requires p % 2 == if u1 % 2 == 1 && ta % 2 == 1 then 1 else 0
    requires q % 2 == if u2 % 2 == 1 && tb % 2 == 1 then 1 else 0
    requires (p + q) % 2 == 0 && (ta % 2 == 1 || tb % 2 == 1)
    ensures u1 % 2 == 1 || u2 % 2 == 1 ==> (u1 + tb) % 2 == 0 && (u2 - ta) % 2 == 0
  {
  }

  lemma ParityMul(a: int, b: int)
    ensures (a * b) % 2 == if a % 2 == 1 && b % 2 == 1 then 1 else 0
  {
    hide *;
    ModMod(a, 2);
    ModMod(b, 2);
    ModMul2(a, a % 2, b, b % 2, 2);
    if a % 2 == 0 {
      MulCong(a % 2, 0, b % 2);
    } else {
      MulCong(a % 2, 1, b % 2);
    }
  }

  lemma HalfRelation(u1: int, u2: int, ta: int, tb: int, tu: int)
    requires 2 * u1 * ta + 2 * u2 * tb == 2 * tu
    ensures u1 * ta + u2 * tb == tu
  {
    MulAssoc(2, u1, ta);
    MulAssoc(2, u2, tb);
  }

  /** Halves an even signed number; the magnitude is shifted, so the halving is exact. */
  method Halve(U: Mpi)
    requires U.Value() % 2 == 0
    modifies U
    ensures 2 * U.Value() == old(U.Value()) && |U.p| >= old(|U.p|)
  {
    hide Val, Pow;
    Pow2One();
    ShiftR(U, 1);
  }

  lemma SignedParity(U: Mpi)
    requires |U.p| > 0
    ensures U.p[0] % 2 == U.Value() % 2
  {
    hide Val;
    Parity(U.p);
  }

  /** Halves TU while it is even, adjusting its cofactors so that U1*TA + U2*TB stays TU. */
  method HalveAll(TU: Mpi, U1: Mpi, U2: Mpi, TA: Mpi, TB: Mpi)
    requires TU != U1 && TU != U2 && TU != TA && TU != TB && U1 != U2 && U1 != TA && U1 != TB && U2 != TA && U2 != TB
    requires TU.Value() > 0 && |U1.p| > 0 && |U2.p| > 0
    requires TA.Value() % 2 == 1 || TB.Value() % 2 == 1
    requires U1.Value() * TA.Value() + U2.Value() * TB.Value() == TU.Value()
    modifies TU, U1, U2
    ensures 0 < TU.Value() <= old(TU.Value()) && TU.Value() % 2 == 1 && |U1.p| > 0 && |U2.p| > 0
    ensures U1.Value() * TA.Value() + U2.Value() * TB.Value() == TU.Value()
    ensures DivisorsOf(TU.Value(), old(TU.Value()))
  {
    hide Val;
    NonemptyLimbs(TU.p);
    SignedParity(TU);
    ghost var ta, tb := TA.Value(), TB.Value();
    while TU.p[0] % 2 == 0
      invariant 0 < TU.Value() <= old(TU.Value()) && |TU.p| > 0 && |U1.p| > 0 && |U2.p| > 0
      invariant TU.p[0] % 2 == TU.Value() % 2
      invariant U1.Value() * ta + U2.Value() * tb == TU.Value()
      invariant DivisorsOf(TU.Value(), old(TU.Value()))
      decreases TU.Value()
    {
      HalveOnce(TU, U1, U2, TA, TB);
      NonemptyLimbs(TU.p);
      SignedParity(TU);
    }
  }

  method HalveOnce(TU: Mpi, U1: Mpi, U2: Mpi, TA: Mpi, TB: Mpi)
    requires TU != U1 && TU != U2 && TU != TA && TU != TB && U1 != U2 && U1 != TA && U1 != TB && U2 != TA && U2 != TB
    requires TU.Value() > 0 && TU.Value() % 2 == 0 && |U1.p| > 0 && |U2.p| > 0
    requires TA.Value() % 2 == 1 || TB.Value() % 2 == 1
    requires U1.Value() * TA.Value() + U2.Value() * TB.Value() == TU.Value()
    modifies TU, U1, U2
    ensures 2 * TU.Value() == old(TU.Value()) && |U1.p| > 0 && |U2.p| > 0
    ensures U1.Value() * TA.Value() + U2.Value() * TB.Value() == TU.Value()
    ensures forall x :: DivisorsOf(old(TU.Value()), x) ==> DivisorsOf(TU.Value(), x)
  {
    hide Val, Divides;
    ghost var ta, tb, t := TA.Value(), TB.Value(), TU.Value();
    HalvingExact(U1.Value(), U2.Value(), ta, tb, t);
    Halve(TU);
    SignedParity(U1);
    SignedParity(U2);
    if U1.p[0] % 2 != 0 || U2.p[0] % 2 != 0 {
      AddMpi(U1, U1, TB);
      SubMpi(U2, U2, TA);
    }
    ghost var u1, u2 := U1.Value(), U2.Value();
    assert u1 * ta + u2 * tb == t;
    Halve(U1);
    Halve(U2);
    MulCong(u1, 2 * U1.Value(), ta);
    MulCong(u2, 2 * U2.Value(), tb);
    HalfRelation(U1.Value(), U2.Value(), ta, tb, TU.Value());
    HalfDivisors(TU.Value());
  }

  lemma HalfDivisors(h: int)
    ensures forall x :: DivisorsOf(2 * h, x) ==> DivisorsOf(h, x)
  {
    forall d: int | d > 0 && Divides(d, h)
      ensures Divides(d, 2 * h)
    {
      DividesMultiple(d, h, 2);
    }
  }

  /** X = A^-1 mod N, in [0, N); an error unless N > 1 and gcd(A, N) == 1. */
  method InvMod(X: Mpi, A: Mpi, N: Mpi) returns (ret: Ret)
    modifies X
    ensures old(N.Value()) <= 1 ==> ret == BadInputData
    ensures old(N.Value()) > 1 ==>
      ret == if IsGcd(1, AbsInt(old(A.Value())), old(N.Value())) then Ok else NotAcceptable
    ensures ret == Ok ==> 0 <= X.Value() < old(N.Value())
    ensures ret == Ok ==> (old(A.Value()) * X.Value()) % old(N.Value()) == 1
    ensures ret != Ok ==> X.p == old(X.p) && X.s == old(X.s)
  {
    hide Val, IsGcd, Coprime;
    ghost var a, n := A.Value(), N.Value();
    var c := CmpInt(N, 1);
    if c <= 0 {
      return BadInputData;
    }
    var G := new Mpi();
    GcdMpi(G, A, N);
    c := CmpInt(G, 1);
    if c != 0 {
      NotOne(G.Value(), AbsInt(a), n);
      return NotAcceptable;
    }
    CoprimeReduced(a, n);
    var V1 := ExtendedLoop(A, N);
    InverseReduced(a, n, V1.Value());
    ModRange(V1.Value(), n);
    Canonicalise(V1, N);
    Copy(X, V1);
    ret := Ok;
  }

  lemma NotOne(g: int, a: int, n: int)
    requires IsGcd(g, a, n) && g != 1
    ensures !IsGcd(1, a, n)
  {
    if IsGcd(1, a, n) {
      GcdUnique(g, 1, a, n);
    }
  }

  lemma ModRange(v: int, n: int)
    requires n > 0
    ensures 0 <= v % n < n
  {
  }

  lemma InverseReduced(a: int, n: int, v: int)
    requires n > 1 && (v * (a % n)) % n == 1
    ensures (a * (v % n)) % n == 1
  {
    hide *;
    ModMod(a, n);
    ModMod(v, n);
    ModMul2(a % n, a, v, v % n, n);
    assert (a % n) * v == v * (a % n);
  }

  method NewCopy(S: Mpi) returns (M: Mpi)
    ensures fresh(M) && M.Value() == S.Value()
  {
    M := new Mpi();
    Copy(M, S);
  }

  method NewInt(z: int) returns (M: Mpi)
    requires AbsInt(z) < B
    ensures fresh(M) && M.Value() == z && |M.p| > 0
  {
    M := new Mpi();
    Lset(M, z);
  }

  /** The two halving loops and the subtraction, until TU is 0; V1 inverts A modulo N. */
  method ExtendedLoop(A: Mpi, N: Mpi) returns (V1: Mpi)
    requires N.Value() > 1 && A.Value() % N.Value() != 0
    requires Coprime(A.Value() % N.Value(), N.Value())
    requires A.Value() % N.Value() % 2 == 1 || N.Value() % 2 == 1
    ensures fresh(V1) && (V1.Value() * (A.Value() % N.Value())) % N.Value() == 1
  {
    hide Val, Coprime;
    ModRange(A.Value(), N.Value());
    var TA := new Mpi();
    var _ := ModMpi(TA, A, N);
    V1 := ExtendedStart(TA, N);
  }

  method ExtendedStart(TA: Mpi, N: Mpi) returns (V1: Mpi)
    requires 0 < TA.Value() < N.Value() && Coprime(TA.Value(), N.Value())
    requires TA.Value() % 2 == 1 || N.Value() % 2 == 1
    ensures fresh(V1) && (V1.Value() * TA.Value()) % N.Value() == 1
  {
    hide Val, Coprime;
    ghost var n, t := N.Value(), TA.Value();
    var TU := NewCopy(TA);
    var TB := NewCopy(N);
    var TV := NewCopy(N);
    var U1 := NewInt(1);
    var U2 := NewInt(0);
    V1 := NewInt(0);
    var V2 := NewInt(1);
    StartRelations(t, n);
    ExtendedRounds(TU, U1, U2, TV, V1, V2, TA, TB);
    BezoutInverse(V1.Value(), V2.Value(), t, n);
  }

  lemma BezoutInverse(v1: int, v2: int, t: int, n: int)
    requires n > 1 && v1 * t + v2 * n == 1
    ensures (v1 * t) % n == 1
  {
    hide *;
    NegMul(v2, n);
    ModShift(v1 * t, 1, 0 - v2, n);
    ModSmall(1, n);
  }

  /** The eight numbers of the computation are different objects. */
  ghost predicate Apart(TU: Mpi, U1: Mpi, U2: Mpi, TV: Mpi, V1: Mpi, V2: Mpi, TA: Mpi, TB: Mpi)
  {
    && TU != U1 && TU != U2 && TU != TV && TU != V1 && TU != V2 && TU != TA && TU != TB
    && U1 != U2 && U1 != TV && U1 != V1 && U1 != V2 && U1 != TA && U1 != TB
    && U2 != TV && U2 != V1 && U2 != V2 && U2 != TA && U2 != TB
    && TV != V1 && TV != V2 && TV != TA && TV != TB && V1 != V2 && V1 != TA && V1 != TB
    && V2 != TA && V2 != TB
  }

  method ExtendedRounds(TU: Mpi, U1: Mpi, U2: Mpi, TV: Mpi, V1: Mpi, V2: Mpi, TA: Mpi, TB: Mpi)
    requires Apart(TU, U1, U2, TV, V1, V2, TA, TB)
    requires |U1.p| > 0 && |U2.p| > 0 && |V1.p| > 0 && |V2.p| > 0
    requires TA.Value() % 2 == 1 || TB.Value() % 2 == 1
    requires TU.Value() > 0 && TV.Value() > 0 && Coprime(TU.Value(), TV.Value())
    requires U1.Value() * TA.Value() + U2.Value() * TB.Value() == TU.Value()
    requires V1.Value() * TA.Value() + V2.Value() * TB.Value() == TV.Value()
    modifies TU, U1, U2, TV, V1, V2
    ensures V1.Value() * TA.Value() + V2.Value() * TB.Value() == 1
  {
    hide Val, Coprime;
    var more := true;
    while more
      invariant |U1.p| > 0 && |U2.p| > 0 && |V1.p| > 0 && |V2.p| > 0
      invariant more == (TU.Value() != 0) && TU.Value() >= 0 && TV.Value() > 0
      invariant U1.Value() * TA.Value() + U2.Value() * TB.Value() == TU.Value()
      invariant V1.Value() * TA.Value() + V2.Value() * TB.Value() == TV.Value()
      invariant Coprime(TU.Value(), TV.Value())
      decreases TU.Value() + TV.Value()
    {
      ExtendedRound(TU, U1, U2, TV, V1, V2, TA, TB);
      var c := CmpInt(TU, 0);
      more := c != 0;
    }
    CoprimeIsOne(TU.Value(), TV.Value());
  }

  lemma StartRelations(t: int, n: int)
    ensures 1 * t + 0 * n == t && 0 * t + 1 * n == n
  {
  }

  lemma CoprimeIsOne(u: int, v: int)
    requires u == 0 && v > 0 && Coprime(u, v)
    ensures v == 1
  {
    CoprimeZero(v);
  }

  method ExtendedRound(TU: Mpi, U1: Mpi, U2: Mpi, TV: Mpi, V1: Mpi, V2: Mpi, TA: Mpi, TB: Mpi)
    requires Apart(TU, U1, U2, TV, V1, V2, TA, TB)
    requires |U1.p| > 0 && |U2.p| > 0 && |V1.p| > 0 && |V2.p| > 0
    requires TA.Value() % 2 == 1 || TB.Value() % 2 == 1
    requires TU.Value() > 0 && TV.Value() > 0 && Coprime(TU.Value(), TV.Value())
    requires U1.Value() * TA.Value() + U2.Value() * TB.Value() == TU.Value()
    requires V1.Value() * TA.Value() + V2.Value() * TB.Value() == TV.Value()
    modifies TU, U1, U2, TV, V1, V2
    ensures |U1.p| > 0 && |U2.p| > 0 && |V1.p| > 0 && |V2.p| > 0
    ensures TU.Value() >= 0 && TV.Value() > 0 && Coprime(TU.Value(), TV.Value())
    ensures U1.Value() * TA.Value() + U2.Value() * TB.Value() == TU.Value()
    ensures V1.Value() * TA.Value() + V2.Value() * TB.Value() == TV.Value()
    ensures TU.Value() + TV.Value() < old(TU.Value() + TV.Value())
  {
    hide Val, Coprime, DivisorsOf;
    ghost var ta, tb, u, v := TA.Value(), TB.Value(), TU.Value(), TV.Value();
    HalveAll(TU, U1, U2, TA, TB);
    HalveAll(TV, V1, V2, TA, TB);
    CoprimeVia(u, v, TU.Value(), TV.Value());
    CoprimeBoth(TU.Value(), TV.Value());
    Difference(U1.Value(), U2.Value(), V1.Value(), V2.Value(), ta, tb);
    var c := CmpMpi(TU, TV);
    if c >= 0 {
      SubMpi(TU, TU, TV);
      SubMpi(U1, U1, V1);
      SubMpi(U2, U2, V2);
    } else {
      SubMpi(TV, TV, TU);
      SubMpi(V1, V1, U1);
      SubMpi(V2, V2, U2);
    }
  }

  lemma CoprimeBoth(x: int, y: int)
    requires Coprime(x, y)
    ensures Coprime(x - y, y) && Coprime(x, y - x)
  {
    CoprimeSub(x, y);
    assert Coprime(y, x);
    CoprimeSub(y, x);
  }

  lemma Difference(u1: int, u2: int, v1: int, v2: int, ta: int, tb: int)
    ensures (u1 - v1) * ta + (u2 - v2) * tb == (u1 * ta + u2 * tb) - (v1 * ta + v2 * tb)
    ensures (v1 - u1) * ta + (v2 - u2) * tb == (v1 * ta + v2 * tb) - (u1 * ta + u2 * tb)
  {
    MulDist(ta, u1, 0 - v1);
    NegMul(v1, ta);
    MulDist(tb, u2, 0 - v2);
    NegMul(v2, tb);
    MulDist(ta, v1, 0 - u1);
    NegMul(u1, ta);
    MulDist(tb, v2, 0 - u2);
    NegMul(u2, tb);
  }
}
