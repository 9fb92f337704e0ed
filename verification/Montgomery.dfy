/** Montgomery arithmetic: the per-modulus constant, and multiplication without division. */
module Montgomery {
  import opened Arith
  import opened Limbs
  import opened Mpis
  import opened MpiBits
  import opened MpiDiv

  // ---------------------------------------------------------------- -N^-1 mod 2^biL

  /** x inverts m modulo 2^p. */
  predicate Inverts(m: int, x: int, p: nat)
  {
    (m * x - 1) % Pow2(p) == 0
  }

  lemma BitAndFour(x: nat)
    ensures BitAnd(x, 4) == 4 * ((x / 4) % 2)
  {
    var y := x / 2;
    var z := y / 2;
    assert z == x / 4;
    assert BitAnd(z, 1) == z % 2;
    assert BitAnd(y, 2) == 2 * BitAnd(z, 1);
    assert BitAnd(x, 4) == 2 * BitAnd(y, 2);
  }

  /** Bit 2 only depends on the residue modulo 16. */
  lemma Bit2(a: int, b: int, j: int)
    requires b == a + 16 * j
    ensures (a / 4) % 2 == (b / 4) % 2
  {
    assert b / 4 == a / 4 + 4 * j;
  }

  lemma SmallInverse(r: int, e: int)
    requires 0 <= r < 16 && r % 2 == 1 && e == ((r + 2) / 4) % 2
    ensures (r * (r + 8 * e) - 1) % 16 == 0
  {
    assert r in {1, 3, 5, 7, 9, 11, 13, 15};
  }

  /** The start value m + 8*bit2(m + 2) is correct to four bits. */
  lemma FirstInverse(m: int, x: int, j: int)
    requires m % 2 == 1 && x == m + 8 * (((m + 2) / 4) % 2) + 16 * j
    ensures Inverts(m, x, 4)
  {
    hide *;
    var k, r := m / 16, m % 16;
    var e := ((m + 2) / 4) % 2;
    DivModAny(m, 16);
    ModShift(m, r, 8 * k, 2);
    Bit2(r + 2, m + 2, k);
    SmallInverse(r, e);
    Residue16(m, x, k, r, r + 8 * e, k + j);
    InvertsFour(m, x);
  }

  lemma InvertsFour(m: int, x: int)
    ensures Inverts(m, x, 4) <==> (m * x - 1) % 16 == 0
  {
    assert Pow2(4) == 16;
  }

  lemma Residue16(m: int, x: int, k: int, r: int, y: int, h: int)
    requires m == 16 * k + r && x == y + 16 * h && (r * y - 1) % 16 == 0
    ensures (m * x - 1) % 16 == 0
  {
    Expand16(k, r, y, h);
    MulCong(m, 16 * k + r, x);
    MulCong(x, y + 16 * h, 16 * k + r);
    ModShift(m * x - 1, r * y - 1, k * (y + 16 * h) + r * h, 16);
  }

  lemma Expand16(k: int, r: int, y: int, h: int)
    ensures (16 * k + r) * (y + 16 * h) == r * y + (k * (y + 16 * h) + r * h) * 16
  {
    MulDist(y + 16 * h, 16 * k, r);
    MulDist(r, y, 16 * h);
  }

  /** A Newton step doubles the number of correct bits, and wrapping does not hurt. */
  lemma NewtonStep(m: int, x: int, p: nat, x': int)
    requires Inverts(m, x, p) && 2 * p <= BIL && x' % B == (x * (2 - m * x)) % B
    ensures Inverts(m, x', 2 * p)
  {
    hide Pow, Pow2;
    var e := Pow2(p);
    var k := (m * x - 1) / e;
    var j := ModDiff(x', x * (2 - m * x), B);
    Pow2Add(p, p);
    Pow2Add(2 * p, BIL - 2 * p);
    Pow2IsB();
    var f, g := Pow2(2 * p), Pow2(BIL - 2 * p);
    DivModAny(m * x - 1, e);
    NewtonUnfolds(m, x, x', j, k, e, f, g);
    DivUnique(m * x' - 1, f, m * j * g - k * k, 0);
  }

  lemma NewtonUnfolds(m: int, x: int, x': int, j: int, k: int, e: int, f: int, g: int)
    requires m * x - 1 == k * e && f == e * e && B == f * g && x' == x * (2 - m * x) + j * B
    ensures m * x' - 1 == (m * j * g - k * k) * f
  {
    hide *;
    var u := m * x - 1;
    SquareOf(u, k, e);
    MulCong(e * e, f, k * k);
    MulAssoc(m, x, 2 - m * x);
    MulCong(m * x, u + 1, 1 - u);
    MulDist(1 - u, u, 1);
    MulDist(u, 1, 0 - u);
    NegMul(u, u);
    MulDist(m, x * (2 - m * x), j * B);
    MulAssoc(m, j, B);
    MulCong(B, f * g, m * j);
    MulAssoc(m * j, g, f);
    MulDist(f, m * j * g, 0 - k * k);
    NegMul(k * k, f);
  }

  lemma SquareOf(u: int, k: int, e: int)
    requires u == k * e
    ensures u * u == k * k * (e * e)
  {
    hide *;
    MulCong(u, k * e, u);
    MulCong(u, k * e, k * e);
    MulSwap(k, e, k, e);
  }

  /** The loop counter runs through biL, biL/2, ..., 4 while the precision doubles from 4 to biL. */
  predicate Schedule(i: nat, p: nat)
  {
    || (p == 4 && i == BIL) || (p == 8 && i == BIL / 2) || (p == 16 && i == BIL / 4)
    || (p == 32 && i == BIL / 8) || (p == 64 && BIL == 64 && i == 4)
  }

  /** mm with m0 * mm == -1 modulo 2^biL, by Newton iteration. */
  method MontgInit(m0: Limb) returns (mm: Limb)
    requires m0 % 2 == 1
    ensures (m0 * mm + 1) % B == 0
  {
    hide Pow, Pow2, Wrap, BitAnd, Inverts;
    var x: Limb := m0;
    WrapParity(m0);
    BitAndFour(Wrap(m0 + 2));
    x := Wrap(x + Wrap(BitAnd(Wrap(m0 + 2), 4) * 2));
    ghost var p: nat := 4;
    var i: nat := BIL;
    while i >= 8
      invariant Schedule(i, p)
      invariant Inverts(m0, x, p)
    {
      var x' := Wrap(x * Wrap(2 - Wrap(m0 * x)));
      WrapNewton(m0 * x, x);
      NewtonStep(m0, x, p, x');
      x, i, p := x', i / 2, 2 * p;
    }
    NegInverse(m0, x);
    mm := SubWrap(0, x);
  }

  /** Wrapping subtracts a multiple of 16. */
  lemma WrapBy16(v: int) returns (j: int)
    ensures Wrap(v) == v + 16 * j
  {
    hide *;
    ModMod(v, B);
    var k := ModDiff(Wrap(v), v, B);
    var c := B / 16;
    MulCong(B, 16 * c, k);
    j := k * c;
  }

  lemma WrapParity(m: Limb)
    requires m % 2 == 1
    ensures var x := Wrap(m + Wrap(4 * ((Wrap(m + 2) / 4) % 2) * 2)); Inverts(m, x, 4)
  {
    hide Pow, Pow2, Inverts, BitAnd, Wrap;
    var s := Wrap(m + 2);
    var e := (s / 4) % 2;
    var j := WrapBy16(m + 2);
    Bit2(m + 2, s, j);
    WrapSmall(4 * e * 2);
    var x := Wrap(m + 8 * e);
    var k := WrapBy16(m + 8 * e);
    FirstInverse(m, x, k);
  }

  lemma WrapNewton(t: int, x: int)
    ensures Wrap(x * Wrap(2 - Wrap(t))) % B == (x * (2 - t)) % B
  {
    hide *;
    ModSubMod(2, t, B);
    WrapMul(2 - Wrap(t), 2 - t, x);
  }

  lemma WrapMul(a: int, b: int, x: int)
    requires a % B == b % B
    ensures Wrap(x * Wrap(a)) % B == (x * b) % B
  {
    hide *;
    ModMod(a, B);
    ModMul(a % B, b, x, B);
    assert x * (a % B) == (a % B) * x && x * b == b * x;
    ModMod(x * (a % B), B);
  }

  lemma NegInverse(m: Limb, x: Limb)
    requires Inverts(m, x, BIL)
    ensures (m * SubWrap(0, x) + 1) % B == 0
  {
    hide Pow;
    Pow2IsB();
    var y := SubWrap(0, x);
    var c := if 0 < x then 1 else 0;
    var k := (m * x - 1) / B;
    assert m * x - 1 == k * B;
    assert y == c * B - x;
    assert m * y + 1 == (m * c - k) * B by {
      MulDist(m, c * B, 0 - x);
      MulAssoc(m, c, B);
      MulDist(B, m * c, 0 - k);
    }
    DivUnique(m * y + 1, B, m * c - k, 0);
  }

  // ---------------------------------------------------------------- branch-free assignment

  /** A mask of all ones selects, a mask of zero keeps. */
  lemma MaskSelects(x: Limb, y: Limb)
    ensures BitOr(BitAnd(x, B - 1), BitAnd(y, 0)) == x
    ensures BitOr(BitAnd(x, 0), BitAnd(y, B - 1)) == y
  {
    BitAndMask(x, BIL);
    BitAndMask(y, BIL);
  }

  /** D[..n] = S[at..at+n] when cond is 1, unchanged when it is 0, by masking alone. */
  method CondAssign(n: nat, D: Mpi, S: Mpi, at: nat, cond: Limb)
    requires D != S && n <= |D.p| && at + n <= |S.p| && cond <= 1
    modifies D`p
    ensures D.p == (if cond == 1 then S.p[at..at + n] else old(D.p[..n])) + old(D.p[n..])
  {
    hide BitAnd, BitOr;
    var mask: Limb := SubWrap(0, cond);
    ghost var d := D.p;
    var i := 0;
    while i < n
      invariant 0 <= i <= n && |D.p| == |d| && D.p[i..] == d[i..]
      invariant D.p[..i] == if cond == 1 then S.p[at..at + i] else d[..i]
    {
      assert D.p[i] == D.p[i..][0] == d[i];
      MaskSelects(S.p[at + i], D.p[i]);
      ghost var q := D.p;
      D.p := D.p[i := BitOr(BitAnd(S.p[at + i], mask), BitAnd(D.p[i], B - 1 - mask))];
      assert D.p[..i + 1] == q[..i] + [D.p[i]];
      assert D.p[i + 1..] == q[i..][1..];
      i := i + 1;
    }
    assert D.p == D.p[..n] + D.p[n..];
  }

  // ---------------------------------------------------------------- multiplication

  /** The limbs of Y that a multiplication modulo an n-limb N reads. */
  function Read(p: seq<Limb>, n: nat): seq<Limb>
  {
    if |p| < n then p else p[..n]
  }

  /** T + u0*Y + u1*N is divisible by the base. */
  lemma ExactStep(t0: Limb, u0: Limb, y0: Limb, n0: Limb, mm: Limb, u1: Limb)
    requires (n0 * mm + 1) % B == 0
    requires u1 == Wrap(Wrap(t0 + Wrap(u0 * y0)) * mm)
    ensures (t0 + u0 * y0 + u1 * n0) % B == 0
  {
    hide *;
    var s := t0 + u0 * y0;
    ModAdd(t0, u0 * y0, B);
    ModSmall(t0, B);
    ModMod(s, B);
    assert Wrap(t0 + Wrap(u0 * y0)) == s % B;
    ModMul(s % B, s, mm, B);
    assert u1 == (s * mm) % B;
    var k := (n0 * mm + 1) / B;
    var j := (s * mm) / B;
    DivModAny(s * mm, B);
    DivModAny(n0 * mm + 1, B);
    UnfoldExact(s, mm, j, n0, k, u1);
    DivUnique(s + u1 * n0, B, s * k - j * n0, 0);
  }

  lemma UnfoldExact(s: int, mm: int, j: int, n0: int, k: int, u1: int)
    requires u1 == s * mm - j * B && n0 * mm == k * B - 1
    ensures s + u1 * n0 == (s * k - j * n0) * B
  {
    hide *;
    MulCong(u1, s * mm - j * B, n0);
    MulDist(n0, s * mm, 0 - j * B);
    NegMul(j * B, n0);
    MulAssoc(s, mm, n0);
    MulCong(n0 * mm, k * B - 1, s);
    MulDist(s, k * B, -1);
    MulAssoc(s, k, B);
    MulDist(B, s * k, 0 - j * n0);
    NegMul(j * n0, B);
    MulAssoc(j, B, n0);
    MulAssoc(j, n0, B);
    MulCong(B * n0, n0 * B, j);
  }

  /** Adding a row at offset i adds to the value of the window that starts there. */
  lemma WindowAdd(p: seq<Limb>, q: seq<Limb>, i: nat, a: int)
    requires i <= |p| == |q| && p[..i] == q[..i] && Val(q) == Val(p) + a * BPow(i)
    ensures Val(q[i..]) == Val(p[i..]) + a
  {
    hide *;
    ValSplit(p, i);
    ValSplit(q, i);
    WindowCancel(Val(p[i..]), Val(q[i..]), a, BPow(i), Val(p[..i]));
  }

  lemma WindowCancel(x: int, y: int, a: int, w: int, low: int)
    requires w > 0 && low + w * y == low + w * x + a * w
    ensures y == x + a
  {
    MulDist(w, x, a);
    MulCancelEq(y, x + a, w);
  }

  lemma MulCancelEq(a: int, b: int, c: int)
    requires a * c == b * c && c > 0
    ensures a == b
  {
    if a < b { MulStrict(a, b, c); }
    if b < a { MulStrict(b, a, c); }
  }

  /** A row added at offset i fits when the window's result does. */
  lemma WindowFits(p: seq<Limb>, i: nat, a: int)
    requires i <= |p| && 0 <= a && Val(p[i..]) + a < BPow(|p| - i)
    ensures Val(p) + a * BPow(i) < BPow(|p|)
  {
    hide *;
    ValSplit(p, i);
    ValBound(p[..i]);
    BPowAdd(i, |p| - i);
    BelowProduct(Val(p[..i]), Val(p[i..]), a, BPow(i), BPow(|p| - i));
  }

  lemma BelowProduct(lo: int, hi: int, a: int, w: int, x: int)
    requires lo < w && 0 < w && hi + a < x
    ensures lo + w * hi + a * w < w * x
  {
    hide *;
    MulDist(w, hi, a);
    MulStrict(hi + a, x, w);
  }

  /** (t + u0*y + u1*n) stays below 2*n*B. */
  lemma RowsBound(t: int, u0: Limb, y: int, u1: Limb, n: int, len: nat, room: nat)
    requires 0 <= t < 2 * n && 0 <= y <= n < BPow(len) && room >= len + 2
    ensures 0 <= u0 * y && 0 <= u1 * n
    ensures t + u0 * y + u1 * n < 2 * n * B
    ensures 2 * n * B < BPow(room)
  {
    hide *;
    MulMono(0, u0, y);
    MulMono(0, u1, n);
    RowMax(u0, y, n);
    RowMax(u1, n, n);
    RoomBound(n, len, room);
  }

  lemma RowMax(u: Limb, y: int, n: int)
    requires 0 <= y <= n
    ensures u * y <= n * B - n
  {
    MulMono(u, B - 1, y);
    MulMono(y, n, B - 1);
    MulDist(n, B, -1);
  }

  lemma RoomBound(n: int, len: nat, room: nat)
    requires 0 <= n < BPow(len) && room >= len + 2
    ensures 2 * n * B < BPow(room)
  {
    hide *;
    BPowSucc(len);
    BPowSucc(len + 1);
    BPowMono(len + 2, room);
    MulStrict(n, BPow(len), B);
    MulMono(2, B, BPow(len + 1));
  }

  /** One iteration: T = (T + u0*Y + u1*N) / B, with the window moved up by one limb. */
  method MontStep(T: Mpi, i: nat, u0: Limb, Y: Mpi, m: nat, N: Mpi, mm: Limb)
    requires T != Y && T != N
    requires |N.p| >= 1 && 1 <= m <= |Y.p| && m <= |N.p| && i + |N.p| + 3 <= |T.p|
    requires Val(Y.p[..m]) <= Val(N.p) && (N.p[0] * mm + 1) % B == 0
    requires Val(T.p[i..]) < 2 * Val(N.p)
    modifies T`p
    ensures |T.p| == old(|T.p|)
    ensures exists u1: Limb :: Val(T.p[i + 1..]) * B == old(Val(T.p[i..])) + u0 * Val(Y.p[..m]) + u1 * Val(N.p)
    ensures Val(T.p[i + 1..]) < 2 * Val(N.p)
  {
    hide Val, Pow, BPow, Wrap;
    var n := |N.p|;
    ghost var t, y, v := Val(T.p[i..]), Val(Y.p[..m]), Val(N.p);
    var u1 := Wrap(Wrap(T.p[i] + Wrap(u0 * Y.p[0])) * mm);
    ghost var t0 := T.p[i];
    ghost var p0 := T.p;
    ValBound(N.p);
    RowsBound(t, u0, y, u1, v, n, |T.p| - i);
    WindowFits(T.p, i, u0 * y);
    MulHlp(m, Y, T, i, u0);
    ghost var p1 := T.p;
    WindowAdd(p0, p1, i, u0 * y);
    assert N.p[..n] == N.p;
    WindowFits(T.p, i, u1 * v);
    MulHlp(n, N, T, i, u1);
    WindowAdd(p1, T.p, i, u1 * v);
    ghost var s := Val(T.p[i..]);
    LowLimb(p0[i..], Y.p[..m], N.p, u0, u1, s);
    ExactStep(t0, u0, Y.p[0], N.p[0], mm, u1);
    ValTail(T.p, i);
    ExactLow(T.p[i], Val(T.p[i + 1..]), s);
    MulCancelLess(Val(T.p[i + 1..]), 2 * v, B);
    ghost var q := T.p;
    TopZero(q[i + 1..], v, n);
    assert q[i + n + 2] == q[i + 1..][n + 1];
    T.p := T.p[i := u0];
    T.p := T.p[i + n + 2 := 0];
    assert T.p[i + 1..] == q[i + 1..];
  }

  /** Everything but the lowest limbs contributes a multiple of B. */
  lemma LowLimb(t: seq<Limb>, y: seq<Limb>, n: seq<Limb>, u0: Limb, u1: Limb, s: int)
    requires |t| > 0 && |y| > 0 && |n| > 0 && s == Val(t) + u0 * Val(y) + u1 * Val(n)
    ensures s % B == (t[0] + u0 * y[0] + u1 * n[0]) % B
  {
    hide *;
    var a := AboveHead(t);
    var b := AboveHead(y);
    var c := AboveHead(n);
    LowSum(t[0], a, u0, y[0], b, u1, n[0], c, Val(t), Val(y), Val(n));
  }

  lemma AboveHead(p: seq<Limb>) returns (h: int)
    requires |p| > 0
    ensures Val(p) == p[0] + B * h
  {
    hide *;
    ValHead(p);
    h := Val(p[1..]);
  }

  lemma LowSum(t0: int, a: int, u0: int, y0: int, b: int, u1: int, n0: int, c: int, t: int, y: int, n: int)
    requires t == t0 + B * a && y == y0 + B * b && n == n0 + B * c
    ensures (t + u0 * y + u1 * n) % B == (t0 + u0 * y0 + u1 * n0) % B
  {
    hide *;
    LowRow(u0, y0, b);
    LowRow(u1, n0, c);
    MulCong(y, y0 + B * b, u0);
    MulCong(n, n0 + B * c, u1);
    var k := a + u0 * b + u1 * c;
    assert k * B == B * a + u0 * b * B + u1 * c * B by {
      MulDist(B, a + u0 * b, u1 * c);
      MulDist(B, a, u0 * b);
    }
    ModShift(t + u0 * y + u1 * n, t0 + u0 * y0 + u1 * n0, k, B);
  }

  lemma LowRow(u: int, lo: int, hi: int)
    ensures u * (lo + B * hi) == u * lo + (u * hi) * B
  {
    MulDist(u, lo, B * hi);
    MulAssoc(u, hi, B);
  }

  lemma ExactLow(lo: Limb, hi: int, s: int)
    requires s == lo + B * hi && s % B == 0
    ensures lo == 0 && hi * B == s
  {
    DivUnique(s, B, hi, lo);
  }

  lemma TopZero(p: seq<Limb>, v: int, n: nat)
    requires Val(p) < 2 * v && 0 <= v < BPow(n) && n + 1 < |p|
    ensures p[n + 1] == 0
  {
    hide *;
    BPowSucc(n);
    MulMono(2, B, BPow(n));
    ValSmall(p, n + 1);
  }

  lemma PositiveModulus(p: seq<Limb>, mm: Limb)
    requires |p| >= 1 && (p[0] * mm + 1) % B == 0
    ensures Val(p) > 0
  {
    if Val(p) == 0 {
      ValZeroInv(p);
      MulCong(p[0], 0, mm);
      ModSmall(1, B);
    }
  }

  lemma MontStart(t: int, al: int, y: int, v: int)
    requires t == 0 && al == 0
    ensures t * BPow(0) == al * y + 0 * v
  {
    hide *;
    MulCong(t, 0, BPow(0));
    MulCong(al, 0, y);
  }

  lemma MontAccumulate(t: int, t': int, i: nat, a: int, y: int, u1: int, v: int, al: int, k: int)
    requires t * BPow(i) == al * y + k * v && t' * B == t + a * y + u1 * v
    ensures t' * BPow(i + 1) == (al + a * BPow(i)) * y + (k + u1 * BPow(i)) * v
  {
    hide *;
    var w := BPow(i);
    BPowSucc(i);
    MulCong(BPow(i + 1), B * w, t');
    MulAssoc(t', B, w);
    MulCong(t' * B, t + a * y + u1 * v, w);
    MulDist(w, t + a * y, u1 * v);
    MulDist(w, t, a * y);
    MulDist(y, al, a * w);
    MulDist(v, k, u1 * w);
    assert a * y * w == a * w * y;
    assert u1 * v * w == u1 * w * v;
  }

  lemma MontResult(r: int, t: int, v: int, w: int, p: int, k: int)
    requires v > 0 && (r == t || r == t - v) && t * w == p + k * v
    ensures (r * w) % v == p % v
  {
    hide *;
    if r == t {
      ModShift(r * w, p, k, v);
    } else {
      MulCong(r, t - v, w);
      MulDist(w, t, 0 - v);
      NegMul(v, w);
      MulDist(v, k, 0 - w);
      NegMul(w, v);
      ModShift(r * w, p, k - w, v);
    }
  }

  /** The final subtraction of N, by computing it always and keeping it only if it did not borrow. */
  method MontFinish(A: Mpi, N: Mpi, T: Mpi)
    requires A != T && N != T && A != N
    requires |N.p| >= 1 && |A.p| >= |N.p| && |T.p| >= 2 * |N.p| + 2
    requires Val(T.p[|N.p|..]) < 2 * Val(N.p)
    modifies A`p, T`p
    ensures |A.p| == old(|A.p|) && A.p[|N.p|..] == old(A.p[|N.p|..]) && |T.p| == old(|T.p|)
    ensures Val(A.p[..|N.p|]) < Val(N.p)
    ensures Val(A.p[..|N.p|]) == old(Val(T.p[|N.p|..]))
         || Val(A.p[..|N.p|]) == old(Val(T.p[|N.p|..])) - Val(N.p)
  {
    hide Val, Pow, BPow;
    var n := |N.p|;
    ghost var t, v, lo := Val(T.p[n..]), Val(N.p), T.p[n..2 * n];
    ghost var hi := A.p[n..];
    ValBound(N.p);
    SplitWindow(T.p, n, v);
    var top := T.p[2 * n];
    A.p := T.p[n..2 * n] + A.p[n..];
    assert A.p[..n] == lo && A.p[n..] == hi;
    T.p := T.p[2 * n := top + 1];
    assert T.p[n..n + n] == lo;
    assert N.p[..n] == N.p;
    var c := SubHlp(n, T, n, T, n, N);
    assert T.p[n + n..][0] == T.p[2 * n] == top + 1;
    T.p := T.p[2 * n := T.p[2 * n] - c];
    ghost var d := T.p[n..n + n];
    ValBound(d);
    ValBound(lo);
    WhichCase(Val(lo), top, c, v, BPow(n), Val(d), t);
    CondAssign(n, A, T, n, T.p[2 * n]);
    assert A.p[..n] == if T.p[2 * n] == 1 then d else lo;
    assert A.p[n..] == hi;
  }

  /** The window is its n low limbs and a top limb of 0 or 1. */
  lemma SplitWindow(p: seq<Limb>, n: nat, v: int)
    requires 2 * n + 2 <= |p| && Val(p[n..]) < 2 * v && v < BPow(n)
    ensures Val(p[n..]) == Val(p[n..2 * n]) + p[2 * n] * BPow(n) && p[2 * n] <= 1
  {
    hide *;
    var q := p[n..];
    BPowSucc(n);
    MulMono(2, B, BPow(n));
    ValSmall(q, n + 1);
    ValPush(q, n);
    assert q[..n] == p[n..2 * n];
    if q[n] > 1 {
      MulMono(2, q[n], BPow(n));
    }
  }

  /** The borrow tells exactly whether the accumulator was below N. */
  lemma WhichCase(lo: int, top: int, c: int, v: int, w: int, d: int, t: int)
    requires 0 <= lo < w && 0 <= v < w && 0 <= d < w && 0 <= top <= 1 && 0 <= c <= 1
    requires t == lo + top * w && t < 2 * v && d == lo - v + c * w
    ensures top + 1 - c == if t < v then 0 else 1
    ensures if t < v then lo == t else d == t - v
  {
    assert top * w == if top == 1 then w else 0;
    assert c * w == if c == 1 then w else 0;
  }

  /** A = A * Y * R^-1 mod N with R = B^n; A and Y may be the same, T is scratch. */
  method Montmul(A: Mpi, Y: Mpi, N: Mpi, mm: Limb, T: Mpi)
    requires A != T && Y != T && N != T && A != N
    requires |N.p| >= 1 && |A.p| >= |N.p| && |Y.p| >= 1 && |T.p| >= 2 * (|N.p| + 1)
    requires Val(Read(Y.p, |N.p|)) <= Val(N.p) && (N.p[0] * mm + 1) % B == 0
    modifies A`p, T`p
    ensures |A.p| == old(|A.p|) && A.p[|N.p|..] == old(A.p[|N.p|..]) && |T.p| == old(|T.p|)
    ensures Val(A.p[..|N.p|]) < Val(N.p)
    ensures (Val(A.p[..|N.p|]) * BPow(|N.p|)) % Val(N.p)
         == (old(Val(A.p[..|N.p|])) * old(Val(Read(Y.p, |N.p|)))) % Val(N.p)
  {
    hide Val, Pow, BPow, Wrap;
    var n := |N.p|;
    var m := if |Y.p| < n then |Y.p| else n;
    assert Read(Y.p, n) == Y.p[..m];
    ghost var a, y, v := A.p, Val(Y.p[..m]), Val(N.p);
    PositiveModulus(N.p, mm);
    T.p := Zeros(|T.p|);
    ValAllZero(T.p);
    assert T.p[0..] == T.p && a[..0] == [];
    ghost var k := 0;
    ValAllZero(a[..0]);
    MontStart(Val(T.p[0..]), Val(a[..0]), y, v);
    var i := 0;
    while i < n
      invariant 0 <= i <= n && |T.p| == old(|T.p|) && A.p == a
      invariant Val(T.p[i..]) < 2 * v
      invariant Val(T.p[i..]) * BPow(i) == Val(a[..i]) * y + k * v
    {
      ghost var t := Val(T.p[i..]);
      MontStep(T, i, A.p[i], Y, m, N, mm);
      ghost var u1: Limb :| Val(T.p[i + 1..]) * B == t + A.p[i] * y + u1 * v;
      ValPush(a, i);
      MontAccumulate(t, Val(T.p[i + 1..]), i, a[i], y, u1, v, Val(a[..i]), k);
      k := k + u1 * BPow(i);
      i := i + 1;
    }
    ghost var t := Val(T.p[n..]);
    MontFinish(A, N, T);
    MontResult(Val(A.p[..n]), t, v, BPow(n), Val(a[..n]) * y, k);
  }
}
