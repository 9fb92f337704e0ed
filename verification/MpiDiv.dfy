/** Division: the two-by-one limb division, Knuth's Algorithm D, and reduction. */
module MpiDiv {
  import opened Arith
  import opened Limbs
  import opened Mpis
  import opened MpiBits

  // ---------------------------------------------------------------- two limbs by one

  /** q and r are quotient and remainder of u1*B + u0 by d. */
  predicate IsDivision(u1: int, u0: int, d: int, q: int, r: int)
  {
    q * d + r == u1 * B + u0 && 0 <= r < d
  }

  /** Quotients and remainders are unique, so all forms of the division agree. */
  lemma DivisionUnique(u1: int, u0: int, d: int, q: int, r: int, q': int, r': int)
    requires IsDivision(u1, u0, d, q, r) && IsDivision(u1, u0, d, q', r')
    ensures q == q' && r == r'
  {
    DivUnique(u1 * B + u0, d, q, r);
    DivUnique(u1 * B + u0, d, q', r');
  }

  /** The quotient of a two-limb number below d*B fits one limb. */
  lemma QuotientFits(u1: int, u0: int, d: int, q: int, r: int)
    requires IsDivision(u1, u0, d, q, r) && 0 <= u1 < d && 0 <= u0 < B
    ensures 0 <= q < B
  {
    MulStrict(u1, d, B);
    if q >= B {
      MulMono(B, q, d);
    }
    if q < 0 {
      MulMono(0, u1, B);
      MulMono(q, -1, d);
    }
  }

  /** The form that divides a double-width integer. */
  method IntDivIntWide(u1: Limb, u0: Limb, d: Limb) returns (q: Limb, r: Limb)
    ensures d == 0 || u1 >= d ==> q == B - 1 && r == B - 1
    ensures u1 < d ==> IsDivision(u1, u0, d, q, r)
  {
    if d == 0 || u1 >= d {
      return B - 1, B - 1;
    }
    MulMono(0, u1, B);
    var dividend := u1 * B + u0;
    DivMod(dividend, d);
    var quotient := dividend / d;
    QuotientFits(u1, u0, d, quotient, dividend % d);
    if quotient > B - 1 {
      quotient := B - 1;
    }
    MulDist(d, quotient, 0);
    q, r := quotient, dividend - quotient * d;
  }

  /** Arithmetic on mbedtls_mpi_uint wraps. */
  function Wrap(x: int): (z: Limb)
    ensures z == x % B
  {
    DivMod(x % B, B);
    x % B
  }

  lemma WrapSmall(x: int)
    requires 0 <= x < B
    ensures Wrap(x) == x
  {
    ModSmall(x, B);
  }

  /** d is a normalised divisor with halves d1 and d0. */
  predicate Normalised(d: int, d1: int, d0: int)
  {
    d == d1 * H + d0 && 0 <= d0 < H && H <= 2 * d1 < 2 * H
  }

  /** One half-limb digit of (u*H + m) / d: an estimate from d's upper half, corrected at most twice. */
  method HalfDigit(u: Limb, m: nat, d: Limb, d1: nat, d0: nat) returns (q: Limb, rest: Limb)
    requires m < H && u < d && Normalised(d, d1, d0)
    ensures q < H && rest < d && q * d + rest == u * H + m
  {
    hide Wrap;
    ghost var x := u * H + m;
    FirstEstimate(u, m, d, d1, d0);
    q := u / d1;
    var r := u - q * d1;
    while q >= H || Wrap(q * d0) > Wrap(H * r + m)
      invariant 0 <= q <= H + 1 && 0 <= r < H && r == u - q * d1
      invariant (q + 1) * d > x
      decreases q
    {
      NoWrap(q, d0, r, m);
      EstimateTooLarge(u, m, d, d1, d0, q, r);
      q := q - 1;
      r := r + d1;
      if r >= H {
        break;
      }
    }
    if r < H {
      NoWrap(q, d0, r, m);
    }
    EstimateDone(u, m, d, d1, d0, q, r);
    rest := Wrap(Wrap(u * H) + Wrap(m - Wrap(q * d)));
    RestValue(u * H, m, q * d, d);
  }

  lemma FirstEstimate(u: Limb, m: nat, d: Limb, d1: nat, d0: nat)
    requires m < H && u < d && Normalised(d, d1, d0)
    ensures 0 <= u / d1 <= H + 1 < B
    ensures 0 <= u - (u / d1) * d1 < H
    ensures (u / d1 + 1) * d > u * H + m
  {
    HalfSquare();
    MulMono(2, H, H);
    DivMod(u, d1);
    var q := u / d1;
    if q >= H + 2 {
      MulMono(H + 2, q, d1);
      MulDist(d1, H, 2);
    }
    MulDist(d1, q, 1);
    assert (q + 1) * d1 >= u + 1;
    MulMono(u + 1, (q + 1) * d1, H);
    MulDist(H, u, 1);
    MulAssoc(q + 1, d1, H);
    MulDist(q + 1, d1 * H, d0);
    MulMono(0, d0, q + 1);
    MulCong(d, d1 * H + d0, q + 1);
  }

  lemma NoWrap(q: int, d0: int, r: int, m: int)
    requires 0 <= q <= H + 1 && 0 <= d0 < H && 0 <= r < H && 0 <= m < H
    ensures Wrap(q * d0) == q * d0 && Wrap(H * r + m) == H * r + m
  {
    hide *;
    HalfSquare();
    MulMono(q, H + 1, d0);
    MulMono(d0, H - 1, H + 1);
    MulDist(H + 1, H, -1);
    MulMono(0, q, d0);
    WrapSmall(q * d0);
    MulMono(r, H - 1, H);
    MulDist(H, H, -1);
    MulMono(0, r, H);
    WrapSmall(H * r + m);
  }

  /** The correction test compares q*d with the dividend. */
  lemma TestMeaning(u: int, m: int, d: int, d1: int, d0: int, q: int, r: int)
    requires d == d1 * H + d0 && r == u - q * d1
    ensures q * d0 > H * r + m <==> q * d > u * H + m
  {
    MulCong(d, d1 * H + d0, q);
    MulDist(q, d1 * H, d0);
    MulAssoc(q, d1, H);
    MulCong(r, u - q * d1, H);
    MulDist(H, u, 0 - q * d1);
    MulDist(H, 0, q * d1);
    assert (0 - q * d1) * H == 0 - q * d1 * H;
  }

  lemma EstimateTooLarge(u: int, m: int, d: int, d1: int, d0: int, q: int, r: int)
    requires 0 <= m < H && 0 <= u < d && 0 <= r && d == d1 * H + d0 && r == u - q * d1
    requires q >= H || q * d0 > H * r + m
    ensures q > 0 && q * d > u * H + m
    ensures r + d1 == u - (q - 1) * d1
  {
    MulDist(d1, q, -1);
    MulMono(0, r, H);
    if q >= H {
      MulMono(H, q, d);
      MulStrict(u, d, H);
    } else {
      TestMeaning(u, m, d, d1, d0, q, r);
      MulMono(0, u, H);
      if q <= 0 { MulMono(q, 0, d); }
    }
  }

  lemma EstimateDone(u: int, m: int, d: int, d1: int, d0: int, q: int, r: int)
    requires 0 <= m < H && 0 <= u < d && Normalised(d, d1, d0) && 0 <= q && 0 <= r == u - q * d1
    requires (q + 1) * d > u * H + m
    requires r >= H || (q < H && q * d0 <= H * r + m)
    ensures q < H && q * d <= u * H + m < q * d + d
  {
    TestMeaning(u, m, d, d1, d0, q, r);
    MulDist(d, q, 1);
    if r >= H {
      if q >= H {
        MulMono(H, q, d1);
      }
      MulMono(q, H, d0);
      MulMono(d0, H, H);
      MulMono(H, r, H);
    }
  }

  lemma RestValue(uh: int, m: int, qd: int, d: Limb)
    requires qd <= uh + m < qd + d
    ensures Wrap(Wrap(uh) + Wrap(m - Wrap(qd))) == uh + m - qd
  {
    ModSubMod(m, qd, B);
    ModAdd(uh, m - qd, B);
    ModSmall(uh + m - qd, B);
  }

  /** The form that only has half-limb multiplications. */
  method IntDivIntHalf(u1: Limb, u0: Limb, d: Limb) returns (q: Limb, r: Limb)
    ensures d == 0 || u1 >= d ==> q == B - 1 && r == B - 1
    ensures u1 < d ==> IsDivision(u1, u0, d, q, r)
  {
    hide *;
    if d == 0 || u1 >= d {
      return B - 1, B - 1;
    }
    var s := Clz(d);
    var dn, n1, n0 := Normalise(u1, u0, d, s);
    var d0, d1 := Halves(dn);
    UpperHalf(dn, d1, d0, s);
    var lsw, msw := Halves(n0);
    var q1, rAX := HalfDigit(n1, msw, dn, d1, d0);
    var q0, rest := HalfDigit(rAX, lsw, dn, d1, d0);
    TwoDigits(n1, msw, lsw, dn, q1, rAX, q0, rest);
    q := q1 * H + q0;
    r := Unscale(u1, u0, d, q, rest, s);
  }

  method Normalise(u1: Limb, u0: Limb, d: Limb, s: nat) returns (dn: Limb, n1: Limb, n0: Limb)
    requires u1 < d && s < BIL && Pow2(BIL - 1 - s) <= d < Pow2(BIL - s)
    ensures dn == d * Pow2(s) && Pow2(BIL - 1) <= dn && n1 < dn
    ensures n1 * B + n0 == (u1 * B + u0) * Pow2(s)
  {
    hide *;
    var e := Pow2(s);
    Pow2Add(BIL - s, s);
    Pow2Add(BIL - 1 - s, s);
    Pow2IsB();
    MulStrict(d, Pow2(BIL - s), e);
    MulMono(Pow2(BIL - 1 - s), d, e);
    MulStrict(u1, d, e);
    MulMono(0, u1, e);
    dn := d * e;
    var out: Limb := 0;
    n0 := u0;
    if s > 0 {
      out, n0 := LimbUp(u0, s, 0);
    } else {
      Pow2One();
    }
    BitOrDisjoint(u1, out, s);
    n1 := BitOr(u1 * e, out);
    MulDist(e, u1 * B, u0);
    MulDist(B, u1 * e, out);
    MulAssoc(u1, e, B);
    MulAssoc(u1, B, e);
    MulCong(e * B, B * e, u1);
  }

  lemma UpperHalf(d: Limb, d1: nat, d0: nat, s: nat)
    requires d == d0 + d1 * H && d0 < H && d1 < H && Pow2(BIL - 1) <= d
    ensures Normalised(d, d1, d0)
  {
    assert B == 2 * Pow2(BIL - 1);
    HalfSquare();
    assert H <= 2 * d1 by {
      if 2 * d1 <= H - 2 {
        MulMono(2 * d1, H - 2, H);
        MulDist(H, H, -2);
        MulAssoc(2, d1, H);
      }
    }
  }

  lemma TwoDigits(n1: int, msw: int, lsw: int, d: int, q1: int, x: int, q0: int, rest: int)
    requires q1 * d + x == n1 * H + msw && q0 * d + rest == x * H + lsw
    requires 0 <= q1 < H && 0 <= q0 < H
    ensures 0 <= q1 * H + q0 < B
    ensures (q1 * H + q0) * d + rest == n1 * B + (lsw + msw * H)
  {
    hide *;
    HalfSquare();
    MulMono(q1, H - 1, H);
    MulDist(H, H, -1);
    MulMono(0, q1, H);
    TwoDigitsSum(n1, msw, lsw, d, q1, x, q0, rest, H);
    MulCong(H * H, B, n1);
  }

  lemma TwoDigitsSum(n1: int, msw: int, lsw: int, d: int, q1: int, x: int, q0: int, rest: int, h: int)
    requires q1 * d + x == n1 * h + msw && q0 * d + rest == x * h + lsw
    ensures (q1 * h + q0) * d + rest == n1 * (h * h) + (lsw + msw * h)
  {
    hide *;
    MulDist(d, q1 * h, q0);
    MulAssoc(q1, h, d);
    MulAssoc(q1, d, h);
    MulCong(q1 * d + x, n1 * h + msw, h);
    MulDist(h, q1 * d, x);
    MulDist(h, n1 * h, msw);
    MulAssoc(n1, h, h);
  }

  method Unscale(u1: Limb, u0: Limb, d: Limb, q: Limb, rest: Limb, s: nat) returns (r: Limb)
    requires rest < d * Pow2(s)
    requires q * (d * Pow2(s)) + rest == (u1 * B + u0) * Pow2(s)
    ensures IsDivision(u1, u0, d, q, r)
  {
    hide Pow2;
    var e := Pow2(s);
    ghost var t := u1 * B + u0 - q * d;
    MulAssoc(q, d, e);
    MulDist(e, u1 * B + u0, 0 - q * d);
    assert (0 - q * d) * e == 0 - q * d * e;
    assert rest == t * e;
    DivUnique(rest, e, t, 0);
    if t < 0 { MulMono(t, -1, e); }
    MulCancelLess(t, d, e);
    r := rest / e;
  }

  // ---------------------------------------------------------------- Algorithm D

  /** Division that rounds towards zero, as C's does. */
  function TruncDiv(a: int, b: int): int
    requires b != 0
  {
    var q := AbsInt(a) / AbsInt(b);
    if (a < 0) == (b < 0) then q else 0 - q
  }

  function TruncRem(a: int, b: int): int
    requires b != 0
  {
    var r := AbsInt(a) % AbsInt(b);
    if a < 0 then 0 - r else r
  }

  /** What the pair means: a = q*b + r with |r| < |b| and r zero or of a's sign. */
  lemma TruncDivMeaning(a: int, b: int)
    requires b != 0
    ensures a == TruncDiv(a, b) * b + TruncRem(a, b)
    ensures AbsInt(TruncRem(a, b)) < AbsInt(b)
    ensures TruncRem(a, b) == 0 || (TruncRem(a, b) < 0 <==> a < 0)
  {
    DivMod(AbsInt(a), AbsInt(b));
    var q := AbsInt(a) / AbsInt(b);
    assert (0 - q) * b == q * (0 - b) == 0 - q * b;
  }

  /** The three leading limbs of a number below B^(i+1), scaled so that i == 1 is no exception. */
  function Top3(p: seq<Limb>, i: nat): int
    requires 1 <= i < |p|
  {
    (if i < 2 then 0 else p[i - 2]) + B * (p[i - 1] + B * p[i])
  }

  function Top2(p: seq<Limb>, t: nat): int
    requires t < |p|
  {
    (if t < 1 then 0 else p[t - 1]) + B * p[t]
  }

  lemma Top2Scaled(p: seq<Limb>, t: nat) returns (low: int)
    requires t < |p| && Val(p) < BPow(t + 1)
    ensures Val(p) * B == Top2(p, t) * BPow(t) + low && 0 <= low < BPow(t)
  {
    hide Val, Pow;
    ValSmall(p, t + 1);
    ValPush(p, t);
    if t == 0 {
      assert p[..t] == [] && Val([]) == 0 by { ValAllZero([]); }
      low := 0;
    } else {
      var w := BPow(t - 1);
      ValPush(p, t - 1);
      ValBound(p[..t - 1]);
      BPowSucc(t - 1);
      low := Val(p[..t - 1]) * B;
      MulStrict(Val(p[..t - 1]), w, B);
      MulMono(0, Val(p[..t - 1]), B);
      MulCong(BPow(t), B * w, p[t]);
      TwoDigitsUp(Val(p), Val(p[..t - 1]), p[t - 1], p[t], w, B);
    }
  }

  lemma TwoDigitsUp(v: int, low: int, x: int, y: int, w: int, b: int)
    requires v == low + x * w + y * (b * w)
    ensures v * b == (x + b * y) * (b * w) + low * b
  {
    hide *;
    MulCong(v, low + x * w + y * (b * w), b);
    MulDist(b, low + x * w, y * (b * w));
    MulDist(b, low, x * w);
    MulDist(b * w, x, b * y);
    MulAssoc(x, w, b);
    MulAssoc(y, b * w, b);
    MulAssoc(y, b, b * w);
  }

  lemma Top3Scaled(p: seq<Limb>, i: nat) returns (low: int)
    requires 1 <= i < |p| && Val(p) < BPow(i + 1)
    ensures Val(p) * B == Top3(p, i) * BPow(i - 1) + low && 0 <= low < BPow(i - 1)
  {
    hide Val, Pow;
    ValSmall(p, i + 1);
    ValPush(p, i);
    ValPush(p, i - 1);
    var q := p[..i - 1];
    var w := BPow(i - 1);
    BPowSucc(i - 1);
    var mid := p[i - 1] + B * p[i];
    assert Val(p) == Val(q) + mid * w by {
      MulDist(w, p[i - 1], B * p[i]);
      MulAssoc(p[i], B, w);
      MulCong(B * p[i], p[i] * B, w);
      MulCong(BPow(i), B * w, p[i]);
    }
    low := TopLow(p, i);
    MulCong(Val(p), Val(q) + mid * w, B);
    MulDist(B, Val(q), mid * w);
    MulDist(w, if i < 2 then 0 else p[i - 2], B * mid);
    MulAssoc(mid, w, B);
    MulAssoc(B, mid, w);
    MulAssoc(mid, B, w);
    MulCong(w * B, B * w, mid);
  }

  lemma TopLow(p: seq<Limb>, i: nat) returns (low: int)
    requires 1 <= i < |p|
    ensures Val(p[..i - 1]) * B == (if i < 2 then 0 else p[i - 2]) * BPow(i - 1) + low
    ensures 0 <= low < BPow(i - 1)
  {
    hide Val, Pow;
    if i == 1 {
      assert p[..i - 1] == [] && Val([]) == 0 by { ValAllZero([]); }
      low := 0;
    } else {
      var w := BPow(i - 2);
      ValPush(p, i - 2);
      ValBound(p[..i - 2]);
      BPowSucc(i - 2);
      low := Val(p[..i - 2]) * B;
      MulStrict(Val(p[..i - 2]), w, B);
      MulMono(0, Val(p[..i - 2]), B);
      MulCong(Val(p[..i - 1]), Val(p[..i - 2]) + p[i - 2] * w, B);
      MulDist(B, Val(p[..i - 2]), p[i - 2] * w);
      MulAssoc(p[i - 2], w, B);
      MulCong(w * B, BPow(i - 1), p[i - 2]);
    }
  }

  /** dd = Val(d) * B^(i-t-1) has the same leading limbs as d. */
  lemma DivisorScaled(d: seq<Limb>, t: nat, i: nat, dd: int) returns (low: int)
    requires t < |d| && t < i && Val(d) < BPow(t + 1) && dd == Val(d) * BPow(i - t - 1)
    ensures dd * B == Top2(d, t) * BPow(i - 1) + low && 0 <= low < BPow(i - 1)
  {
    hide *;
    var l := Top2Scaled(d, t);
    var w := BPow(i - t - 1);
    BPowAdd(t, i - t - 1);
    low := l * w;
    MulCong(dd, Val(d) * w, B);
    MulCong(Val(d) * B, Top2(d, t) * BPow(t) + l, w);
    MulDist(w, Top2(d, t) * BPow(t), l);
    MulAssoc(Top2(d, t), BPow(t), w);
    MulCong(BPow(t) * w, BPow(i - 1), Top2(d, t));
    assert Val(d) * w * B == Val(d) * B * w;
    MulStrict(l, BPow(t), w);
    MulMono(0, l, w);
  }

  /** A failed 3-by-2 test means the digit is too large. */
  lemma TestRefutes(x: int, dd: int, x3: int, y2: int, w: int, xl: int, dl: int, z: int)
    requires x * B == x3 * w + xl && 0 <= xl < w && dd * B == y2 * w + dl && 0 <= dl
    requires 0 <= z && y2 * z > x3
    ensures z * dd > x
  {
    hide *;
    MulMono(x3 + 1, y2 * z, w);
    MulDist(w, x3, 1);
    MulCong(dd * B, y2 * w + dl, z);
    MulDist(z, y2 * w, dl);
    MulMono(0, dl, z);
    MulAssoc(z, y2, w);
    MulCong(z * y2, y2 * z, w);
    MulAssoc(z, dd, B);
    MulCancelLess(x, z * dd, B);
  }

  /** A passed 3-by-2 test means the digit is at most one too large. */
  lemma TestBounds(x: int, dd: int, x3: int, y2: int, w: int, xl: int, dl: int, z: int)
    requires x * B == x3 * w + xl && 0 <= xl && dd * B == y2 * w + dl && 0 <= dl < w
    requires 0 <= z < B && y2 * z <= x3 && y2 >= B
    ensures z * dd < x + dd
  {
    hide *;
    MulMono(y2 * z, x3, w);
    MulCong(dd * B, y2 * w + dl, z);
    MulDist(z, y2 * w, dl);
    MulAssoc(z, y2, w);
    MulCong(z * y2, y2 * z, w);
    MulAssoc(z, dd, B);
    MulMono(dl, w, z);
    MulStrict(z, B, w);
    MulMono(B, y2, w);
    MulDist(B, x, dd);
    MulCancelLess(z * dd, x + dd, B);
  }

  /** The first estimate, from the two leading limbs and the divisor's top limb, is never too small. */
  lemma EstimateNotSmall(x: seq<Limb>, d: seq<Limb>, i: nat, t: nat, dd: int, z: int, r: int)
    requires t < |d| && t < i < |x| && Val(x) < BPow(i + 1) && dd == Val(d) * BPow(i - t - 1)
    requires 0 <= z && IsDivision(x[i], x[i - 1], d[t], z, r)
    ensures (z + 1) * dd > Val(x)
  {
    hide Val, Pow, BPow, Top3;
    var w, x2, y := BPow(i - 1), x[i] * B + x[i - 1], d[t];
    MulDist(y, z, 1);
    assert (z + 1) * y >= x2 + 1;
    ValTop(d, t);
    BPowAdd(t, i - t - 1);
    MulMono(y * BPow(t), Val(d), BPow(i - t - 1));
    MulAssoc(y, BPow(t), BPow(i - t - 1));
    MulCong(BPow(t) * BPow(i - t - 1), w, y);
    assert dd >= y * w;
    MulMono(y * w, dd, z + 1);
    MulAssoc(z + 1, y, w);
    MulMono(x2 + 1, (z + 1) * y, w);
    MulDist(w, x2, 1);
    LeadingTwo(x, i);
  }

  lemma LeadingTwo(x: seq<Limb>, i: nat)
    requires 1 <= i < |x| && Val(x) < BPow(i + 1)
    ensures Val(x) < (x[i] * B + x[i - 1]) * BPow(i - 1) + BPow(i - 1)
  {
    hide Val, Pow;
    var w := BPow(i - 1);
    ValSmall(x, i + 1);
    ValPush(x, i);
    ValPush(x, i - 1);
    ValBound(x[..i - 1]);
    BPowSucc(i - 1);
    MulDist(w, x[i] * B, x[i - 1]);
    MulAssoc(x[i], B, w);
    MulCong(BPow(i), B * w, x[i]);
  }

  /** X is below the divisor times B^(i-t), so its limbs above i are zero. */
  lemma DividendSize(x: seq<Limb>, d: seq<Limb>, t: nat, i: nat)
    requires t <= i < |x| && t < |d| && Val(d) < BPow(t + 1) && Val(x) < Val(d) * BPow(i - t)
    ensures Val(x) < BPow(i + 1)
  {
    hide *;
    MulMono(Val(d), BPow(t + 1), BPow(i - t));
    BPowAdd(t + 1, i - t);
  }

  /** D's limb t is its top limb. */
  lemma TopLimb(d: seq<Limb>, t: nat)
    requires t < |d| && BPow(t) <= Val(d) < BPow(t + 1)
    ensures d[t] >= 1 && Top2(d, t) >= B
    ensures forall k :: t < k < |d| ==> d[k] == 0
  {
    hide Val, Pow, BPow;
    ValSmall(d, t + 1);
    ValPush(d, t);
    ValBound(d[..t]);
    MulMono(1, d[t], B);
  }

  /** The digit as the top limbs have it: not too small. */
  method FirstGuess(x: seq<Limb>, d: seq<Limb>, i: nat, t: nat, ghost dd: int) returns (z: Limb)
    requires t < |d| && t < i < |x| && Val(x) < BPow(i + 1) && dd == Val(d) * BPow(i - t - 1)
    requires Val(x) < dd * B && d[t] >= 1
    ensures Val(x) < (z + 1) * dd
  {
    hide *;
    if x[i] >= d[t] {
      z := B - 1;
    } else {
      ghost var r;
      z, r := IntDivIntWide(x[i], x[i - 1], d[t]);
      EstimateNotSmall(x, d, i, t, dd, z, r);
    }
  }

  /** Estimates one quotient digit: at most one too large, never too small. */
  method EstimateDigit(X: Mpi, D: Mpi, T1: Mpi, T2: Mpi, i: nat, t: nat, ghost dd: int) returns (z: Limb)
    requires T1 != X && T1 != D && T2 != X && T2 != D && T1 != T2
    requires t < i < |X.p| && t < |D.p| && |T1.p| >= 2
    requires BPow(t) <= Val(D.p) < BPow(t + 1) && dd == Val(D.p) * BPow(i - t - 1)
    requires Val(X.p) < dd * B && Val(X.p) < BPow(i + 1)
    modifies T1, T2
    ensures |T1.p| >= 2
    ensures z * dd < Val(X.p) + dd && Val(X.p) < (z + 1) * dd
  {
    hide Val, Pow, BPow, Top2, Top3, Wrap, IsDivision;
    TopLimb(D.p, t);
    z := FirstGuess(X.p, D.p, i, t, dd);
    T2.s := 1;
    T2.p := [if i < 2 then 0 else X.p[i - 2], X.p[i - 1], X.p[i]];
    ThreeLimbs(X.p, i);
    ghost var x3, y2 := Top3(X.p, i), Top2(D.p, t);
    ghost var xl := Top3Scaled(X.p, i);
    ghost var dl := DivisorScaled(D.p, t, i, dd);
    z := Nudge(z, 1);
    while true
      invariant |T1.p| >= 2 && T2.s == 1 && Val(T2.p) == x3
      invariant Val(X.p) < (if z == 0 then B else z) * dd
      decreases if z == 0 then B else z
    {
      z := Nudge(z, -1);
      Lset(T1, 0);
      T1.p := T1.p[0 := if t < 1 then 0 else D.p[t - 1]][1 := D.p[t]];
      TwoLimbs(D.p, t, T1.p);
      MulInt(T1, T1, z);
      var c := CmpMpi(T1, T2);
      if c <= 0 {
        break;
      }
      TestRefutes(Val(X.p), dd, x3, y2, BPow(i - 1), xl, dl, z);
    }
    TestBounds(Val(X.p), dd, x3, y2, BPow(i - 1), xl, dl, z);
  }

  /** A wrapping increment (step 1) or decrement (step -1). */
  method Nudge(z: Limb, step: int) returns (r: Limb)
    requires step == 1 || step == -1
    ensures step == 1 ==> r == if z == B - 1 then 0 else z + 1
    ensures step == -1 ==> r == if z == 0 then B - 1 else z - 1
  {
    r := if z + step == B then 0 else if z + step < 0 then B - 1 else z + step;
  }

  lemma ThreeLimbs(x: seq<Limb>, i: nat)
    requires 1 <= i < |x|
    ensures Val([if i < 2 then 0 else x[i - 2], x[i - 1], x[i]]) == Top3(x, i)
  {
    var p: seq<Limb> := [if i < 2 then 0 else x[i - 2], x[i - 1], x[i]];
    assert p[1..] == [x[i - 1], x[i]] && p[1..][1..] == [x[i]];
    ValSingle(x[i]);
    MulCong(Val(p[1..]), x[i - 1] + B * x[i], B);
  }

  lemma TwoLimbs(d: seq<Limb>, t: nat, q: seq<Limb>)
    requires t < |d| && |q| >= 2 && q[0] == (if t < 1 then 0 else d[t - 1]) && q[1] == d[t]
    requires forall k :: 2 <= k < |q| ==> q[k] == 0
    ensures Val(q) == Top2(d, t)
  {
    ValTrim(q, 2);
    assert q[..2] == [q[0], q[1]] && [q[0], q[1]][1..] == [q[1]];
    ValSingle(q[1]);
  }

  lemma ShiftedBound(d: int, k: nat)
    ensures d * BPow(k + 1) == d * BPow(k) * B
  {
    BPowSucc(k);
    MulCong(BPow(k + 1), BPow(k) * B, d);
    MulAssoc(d, BPow(k), B);
  }

  lemma DigitAdds(zv: int, z: int, w: int, d: int, dd: int)
    requires dd == d * w
    ensures (zv + z * w) * d == zv * d + z * dd
  {
    MulDist(d, zv, z * w);
    MulAssoc(z, w, d);
    MulCong(w * d, dd, z);
  }

  /** One digit of the quotient: Z gains z at position i-t-1 and X keeps the remainder. */
  method DivDigit(X: Mpi, D: Mpi, Z: Mpi, T1: Mpi, T2: Mpi, i: nat, t: nat)
    requires X != D && X != Z && X != T1 && X != T2 && D != Z && D != T1 && D != T2
    requires Z != T1 && Z != T2 && T1 != T2
    requires t < i < |X.p| && t < |D.p| && |T1.p| >= 2 && i - t - 1 < |Z.p| && Z.p[i - t - 1] == 0
    requires D.s == 1 && BPow(t) <= Val(D.p) < BPow(t + 1)
    requires 0 <= X.Value() < Val(D.p) * BPow(i - t)
    modifies X, T1, T2, Z`p
    ensures |X.p| >= old(|X.p|) && |T1.p| >= 2
    ensures |Z.p| == old(|Z.p|) && forall k :: 0 <= k < |Z.p| && k != i - t - 1 ==> Z.p[k] == old(Z.p[k])
    ensures 0 <= X.Value() < Val(D.p) * BPow(i - t - 1)
    ensures Val(Z.p) * Val(D.p) + X.Value() == old(Val(Z.p) * Val(D.p) + X.Value())
  {
    hide Val, Pow, BPow, Pow2, Top2, Top3;
    ghost var x := X.Value();
    ghost var w := BPow(i - t - 1);
    ghost var dd := Val(D.p) * w;
    DividendSize(X.p, D.p, t, i);
    ShiftedBound(Val(D.p), i - t - 1);
    var z := EstimateDigit(X, D, T1, T2, i, t, dd);
    z := SubtractDigit(X, D, T1, z, i - t - 1, dd);
    ValSet(Z.p, i - t - 1, z);
    DigitAdds(Val(Z.p), z, w, Val(D.p), dd);
    Z.p := Z.p[i - t - 1 := z];
  }

  /** Takes the digit's multiple of the divisor off, and adds one divisor back when it was too many. */
  method SubtractDigit(X: Mpi, D: Mpi, T1: Mpi, z0: Limb, s: nat, ghost dd: int) returns (z: Limb)
    requires X != D && X != T1 && D != T1 && |T1.p| >= 2
    requires D.s == 1 && dd == Val(D.p) * BPow(s) > 0 && 0 <= X.Value()
    requires z0 * dd < X.Value() + dd && X.Value() < (z0 + 1) * dd
    modifies X, T1
    ensures |X.p| >= old(|X.p|) && |T1.p| >= 2
    ensures 0 <= X.Value() == old(X.Value()) - z * dd < dd
  {
    hide Val, Pow, BPow, Pow2;
    ghost var x := X.Value();
    z := z0;
    SubtractMultiple(X, D, T1, z, s, dd);
    MulDist(dd, z, 1);
    MulDist(dd, z, -1);
    var c := CmpInt(X, 0);
    if c < 0 {
      DigitPositive(x, z, dd);
      Copy(T1, D);
      Pow2Limbs(s);
      ShiftL(T1, BIL * s);
      AddMpi(X, X, T1);
      z := Nudge(z, -1);
    }
  }

  /** X -= z * D << (biL * s). */
  method SubtractMultiple(X: Mpi, D: Mpi, T1: Mpi, z: Limb, s: nat, ghost dd: int)
    requires X != D && X != T1 && D != T1 && |T1.p| >= 2 && D.s == 1 && dd == Val(D.p) * BPow(s)
    modifies X, T1
    ensures |X.p| >= old(|X.p|) && |T1.p| >= 2
    ensures X.Value() == old(X.Value()) - z * dd
  {
    hide Val, Pow, BPow, Pow2;
    MulInt(T1, D, z);
    Pow2Limbs(s);
    ShiftL(T1, BIL * s);
    SubMpi(X, X, T1);
    MulCong(Val(D.p) * z, z * Val(D.p), BPow(s));
    MulAssoc(z, Val(D.p), BPow(s));
  }

  lemma DigitPositive(x: int, z: int, dd: int)
    requires 0 <= x && 0 <= z && x - z * dd < 0
    ensures z > 0
  {
    hide *;
    if z == 0 {
      MulCong(z, 0, dd);
    }
  }

  /** Copies of |A| and |Y|, shifted so that the divisor's bit length is -1 modulo biL. */
  method DivSetup(A: Mpi, Y: Mpi) returns (X: Mpi, D: Mpi, k: nat)
    requires Val(A.p) >= Val(Y.p) > 0
    ensures fresh(X) && fresh(D) && X != D && X.s == 1 && D.s == 1
    ensures Val(X.p) == Val(A.p) * Pow2(k) && Val(D.p) == Val(Y.p) * Pow2(k)
    ensures 1 <= |D.p| <= |X.p| <= |A.p| + 1 && BPow(|D.p| - 1) <= Val(D.p)
  {
    hide Val, Pow, BPow, Pow2;
    NonemptyLimbs(A.p);
    NonemptyLimbs(Y.p);
    X := new Mpi();
    D := new Mpi();
    Copy(X, A);
    Copy(D, Y);
    X.s, D.s := 1, 1;
    LengthOf(D.p);
    ghost var xn := |X.p|;
    var bits := Bitlen(D);
    DivMod(bits, BIL);
    k := bits % BIL;
    if k < BIL - 1 {
      k := BIL - 1 - k;
      ShiftGrows(Val(X.p), Val(D.p), k, |A.p|, |D.p|);
      ValBound(A.p);
      ShiftL(X, k);
      ShiftL(D, k);
    } else {
      k := 0;
      Pow2One();
    }
    if |X.p| > xn {
      LengthBound(Val(X.p), |X.p| - 1, |A.p| + 1);
    }
    ValBound(X.p);
    LengthBound(Val(D.p), |D.p| - 1, |X.p|);
  }

  lemma NonemptyLimbs(p: seq<Limb>)
    requires Val(p) > 0
    ensures |p| > 0
  {
  }

  lemma LengthOf(p: seq<Limb>)
    requires Val(p) > 0 && |p| > 0 && (|p| > 1 ==> p[|p| - 1] != 0)
    ensures BPow(|p| - 1) <= Val(p)
  {
    hide Val, Pow;
    if |p| == 1 {
      BPowAdd(0, 0);
    } else {
      ValTop(p, |p| - 1);
      MulMono(1, p[|p| - 1], BPow(|p| - 1));
    }
  }

  lemma LengthBound(v: int, m: nat, n: nat)
    requires BPow(m) <= v < BPow(n)
    ensures m < n
  {
    hide *;
    if m >= n {
      BPowMono(n, m);
    }
  }

  lemma ShiftGrows(x: int, d: int, k: nat, an: nat, dn: nat)
    requires 0 < d <= x && k < BIL && dn >= 1 && BPow(dn - 1) <= d
    ensures d * Pow2(k) >= d && x * Pow2(k) >= d * Pow2(k)
    ensures x < BPow(an) ==> x * Pow2(k) < BPow(an + 1)
  {
    hide Val, Pow2, BPow;
    MulMono(1, Pow2(k), d);
    MulMono(d, x, Pow2(k));
    assert Pow2(k) <= B by {
      Pow2IsB();
      PowMono(2, k, BIL);
    }
    if x < BPow(an) {
      MulMono(Pow2(k), B, x);
      MulStrict(x, BPow(an), B);
      BPowSucc(an);
    }
  }

  /** The quotient's top digit, found by repeated subtraction of the fully shifted divisor. */
  method DivTopDigit(X: Mpi, D: Mpi, Z: Mpi, n: nat, t: nat)
    requires X != D && X != Z && D != Z && X.s == 1 && D.s == 1
    requires t <= n && |X.p| == n + 1 && |D.p| == t + 1 && BPow(t) <= Val(D.p)
    requires n - t < |Z.p| && Val(Z.p) == 0 && forall k :: 0 <= k < |Z.p| ==> Z.p[k] == 0
    modifies X, D, Z`p
    ensures |X.p| >= n + 1 && |D.p| >= t + 1 && D.s == 1 && Val(D.p) == old(Val(D.p))
    ensures |Z.p| == old(|Z.p|) && forall k :: 0 <= k < n - t ==> Z.p[k] == 0
    ensures 0 <= X.Value() < Val(D.p) * BPow(n - t)
    ensures Val(Z.p) * Val(D.p) + X.Value() == old(Val(X.p))
  {
    hide Val, Pow, BPow, Pow2;
    ghost var d, x, w := Val(D.p), Val(X.p), BPow(n - t);
    Pow2Limbs(n - t);
    ShiftL(D, BIL * (n - t));
    ValBound(X.p);
    TopDigitFits(d, x, n, t);
    ghost var dd := d * w;
    ghost var z := 0;
    var c := CmpMpi(X, D);
    while c >= 0
      invariant |X.p| >= n + 1 && |D.p| >= t + 1 && D.s == 1 && Val(D.p) == dd
      invariant |Z.p| == old(|Z.p|) && Z.p[n - t] == z && forall k :: 0 <= k < n - t ==> Z.p[k] == 0
      invariant 0 <= X.Value() == x - z * dd && 0 <= z && Val(Z.p) == z * w
      invariant c == Cmp(X.Value(), dd)
      decreases X.Value()
    {
      MulDist(dd, z, 1);
      DigitBelowBase(z, dd, x);
      ValSet(Z.p, n - t, z + 1);
      MulDist(w, z, 1);
      Z.p := Z.p[n - t := Z.p[n - t] + 1];
      SubMpi(X, X, D);
      z := z + 1;
      c := CmpMpi(X, D);
    }
    DivUnique(dd, w, d, 0);
    ShiftR(D, BIL * (n - t));
    DigitAdds(0, z, w, d, dd);
  }

  lemma TopDigitFits(d: int, x: int, n: nat, t: nat)
    requires t <= n && BPow(t) <= d && x < BPow(n + 1)
    ensures 0 < d * BPow(n - t) && x < B * (d * BPow(n - t))
  {
    hide *;
    MulMono(BPow(t), d, BPow(n - t));
    BPowAdd(t, n - t);
    BPowSucc(n);
    MulMono(BPow(n), d * BPow(n - t), B);
  }

  lemma DigitBelowBase(z: int, dd: int, x: int)
    requires 0 < dd && x - z * dd >= dd && x < B * dd
    ensures z + 1 < B
  {
    MulDist(dd, z, 1);
    MulCancelLess(z + 1, B, dd);
  }

  /** |A| and |Y| scaled by 2^k, divided digit by digit. */
  method DivCore(A: Mpi, Y: Mpi) returns (X: Mpi, Z: Mpi, k: nat)
    requires Val(A.p) >= Val(Y.p) > 0
    ensures fresh(X) && fresh(Z) && X != Z && Z.s == 1 && |Z.p| > 0
    ensures Val(A.p) * Pow2(k) == Val(Z.p) * (Val(Y.p) * Pow2(k)) + Val(X.p)
    ensures Val(X.p) < Val(Y.p) * Pow2(k)
  {
    hide Val, Pow, BPow, Pow2;
    var D;
    X, D, k := DivSetup(A, Y);
    Z := new Mpi();
    Grow(Z, |A.p| + 2);
    Lset(Z, 0);
    ValZeroInv(Z.p);
    var T1 := new Mpi();
    Grow(T1, |A.p| + 2);
    var T2 := new Mpi();
    var n: nat, t: nat := |X.p| - 1, |D.p| - 1;
    ghost var d, x := Val(D.p), Val(X.p);
    ValBound(D.p);
    DivTopDigit(X, D, Z, n, t);
    var i := n;
    while i > t
      invariant t <= i <= n && |X.p| >= n + 1 && |D.p| >= t + 1 && |T1.p| >= 2
      invariant D.s == 1 && Z.s == 1 && Val(D.p) == d && |Z.p| == |A.p| + 2
      invariant forall j :: 0 <= j < i - t ==> Z.p[j] == 0
      invariant 0 <= X.Value() < d * BPow(i - t)
      invariant Val(Z.p) * d + X.Value() == x
    {
      DivDigit(X, D, Z, T1, T2, i, t);
      i := i - 1;
    }
    UnitBPow(d);
  }

  lemma UnitBPow(d: int)
    ensures d * BPow(0) == d
  {
  }

  /**
   The quotient the code writes: where Q is an operand, that operand's sign is read after Q has been
   overwritten with a magnitude.
   */
  function WrittenQuotient(a: int, y: int, onA: bool, onY: bool): int
    requires y != 0
  {
    TruncDiv(if onA then AbsInt(a) else a, if onY then AbsInt(y) else y)
  }

  /** The remainder it writes: where Q is the dividend, it takes the quotient's sign, or is read from the zero in Q. */
  function WrittenRemainder(a: int, y: int, onA: bool, onY: bool): int
    requires y != 0
  {
    if !onA then TruncRem(a, y)
    else if AbsInt(a) < AbsInt(y) then 0
    else TruncRem(if y < 0 && !onY then 0 - AbsInt(a) else AbsInt(a), y)
  }

  /** Exactly when an operand may double as the quotient. */
  lemma AliasedExact(a: int, y: int, onA: bool, onY: bool)
    requires y != 0 && (onA && onY ==> a == y)
    ensures WrittenQuotient(a, y, onA, onY) == TruncDiv(a, y)
       <==> AbsInt(a) < AbsInt(y) || ((onA && a < 0) == (onY && y < 0))
    ensures WrittenRemainder(a, y, onA, onY) == TruncRem(a, y)
       <==> !onA || AbsInt(a) % AbsInt(y) == 0 || (AbsInt(a) >= AbsInt(y) && ((a < 0) == (y < 0 && !onY)))
  {
    var m, n := AbsInt(a), AbsInt(y);
    DivMod(m, n);
    if m < n {
      DivUnique(m, n, 0, m);
    } else if m / n == 0 {
      MulCong(m / n, 0, n);
    }
  }

  /** A = Q*Y + R; either result may be absent, and results may be operands. */
  method DivMpi(Q: Mpi?, R: Mpi?, A: Mpi, Y: Mpi) returns (ret: Ret)
    modifies Q, R
    ensures ret == if old(Y.Value()) == 0 then DivisionByZero else Ok
    ensures ret == Ok && Q != null && Q != R ==>
      Q.Value() == WrittenQuotient(old(A.Value()), old(Y.Value()), Q == A, Q == Y)
    ensures ret == Ok && R != null ==>
      R.Value() == WrittenRemainder(old(A.Value()), old(Y.Value()), Q == A, Q == Y)
    ensures ret == Ok && Q != null && Q != A && Q != Y && Q != R ==>
      Q.Value() == TruncDiv(old(A.Value()), old(Y.Value()))
    ensures ret == Ok && R != null && Q != A ==> R.Value() == TruncRem(old(A.Value()), old(Y.Value()))
    ensures R != null ==> |R.p| >= old(|R.p|)
  {
    hide Val, Pow, BPow, Pow2, TruncDiv, TruncRem;
    ghost var a, y := A.Value(), Y.Value();
    var c := CmpInt(Y, 0);
    if c == 0 {
      return DivisionByZero;
    }
    c := CmpAbs(A, Y);
    if c < 0 {
      SmallDividend(a, y, Q == A, Q == Y);
      if Q != null {
        Lset(Q, 0);
      }
      if R != null {
        Copy(R, A);
      }
      return Ok;
    }
    hide WrittenQuotient, WrittenRemainder;
    WrittenSigns(A.s, Val(A.p), Y.s, Val(Y.p), Q == A, Q == Y);
    WrittenApart(a, y);
    DivLarge(Q, R, A, Y);
    ret := Ok;
  }

  lemma WrittenApart(a: int, y: int)
    requires y != 0
    ensures WrittenQuotient(a, y, false, false) == TruncDiv(a, y)
    ensures forall onY :: WrittenRemainder(a, y, false, onY) == TruncRem(a, y)
  {
  }

  /** The dividend is not smaller: the digits, then the signs as they are read. */
  method DivLarge(Q: Mpi?, R: Mpi?, A: Mpi, Y: Mpi)
    requires Val(A.p) >= Val(Y.p) > 0
    modifies Q, R
    ensures var (sa, m, sy, n) := (old(A.s), old(Val(A.p)), old(Y.s), old(Val(Y.p)));
      var s := if (Q == A || sa == 1) == (Q == Y || sy == 1) then 1 else -1;
      && (Q != null && Q != R ==> Q.Value() == (if s < 0 then 0 - m / n else m / n))
      && (R != null ==> R.Value() == (if (if Q == A then s else sa) < 0 then 0 - m % n else m % n))
    ensures R != null ==> |R.p| >= old(|R.p|)
  {
    hide Val, Pow, BPow, Pow2;
    ghost var m, n := Val(A.p), Val(Y.p);
    var X, Z, k := DivCore(A, Y);
    QuotientOf(m, n, Val(Z.p), Val(X.p), k);
    if Q != null {
      WriteQuotient(Q, A, Y, Z);
    }
    if R != null {
      WriteRemainder(R, X, A.s, k);
    }
  }

  /** Dividing -7 by 2 in place loses the sign. */
  method SignLost() returns (A: Mpi)
    ensures A.Value() == 3 && TruncDiv(-7, 2) == -3
  {
    hide Val;
    A := new Mpi();
    var Y := new Mpi();
    Lset(A, -7);
    Lset(Y, 2);
    var _ := DivMpi(A, null, A, Y);
  }

  lemma SmallDividend(a: int, y: int, onA: bool, onY: bool)
    requires AbsInt(a) < AbsInt(y)
    ensures WrittenQuotient(a, y, onA, onY) == 0 && WrittenRemainder(a, y, onA, onY) == if onA then 0 else a
  {
    DivUnique(AbsInt(a), AbsInt(y), 0, AbsInt(a));
  }

  /** What is written, by the signs as the code reads them. */
  lemma WrittenSigns(sa: Sign, m: int, sy: Sign, n: int, onA: bool, onY: bool)
    requires m >= n > 0
    ensures var a, y := if sa < 0 then 0 - m else m, if sy < 0 then 0 - n else n;
      var s := if (onA || sa == 1) == (onY || sy == 1) then 1 else -1;
      && WrittenQuotient(a, y, onA, onY) == (if s < 0 then 0 - m / n else m / n)
      && WrittenRemainder(a, y, onA, onY) == (if (if onA then s else sa) < 0 then 0 - m % n else m % n)
  {
  }

  method WriteQuotient(Q: Mpi, A: Mpi, Y: Mpi, Z: Mpi)
    requires Z.s == 1 && |Z.p| > 0 && Q != Z
    modifies Q
    ensures Val(Q.p) == Val(Z.p) && |Q.p| >= old(|Q.p|)
    ensures Q.s == if (Q == A || old(A.s) == 1) == (Q == Y || old(Y.s) == 1) then 1 else -1
  {
    hide Val;
    Copy(Q, Z);
    Q.s := if A.s == Y.s then 1 else -1;
  }

  method WriteRemainder(R: Mpi, X: Mpi, s: Sign, k: nat)
    requires R != X
    modifies R, X
    ensures R.Value() == (var r := old(Val(X.p)) / Pow2(k); if s < 0 then 0 - r else r) && |R.p| >= old(|R.p|)
  {
    hide Val, Pow2, Pow;
    ShiftR(X, k);
    X.s := s;
    Copy(R, X);
    var c := CmpInt(R, 0);
    if c == 0 {
      R.s := 1;
    }
  }

  lemma QuotientOf(a: int, y: int, z: int, x: int, k: nat)
    requires a >= 0 && y > 0 && a * Pow2(k) == z * (y * Pow2(k)) + x && 0 <= x < y * Pow2(k)
    ensures a / y == z && a % y == x / Pow2(k)
  {
    hide *;
    var e := Pow2(k);
    var r := a - z * y;
    MulAssoc(z, y, e);
    MulDist(e, r, z * y);
    assert x == r * e;
    DivUnique(x, e, r, 0);
    if r < 0 { MulMono(r, -1, e); }
    MulCancelLess(r, y, e);
    DivUnique(a, y, z, r);
  }

  /** Adds or subtracts Y until R is in [0, Y): the two loops that close a reduction. */
  method Canonicalise(R: Mpi, Y: Mpi)
    requires R != Y && Y.Value() > 0
    modifies R
    ensures R.Value() == old(R.Value()) % Y.Value()
    ensures |R.p| >= old(|R.p|)
  {
    hide Val;
    ghost var a, y, q := R.Value(), Y.Value(), 0;
    var c := CmpInt(R, 0);
    while c < 0
      invariant c == Cmp(R.Value(), 0) && R.Value() == a - q * y
      invariant |R.p| >= old(|R.p|)
      decreases y - R.Value()
    {
      MulDist(y, q, -1);
      AddMpi(R, R, Y);
      q := q - 1;
      c := CmpInt(R, 0);
    }
    c := CmpMpi(R, Y);
    while c >= 0
      invariant c == Cmp(R.Value(), y) && 0 <= R.Value() == a - q * y
      invariant |R.p| >= old(|R.p|)
      decreases R.Value()
    {
      MulDist(y, q, 1);
      SubMpi(R, R, Y);
      q := q + 1;
      c := CmpMpi(R, Y);
    }
    DivUnique(a, y, q, R.Value());
  }

  /** R = A mod Y, in [0, Y); R may be A. */
  method ModMpi(R: Mpi, A: Mpi, Y: Mpi) returns (ret: Ret)
    requires R != Y
    modifies R
    ensures ret == if Y.Value() < 0 then NegativeValue else if Y.Value() == 0 then DivisionByZero else Ok
    ensures ret == Ok ==> R.Value() == old(A.Value()) % Y.Value()
    ensures |R.p| >= old(|R.p|)
  {
    hide Val, TruncDiv, TruncRem;
    var c := CmpInt(Y, 0);
    if c < 0 {
      return NegativeValue;
    }
    ghost var a, y := A.Value(), Y.Value();
    ret := DivMpi(null, R, A, Y);
    if ret != Ok {
      return;
    }
    TruncDivMeaning(a, y);
    ModShift(a, TruncRem(a, y), TruncDiv(a, y), y);
    Canonicalise(R, Y);
  }

  /**
   The same with R in the place of a positive modulus: the remainder is compared with itself, and
   whatever number of rounds one waits for, a closing loop has made that many and goes on.
   */
  method SpinningMod(R: Mpi, A: Mpi, rounds: nat) returns (done: nat, goesOn: bool)
    requires R.Value() > 0
    modifies R
    ensures done == rounds && goesOn
  {
    hide Val, TruncDiv, TruncRem;
    done := 0;
    var _ := DivMpi(null, R, A, R);
    var c := CmpInt(R, 0);
    if c < 0 {
      while c < 0 && done < rounds
        invariant done <= rounds && c < 0 && R.Value() < 0
        decreases rounds - done
      {
        AddMpi(R, R, R);
        done := done + 1;
        c := CmpInt(R, 0);
      }
      goesOn := c < 0;
    } else {
      c := CmpMpi(R, R);
      while c >= 0 && done < rounds
        invariant done <= rounds && c >= 0
        decreases rounds - done
      {
        SubMpi(R, R, R);
        done := done + 1;
        c := CmpMpi(R, R);
      }
      goesOn := c >= 0;
    }
  }
}
