/** Bit counts and shifts of multi-precision integers. */
module MpiBits {
  import opened Arith
  import opened Limbs
  import opened Mpis

  lemma Pow2IsB()
    ensures Pow2(BIL) == B
  {
  }

  lemma Pow2Limbs(n: nat)
    ensures Pow2(BIL * n) == BPow(n)
  {
    PowPow(2, BIL, n);
  }

  lemma Pow2Split(n: nat)
    ensures Pow2(n) == BPow(n / BIL) * Pow2(n % BIL)
  {
    hide *;
    Pow2Add(BIL * (n / BIL), n % BIL);
    Pow2Limbs(n / BIL);
  }

  lemma BitTop(x: int, k: nat)
    requires 0 <= x < Pow2(k + 1)
    ensures Bit(x, k) == if x >= Pow2(k) then 1 else 0
  {
    var p := Pow2(k);
    assert Pow2(k + 1) == 2 * p;
    if x >= p {
      DivUnique(x, p, 1, x - p);
    } else {
      DivUnique(x, p, 0, x);
    }
  }

  /** Leading zero bits of a limb. */
  method Clz(x: Limb) returns (j: nat)
    ensures j <= BIL && x < Pow2(BIL - j)
    ensures x == 0 <==> j == BIL
    ensures x > 0 ==> Pow2(BIL - 1 - j) <= x
  {
    j := 0;
    while j < BIL
      invariant j <= BIL && x < Pow2(BIL - j)
    {
      BitTop(x, BIL - 1 - j);
      if Bit(x, BIL - 1 - j) == 1 {
        break;
      }
      j := j + 1;
    }
  }

  /** r is the number of bits of v. */
  ghost predicate IsBitlen(v: int, r: nat)
  {
    if v == 0 then r == 0 else r > 0 && Pow2(r - 1) <= v < Pow2(r)
  }

  method Bitlen(X: Mpi) returns (r: nat)
    ensures IsBitlen(Val(X.p), r)
    ensures r <= BIL * |X.p|
  {
    if |X.p| == 0 {
      return 0;
    }
    var i: nat := |X.p| - 1;
    while i > 0 && X.p[i] == 0
      invariant i < |X.p| && forall k :: i < k < |X.p| ==> X.p[k] == 0
    {
      i := i - 1;
    }
    var z := Clz(X.p[i]);
    ValTrim(X.p, i + 1);
    ValPush(X.p, i);
    BitlenAt(X.p, i, BIL - z);
    r := BIL * i + (BIL - z);
    assert BIL * i + BIL == BIL * (i + 1);
    MulMono(i + 1, |X.p|, BIL);
  }

  lemma BitlenAt(p: seq<Limb>, i: nat, j: nat)
    requires i < |p| && Val(p) == Val(p[..i]) + p[i] * BPow(i)
    requires p[i] < Pow2(j) && (p[i] == 0 <==> j == 0) && (j > 0 ==> Pow2(j - 1) <= p[i])
    requires i > 0 ==> p[i] != 0
    ensures IsBitlen(Val(p), BIL * i + j)
  {
    var w := BPow(i);
    Pow2Limbs(i);
    ValBound(p[..i]);
    if j == 0 {
      assert i == 0 && p[..i] == [];
    } else {
      Pow2Add(j, BIL * i);
      Pow2Add(j - 1, BIL * i);
      MulMono(Pow2(j - 1), p[i], w);
      MulStrict(p[i], Pow2(j), w);
    }
  }

  /** r is the number of trailing zero bits of v. */
  ghost predicate IsLsb(v: int, r: nat)
  {
    if v == 0 then r == 0 else v % Pow2(r) == 0 && (v / Pow2(r)) % 2 == 1
  }

  /** The number of trailing zero bits; 0 for the value 0. */
  method Lsb(X: Mpi) returns (r: nat)
    ensures IsLsb(Val(X.p), r)
  {
    var i: nat := 0;
    while i < |X.p|
      invariant i <= |X.p| && forall k :: 0 <= k < i ==> X.p[k] == 0
    {
      var j: nat := 0;
      assert Pow2(0) == 1;
      while j < BIL
        invariant j <= BIL && X.p[i] % Pow2(j) == 0
      {
        if Bit(X.p[i], j) == 1 {
          LsbAt(X.p, i, j);
          return BIL * i + j;
        }
        DoubleDivides(X.p[i], j);
        j := j + 1;
      }
      assert Pow2(BIL) == B;
      ModSmall(X.p[i], B);
      i := i + 1;
    }
    ValAllZero(X.p);
    r := 0;
  }

  lemma DoubleDivides(x: nat, j: nat)
    requires x % Pow2(j) == 0 && Bit(x, j) == 0
    ensures x % Pow2(j + 1) == 0
  {
    var p, q := Pow2(j), x / Pow2(j);
    assert x == q * p;
    assert q == 2 * (q / 2);
    assert Pow2(j + 1) == 2 * p;
    MulAssoc(q / 2, 2, p);
    DivUnique(x, 2 * p, q / 2, 0);
  }

  lemma LsbAt(p: seq<Limb>, i: nat, j: nat)
    requires i < |p| && j < BIL && forall k :: 0 <= k < i ==> p[k] == 0
    requires p[i] % Pow2(j) == 0 && Bit(p[i], j) == 1
    ensures Val(p) != 0
    ensures Val(p) % Pow2(BIL * i + j) == 0 && (Val(p) / Pow2(BIL * i + j)) % 2 == 1
  {
    hide *;
    ValSplit(p, i);
    ValAllZero(p[..i]);
    ValTail(p, i);
    Pow2Limbs(i);
    Pow2Add(BIL * i, j);
    var t, w, e := Val(p[i + 1..]), BPow(i), Pow2(j);
    var m := OddMultiple(p[i], t, j);
    MulCong(p[i] + B * t, m * e, w);
    MulAssoc(m, e, w);
    MulCong(e * w, Pow2(BIL * i + j), m);
    DivUnique(Val(p), Pow2(BIL * i + j), m, 0);
  }

  /** Limbs above the lowest set bit only add even multiples of it. */
  lemma OddMultiple(x: Limb, t: int, j: nat) returns (m: int)
    requires j < BIL && x % Pow2(j) == 0 && Bit(x, j) == 1
    ensures x + B * t == m * Pow2(j) && m % 2 == 1
  {
    hide Pow, Pow2;
    var e, h := Pow2(j), Pow2(BIL - j - 1);
    Pow2Add(j, BIL - j);
    Pow2Succ(BIL - j - 1);
    Pow2IsB();
    DivMod(x, e);
    var q := x / e;
    m := q + 2 * (h * t);
    ModShift(m, q, h * t, 2);
    MulCong(B, e * (2 * h), t);
    MulAssoc(e, 2 * h, t);
    MulAssoc(2, h, t);
    MulDist(e, q, 2 * (h * t));
  }

  // ---------------------------------------------------------------- shifts

  /** X <<= count. */
  method ShiftL(X: Mpi, count: nat)
    modifies X`p
    ensures Val(X.p) == old(Val(X.p)) * Pow2(count) && X.Value() == old(X.Value()) * Pow2(count)
    ensures |X.p| >= old(|X.p|)
    ensures old(Val(X.p)) > 0 && |X.p| > old(|X.p|) ==> BPow(|X.p| - 1) <= Val(X.p)
  {
    hide Val, Pow, BPow, Pow2, LimbsFor, IsBitlen;
    DivMod(count, BIL);
    var v0: nat, t1: nat := count / BIL, count % BIL;
    var b := Bitlen(X);
    var i := b + count;
    ghost var v := Val(X.p);
    if |X.p| * BIL < i {
      LimbsGrow(i, |X.p|);
      Grow(X, LimbsFor(i));
    }
    ShiftFits(v, b, count, |X.p|, old(|X.p|));
    ShiftSplit(v, count);
    ShiftBoth(X, v0, t1);
    NegMul(v, Pow2(count));
  }

  method ShiftBoth(X: Mpi, v0: nat, t1: nat)
    requires v0 <= |X.p| && t1 < BIL && Val(X.p) * (BPow(v0) * Pow2(t1)) < BPow(|X.p|)
    modifies X`p
    ensures |X.p| == old(|X.p|) && Val(X.p) == old(Val(X.p)) * BPow(v0) * Pow2(t1)
  {
    MulAssoc(Val(X.p), BPow(v0), Pow2(t1));
    assert Pow2(0) == 1 && BPow(0) == 1;
    if v0 > 0 {
      ShiftLimbsUp(X, v0, t1);
    }
    if t1 > 0 {
      ShiftBitsUp(X, v0, t1);
    }
  }

  lemma NegMul(a: int, b: int)
    ensures (0 - a) * b == 0 - a * b
  {
  }

  lemma ShiftSplit(v: int, count: nat)
    ensures v * (BPow(count / BIL) * Pow2(count % BIL)) == v * Pow2(count)
    ensures v * BPow(count / BIL) * Pow2(count % BIL) == v * Pow2(count)
  {
    hide *;
    Pow2Split(count);
    MulCong(Pow2(count), BPow(count / BIL) * Pow2(count % BIL), v);
    MulAssoc(v, BPow(count / BIL), Pow2(count % BIL));
  }

  /** BITS_TO_LIMBS. */
  function LimbsFor(i: nat): nat
  {
    i / BIL + if i % BIL != 0 then 1 else 0
  }

  lemma LimbsGrow(i: nat, n: nat)
    requires n * BIL < i
    ensures n < LimbsFor(i)
  {
    DivMod(i, BIL);
    if i / BIL < n {
      MulStrict(i / BIL, n, BIL);
    }
  }

  lemma ShiftFits(v: int, b: nat, count: nat, n: nat, n0: nat)
    requires IsBitlen(v, b) && n0 <= n
    requires var i := b + count;
      if n0 * BIL < i then n == LimbsFor(i) else n == n0
    ensures count / BIL <= n && v * Pow2(count) < BPow(n)
    ensures v > 0 && n > n0 ==> BPow(n - 1) <= v * Pow2(count)
  {
    hide *;
    var i := b + count;
    CeilLimbs(i, n, n0);
    BitlenShift(v, b, count);
    Pow2Limbs(n);
    PowMono(2, i, BIL * n);
    assert count / BIL <= n by {
      DivMod(count, BIL);
      MulCancelLess(count / BIL, n + 1, BIL);
    }
    if v > 0 && n > n0 {
      Pow2Limbs(n - 1);
      PowMono(2, BIL * (n - 1), i - 1);
    }
  }

  lemma BitlenShift(v: int, b: nat, count: nat)
    requires IsBitlen(v, b)
    ensures v * Pow2(count) < Pow2(b + count)
    ensures v > 0 ==> Pow2(b + count - 1) <= v * Pow2(count)
  {
    Pow2Add(b, count);
    if v > 0 {
      MulStrict(v, Pow2(b), Pow2(count));
      Pow2Add(b - 1, count);
      MulMono(Pow2(b - 1), v, Pow2(count));
    }
  }

  /** BITS_TO_LIMBS rounds up. */
  lemma CeilLimbs(i: nat, n: nat, n0: nat)
    requires if n0 * BIL < i then n == LimbsFor(i) else n == n0
    ensures i <= BIL * n < BIL * (n + 1)
    ensures i < (n + 1) * BIL
    ensures n > n0 ==> n >= 1 && BIL * (n - 1) <= i - 1
  {
    DivMod(i, BIL);
    MulDist(BIL, i / BIL, 1);
    MulDist(BIL, n, 1);
    MulDist(BIL, n, -1);
  }

  method ShiftLimbsUp(X: Mpi, v0: nat, ghost t: nat)
    requires v0 <= |X.p| && Val(X.p) * (BPow(v0) * Pow2(t)) < BPow(|X.p|)
    modifies X`p
    ensures |X.p| == old(|X.p|) && Val(X.p) == old(Val(X.p)) * BPow(v0)
    ensures forall k :: 0 <= k < v0 ==> X.p[k] == 0
  {
    hide *;
    ghost var was := X.p;
    var i := |X.p|;
    while i > v0
      invariant v0 <= i <= |X.p| == |was|
      invariant X.p[..i] == was[..i] && X.p[i..] == was[i - v0..|was| - v0]
    {
      assert X.p[i - v0 - 1] == X.p[..i][i - v0 - 1];
      ghost var q := X.p;
      X.p := X.p[i - 1 := X.p[i - v0 - 1]];
      i := i - 1;
      assert X.p[..i] == q[..i + 1][..i];
      assert X.p[i..] == [was[i - v0]] + q[i + 1..];
    }
    while i > 0
      invariant 0 <= i <= v0 <= |X.p| == |was|
      invariant X.p[v0..] == was[..|was| - v0] && forall k :: i <= k < v0 ==> X.p[k] == 0
    {
      ghost var q := X.p;
      X.p := X.p[i - 1 := 0];
      i := i - 1;
      assert X.p[v0..] == q[v0..];
    }
    LimbsUpValue(was, X.p, v0, t);
  }

  lemma LimbsUpValue(was: seq<Limb>, p: seq<Limb>, v0: nat, t: nat)
    requires v0 <= |p| == |was| && Val(was) * (BPow(v0) * Pow2(t)) < BPow(|was|)
    requires p[v0..] == was[..|was| - v0] && forall k :: 0 <= k < v0 ==> p[k] == 0
    ensures Val(p) == Val(was) * BPow(v0)
  {
    hide *;
    var n := |was| - v0;
    BPowAdd(n, v0);
    MulMono(1, Pow2(t), BPow(v0));
    MulMono(BPow(v0), BPow(v0) * Pow2(t), Val(was));
    MulCancelLess(Val(was), BPow(n), BPow(v0));
    ValSmall(was, n);
    ValSplit(p, v0);
    ValAllZero(p[..v0]);
  }

  method ShiftBitsUp(X: Mpi, v0: nat, t: nat)
    requires v0 <= |X.p| && 0 < t < BIL && Val(X.p) * Pow2(t) < BPow(|X.p|)
    requires forall k :: 0 <= k < v0 ==> X.p[k] == 0
    modifies X`p
    ensures |X.p| == old(|X.p|) && Val(X.p) == old(Val(X.p)) * Pow2(t)
  {
    hide *;
    ghost var was := X.p;
    ghost var f := Pow2(t) - 1;
    var r0: Limb, i := 0, v0;
    ValAllZero(was[..v0]);
    while i < |X.p|
      invariant v0 <= i <= |X.p| == |was| && r0 < Pow2(t)
      invariant X.p[i..] == was[i..]
      invariant Val(X.p) + r0 * BPow(i) == Val(was) + f * Val(was[..i])
    {
      assert X.p[i] == X.p[i..][0] == was[i];
      var r1, v := LimbUp(X.p[i], t, r0);
      MulDist(X.p[i], f, 1);
      ChainStep(X.p, i, v, f * X.p[i], r0, r1);
      ValPush(was, i);
      MulCong(Val(was[..i + 1]), Val(was[..i]) + was[i] * BPow(i), f);
      MulDist(f, Val(was[..i]), was[i] * BPow(i));
      MulAssoc(f, was[i], BPow(i));
      assert X.p[i := v][i + 1..] == X.p[i..][1..];
      X.p, r0, i := X.p[i := v], r1, i + 1;
    }
    assert was[..i] == was;
    MulDist(Val(was), f, 1);
    if r0 > 0 {
      MulMono(1, r0, BPow(i));
    }
  }

  /** One limb of a left shift: the bits shifted out, and the limb with the incoming bits OR-ed in. */
  method LimbUp(x: Limb, t: nat, r0: Limb) returns (r1: Limb, v: Limb)
    requires 0 < t < BIL && r0 < Pow2(t)
    ensures r1 < Pow2(t) && v + r1 * B == x * Pow2(t) + r0
  {
    var e, g := Pow2(t), Pow2(BIL - t);
    Pow2Add(BIL - t, t);
    DivMod(x, g);
    var hi, lo := x / g, x % g;
    if hi >= e {
      MulMono(e, hi, g);
    }
    MulCong(x, hi * g + lo, e);
    MulDist(e, hi * g, lo);
    MulAssoc(hi, g, e);
    MulStrict(lo, g, e);
    MulMono(1, e, g);
    BitOrDisjoint(lo, r0, t);
    r1 := hi;
    v := BitOr(lo * e, r0);
  }

  /** X >>= count. */
  method ShiftR(X: Mpi, count: nat)
    modifies X
    ensures Val(X.p) == old(Val(X.p)) / Pow2(count)
    ensures X.s == old(X.s) || (X.s == 1 && Val(X.p) == 0)
    ensures |X.p| >= old(|X.p|)
  {
    DivMod(count, BIL);
    var v0: nat, v1: nat := count / BIL, count % BIL;
    Pow2Split(count);
    if v0 > |X.p| || (v0 == |X.p| && v1 > 0) {
      ValBound(X.p);
      BPowMono(|X.p|, v0);
      MulMono(1, Pow2(v1), BPow(v0));
      DivUnique(Val(X.p), Pow2(count), 0, Val(X.p));
      Lset(X, 0);
      return;
    }
    ghost var v := Val(X.p);
    if v0 > 0 {
      ShiftLimbsDown(X, v0);
    }
    assert Pow2(0) == 1 && BPow(0) == 1;
    assert Val(X.p) == v / BPow(v0);
    if v1 > 0 {
      ShiftBitsDown(X, v1);
    }
    DivDiv(v, BPow(v0), Pow2(v1));
  }

  method ShiftLimbsDown(X: Mpi, v0: nat)
    requires v0 <= |X.p|
    modifies X`p
    ensures |X.p| == old(|X.p|) && Val(X.p) == old(Val(X.p)) / BPow(v0)
  {
    hide *;
    ghost var was := X.p;
    var i := 0;
    while i < |X.p| - v0
      invariant 0 <= i <= |X.p| - v0 && |X.p| == |was|
      invariant X.p[..i] == was[v0..v0 + i] && X.p[i..] == was[i..]
    {
      assert X.p[i + v0] == X.p[i..][v0] == was[i + v0];
      ghost var q := X.p;
      X.p := X.p[i := X.p[i + v0]];
      assert X.p[..i + 1] == q[..i] + [was[i + v0]];
      assert X.p[i + 1..] == q[i..][1..];
      i := i + 1;
    }
    ghost var n := i;
    while i < |X.p|
      invariant n <= i <= |X.p| == |was|
      invariant X.p[..n] == was[v0..] && forall k :: n <= k < i ==> X.p[k] == 0
    {
      ghost var q := X.p;
      X.p := X.p[i := 0];
      assert X.p[..n] == q[..n];
      i := i + 1;
    }
    ValTrim(X.p, n);
    ValDiv(was, v0);
  }

  method ShiftBitsDown(X: Mpi, t: nat)
    requires 0 < t < BIL
    modifies X`p
    ensures |X.p| == old(|X.p|) && Val(X.p) == old(Val(X.p)) / Pow2(t)
  {
    hide Val, Pow, Pow2;
    ghost var was := X.p;
    ghost var m := 0;
    var r0: Limb, i := 0, |X.p|;
    ValNone();
    assert X.p[i..] == [];
    while i > 0
      invariant 0 <= i <= |X.p| == |was|
      invariant X.p[..i] == was[..i]
      invariant 0 <= m < Pow2(t) && r0 == m * Pow2(BIL - t)
      invariant Val(X.p[i..]) * Pow2(t) + m == Val(was[i..])
    {
      assert X.p[i - 1] == X.p[..i][i - 1] == was[i - 1];
      ghost var m';
      var r1, v;
      r1, v, m' := LimbDown(X.p[i - 1], t, r0, m);
      ghost var q := X.p;
      X.p := X.p[i - 1 := v];
      assert X.p[..i - 1] == q[..i][..i - 1] && X.p[i..] == q[i..];
      ValTail(X.p, i - 1);
      ValTail(was, i - 1);
      BitsDownStep(v, Val(X.p[i..]), was[i - 1], Val(was[i..]), m, m', Pow2(t));
      i, r0, m := i - 1, r1, m';
    }
    assert X.p[0..] == X.p && was[0..] == was;
    DivUnique(Val(was), Pow2(t), Val(X.p), m);
  }

  lemma BitsDownStep(v: int, hi: int, x: int, whi: int, m: int, m': int, e: int)
    requires v * e + m' == x + m * B && hi * e + m == whi
    ensures (v + B * hi) * e + m' == x + B * whi
  {
    hide *;
    MulDist(e, v, B * hi);
    MulAssoc(B, hi, e);
    MulCong(hi * e + m, whi, B);
    MulDist(B, hi * e, m);
  }

  lemma HighField(lo: int, e: int, g: int)
    requires 0 <= lo < e && 0 < g && g * e == B
    ensures 0 <= lo * g && lo * g + g <= B
  {
    hide *;
    MulStrict(lo, e, g);
    MulMono(0, lo, g);
  }

  /** One limb of a right shift. */
  method LimbDown(x: Limb, t: nat, r0: Limb, ghost m: int) returns (r1: Limb, v: Limb, ghost m': int)
    requires 0 < t < BIL && 0 <= m < Pow2(t) && r0 == m * Pow2(BIL - t)
    ensures 0 <= m' < Pow2(t) && r1 == m' * Pow2(BIL - t) && v * Pow2(t) + m' == x + m * B
  {
    var e, g := Pow2(t), Pow2(BIL - t);
    Pow2Add(BIL - t, t);
    DivMod(x, e);
    var hi, lo := x / e, x % e;
    m' := lo;
    if hi >= g {
      MulMono(g, hi, e);
    }
    HighField(lo, e, g);
    HighField(m, e, g);
    BitOrDisjoint(m, hi, BIL - t);
    r1 := lo * g;
    v := BitOr(r0, hi);
    MulDist(e, m * g, hi);
    MulAssoc(m, g, e);
  }
}
