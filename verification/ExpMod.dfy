/** Sliding-window modular exponentiation in the Montgomery domain. */
module ExpMod {
  import opened Arith
  import opened Limbs
  import opened Mpis
  import opened MpiBits
  import opened MpiDiv
  import opened Montgomery

  const WINDOW_SIZE: nat := 6
  const MAX_BITS: nat := 8192

  // ---------------------------------------------------------------- Montgomery representatives

  /** x represents a: x == a*R modulo v. */
  predicate Rep(x: int, a: int, r: int, v: int)
    requires v > 0
  {
    x % v == (a * r) % v
  }

  /** A product of representatives, divided by R, represents the product. */
  lemma RepMul(z: int, x: int, y: int, a: int, b: int, r: int, g: int, v: int)
    requires v > 0 && (r * g) % v == 1 % v
    requires Rep(x, a, r, v) && Rep(y, b, r, v) && (z * r) % v == (x * y) % v
    ensures Rep(z, a * b, r, v)
  {
    hide *;
    RepDef(x, a, r, v);
    RepDef(y, b, r, v);
    ModMul2(x, a * r, y, b * r, v);
    MulSwap(a, r, b, r);
    MulAssoc(a * b, r, r);
    ModCancel(z, a * b * r, r, g, v);
    RepDef(z, a * b, r, v);
  }

  lemma RepDef(x: int, a: int, r: int, v: int)
    requires v > 0
    ensures Rep(x, a, r, v) <==> x % v == (a * r) % v
  {
  }

  /** Multiplying by R^2 / R enters the domain. */
  lemma RepEnter(z: int, x: int, a: int, rr: int, r: int, g: int, v: int)
    requires v > 0 && (r * g) % v == 1 % v
    requires x % v == a % v && rr % v == (r * r) % v && (z * r) % v == (x * rr) % v
    ensures Rep(z, a, r, v)
  {
    hide *;
    ModMul2(x, a, rr, r * r, v);
    MulAssoc(a, r, r);
    ModCancel(z, a * r, r, g, v);
    RepDef(z, a, r, v);
  }

  /** Multiplying by 1 / R leaves it. */
  lemma RepLeave(z: int, x: int, a: int, r: int, g: int, v: int)
    requires 0 <= z < v && (r * g) % v == 1 % v && Rep(x, a, r, v) && (z * r) % v == (x * 1) % v
    ensures z == a % v
  {
    hide *;
    RepDef(x, a, r, v);
    ModCancel(z, a, r, g, v);
    ModSmall(z, v);
  }

  /** An odd modulus with its Montgomery constant, scratch space, and an inverse g of R. */
  ghost predicate Context(N: Mpi, mm: Limb, T: Mpi, g: int)
    reads N, T
  {
    && N != T && |N.p| >= 1 && Val(N.p) > 0
    && (N.p[0] * mm + 1) % B == 0
    && |T.p| >= 2 * (|N.p| + 1)
    && (BPow(|N.p|) * g) % Val(N.p) == 1 % Val(N.p)
  }

  /** X holds the reduced representative of a. */
  ghost predicate Holds(X: Mpi, N: Mpi, a: int)
    reads X, N
  {
    |X.p| >= |N.p| && 0 <= Val(X.p) < Val(N.p) && Rep(Val(X.p), a, BPow(|N.p|), Val(N.p))
  }

  /** R = B^n is invertible modulo an odd N. */
  lemma InverseOfR(p: seq<Limb>, mm: Limb) returns (g: int)
    requires |p| >= 1 && (p[0] * mm + 1) % B == 0 && Val(p) > 0
    ensures (BPow(|p|) * g) % Val(p) == 1 % Val(p)
  {
    hide Val, Pow;
    var v, n := Val(p), |p|;
    ValHead(p);
    var hi := Val(p[1..]);
    var k := (p[0] * mm + 1) / B;
    var c := k + hi * mm;
    assert B * c == 1 + mm * v by {
      MulCong(v, p[0] + B * hi, mm);
      MulDist(mm, p[0], B * hi);
      MulDist(B, k, hi * mm);
      MulAssoc(B, hi, mm);
      assert k * B == p[0] * mm + 1;
    }
    ModShift(B * c, 1, mm, v);
    ModPow(B * c, 1, n, v);
    PowMulBase(B, c, n);
    PowOne(n);
    g := Pow(c, n);
  }

  /** There is only one value below N whose product with R has a given residue. */
  lemma MontmulUnique(p: seq<Limb>, mm: Limb, x: int, y: int)
    requires |p| >= 1 && (p[0] * mm + 1) % B == 0 && 0 <= x < Val(p) && 0 <= y < Val(p)
    requires (x * BPow(|p|)) % Val(p) == (y * BPow(|p|)) % Val(p)
    ensures x == y
  {
    hide *;
    var g := InverseOfR(p, mm);
    ModCancel(x, y, BPow(|p|), g, Val(p));
    ModSmall(x, Val(p));
    ModSmall(y, Val(p));
  }

  lemma {:induction false} PowOne(n: nat)
    ensures Pow(1, n) == 1
  {
    if n > 0 { PowOne(n - 1); }
  }

  lemma ReadValue(p: seq<Limb>, n: nat)
    requires Val(p) < BPow(n)
    ensures Val(Read(p, n)) == Val(p)
  {
    hide Val, BPow, Pow;
    if |p| >= n {
      ValSmall(p, n);
    }
  }

  lemma HighZero(p: seq<Limb>, q: seq<Limb>, n: nat)
    requires n <= |p| == |q| && p[n..] == q[n..] && Val(p) < BPow(n)
    ensures Val(p[..n]) == Val(p) && Val(q) == Val(q[..n])
  {
    hide *;
    ValSmall(p, n);
    ValSplit(q, n);
  }

  /** One Montgomery product on values: X becomes the reduced quotient X*Y/R. */
  method Product(X: Mpi, Y: Mpi, N: Mpi, mm: Limb, T: Mpi, ghost g: int)
    requires Context(N, mm, T, g) && X != T && X != N && Y != T
    requires |X.p| >= |N.p| && |Y.p| >= 1 && Val(X.p) < BPow(|N.p|) && Val(Y.p) <= Val(N.p)
    modifies X`p, T`p
    ensures Context(N, mm, T, g) && |X.p| == old(|X.p|) && 0 <= Val(X.p) < Val(N.p)
    ensures (Val(X.p) * BPow(|N.p|)) % Val(N.p) == (old(Val(X.p)) * old(Val(Y.p))) % Val(N.p)
  {
    hide Val, BPow, Pow;
    ValBound(N.p);
    ReadValue(Y.p, |N.p|);
    ghost var x := X.p;
    Montmul(X, Y, N, mm, T);
    HighZero(x, X.p, |N.p|);
  }

  /** X = X * Y in the domain. */
  method MulRep(X: Mpi, Y: Mpi, N: Mpi, mm: Limb, T: Mpi, ghost g: int, ghost a: int, ghost b: int)
    requires Context(N, mm, T, g) && X != T && X != N && Y != T
    requires Holds(X, N, a) && Holds(Y, N, b)
    modifies X`p, T`p
    ensures Context(N, mm, T, g) && |X.p| == old(|X.p|) && Holds(X, N, a * b)
  {
    hide Val, BPow, Pow, Rep;
    ghost var x, y := Val(X.p), Val(Y.p);
    ValBound(N.p);
    Product(X, Y, N, mm, T, g);
    RepMul(Val(X.p), x, y, a, b, BPow(|N.p|), g, Val(N.p));
  }

  /** Leaves the domain: X = X / R. */
  method Montred(X: Mpi, N: Mpi, mm: Limb, T: Mpi, ghost g: int)
    requires Context(N, mm, T, g) && X != T && X != N
    requires |X.p| >= |N.p| && 0 <= Val(X.p) < Val(N.p)
    modifies X`p, T`p
    ensures Context(N, mm, T, g) && |X.p| == old(|X.p|) && 0 <= Val(X.p) < Val(N.p)
    ensures (Val(X.p) * BPow(|N.p|)) % Val(N.p) == (old(Val(X.p)) * 1) % Val(N.p)
  {
    hide BPow, Pow;
    var U := new Mpi();
    U.p := [1];
    ValSingle(1);
    ValBound(N.p);
    Product(X, U, N, mm, T, g);
  }

  // ---------------------------------------------------------------- table lookup

  /** X = Y if assign is 1, X otherwise, without a branch on assign. */
  method SafeCondAssign(X: Mpi, Y: Mpi, assign: Limb)
    requires X != Y && assign <= 1
    modifies X
    ensures |X.p| >= old(|X.p|) && |X.p| >= |Y.p|
    ensures Val(X.p) == if assign == 1 then Val(Y.p) else old(Val(X.p))
    ensures X.s == if assign == 1 then Y.s else old(X.s)
  {
    hide Val, BPow, Pow, BitAnd;
    Grow(X, |Y.p|);
    X.s := if assign == 1 then Y.s else X.s;
    var n := |Y.p|;
    ghost var x := X.p;
    CondAssign(n, X, Y, 0, assign);
    assert X.p[n..] == x[n..];
    var i, mask := n, SubWrap(0, assign);
    while i < |X.p|
      invariant n <= i <= |X.p| == |x| && X.s == if assign == 1 then Y.s else old(X.s)
      invariant X.p[..n] == (if assign == 1 then Y.p[0..n] else x[..n]) && X.p[i..] == x[i..]
      invariant forall k :: n <= k < i ==> X.p[k] == if assign == 1 then 0 else x[k]
    {
      assert X.p[i] == X.p[i..][0] == x[i];
      KeepMask(X.p[i]);
      ghost var q := X.p;
      X.p := X.p[i := BitAnd(X.p[i], B - 1 - mask)];
      assert X.p[..n] == q[..n] && X.p[i + 1..] == q[i..][1..];
      i := i + 1;
    }
    if assign == 1 {
      assert Y.p[0..n] == Y.p;
      ValTrim(X.p, n);
    } else {
      assert X.p == x;
    }
  }

  lemma KeepMask(x: Limb)
    ensures BitAnd(x, B - 1) == x && BitAnd(x, 0) == 0
  {
    BitAndMask(x, BIL);
  }

  /** R = W[idx], reading every entry. */
  method Select(R: Mpi, W: seq<Mpi>, idx: nat)
    requires idx < |W| && forall i :: 0 <= i < |W| ==> W[i] != R
    modifies R
    ensures Val(R.p) == Val(W[idx].p) && |R.p| >= |W[idx].p|
  {
    hide Val;
    var i := 0;
    while i < |W|
      invariant 0 <= i <= |W|
      invariant i > idx ==> Val(R.p) == Val(W[idx].p) && |R.p| >= |W[idx].p|
    {
      SafeCondAssign(R, W[i], if i == idx then 1 else 0);
      i := i + 1;
    }
  }

  // ---------------------------------------------------------------- exponent bits

  /** The exponent's bits from position pos up. */
  function Prefix(e: int, pos: nat): int
  {
    e / Pow2(pos)
  }

  /** Reading bit j of limb k extends the prefix by that bit. */
  lemma PrefixBit(p: seq<Limb>, k: nat, j: nat)
    requires k < |p| && j < BIL
    ensures Prefix(Val(p), BIL * k + j) == 2 * Prefix(Val(p), BIL * k + j + 1) + Bit(p[k], j)
    ensures Bit(p[k], j) == 0 || Bit(p[k], j) == 1
  {
    hide Val, Pow, BPow, Pow2;
    var e := Val(p);
    Pow2Limbs(k);
    Pow2Add(BIL * k, j);
    DivDiv(e, BPow(k), Pow2(j));
    ValDiv(p, k);
    ValTail(p, k);
    var t := Val(p[k + 1..]);
    LimbBit(p[k], t, j);
    var q := Prefix(e, BIL * k + j);
    Pow2One();
    Pow2Add(BIL * k + j, 1);
    DivDiv(e, Pow2(BIL * k + j), 2);
    assert q == 2 * (q / 2) + q % 2;
  }

  /** Limbs above do not change the parity of a shifted limb. */
  lemma LimbBit(x: Limb, t: int, j: nat)
    requires j < BIL
    ensures ((x + B * t) / Pow2(j)) % 2 == Bit(x, j)
  {
    hide Pow, Pow2;
    var f := Pow2(BIL - j - 1);
    Pow2Add(BIL - j - 1, 1);
    Pow2Add(BIL - j, j);
    Pow2One();
    Pow2IsB();
    var d := Pow2(j);
    DivMod(x, d);
    var q, r := x / d, x % d;
    EvenMultiple(f, d, t);
    MulDist(d, q, 2 * (f * t));
    DivUnique(x + B * t, d, q + 2 * (f * t), r);
    ModShift(q + 2 * (f * t), q, f * t, 2);
  }

  lemma EvenMultiple(f: int, d: int, t: int)
    requires B == 2 * f * d
    ensures B * t == 2 * (f * t) * d
  {
    hide *;
    MulCong(B, 2 * f * d, t);
    MulAssoc(2 * f, d, t);
    MulAssoc(2 * f, t, d);
    MulAssoc(2, f, t);
  }

  /** The scanner: 0 before the first one bit, 1 between windows, 2 inside a window. */
  datatype Scan = Scan(state: nat, nbits: nat, wbits: nat)

  /** The bits seen so far are h followed by the nbits bits w of the open window. */
  ghost predicate ScanInv(sc: Scan, wsize: nat, h: nat, w: nat, prefix: int)
  {
    && 1 <= wsize <= 6 && sc.nbits < wsize && w < Pow2(sc.nbits)
    && prefix == h * Pow2(sc.nbits) + w && sc.wbits == w * Pow2(wsize - sc.nbits)
    && (sc.state == 0 ==> sc.nbits == 0 && h == 0)
    && (sc.state == 1 ==> sc.nbits == 0)
    && (sc.state == 2 ==> sc.nbits >= 1 && w >= Pow2(sc.nbits - 1))
    && sc.state <= 2
  }

  /** A window that starts with a one bit only ever selects the upper half of the table. */
  lemma WindowIndex(sc: Scan, wsize: nat, h: nat, w: nat, prefix: int, ei: int)
    requires ScanInv(sc, wsize, h, w, prefix) && (ei == 0 || ei == 1) && (ei == 1 || sc.state == 2)
    ensures var nb := sc.nbits + 1; var w' := 2 * w + ei;
      && 2 * prefix + ei == h * Pow2(nb) + w' && w' < Pow2(nb) && w' >= Pow2(nb - 1)
      && BitOr(sc.wbits, ei * Pow2(wsize - nb)) == w' * Pow2(wsize - nb)
  {
    hide Pow, Pow2, BitOr;
    var nb := sc.nbits + 1;
    var k := wsize - nb;
    Pow2One();
    Pow2Add(sc.nbits, 1);
    MulAssoc(h, Pow2(sc.nbits), 2);
    if sc.nbits >= 1 {
      Pow2Add(sc.nbits - 1, 1);
    }
    PushBit(w, ei, k);
  }

  lemma PushBit(w: nat, ei: int, k: nat)
    requires ei == 0 || ei == 1
    ensures w * Pow2(k + 1) >= 0 && ei * Pow2(k) >= 0
    ensures BitOr(w * Pow2(k + 1), ei * Pow2(k)) == (2 * w + ei) * Pow2(k)
  {
    hide Pow, Pow2, BitOr;
    Pow2One();
    Pow2Add(k, 1);
    MulCong(Pow2(k + 1), 2 * Pow2(k), w);
    MulAssoc(w, 2, Pow2(k));
    MulDist(Pow2(k), 2 * w, ei);
    MulMono(0, ei, Pow2(k));
    MulMono(ei, 1, Pow2(k));
    MulMono(0, w, Pow2(k + 1));
    BitOrDisjoint(w, ei * Pow2(k), k + 1);
  }

  ghost predicate TableHolds(W: seq<Mpi>, wsize: nat, N: Mpi, a: int)
    requires |W| == Pow2(wsize) && 1 <= wsize
    reads N, set i | 0 <= i < |W| :: W[i]
  {
    forall j :: Pow2(wsize - 1) <= j < |W| || j == 1 ==> 0 <= j < |W| && Holds(W[j], N, Pow(a, j))
  }

  /** X = X^(2^k): k squarings. */
  method Squarings(X: Mpi, k: nat, N: Mpi, mm: Limb, T: Mpi, ghost g: int, ghost a: int, ghost h: nat)
    requires Context(N, mm, T, g) && X != T && X != N && Holds(X, N, Pow(a, h))
    modifies X`p, T`p
    ensures Context(N, mm, T, g) && |X.p| == old(|X.p|)
    ensures Holds(X, N, Pow(a, h * Pow2(k)))
  {
    hide *;
    Pow2One();
    ghost var f: nat := h;
    var i := 0;
    while i < k
      invariant 0 <= i <= k && f == h * Pow2(i)
      invariant Context(N, mm, T, g) && |X.p| == old(|X.p|) && Holds(X, N, Pow(a, f))
    {
      MulRep(X, X, N, mm, T, g, Pow(a, f), Pow(a, f));
      PowAdd(a, f, f);
      Pow2Add(i, 1);
      MulAssoc(h, Pow2(i), 2);
      f := 2 * f;
      i := i + 1;
    }
  }

  /** One bit of the exponent through the scanner. */
  method ScanBit(X: Mpi, WW: Mpi, W: seq<Mpi>, wsize: nat, N: Mpi, mm: Limb, T: Mpi, sc: Scan, ei: int,
                 ghost g: int, ghost a: int, ghost h: nat, ghost w: nat, ghost prefix: int)
    returns (sc': Scan, ghost h': nat, ghost w': nat)
    requires Context(N, mm, T, g) && X != T && X != N && WW != T && WW != N && WW != X
    requires 1 <= wsize && |W| == Pow2(wsize)
    requires forall j :: 0 <= j < |W| ==> W[j] != X && W[j] != T && W[j] != WW
    requires TableHolds(W, wsize, N, a)
    requires ScanInv(sc, wsize, h, w, prefix) && Holds(X, N, Pow(a, h)) && (ei == 0 || ei == 1)
    modifies X`p, T`p, WW
    ensures Context(N, mm, T, g) && |X.p| == old(|X.p|) && TableHolds(W, wsize, N, a)
    ensures ScanInv(sc', wsize, h', w', 2 * prefix + ei) && Holds(X, N, Pow(a, h'))
  {
    hide Val, Pow, BPow, Pow2, Rep, ScanInv, BitOr;
    ScanNext(sc, wsize, h, w, prefix, ei);
    if ei == 0 && sc.state == 0 {
      return sc, h, w;
    }
    if ei == 0 && sc.state == 1 {
      Squarings(X, 1, N, mm, T, g, a, h);
      Pow2One();
      return sc, 2 * h, w;
    }
    var nbits := sc.nbits + 1;
    var wbits := BitOr(sc.wbits, ei * Pow2(wsize - nbits));
    h', w' := h, 2 * w + ei;
    if nbits == wsize {
      CloseWindow(X, WW, W, wsize, N, mm, T, wbits, g, a, h);
      ShiftNonneg(h, wsize);
      h', w' := h * Pow2(wsize) + w', 0;
      sc' := Scan(1, 0, 0);
    } else {
      sc' := Scan(2, nbits, wbits);
    }
  }

  /** What each case of the scanner does to its invariant. */
  lemma ScanNext(sc: Scan, wsize: nat, h: nat, w: nat, prefix: int, ei: int)
    requires ScanInv(sc, wsize, h, w, prefix) && (ei == 0 || ei == 1)
    ensures sc.nbits < wsize && ei * Pow2(wsize - sc.nbits - 1) >= 0
    ensures var nb := sc.nbits + 1; var w' := 2 * w + ei;
      var wbits := BitOr(sc.wbits, ei * Pow2(wsize - nb));
      if ei == 0 && sc.state == 0 then ScanInv(sc, wsize, h, w, 2 * prefix + ei)
      else if ei == 0 && sc.state == 1 then ScanInv(sc, wsize, 2 * h, w, 2 * prefix + ei)
      else if nb < wsize then ScanInv(Scan(2, nb, wbits), wsize, h, w', 2 * prefix + ei)
      else wbits == w' && Pow2(wsize - 1) <= w' < Pow2(wsize) && h * Pow2(wsize) >= 0
           && ScanInv(Scan(1, 0, 0), wsize, h * Pow2(wsize) + w', 0, 2 * prefix + ei)
  {
    hide Pow, Pow2, BitOr;
    Pow2One();
    MulMono(0, ei, Pow2(wsize - sc.nbits - 1));
    ShiftNonneg(h, wsize);
    if ei == 1 || sc.state == 2 {
      WindowIndex(sc, wsize, h, w, prefix, ei);
    }
  }

  /** X = X^(2^wsize) * W[wbits]. */
  method CloseWindow(X: Mpi, WW: Mpi, W: seq<Mpi>, wsize: nat, N: Mpi, mm: Limb, T: Mpi, wbits: nat,
                     ghost g: int, ghost a: int, ghost h: nat)
    requires Context(N, mm, T, g) && X != T && X != N && WW != T && WW != N && WW != X
    requires 1 <= wsize && |W| == Pow2(wsize) && Pow2(wsize - 1) <= wbits < |W|
    requires forall j :: 0 <= j < |W| ==> W[j] != X && W[j] != T && W[j] != WW
    requires TableHolds(W, wsize, N, a) && Holds(X, N, Pow(a, h))
    modifies X`p, T`p, WW
    ensures Context(N, mm, T, g) && |X.p| == old(|X.p|)
    ensures h * Pow2(wsize) >= 0 && Holds(X, N, Pow(a, h * Pow2(wsize) + wbits))
  {
    hide Val, Pow, BPow, Pow2, Rep;
    ShiftNonneg(h, wsize);
    assert Holds(W[wbits], N, Pow(a, wbits));
    Squarings(X, wsize, N, mm, T, g, a, h);
    Select(WW, W, wbits);
    assert Holds(WW, N, Pow(a, wbits));
    MulRep(X, WW, N, mm, T, g, Pow(a, h * Pow2(wsize)), Pow(a, wbits));
    PowAdd(a, h * Pow2(wsize), wbits);
  }

  lemma ShiftNonneg(h: nat, k: nat)
    ensures h * Pow2(k) >= 0
  {
    MulMono(0, h, Pow2(k));
  }

  /** Scans all bits of E, from the most significant limb down. */
  method ScanAll(X: Mpi, WW: Mpi, W: seq<Mpi>, wsize: nat, E: Mpi, N: Mpi, mm: Limb, T: Mpi,
                 ghost g: int, ghost a: int)
    returns (sc: Scan, ghost h: nat, ghost w: nat)
    requires Context(N, mm, T, g) && X != T && X != N && WW != T && WW != N && WW != X
    requires E != X && E != T && E != WW
    requires 1 <= wsize <= 6 && |W| == Pow2(wsize)
    requires forall j :: 0 <= j < |W| ==> W[j] != X && W[j] != T && W[j] != WW
    requires TableHolds(W, wsize, N, a) && Holds(X, N, Pow(a, 0))
    modifies X`p, T`p, WW
    ensures Context(N, mm, T, g) && |X.p| == old(|X.p|)
    ensures ScanInv(sc, wsize, h, w, Val(E.p)) && Holds(X, N, Pow(a, h))
  {
    hide *;
    var nblimbs, bufsize := |E.p|, 0;
    sc, h, w := Scan(0, 0, 0), 0, 0;
    PrefixStart(E.p, wsize);
    while true
      invariant 0 <= nblimbs <= |E.p| && 0 <= bufsize <= BIL && (nblimbs == |E.p| ==> bufsize == 0)
      invariant Context(N, mm, T, g) && |X.p| == old(|X.p|) && Holds(X, N, Pow(a, h))
      invariant TableHolds(W, wsize, N, a)
      invariant ScanInv(sc, wsize, h, w, Prefix(Val(E.p), BIL * nblimbs + bufsize))
      decreases nblimbs, bufsize
    {
      if bufsize == 0 {
        if nblimbs == 0 {
          break;
        }
        nblimbs := nblimbs - 1;
        bufsize := BIL;
        MulDist(BIL, nblimbs, 1);
      }
      bufsize := bufsize - 1;
      var ei := Bit(E.p[nblimbs], bufsize);
      PrefixBit(E.p, nblimbs, bufsize);
      sc, h, w := ScanBit(X, WW, W, wsize, N, mm, T, sc, ei, g, a, h, w,
                          Prefix(Val(E.p), BIL * nblimbs + bufsize + 1));
    }
    PrefixEnd(Val(E.p));
  }

  lemma PrefixStart(p: seq<Limb>, wsize: nat)
    requires 1 <= wsize <= 6
    ensures ScanInv(Scan(0, 0, 0), wsize, 0, 0, Prefix(Val(p), BIL * |p| + 0))
  {
    hide *;
    PrefixAbove(p);
    ScanFresh(wsize);
  }

  lemma PrefixAbove(p: seq<Limb>)
    ensures Prefix(Val(p), BIL * |p| + 0) == 0
  {
    hide Val, BPow, Pow, Pow2;
    Pow2Limbs(|p|);
    ValBound(p);
    DivUnique(Val(p), Pow2(BIL * |p|), 0, Val(p));
  }

  lemma ScanFresh(wsize: nat)
    requires 1 <= wsize <= 6
    ensures ScanInv(Scan(0, 0, 0), wsize, 0, 0, 0)
  {
    Pow2One();
  }

  lemma PrefixEnd(e: int)
    ensures Prefix(e, BIL * 0 + 0) == e
  {
    Pow2One();
  }

  /** The bits of an unfinished window, one at a time. */
  method Leftover(X: Mpi, W1: Mpi, wsize: nat, sc: Scan, N: Mpi, mm: Limb, T: Mpi,
                  ghost g: int, ghost a: int, ghost h: nat, ghost w: nat, ghost e: int)
    requires Context(N, mm, T, g) && X != T && X != N && W1 != T && W1 != X
    requires ScanInv(sc, wsize, h, w, e) && e >= 0 && Holds(X, N, Pow(a, h)) && Holds(W1, N, Pow(a, 1))
    modifies X`p, T`p
    ensures Context(N, mm, T, g) && |X.p| == old(|X.p|) && Holds(X, N, Pow(a, e))
  {
    hide Val, Pow, BPow, Rep, Pow2, Bit, LeftoverExponent;
    var wbits := sc.wbits;
    ghost var f: nat := h;
    var i := 0;
    LeftoverStart(h, w, sc.nbits);
    while i < sc.nbits
      invariant 0 <= i <= sc.nbits && f == LeftoverExponent(h, w, sc.nbits, i)
      invariant wbits == w * Pow2(wsize - sc.nbits + i)
      invariant Context(N, mm, T, g) && |X.p| == old(|X.p|) && Holds(X, N, Pow(a, f))
      invariant Holds(W1, N, Pow(a, 1))
    {
      DoubledWindow(w, wsize - sc.nbits + i);
      wbits := 2 * wbits;
      LeftoverStep(h, w, wsize, sc.nbits, i);
      var bit := Bit(wbits, wsize);
      LeftoverBit(X, W1, bit, N, mm, T, g, a, f);
      f := 2 * f + bit;
      i := i + 1;
    }
    LeftoverEnd(h, w, sc.nbits);
  }

  lemma DoubledWindow(w: int, k: nat)
    ensures w * Pow2(k + 1) == 2 * (w * Pow2(k))
  {
    hide *;
    Pow2Succ(k);
    MulCong(Pow2(k + 1), 2 * Pow2(k), w);
    MulAssoc(w, 2, Pow2(k));
    MulAssoc(2, w, Pow2(k));
  }

  /** One of those bits: a squaring, and a multiplication when it is set. */
  method LeftoverBit(X: Mpi, W1: Mpi, bit: int, N: Mpi, mm: Limb, T: Mpi, ghost g: int, ghost a: int, ghost f: nat)
    requires Context(N, mm, T, g) && X != T && X != N && W1 != T && W1 != X && 0 <= bit <= 1
    requires Holds(X, N, Pow(a, f)) && Holds(W1, N, Pow(a, 1))
    modifies X`p, T`p
    ensures Context(N, mm, T, g) && |X.p| == old(|X.p|) && Holds(X, N, Pow(a, 2 * f + bit))
  {
    hide Val, Pow, BPow, Rep, Pow2;
    Pow2One();
    Squarings(X, 1, N, mm, T, g, a, f);
    if bit != 0 {
      MulRep(X, W1, N, mm, T, g, Pow(a, 2 * f), Pow(a, 1));
      PowAdd(a, 2 * f, 1);
    }
  }

  /** The exponent after i of the nb leftover bits. */
  function LeftoverExponent(h: nat, w: nat, nb: nat, i: nat): int
    requires i <= nb
  {
    h * Pow2(i) + w / Pow2(nb - i)
  }

  lemma LeftoverStart(h: nat, w: nat, nb: nat)
    requires w < Pow2(nb)
    ensures LeftoverExponent(h, w, nb, 0) == h
  {
    hide Pow;
    Pow2One();
    DivUnique(w, Pow2(nb), 0, w);
  }

  lemma LeftoverEnd(h: nat, w: nat, nb: nat)
    ensures LeftoverExponent(h, w, nb, nb) == h * Pow2(nb) + w
  {
    hide Pow;
    Pow2One();
  }

  lemma LeftoverStep(h: nat, w: nat, wsize: nat, nb: nat, i: nat)
    requires i < nb < wsize
    ensures LeftoverExponent(h, w, nb, i + 1)
         == 2 * LeftoverExponent(h, w, nb, i) + Bit(w * Pow2(wsize - nb + i + 1), wsize)
    ensures Bit(w * Pow2(wsize - nb + i + 1), wsize) in {0, 1}
  {
    hide Pow, Pow2;
    var q := nb - i - 1;
    var u := w / Pow2(q);
    Pow2One();
    Pow2Add(i, 1);
    MulAssoc(h, Pow2(i), 2);
    Pow2Add(q, 1);
    DivDiv(w, Pow2(q), 2);
    assert u == 2 * (u / 2) + u % 2;
    var p := wsize - nb + i + 1;
    Pow2Add(q, p);
    ShiftedQuotient(w, q, p);
  }

  lemma ShiftedQuotient(w: nat, q: nat, p: nat)
    ensures (w * Pow2(p)) / Pow2(q + p) == w / Pow2(q)
  {
    hide Pow, Pow2;
    Pow2Add(q, p);
    var d, e := Pow2(q), Pow2(p);
    DivMod(w, d);
    var u, r := w / d, w % d;
    MulCong(w, u * d + r, e);
    MulDist(e, u * d, r);
    MulAssoc(u, d, e);
    MulCong(Pow2(q + p), d * e, u);
    MulStrict(r, d, e);
    MulMono(0, r, e);
    DivUnique(w * e, Pow2(q + p), u, r * e);
  }

  // ---------------------------------------------------------------- the whole exponentiation

  function WindowSize(bits: nat): (w: nat)
    ensures 1 <= w <= WINDOW_SIZE
  {
    if bits > 671 then 6 else if bits > 239 then 5 else if bits > 79 then 4 else if bits > 23 then 3 else 1
  }

  method CopyEntry(D: Mpi, S: Mpi, N: Mpi, ghost a: int)
    requires D != S && D != N && Holds(S, N, a)
    modifies D
    ensures Holds(D, N, a)
  {
    hide Val, Pow, BPow, Rep;
    Grow(D, |N.p| + 1);
    Copy(D, S);
  }

  /** The entry for one more than h. */
  method NextEntry(D: Mpi, S: Mpi, One: Mpi, N: Mpi, mm: Limb, T: Mpi, ghost g: int, ghost a: int, ghost h: nat)
    requires Context(N, mm, T, g) && D != S && D != One && D != N && D != T && One != T
    requires Holds(S, N, Pow(a, h)) && Holds(One, N, Pow(a, 1))
    modifies D, T`p
    ensures Context(N, mm, T, g) && Holds(D, N, Pow(a, h + 1))
  {
    hide Val, Pow, BPow, Pow2, Rep;
    CopyEntry(D, S, N, Pow(a, h));
    MulRep(D, One, N, mm, T, g, Pow(a, h), Pow(a, 1));
    PowAdd(a, h, 1);
  }

  /** Fills the upper half of the table from W[1]. */
  method BuildTable(W: seq<Mpi>, wsize: nat, N: Mpi, mm: Limb, T: Mpi, ghost g: int, ghost a: int)
    requires N != T && Context(N, mm, T, g) && 1 <= wsize && |W| == Pow2(wsize) && |W| >= 2
    requires forall j :: 0 <= j < |W| ==> W[j] != T && W[j] != N
    requires forall j, k :: 0 <= j < k < |W| ==> W[j] != W[k]
    requires Holds(W[1], N, Pow(a, 1))
    modifies T`p, set j | 0 <= j < |W| :: W[j]
    ensures Context(N, mm, T, g) && TableHolds(W, wsize, N, a)
  {
    hide Val, Pow, BPow, Pow2, Rep, Context;
    Pow2One();
    if wsize == 1 {
      return;
    }
    Pow2Add(wsize - 1, 1);
    var j := Pow2(wsize - 1);
    HalfIsLarge(wsize);
    CopyEntry(W[j], W[1], N, Pow(a, 1));
    Squarings(W[j], wsize - 1, N, mm, T, g, a, 1);
    var i := j + 1;
    while i < |W|
      invariant j + 1 <= i <= |W| && Context(N, mm, T, g) && Holds(W[1], N, Pow(a, 1))
      invariant forall k :: j <= k < i ==> Holds(W[k], N, Pow(a, k))
    {
      NextEntry(W[i], W[i - 1], W[1], N, mm, T, g, a, i - 1);
      i := i + 1;
    }
  }

  lemma HalfIsLarge(wsize: nat)
    requires wsize >= 2
    ensures Pow2(wsize - 1) >= 2
  {
    PowMono(2, 1, wsize - 1);
  }

  /** 2^wsize empty numbers. */
  method NewTable(n: nat) returns (W: seq<Mpi>)
    ensures |W| == n && forall j :: 0 <= j < n ==> fresh(W[j]) && W[j].p == []
    ensures forall j, k :: 0 <= j < k < n ==> W[j] != W[k]
  {
    W := [];
    while |W| < n
      invariant |W| <= n && forall j :: 0 <= j < |W| ==> fresh(W[j]) && W[j].p == []
      invariant forall j, k :: 0 <= j < k < |W| ==> W[j] != W[k]
    {
      var M := new Mpi();
      W := W + [M];
    }
  }

  /** R^2 mod N, from the cache when it is filled, and into the cache otherwise. */
  method ComputeRR(N: Mpi, prec: Mpi?) returns (RR: Mpi)
    requires |N.p| >= 1 && N.Value() > 0 && prec != N
    requires prec != null && |prec.p| > 0 ==> CachesRR(prec, N)
    modifies prec
    ensures fresh(RR) && CachesRR(RR, N)
    ensures prec != null ==> CachesRR(prec, N)
  {
    hide Val, Pow, BPow, Pow2;
    RR := new Mpi();
    if prec == null || |prec.p| == 0 {
      Lset(RR, 1);
      ShiftL(RR, |N.p| * 2 * BIL);
      var _ := ModMpi(RR, RR, N);
      SquareOfR(|N.p|);
      if prec != null {
        prec.s, prec.p := RR.s, RR.p;
      }
    } else {
      RR.s, RR.p := prec.s, prec.p;
    }
  }

  /** M is a usable R^2 mod N. */
  ghost predicate CachesRR(M: Mpi, N: Mpi)
    reads M, N
  {
    |M.p| > 0 && M.Value() >= 0 && Val(N.p) > 0 && Val(M.p) == Pow2(|N.p| * 2 * BIL) % Val(N.p)
  }

  lemma SquareOfR(n: nat)
    ensures Pow2(n * 2 * BIL) == BPow(n) * BPow(n)
  {
    hide *;
    Pow2Limbs(n);
    Pow2Add(BIL * n, BIL * n);
    assert n * 2 * BIL == BIL * n + BIL * n;
  }

  /** M = A*R mod N: reduces A first when it is not below N. */
  method EnterDomain(M: Mpi, A: Mpi, RR: Mpi, N: Mpi, mm: Limb, T: Mpi, ghost g: int)
    requires Context(N, mm, T, g) && M != T && M != N && M != A && RR != T && A != T
    requires N.s == 1 && A.s == 1 && |M.p| >= |N.p|
    requires |RR.p| >= 1 && Val(RR.p) == (BPow(|N.p|) * BPow(|N.p|)) % Val(N.p)
    requires M != RR
    modifies M, T`p
    ensures Context(N, mm, T, g) && Holds(M, N, Val(A.p))
  {
    hide Val, Pow, BPow, Rep;
    ghost var v, r, a := Val(N.p), BPow(|N.p|), Val(A.p);
    ValBound(N.p);
    ModMod(a, v);
    var c := CmpMpi(A, N);
    if c >= 0 {
      var _ := ModMpi(M, A, N);
      Grow(M, |N.p| + 1);
    } else {
      Copy(M, A);
    }
    NonnegAbs(M);
    ghost var m := Val(M.p);
    assert m % v == a % v;
    ModMod(r * r, v);
    Product(M, RR, N, mm, T, g);
    RepEnter(Val(M.p), m, a, (r * r) % v, r, g, v);
  }

  /** X = a^e mod N for a nonnegative base a. */
  method ExpCore(X: Mpi, A: Mpi, E: Mpi, N: Mpi, prec: Mpi?, wsize: nat, mm: Limb)
    requires X != E && X != N && prec != N && prec != X && prec != A && prec != E
    requires N.s == 1 && A.s == 1 && |N.p| >= 1 && Val(N.p) > 0 && (N.p[0] * mm + 1) % B == 0
    requires prec != null && |prec.p| > 0 ==> CachesRR(prec, N)
    requires 1 <= wsize <= 6
    modifies X, prec
    ensures X.Value() == Val(X.p) == Pow(old(Val(A.p)), Val(E.p)) % Val(N.p)
    ensures prec != null ==> CachesRR(prec, N)
  {
    hide Val, Pow, BPow, Rep, Pow2;
    ghost var a := Val(A.p);
    ghost var g := InverseOfR(N.p, mm);
    TableSize(wsize);
    var W := NewTable(Pow2(wsize));
    var T := new Mpi();
    var WW := new Mpi();
    Grow(X, |N.p| + 1);
    Grow(W[1], |N.p| + 1);
    Grow(T, 2 * (|N.p| + 1));
    var RR := ComputeRR(N, prec);
    Enter(X, W[1], A, RR, N, mm, T, g);
    ExpRun(X, WW, W, wsize, E, N, mm, T, g, a);
  }

  /** The representatives of a and of 1. */
  method Enter(X: Mpi, M: Mpi, A: Mpi, RR: Mpi, N: Mpi, mm: Limb, T: Mpi, ghost g: int)
    requires Context(N, mm, T, g) && CachesRR(RR, N) && N.s == 1 && A.s == 1 && |X.p| >= |N.p| && |M.p| >= |N.p|
    requires X != M && X != T && X != N && X != RR && M != T && M != N && M != A && M != RR && RR != T && A != T
    modifies X, M, T`p
    ensures Context(N, mm, T, g) && Holds(M, N, old(Val(A.p))) && Holds(X, N, 1) && (X.s == 1 || Val(N.p) == 1)
  {
    hide Val, Pow, BPow, Rep, Pow2;
    SquareOfR(|N.p|);
    NonnegAbs(RR);
    EnterDomain(M, A, RR, N, mm, T, g);
    EnterOne(X, RR, N, mm, T, g);
  }

  /** From the representatives of 1 and a to a^e mod N. */
  method ExpRun(X: Mpi, WW: Mpi, W: seq<Mpi>, wsize: nat, E: Mpi, N: Mpi, mm: Limb, T: Mpi,
                ghost g: int, ghost a: int)
    requires Context(N, mm, T, g) && N != T && X != T && X != N && WW != T && WW != N && WW != X
    requires E != X && E != T && E != WW && 1 <= wsize <= 6 && |W| == Pow2(wsize) && |W| >= 2
    requires forall j :: 0 <= j < |W| ==> W[j] != X && W[j] != T && W[j] != WW && W[j] != N && W[j] != E
    requires forall j, k :: 0 <= j < k < |W| ==> W[j] != W[k]
    requires Holds(X, N, 1) && Holds(W[1], N, a)
    modifies X`p, T`p, WW, set j | 0 <= j < |W| :: W[j]
    ensures Val(X.p) == Pow(a, Val(E.p)) % Val(N.p)
  {
    hide Val, Pow, BPow, Rep, Pow2, ScanInv;
    ghost var v, e := Val(N.p), Val(E.p);
    PowFirst(a);
    BuildTable(W, wsize, N, mm, T, g, a);
    var sc, h, w := ScanAll(X, WW, W, wsize, E, N, mm, T, g, a);
    assert Holds(W[1], N, Pow(a, 1));
    Leftover(X, W[1], wsize, sc, N, mm, T, g, a, h, w, e);
    ghost var x := Val(X.p);
    Montred(X, N, mm, T, g);
    RepLeave(Val(X.p), x, Pow(a, e), BPow(|N.p|), g, v);
  }

  lemma TableSize(wsize: nat)
    requires 1 <= wsize
    ensures Pow2(wsize) >= 2
  {
    PowMono(2, 1, wsize);
  }

  lemma PowFirst(a: int)
    ensures Pow(a, 0) == 1 && Pow(a, 1) == a
  {
    assert Pow(a, 1) == a * Pow(a, 0);
  }

  /** X = R mod N, the representative of 1. */
  method EnterOne(X: Mpi, RR: Mpi, N: Mpi, mm: Limb, T: Mpi, ghost g: int)
    requires Context(N, mm, T, g) && X != T && X != N && X != RR && |X.p| >= |N.p|
    requires |RR.p| >= 1 && RR.Value() >= 0
    requires Val(RR.p) == (BPow(|N.p|) * BPow(|N.p|)) % Val(N.p)
    modifies X, T`p
    ensures Context(N, mm, T, g) && Holds(X, N, 1) && (X.s == 1 || Val(N.p) == 1)
  {
    hide Val, Pow, BPow, Rep;
    ghost var v, r := Val(N.p), BPow(|N.p|);
    ModMod(r * r, v);
    Copy(X, RR);
    ghost var x := Val(X.p);
    Montred(X, N, mm, T, g);
    RepEnter(Val(X.p), 1, 1, x, r, g, v);
    if X.s != 1 {
      ZeroSquare(r, g, v);
    }
  }

  /** R is invertible, so R^2 is 0 modulo N only for N == 1. */
  lemma ZeroSquare(r: int, g: int, v: int)
    requires v > 0 && (r * g) % v == 1 % v && (r * r) % v == 0
    ensures v == 1
  {
    hide *;
    ModSmall(0, v);
    ModCancel(r, 0, r, g, v);
    ModMul(r, 0, g, v);
    if v > 1 {
      ModSmall(1, v);
    }
  }

  /** Arguments the exponentiation refuses. */
  predicate Refused(e: int, n: int)
  {
    n <= 0 || n % 2 == 0 || e < 0 || e >= Pow2(8192) || n >= Pow2(8192)
  }

  method CheckArguments(E: Mpi, N: Mpi) returns (bad: bool, be: nat)
    ensures bad == Refused(E.Value(), N.Value())
    ensures !bad ==> N.s == 1 && |N.p| > 0 && N.p[0] % 2 == 1 && Val(N.p) > 0
    ensures !bad ==> E.Value() == Val(E.p)
  {
    hide Val, Pow, BPow, Pow2;
    var c := CmpInt(N, 0);
    if c <= 0 {
      return true, 0;
    }
    NonemptyLimbs(N.p);
    Parity(N.p);
    if N.p[0] % 2 == 0 {
      return true, 0;
    }
    c := CmpInt(E, 0);
    if c < 0 {
      return true, 0;
    }
    NonnegAbs(E);
    be := Bitlen(E);
    var bn := Bitlen(N);
    BitlenLimit(E.Value(), be);
    BitlenLimit(N.Value(), bn);
    bad := be > MAX_BITS || bn > MAX_BITS;
  }

  /** |a|^e mod n, taken from n when the base is negative and the exponent odd. */
  function ExpResult(a: int, neg: bool, e: nat, n: int): int
    requires n > 0
  {
    var r := Pow(AbsInt(a), e) % n;
    if neg && e % 2 == 1 then n - r else r
  }

  /** X = A^E mod N. X may be A; `prec` caches R^2 mod N between calls with the same N.
      The caller must not hand in a cache filled for another modulus. */
  method ExpModMpi(X: Mpi, A: Mpi, E: Mpi, N: Mpi, prec: Mpi?) returns (ret: Ret)
    requires X != E && X != N && prec != N && prec != X && prec != A && prec != E
    requires prec != null && |prec.p| > 0 && N.Value() > 0 ==> CachesRR(prec, N)
    modifies X, prec
    ensures ret == if Refused(E.Value(), N.Value()) then BadInputData else Ok
    ensures ret == Ok ==> X.Value() == ExpResult(old(A.Value()), old(A.s) == -1, E.Value(), N.Value())
    ensures prec != null && ret == Ok ==> CachesRR(prec, N)
    ensures prec != null && ret != Ok ==> prec.p == old(prec.p) && prec.s == old(prec.s)
    ensures ret != Ok ==> X.p == old(X.p) && X.s == old(X.s)
  {
    hide Val, Pow, BPow, Pow2, CachesRR, Refused;
    var bad, be := CheckArguments(E, N);
    if bad {
      return BadInputData;
    }
    var mm := MontgInit(N.p[0]);
    var neg := A.s == -1;
    var P := A;
    if neg {
      P := new Mpi();
      Copy(P, A);
      P.s := 1;
    }
    ExpCore(X, P, E, N, prec, WindowSize(be), mm);
    FixSign(X, E, N, neg);
    ret := Ok;
  }

  /** N - X for a negative base with an odd exponent. */
  method FixSign(X: Mpi, E: Mpi, N: Mpi, neg: bool)
    requires X != E && X != N && X.Value() == Val(X.p) && E.Value() == Val(E.p)
    modifies X
    ensures X.Value() == if neg && E.Value() % 2 == 1 then N.Value() - old(X.Value()) else old(X.Value())
  {
    hide Val;
    if |E.p| > 0 {
      Parity(E.p);
    } else {
      ValAllZero(E.p);
    }
    if neg && |E.p| != 0 && E.p[0] % 2 != 0 {
      X.s := -1;
      AddMpi(X, N, X);
    }
  }

  lemma BitlenLimit(v: int, b: nat)
    requires v >= 0 && IsBitlen(v, b)
    ensures b > MAX_BITS <==> v >= Pow2(MAX_BITS)
  {
    hide Pow, Pow2;
    if b > MAX_BITS {
      PowMono(2, MAX_BITS, b - 1);
    } else {
      PowMono(2, b, MAX_BITS);
      if b == 0 { PowMono(2, 0, MAX_BITS); }
    }
  }

  /** The result is congruent to A^E; it is the reduced residue except when a negative base
      with an odd exponent has a power divisible by N, which yields N itself. */
  lemma ExpMeaning(a: int, neg: bool, e: nat, n: int)
    requires n > 0 && (neg ==> a <= 0) && (!neg ==> a >= 0)
    ensures 0 <= ExpResult(a, neg, e, n) <= n
    ensures ExpResult(a, neg, e, n) % n == Pow(a, e) % n
    ensures ExpResult(a, neg, e, n) == Pow(a, e) % n
       <==> !(neg && e % 2 == 1 && Pow(AbsInt(a), e) % n == 0)
  {
    hide Pow;
    var m := AbsInt(a);
    var r := Pow(m, e) % n;
    ModMod(Pow(m, e), n);
    if neg {
      PowNeg(m, e);
      if e % 2 == 1 {
        ModShift(n - r, 0 - Pow(m, e), Pow(m, e) / n + 1, n) by {
          MulDist(n, Pow(m, e) / n, 1);
        }
        if r == 0 {
          DivUnique(n, n, 1, 0);
        } else {
          ModSmall(n - r, n);
        }
      }
    }
  }

  /** A base without a common factor always gives the reduced residue. */
  lemma CoprimeBase(a: int, neg: bool, e: nat, n: int)
    requires n > 1 && IsGcd(1, AbsInt(a), n) && (neg ==> a <= 0) && (!neg ==> a >= 0)
    ensures ExpResult(a, neg, e, n) == Pow(a, e) % n
  {
    hide IsGcd, Pow, ExpResult;
    CoprimePower(AbsInt(a), e, n);
    ExpMeaning(a, neg, e, n);
  }

  lemma CoprimePower(m: nat, e: nat, n: int)
    requires n > 1 && IsGcd(1, m, n)
    ensures Pow(m, e) % n != 0
  {
    hide *;
    var x, y := Bezout(m, n);
    NegMul(y, n);
    ModShift(m * x, 1, 0 - y, n);
    ModPow(m * x, 1, e, n);
    PowMulBase(m, x, e);
    PowOne(e);
    ModSmall(1, n);
    ModSmall(0, n);
    if Pow(m, e) % n == 0 {
      ModMul(Pow(m, e), 0, Pow(x, e), n);
    }
  }

  /** A negative multiple of the modulus to an odd power gives the modulus. */
  lemma MultipleBase(a: int, e: nat, n: int)
    requires n > 0 && Divides(n, a) && a < 0 && e % 2 == 1
    ensures ExpResult(a, true, e, n) == n
  {
    hide Pow;
    var k := DividesQuotient(n, a);
    NegMul(k, n);
    var m := AbsInt(a);
    PowSucc(m, e - 1);
    MulCong(m, (0 - k) * n, Pow(m, e - 1));
    MulAssoc(Pow(m, e - 1), 0 - k, n);
    DividesWitness(n, Pow(m, e), Pow(m, e - 1) * (0 - k));
  }

  /** (-3)^1 modulo 3 comes out as 3. */
  method WholeModulus() returns (X: Mpi)
    ensures X.Value() == 3
  {
    hide Val, Pow, Pow2, ExpResult;
    X := new Mpi();
    var A := new Mpi();
    var E := new Mpi();
    var N := new Mpi();
    Lset(A, -3);
    Lset(E, 1);
    Lset(N, 3);
    PowMono(2, 2, MAX_BITS);
    PowSucc(2, 1);
    PowFirst(2);
    MultipleBase(-3, 1, 3);
    var _ := ExpModMpi(X, A, E, N, null);
  }

  lemma {:induction false} PowNeg(m: int, e: nat)
    ensures Pow(0 - m, e) == if e % 2 == 1 then 0 - Pow(m, e) else Pow(m, e)
  {
    if e > 0 {
      PowNeg(m, e - 1);
      NegMul(m, Pow(0 - m, e - 1));
      NegMul(Pow(m, e - 1), m);
    }
  }
}
