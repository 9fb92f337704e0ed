/**
 Limbs: the digits of a multi-precision integer, least significant first, in base 2^biL.
 The limb width is left open between the two widths the library supports.
 */
module Limbs {
  import opened Arith

  type Width = w: nat | w == 32 || w == 64 witness 64

  /** Bits in a limb (biL); any width the library can be built for. */
  const BIL: Width

  type Base = b: nat | b >= 65536 && b % 16 == 0 witness 65536

  lemma RadixFacts(w: Width)
    ensures Pow(2, w) >= 65536 && Pow(2, w) % 16 == 0
  {
    hide *;
    Pow16();
    PowAdd(2, 16, w - 16);
    PowPos(2, w - 16);
    var p := Pow(2, w - 16);
    assert 65536 * p == 16 * (4096 * p);
  }

  lemma Pow16()
    ensures Pow(2, 8) == 256 && Pow(2, 16) == 65536
  {
    assert Pow(2, 4) == 16;
    PowAdd(2, 4, 4);
    PowAdd(2, 8, 8);
  }

  /** The base 2^biL. */
  const B: Base := (RadixFacts(BIL); Pow(2, BIL))

  type HalfBase = h: nat | h >= 256 && h % 2 == 0 witness 256

  lemma HalfFacts(w: Width)
    ensures Pow(2, w / 2) >= 256 && Pow(2, w / 2) % 2 == 0
  {
    hide *;
    Pow16();
    PowMono(2, 8, w / 2);
    PowSucc(2, w / 2 - 1);
    ModShift(Pow(2, w / 2), 0, Pow(2, w / 2 - 1), 2);
  }

  /** The half-limb radix 2^biH. */
  const H: HalfBase := (HalfFacts(BIL); Pow(2, BIL / 2))

  lemma HalfSquare()
    ensures H * H == B
  {
    PowAdd(2, BIL / 2, BIL / 2);
    assert BIL / 2 + BIL / 2 == BIL;
  }

  type Limb = x: nat | x < B witness 0

  // ---------------------------------------------------------------- the value of a limb sequence

  function Val(p: seq<Limb>): (v: int)
    ensures v >= 0
  {
    if p == [] then 0 else p[0] + B * Val(p[1..])
  }

  /** B^n. */
  function BPow(n: nat): (r: int)
    ensures r == Pow(B, n) && r >= 1
  {
    PowPos(B, n);
    Pow(B, n)
  }

  lemma BPowAdd(m: nat, n: nat)
    ensures BPow(m + n) == BPow(m) * BPow(n)
  {
    hide *;
    PowAdd(B, m, n);
  }

  lemma BPowSucc(n: nat)
    ensures BPow(n + 1) == B * BPow(n)
  {
  }

  lemma BPowMono(m: nat, n: nat)
    requires m <= n
    ensures BPow(m) <= BPow(n)
  {
    hide *;
    PowMono(B, m, n);
  }

  lemma {:induction false} ValConcat(a: seq<Limb>, b: seq<Limb>)
    ensures Val(a + b) == Val(a) + BPow(|a|) * Val(b)
  {
    if a == [] {
      assert a + b == b;
    } else {
      assert (a + b)[1..] == a[1..] + b;
      ValConcat(a[1..], b);
      BPowSucc(|a| - 1);
      var x, y, z := Val(a[1..]), BPow(|a| - 1), Val(b);
      MulCong(Val(a[1..] + b), x + y * z, B);
      MulDist(B, x, y * z);
      MulAssoc(B, y, z);
      MulCong(B * y, BPow(|a|), z);
    }
  }

  lemma ValSplit(p: seq<Limb>, i: nat)
    requires i <= |p|
    ensures Val(p) == Val(p[..i]) + BPow(i) * Val(p[i..])
  {
    hide *;
    assert p == p[..i] + p[i..];
    ValConcat(p[..i], p[i..]);
  }

  lemma ValSingle(v: Limb)
    ensures Val([v]) == v
  {
    assert [v][1..] == [];
  }

  /** One more limb at the significant end. */
  lemma ValPush(p: seq<Limb>, i: nat)
    requires i < |p|
    ensures Val(p[..i + 1]) == Val(p[..i]) + p[i] * BPow(i)
  {
    hide *;
    assert p[..i + 1] == p[..i] + [p[i]];
    ValConcat(p[..i], [p[i]]);
    ValSingle(p[i]);
  }

  lemma ValHead(p: seq<Limb>)
    requires |p| > 0
    ensures Val(p) == p[0] + B * Val(p[1..])
  {
  }

  /** The lowest limb decides the parity. */
  lemma Parity(p: seq<Limb>)
    requires |p| > 0
    ensures Val(p) % 2 == p[0] % 2
  {
    hide *;
    ValHead(p);
    var t, h := Val(p[1..]), B / 2;
    MulCong(B, 2 * h, t);
    MulAssoc(2, h, t);
    ModShift(Val(p), p[0], h * t, 2);
  }

  /** One more limb at the less significant end of a suffix. */
  lemma ValTail(p: seq<Limb>, i: nat)
    requires i < |p|
    ensures Val(p[i..]) == p[i] + B * Val(p[i + 1..])
  {
    assert p[i..][1..] == p[i + 1..];
  }

  lemma ValNone()
    ensures Val([]) == 0
  {
  }

  lemma {:induction false} ValBound(p: seq<Limb>)
    ensures Val(p) < BPow(|p|)
  {
    hide *;
    if p == [] {
      ValNone();
    } else {
      ValBound(p[1..]);
      ValHead(p);
      BPowSucc(|p| - 1);
      MulStrict(Val(p[1..]), BPow(|p| - 1), B);
    }
  }

  function Zeros(n: nat): (z: seq<Limb>)
    ensures |z| == n && forall i :: 0 <= i < n ==> z[i] == 0
  {
    seq(n, _ => 0)
  }

  lemma {:induction false} ValAllZero(p: seq<Limb>)
    requires forall i :: 0 <= i < |p| ==> p[i] == 0
    ensures Val(p) == 0
  {
    if p != [] {
      ValAllZero(p[1..]);
    }
  }

  lemma {:induction false} ValZeroInv(p: seq<Limb>)
    requires Val(p) == 0
    ensures forall i :: 0 <= i < |p| ==> p[i] == 0
  {
    if p != [] {
      assert Val(p[1..]) == 0 by {
        MulMono(0, Val(p[1..]), B);
        if Val(p[1..]) > 0 { MulMono(1, Val(p[1..]), B); }
      }
      ValZeroInv(p[1..]);
      assert forall i :: 1 <= i < |p| ==> p[i] == p[1..][i - 1];
    }
  }

  /** Leading zero limbs do not change the value. */
  lemma ValTrim(p: seq<Limb>, i: nat)
    requires i <= |p| && forall k :: i <= k < |p| ==> p[k] == 0
    ensures Val(p) == Val(p[..i])
  {
    hide *;
    ValSplit(p, i);
    ValAllZero(p[i..]);
  }

  /** A value below B^i has only zero limbs from i on. */
  lemma ValSmall(p: seq<Limb>, i: nat)
    requires i <= |p| && Val(p) < BPow(i)
    ensures Val(p[i..]) == 0 && Val(p[..i]) == Val(p)
    ensures forall k :: i <= k < |p| ==> p[k] == 0
  {
    hide *;
    ValSplit(p, i);
    if Val(p[i..]) > 0 {
      MulMono(1, Val(p[i..]), BPow(i));
    }
    ValZeroInv(p[i..]);
    assert forall k :: i <= k < |p| ==> p[k] == p[i..][k - i];
  }

  /** The most significant nonzero limb bounds the value from below. */
  lemma ValTop(p: seq<Limb>, i: nat)
    requires i < |p|
    ensures Val(p) >= p[i] * BPow(i)
  {
    hide *;
    ValSplit(p, i);
    ValTail(p, i);
    var t := Val(p[i + 1..]);
    MulMono(p[i], p[i] + B * t, BPow(i));
  }

  /** Splitting limbs is dividing by a power of the base. */
  lemma ValDiv(p: seq<Limb>, i: nat)
    requires i <= |p|
    ensures Val(p) / BPow(i) == Val(p[i..]) && Val(p) % BPow(i) == Val(p[..i])
  {
    hide *;
    ValSplit(p, i);
    ValBound(p[..i]);
    DivUnique(Val(p), BPow(i), Val(p[i..]), Val(p[..i]));
  }

  lemma ValSuffix(p: seq<Limb>, i: nat)
    requires i <= |p|
    ensures Val(p[i..]) * BPow(i) <= Val(p)
  {
    hide *;
    ValSplit(p, i);
  }

  /** Replacing one limb in place. */
  lemma ValSet(p: seq<Limb>, i: nat, v: Limb)
    requires i < |p|
    ensures Val(p[i := v]) == Val(p) + v * BPow(i) - p[i] * BPow(i)
  {
    hide *;
    var q := p[i := v];
    var w, t := BPow(i), Val(p[i + 1..]);
    ValSplit(p, i);
    ValSplit(q, i);
    ValTail(p, i);
    ValTail(q, i);
    assert q[..i] == p[..i] && q[i + 1..] == p[i + 1..];
    MulDist(w, p[i], B * t);
    MulDist(w, v, B * t);
  }

  /** One in-place step of a carry chain: p[i] becomes v and the carry moves on. */
  lemma ChainStep(p: seq<Limb>, i: nat, v: Limb, a: int, c: int, c': int)
    requires i < |p| && v + c' * B == p[i] + a + c
    ensures Val(p[i := v]) + c' * BPow(i + 1) == Val(p) + c * BPow(i) + a * BPow(i)
  {
    hide *;
    var w := BPow(i);
    ValSet(p, i, v);
    BPowSucc(i);
    MulCong(v + c' * B, p[i] + a + c, w);
    MulDist(w, v, c' * B);
    MulAssoc(c', B, w);
    MulCong(BPow(i + 1), B * w, c');
    MulDist(w, p[i] + a, c);
    MulDist(w, p[i], a);
  }

  /** A nonzero carry out of position i cannot leave a sequence that holds the result. */
  lemma CarryInside(p: seq<Limb>, i: nat, c: int)
    requires c >= 1 && Val(p) + c * BPow(i) < BPow(|p|)
    ensures i < |p|
  {
    hide *;
    MulMono(1, c, BPow(i));
    if i >= |p| {
      BPowMono(|p|, i);
    }
  }

  // ---------------------------------------------------------------- single-limb steps

  /** The two's complement wrap of an addition of limbs, and its carry. */
  function AddWrap(x: Limb, y: Limb): (z: Limb)
    ensures x + y == z + (if z < y then B else 0)
  {
    if x + y < B then x + y else x + y - B
  }

  function SubWrap(x: Limb, y: Limb): (z: Limb)
    ensures x - y == z - (if x < y then B else 0)
  {
    if x < y then x - y + B else x - y
  }

  /** Adding y into the low limb of a two-limb value and its carry into the high one. */
  lemma CarryStep(lo: Limb, hi: int, y: Limb, v: int)
    requires lo + hi * B == v
    ensures AddWrap(lo, y) + (hi + (if AddWrap(lo, y) < y then 1 else 0)) * B == v + y
  {
    hide *;
    MulDist(B, hi, 1);
  }

  lemma ProductBound(s: Limb, b: Limb, c: Limb, d: Limb)
    ensures 0 <= s * b
    ensures s * b + c + d < B * B
  {
    hide *;
    MulMono(s, B - 1, b);
    MulMono(b, B - 1, B - 1);
    MulDist(B - 1, b - 1, 1);
    MulDist(B, B - 1, 1);
    MulDist(B - 1, B - 1, 1);
  }

  lemma HighBound(lo: int, hi: int)
    requires 0 <= lo && lo + hi * B < B * B
    ensures hi < B
  {
    hide *;
    if hi >= B {
      MulMono(B, hi, B);
    }
  }

  /** The low and high limb of a double-width value. */
  method Narrow(v: nat) returns (lo: Limb, hi: nat)
    ensures v == lo + hi * B
  {
    hide *;
    DivMod(v, B);
    lo, hi := v % B, v / B;
  }

  /** One multiply-accumulate step with a double-width product. */
  method MulAddcDouble(s: Limb, b: Limb, c: Limb, d: Limb) returns (c': Limb, d': Limb)
    ensures d' + c' * B == s * b + c + d
  {
    hide *;
    ProductBound(s, b, c, d);
    ghost var r := s * b;
    var r0, r1 := Narrow(s * b);
    var t := AddWrap(r0, c);
    CarryStep(r0, r1, c, r);
    r1 := r1 + (if t < c then 1 else 0);
    d' := AddWrap(t, d);
    CarryStep(t, r1, d, r + c);
    r1 := r1 + (if d' < d then 1 else 0);
    HighBound(d', r1);
    c' := r1;
  }

  /** The halves of a limb: x >> biH and (x << biH) >> biH. */
  method Halves(x: Limb) returns (lo: nat, hi: nat)
    ensures lo < H && hi < H && x == lo + hi * H
  {
    hide *;
    DivMod(x, H);
    lo, hi := x % H, x / H;
    HalfSquare();
    if hi >= H {
      MulMono(H, hi, H);
    }
  }

  /** r >> biH, and r << biH with the upper half shifted out. */
  method HalfShift(r: Limb) returns (hi: nat, z: Limb)
    ensures hi < H && r * H == hi * B + z
  {
    hide *;
    var m;
    m, hi := Halves(r);
    HalfSquare();
    MulCong(r, hi * H + m, H);
    MulDist(H, hi * H, m);
    MulAssoc(hi, H, H);
    MulCong(H * H, B, hi);
    MulStrict(m, H, H);
    MulMono(0, m, H);
    z := m * H;
  }

  /** A step has only one result, so the two forms agree. */
  lemma MulAddcUnique(s: Limb, b: Limb, c: Limb, d: Limb, c1: Limb, d1: Limb, c2: Limb, d2: Limb)
    requires d1 + c1 * B == s * b + c + d && d2 + c2 * B == s * b + c + d
    ensures c1 == c2 && d1 == d2
  {
    hide *;
    DivUnique(s * b + c + d, B, c1, d1);
    DivUnique(s * b + c + d, B, c2, d2);
  }

  /** The same multiply-accumulate step from half-limb products only. */
  method MulAddcHalf(s: Limb, b: Limb, c: Limb, d: Limb) returns (c': Limb, d': Limb)
    ensures d' + c' * B == s * b + c + d
  {
    hide *;
    var b0, b1 := Halves(b);
    var s0, s1 := Halves(s);
    ghost var v := s * b;
    ProductBound(s, b, c, d);
    var r0, r1, lx, ly := HalfMul(s0, s1, b0, b1);
    assert r0 + lx + ly + r1 * B == v;
    var t := AddWrap(r0, lx);
    CarryStep(r0, r1, lx, v - lx - ly);
    r1 := r1 + (if t < lx then 1 else 0);
    var t2 := AddWrap(t, ly);
    CarryStep(t, r1, ly, v - ly);
    r1 := r1 + (if t2 < ly then 1 else 0);
    var t3 := AddWrap(t2, c);
    CarryStep(t2, r1, c, v);
    r1 := r1 + (if t3 < c then 1 else 0);
    d' := AddWrap(t3, d);
    CarryStep(t3, r1, d, v + c);
    r1 := r1 + (if d' < d then 1 else 0);
    HighBound(d', r1);
    c' := r1;
  }

  method HalfMul(s0: nat, s1: nat, b0: nat, b1: nat) returns (r0: Limb, r1: nat, lx: Limb, ly: Limb)
    requires s0 < H && s1 < H && b0 < H && b1 < H
    ensures r0 + lx + ly + r1 * B == (s0 + s1 * H) * (b0 + b1 * H)
  {
    hide *;
    HalfProduct(s0, b1);
    HalfProduct(s0, b0);
    HalfProduct(s1, b0);
    HalfProduct(s1, b1);
    var rx: Limb, ry: Limb := s0 * b1, s1 * b0;
    r0, r1 := s0 * b0, s1 * b1;
    var x, y;
    x, lx := HalfShift(rx);
    r1 := r1 + x;
    y, ly := HalfShift(ry);
    r1 := r1 + y;
    HalfExpand(s0, s1, b0, b1, x, y, lx, ly);
  }

  lemma HalfProduct(x: nat, y: nat)
    requires x < H && y < H
    ensures 0 <= x * y < B
  {
    hide *;
    HalfSquare();
    MulMono(x, H, y);
    MulStrict(y, H, H);
  }

  lemma HalfExpand(s0: nat, s1: nat, b0: nat, b1: nat, x: int, y: int, lx: int, ly: int)
    requires s0 * b1 * H == x * B + lx && s1 * b0 * H == y * B + ly
    ensures (s0 + s1 * H) * (b0 + b1 * H) == s0 * b0 + lx + ly + (s1 * b1 + x + y) * B
  {
    hide *;
    HalfSquare();
    var u, w := s1 * H, b1 * H;
    MulDist(s0 + u, b0, w);
    MulDist(b0, s0, u);
    MulDist(w, s0, u);
    MulSwap(s1, H, b1, H);
    MulCong(H * H, B, s1 * b1);
    MulAssoc(s0, b1, H);
    MulAssoc(s1, b0, H);
    MulAssoc(s1, H, b0);
    MulCong(H * b0, b0 * H, s1);
    MulDist(B, s1 * b1 + x, y);
    MulDist(B, s1 * b1, x);
  }
}
