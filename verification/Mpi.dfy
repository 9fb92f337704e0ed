/**
 Multi-precision integers: a sign and a growable limb buffer, changed in place.
 Arguments may be the same object wherever the library allows it.
 */
module Mpis {
  import opened Arith
  import opened Limbs

  datatype Ret = Ok | DivisionByZero | NegativeValue | BadInputData | NotAcceptable

  type Sign = s: int | s == 1 || s == -1 witness 1

  class Mpi {
    var s: Sign
    var p: seq<Limb>

    constructor ()
      ensures s == 1 && p == []
    {
      s, p := 1, [];
    }

    ghost function Value(): int
      reads this
    {
      if s < 0 then 0 - Val(p) else Val(p)
    }
  }

  function Cmp(a: int, b: int): int
  {
    if a > b then 1 else if a < b then -1 else 0
  }

  function AbsInt(a: int): nat
  {
    if a < 0 then 0 - a else a
  }

  lemma NonnegAbs(M: Mpi)
    requires M.Value() >= 0
    ensures Val(M.p) == M.Value()
  {
  }

  // ---------------------------------------------------------------- storage

  /** Enlarges the buffer; the value is untouched. */
  method Grow(X: Mpi, n: nat)
    modifies X`p
    ensures |X.p| == if old(|X.p|) < n then n else old(|X.p|)
    ensures X.p[..old(|X.p|)] == old(X.p) && Val(X.p) == old(Val(X.p))
    ensures forall k :: old(|X.p|) <= k < |X.p| ==> X.p[k] == 0
  {
    hide *;
    if |X.p| < n {
      ghost var was := X.p;
      X.p := X.p + Zeros(n - |X.p|);
      ValTrim(X.p, |was|);
    }
  }

  /** The number of limbs up to the most significant nonzero one. */
  method Significant(p: seq<Limb>) returns (n: nat)
    ensures n <= |p| && (n > 0 ==> p[n - 1] != 0)
    ensures forall k :: n <= k < |p| ==> p[k] == 0
    ensures Val(p[..n]) == Val(p)
  {
    hide *;
    n := |p|;
    while n > 0 && p[n - 1] == 0
      invariant n <= |p| && forall k :: n <= k < |p| ==> p[k] == 0
    {
      n := n - 1;
    }
    ValTrim(p, n);
  }

  method Copy(X: Mpi, Y: Mpi)
    modifies X
    ensures Val(X.p) == old(Val(Y.p)) && X.Value() == old(Y.Value())
    ensures |X.p| >= old(|X.p|)
    ensures X == Y ==> X.p == old(X.p)
    ensures X == Y || |Y.p| > 0 ==> X.s == old(Y.s)
    ensures X != Y && old(|X.p|) == 0 && |Y.p| > 0 ==>
              1 <= |X.p| <= |Y.p| && (|X.p| > 1 ==> X.p[|X.p| - 1] != 0)
  {
    if X == Y {
      return;
    }
    if |Y.p| == 0 {
      if |X.p| != 0 {
        X.s := 1;
        X.p := Zeros(|X.p|);
        ValAllZero(X.p);
      }
      return;
    }
    var i: nat := |Y.p| - 1;
    while i > 0 && Y.p[i] == 0
      invariant i < |Y.p| && forall k :: i < k < |Y.p| ==> Y.p[k] == 0
    {
      i := i - 1;
    }
    i := i + 1;
    X.s := Y.s;
    var rest := if |X.p| < i then [] else Zeros(|X.p| - i);
    ValTrim(Y.p, i);
    X.p := Y.p[..i] + rest;
    assert X.p[..i] == Y.p[..i];
    ValTrim(X.p, i);
  }

  /** X = z for a z of at most one limb. */
  method Lset(X: Mpi, z: int)
    requires AbsInt(z) < B
    modifies X
    ensures X.Value() == z && Val(X.p) == AbsInt(z)
    ensures |X.p| == if old(|X.p|) == 0 then 1 else old(|X.p|)
    ensures forall k :: 1 <= k < |X.p| ==> X.p[k] == 0
    ensures X.s == if z < 0 then -1 else 1
  {
    Grow(X, 1);
    X.p := Zeros(|X.p|);
    X.p := X.p[0 := AbsInt(z)];
    X.s := if z < 0 then -1 else 1;
    ValTrim(X.p, 1);
    ValSingle(X.p[0]);
    assert X.p[..1] == [X.p[0]];
  }

  // ---------------------------------------------------------------- comparison

  method CmpAbs(X: Mpi, Y: Mpi) returns (r: int)
    ensures r == Cmp(Val(X.p), Val(Y.p))
  {
    var i := Significant(X.p);
    var j := Significant(Y.p);
    r := CmpSignificant(X.p, i, Y.p, j, 1, 1, 1);
  }

  /** The comparison loop shared by the signed and the unsigned form:
      gt, lt and flip are what the three kinds of decision return. */
  method CmpSignificant(x: seq<Limb>, i: nat, y: seq<Limb>, j: nat, xs: int, ys: int, flip: int) returns (r: int)
    requires i <= |x| && j <= |y|
    requires (i > 0 ==> x[i - 1] != 0) && Val(x[..i]) == Val(x)
    requires (j > 0 ==> y[j - 1] != 0) && Val(y[..j]) == Val(y)
    ensures r == if Val(x) == 0 && Val(y) == 0 then 0
                 else if i > j then xs else if j > i then -ys else flip * Cmp(Val(x), Val(y))
    ensures i > j ==> Val(x) > Val(y)
    ensures i < j ==> Val(x) < Val(y)
    ensures i == 0 <==> Val(x) == 0
    ensures j == 0 <==> Val(y) == 0
  {
    hide Val, Pow, BPow;
    SignificantBounds(x[..i]);
    SignificantBounds(y[..j]);
    if i > j {
      BPowMono(j, i - 1);
    }
    if j > i {
      BPowMono(i, j - 1);
    }
    if i == 0 && j == 0 { return 0; }
    if i > j { return xs; }
    if j > i { return -ys; }
    var k := i;
    while k > 0
      invariant k <= i && x[k..i] == y[k..i]
    {
      if x[k - 1] != y[k - 1] {
        CmpAt(x[..i], y[..i], k - 1);
        if x[k - 1] > y[k - 1] { return flip; } else { return -flip; }
      }
      k := k - 1;
      assert x[k..i] == [x[k]] + x[k + 1..i] && y[k..i] == [y[k]] + y[k + 1..i];
    }
    assert x[..i] == x[0..i] == y[0..i] == y[..i];
    r := 0;
  }

  /** A nonzero top limb places the value between two powers of the base. */
  lemma SignificantBounds(x: seq<Limb>)
    requires |x| > 0 ==> x[|x| - 1] != 0
    ensures Val(x) < BPow(|x|) && (|x| > 0 ==> Val(x) >= BPow(|x| - 1))
    ensures |x| == 0 <==> Val(x) == 0
  {
    hide *;
    ValBound(x);
    if x == [] {
      ValAllZero(x);
    } else {
      ValTop(x, |x| - 1);
      MulMono(1, x[|x| - 1], BPow(|x| - 1));
    }
  }

  /** The most significant differing limb decides. */
  lemma CmpAt(x: seq<Limb>, y: seq<Limb>, k: nat)
    requires |x| == |y| && k < |x| && x[k + 1..] == y[k + 1..] && x[k] != y[k]
    ensures x[k] > y[k] ==> Val(x) > Val(y)
    ensures x[k] < y[k] ==> Val(x) < Val(y)
  {
    hide *;
    ValSplit(x, k + 1);
    ValSplit(y, k + 1);
    ValPush(x, k);
    ValPush(y, k);
    ValBound(x[..k]);
    ValBound(y[..k]);
    if x[k] > y[k] {
      MulStrict(y[k], x[k], BPow(k));
    } else {
      MulStrict(x[k], y[k], BPow(k));
    }
  }

  method CmpMpi(X: Mpi, Y: Mpi) returns (r: int)
    ensures r == Cmp(X.Value(), Y.Value())
  {
    var i := Significant(X.p);
    var j := Significant(Y.p);
    if i == j && X.s > 0 && Y.s < 0 {
      r := CmpSignificant(X.p, i, Y.p, j, X.s, Y.s, 1);
      if i == 0 { return 0; }
      return 1;
    }
    if i == j && Y.s > 0 && X.s < 0 {
      r := CmpSignificant(X.p, i, Y.p, j, X.s, Y.s, 1);
      if i == 0 { return 0; }
      return -1;
    }
    r := CmpSignificant(X.p, i, Y.p, j, X.s, Y.s, X.s);
  }

  method CmpInt(X: Mpi, z: int) returns (r: int)
    requires AbsInt(z) < B
    ensures r == Cmp(X.Value(), z)
  {
    var Y := new Mpi();
    Y.p := [AbsInt(z)];
    Y.s := if z < 0 then -1 else 1;
    ValSingle(Y.p[0]);
    r := CmpMpi(X, Y);
  }

  // ---------------------------------------------------------------- addition and subtraction

  method AddAbs(X: Mpi, A0: Mpi, B0: Mpi)
    modifies X
    ensures X.s == 1 && Val(X.p) == old(Val(A0.p)) + old(Val(B0.p))
    ensures |X.p| >= old(|X.p|)
  {
    hide *;
    var A, Y := A0, B0;
    if X == Y {
      A, Y := X, A;
    }
    if X != A {
      Copy(X, A);
    }
    X.s := 1;
    assert Val(X.p) == old(Val(A.p)) && Val(Y.p) == old(Val(Y.p));
    var j := Significant(Y.p);
    ghost var ys := Y.p[..j];
    Grow(X, j);
    assert Y.p[..j] == ys;
    var c := AddLimbs(X, Y, j);
    PropagateCarry(X, j, c);
  }

  /** One limb of an addition: the wrapped sum and the next carry. */
  method AddLimb(x: Limb, y: Limb, c: Limb) returns (v: Limb, c': Limb)
    requires c <= 1
    ensures c' <= 1 && v + c' * B == x + y + c
  {
    hide *;
    var t := AddWrap(x, c);
    c' := if t < c then 1 else 0;
    v := AddWrap(t, y);
    c' := c' + if v < y then 1 else 0;
  }

  /** The limb-by-limb loop of the addition; X and Y may be the same. */
  method AddLimbs(X: Mpi, Y: Mpi, j: nat) returns (c: Limb)
    requires j <= |X.p| && j <= |Y.p|
    modifies X`p
    ensures |X.p| == old(|X.p|) && c <= 1
    ensures Val(X.p) + c * BPow(j) == old(Val(X.p)) + old(Val(Y.p[..j]))
  {
    ghost var xs, ys := X.p, Y.p;
    c := 0;
    var i: nat := 0;
    while i < j
      invariant i <= j <= |X.p| == |xs| && c <= 1
      invariant X.p[i..] == xs[i..]
      invariant Y != X ==> Y.p == ys
      invariant Val(X.p) + c * BPow(i) == Val(xs) + Val(ys[..i])
    {
      var tmp := Y.p[i];
      assert X.p[i] == X.p[i..][0] == xs[i];
      assert tmp == ys[i];
      var v, c2 := AddLimb(X.p[i], tmp, c);
      ChainStep(X.p, i, v, tmp, c, c2);
      ValPush(ys, i);
      assert X.p[i := v][i + 1..] == X.p[i..][1..];
      X.p, c, i := X.p[i := v], c2, i + 1;
    }
  }

  /** Carries past position i0, growing the buffer when needed. */
  method PropagateCarry(X: Mpi, i0: nat, c0: Limb)
    requires i0 <= |X.p| && c0 <= 1
    modifies X`p
    ensures |X.p| >= old(|X.p|)
    ensures Val(X.p) == old(Val(X.p)) + c0 * BPow(i0)
  {
    hide *;
    ghost var total := Val(X.p) + c0 * BPow(i0);
    var i: nat, c: Limb := i0, c0;
    while c != 0
      invariant i <= |X.p| && c <= 1
      invariant |X.p| >= old(|X.p|)
      invariant Val(X.p) + c * BPow(i) == total
      decreases c, |X.p| - i
    {
      if i >= |X.p| {
        Grow(X, i + 1);
      }
      var v := AddWrap(X.p[i], c);
      var c2 := if v < c then 1 else 0;
      ChainStep(X.p, i, v, 0, c, c2);
      X.p, c, i := X.p[i := v], c2, i + 1;
    }
  }

  lemma BorrowWeigh(v: int, l: int, r: int, c: int, c': int, w: int)
    requires v == l - r - c + c' * B
    ensures v * w == l * w - r * w - c * w + c' * (B * w)
  {
    hide *;
    MulCong(v + r + c, l + c' * B, w);
    MulDist(w, v + r, c);
    MulDist(w, v, r);
    MulDist(w, l, c' * B);
    MulAssoc(c', B, w);
  }

  /** One limb of a subtraction: the wrapped difference and the next borrow. */
  method SubLimb(l: Limb, r: Limb, c: Limb) returns (v: Limb, c': Limb)
    requires c <= 1
    ensures c' <= 1 && v == l - r - c + c' * B
  {
    hide *;
    var z := if l < c then 1 else 0;
    var t := SubWrap(l, c);
    c' := (if t < r then 1 else 0) + z;
    v := SubWrap(t, r);
  }

  lemma BorrowStep(d: seq<Limb>, l: seq<Limb>, r: seq<Limb>, i: nat, v: Limb, c: int, c': int)
    requires i == |d| && i < |l| && i < |r|
    requires v == l[i] - r[i] - c + c' * B
    requires Val(d) == Val(l[..i]) - Val(r[..i]) + c * BPow(i)
    ensures Val(d + [v]) == Val(l[..i + 1]) - Val(r[..i + 1]) + c' * BPow(i + 1)
  {
    hide *;
    BorrowWeigh(v, l[i], r[i], c, c', BPow(i));
    BPowSucc(i);
    ValPush(l, i);
    ValPush(r, i);
    ValConcat(d, [v]);
    ValSingle(v);
  }

  /** d = l - r on n limbs, modulo B^n, with the final borrow; d may be l or r. */
  method SubHlp(n: nat, D: Mpi, at: nat, L: Mpi, lat: nat, R: Mpi) returns (c: Limb)
    requires at + n <= |D.p| && lat + n <= |L.p| && n <= |R.p|
    requires (L == D ==> lat == at) && (R == D ==> at == 0)
    modifies D`p
    ensures |D.p| == old(|D.p|) && c <= 1
    ensures D.p[..at] == old(D.p[..at]) && D.p[at + n..] == old(D.p[at + n..])
    ensures Val(D.p[at..at + n]) == old(Val(L.p[lat..lat + n])) - old(Val(R.p[..n])) + c * BPow(n)
  {
    hide *;
    ghost var ls, rs, ds := L.p[lat..lat + n], R.p[..n], D.p;
    c := 0;
    ValNone();
    assert D.p[at..at + 0] == [] && ls[..0] == [] && rs[..0] == [];
    var i: nat := 0;
    while i < n
      invariant i <= n && c <= 1 && |D.p| == |ds|
      invariant D.p[..at] == ds[..at] && D.p[at + i..] == ds[at + i..]
      invariant L != D ==> L.p[lat..lat + n] == ls
      invariant R != D ==> R.p[..n] == rs
      invariant Val(D.p[at..at + i]) == Val(ls[..i]) - Val(rs[..i]) + c * BPow(i)
    {
      assert D.p[at + i] == D.p[at + i..][0] == ds[at + i];
      var l, r := L.p[lat + i], R.p[i];
      assert l == ls[i] && r == rs[i];
      var v, c' := SubLimb(l, r, c);
      BorrowStep(D.p[at..at + i], ls, rs, i, v, c, c');
      assert D.p[at + i := v][at..at + i + 1] == D.p[at..at + i] + [v];
      assert D.p[at + i := v][at + i + 1..] == D.p[at + i..][1..];
      D.p, c, i := D.p[at + i := v], c', i + 1;
    }
    assert ls[..n] == ls && rs[..n] == rs;
  }

  /** X = |A| - |B|, or an error when that is negative; X may be A or B. */
  method SubAbs(X: Mpi, A: Mpi, Y: Mpi) returns (ret: Ret)
    modifies X
    ensures ret == if old(Val(A.p)) >= old(Val(Y.p)) then Ok else NegativeValue
    ensures ret == Ok ==> X.s == 1 && Val(X.p) == old(Val(A.p)) - old(Val(Y.p))
    ensures |X.p| >= old(|X.p|)
  {
    hide *;
    ghost var a, y := A.p, Y.p;
    var n := Significant(Y.p);
    if n > |A.p| {
      LongerIsLarger(Y.p, n, A.p);
      return NegativeValue;
    }
    SubPrepare(X, A, n);
    assert A.p[0..n] == a[..n] && Y.p[..n] == y[..n];
    var carry := SubHlp(n, X, 0, A, 0, Y);
    SubHighs(X.p, a, y, n, |a|, carry);
    ret := PropagateBorrow(X, n, carry);
    if ret == Ok {
      X.s := 1;
    }
  }

  lemma LongerIsLarger(y: seq<Limb>, n: nat, a: seq<Limb>)
    requires |a| < n <= |y| && y[n - 1] != 0
    ensures Val(y) > Val(a)
  {
    hide *;
    ValTop(y, n - 1);
    MulMono(1, y[n - 1], BPow(n - 1));
    ValBound(a);
    BPowMono(|a|, n - 1);
  }

  /** Sets the limbs of X from n on to those of A, zero beyond; the lower ones are not touched. */
  method SubPrepare(X: Mpi, A: Mpi, n: nat)
    requires n <= |A.p|
    modifies X`p
    ensures |X.p| == if old(|X.p|) < old(|A.p|) then old(|A.p|) else old(|X.p|)
    ensures X.p[n..] == old(A.p[n..]) + Zeros(|X.p| - old(|A.p|))
    ensures old(|X.p|) >= n ==> X.p[..n] == old(X.p[..n])
  {
    hide *;
    ghost var x, a := X.p, A.p;
    var an := |A.p|;
    Grow(X, an);
    assert A.p[n..an] == a[n..];
    var hi := A.p[n..an] + Zeros(|X.p| - an);
    assert |x| >= n ==> X.p[..n] == X.p[..|x|][..n];
    X.p := X.p[..n] + hi;
    assert X.p[n..] == hi;
  }

  lemma SubHighs(x: seq<Limb>, a: seq<Limb>, y: seq<Limb>, n: nat, an: nat, c: Limb)
    requires n <= an == |a| <= |x| && n <= |y| && Val(y[..n]) == Val(y)
    requires x[n..] == a[n..] + Zeros(|x| - an)
    requires Val(x[0..n]) == Val(a[..n]) - Val(y[..n]) + c * BPow(n)
    ensures Val(x) - c * BPow(n) == Val(a) - Val(y)
  {
    hide *;
    assert x[0..n] == x[..n];
    ValSplit(x, n);
    ValSplit(a, n);
    ValTrim(x[n..], an - n);
    assert x[n..][..an - n] == a[n..];
  }

  /** Moves the borrow to the first nonzero limb from n on. */
  method PropagateBorrow(X: Mpi, n0: nat, carry: Limb) returns (ret: Ret)
    requires n0 <= |X.p| && carry <= 1
    modifies X`p
    ensures |X.p| == old(|X.p|)
    ensures ret == if old(Val(X.p)) - carry * BPow(n0) >= 0 then Ok else NegativeValue
    ensures ret == Ok ==> Val(X.p) == old(Val(X.p)) - carry * BPow(n0)
  {
    hide *;
    if carry == 0 {
      return Ok;
    }
    ghost var xs := X.p;
    ghost var total := Val(X.p) - BPow(n0);
    var n := n0;
    while n < |X.p| && X.p[n] == 0
      invariant n0 <= n <= |X.p| == |xs|
      invariant X.p[n..] == xs[n..]
      invariant Val(X.p) - BPow(n) == total
    {
      ChainStep(X.p, n, B - 1, 0, -1, -1);
      assert X.p[n := B - 1][n + 1..] == X.p[n..][1..];
      X.p, n := X.p[n := B - 1], n + 1;
    }
    if n == |X.p| {
      ValBound(X.p);
      return NegativeValue;
    }
    ChainStep(X.p, n, X.p[n] - 1, 0, -1, 0);
    X.p := X.p[n := X.p[n] - 1];
    ret := Ok;
  }

  method AddMpi(X: Mpi, A: Mpi, Y: Mpi)
    modifies X
    ensures X.Value() == old(A.Value()) + old(Y.Value())
    ensures |X.p| >= old(|X.p|)
  {
    var s := A.s;
    if A.s != Y.s {
      var c := CmpAbs(A, Y);
      if c >= 0 {
        var _ := SubAbs(X, A, Y);
        X.s := s;
      } else {
        var _ := SubAbs(X, Y, A);
        X.s := 0 - s;
      }
    } else {
      AddAbs(X, A, Y);
      X.s := s;
    }
  }

  method SubMpi(X: Mpi, A: Mpi, Y: Mpi)
    modifies X
    ensures X.Value() == old(A.Value()) - old(Y.Value())
    ensures |X.p| >= old(|X.p|)
  {
    var s := A.s;
    if A.s == Y.s {
      var c := CmpAbs(A, Y);
      if c >= 0 {
        var _ := SubAbs(X, A, Y);
        X.s := s;
      } else {
        var _ := SubAbs(X, Y, A);
        X.s := 0 - s;
      }
    } else {
      AddAbs(X, A, Y);
      X.s := s;
    }
  }

  method SubInt(X: Mpi, A: Mpi, z: int)
    requires AbsInt(z) < B
    modifies X
    ensures X.Value() == old(A.Value()) - z
  {
    var Y := new Mpi();
    Y.p := [AbsInt(z)];
    Y.s := if z < 0 then -1 else 1;
    ValSingle(Y.p[0]);
    SubMpi(X, A, Y);
  }

  // ---------------------------------------------------------------- multiplication

  /** Adds b times the first i limbs of S to D at offset `at`; S may be D when the offset is 0. */
  method MulHlp(i: nat, S: Mpi, D: Mpi, at: nat, b: Limb)
    requires i <= |S.p| && at + i <= |D.p| && (S == D ==> at == 0)
    requires Val(D.p) + b * Val(S.p[..i]) * BPow(at) < BPow(|D.p|)
    modifies D`p
    ensures |D.p| == old(|D.p|) && D.p[..at] == old(D.p[..at])
    ensures Val(D.p) == old(Val(D.p)) + b * old(Val(S.p[..i])) * BPow(at)
  {
    hide *;
    ghost var ss, ds := S.p, D.p;
    var c: Limb, k: nat := 0, 0;
    ValNone();
    assert ss[..0] == [];
    while k < i
      invariant k <= i && |D.p| == |ds|
      invariant D.p[..at] == ds[..at] && D.p[at + k..] == ds[at + k..]
      invariant S != D ==> S.p == ss
      invariant Val(D.p) + c * BPow(at + k) == Val(ds) + b * Val(ss[..k]) * BPow(at)
    {
      assert D.p[at + k] == D.p[at + k..][0] == ds[at + k];
      assert S.p[k] == ss[k];
      var c', v := MulAddcDouble(S.p[k], b, c, D.p[at + k]);
      ChainStep(D.p, at + k, v, ss[k] * b, c, c');
      MulWeigh(b, ss, k, at);
      assert D.p[at + k := v][at + k + 1..] == D.p[at + k..][1..];
      D.p, c, k := D.p[at + k := v], c', k + 1;
    }
    ghost var total := Val(ds) + b * Val(ss[..i]) * BPow(at);
    k := at + k;
    while c != 0
      invariant at <= k && |D.p| == |ds|
      invariant D.p[..at] == ds[..at]
      invariant Val(D.p) + c * BPow(k) == total
      decreases |D.p| - k
    {
      CarryInside(D.p, k, c);
      var v := AddWrap(D.p[k], c);
      var c' := if v < c then 1 else 0;
      ChainStep(D.p, k, v, 0, c, c');
      D.p, c, k := D.p[k := v], c', k + 1;
    }
  }

  lemma MulWeigh(b: Limb, s: seq<Limb>, k: nat, at: nat)
    requires k < |s|
    ensures b * Val(s[..k + 1]) * BPow(at) == b * Val(s[..k]) * BPow(at) + s[k] * b * BPow(at + k)
  {
    hide *;
    ValPush(s, k);
    var x, y, w := Val(s[..k]), BPow(k), BPow(at);
    MulCong(Val(s[..k + 1]), x + s[k] * y, b);
    MulDist(b, x, s[k] * y);
    MulAssoc(b, s[k], y);
    MulCong(b * Val(s[..k + 1]), b * x + b * s[k] * y, w);
    MulDist(w, b * x, b * s[k] * y);
    BPowAdd(at, k);
    MulAssoc(b * s[k], y, w);
    MulCong(y * w, BPow(at + k), b * s[k]);
  }

  /** X = A * B; X may be either operand. */
  method MulMpi(X: Mpi, A0: Mpi, Y0: Mpi)
    modifies X
    ensures X.Value() == old(A0.Value()) * old(Y0.Value())
    ensures Val(X.p) == 0 ==> X.s == 1
    ensures |X.p| >= old(|X.p|)
  {
    hide *;
    var A, Y := A0, Y0;
    if X == A {
      A := new Mpi();
      Copy(A, X);
    }
    if X == Y {
      Y := new Mpi();
      Copy(Y, X);
    }
    MulApart(X, A, Y);
  }

  method MulApart(X: Mpi, A: Mpi, Y: Mpi)
    requires X != A && X != Y
    modifies X
    ensures X.Value() == A.Value() * Y.Value()
    ensures Val(X.p) == 0 ==> X.s == 1
    ensures |X.p| >= old(|X.p|)
  {
    var i := Significant(A.p);
    var j := Significant(Y.p);
    Grow(X, i + j);
    Lset(X, 0);
    MulRows(X, A, i, Y, j);
    ProductSign(A.Value(), Y.Value(), Val(A.p), Val(Y.p));
    if i == 0 || j == 0 {
      if i == 0 { ValAllZero(A.p); } else { ValAllZero(Y.p); }
      X.s := 1;
    } else {
      PositiveProduct(A.p, i, Y.p, j);
      X.s := if A.s == Y.s then 1 else -1;
    }
  }

  lemma ProductSign(a: int, b: int, x: int, y: int)
    requires (a == x || a == 0 - x) && (b == y || b == 0 - y)
    ensures a == x && b == y ==> a * b == x * y
    ensures a == 0 - x && b == 0 - y ==> a * b == x * y
    ensures a == x && b == 0 - y ==> a * b == 0 - x * y
    ensures a == 0 - x && b == y ==> a * b == 0 - x * y
  {
    hide *;
  }

  lemma PositiveProduct(a: seq<Limb>, i: nat, b: seq<Limb>, j: nat)
    requires 0 < i <= |a| && a[i - 1] != 0 && 0 < j <= |b| && b[j - 1] != 0
    ensures Val(a) > 0 && Val(b) > 0 && Val(a) * Val(b) > 0
  {
    hide *;
    ValTop(a, i - 1);
    ValTop(b, j - 1);
    MulMono(1, a[i - 1], BPow(i - 1));
    MulMono(1, b[j - 1], BPow(j - 1));
    MulMono(1, Val(a), Val(b));
  }

  /** The schoolbook loop: one multiply-accumulate row per limb of Y. */
  method MulRows(X: Mpi, A: Mpi, i: nat, Y: Mpi, j0: nat)
    requires X != A && X != Y && i <= |A.p| && j0 <= |Y.p| && i + j0 <= |X.p|
    requires Val(X.p) == 0 && Val(A.p[..i]) == Val(A.p) && Val(Y.p[..j0]) == Val(Y.p)
    modifies X`p
    ensures |X.p| == old(|X.p|) && Val(X.p) == Val(A.p) * Val(Y.p)
  {
    ghost var y := Y.p[..j0];
    var j := j0;
    while j > 0
      invariant j <= j0 && |X.p| == old(|X.p|)
      invariant Val(X.p) == Val(A.p) * (Val(y[j..]) * BPow(j))
    {
      RowFits(A.p, i, y, j - 1, |X.p|);
      MulHlp(i, A, X, j - 1, Y.p[j - 1]);
      j := j - 1;
    }
    assert y[0..] == y;
  }

  lemma RowFits(a: seq<Limb>, i: nat, y: seq<Limb>, j: nat, n: nat)
    requires j < |y| && i <= |a| && i + |y| <= n && Val(a[..i]) == Val(a)
    ensures Val(a) * (Val(y[j..]) * BPow(j))
         == Val(a) * (Val(y[j + 1..]) * BPow(j + 1)) + y[j] * Val(a[..i]) * BPow(j)
    ensures Val(a) * (Val(y[j..]) * BPow(j)) < BPow(n)
  {
    hide *;
    var va, w, t := Val(a), BPow(j), Val(y[j + 1..]);
    ValTail(y, j);
    BPowSucc(j);
    MulCong(Val(y[j..]), y[j] + B * t, w);
    MulDist(w, y[j], B * t);
    MulAssoc(t, B, w);
    MulCong(BPow(j + 1), B * w, t);
    MulCong(Val(y[j..]) * w, y[j] * w + t * BPow(j + 1), va);
    MulDist(va, y[j] * w, t * BPow(j + 1));
    MulAssoc(va, y[j], w);
    MulCong(va * y[j], y[j] * va, w);
    RowBound(a, i, y, j, n);
  }

  lemma RowBound(a: seq<Limb>, i: nat, y: seq<Limb>, j: nat, n: nat)
    requires j < |y| && i <= |a| && i + |y| <= n && Val(a[..i]) == Val(a)
    ensures Val(a) * (Val(y[j..]) * BPow(j)) < BPow(n)
  {
    hide *;
    var va, w := Val(a), BPow(j);
    ValSuffix(y, j);
    ValBound(y);
    ValBound(a[..i]);
    MulMono(Val(y[j..]) * w, BPow(|y|), va);
    MulStrict(va, BPow(i), BPow(|y|));
    BPowAdd(i, |y|);
    BPowMono(i + |y|, n);
  }

  /** X = A * b for a one-limb b, computed as A + A * (b - 1); X may be A. */
  method MulInt(X: Mpi, A: Mpi, b: Limb)
    modifies X
    ensures Val(X.p) == old(Val(A.p)) * b && X.Value() == old(A.Value()) * b
    ensures |X.p| >= old(|X.p|)
  {
    hide Val, Pow, BPow;
    ghost var a, s := A.p, A.s;
    var n := Significant(A.p);
    if b == 0 || n == 0 {
      ValAllZero(A.p[n..]);
      if n == 0 {
        ValAllZero(A.p[..n]);
      }
      Lset(X, 0);
      return;
    }
    Grow(X, n + 1);
    Copy(X, A);
    assert A.p[..n] == a[..n] by {
      if X == A { assert A.p[..|a|] == a; }
    }
    MulIntFits(a[..n], b, |X.p|);
    MulHlp(n, A, X, 0, b - 1);
    ProductSign(if s < 0 then 0 - Val(a) else Val(a), b, Val(a), b);
  }

  lemma MulIntFits(a: seq<Limb>, b: Limb, n: nat)
    requires b > 0 && |a| + 1 <= n
    ensures Val(a) + (b - 1) * Val(a) * BPow(0) == Val(a) * b < BPow(n)
  {
    MulDist(Val(a), b - 1, 1);
    ValBound(a);
    MulMono(b, B, Val(a));
    MulStrict(Val(a), BPow(|a|), B);
    BPowSucc(|a|);
    BPowMono(|a| + 1, n);
  }
}
