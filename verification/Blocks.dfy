/** Bytes, 16-byte blocks and the byte-string operations shared by the cipher modes. */
module Blocks {
  import opened Arith

  type Byte = x: nat | x < 256

  type Block = s: seq<Byte> | |s| == 16 witness seq(16, i => 0)

  /** A keyed block cipher under a fixed key. */
  type Cipher = Block -> Block

  /** D deciphers what E enciphers. */
  ghost predicate Inverse(E: Cipher, D: Cipher)
  {
    forall x: Block :: D(E(x)) == x
  }

  function Xor(a: Byte, b: Byte): Byte
  {
    assert Pow(2, 8) == 256 by {
      assert Pow(2, 4) == 16;
      PowAdd(2, 4, 4);
    }
    BitXorBound(a, b, 8);
    BitXor(a, b)
  }

  lemma XorCancel(a: Byte, b: Byte)
    ensures Xor(Xor(a, b), b) == a
  {
    BitXorInvolution(a, b);
  }

  lemma XorCommutes(a: Byte, b: Byte)
    ensures Xor(a, b) == Xor(b, a)
  {
    BitXorCommutes(a, b);
  }

  lemma {:induction false} BitXorCommutes(x: nat, y: nat)
    ensures BitXor(x, y) == BitXor(y, x)
  {
    if x > 0 && y > 0 {
      BitXorCommutes(x / 2, y / 2);
    }
  }

  /** Xoring a byte loses nothing. */
  lemma XorInjective(a: Byte, b: Byte, c: Byte)
    ensures Xor(a, c) == Xor(b, c) <==> a == b
    ensures Xor(c, a) == Xor(c, b) <==> a == b
  {
    hide Xor;
    XorCancel(a, c);
    XorCancel(b, c);
    XorCommutes(a, c);
    XorCommutes(b, c);
  }

  lemma XorZero(a: Byte)
    ensures Xor(a, 0) == a && Xor(0, a) == a
  {
  }

  function Zeros(n: nat): (r: seq<Byte>)
    ensures |r| == n
  {
    seq(n, i => 0)
  }

  /** x with s xored in from position off on. */
  function XorAt(x: Block, off: nat, s: seq<Byte>): (r: Block)
    requires off + |s| <= 16
  {
    seq(16, i requires 0 <= i < 16 => if off <= i < off + |s| then Xor(x[i], s[i - off]) else x[i])
  }

  function XorBlock(a: Block, b: Block): (r: Block)
  {
    seq(16, i requires 0 <= i < 16 => Xor(a[i], b[i]))
  }

  lemma XorBlockCancel(a: Block, b: Block)
    ensures XorBlock(XorBlock(a, b), b) == a
  {
    hide Xor;
    forall i | 0 <= i < 16
      ensures XorBlock(XorBlock(a, b), b)[i] == a[i]
    {
      XorCancel(a[i], b[i]);
    }
  }

  lemma XorBlockZero(a: Block)
    ensures XorBlock(Zeros(16), a) == a
  {
    hide Xor;
    forall i | 0 <= i < 16
      ensures XorBlock(Zeros(16), a)[i] == a[i]
    {
      XorZero(a[i]);
    }
  }

  /** Block i of a string. */
  function BlockAt(s: seq<Byte>, i: nat): Block
    requires 16 * i + 16 <= |s|
  {
    s[16 * i..16 * i + 16]
  }

  lemma BlockAtFront(a: seq<Byte>, b: seq<Byte>, i: nat)
    requires 16 * i + 16 <= |a|
    ensures BlockAt(a + b, i) == BlockAt(a, i)
  {
  }

  lemma BlockAtEnd(a: seq<Byte>, b: Block)
    requires |a| % 16 == 0
    ensures BlockAt(a + b, |a| / 16) == b
  {
  }

  lemma ConcatAssoc(a: seq<Byte>, b: seq<Byte>, c: seq<Byte>)
    ensures a + b + c == a + (b + c)
  {
  }

  // ---------------------------------------------------------------- big-endian counters

  /** The n low bytes of v, most significant first. */
  function BigEndian(v: nat, n: nat): (r: seq<Byte>)
    ensures |r| == n
  {
    if n == 0 then [] else BigEndian(v / 256, n - 1) + [v % 256]
  }

  lemma BigEndianNext(v: nat, n: nat)
    requires n > 0
    ensures BigEndian(v, n) == BigEndian(v / 256, n - 1) + [v % 256] && BigEndian(v, 0) == []
  {
  }

  /** Adding one to the big-endian counter in bytes lo to hi of s; it wraps. */
  function IncrementIn(s: seq<Byte>, lo: nat, hi: nat): (r: seq<Byte>)
    requires lo <= hi <= |s|
    ensures |r| == |s|
    decreases hi
  {
    if hi == lo then s
    else if s[hi - 1] == 255 then IncrementIn(s[hi - 1 := 0], lo, hi - 1)
    else s[hi - 1 := s[hi - 1] + 1]
  }

  lemma {:induction false} IncrementIsSuccessor(high: seq<Byte>, v: nat, n: nat, tail: seq<Byte>)
    ensures IncrementIn(high + BigEndian(v, n) + tail, |high|, |high| + n) == high + BigEndian(v + 1, n) + tail
  {
    hide BigEndian, IncrementIn;
    var s := high + BigEndian(v, n) + tail;
    if n == 0 {
      BigEndianNext(v, 1);
      BigEndianNext(v + 1, 1);
      IncrementNothing(s, |high|);
    } else {
      var low, b: Byte, d: Byte := BigEndian(v / 256, n - 1), v % 256, (v + 1) % 256;
      BigEndianNext(v, n);
      BigEndianNext(v + 1, n);
      Replaced(high, low, b, d, tail);
      IncrementLast(s, |high|, |high| + n);
      if b == 255 {
        assert d == 0 && (v + 1) / 256 == v / 256 + 1;
        IncrementIsSuccessor(high, v / 256, n - 1, [d] + tail);
        Regrouped(high, BigEndian(v / 256 + 1, n - 1), d, tail);
      } else {
        assert d == b + 1 && (v + 1) / 256 == v / 256;
        Regrouped(high, low, d, tail);
      }
    }
  }

  lemma IncrementNothing(s: seq<Byte>, lo: nat)
    requires lo <= |s|
    ensures IncrementIn(s, lo, lo) == s
  {
  }

  lemma IncrementLast(s: seq<Byte>, lo: nat, hi: nat)
    requires lo < hi <= |s|
    ensures IncrementIn(s, lo, hi) ==
      if s[hi - 1] == 255 then IncrementIn(s[hi - 1 := 0], lo, hi - 1) else s[hi - 1 := s[hi - 1] + 1]
  {
  }

  lemma Replaced(high: seq<Byte>, low: seq<Byte>, b: Byte, d: Byte, tail: seq<Byte>)
    ensures (high + (low + [b]) + tail)[|high| + |low|] == b
    ensures (high + (low + [b]) + tail)[|high| + |low| := d] == high + low + ([d] + tail)
  {
  }

  lemma Regrouped(high: seq<Byte>, low: seq<Byte>, d: Byte, tail: seq<Byte>)
    ensures high + low + ([d] + tail) == high + (low + [d]) + tail
  {
  }

  /** Counters are told apart by their value modulo the width. */
  lemma {:induction false} BigEndianInjective(u: nat, v: nat, n: nat)
    ensures Pow(256, n) >= 1
    ensures BigEndian(u, n) == BigEndian(v, n) <==> u % Pow(256, n) == v % Pow(256, n)
  {
    PowPos(256, n);
    if n > 0 {
      BigEndianInjective(u / 256, v / 256, n - 1);
      var p: int := Pow(256, n - 1);
      assert Pow(256, n) == 256 * p;
      ModByDigits(u, p);
      ModByDigits(v, p);
      var s, t := BigEndian(u, n), BigEndian(v, n);
      assert s[..n - 1] == BigEndian(u / 256, n - 1) && s[n - 1] == u % 256;
      assert t[..n - 1] == BigEndian(v / 256, n - 1) && t[n - 1] == v % 256;
      assert s == s[..n - 1] + [s[n - 1]] && t == t[..n - 1] + [t[n - 1]];
    } else {
      assert u % 1 == 0 && v % 1 == 0;
    }
  }

  lemma ModByDigits(u: nat, p: int)
    requires p >= 1
    ensures u % (256 * p) == u % 256 + 256 * (u / 256 % p)
  {
    hide *;
    var q, r := u / 256 / p, u / 256 % p;
    DivMod(u / 256, p);
    assert u == 256 * (u / 256) + u % 256;
    MulAssoc(256, p, q);
    MulDist(256, p * q, r);
    DivUnique(u, 256 * p, q, u % 256 + 256 * r);
  }

  // ---------------------------------------------------------------- values of byte strings

  function BeVal(s: seq<Byte>): nat
  {
    if s == [] then 0 else 256 * BeVal(s[..|s| - 1]) + s[|s| - 1]
  }

  lemma BeValLast(s: seq<Byte>, b: Byte)
    ensures BeVal(s + [b]) == 256 * BeVal(s) + b
  {
    assert (s + [b])[..|s|] == s;
  }

  lemma {:induction false} BeValFixed(v: nat, n: nat)
    requires v < Pow(256, n)
    ensures BeVal(BigEndian(v, n)) == v
  {
    if n > 0 {
      assert v / 256 < Pow(256, n - 1);
      BeValFixed(v / 256, n - 1);
      BeValLast(BigEndian(v / 256, n - 1), v % 256);
    }
  }

  /** Leading zeros do not count. */
  lemma {:induction false} BeValFront(b: Byte, s: seq<Byte>)
    ensures BeVal([b] + s) == b * Pow(256, |s|) + BeVal(s)
  {
    if s == [] {
      assert [b] + s == [] + [b];
      BeValLast([], b);
    } else {
      var n := |s| - 1;
      var front, x := s[..n], s[n];
      BeValFront(b, front);
      assert [b] + s == ([b] + front) + [x] && s == front + [x];
      BeValLast([b] + front, x);
      BeValLast(front, x);
      var p: int, c: int := Pow(256, n), b;
      MulAssoc(c, 256, p);
      MulAssoc(256, c, p);
    }
  }

  lemma {:induction false} BeValBound(s: seq<Byte>)
    ensures BeVal(s) < Pow(256, |s|)
  {
    if s != [] {
      BeValBound(s[..|s| - 1]);
    }
  }

  lemma NoDigits()
    ensures BeVal([]) == 0
  {
  }

  /** Little-endian value and bytes. */
  function LeVal(s: seq<Byte>): nat
  {
    if s == [] then 0 else s[0] + 256 * LeVal(s[1..])
  }

  function LeBytes(v: nat, n: nat): (r: seq<Byte>)
    ensures |r| == n
  {
    if n == 0 then [] else [v % 256] + LeBytes(v / 256, n - 1)
  }

  lemma LeBytesStep(v: nat, n: nat)
    requires n > 0
    ensures LeBytes(v, n) == [v % 256] + LeBytes(v / 256, n - 1)
  {
  }

  // ---------------------------------------------------------------- bits

  lemma OrZero(x: nat)
    ensures BitOr(0, x) == x
  {
  }

  lemma XorDiffers(a: Byte, b: Byte)
    ensures Xor(a, b) == 0 <==> a == b
  {
    XorCancel(a, b);
    XorZero(b);
    BitXorSelf(a);
  }

  lemma OrNonzero(x: nat, z: nat)
    ensures BitOr(x, z) == 0 <==> x == 0 && z == 0
  {
    if x > 0 && z > 0 {
      OrNonzero(x / 2, z / 2);
    }
  }

  // ---------------------------------------------------------------- parts

  /** What a list of consecutive parts adds up to. */
  function Flat(parts: seq<seq<Byte>>): seq<Byte>
  {
    if parts == [] then [] else Flat(parts[..|parts| - 1]) + parts[|parts| - 1]
  }

  lemma FlatStep(parts: seq<seq<Byte>>, i: nat)
    requires i < |parts|
    ensures Flat(parts[..i + 1]) == Flat(parts[..i]) + parts[i]
    ensures |Flat(parts[..i + 1])| <= |Flat(parts)|
  {
    assert parts[..i + 1][..i] == parts[..i];
    FlatPrefix(parts, i + 1);
  }

  lemma {:induction false} FlatPrefix(parts: seq<seq<Byte>>, i: nat)
    requires i <= |parts|
    ensures |Flat(parts[..i])| <= |Flat(parts)|
  {
    if i < |parts| {
      var n := |parts| - 1;
      FlatPrefix(parts[..n], i);
      assert parts[..n][..i] == parts[..i];
    } else {
      assert parts[..i] == parts;
    }
  }

  // ---------------------------------------------------------------- buffers

  lemma SplitAt(s: seq<Byte>, k: nat)
    requires k <= |s|
    ensures s == s[..k] + s[k..]
  {
  }

  /** A change in front of m leaves what is behind n alone. */
  lemma BeyondKept(a: seq<Byte>, b: seq<Byte>, m: nat, n: nat)
    requires m <= n <= |a| == |b| && b[m..] == a[m..]
    ensures b[n..] == a[n..]
  {
    assert a[n..] == a[m..][n - m..] && b[n..] == b[m..][n - m..];
  }

  method XorLoop(a: Block, b: Block, output: array<Byte>, at: nat)
    requires at + 16 <= output.Length
    modifies output
    ensures output[at..at + 16] == XorBlock(a, b)
    ensures output[..at] == old(output[..at]) && output[at + 16..] == old(output[at + 16..])
  {
    hide Xor;
    var i := 0;
    while i < 16
      invariant 0 <= i <= 16
      invariant forall k :: 0 <= k < i ==> output[at + k] == Xor(a[k], b[k])
      invariant output[..at] == old(output[..at]) && output[at + 16..] == old(output[at + 16..])
    {
      output[at + i] := Xor(a[i], b[i]);
      i := i + 1;
    }
  }

  /** One byte in front of what has been written. */
  method PutByte(buf: array<Byte>, q: nat, p: nat, b: Byte)
    requires q < p <= buf.Length
    modifies buf
    ensures buf[q..p] == [b] + old(buf[q + 1..p]) && buf[..q] == old(buf[..q]) && buf[p..] == old(buf[p..])
  {
    buf[q] := b;
  }

  /** memcpy. */
  method CopyInto(s: seq<Byte>, a: array<Byte>, at: nat)
    requires at + |s| <= a.Length
    modifies a
    ensures a[at..at + |s|] == s && a[..at] == old(a[..at]) && a[at + |s|..] == old(a[at + |s|..])
  {
    forall i | 0 <= i < |s| {
      a[at + i] := s[i];
    }
  }
}
