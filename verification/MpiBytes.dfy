/** Multi-precision integers as big-endian byte strings. */
module MpiBytes {
  import opened Arith
  import opened Limbs
  import opened Mpis
  import opened MpiBits
  import Blocks

  type Byte = Blocks.Byte

  /** Bytes in a limb (ciL). */
  const CIL: nat := BIL / 8

  lemma ByteRadix()
    ensures (CIL == 4 || CIL == 8) && Pow(256, CIL) == B
  {
    assert Pow(2, 8) == 256 by { Pow16(); }
    PowPow(2, 8, CIL);
    assert 8 * CIL == BIL;
  }

  /** The limbs of n bytes are n / ciL powers of the base and the rest. */
  lemma BytePow(n: nat)
    ensures CIL > 0 && Pow(256, n) == BPow(n / CIL) * Pow(256, n % CIL)
  {
    hide *;
    ByteRadix();
    PowAdd(256, CIL * (n / CIL), n % CIL);
    PowPow(256, CIL, n / CIL);
  }

  /** GET_BYTE. */
  function GetByte(p: seq<Limb>, i: nat): Byte
    requires CIL > 0 && i / CIL < |p|
  {
    PowPos(256, i % CIL);
    p[i / CIL] / Pow(256, i % CIL) % 256
  }

  lemma ByteOf(p: seq<Limb>, i: nat)
    requires CIL > 0 && i / CIL < |p|
    ensures Pow(256, i % CIL) >= 1 && GetByte(p, i) == p[i / CIL] / Pow(256, i % CIL) % 256
  {
    hide Pow;
    PowPos(256, i % CIL);
  }

  /** Byte i of the limbs is byte i of the value. */
  lemma GetByteValue(p: seq<Limb>, i: nat)
    requires CIL > 0 && i / CIL < |p|
    ensures Pow(256, i) >= 1 && GetByte(p, i) == Val(p) / Pow(256, i) % 256
  {
    hide *;
    DivMod(i, CIL);
    BytePow(i);
    LimbByte(p, i / CIL, i % CIL, Pow(256, i));
    ByteOf(p, i);
  }

  lemma LimbByte(p: seq<Limb>, k: nat, j: nat, d: int)
    requires k < |p| && j < CIL && d == BPow(k) * Pow(256, j)
    ensures d >= 1 && Pow(256, j) >= 1 && p[k] / Pow(256, j) % 256 == Val(p) / d % 256
  {
    hide *;
    PowPos(256, j);
    ValDiv(p, k);
    ValTail(p, k);
    RadixSplit(j);
    ByteCore(Val(p), BPow(k), p[k], Val(p[k + 1..]), Pow(256, j), Pow(256, CIL - j - 1));
  }

  lemma ByteCore(v: int, b: int, x: int, w: int, d: int, e: int)
    requires v >= 0 && b >= 1 && d >= 1 && x >= 0 && w >= 0 && v / b == x + B * w && B == 256 * (d * e)
    ensures b * d >= 1 && v / (b * d) % 256 == x / d % 256
  {
    hide *;
    DivDiv(v, b, d);
    MulCong(B, 256 * (d * e), w);
    HighIgnored(x, w, d, e);
  }

  lemma RadixSplit(j: nat)
    requires j < CIL
    ensures B == 256 * (Pow(256, j) * Pow(256, CIL - j - 1))
  {
    hide Pow;
    ByteRadix();
    PowAdd(256, j, CIL - j - 1);
    PowStep(CIL);
  }

  lemma PowStep(n: nat)
    requires n > 0
    ensures Pow(256, n) == 256 * Pow(256, n - 1)
  {
  }

  lemma HighIgnored(x: int, w: int, d: int, e: int)
    requires x >= 0 && w >= 0 && d >= 1
    ensures (x + (256 * (d * e)) * w) / d % 256 == x / d % 256
  {
    hide *;
    var q, r := x / d, x % d;
    DivMod(x, d);
    MulSwap(256, d * e, w, 1);
    MulAssoc(d, e, w);
    MulAssoc(256, d * e, w);
    MulAssoc(256, d, e * w);
    MulAssoc(d, 256, e * w);
    var t: int := 256 * (e * w);
    MulDist(d, q, t);
    DivUnique(x + (256 * (d * e)) * w, d, q + t, r);
    ModShift(q + t, q, e * w, 256);
  }

  // ---------------------------------------------------------------- size

  /** n is the number of bytes of v. */
  ghost predicate IsSize(v: int, n: nat)
  {
    if v == 0 then n == 0 else n > 0 && Pow(256, n - 1) <= v < Pow(256, n)
  }

  /** mbedtls_mpi_size. */
  method Size(X: Mpi) returns (n: nat)
    ensures IsSize(Val(X.p), n)
  {
    hide Pow, Pow2, Val;
    var r := Bitlen(X);
    n := (r + 7) / 8;
    if r > 0 {
      BytesOfBits(n);
      BytesOfBits(n - 1);
      PowMono(2, r, 8 * n);
      PowMono(2, 8 * (n - 1), r - 1);
      SameAsPow(r);
      SameAsPow(r - 1);
    }
  }

  lemma BytesOfBits(n: nat)
    ensures Pow(256, n) == Pow(2, 8 * n)
  {
    Pow16();
    PowPow(2, 8, n);
  }

  lemma SameAsPow(n: nat)
    ensures Pow2(n) == Pow(2, n)
  {
  }

  // ---------------------------------------------------------------- writing

  /** Position k from the end of the big-endian form. */
  lemma {:induction false} BigEndianAt(v: nat, n: nat, k: nat)
    requires k < n
    ensures Pow(256, k) >= 1 && Blocks.BigEndian(v, n)[n - 1 - k] == v / Pow(256, k) % 256
  {
    PowPos(256, k);
    if k > 0 {
      BigEndianAt(v / 256, n - 1, k - 1);
      DivDiv(v, 256, Pow(256, k - 1));
      assert 256 * Pow(256, k - 1) == Pow(256, k);
    } else {
      assert Pow(256, 0) == 1;
    }
  }

  /** If the bytes from len up to n are zero, the value needs only len of them. */
  lemma {:induction false} HighBytes(v: nat, len: nat, n: nat)
    requires len <= n && v < Pow(256, n)
    requires forall i :: len <= i < n ==> Pow(256, i) >= 1 && v / Pow(256, i) % 256 == 0
    ensures v < Pow(256, len)
  {
    if len < n {
      var m: int := Pow(256, n - 1);
      PowPos(256, n - 1);
      PowStep(n);
      var q := v / m;
      DivMod(v, m);
      assert q < 256 by {
        if q >= 256 {
          MulMono(256, q, m);
        }
      }
      ModSmall(q, 256);
      assert v / Pow(256, n - 1) % 256 == 0;
      HighBytes(v, len, n - 1);
    }
  }

  lemma LowBytes(v: nat, len: nat, i: nat)
    requires v < Pow(256, len) && len <= i
    ensures Pow(256, i) >= 1 && v / Pow(256, i) % 256 == 0
  {
    hide *;
    PowPos(256, i);
    PowMono(256, len, i);
    DivUnique(v, Pow(256, i), 0, v);
  }

  /** mbedtls_mpi_write_binary: the big-endian form of the magnitude, refused exactly when it does not fit. */
  method WriteBinary(X: Mpi, buf: array<Byte>, at: nat, len: nat) returns (ok: bool)
    requires at + len <= buf.Length
    modifies buf
    ensures ok <==> Val(X.p) < Pow(256, len)
    ensures ok ==> buf[at..at + len] == Blocks.BigEndian(Val(X.p), len)
    ensures buf[..at] == old(buf[..at]) && buf[at + len..] == old(buf[at + len..])
  {
    hide Pow, Val, GetByte, Blocks.BigEndian;
    ByteRadix();
    var stored := |X.p| * CIL;
    StoredBytes(X.p);
    ghost var v := Val(X.p);
    var copy := len;
    if stored < len {
      copy := stored;
      forall i | 0 <= i < len - stored {
        buf[at + i] := 0;
      }
      PowMono(256, stored, len);
    } else {
      var i := copy;
      while i < stored
        invariant len <= i <= stored
        invariant forall j :: len <= j < i ==> Pow(256, j) >= 1 && v / Pow(256, j) % 256 == 0
        invariant buf[..] == old(buf[..])
      {
        LimbIndex(i, |X.p|);
        GetByteValue(X.p, i);
        if GetByte(X.p, i) != 0 {
          if v < Pow(256, len) {
            LowBytes(v, len, i);
          }
          return false;
        }
        i := i + 1;
      }
      HighBytes(v, len, stored);
    }
    CopyBytes(X, buf, at, len, copy);
    return true;
  }

  lemma LimbIndex(i: nat, n: nat)
    requires CIL > 0 && i < n * CIL
    ensures i / CIL < n
  {
    hide *;
    DivMod(i, CIL);
    if i / CIL >= n {
      MulMono(n, i / CIL, CIL);
    }
  }

  lemma StoredBytes(p: seq<Limb>)
    requires CIL > 0
    ensures Val(p) < Pow(256, |p| * CIL)
  {
    hide *;
    ValBound(p);
    ByteRadix();
    PowPow(256, CIL, |p|);
  }

  /** The copying loop, from the least significant byte on. */
  method CopyBytes(X: Mpi, buf: array<Byte>, at: nat, len: nat, copy: nat)
    requires CIL > 0 && copy <= len && copy <= |X.p| * CIL && at + len <= buf.Length && Val(X.p) < Pow(256, copy)
    requires forall i :: at <= i < at + len - copy ==> buf[i] == 0
    modifies buf
    ensures buf[at..at + len] == Blocks.BigEndian(Val(X.p), len)
    ensures buf[..at] == old(buf[..at]) && buf[at + len..] == old(buf[at + len..])
  {
    hide Pow, Val, GetByte, Blocks.BigEndian;
    ghost var v, form := Val(X.p), Blocks.BigEndian(Val(X.p), len);
    var first := at + len - copy;
    var i := 0;
    while i < copy
      invariant 0 <= i <= copy
      invariant forall k :: at <= k < first ==> buf[k] == 0
      invariant forall k :: at + len - i <= k < at + len ==> buf[k] == form[k - at]
      invariant buf[..at] == old(buf[..at]) && buf[at + len..] == old(buf[at + len..])
    {
      LimbIndex(i, |X.p|);
      GetByteValue(X.p, i);
      BigEndianAt(v, len, i);
      buf[first + copy - i - 1] := GetByte(X.p, i);
      i := i + 1;
    }
    forall k | 0 <= k < len - copy
      ensures form[k] == 0
    {
      BigEndianAt(v, len, len - 1 - k);
      LowBytes(v, copy, len - 1 - k);
    }
  }

  // ---------------------------------------------------------------- reading

  lemma AppendDigit(u: int, q: int, v: int)
    ensures 256 * (u * q + v) == u * (256 * q) + 256 * v
  {
    hide *;
    MulAssoc(256, u, q);
    MulAssoc(u, 256, q);
  }

  lemma {:induction false} BeValConcat(a: seq<Byte>, b: seq<Byte>)
    ensures Blocks.BeVal(a + b) == Blocks.BeVal(a) * Pow(256, |b|) + Blocks.BeVal(b)
  {
    hide *;
    if b == [] {
      assert a + b == a;
      Blocks.NoDigits();
      PowSucc(256, 0);
    } else {
      var n := |b| - 1;
      var front, x := b[..n], b[n];
      BeValConcat(a, front);
      assert a + b == (a + front) + [x] && b == front + [x];
      Blocks.BeValLast(a + front, x);
      Blocks.BeValLast(front, x);
      PowSucc(256, n);
      AppendDigit(Blocks.BeVal(a), Pow(256, n), Blocks.BeVal(front));
    }
  }

  lemma {:induction false} BeValZeros(n: nat)
    ensures Blocks.BeVal(Blocks.Zeros(n)) == 0
  {
    if n > 0 {
      BeValZeros(n - 1);
      assert Blocks.Zeros(n)[..n - 1] == Blocks.Zeros(n - 1);
    }
  }

  lemma {:induction false} LeBytesBack(s: seq<Byte>)
    ensures Blocks.LeBytes(Blocks.LeVal(s), |s|) == s && Blocks.LeVal(s) < Pow(256, |s|)
  {
    if s != [] {
      LeBytesBack(s[1..]);
      assert Blocks.LeVal(s) % 256 == s[0] && Blocks.LeVal(s) / 256 == Blocks.LeVal(s[1..]);
    }
  }

  /** mpi_uint_bigendian_to_host: the bytes of a limb in memory, read the other way round. */
  ghost function Host(x: Limb): nat
  {
    Blocks.BeVal(Blocks.LeBytes(x, CIL))
  }

  lemma HostFits(x: Limb)
    ensures Host(x) < B
  {
    hide Pow, Blocks.BeVal, Blocks.LeBytes;
    Blocks.BeValBound(Blocks.LeBytes(x, CIL));
    ByteRadix();
  }

  method ToHost(x: Limb) returns (tmp: Limb)
    ensures tmp == Host(x)
  {
    hide Pow, Blocks.BeVal, Blocks.LeBytes;
    ByteRadix();
    HostFits(x);
    var bytes := Blocks.LeBytes(x, CIL);
    var t: nat := 0;
    Blocks.NoDigits();
    for i := 0 to CIL
      invariant t == Blocks.BeVal(bytes[..i])
    {
      assert bytes[..i + 1] == bytes[..i] + [bytes[i]];
      Blocks.BeValLast(bytes[..i], bytes[i]);
      Blocks.BeValBound(bytes[..i + 1]);
      PowMono(256, i + 1, CIL);
      t := 256 * t + bytes[i];
    }
    assert bytes[..CIL] == bytes;
    tmp := t;
  }

  function Chunk(raw: seq<Byte>, k: nat): (c: seq<Byte>)
    requires CIL * k + CIL <= |raw|
    ensures |c| == CIL
  {
    raw[CIL * k..CIL * k + CIL]
  }

  lemma ChunkInside(k: nat, limbs: nat)
    requires k < limbs
    ensures CIL * k + CIL <= CIL * limbs
  {
    hide *;
    MulMono(k + 1, limbs, CIL);
    MulDist(CIL, k, 1);
  }

  /** The memory seen as limbs of a little-endian machine. */
  method Load(raw: seq<Byte>, limbs: nat) returns (p: seq<Limb>)
    requires |raw| == CIL * limbs
    ensures |p| == limbs
    ensures forall k :: 0 <= k < limbs ==> CIL * k + CIL <= |raw| && p[k] == Blocks.LeVal(Chunk(raw, k))
  {
    hide Pow, Chunk, Blocks.LeVal;
    ByteRadix();
    p := [];
    for i := 0 to limbs
      invariant |p| == i
      invariant forall k :: 0 <= k < i ==> CIL * k + CIL <= |raw| && p[k] == Blocks.LeVal(Chunk(raw, k))
    {
      ChunkInside(i, limbs);
      LeBytesBack(Chunk(raw, i));
      p := p + [Blocks.LeVal(Chunk(raw, i))];
    }
  }

  /** mpi_bigendian_to_host: swaps the limbs end for end and the bytes inside each. */
  method BigendianToHost(X: Mpi)
    modifies X`p
    ensures |X.p| == old(|X.p|)
    ensures forall k :: 0 <= k < |X.p| ==> X.p[k] == Host(old(X.p)[|X.p| - 1 - k])
  {
    hide Host;
    var n := |X.p|;
    ghost var was := X.p;
    var left, right := 0, n - 1;
    while left <= right
      invariant 0 <= left && left + right == n - 1 && |X.p| == n && left <= right + 2
      invariant forall k :: 0 <= k < left ==> X.p[k] == Host(was[n - 1 - k])
      invariant forall k :: right < k < n ==> X.p[k] == Host(was[n - 1 - k])
      invariant forall k :: left <= k <= right ==> X.p[k] == was[k]
      decreases right - left
    {
      var tmp := ToHost(X.p[left]);
      var other := ToHost(X.p[right]);
      X.p := X.p[left := other][right := tmp];
      left := left + 1;
      right := right - 1;
    }
  }

  /** Chunks read big-endian, last one first, are the limbs of the whole string's value. */
  lemma {:induction false} ChunksValue(raw: seq<Byte>, p: seq<Limb>)
    requires |raw| == CIL * |p|
    requires forall k :: 0 <= k < |p| ==>
      CIL * (|p| - 1 - k) + CIL <= |raw| && p[k] == Blocks.BeVal(Chunk(raw, |p| - 1 - k))
    ensures Val(p) == Blocks.BeVal(raw)
  {
    hide Pow, Chunk, Blocks.BeVal;
    ByteRadix();
    Blocks.NoDigits();
    if p == [] {
      assert raw == [];
    } else {
      var n := |p| - 1;
      var m: int := CIL * n;
      assert |raw| == m + CIL by { MulDist(CIL, n, 1); }
      var front, last, q := raw[..m], raw[m..], p[1..];
      forall k | 0 <= k < |q|
        ensures CIL * (|q| - 1 - k) + CIL <= |front| && q[k] == Blocks.BeVal(Chunk(front, |q| - 1 - k))
      {
        ChunkInside(|q| - 1 - k, n);
        assert q[k] == p[k + 1];
        ChunkFront(raw, m, n - 1 - k);
      }
      ChunksValue(front, q);
      BeValConcat(front, last);
      assert raw == front + last;
      assert p[0] == Blocks.BeVal(Chunk(raw, n));
      ChunkLast(raw, m, n);
      ValHead(p);
    }
  }

  lemma ChunkFront(raw: seq<Byte>, m: nat, j: nat)
    requires CIL * j + CIL <= m <= |raw|
    ensures Chunk(raw[..m], j) == Chunk(raw, j)
  {
  }

  lemma ChunkLast(raw: seq<Byte>, m: nat, n: nat)
    requires m == CIL * n && |raw| == m + CIL
    ensures Chunk(raw, n) == raw[m..]
  {
  }

  /** mbedtls_mpi_read_binary: the unsigned value of the bytes. */
  method ReadBinary(X: Mpi, buf: seq<Byte>)
    modifies X
    ensures X.s == 1 && Val(X.p) == Blocks.BeVal(buf)
  {
    hide Pow, Host, Chunk, Blocks.BeVal, Blocks.LeVal, Blocks.LeBytes;
    ByteRadix();
    var limbs := |buf| / CIL + (if |buf| % CIL != 0 then 1 else 0);
    RoundUp(|buf|, limbs);
    var overhead := limbs * CIL - |buf|;
    X.s := 1;
    var raw := Blocks.Zeros(overhead) + buf;
    X.p := Load(raw, limbs);
    ghost var loaded := X.p;
    BigendianToHost(X);
    forall k | 0 <= k < limbs
      ensures CIL * (limbs - 1 - k) + CIL <= |raw| && X.p[k] == Blocks.BeVal(Chunk(raw, limbs - 1 - k))
    {
      ChunkInside(limbs - 1 - k, limbs);
      HostOfLoad(loaded[limbs - 1 - k], Chunk(raw, limbs - 1 - k));
    }
    ChunksValue(raw, X.p);
    BeValConcat(Blocks.Zeros(overhead), buf);
    BeValZeros(overhead);
  }

  lemma HostOfLoad(x: Limb, c: seq<Byte>)
    requires |c| == CIL && x == Blocks.LeVal(c)
    ensures Host(x) == Blocks.BeVal(c)
  {
    LeBytesBack(c);
  }

  lemma RoundUp(n: nat, limbs: nat)
    requires CIL > 0 && limbs == n / CIL + (if n % CIL != 0 then 1 else 0)
    ensures limbs * CIL >= n && limbs * CIL == CIL * limbs
  {
    hide *;
    DivMod(n, CIL);
    if n % CIL != 0 {
      MulDist(CIL, n / CIL, 1);
    }
  }
}
