/**
 Bob Jenkins' hash as configured for little-endian machines: three read paths, chosen by the
 key's alignment, that must agree because set and get may see the same key at different addresses.
 */
module Jenkins {
  import opened Arith
  import opened Blocks

  const M32: nat := 0x1_0000_0000

  /** uint32_t. */
  type U32 = x: nat | x < M32

  datatype Words = Words(a: U32, b: U32, c: U32)

  function Add(x: U32, y: U32): U32
  {
    (x + y) % M32
  }

  function Sub(x: U32, y: U32): U32
  {
    (x - y) % M32
  }

  lemma Pow32()
    ensures Pow(2, 32) == M32
  {
    assert Pow(2, 8) == 256;
    PowAdd(2, 8, 8);
    PowAdd(2, 16, 16);
  }

  function Xor(x: U32, y: U32): U32
  {
    Pow32();
    BitXorBound(x, y, 32);
    BitXor(x, y)
  }

  lemma XorCancel(x: U32, y: U32)
    ensures Xor(Xor(x, y), y) == x
  {
    BitXorInvolution(x, y);
  }

  /** x << k. */
  function Left(x: U32, k: nat): U32
  {
    PowPos(2, k);
    (x * Pow(2, k)) % M32
  }

  /** x >> k. */
  function Right(x: U32, k: nat): (r: U32)
  {
    PowPos(2, k);
    RightBound(x, Pow(2, k));
    x / Pow(2, k)
  }

  lemma RightBound(x: nat, d: int)
    requires d >= 1
    ensures 0 <= x / d <= x
  {
    DivMod(x, d);
    MulMono(1, d, x / d);
  }

  function Rot(x: U32, k: nat): U32
    requires k <= 32
  {
    Xor(Left(x, k), Right(x, 32 - k))
  }

  // ---------------------------------------------------------------- mix and final

  /** x -= z; x ^= rot(z,k); z += y. */
  function Round(x: U32, y: U32, z: U32, k: nat): (U32, U32)
    requires k <= 32
  {
    (Xor(Sub(x, z), Rot(z, k)), Add(z, y))
  }

  function Unround(x: U32, y: U32, z: U32, k: nat): (U32, U32)
    requires k <= 32
  {
    var z0 := Sub(z, y);
    (Add(Xor(x, Rot(z0, k)), z0), z0)
  }

  lemma AddSub(x: U32, z: U32)
    ensures Add(Sub(x, z), z) == x && Sub(Add(x, z), z) == x
  {
  }

  lemma RoundInverse(x: U32, y: U32, z: U32, k: nat)
    requires k <= 32
    ensures var r := Round(x, y, z, k); Unround(r.0, y, r.1, k) == (x, z)
    ensures var u := Unround(x, y, z, k); Round(u.0, y, u.1, k) == (x, z)
  {
    hide Rot, Xor, Add, Sub;
    XorCancel(Sub(x, z), Rot(z, k));
    XorCancel(x, Rot(Sub(z, y), k));
    AddSub(x, z);
    AddSub(z, y);
    AddSub(Xor(x, Rot(Sub(z, y), k)), Sub(z, y));
  }

  function Mix(w: Words): Words
  {
    var (a1, c1) := Round(w.a, w.b, w.c, 4);
    var (b1, a2) := Round(w.b, c1, a1, 6);
    var (c2, b2) := Round(c1, a2, b1, 8);
    var (a3, c3) := Round(a2, b2, c2, 16);
    var (b3, a4) := Round(b2, c3, a3, 19);
    var (c4, b4) := Round(c3, a4, b3, 4);
    Words(a4, b4, c4)
  }

  function Unmix(w: Words): Words
  {
    var (c3, b3) := Unround(w.c, w.a, w.b, 4);
    var (b2, a3) := Unround(b3, c3, w.a, 19);
    var (a2, c2) := Unround(a3, b2, c3, 16);
    var (c1, b1) := Unround(c2, a2, b2, 8);
    var (b0, a1) := Unround(b1, c1, a2, 6);
    var (a0, c0) := Unround(a1, b0, c1, 4);
    Words(a0, b0, c0)
  }

  /** "Mix 3 32-bit values reversibly": mix is a bijection. */
  lemma MixReversible(w: Words)
    ensures Unmix(Mix(w)) == w && Mix(Unmix(w)) == w
  {
    hide Round, Unround;
    var (a1, c1) := Round(w.a, w.b, w.c, 4);
    var (b1, a2) := Round(w.b, c1, a1, 6);
    var (c2, b2) := Round(c1, a2, b1, 8);
    var (a3, c3) := Round(a2, b2, c2, 16);
    var (b3, a4) := Round(b2, c3, a3, 19);
    RoundInverse(w.a, w.b, w.c, 4);
    RoundInverse(w.b, c1, a1, 6);
    RoundInverse(c1, a2, b1, 8);
    RoundInverse(a2, b2, c2, 16);
    RoundInverse(b2, c3, a3, 19);
    RoundInverse(c3, a4, b3, 4);
    var (z3, y3) := Unround(w.c, w.a, w.b, 4);
    var (y2, x3) := Unround(y3, z3, w.a, 19);
    var (x2, z2) := Unround(x3, y2, z3, 16);
    var (z1, y1) := Unround(z2, x2, y2, 8);
    var (y0, x1) := Unround(y1, z1, x2, 6);
    RoundInverse(w.c, w.a, w.b, 4);
    RoundInverse(y3, z3, w.a, 19);
    RoundInverse(x3, y2, z3, 16);
    RoundInverse(z2, x2, y2, 8);
    RoundInverse(y1, z1, x2, 6);
    RoundInverse(x1, y0, z1, 4);
  }

  /** x ^= y; x -= rot(y,k). */
  function Fin(x: U32, y: U32, k: nat): U32
    requires k <= 32
  {
    Sub(Xor(x, y), Rot(y, k))
  }

  function Final(w: Words): U32
  {
    var c1 := Fin(w.c, w.b, 14);
    var a1 := Fin(w.a, c1, 11);
    var b1 := Fin(w.b, a1, 25);
    var c2 := Fin(c1, b1, 16);
    var a2 := Fin(a1, c2, 4);
    var b2 := Fin(b1, a2, 14);
    Fin(c2, b2, 24)
  }

  // ---------------------------------------------------------------- the function of the bytes

  /** A little-endian load of four bytes. */
  function Le(b0: Byte, b1: Byte, b2: Byte, b3: Byte): U32
  {
    var x0: nat, x1: nat, x2: nat, x3: nat := b0, b1, b2, b3;
    x0 + 0x100 * x1 + 0x1_0000 * x2 + 0x100_0000 * x3
  }

  /** Byte i of s, zero past the end. */
  function At(s: seq<Byte>, i: nat): Byte
  {
    if i < |s| then s[i] else 0
  }

  function Word(s: seq<Byte>, i: nat): U32
  {
    Le(At(s, i), At(s, i + 1), At(s, i + 2), At(s, i + 3))
  }

  /** Adds the first twelve bytes, zero-padded, to the state. */
  function Add12(w: Words, s: seq<Byte>): Words
  {
    Words(Add(w.a, Word(s, 0)), Add(w.b, Word(s, 4)), Add(w.c, Word(s, 8)))
  }

  function HashFrom(w: Words, s: seq<Byte>): U32
    decreases |s|
  {
    if |s| > 12 then HashFrom(Mix(Add12(w, s)), s[12..])
    else if |s| == 0 then w.c
    else Final(Add12(w, s))
  }

  function Start(length: nat): Words
  {
    var v := (0xdeadbeef + length) % M32;
    Words(v, v, v)
  }

  /** The hash of a byte string. */
  function Hash(key: seq<Byte>): U32
  {
    HashFrom(Start(|key|), key)
  }

  // ---------------------------------------------------------------- reading by 32-bit words

  /** The word at byte offset `at`. */
  function Load32(mem: seq<Byte>, at: nat): U32
    requires at + 4 <= |mem|
  {
    Le(mem[at], mem[at + 1], mem[at + 2], mem[at + 3])
  }

  /** x & (2^k - 1). */
  function Mask(x: U32, k: nat): U32
    requires k == 8 || k == 16 || k == 24
  {
    if k == 8 then x % 0x100 else if k == 16 then x % 0x1_0000 else x % 0x100_0000
  }

  /** The masked words of the last block are the zero-padded key words, whatever follows the key. */
  lemma LastWords(mem: seq<Byte>, at: nat, n: nat, j: nat)
    requires at + n <= |mem| && j + 4 <= 12 && (j < n ==> at + j + 4 <= |mem|)
    ensures j + 4 <= n ==> Word(mem[at..at + n], j) == Load32(mem, at + j)
    ensures j + 3 == n ==> Word(mem[at..at + n], j) == Mask(Load32(mem, at + j), 24)
    ensures j + 2 == n ==> Word(mem[at..at + n], j) == Mask(Load32(mem, at + j), 16)
    ensures j + 1 == n ==> Word(mem[at..at + n], j) == Mask(Load32(mem, at + j), 8)
    ensures n <= j ==> Word(mem[at..at + n], j) == 0
  {
    hide Le, Mask;
    if j < n {
      MaskLe(mem[at + j], mem[at + j + 1], mem[at + j + 2], mem[at + j + 3]);
    } else {
      LeZero();
    }
  }

  lemma LeZero()
    ensures Le(0, 0, 0, 0) == 0
  {
  }

  lemma MaskLe(b0: Byte, b1: Byte, b2: Byte, b3: Byte)
    ensures Mask(Le(b0, b1, b2, b3), 24) == Le(b0, b1, b2, 0)
    ensures Mask(Le(b0, b1, b2, b3), 16) == Le(b0, b1, 0, 0)
    ensures Mask(Le(b0, b1, b2, b3), 8) == Le(b0, 0, 0, 0)
  {
    var v := Le(b0, b1, b2, b3);
    DivUnique(v, 0x100_0000, b3, Le(b0, b1, b2, 0));
    DivUnique(v, 0x1_0000, b2 + 0x100 * b3, Le(b0, b1, 0, 0));
    DivUnique(v, 0x100, b1 + 0x100 * b2 + 0x1_0000 * b3, b0);
  }

  /** The path for keys on a four-byte boundary; it may read to the end of the last word. */
  method HashByWords(mem: seq<Byte>, length: nat) returns (r: U32)
    requires |mem| >= (length + 3) / 4 * 4
    ensures r == Hash(mem[..length])
  {
    hide Mix, Final, Word, Start, Le, Mask;
    var w := Start(length);
    var k, n := 0, length;
    ghost var key, g := mem[..length], 0;
    assert key[0..] == key;
    assert |mem| >= length;
    while n > 12
      invariant k + n == length && k == 12 * g && 0 <= g && 0 <= n
      invariant HashFrom(w, key[k..]) == Hash(key)
    {
      FullWords(mem, k, n, length);
      w := Mix(Words(Add(w.a, Load32(mem, k)), Add(w.b, Load32(mem, k + 4)), Add(w.c, Load32(mem, k + 8))));
      assert key[k..][12..] == key[k + 12..];
      k, n, g := k + 12, n - 12, g + 1;
    }
    assert key[k..] == mem[k..k + n];
    RoundedUp(g, n);
    r := TailByWords(w, mem, k, n);
  }

  lemma RoundedUp(g: nat, n: nat)
    ensures (12 * g + n + 3) / 4 * 4 == 12 * g + (n + 3) / 4 * 4
  {
    DivUnique(12 * g + n + 3, 4, 3 * g + (n + 3) / 4, (n + 3) % 4);
  }

  /** The switch on the length of the last block. */
  method TailByWords(w: Words, mem: seq<Byte>, k: nat, n: nat) returns (r: U32)
    requires k + n <= |mem| && n <= 12 && |mem| >= k + (n + 3) / 4 * 4
    ensures r == HashFrom(w, mem[k..k + n])
  {
    hide Mix, Final, Word, Le, Mask, Add, Load32;
    if n == 0 {
      return w.c;
    }
    LastWords(mem, k, n, 0);
    LastWords(mem, k, n, 4);
    LastWords(mem, k, n, 8);
    AddZero(w.b);
    AddZero(w.c);
    var a, b, c := w.a, w.b, w.c;
    if n == 12 {
      c, b, a := Add(c, Load32(mem, k + 8)), Add(b, Load32(mem, k + 4)), Add(a, Load32(mem, k));
    } else if n >= 9 {
      c, b, a := Add(c, Mask(Load32(mem, k + 8), 8 * (n - 8))), Add(b, Load32(mem, k + 4)), Add(a, Load32(mem, k));
    } else if n == 8 {
      b, a := Add(b, Load32(mem, k + 4)), Add(a, Load32(mem, k));
    } else if n >= 5 {
      b, a := Add(b, Mask(Load32(mem, k + 4), 8 * (n - 4))), Add(a, Load32(mem, k));
    } else if n == 4 {
      a := Add(a, Load32(mem, k));
    } else {
      a := Add(a, Mask(Load32(mem, k), 8 * n));
    }
    r := Final(Words(a, b, c));
  }

  lemma AddZero(x: U32)
    ensures Add(x, 0) == x
  {
  }

  lemma FullWords(mem: seq<Byte>, k: nat, n: nat, length: nat)
    requires k + n == length <= |mem| && n > 12
    ensures Word(mem[..length][k..], 0) == Load32(mem, k)
    ensures Word(mem[..length][k..], 4) == Load32(mem, k + 4)
    ensures Word(mem[..length][k..], 8) == Load32(mem, k + 8)
  {
    hide Le;
  }

  // ---------------------------------------------------------------- reading by 16-bit halves

  function Load16(mem: seq<Byte>, at: nat): U32
    requires at + 2 <= |mem|
  {
    var lo: nat, hi: nat := mem[at], mem[at + 1];
    lo + 0x100 * hi
  }

  /** x << 16 of a 16-bit value, x << 8 and x << 24 of a byte. */
  function Shift(x: nat, k: nat): U32
    requires (k == 16 && x < 0x1_0000) || (k == 8 && x < 0x100) || (k == 24 && x < 0x100)
  {
    if k == 8 then 0x100 * x else if k == 16 then 0x1_0000 * x else 0x100_0000 * x
  }

  /** x += k[i] + (((uint32_t)k[i+1]) << 16). */
  function Add2x16(x: U32, mem: seq<Byte>, at: nat): U32
    requires at + 4 <= |mem|
  {
    Add(x, Add(Load16(mem, at), Shift(Load16(mem, at + 2), 16)))
  }

  lemma Add2x16IsLoad(x: U32, mem: seq<Byte>, at: nat)
    requires at + 4 <= |mem|
    ensures Add2x16(x, mem, at) == Add(x, Load32(mem, at))
  {
  }

  /** The last word of a block, added in halves and single bytes; n of its 4 bytes belong to the key. */
  method TailWord16(x: U32, mem: seq<Byte>, at: nat, n: nat) returns (r: U32)
    requires 1 <= n <= 4 && at + n <= |mem|
    ensures r == Add(x, Word(mem[at..at + n], 0))
  {
    r := x;
    if n == 4 {
      Add2x16IsLoad(x, mem, at);
      r := Add2x16(x, mem, at);
    } else if n == 3 {
      r := Add(r, Shift(mem[at + 2], 16));
      r := Add(r, Load16(mem, at));
      AddAssoc(x, Shift(mem[at + 2], 16), Load16(mem, at));
    } else if n == 2 {
      r := Add(r, Load16(mem, at));
    } else {
      r := Add(r, mem[at]);
    }
  }

  lemma AddAssoc(x: U32, y: U32, z: U32)
    requires y + z < M32
    ensures Add(Add(x, y), z) == Add(x, y + z)
  {
  }

  /** The path for keys on an even address: it never reads past the key. */
  method HashByHalves(mem: seq<Byte>, length: nat) returns (r: U32)
    requires |mem| >= length
    ensures r == Hash(mem[..length])
  {
    hide Mix, Final, Word, Start, Le, Add2x16, Load32;
    var w := Start(length);
    var k, n := 0, length;
    ghost var key := mem[..length];
    assert key[0..] == key;
    while n > 12
      invariant k + n == length && 0 <= k && 0 <= n
      invariant HashFrom(w, key[k..]) == Hash(key)
    {
      FullWords(mem, k, n, length);
      Add2x16IsLoad(w.a, mem, k);
      Add2x16IsLoad(w.b, mem, k + 4);
      Add2x16IsLoad(w.c, mem, k + 8);
      w := Mix(Words(Add2x16(w.a, mem, k), Add2x16(w.b, mem, k + 4), Add2x16(w.c, mem, k + 8)));
      assert key[k..][12..] == key[k + 12..];
      k, n := k + 12, n - 12;
    }
    assert key[k..] == mem[k..k + n];
    if n == 0 {
      return w.c;
    }
    var a, b, c := w.a, w.b, w.c;
    if n > 8 {
      c := TailWord16(c, mem, k + 8, n - 8);
    }
    if n > 4 {
      b := TailWord16(b, mem, k + 4, if n >= 8 then 4 else n - 4);
    }
    a := TailWord16(a, mem, k, if n >= 4 then 4 else n);
    TailPieces(w, mem, k, n);
    r := Final(Words(a, b, c));
  }

  /** The zero-padded words of the last block, word by word. */
  lemma TailPieces(w: Words, mem: seq<Byte>, k: nat, n: nat)
    requires k + n <= |mem| && 1 <= n <= 12
    ensures var s := mem[k..k + n];
      && Word(s, 0) == Word(mem[k..k + if n >= 4 then 4 else n], 0)
      && (n > 4 ==> Word(s, 4) == Word(mem[k + 4..k + 4 + if n >= 8 then 4 else n - 4], 0))
      && (n > 8 ==> Word(s, 8) == Word(mem[k + 8..k + 8 + (n - 8)], 0))
      && (n <= 4 ==> Add(w.b, Word(s, 4)) == w.b) && (n <= 8 ==> Add(w.c, Word(s, 8)) == w.c)
  {
    hide Le, Add;
    LeZero();
    AddZero(w.b);
    AddZero(w.c);
  }

  // ---------------------------------------------------------------- reading by bytes

  /** The last word of a block, one byte at a time from the most significant down. */
  method AddBytes(x: U32, mem: seq<Byte>, at: nat, n: nat) returns (r: U32)
    requires 1 <= n <= 4 && at + n <= |mem|
    ensures r == Add(x, Word(mem[at..at + n], 0))
  {
    hide Add;
    ghost var s3: nat := if n >= 4 then Shift(mem[at + 3], 24) else 0;
    ghost var s2: nat := if n >= 3 then Shift(mem[at + 2], 16) else 0;
    ghost var s1: nat := if n >= 2 then Shift(mem[at + 1], 8) else 0;
    AddZero(x);
    AddAssoc(x, s3, s2);
    AddAssoc(x, s3 + s2, s1);
    AddAssoc(x, s3 + s2 + s1, mem[at]);
    r := x;
    if n >= 4 {
      r := Add(r, Shift(mem[at + 3], 24));
    }
    if n >= 3 {
      r := Add(r, Shift(mem[at + 2], 16));
    }
    if n >= 2 {
      r := Add(r, Shift(mem[at + 1], 8));
    }
    r := Add(r, mem[at]);
  }

  /** A full word, one byte at a time from the least significant up. */
  method AddBytesUp(x: U32, mem: seq<Byte>, at: nat) returns (r: U32)
    requires at + 4 <= |mem|
    ensures r == Add(x, Load32(mem, at))
  {
    hide Add;
    ghost var s1: nat, s2: nat, s3: nat := Shift(mem[at + 1], 8), Shift(mem[at + 2], 16), Shift(mem[at + 3], 24);
    AddAssoc(x, mem[at], s1);
    AddAssoc(x, mem[at] + s1, s2);
    AddAssoc(x, mem[at] + s1 + s2, s3);
    r := Add(x, mem[at]);
    r := Add(r, Shift(mem[at + 1], 8));
    r := Add(r, Shift(mem[at + 2], 16));
    r := Add(r, Shift(mem[at + 3], 24));
  }

  /** The path for keys on an odd address. */
  method HashByBytes(mem: seq<Byte>, length: nat) returns (r: U32)
    requires |mem| >= length
    ensures r == Hash(mem[..length])
  {
    hide Mix, Final, Word, Start, Le, Load32, Add;
    var w := Start(length);
    var k, n := 0, length;
    ghost var key := mem[..length];
    assert key[0..] == key;
    while n > 12
      invariant k + n == length && 0 <= k && 0 <= n
      invariant HashFrom(w, key[k..]) == Hash(key)
    {
      FullWords(mem, k, n, length);
      var a := AddBytesUp(w.a, mem, k);
      var b := AddBytesUp(w.b, mem, k + 4);
      var c := AddBytesUp(w.c, mem, k + 8);
      w := Mix(Words(a, b, c));
      assert key[k..][12..] == key[k + 12..];
      k, n := k + 12, n - 12;
    }
    assert key[k..] == mem[k..k + n];
    if n == 0 {
      return w.c;
    }
    var a, b, c := w.a, w.b, w.c;
    if n > 8 {
      c := AddBytes(c, mem, k + 8, n - 8);
    }
    if n > 4 {
      b := AddBytes(b, mem, k + 4, if n >= 8 then 4 else n - 4);
    }
    a := AddBytes(a, mem, k, if n >= 4 then 4 else n);
    TailPieces(w, mem, k, n);
    r := Final(Words(a, b, c));
  }

  /** The hash of a key at any address depends on its bytes alone. */
  method JenkinsHash(mem: seq<Byte>, address: nat, length: nat) returns (r: U32)
    requires length <= |mem| && (address % 4 == 0 ==> |mem| >= (length + 3) / 4 * 4)
    ensures r == Hash(mem[..length])
  {
    if address % 4 == 0 {
      r := HashByWords(mem, length);
    } else if address % 2 == 0 {
      r := HashByHalves(mem, length);
    } else {
      r := HashByBytes(mem, length);
    }
  }
}
