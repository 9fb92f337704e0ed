/**
 XTS over an abstract block cipher: the word-wise tweak update, the tweak sequence, and
 ciphertext stealing for data units that are not a whole number of blocks.
 */
module Xts {
  import opened Arith
  import opened Bits
  import opened Blocks

  // ---------------------------------------------------------------- the tweak

  const W64: nat := 0x1_0000_0000_0000_0000
  const HALF64: nat := 0x8000_0000_0000_0000

  /** mbedtls_gf128mul_x_ble: two 64-bit words, a conditional reduction by 0x87. */
  function Gf128MulX(x: Block): Block
  {
    var (a, b) := (LeVal(x[..8]), LeVal(x[8..]));
    var ra := BitXor(2 * a % W64, 0x87 / Pow(2, 8 - 8 * (if b >= HALF64 then 1 else 0)));
    var rb := BitOr(a / HALF64, 2 * b % W64);
    LeBytes(ra, 8) + LeBytes(rb, 8)
  }

  /** Multiplication by the primitive element, byte by byte, as section 5.2 of IEEE Std 1619-2007 gives it. */
  function Alpha(x: Block): Block
  {
    [Xor(2 * (x[0] % 128), if x[15] >= 128 then 0x87 else 0)]
    + seq(15, j requires 0 <= j < 15 => 2 * (x[j + 1] % 128) + x[j] / 128)
  }

  /** Doubling a little-endian string with a carry. */
  function Doubled(s: seq<Byte>, c: nat): (r: seq<Byte>)
    requires c <= 1
    ensures |r| == |s|
  {
    if s == [] then [] else [(2 * s[0] + c) % 256] + Doubled(s[1..], s[0] / 128)
  }

  lemma {:induction false} DoubledAt(s: seq<Byte>, c: nat, j: nat)
    requires c <= 1 && j < |s|
    ensures Doubled(s, c)[j] == 2 * (s[j] % 128) + (if j == 0 then c else s[j - 1] / 128)
  {
    hide Doubled;
    DoubledStep(s, c);
    if j > 0 {
      DoubledAt(s[1..], s[0] / 128, j - 1);
    }
  }

  lemma DoubledStep(s: seq<Byte>, c: nat)
    requires c <= 1 && s != []
    ensures Doubled(s, c) == [2 * (s[0] % 128) + c] + Doubled(s[1..], s[0] / 128)
  {
    DoubledDigit(s[0], c, 0);
  }

  lemma LeValStep(s: seq<Byte>)
    requires s != []
    ensures LeVal(s) == s[0] + 256 * LeVal(s[1..])
  {
  }

  lemma DoubledDigit(b: Byte, c: nat, h: nat)
    requires c <= 1
    ensures var v: nat := 2 * (b + 256 * h) + c; v % 256 == 2 * (b % 128) + c && v / 256 == 2 * h + b / 128
  {
    hide *;
    DivUnique(2 * (b + 256 * h) + c, 256, 2 * h + b / 128, 2 * (b % 128) + c);
  }

  lemma {:induction false} DoubledIsDouble(s: seq<Byte>, c: nat)
    requires c <= 1
    ensures LeBytes(2 * LeVal(s) + c, |s|) == Doubled(s, c)
  {
    if s != [] {
      hide LeVal, LeBytes, Doubled;
      DoubledDigit(s[0], c, LeVal(s[1..]));
      DoubledIsDouble(s[1..], s[0] / 128);
      DoubledStep(s, c);
      LeValStep(s);
      LeBytesStep(2 * LeVal(s) + c, |s|);
    }
  }

  /** The value of a 64-bit word: the last byte holds the top bits. */
  lemma WordTop(s: seq<Byte>)
    requires |s| == 8
    ensures LeVal(s) < W64
    ensures LeVal(s) / HALF64 == s[7] / 128
  {
    hide LeVal;
    var r, top: int := LowSeven(s);
  }

  lemma LowSeven(s: seq<Byte>) returns (r: nat, top: int)
    requires |s| == 8
    ensures r < 0x100_0000_0000_0000 && top == s[7] && LeVal(s) == r + 0x100_0000_0000_0000 * top
  {
    top := s[7];
    assert LeVal(s[7..]) == top by {
      assert s[7..][1..] == [];
    }
    hide LeVal;
    LeStep(s, 6);
    LeStep(s, 5);
    LeStep(s, 4);
    LeStep(s, 3);
    LeStep(s, 2);
    LeStep(s, 1);
    LeStep(s, 0);
    assert s[0..] == s;
    r := LeVal(s) - 0x100_0000_0000_0000 * top;
  }

  lemma LeStep(s: seq<Byte>, i: nat)
    requires i < |s|
    ensures LeVal(s[i..]) == s[i] + 256 * LeVal(s[i + 1..])
  {
    assert s[i..][1..] == s[i + 1..];
  }

  /** Bytes above the n-th do not show. */
  lemma {:induction false} LeBytesMod(v: nat, n: nat, m: nat)
    requires m == Pow(256, n)
    ensures m > 0 && LeBytes(v % m, n) == LeBytes(v, n)
  {
    PowPos(256, n);
    if n > 0 {
      var p := Pow(256, n - 1);
      LeBytesMod(v / 256, n - 1, p);
      ModByDigits(v, p);
      assert m == 256 * p;
      assert v % m == v % 256 + 256 * (v / 256 % p);
      assert v % m % 256 == v % 256 && v % m / 256 == v / 256 % p;
    }
  }

  /** Xoring a byte into a word touches its first byte only. */
  lemma XorLow(v: nat, m: Byte)
    ensures BitXor(v, m) == 256 * (v / 256) + BitXor(v % 256, m)
  {
    hide BitXor, Pow;
    Shifts();
    XorSplit(v / 256, v % 256, 0, m, 8);
    XorNothing(v / 256);
  }

  /** The 64-bit words compute the byte-wise multiplication of the standard. */
  lemma Gf128IsAlpha(x: Block)
    ensures Gf128MulX(x) == Alpha(x)
  {
    hide LeVal, LeBytes, Doubled, Xor, BitXor, BitOr, Pow;
    var lo, hi := x[..8], x[8..];
    var (a, b) := (LeVal(lo), LeVal(hi));
    WordTop(lo);
    WordTop(hi);
    LowWord(lo, if b >= HALF64 then 0x87 else 0);
    HighWord(hi, a / HALF64);
    Shifts();
    var r := Gf128MulX(x);
    forall j | 0 <= j < 16
      ensures r[j] == Alpha(x)[j]
    {
      if j < 8 {
        DoubledAt(lo, 0, j);
      } else {
        DoubledAt(hi, a / HALF64, j - 8);
      }
    }
  }

  lemma Shifts()
    ensures Pow(2, 8) == 256 && Pow(2, 0) == 1 && Pow(256, 8) == W64
  {
    assert Pow(2, 4) == 16;
    PowAdd(2, 4, 4);
    assert Pow(256, 2) == 0x1_0000;
    PowAdd(256, 2, 2);
    PowAdd(256, 4, 4);
  }

  lemma LowWord(lo: seq<Byte>, m: Byte)
    requires |lo| == 8
    ensures LeBytes(BitXor(2 * LeVal(lo) % W64, m), 8) == Doubled(lo, 0)[0 := Xor(Doubled(lo, 0)[0], m)]
  {
    hide LeVal, LeBytes, Doubled, BitXor, Pow, Xor;
    var d := 2 * LeVal(lo) % W64;
    Shifts();
    LeBytesMod(2 * LeVal(lo), 8, W64);
    DoubledIsDouble(lo, 0);
    XorLow(d, m);
    XorByte(d % 256, m);
    var e := BitXor(d, m);
    assert e % 256 == Xor(d % 256, m) && e / 256 == d / 256;
    LeBytesStep(d, 8);
    LeBytesStep(e, 8);
  }

  lemma XorByte(a: Byte, m: Byte)
    ensures Xor(a, m) == BitXor(a, m)
  {
  }

  lemma HighWord(hi: seq<Byte>, c: nat)
    requires |hi| == 8 && c <= 1
    ensures LeBytes(BitOr(c, 2 * LeVal(hi) % W64), 8) == Doubled(hi, c)
  {
    hide LeVal, Doubled, Pow, LeBytes;
    var v := LeVal(hi);
    Shifts();
    LeBytesMod(2 * v + c, 8, W64);
    DoubledIsDouble(hi, c);
    OrCarry(c, v % HALF64);
    DoubleMod(v, c);
    DoubleMod(v, 0);
  }

  lemma DoubleMod(v: nat, c: nat)
    requires c <= 1
    ensures (2 * v + c) % W64 == 2 * (v % HALF64) + c
  {
    var q, r := v / HALF64, v % HALF64;
    DivMod(v, HALF64);
    DivUnique(2 * v + c, W64, q, 2 * r + c);
  }

  lemma OrCarry(c: nat, h: nat)
    requires c <= 1
    ensures BitOr(c, 2 * h) == 2 * h + c
  {
  }

  // ---------------------------------------------------------------- the mode

  function Tweak(t: Block, n: nat): Block
  {
    if n == 0 then t else Alpha(Tweak(t, n - 1))
  }

  /** One block under a tweak. */
  function XtsBlock(C: Cipher, s: Block, t: Block): Block
  {
    XorBlock(C(XorBlock(s, t)), t)
  }

  /** Whole blocks, block j under tweak j. */
  function Full(C: Cipher, t: Block, s: seq<Byte>): (r: seq<Byte>)
    requires |s| % 16 == 0
    ensures |r| == |s|
  {
    if s == [] then [] else
    var n := |s| - 16;
    Full(C, t, s[..n]) + XtsBlock(C, s[n..], Tweak(t, n / 16))
  }

  /** Where the last full block starts when bytes are left over. */
  function Cut(length: nat): (n: nat)
    requires length >= 16
    ensures n % 16 == 0 && n + 16 <= length < n + 32
  {
    length - length % 16 - 16
  }

  lemma CutAt(n: nat, last: nat)
    requires n % 16 == 0 && 16 <= last < 32
    ensures Cut(n + last) == n && (n + last) % 16 == last - 16
  {
  }

  /** The last full block and the bytes left over: the block is processed first and lends its tail to them. */
  function Stolen(C: Cipher, whole: Block, tail: seq<Byte>, t1: Block, t2: Block): (r: seq<Byte>)
    requires |tail| < 16
    ensures |r| == 16 + |tail|
  {
    var x := XtsBlock(C, whole, t1);
    XtsBlock(C, tail + x[|tail|..], t2) + x[..|tail|]
  }

  /** The last block i and what follows it; decryption takes the last two tweaks in the opposite order. */
  function Last(C: Cipher, t: Block, i: nat, last: seq<Byte>, decrypting: bool): (r: seq<Byte>)
    requires 16 <= |last| < 32
    ensures |r| == |last|
  {
    if decrypting then Stolen(C, last[..16], last[16..], Tweak(t, i + 1), Tweak(t, i))
    else Stolen(C, last[..16], last[16..], Tweak(t, i), Tweak(t, i + 1))
  }

  /** A data unit of at least one block (sections 5.3.2 and 5.4.2 of IEEE Std 1619-2007). */
  function Unit(C: Cipher, t: Block, s: seq<Byte>, decrypting: bool): (r: seq<Byte>)
    requires |s| >= 16
    ensures |r| == |s|
  {
    if |s| % 16 == 0 then Full(C, t, s) else
    var n := Cut(|s|);
    Full(C, t, s[..n]) + Last(C, t, n / 16, s[n..], decrypting)
  }

  lemma XtsBlockInverse(E: Cipher, D: Cipher, s: Block, t: Block)
    requires Inverse(E, D)
    ensures XtsBlock(D, XtsBlock(E, s, t), t) == s
  {
    hide XorBlock;
    XorBlockCancel(E(XorBlock(s, t)), t);
    XorBlockCancel(s, t);
  }

  lemma FullStep(C: Cipher, t: Block, s: seq<Byte>, b: Block)
    requires |s| % 16 == 0
    ensures Full(C, t, s + b) == Full(C, t, s) + XtsBlock(C, b, Tweak(t, |s| / 16))
  {
    assert (s + b)[..|s|] == s && (s + b)[|s|..] == b;
  }

  lemma {:induction false} FullBlock(C: Cipher, t: Block, s: seq<Byte>, j: nat)
    requires |s| % 16 == 0 && 16 * j + 16 <= |s|
    ensures BlockAt(Full(C, t, s), j) == XorBlock(C(XorBlock(BlockAt(s, j), Tweak(t, j))), Tweak(t, j))
  {
    hide Full, XorBlock, Tweak, BlockAt;
    var n := |s| - 16;
    var front, last: Block := s[..n], s[n..];
    assert s == front + last;
    FullStep(C, t, front, last);
    var b := XtsBlock(C, last, Tweak(t, n / 16));
    if 16 * j < n {
      FullBlock(C, t, front, j);
      BlockAtFront(front, last, j);
      BlockAtFront(Full(C, t, front), b, j);
    } else {
      DivUnique(n, 16, j, 0);
      BlockAtEnd(front, last);
      BlockAtEnd(Full(C, t, front), b);
    }
  }

  /** Section 5.3.2 of IEEE Std 1619-2007: block j is masked with tweak j, ciphered, and masked again. */
  lemma UnitBlock(C: Cipher, t: Block, s: seq<Byte>, decrypting: bool, j: nat)
    requires |s| >= 16 && 16 * j + 16 <= (if |s| % 16 == 0 then |s| else Cut(|s|))
    ensures BlockAt(Unit(C, t, s, decrypting), j) ==
      XorBlock(C(XorBlock(BlockAt(s, j), Tweak(t, j))), Tweak(t, j))
  {
    hide Full, XorBlock, Tweak, BlockAt, Last, Unit, Cut;
    if |s| % 16 == 0 {
      WholeUnit(C, t, s, decrypting);
      FullBlock(C, t, s, j);
    } else {
      var n := Cut(|s|);
      UnitCut(C, t, s, decrypting);
      FullBlock(C, t, s[..n], j);
      BlockAtFront(s[..n], s[n..], j);
      SplitAt(s, n);
      BlockAtFront(Full(C, t, s[..n]), Last(C, t, n / 16, s[n..], decrypting), j);
    }
  }

  /**
   With b bytes after the last whole block i: that block, under tweak i, or i + 1 for decryption,
   gives its first b bytes to the end, and the b bytes with the rest of it, under the other tweak,
   take its place.
   */
  lemma UnitStolen(C: Cipher, t: Block, s: seq<Byte>, decrypting: bool, i: nat, b: nat)
    requires |s| == 16 * i + 16 + b && 0 < b < 16
    ensures var out := Unit(C, t, s, decrypting);
      var (t1, t2) := (Tweak(t, if decrypting then i + 1 else i), Tweak(t, if decrypting then i else i + 1));
      var x := XorBlock(C(XorBlock(BlockAt(s, i), t1)), t1);
      && out[16 * i + 16..] == x[..b]
      && BlockAt(out, i) == XorBlock(C(XorBlock(s[16 * i + 16..] + x[b..], t2)), t2)
  {
    hide Full, XorBlock, Tweak, Unit;
    CutAt(16 * i, 16 + b);
    UnitCut(C, t, s, decrypting);
    var last := s[16 * i..];
    assert last[..16] == BlockAt(s, i) && last[16..] == s[16 * i + 16..];
  }

  lemma {:induction false} FullInverse(E: Cipher, D: Cipher, t: Block, s: seq<Byte>)
    requires Inverse(E, D) && |s| % 16 == 0
    ensures Full(D, t, Full(E, t, s)) == s
  {
    if s != [] {
      hide XtsBlock, Tweak, Full;
      var n := |s| - 16;
      var front, last: Block := s[..n], s[n..];
      FullInverse(E, D, t, front);
      assert s == front + last;
      FullStep(E, t, front, last);
      FullStep(D, t, Full(E, t, front), XtsBlock(E, last, Tweak(t, n / 16)));
      XtsBlockInverse(E, D, last, Tweak(t, n / 16));
    }
  }

  /** Swapping the two tweaks undoes the stealing. */
  lemma StolenInverse(E: Cipher, D: Cipher, whole: Block, tail: seq<Byte>, u: Block, v: Block)
    requires Inverse(E, D) && |tail| < 16
    ensures var c := Stolen(E, whole, tail, u, v); Stolen(D, c[..16], c[16..], v, u) == whole + tail
  {
    hide XtsBlock;
    var left := |tail|;
    var x := XtsBlock(E, whole, u);
    var mixed := tail + x[left..];
    XtsBlockInverse(E, D, mixed, v);
    XtsBlockInverse(E, D, whole, u);
    assert mixed[left..] == x[left..] && mixed[..left] == tail && x[..left] + x[left..] == x;
  }

  lemma UnitParts(C: Cipher, t: Block, front: seq<Byte>, last: seq<Byte>, decrypting: bool)
    requires |front| % 16 == 0 && 16 < |last| < 32
    ensures Unit(C, t, front + last, decrypting) == Full(C, t, front) + Last(C, t, |front| / 16, last, decrypting)
  {
    hide Full, Last, Cut, Unit;
    var s := front + last;
    CutAt(|front|, |last|);
    UnitCut(C, t, s, decrypting);
    assert s[..|front|] == front && s[|front|..] == last;
  }

  lemma UnitCut(C: Cipher, t: Block, s: seq<Byte>, decrypting: bool)
    requires |s| >= 16 && |s| % 16 != 0
    ensures var n := Cut(|s|);
      Unit(C, t, s, decrypting) == Full(C, t, s[..n]) + Last(C, t, n / 16, s[n..], decrypting)
  {
  }

  /** Decryption undoes encryption for every data unit, stealing included. */
  lemma DecryptUndoesEncrypt(E: Cipher, D: Cipher, t: Block, s: seq<Byte>)
    requires Inverse(E, D) && |s| >= 16
    ensures Unit(D, t, Unit(E, t, s, false), true) == s
  {
    hide Full, XtsBlock, Tweak, Stolen;
    if |s| % 16 == 0 {
      FullInverse(E, D, t, s);
    } else {
      hide Unit, Cut;
      var n := Cut(|s|);
      var front, last := s[..n], s[n..];
      assert s == front + last && last == last[..16] + last[16..];
      UnitParts(E, t, front, last, false);
      UnitParts(D, t, Full(E, t, front), Last(E, t, n / 16, last, false), true);
      StolenInverse(E, D, last[..16], last[16..], Tweak(t, n / 16), Tweak(t, n / 16 + 1));
      FullInverse(E, D, t, front);
    }
  }

  // ---------------------------------------------------------------- mbedtls_aes_crypt_xts

  datatype Ret = Ok | InvalidLength

  class Context {
    const encrypt: Cipher
    const decrypt: Cipher
    const tweakCipher: Cipher

    constructor (E: Cipher, D: Cipher, T: Cipher)
      ensures encrypt == E && decrypt == D && tweakCipher == T
    {
      encrypt, decrypt, tweakCipher := E, D, T;
    }

    /** Refuses lengths outside one block to 2^20 blocks, else writes the data unit to output. */
    method CryptXts(decrypting: bool, dataUnit: Block, input: seq<Byte>, output: array<Byte>) returns (r: Ret)
      requires output.Length >= |input|
      modifies output
      ensures r == Ok <==> 16 <= |input| <= 0x100_0000
      ensures r != Ok ==> output[..] == old(output[..])
      ensures r == Ok ==>
        output[..|input|] == Unit(if decrypting then decrypt else encrypt, tweakCipher(dataUnit), input, decrypting)
      ensures r == Ok ==> output[|input|..] == old(output[|input|..])
    {
      hide Full, XtsBlock, Tweak, Unit;
      if |input| < 16 || |input| > 0x100_0000 {
        return InvalidLength;
      }
      var C := if decrypting then decrypt else encrypt;
      var blocks, leftover := |input| / 16, |input| % 16;
      var t := tweakCipher(dataUnit);
      var tweak, prev := CryptBlocks(C, decrypting, t, input, output);
      if leftover != 0 {
        StealUnit(C, decrypting, t, if decrypting then prev else tweak, input, output, 16 * (blocks - 1));
      } else {
        WholeUnit(C, t, input, decrypting);
      }
      return Ok;
    }
  }

  /** Encrypting and then decrypting a data unit of any accepted length returns it. */
  method RoundTrip(E: Cipher, D: Cipher, T: Cipher, dataUnit: Block, input: seq<Byte>) returns (r: Ret, back: seq<Byte>)
    requires Inverse(E, D)
    ensures r == Ok <==> 16 <= |input| <= 0x100_0000
    ensures r == Ok ==> back == input
  {
    hide Unit;
    back := [];
    var ctx := new Context(E, D, T);
    var middle := new Byte[|input|](i => 0);
    var output := new Byte[|input|](i => 0);
    r := ctx.CryptXts(false, dataUnit, input, middle);
    if r != Ok {
      return;
    }
    DecryptUndoesEncrypt(E, D, T(dataUnit), input);
    assert middle[..] == middle[..|input|];
    r := ctx.CryptXts(true, dataUnit, middle[..], output);
    back := output[..];
    assert back == output[..|input|];
  }

  /** The data unit is complete once the leftover bytes have been dealt with. */
  method StealUnit(C: Cipher, decrypting: bool, ghost t: Block, tweak: Block, input: seq<Byte>, output: array<Byte>,
                   n: nat)
    requires output.Length >= |input| && n % 16 == 0 && n + 16 < |input| < n + 32
    requires output[..n] == Full(C, t, input[..n])
    requires output[n..n + 16] == XtsBlock(C, input[n..n + 16], Tweak(t, if decrypting then n / 16 + 1 else n / 16))
    requires tweak == Tweak(t, if decrypting then n / 16 else n / 16 + 1)
    modifies output
    ensures output[..|input|] == Unit(C, t, input, decrypting)
    ensures output[|input|..] == old(output[|input|..])
  {
    hide Full, XtsBlock, Tweak, Unit;
    var rest := input[n + 16..];
    ghost var front, last := input[..n], input[n..];
    UnitParts(C, t, front, last, decrypting);
    SplitAt(input, n);
    assert last[..16] == input[n..n + 16] && last[16..] == rest;
    Steal(C, tweak, rest, output, n + 16);
    SplitAt(output[..|input|], n);
    assert output[..|input|][..n] == output[..n] && output[..|input|][n..] == output[n..|input|];
  }

  lemma WholeUnit(C: Cipher, t: Block, s: seq<Byte>, decrypting: bool)
    requires |s| >= 16 && |s| % 16 == 0
    ensures Unit(C, t, s, decrypting) == Full(C, t, s)
  {
  }

  /** The block loop; with bytes left over, a decryption skips one tweak before its last block. */
  method CryptBlocks(C: Cipher, decrypting: bool, t: Block, input: seq<Byte>, output: array<Byte>)
    returns (tweak: Block, prev: Block)
    requires output.Length >= |input| >= 16
    modifies output
    ensures output[|input|..] == old(output[|input|..])
    ensures |input| % 16 == 0 ==> output[..|input|] == Full(C, t, input)
    ensures |input| % 16 != 0 ==>
      var n := Cut(|input|);
      && output[..n] == Full(C, t, input[..n])
      && output[n..n + 16] == XtsBlock(C, input[n..n + 16], Tweak(t, if decrypting then n / 16 + 1 else n / 16))
      && (if decrypting then prev == Tweak(t, n / 16) else tweak == Tweak(t, n / 16 + 1))
  {
    hide Full, XtsBlock, Alpha, Tweak, Gf128MulX;
    var blocks, leftover := |input| / 16, |input| % 16;
    tweak, prev := t, t;
    var done := 0;
    FirstTweak(C, t);
    while done < blocks
      invariant 0 <= done <= blocks && output[|input|..] == old(output[|input|..])
      invariant leftover == 0 || done < blocks ==>
        output[..16 * done] == Full(C, t, input[..16 * done]) && tweak == Tweak(t, done)
      invariant leftover != 0 && done == blocks ==>
        && output[..16 * (done - 1)] == Full(C, t, input[..16 * (done - 1)])
        && output[16 * (done - 1)..16 * done] ==
           XtsBlock(C, input[16 * (done - 1)..16 * done], Tweak(t, if decrypting then done else done - 1))
        && (if decrypting then prev == Tweak(t, done - 1) else tweak == Tweak(t, done))
    {
      var at := 16 * done;
      if leftover != 0 && decrypting && done + 1 == blocks {
        prev := tweak;
        Gf128IsAlpha(tweak);
        tweak := Gf128MulX(tweak);
      }
      ghost var mid := output[..];
      CryptBlock(C, input[at..at + 16], tweak, output, at);
      BeyondKept(mid, output[..], at + 16, |input|);
      FullNext(C, t, input, done);
      assert output[..at + 16] == output[..at] + output[at..at + 16];
      Gf128IsAlpha(tweak);
      tweak := Gf128MulX(tweak);
      done := done + 1;
    }
    if leftover == 0 {
      assert input[..16 * blocks] == input;
    }
  }

  lemma FirstTweak(C: Cipher, t: Block)
    ensures Tweak(t, 0) == t && Full(C, t, []) == []
    ensures forall n: nat :: Tweak(t, n + 1) == Alpha(Tweak(t, n))
  {
  }

  lemma FullNext(C: Cipher, t: Block, input: seq<Byte>, done: nat)
    requires 16 * done + 16 <= |input|
    ensures Full(C, t, input[..16 * done + 16]) ==
      Full(C, t, input[..16 * done]) + XtsBlock(C, input[16 * done..16 * done + 16], Tweak(t, done))
  {
    hide Full, XtsBlock, Tweak;
    var at := 16 * done;
    assert input[..at + 16] == input[..at] + input[at..at + 16];
    FullStep(C, t, input[..at], input[at..at + 16]);
  }

  /** tmp = input ^ tweak, enciphered, output = tmp ^ tweak. */
  method CryptBlock(C: Cipher, s: Block, tweak: Block, output: array<Byte>, at: nat)
    requires at + 16 <= output.Length
    modifies output
    ensures output[at..at + 16] == XtsBlock(C, s, tweak)
    ensures output[..at] == old(output[..at]) && output[at + 16..] == old(output[at + 16..])
  {
    hide XtsBlock;
    var tmp := new Byte[16](i => 0);
    XorLoop(s, tweak, tmp, 0);
    XtsBlockSteps(C, s, tweak);
    assert tmp[..] == tmp[0..16];
    XorLoop(C(tmp[..]), tweak, output, at);
  }

  lemma XtsBlockSteps(C: Cipher, s: Block, t: Block)
    ensures XtsBlock(C, s, t) == XorBlock(C(XorBlock(s, t)), t)
  {
  }

  /** Ciphertext stealing: the leftover input takes the tail of the block before it. */
  method Steal(C: Cipher, t: Block, rest: seq<Byte>, output: array<Byte>, at: nat)
    requires 16 <= at && 0 < |rest| < 16 && at + |rest| <= output.Length
    modifies output
    ensures var x := old(output[at - 16..at]);
      output[at - 16..at + |rest|] == XtsBlock(C, rest + x[|rest|..], t) + x[..|rest|]
    ensures output[..at - 16] == old(output[..at - 16]) && output[at + |rest|..] == old(output[at + |rest|..])
  {
    hide XtsBlock;
    var mixed := Gather(rest, output, at);
    ghost var mid := output[..];
    CryptBlock(C, mixed, t, output, at - 16);
    StealParts(old(output[..]), mid, output[..], at, |rest|);
    assert output[at - 16..at + |rest|] == output[..][at - 16..at + |rest|];
    assert output[at - 16..at] == output[..][at - 16..at];
  }

  lemma StealParts(a: seq<Byte>, m: seq<Byte>, b: seq<Byte>, at: nat, k: nat)
    requires 16 <= at && at + k <= |a| == |m| == |b|
    requires m[..at] == a[..at] && m[at + k..] == a[at + k..] && b[..at - 16] == m[..at - 16] && b[at..] == m[at..]
    ensures b[at - 16..at + k] == b[at - 16..at] + m[at..at + k]
    ensures b[..at - 16] == a[..at - 16] && b[at + k..] == a[at + k..]
  {
    assert b[at..at + k] == b[at..][..k] == m[at..][..k] == m[at..at + k];
    assert a[..at - 16] == a[..at][..at - 16] && m[..at - 16] == m[..at][..at - 16];
    assert b[at + k..] == b[at..][k..] && m[at + k..] == m[at..][k..];
  }

  /** Copies the head of the previous block behind it and pairs its tail with the leftover input. */
  method Gather(rest: seq<Byte>, output: array<Byte>, at: nat) returns (mixed: Block)
    requires 16 <= at && 0 < |rest| < 16 && at + |rest| <= output.Length
    modifies output
    ensures var x := old(output[at - 16..at]);
      mixed == rest + x[|rest|..] && output[..at] == old(output[..at]) && output[at..at + |rest|] == x[..|rest|]
    ensures output[at + |rest|..] == old(output[at + |rest|..])
  {
    var tmp := new Byte[16](i => 0);
    ghost var x := output[at - 16..at];
    var i := 0;
    while i < |rest|
      invariant 0 <= i <= |rest|
      invariant output[..at] == old(output[..at]) && output[at + |rest|..] == old(output[at + |rest|..])
      invariant output[at..at + i] == x[..i]
      invariant tmp[..i] == rest[..i]
    {
      assert output[at - 16 + i] == output[..at][at - 16 + i] == x[i];
      ghost var done := output[at..at + i];
      output[at + i] := output[at - 16 + i];
      assert output[at..at + (i + 1)] == done + [x[i]] && x[..i + 1] == x[..i] + [x[i]];
      tmp[i] := rest[i];
      i := i + 1;
    }
    assert output[..at][at - 16..at] == x;
    FillTail(tmp, |rest|, output[at - 16..at]);
    mixed := tmp[..];
  }

  method FillTail(tmp: array<Byte>, at: nat, x: Block)
    requires tmp.Length == 16 && at <= 16
    modifies tmp
    ensures tmp[..] == old(tmp[..at]) + x[at..]
  {
    var i := at;
    while i < 16
      invariant at <= i <= 16 && tmp[..at] == old(tmp[..at]) && tmp[at..i] == x[at..i]
    {
      ghost var done := tmp[at..i];
      tmp[i] := x[i];
      assert tmp[at..i + 1] == done + [x[i]] && x[at..i + 1] == x[at..i] + [x[i]];
      i := i + 1;
    }
    assert x[at..16] == x[at..] && tmp[at..16] == tmp[at..];
    assert tmp[..] == tmp[..at] + tmp[at..];
  }
}
