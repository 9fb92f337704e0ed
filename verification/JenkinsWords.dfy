/**
 The hash on 32-bit machine words, statement by statement as its macros have it, against the one on
 numbers; and published values of the function.
 */
module JenkinsWords {
  import opened Arith
  import opened Bits
  import opened Blocks
  import opened MachineWords
  import Jenkins

  type Words = Jenkins.Words

  // ---------------------------------------------------------------- the macros

  /** rot. */
  function RotW(x: bv32, k: bv6): bv32
    requires k <= 32
  {
    (x << k) ^ (x >> (32 - k))
  }

  /** A line of mix: x -= z; x ^= rot(z,k); z += y. */
  function MixLine(x: bv32, y: bv32, z: bv32, k: bv6): (bv32, bv32)
    requires k <= 32
  {
    ((x - z) ^ RotW(z, k), z + y)
  }

  function MixW(a: bv32, b: bv32, c: bv32): (bv32, bv32, bv32)
  {
    var (a, c) := MixLine(a, b, c, 4);
    var (b, a) := MixLine(b, c, a, 6);
    var (c, b) := MixLine(c, a, b, 8);
    var (a, c) := MixLine(a, b, c, 16);
    var (b, a) := MixLine(b, c, a, 19);
    var (c, b) := MixLine(c, a, b, 4);
    (a, b, c)
  }

  /** A line of final: x ^= y; x -= rot(y,k). */
  function FinalLine(x: bv32, y: bv32, k: bv6): bv32
    requires k <= 32
  {
    (x ^ y) - RotW(y, k)
  }

  function FinalW(a: bv32, b: bv32, c: bv32): bv32
  {
    var c := FinalLine(c, b, 14);
    var a := FinalLine(a, c, 11);
    var b := FinalLine(b, a, 25);
    var c := FinalLine(c, b, 16);
    var a := FinalLine(a, c, 4);
    var b := FinalLine(b, a, 14);
    FinalLine(c, b, 24)
  }

  // ---------------------------------------------------------------- one operation at a time

  lemma Radix()
    ensures Jenkins.M32 == Pow2(32)
  {
    hide Pow;
    Jenkins.Pow32();
  }

  lemma AddIs(x: Jenkins.U32, y: Jenkins.U32)
    ensures Word32(Jenkins.Add(x, y)) == Plus(Word32(x), Word32(y))
  {
    hide Word32, Pow2, Plus;
    Radix();
    Word32Sum(x, y);
    Word32Wraps(x + y, Jenkins.M32);
  }

  lemma SubIs(x: Jenkins.U32, y: Jenkins.U32)
    ensures Word32(Jenkins.Sub(x, y)) == Minus(Word32(x), Word32(y))
  {
    hide Word32, Pow2, Minus;
    Radix();
    Word32Difference(x, y, Jenkins.M32);
  }

  lemma XorIs(x: Jenkins.U32, y: Jenkins.U32)
    ensures Word32(Jenkins.Xor(x, y)) == Differ(Word32(x), Word32(y))
  {
    hide Word32, BitXor, Differ;
    Word32Xor(x, y);
  }

  lemma RotIs(x: Jenkins.U32, n: nat, k: bv6)
    requires n == Amount(k) && n <= 32
    ensures k <= 32 && Word32(Jenkins.Rot(x, n)) == RotW(Word32(x), k)
  {
    hide *;
    var p, m := Word32(x), 32 - n;
    Radix();
    LeftIs(x, n);
    RightIs(x, m);
    UpIsShift(p, n, k);
    AmountRest(k);
    DownIsShift(p, m, 32 - k);
    XorIs(Jenkins.Left(x, n), Jenkins.Right(x, m));
    RotParts(x, n);
    RotWParts(p, k);
  }

  lemma AmountRest(k: bv6)
    requires k <= 32
    ensures Amount(32 - k) == 32 - Amount(k)
  {
  }

  lemma RotParts(x: Jenkins.U32, n: nat)
    requires n <= 32
    ensures Jenkins.Rot(x, n) == Jenkins.Xor(Jenkins.Left(x, n), Jenkins.Right(x, 32 - n))
  {
  }

  lemma RotWParts(p: bv32, k: bv6)
    requires k <= 32
    ensures RotW(p, k) == Differ(ShiftLeft(p, k), ShiftRight(p, 32 - k))
  {
  }

  lemma LeftIs(x: Jenkins.U32, n: nat)
    ensures Word32(Jenkins.Left(x, n)) == Up(Word32(x), n)
  {
    hide Word32, Up, Pow;
    Radix();
    PowPos(2, n);
    MulMono(0, x, Pow2(n));
    Word32Up(x, n);
    Word32Wraps(x * Pow2(n), Jenkins.M32);
  }

  lemma RightIs(x: Jenkins.U32, n: nat)
    ensures Word32(Jenkins.Right(x, n)) == Down(Word32(x), n)
  {
    hide Word32, Down, Pow;
    Radix();
    Word32Down(x, n);
  }

  // ---------------------------------------------------------------- mix and final

  lemma MixLineParts(x: bv32, y: bv32, z: bv32, k: bv6)
    requires k <= 32
    ensures MixLine(x, y, z, k) == (Differ(Minus(x, z), RotW(z, k)), Plus(z, y))
  {
    hide RotW;
  }

  lemma RoundIs(x: Jenkins.U32, y: Jenkins.U32, z: Jenkins.U32, n: nat, k: bv6)
    requires n == Amount(k) && n <= 32
    ensures k <= 32
    ensures var r := Jenkins.Round(x, y, z, n);
      (Word32(r.0), Word32(r.1)) == MixLine(Word32(x), Word32(y), Word32(z), k)
  {
    hide *;
    RoundParts(x, y, z, n);
    RotIs(z, n, k);
    SubIs(x, z);
    XorIs(Jenkins.Sub(x, z), Jenkins.Rot(z, n));
    AddIs(z, y);
    MixLineParts(Word32(x), Word32(y), Word32(z), k);
  }

  lemma RoundParts(x: Jenkins.U32, y: Jenkins.U32, z: Jenkins.U32, n: nat)
    requires n <= 32
    ensures Jenkins.Round(x, y, z, n) == (Jenkins.Xor(Jenkins.Sub(x, z), Jenkins.Rot(z, n)), Jenkins.Add(z, y))
  {
  }

  lemma Amounts()
    ensures Amount(4) == 4 && Amount(6) == 6 && Amount(8) == 8 && Amount(11) == 11 && Amount(14) == 14
    ensures Amount(16) == 16 && Amount(19) == 19 && Amount(24) == 24 && Amount(25) == 25
  {
  }

  /** The words of the mixed numbers are the mixed words. */
  lemma MixIsWords(w: Words)
    ensures var m := Jenkins.Mix(w);
      (Word32(m.a), Word32(m.b), Word32(m.c)) == MixW(Word32(w.a), Word32(w.b), Word32(w.c))
  {
    hide Word32, MixLine, Amount, Jenkins.Round;
    Amounts();
    var (a1, c1) := Jenkins.Round(w.a, w.b, w.c, 4);
    RoundIs(w.a, w.b, w.c, 4, 4);
    var (b1, a2) := Jenkins.Round(w.b, c1, a1, 6);
    RoundIs(w.b, c1, a1, 6, 6);
    var (c2, b2) := Jenkins.Round(c1, a2, b1, 8);
    RoundIs(c1, a2, b1, 8, 8);
    var (a3, c3) := Jenkins.Round(a2, b2, c2, 16);
    RoundIs(a2, b2, c2, 16, 16);
    var (b3, a4) := Jenkins.Round(b2, c3, a3, 19);
    RoundIs(b2, c3, a3, 19, 19);
    RoundIs(c3, a4, b3, 4, 4);
  }

  lemma FinalLineParts(x: bv32, y: bv32, k: bv6)
    requires k <= 32
    ensures FinalLine(x, y, k) == Minus(Differ(x, y), RotW(y, k))
  {
    hide RotW, Minus, FinalLine;
    FinalLineMinus(x, y, k);
  }

  lemma FinalLineMinus(x: bv32, y: bv32, k: bv6)
    requires k <= 32
    ensures FinalLine(x, y, k) == Minus(x ^ y, RotW(y, k))
  {
    hide RotW;
  }

  lemma FinIs(x: Jenkins.U32, y: Jenkins.U32, n: nat, k: bv6)
    requires n == Amount(k) && n <= 32
    ensures k <= 32 && Word32(Jenkins.Fin(x, y, n)) == FinalLine(Word32(x), Word32(y), k)
  {
    hide *;
    FinParts(x, y, n);
    RotIs(y, n, k);
    XorIs(x, y);
    SubIs(Jenkins.Xor(x, y), Jenkins.Rot(y, n));
    FinalLineParts(Word32(x), Word32(y), k);
  }

  lemma FinParts(x: Jenkins.U32, y: Jenkins.U32, n: nat)
    requires n <= 32
    ensures Jenkins.Fin(x, y, n) == Jenkins.Sub(Jenkins.Xor(x, y), Jenkins.Rot(y, n))
  {
  }

  /** The word of the final number is the final word. */
  lemma FinalIsWords(w: Words)
    ensures Word32(Jenkins.Final(w)) == FinalW(Word32(w.a), Word32(w.b), Word32(w.c))
  {
    hide Word32, FinalLine, Amount, Jenkins.Fin;
    Amounts();
    var c1 := Jenkins.Fin(w.c, w.b, 14);
    FinIs(w.c, w.b, 14, 14);
    var a1 := Jenkins.Fin(w.a, c1, 11);
    FinIs(w.a, c1, 11, 11);
    var b1 := Jenkins.Fin(w.b, a1, 25);
    FinIs(w.b, a1, 25, 25);
    var c2 := Jenkins.Fin(c1, b1, 16);
    FinIs(c1, b1, 16, 16);
    var a2 := Jenkins.Fin(a1, c2, 4);
    FinIs(a1, c2, 4, 4);
    var b2 := Jenkins.Fin(b1, a2, 14);
    FinIs(b1, a2, 14, 14);
    FinIs(c2, b2, 24, 24);
  }

  // ---------------------------------------------------------------- published values

  /** The hash of the empty key is the start value. */
  lemma EmptyKey()
    ensures Jenkins.Hash([]) == 0xdead_beef
  {
  }

  /** "Four score and seven years ago". */
  const FOUR_SCORE: seq<Byte> := [
    0x46, 0x6f, 0x75, 0x72, 0x20, 0x73, 0x63, 0x6f, 0x72, 0x65, 0x20, 0x61,
    0x6e, 0x64, 0x20, 0x73, 0x65, 0x76, 0x65, 0x6e, 0x20, 0x79, 0x65, 0x61,
    0x72, 0x73, 0x20, 0x61, 0x67, 0x6f]

  lemma FourScore()
    ensures Jenkins.Hash(FOUR_SCORE) == 0x1777_0551
  {
    hide Jenkins.Mix, Jenkins.Final, Jenkins.HashFrom, Jenkins.Add12;
    var s := FOUR_SCORE;
    var t, u := s[12..], s[24..];
    FourScoreFirst();
    FourScoreSecond();
    FourScoreThird();
    HashLong(Jenkins.Start(30), s);
    assert t[12..] == u;
    HashLong(Jenkins.Words(0xf859ad7a, 0x4bc57ae, 0x40dddd7e), t);
    HashShort(Jenkins.Words(0x336aded2, 0x59f2642, 0xbd02ebd5), u);
  }

  lemma HashLong(w: Words, s: seq<Byte>)
    requires |s| > 12
    ensures Jenkins.HashFrom(w, s) == Jenkins.HashFrom(Jenkins.Mix(Jenkins.Add12(w, s)), s[12..])
  {
    hide Jenkins.Mix, Jenkins.Add12, Jenkins.Final;
  }

  lemma HashShort(w: Words, s: seq<Byte>)
    requires 0 < |s| <= 12
    ensures Jenkins.HashFrom(w, s) == Jenkins.Final(Jenkins.Add12(w, s))
  {
    hide Jenkins.Mix, Jenkins.Add12, Jenkins.Final;
  }

  lemma FourScoreFirst()
    ensures Jenkins.Mix(Jenkins.Add12(Jenkins.Start(30), FOUR_SCORE)) ==
      Jenkins.Words(0xf859ad7a, 0x4bc57ae, 0x40dddd7e)
  {
    hide Jenkins.Mix, MixW, Jenkins.Add12, Jenkins.Start;
    AddedFirst();
    MixedFirst();
    MixOf(0x51232e53, 0x4e11322d, 0x3fce247f);
  }

  lemma AddedFirst()
    ensures Jenkins.Add12(Jenkins.Start(30), FOUR_SCORE) == Jenkins.Words(0x51232e53, 0x4e11322d, 0x3fce247f)
  {
  }

  lemma MixedFirst()
    ensures MixW(0x51232e53, 0x4e11322d, 0x3fce247f) == (0xf859ad7a, 0x4bc57ae, 0x40dddd7e)
  {
  }

  lemma FourScoreSecond()
    ensures Jenkins.Mix(Jenkins.Add12(Jenkins.Words(0xf859ad7a, 0x4bc57ae, 0x40dddd7e), FOUR_SCORE[12..])) ==
      Jenkins.Words(0x336aded2, 0x59f2642, 0xbd02ebd5)
  {
    hide Jenkins.Mix, MixW, Jenkins.Add12;
    AddedSecond();
    MixedSecond();
    MixOf(0x6b7a11e8, 0x7321ce13, 0xa243569e);
  }

  lemma AddedSecond()
    ensures Jenkins.Add12(Jenkins.Words(0xf859ad7a, 0x4bc57ae, 0x40dddd7e), FOUR_SCORE[12..]) ==
      Jenkins.Words(0x6b7a11e8, 0x7321ce13, 0xa243569e)
  {
  }

  lemma MixedSecond()
    ensures MixW(0x6b7a11e8, 0x7321ce13, 0xa243569e) == (0x336aded2, 0x59f2642, 0xbd02ebd5)
  {
  }

  lemma FourScoreThird()
    ensures Jenkins.Final(Jenkins.Add12(Jenkins.Words(0x336aded2, 0x59f2642, 0xbd02ebd5), FOUR_SCORE[24..])) ==
      0x1777_0551
  {
    hide Jenkins.Final, FinalW, Jenkins.Add12;
    AddedThird();
    FinalThird();
    FinalOf(0x948b5244, 0x59f95a9, 0xbd02ebd5);
  }

  lemma AddedThird()
    ensures Jenkins.Add12(Jenkins.Words(0x336aded2, 0x59f2642, 0xbd02ebd5), FOUR_SCORE[24..]) ==
      Jenkins.Words(0x948b5244, 0x59f95a9, 0xbd02ebd5)
  {
  }

  lemma FinalThird()
    ensures FinalW(0x948b5244, 0x59f95a9, 0xbd02ebd5) == 0x1777_0551
  {
  }

  lemma NumberBound(p: bv32)
    ensures Number(p) < Jenkins.M32
  {
  }

  function Num(p: bv32): Jenkins.U32
  {
    NumberBound(p);
    Number(p)
  }

  /** The mixed numbers of words. */
  lemma MixOf(a: bv32, b: bv32, c: bv32)
    ensures var m := Jenkins.Mix(Jenkins.Words(Num(a), Num(b), Num(c)));
      var r := MixW(a, b, c);
      m == Jenkins.Words(Num(r.0), Num(r.1), Num(r.2))
  {
    hide Number, Word32, MixW, FinalW, Jenkins.Mix, Jenkins.Final, Pow2;
    WordOfNumber(a);
    WordOfNumber(b);
    WordOfNumber(c);
    var w := Jenkins.Words(Num(a), Num(b), Num(c));
    MixIsWords(w);
    Radix();
    Word32Number(Jenkins.Mix(w).a);
    Word32Number(Jenkins.Mix(w).b);
    Word32Number(Jenkins.Mix(w).c);
  }

  lemma FinalOf(a: bv32, b: bv32, c: bv32)
    ensures Jenkins.Final(Jenkins.Words(Num(a), Num(b), Num(c))) == Num(FinalW(a, b, c))
  {
    hide Number, Word32, MixW, FinalW, Jenkins.Mix, Jenkins.Final, Pow2;
    WordOfNumber(a);
    WordOfNumber(b);
    WordOfNumber(c);
    var w := Jenkins.Words(Num(a), Num(b), Num(c));
    FinalIsWords(w);
    Radix();
    Word32Number(Jenkins.Final(w));
  }
}
