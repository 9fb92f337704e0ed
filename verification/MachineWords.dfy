/** Numbers below 2^32 as 32-bit machine words: arithmetic, exclusive or and shifts carry over. */
module MachineWords {
  import opened Arith
  import opened Bits

  // ---------------------------------------------------------------- operations on words

  function None(): bv32 { 0 }

  function Inc(p: bv32): bv32 { p + 1 }

  function Dec(p: bv32): bv32 { p - 1 }

  function Plus(p: bv32, q: bv32): bv32 { p + q }

  function Minus(p: bv32, q: bv32): bv32 { p - q }

  function Differ(p: bv32, q: bv32): bv32 { p ^ q }

  /** p with one more bit at the low end. */
  function Push(p: bv32, b: bool): bv32 { if b then (p << 1) | 1 else p << 1 }

  /** p without its lowest bit. */
  function Pop(p: bv32): bv32 { p >> 1 }

  predicate TopClear(p: bv32) { p >> 31 == 0 }

  /** The number of a word. */
  function Number(p: bv32): nat { p as nat }

  lemma PushInc(p: bv32)
    ensures Inc(Push(p, false)) == Push(p, true) && Inc(Push(p, true)) == Push(Inc(p), false)
  {
  }

  lemma PlusInc(p: bv32, q: bv32)
    ensures Plus(p, Inc(q)) == Inc(Plus(p, q)) && Plus(p, None()) == p && Push(None(), false) == None()
  {
  }

  lemma MinusInc(p: bv32, q: bv32)
    ensures Minus(p, Inc(q)) == Dec(Minus(p, q)) && Minus(p, None()) == p
  {
  }

  lemma DecInc(p: bv32)
    ensures Dec(Inc(p)) == p
  {
  }

  lemma PushDiffer(p: bv32, a: bool, q: bv32, b: bool)
    ensures Differ(Push(p, a), Push(q, b)) == Push(Differ(p, q), a != b)
  {
    hide *;
    if a {
      if b { Differ11(p, q); } else { Differ10(p, q); }
    } else {
      if b { Differ01(p, q); } else { Differ00(p, q); }
    }
  }

  lemma Differ00(p: bv32, q: bv32)
    ensures Differ(Push(p, false), Push(q, false)) == Push(Differ(p, q), false)
  {
  }

  lemma Differ01(p: bv32, q: bv32)
    ensures Differ(Push(p, false), Push(q, true)) == Push(Differ(p, q), true)
  {
  }

  lemma Differ10(p: bv32, q: bv32)
    ensures Differ(Push(p, true), Push(q, false)) == Push(Differ(p, q), true)
  {
  }

  lemma Differ11(p: bv32, q: bv32)
    ensures Differ(Push(p, true), Push(q, true)) == Push(Differ(p, q), false)
  {
  }

  lemma DifferNone(p: bv32)
    ensures Differ(p, None()) == p && Differ(None(), p) == p
  {
  }

  lemma PushPop(p: bv32, b: bool)
    requires TopClear(p)
    ensures Pop(Push(p, b)) == p
  {
  }

  lemma PushNumber(p: bv32, b: bool)
    requires TopClear(p)
    ensures Number(Push(p, b)) == 2 * Number(p) + if b then 1 else 0
  {
    if b {
      PushOne(p);
    } else {
      PushZero(p);
    }
  }

  lemma PushOne(p: bv32)
    requires TopClear(p)
    ensures Number(Push(p, true)) == 2 * Number(p) + 1
  {
    RawOne(p);
  }

  lemma RawOne(p: bv32)
    requires p >> 31 == 0
    ensures ((p << 1) | 1) as int == 2 * (p as int) + 1 && (p << 1) as int == 2 * (p as int)
  {
  }

  lemma PushZero(p: bv32)
    requires TopClear(p)
    ensures Number(Push(p, false)) == 2 * Number(p)
  {
    RawOne(p);
  }

  // ---------------------------------------------------------------- the word of a number

  /** Bit by bit; numbers beyond 32 bits wrap. */
  function Word32(x: nat): bv32
  {
    if x == 0 then None() else Push(Word32(x / 2), x % 2 == 1)
  }

  lemma Word32Step(x: nat)
    ensures Word32(0) == None() && Word32(x) == Push(Word32(x / 2), x % 2 == 1)
  {
    hide Push, None;
    PlusInc(None(), None());
  }

  lemma {:induction false} Word32Next(x: nat)
    ensures Word32(x + 1) == Inc(Word32(x))
  {
    hide *;
    Word32Step(x);
    Word32Step(x + 1);
    PushInc(Word32(x / 2));
    if x % 2 == 1 {
      Word32Next(x / 2);
      assert (x + 1) / 2 == x / 2 + 1;
    } else {
      assert (x + 1) / 2 == x / 2;
    }
  }

  lemma {:induction false} Word32Sum(x: nat, y: nat)
    ensures Word32(x + y) == Plus(Word32(x), Word32(y))
    decreases y
  {
    hide *;
    Word32Step(0);
    if y == 0 {
      PlusInc(Word32(x), None());
    } else {
      Word32Sum(x, y - 1);
      Word32Next(x + y - 1);
      Word32Next(y - 1);
      PlusInc(Word32(x), Word32(y - 1));
    }
  }

  lemma {:induction false} Word32Xor(x: nat, y: nat)
    ensures Word32(BitXor(x, y)) == Differ(Word32(x), Word32(y))
  {
    hide *;
    Word32Step(0);
    if x == 0 || y == 0 {
      XorNothing(x);
      XorNothing(y);
      DifferNone(Word32(x));
      DifferNone(Word32(y));
    } else {
      Word32Xor(x / 2, y / 2);
      XorParts(x, y);
      Word32Step(x);
      Word32Step(y);
      Word32Step(BitXor(x, y));
      PushDiffer(Word32(x / 2), x % 2 == 1, Word32(y / 2), y % 2 == 1);
    }
  }

  // ---------------------------------------------------------------- shifts

  function Up(p: bv32, k: nat): bv32
  {
    if k == 0 then p else Push(Up(p, k - 1), false)
  }

  function Down(p: bv32, k: nat): bv32
  {
    if k == 0 then p else Pop(Down(p, k - 1))
  }

  lemma UpStep(p: bv32, k: nat)
    ensures Up(p, 0) == p && Up(p, k + 1) == Push(Up(p, k), false)
  {
    hide Push;
  }

  lemma DownStep(p: bv32, k: nat)
    ensures Down(p, 0) == p && Down(p, k + 1) == Pop(Down(p, k))
  {
    hide Pop;
  }

  /** The machine's shifts are these. */
  function ShiftLeft(p: bv32, k: bv6): bv32
    requires k <= 32
  {
    p << k
  }

  function ShiftRight(p: bv32, k: bv6): bv32
    requires k <= 32
  {
    p >> k
  }

  lemma ShiftLeftStep(p: bv32, k: bv6)
    requires 0 < k <= 32
    ensures ShiftLeft(p, k) == Push(ShiftLeft(p, k - 1), false)
  {
  }

  lemma ShiftRightStep(p: bv32, k: bv6)
    requires 0 < k <= 32
    ensures ShiftRight(p, k) == Pop(ShiftRight(p, k - 1))
  {
  }

  lemma ShiftNothing(p: bv32)
    ensures ShiftLeft(p, 0) == p && ShiftRight(p, 0) == p
  {
  }

  function Amount(k: bv6): nat { k as nat }

  lemma AmountStep(k: bv6)
    ensures Amount(k) > 0 ==> k > 0 && Amount(k - 1) == Amount(k) - 1
    ensures Amount(k) == 0 ==> k == 0
    ensures Amount(k) <= 32 ==> k <= 32
  {
  }

  lemma {:induction false} UpIsShift(p: bv32, n: nat, k: bv6)
    requires n == Amount(k) && n <= 32
    ensures k <= 32 && Up(p, n) == ShiftLeft(p, k)
    decreases n
  {
    hide *;
    AmountStep(k);
    if n == 0 {
      UpStep(p, 0);
      ShiftNothing(p);
    } else {
      AmountStep(k - 1);
      UpIsShift(p, n - 1, k - 1);
      UpStep(p, n - 1);
      ShiftLeftStep(p, k);
    }
  }

  lemma {:induction false} DownIsShift(p: bv32, n: nat, k: bv6)
    requires n == Amount(k) && n <= 32
    ensures k <= 32 && Down(p, n) == ShiftRight(p, k)
    decreases n
  {
    hide *;
    AmountStep(k);
    if n == 0 {
      DownStep(p, 0);
      ShiftNothing(p);
    } else {
      AmountStep(k - 1);
      DownIsShift(p, n - 1, k - 1);
      DownStep(p, n - 1);
      ShiftRightStep(p, k);
    }
  }

  lemma {:induction false} Word32Up(x: nat, k: nat)
    ensures x * Pow2(k) >= 0 && Word32(x * Pow2(k)) == Up(Word32(x), k)
  {
    hide *;
    UpStep(Word32(x), 0);
    MulMono(0, x, Pow2(k));
    if k == 0 {
      Pow2One();
    } else {
      Word32Up(x, k - 1);
      Pow2Succ(k - 1);
      MulAssoc(x, 2, Pow2(k - 1));
      MulAssoc(2, x, Pow2(k - 1));
      var y: nat := x * Pow2(k - 1);
      Word32Step(2 * y);
      assert (2 * y) / 2 == y && (2 * y) % 2 == 0;
      UpStep(Word32(x), k - 1);
    }
  }

  /** What lies beyond 32 bits is lost. */
  lemma Word32Wraps(x: nat, m: nat)
    requires m == Pow2(32)
    ensures m > 0 && Word32(x % m) == Word32(x)
  {
    hide *;
    var q: nat, r: nat := x / m, x % m;
    DivMod(x, m);
    Word32Sum(r, q * m);
    Word32Up(q, 32);
    UpLost(Word32(q));
    PlusInc(Word32(r), None());
  }

  lemma UpLost(p: bv32)
    ensures Up(p, 32) == None()
  {
    hide Up;
    UpIsShift(p, 32, 32);
  }

  lemma {:induction false} Word32Less(x: nat, y: nat)
    requires y <= x
    ensures Word32(x - y) == Minus(Word32(x), Word32(y))
    decreases y
  {
    hide *;
    Word32Step(0);
    if y == 0 {
      MinusInc(Word32(x), None());
    } else {
      Word32Less(x, y - 1);
      Word32Next(x - y);
      Word32Next(y - 1);
      MinusInc(Word32(x), Word32(y - 1));
      DecInc(Word32(x - y));
    }
  }

  lemma Word32Difference(x: nat, y: nat, m: nat)
    requires x < m && y < m && m == Pow2(32)
    ensures Word32((x - y) % m) == Minus(Word32(x), Word32(y))
  {
    hide *;
    if y <= x {
      ModSmall(x - y, m);
      Word32Less(x, y);
    } else {
      ModShift(x - y, x + m - y, -1, m);
      ModSmall(x + m - y, m);
      Word32Less(x + m, y);
      Word32Wraps(x + m, m);
      ModShift(x + m, x, 1, m);
      ModSmall(x, m);
    }
  }

  // ---------------------------------------------------------------- numbers back

  /** Small numbers leave the high bits clear. */
  lemma {:induction false} Word32High(x: nat, n: nat)
    requires x < Pow2(n)
    ensures Meet(Word32(x), Up(Ones(), n)) == None()
  {
    hide *;
    Word32Step(0);
    if x == 0 {
      PushMeet(None(), false, None());
      MeetNone(Up(Ones(), n));
    } else {
      if n == 0 {
        Pow2One();
      }
      Pow2Succ(n - 1);
      Word32High(x / 2, n - 1);
      Word32Step(x);
      UpStep(Ones(), n - 1);
      PushMeet(Word32(x / 2), x % 2 == 1, Up(Ones(), n - 1));
    }
  }

  function Meet(p: bv32, q: bv32): bv32 { p & q }

  function Ones(): bv32 { 0xffff_ffff }

  lemma PushMeet(p: bv32, b: bool, q: bv32)
    ensures Meet(Push(p, b), Push(q, false)) == Push(Meet(p, q), false) && Push(None(), false) == None()
  {
  }

  lemma MeetNone(p: bv32)
    ensures Meet(None(), p) == None()
  {
  }

  lemma Word32TopClear(x: nat)
    requires x < Pow2(31)
    ensures TopClear(Word32(x))
  {
    hide *;
    Word32High(x, 31);
    TopMask(Word32(x));
  }

  lemma TopMask(p: bv32)
    ensures Meet(p, Up(Ones(), 31)) == None() <==> TopClear(p)
  {
    hide *;
    AmountTop();
    UpIsShift(Ones(), 31, 31);
    TopBit(p);
  }

  lemma AmountTop()
    ensures Amount(31) == 31
  {
  }

  lemma TopBit(p: bv32)
    ensures Meet(p, ShiftLeft(Ones(), 31)) == None() <==> TopClear(p)
  {
  }

  /** Word and number determine each other. */
  lemma {:induction false} Word32Number(x: nat)
    requires x < Pow2(32)
    ensures Number(Word32(x)) == x
  {
    hide *;
    Word32Step(x);
    if x == 0 {
      NumberNone();
    } else {
      Pow2Succ(31);
      Word32TopClear(x / 2);
      Word32Number(x / 2);
      PushNumber(Word32(x / 2), x % 2 == 1);
    }
  }

  lemma NumberNone()
    ensures Number(None()) == 0
  {
  }

  lemma {:induction false} Word32Down(x: nat, k: nat)
    requires x < Pow2(32)
    ensures Word32(x / Pow2(k)) == Down(Word32(x), k)
  {
    hide *;
    DownStep(Word32(x), 0);
    if k == 0 {
      Pow2One();
      assert x / 1 == x;
    } else {
      Word32Down(x, k - 1);
      Pow2Succ(k - 1);
      DivDiv(x, Pow2(k - 1), 2);
      var y := x / Pow2(k - 1);
      QuotientBound(x, Pow2(k - 1));
      Pow2Succ(31);
      Word32TopClear(y / 2);
      Word32Step(y);
      PushPop(Word32(y / 2), y % 2 == 1);
      DownStep(Word32(x), k - 1);
    }
  }

  lemma QuotientBound(x: nat, d: int)
    requires d >= 1
    ensures 0 <= x / d <= x
  {
    hide *;
    DivMod(x, d);
    MulMono(1, d, x / d);
  }

  /** Every word is the word of its number. */
  lemma {:induction false} WordOfNumber(p: bv32)
    ensures Word32(Number(p)) == p
    decreases Number(p)
  {
    hide *;
    PopPush(p);
    PushNumber(Pop(p), Odd(p));
    if Number(p) == 0 {
      NumberZero(p);
      Word32Step(0);
    } else {
      WordOfNumber(Pop(p));
      Word32Step(Number(p));
    }
  }

  predicate Odd(p: bv32) { p & 1 == 1 }

  lemma PopPush(p: bv32)
    ensures TopClear(Pop(p)) && Push(Pop(p), Odd(p)) == p
  {
  }

  lemma NumberZero(p: bv32)
    requires Number(p) == 0
    ensures p == None()
  {
  }
}
