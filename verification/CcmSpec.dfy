/**
 CCM on values: CBC-MAC byte by byte and as the standard has it, the formatting of the first block
 and the counters, and counter mode.
 */
module CcmSpec {
  import opened Arith
  import opened Blocks

  // ---------------------------------------------------------------- CBC-MAC, one byte at a time

  /** Byte b of a stream enters the MAC at position pos; a full block is enciphered at once. */
  function Feed(E: Cipher, y: Block, pos: nat, b: Byte): Block
  {
    var z := XorAt(y, pos % 16, [b]);
    if pos % 16 == 15 then E(z) else z
  }

  function Absorb(E: Cipher, y: Block, s: seq<Byte>): Block
  {
    if s == [] then y else Feed(E, Absorb(E, y, s[..|s| - 1]), |s| - 1, s[|s| - 1])
  }

  /** A partial last block is enciphered as if padded with zeros. */
  function Close(E: Cipher, y: Block, n: nat): Block
  {
    if n % 16 != 0 then E(y) else y
  }

  lemma AbsorbStep(E: Cipher, y: Block, s: seq<Byte>, b: Byte)
    ensures Absorb(E, y, s + [b]) == Feed(E, Absorb(E, y, s), |s|, b)
  {
    assert (s + [b])[..|s|] == s;
  }

  lemma XorAtStep(a: Block, off: nat, c: seq<Byte>, b: Byte)
    requires off + |c| < 16
    ensures XorAt(XorAt(a, off, c), off + |c|, [b]) == XorAt(a, off, c + [b])
  {
    hide Xor;
  }

  /** A chunk inside one block, as the loops process it. */
  lemma {:induction false} AbsorbChunk(E: Cipher, y: Block, s: seq<Byte>, c: seq<Byte>)
    requires |s| % 16 + |c| <= 16
    ensures Absorb(E, y, s + c) ==
      var z := XorAt(Absorb(E, y, s), |s| % 16, c); if |c| > 0 && |s| % 16 + |c| == 16 then E(z) else z
  {
    hide XorAt, Absorb;
    var a := Absorb(E, y, s);
    if c == [] {
      assert s + c == s;
      XorAtNothing(a, |s| % 16);
    } else {
      var n := |c| - 1;
      var c', b := c[..n], c[n];
      AbsorbChunk(E, y, s, c');
      assert s + c == (s + c') + [b] && c == c' + [b];
      AbsorbStep(E, y, s + c', b);
      XorAtStep(a, |s| % 16, c', b);
    }
  }

  lemma XorAtNothing(a: Block, off: nat)
    requires off < 16
    ensures XorAt(a, off, []) == a
  {
    hide Xor;
  }

  // ---------------------------------------------------------------- CBC-MAC as the standard has it

  /** Section 6.1 of NIST SP 800-38C: Y_i = CIPH(B_i xor Y_(i-1)) over whole blocks. */
  function CbcMac(E: Cipher, y: Block, s: seq<Byte>): Block
    requires |s| % 16 == 0
  {
    if s == [] then y else E(XorBlock(CbcMac(E, y, s[..|s| - 16]), s[|s| - 16..]))
  }

  function Padded(s: seq<Byte>): (r: seq<Byte>)
    ensures |r| % 16 == 0
  {
    s + Zeros((16 - |s| % 16) % 16)
  }

  lemma CbcMacStep(E: Cipher, y: Block, s: seq<Byte>, b: Block)
    requires |s| % 16 == 0
    ensures CbcMac(E, y, s + b) == E(XorBlock(CbcMac(E, y, s), b))
  {
    assert (s + b)[..|s|] == s && (s + b)[|s|..] == b;
  }

  lemma CbcMacNothing(E: Cipher, y: Block)
    ensures CbcMac(E, y, []) == y
  {
  }

  lemma SixteensAdd(m: nat, n: nat)
    requires m % 16 == 0 && n % 16 == 0
    ensures (m + n) % 16 == 0
  {
  }

  lemma {:induction false} CbcMacConcat(E: Cipher, y: Block, a: seq<Byte>, b: seq<Byte>)
    requires |a| % 16 == 0 && |b| % 16 == 0
    ensures CbcMac(E, y, a + b) == CbcMac(E, CbcMac(E, y, a), b)
  {
    hide CbcMac, XorBlock;
    if b == [] {
      assert a + b == a;
      CbcMacNothing(E, CbcMac(E, y, a));
    } else {
      var n := |b| - 16;
      var front, last: Block := b[..n], b[n..];
      assert b == front + last;
      CbcMacConcat(E, y, a, front);
      SixteensAdd(|a|, |front|);
      CbcMacStep(E, y, a + front, last);
      CbcMacStep(E, CbcMac(E, y, a), front, last);
      ConcatAssoc(a, front, last);
    }
  }

  /** Feeding bytes and closing is the standard's MAC of the zero-padded string. */
  lemma {:induction false} AbsorbIsCbcMac(E: Cipher, y: Block, s: seq<Byte>)
    ensures Close(E, Absorb(E, y, s), |s|) == CbcMac(E, y, Padded(s))
  {
    hide XorAt, XorBlock, Absorb, CbcMac;
    if s == [] {
      NothingToMac(E, y);
    } else {
      var n := (|s| - 1) / 16 * 16;
      var front, back := s[..n], s[n..];
      assert s == front + back && 1 <= |back| <= 16;
      AbsorbIsCbcMac(E, y, front);
      assert Padded(front) == front;
      AbsorbChunk(E, y, front, back);
      LastXor(Absorb(E, y, front), back);
      PaddedSplits(front, back);
      CbcMacStep(E, y, front, PaddedBlock(back));
    }
  }

  lemma NothingToMac(E: Cipher, y: Block)
    ensures Close(E, Absorb(E, y, []), 0) == CbcMac(E, y, Padded([]))
  {
    assert Padded([]) == [];
  }

  /** The last, possibly partial block. */
  function PaddedBlock(back: seq<Byte>): Block
    requires |back| <= 16
  {
    back + Zeros(16 - |back|)
  }

  lemma PaddedSplits(front: seq<Byte>, back: seq<Byte>)
    requires |front| % 16 == 0 && 1 <= |back| <= 16
    ensures Padded(front + back) == front + PaddedBlock(back)
  {
    assert |front + back| % 16 == |back| % 16;
    ConcatAssoc(front, back, Zeros(16 - |back|));
  }

  lemma LastXor(a: Block, back: seq<Byte>)
    requires |back| <= 16
    ensures XorBlock(a, PaddedBlock(back)) == XorAt(a, 0, back)
  {
    hide Xor;
    forall i | 0 <= i < 16
      ensures XorBlock(a, PaddedBlock(back))[i] == XorAt(a, 0, back)[i]
    {
      XorZero(a[i]);
    }
  }

  // ---------------------------------------------------------------- formatting

  datatype Params = Params(nonce: seq<Byte>, adLen: nat, msgLen: nat, tagLen: nat)
  {
    ghost predicate Valid()
    {
      && 7 <= |nonce| <= 13 && adLen < 0xff00
      && tagLen <= 16 && tagLen != 2 && tagLen % 2 == 0
      && msgLen < Pow(256, Q())
    }

    /** The size of the length and counter fields. */
    function Q(): nat
      requires |nonce| <= 15
    {
      15 - |nonce|
    }
  }

  /** The tag-length bits as the unsigned arithmetic leaves them; a zero length sets all five. */
  function TagBits(tagLen: nat): nat
  {
    if tagLen < 2 then 0xf8 else (tagLen - 2) / 2 * 8
  }

  /** The bits that are ored into the first byte. */
  function Flags(b: Byte, adLen: nat, tagLen: nat, q: nat): nat
    requires q >= 1
  {
    BitOr(BitOr(BitOr(b, if adLen > 0 then 64 else 0), TagBits(tagLen)), q - 1)
  }

  /** The flags byte of section A.2.1 of NIST SP 800-38C. */
  lemma FlagsStandard(adLen: nat, tagLen: nat, q: nat)
    requires 4 <= tagLen <= 16 && 1 <= q <= 8
    ensures Flags(0, adLen, tagLen, q) == (if adLen > 0 then 64 else 0) + 8 * ((tagLen - 2) / 2) + (q - 1) < 256
  {
    hide BitOr;
    OrZero(if adLen > 0 then 64 else 0);
    assert Pow(2, 3) == 8;
    PowAdd(2, 3, 3);
    var a := if adLen > 0 then 1 else 0;
    BitOrDisjoint(a, TagBits(tagLen), 6);
    BitOrDisjoint(8 * a + (tagLen - 2) / 2, q - 1, 3);
  }

  lemma {:induction false} OrBound(x: nat, y: nat, k: nat)
    requires x < Pow(2, k) && y < Pow(2, k)
    ensures BitOr(x, y) < Pow(2, k)
  {
    if x > 0 && y > 0 {
      assert Pow(2, k) == 2 * Pow(2, k - 1);
      OrBound(x / 2, y / 2, k - 1);
    }
  }

  lemma FlagsByte(b: Byte, adLen: nat, tagLen: nat, q: nat)
    requires tagLen <= 16 && 1 <= q <= 8
    ensures Flags(b, adLen, tagLen, q) < 256
  {
    hide BitOr;
    assert Pow(2, 8) == 256 by {
      assert Pow(2, 4) == 16;
      PowAdd(2, 4, 4);
    }
    hide Pow;
    var a := if adLen > 0 then 64 else 0;
    OrBound(b, a, 8);
    OrBound(BitOr(b, a), TagBits(tagLen), 8);
    OrBound(BitOr(BitOr(b, a), TagBits(tagLen)), q - 1, 8);
  }

  /** The first block as it comes out of whatever y holds: flags are ored in, the length is written. */
  function FirstFrom(y: Block, p: Params): Block
    requires p.Valid()
  {
    FlagsByte(y[0], p.adLen, p.tagLen, p.Q());
    [Flags(y[0], p.adLen, p.tagLen, p.Q())] + y[1..16 - p.Q()] + BigEndian(p.msgLen, p.Q())
  }

  /** The first block of section A.2 of NIST SP 800-38C. */
  function FirstBlock(p: Params): Block
    requires p.Valid()
  {
    FlagsByte(0, p.adLen, p.tagLen, p.Q());
    [Flags(0, p.adLen, p.tagLen, p.Q())] + p.nonce + BigEndian(p.msgLen, p.Q())
  }

  function CtrBlock(nonce: seq<Byte>, c: nat): Block
    requires 7 <= |nonce| <= 13
  {
    [14 - |nonce|] + nonce + BigEndian(c, 15 - |nonce|)
  }

  function AdHeader(adLen: nat): (r: seq<Byte>)
    requires adLen < 0xff00
    ensures |r| == 2
  {
    [adLen / 256, adLen % 256]
  }

  // ---------------------------------------------------------------- the mode

  /** Counter mode from position pos of the message on; its own inverse. */
  function Stream(E: Cipher, nonce: seq<Byte>, pos: nat, s: seq<Byte>): (r: seq<Byte>)
    requires 7 <= |nonce| <= 13
    ensures |r| == |s|
  {
    seq(|s|, i requires 0 <= i < |s| => Xor(s[i], E(CtrBlock(nonce, (pos + i) / 16 + 1))[(pos + i) % 16]))
  }

  /** Where a MAC starts: the enciphered first block, and the two bytes in front of the associated data. */
  datatype Origin = Origin(start: Block, hi: Byte, lo: Byte)
  {
    function Header(): seq<Byte>
    {
      [hi, lo]
    }
  }

  function Standard(E: Cipher, p: Params): Origin
    requires p.Valid()
  {
    Origin(E(FirstBlock(p)), p.adLen / 256, p.adLen % 256)
  }

  function AdState(E: Cipher, o: Origin, ad: seq<Byte>): Block
  {
    Absorb(E, o.start, o.Header() + ad)
  }

  function AfterAd(E: Cipher, o: Origin, ad: seq<Byte>): Block
  {
    if ad == [] then o.start else Close(E, AdState(E, o, ad), |ad| + 2)
  }

  function MacState(E: Cipher, o: Origin, msgLen: nat, ad: seq<Byte>, msg: seq<Byte>): Block
  {
    var y := Absorb(E, AfterAd(E, o, ad), msg);
    if |msg| == msgLen then Close(E, y, |msg|) else y
  }

  /** n bytes of the masked MAC. */
  function TagFrom(E: Cipher, nonce: seq<Byte>, o: Origin, msgLen: nat, ad: seq<Byte>, msg: seq<Byte>,
                   n: nat): (r: seq<Byte>)
    requires 7 <= |nonce| <= 13 && n <= 16
    ensures |r| == n
  {
    XorAt(MacState(E, o, msgLen, ad, msg), 0, E(CtrBlock(nonce, 0)))[..n]
  }

  function Tag(E: Cipher, p: Params, ad: seq<Byte>, msg: seq<Byte>): (r: seq<Byte>)
    requires p.Valid()
    ensures |r| == p.tagLen
  {
    TagFrom(E, p.nonce, Standard(E, p), p.msgLen, ad, msg, p.tagLen)
  }

  function AdBlocks(p: Params, ad: seq<Byte>): (r: seq<Byte>)
    requires p.Valid()
    ensures |r| % 16 == 0
  {
    if ad == [] then [] else Padded(AdHeader(p.adLen) + ad)
  }

  function Join(a: Block, b: seq<Byte>, c: seq<Byte>): (r: seq<Byte>)
    requires |b| % 16 == 0 && |c| % 16 == 0
    ensures |r| % 16 == 0
  {
    a + b + c
  }

  /** The formatted input B of section A.2 of NIST SP 800-38C. */
  function Formatted(p: Params, ad: seq<Byte>, msg: seq<Byte>): (r: seq<Byte>)
    requires p.Valid()
    ensures |r| % 16 == 0
  {
    Join(FirstBlock(p), AdBlocks(p, ad), Padded(msg))
  }

  /** The tag is the standard's: the MAC of the formatted input, masked with counter block zero. */
  lemma TagIsStandard(E: Cipher, p: Params, ad: seq<Byte>, msg: seq<Byte>)
    requires p.Valid() && |ad| == p.adLen && |msg| == p.msgLen
    ensures Tag(E, p, ad, msg) ==
      XorBlock(CbcMac(E, Zeros(16), Formatted(p, ad, msg)), E(CtrBlock(p.nonce, 0)))[..p.tagLen]
  {
    hide Xor, XorAt, XorBlock, CbcMac, MacState, Formatted, Standard;
    MacIsStandard(E, p, ad, msg);
    XorAtWhole(MacState(E, Standard(E, p), p.msgLen, ad, msg), E(CtrBlock(p.nonce, 0)));
  }

  lemma XorAtWhole(y: Block, m: Block)
    ensures XorAt(y, 0, m) == XorBlock(y, m)
  {
    hide Xor;
  }

  lemma MacIsStandard(E: Cipher, p: Params, ad: seq<Byte>, msg: seq<Byte>)
    requires p.Valid() && |ad| == p.adLen && |msg| == p.msgLen
    ensures MacState(E, Standard(E, p), p.msgLen, ad, msg) == CbcMac(E, Zeros(16), Formatted(p, ad, msg))
  {
    hide Absorb, CbcMac, FirstBlock, AdBlocks, Padded, Close;
    var b0, z := FirstBlock(p), Zeros(16);
    var a := AdBlocks(p, ad);
    FirstMac(E, b0);
    AdMac(E, p, ad);
    AbsorbIsCbcMac(E, AfterAd(E, Standard(E, p), ad), msg);
    CbcMacConcat(E, z, b0, a);
    CbcMacConcat(E, z, b0 + a, Padded(msg));
  }

  lemma FirstMac(E: Cipher, b0: Block)
    ensures CbcMac(E, Zeros(16), b0) == E(b0)
  {
    hide XorBlock;
    XorBlockZero(b0);
    assert b0[..0] == [] && b0[0..] == b0;
  }

  lemma AdMac(E: Cipher, p: Params, ad: seq<Byte>)
    requires p.Valid() && |ad| == p.adLen
    ensures CbcMac(E, E(FirstBlock(p)), AdBlocks(p, ad)) == AfterAd(E, Standard(E, p), ad)
  {
    hide Absorb, FirstBlock, Padded, Close;
    if ad != [] {
      AbsorbIsCbcMac(E, E(FirstBlock(p)), AdHeader(p.adLen) + ad);
    }
  }

  /** Counter mode twice over is the identity. */
  lemma StreamTwice(E: Cipher, nonce: seq<Byte>, pos: nat, s: seq<Byte>)
    requires 7 <= |nonce| <= 13
    ensures Stream(E, nonce, pos, Stream(E, nonce, pos, s)) == s
  {
    hide Xor;
    var t := Stream(E, nonce, pos, s);
    var u := Stream(E, nonce, pos, t);
    forall i | 0 <= i < |s|
      ensures u[i] == s[i]
    {
      XorCancel(s[i], E(CtrBlock(nonce, (pos + i) / 16 + 1))[(pos + i) % 16]);
    }
  }

  lemma StreamConcat(E: Cipher, nonce: seq<Byte>, pos: nat, a: seq<Byte>, b: seq<Byte>)
    requires 7 <= |nonce| <= 13
    ensures Stream(E, nonce, pos, a + b) == Stream(E, nonce, pos, a) + Stream(E, nonce, pos + |a|, b)
  {
    hide Xor, CtrBlock;
    var whole, front, back := Stream(E, nonce, pos, a + b), Stream(E, nonce, pos, a), Stream(E, nonce, pos + |a|, b);
    forall i | 0 <= i < |b|
      ensures whole[|a| + i] == back[i]
    {
      assert (a + b)[|a| + i] == b[i] && pos + (|a| + i) == pos + |a| + i;
    }
    assert whole[..|a|] == front && whole[|a|..] == back;
    assert whole == whole[..|a|] + whole[|a|..];
  }

  /**
   The counter blocks of a message of n blocks, together with block zero that masks the tag, are
   all different exactly when n is below the counter's range.
   */
  lemma CountersDistinct(nonce: seq<Byte>, n: nat)
    requires 7 <= |nonce| <= 13
    ensures (forall i, j :: 0 <= i < j <= n ==> CtrBlock(nonce, i) != CtrBlock(nonce, j)) <==>
      n < Pow(256, 15 - |nonce|)
  {
    hide BigEndian;
    var q := 15 - |nonce|;
    var m: int := Pow(256, q);
    PowPos(256, q);
    forall i: nat, j: nat
      ensures CtrBlock(nonce, i) == CtrBlock(nonce, j) <==> i % m == j % m
    {
      var (x, y) := (CtrBlock(nonce, i), CtrBlock(nonce, j));
      assert x[16 - q..] == BigEndian(i, q) && y[16 - q..] == BigEndian(j, q);
      BigEndianInjective(i, j, q);
    }
    if n < m {
      forall i, j | 0 <= i < j <= n
        ensures CtrBlock(nonce, i) != CtrBlock(nonce, j)
      {
        ModSmall(i, m);
        ModSmall(j, m);
      }
    } else {
      DivUnique(m, m, 1, 0);
      ModSmall(0, m);
      assert CtrBlock(nonce, 0) == CtrBlock(nonce, m);
    }
  }

  /** With a tag the declared length bounds the message, so counter blocks never repeat. */
  lemma TaggedCountersDistinct(p: Params)
    requires p.Valid()
    ensures forall i, j :: 0 <= i < j <= (p.msgLen + 15) / 16 ==> CtrBlock(p.nonce, i) != CtrBlock(p.nonce, j)
  {
    assert (p.msgLen + 15) / 16 < Pow(256, p.Q()) by {
      PowMono(256, 2, p.Q());
      assert Pow(256, 2) == 65536;
    }
    CountersDistinct(p.nonce, (p.msgLen + 15) / 16);
  }

  datatype Mode = Decrypt | Encrypt | StarDecrypt | StarEncrypt
  {
    predicate Star() { StarDecrypt? || StarEncrypt? }

    predicate Encrypting() { Encrypt? || StarEncrypt? }
  }

  /** What the context works with: without a tag the message length is ignored. */
  ghost function Settled(nonce: seq<Byte>, adLen: nat, msgLen: nat, tagLen: nat): Params
  {
    Params(nonce, adLen, if tagLen == 0 then 0 else msgLen, tagLen)
  }

  /** The nonce length and the declared lengths fit together. */
  ghost predicate Acceptable(mode: Mode, nonce: seq<Byte>, adLen: nat, msgLen: nat, tagLen: nat)
  {
    Settled(nonce, adLen, msgLen, tagLen).Valid() && (tagLen == 0 ==> mode.Star())
  }

  /** Message blocks whose counter is used up. */
  function Used(n: nat, msgLen: nat): nat
  {
    if n == msgLen then (n + 15) / 16 else n / 16
  }

  /** What the MAC sees of an input: always the plaintext. */
  function PlainOf(E: Cipher, mode: Mode, nonce: seq<Byte>, pos: nat, input: seq<Byte>): (r: seq<Byte>)
    requires 7 <= |nonce| <= 13
    ensures |r| == |input|
  {
    if mode.Encrypting() then input else Stream(E, nonce, pos, input)
  }

  /** Input that arrives in parts is treated as if it came at once. */
  lemma PartsConcat(E: Cipher, mode: Mode, nonce: seq<Byte>, pos: nat, a: seq<Byte>, b: seq<Byte>)
    requires 7 <= |nonce| <= 13
    ensures Stream(E, nonce, pos, a + b) == Stream(E, nonce, pos, a) + Stream(E, nonce, pos + |a|, b)
    ensures PlainOf(E, mode, nonce, pos, a + b) ==
      PlainOf(E, mode, nonce, pos, a) + PlainOf(E, mode, nonce, pos + |a|, b)
  {
    hide Stream;
    StreamConcat(E, nonce, pos, a, b);
  }

  lemma StreamNothing(E: Cipher, nonce: seq<Byte>, pos: nat)
    requires 7 <= |nonce| <= 13
    ensures Stream(E, nonce, pos, []) == [] && forall mode: Mode :: PlainOf(E, mode, nonce, pos, []) == []
  {
  }

  function Masked(mask: Block, offset: nat, s: seq<Byte>): (r: seq<Byte>)
    requires offset + |s| <= 16
    ensures |r| == |s|
  {
    seq(|s|, i requires 0 <= i < |s| => Xor(s[i], mask[offset + i]))
  }

  /** Inside one block the mask is that block's part of the key stream. */
  lemma MaskedIsStream(E: Cipher, nonce: seq<Byte>, pos: nat, s: seq<Byte>)
    requires 7 <= |nonce| <= 13 && pos % 16 + |s| <= 16
    ensures Masked(E(CtrBlock(nonce, pos / 16 + 1)), pos % 16, s) == Stream(E, nonce, pos, s)
  {
    hide Xor, CtrBlock;
    var l, r := Masked(E(CtrBlock(nonce, pos / 16 + 1)), pos % 16, s), Stream(E, nonce, pos, s);
    forall i | 0 <= i < |s|
      ensures l[i] == r[i]
    {
      assert (pos + i) / 16 == pos / 16 && (pos + i) % 16 == pos % 16 + i;
    }
  }

  /** A chunk of the given length fills its block, or completes the message. */
  predicate Whole(n: nat, use: nat, msgLen: nat)
  {
    n % 16 + use == 16 || n + use == msgLen
  }

  /** One round of the message loop. */
  lemma MsgChunk(E: Cipher, o: Origin, msgLen: nat, ad: seq<Byte>, msg: seq<Byte>, c: seq<Byte>)
    requires |c| > 0 && |msg| % 16 + |c| <= 16 && (msgLen == 0 || |msg| + |c| <= msgLen)
    ensures var off := |msg| % 16;
      var z := XorAt(MacState(E, o, msgLen, ad, msg), off, c);
      (if Whole(|msg|, |c|, msgLen) then E(z) else z) == MacState(E, o, msgLen, ad, msg + c)
  {
    hide XorAt, Absorb, AfterAd;
    CloseChunk(E, AfterAd(E, o, ad), msg, c, |msg| + |c| == msgLen);
  }

  lemma UsedStep(n: nat, use: nat, msgLen: nat)
    requires use > 0 && n % 16 + use <= 16 && (msgLen == 0 || n + use <= msgLen)
    ensures Used(n, msgLen) == n / 16
    ensures Used(n + use, msgLen) == n / 16 + if Whole(n, use, msgLen) then 1 else 0
  {
  }

  /** Xoring the two length bytes starts the stream of associated data. */
  lemma HeaderStep(E: Cipher, o: Origin)
    ensures XorAt(o.start, 0, o.Header()) == AdState(E, o, [])
  {
    hide XorAt;
    AbsorbChunk(E, o.start, [], o.Header());
    assert [] + o.Header() == o.Header() + [];
  }

  /** A header of zeros is the same as none. */
  lemma ZeroHeader(E: Cipher, o: Origin)
    requires o.hi == 0 && o.lo == 0
    ensures AdState(E, o, []) == o.start
  {
    hide Xor;
    HeaderStep(E, o);
    forall i | 0 <= i < 16
      ensures XorAt(o.start, 0, o.Header())[i] == o.start[i]
    {
      XorZero(o.start[i]);
    }
  }

  lemma MessageStart(E: Cipher, o: Origin, msgLen: nat, ad: seq<Byte>)
    ensures MacState(E, o, msgLen, ad, []) == AfterAd(E, o, ad)
  {
  }

  /** One round of a loop: the chunk is xored in, and a full or final block is enciphered. */
  lemma CloseChunk(E: Cipher, y: Block, s: seq<Byte>, c: seq<Byte>, last: bool)
    requires |c| > 0 && |s| % 16 + |c| <= 16
    ensures var off := |s| % 16;
      var z := XorAt(Absorb(E, y, s), off, c);
      (if off + |c| == 16 || last then E(z) else z) ==
      (if last then Close(E, Absorb(E, y, s + c), |s + c|) else Absorb(E, y, s + c))
  {
    hide XorAt, Absorb;
    AbsorbChunk(E, y, s, c);
    assert |s + c| % 16 == (|s| % 16 + |c|) % 16;
  }

  lemma AdChunk(E: Cipher, o: Origin, ad: seq<Byte>, c: seq<Byte>, last: bool)
    requires |c| > 0 && (|ad| + 2) % 16 + |c| <= 16
    ensures var off := (|ad| + 2) % 16;
      var z := XorAt(AdState(E, o, ad), off, c);
      (if off + |c| == 16 || last then E(z) else z) ==
      (if last then AfterAd(E, o, ad + c) else AdState(E, o, ad + c))
  {
    hide XorAt, Absorb, Close;
    var s := o.Header() + ad;
    ConcatAssoc(o.Header(), ad, c);
    CloseChunk(E, o.start, s, c, last);
    assert |s + c| == |ad + c| + 2;
  }

  lemma CounterOne(iv: seq<Byte>, c: seq<Byte>)
    requires 7 <= |iv| <= 13 && |c| == 16
    requires forall i :: 0 <= i < 16 ==>
      c[i] == if i == 0 then 14 - |iv| else if i <= |iv| then iv[i - 1] else if i == 15 then 1 else 0
    ensures c == CtrBlock(iv, 1)
  {
    BigEndianOne(15 - |iv|);
  }

  lemma BigEndianOne(n: nat)
    requires n > 0
    ensures BigEndian(1, n) == Zeros(n - 1) + [1]
  {
    BigEndianZero(n - 1);
  }

  lemma {:induction false} BigEndianZero(n: nat)
    ensures BigEndian(0, n) == Zeros(n)
  {
    if n > 0 {
      BigEndianZero(n - 1);
    }
  }

  function Shifted(v: nat, i: nat): nat
  {
    if i == 0 then v else Shifted(v, i - 1) / 256
  }

  lemma {:induction false} ShiftedFront(v: nat, i: nat)
    ensures Shifted(v / 256, i) == Shifted(v, i + 1)
  {
    if i > 0 {
      ShiftedFront(v, i - 1);
    }
  }

  lemma {:induction false} BigEndianByte(v: nat, n: nat, j: nat)
    requires j < n
    ensures BigEndian(v, n)[j] == Shifted(v, n - 1 - j) % 256
  {
    hide BigEndian, Shifted;
    BigEndianNext(v, n);
    if j == n - 1 {
      ShiftedStep(v, 0);
    } else {
      BigEndianByte(v / 256, n - 1, j);
      ShiftedFront(v, n - 2 - j);
    }
  }

  /** The bytes the length loop writes. */
  lemma LengthField(v: nat, q: nat, y: Block)
    requires q <= 15 && forall k :: 16 - q <= k < 16 ==> y[k] == Shifted(v, 15 - k) % 256
    ensures y == y[..16 - q] + BigEndian(v, q)
  {
    hide BigEndian, Shifted;
    var b := BigEndian(v, q);
    forall j | 0 <= j < q
      ensures y[16 - q + j] == b[j]
    {
      BigEndianByte(v, q, j);
    }
    assert y[16 - q..] == b;
  }

  lemma ShiftedStep(v: nat, i: nat)
    ensures Shifted(v, 0) == v && Shifted(v, i + 1) == Shifted(v, i) / 256
  {
  }

  lemma ShiftedZero(v: nat, i: nat)
    ensures Shifted(v, i) == 0 <==> v < Pow(256, i)
  {
    ShiftedBound(v, i, 0);
    PowPos(256, i);
  }

  lemma {:induction false} ShiftedBound(v: nat, i: nat, k: nat)
    ensures Shifted(v, i) <= k <==> v < (k + 1) * Pow(256, i)
  {
    if i > 0 {
      ShiftedBound(v, i - 1, 256 * k + 255);
      assert Shifted(v, i) <= k <==> Shifted(v, i - 1) <= 256 * k + 255;
      MulAssoc(k + 1, 256, Pow(256, i - 1));
    }
  }

  /**
   Decryption undoes encryption: the ciphertext streams back to the plaintext, and the tag that
   decryption recomputes is the one encryption produced.
   */
  lemma DecryptUndoesEncrypt(E: Cipher, nonce: seq<Byte>, ad: seq<Byte>, msg: seq<Byte>, tagLen: nat)
    requires Settled(nonce, |ad|, |msg|, tagLen).Valid()
    ensures var c := Stream(E, nonce, 0, msg);
      var tag := Tag(E, Settled(nonce, |ad|, |msg|, tagLen), ad, msg);
      && Stream(E, nonce, 0, c) == msg
      && tag == Tag(E, Settled(nonce, |ad|, |c|, |tag|), ad, Stream(E, nonce, 0, c))
  {
    hide Stream;
    StreamTwice(E, nonce, 0, msg);
  }
}
