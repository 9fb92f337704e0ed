/**
 The formatting of CCM against sections A.2 and A.3 of NIST SP 800-38C: the bytes of the first block
 and of the counter blocks, and that no formatted input begins another.
 */
module CcmFormat {
  import opened Arith
  import opened Bits
  import opened Blocks
  import opened CcmSpec

  /** Bit 6 for associated data, bits 5 to 3 for the tag length, bits 2 to 0 for the length field. */
  lemma FirstBlockBytes(p: Params)
    requires p.Valid() && p.tagLen >= 4
    ensures var b := FirstBlock(p);
      && b[0] == (if p.adLen > 0 then 64 else 0) + 8 * ((p.tagLen - 2) / 2) + (14 - |p.nonce|)
      && b[1..1 + |p.nonce|] == p.nonce
      && BeVal(b[1 + |p.nonce|..]) == p.msgLen
  {
    hide Flags, BigEndian, BeVal, Pow;
    FlagsStandard(p.adLen, p.tagLen, p.Q());
    BeValFixed(p.msgLen, p.Q());
    assert FirstBlock(p)[1 + |p.nonce|..] == BigEndian(p.msgLen, p.Q());
  }

  /** Without a tag the unsigned arithmetic sets all five high bits. */
  lemma FirstByteNoTag(p: Params)
    requires p.Valid() && p.tagLen == 0
    ensures FirstBlock(p)[0] == 0xf8 + (14 - |p.nonce|)
  {
    hide BitOr, Pow;
    PowSucc(2, 0);
    PowSucc(2, 1);
    PowSucc(2, 2);
    OrZero(0xf8);
    OrZero(64);
    OrZero(0);
    OrWithin();
    BitOrDisjoint(31, p.Q() - 1, 3);
  }

  lemma OrWithin()
    ensures BitOr(64, 0xf8) == 0xf8
  {
    hide BitOr;
    OrZero(1);
    OrParts(64, 0xf8);
    OrParts(32, 124);
    OrParts(16, 62);
    OrParts(8, 31);
    OrParts(4, 15);
    OrParts(2, 7);
    OrParts(1, 3);
  }

  /** On a first byte that is already there, the bits of the standard are ored in. */
  lemma FirstFromByte(y: Block, p: Params)
    requires p.Valid()
    ensures FirstFrom(y, p)[0] == BitOr(y[0], FirstBlock(p)[0])
    ensures FirstFrom(y, p)[1..1 + |p.nonce|] == y[1..1 + |p.nonce|]
    ensures FirstFrom(y, p)[1 + |p.nonce|..] == FirstBlock(p)[1 + |p.nonce|..]
  {
    hide BitOr, BigEndian, Pow;
    var b: nat, a, t, l := y[0], if p.adLen > 0 then 64 else 0, TagBits(p.tagLen), p.Q() - 1;
    OrZero(a);
    OrAssoc(b, a, t);
    OrAssoc(b, BitOr(a, t), l);
  }

  /** What CCM and CCM* accept, in numbers. */
  lemma AcceptedSettings(mode: Mode, nonce: seq<Byte>, adLen: nat, msgLen: nat, tagLen: nat)
    ensures Acceptable(mode, nonce, adLen, msgLen, tagLen) <==>
      && 7 <= |nonce| <= 13 && adLen < 65280
      && (|| (tagLen in {4, 6, 8, 10, 12, 14, 16} && msgLen < Pow(256, 15 - |nonce|))
          || (tagLen == 0 && (mode == StarEncrypt || mode == StarDecrypt)))
  {
    hide Pow;
    if 7 <= |nonce| <= 13 {
      PowPos(256, 15 - |nonce|);
    }
  }

  /** Bits 2 to 0 for the length field, the nonce, and the counter in what is left. */
  lemma CtrBlockBytes(nonce: seq<Byte>, c: nat)
    requires 7 <= |nonce| <= 13 && c < Pow(256, 15 - |nonce|)
    ensures var b := CtrBlock(nonce, c);
      b[0] == 14 - |nonce| && b[1..1 + |nonce|] == nonce && BeVal(b[1 + |nonce|..]) == c
  {
    hide BigEndian, BeVal, Pow;
    BeValFixed(c, 15 - |nonce|);
    assert CtrBlock(nonce, c)[1 + |nonce|..] == BigEndian(c, 15 - |nonce|);
  }

  /** Byte i of block j of the message meets byte i of the enciphered counter block j + 1. */
  lemma StreamByte(E: Cipher, nonce: seq<Byte>, s: seq<Byte>, j: nat, i: nat)
    requires 7 <= |nonce| <= 13 && i < 16 && 16 * j + i < |s|
    ensures Stream(E, nonce, 0, s)[16 * j + i] == Xor(s[16 * j + i], E(CtrBlock(nonce, j + 1))[i])
  {
    hide Xor, CtrBlock;
    DivUnique(16 * j + i, 16, j, i);
  }

  /** The associated data behind its length in two bytes, filled with zeros to whole blocks. */
  lemma AdBlocksBytes(p: Params, ad: seq<Byte>)
    requires p.Valid() && |ad| == p.adLen && ad != []
    ensures var a := AdBlocks(p, ad);
      && |ad| + 2 <= |a| < |ad| + 18 && BeVal(a[..2]) == |ad| && a[2..2 + |ad|] == ad
      && forall i :: |ad| + 2 <= i < |a| ==> a[i] == 0
  {
    hide BeVal, Pow;
    var a := AdBlocks(p, ad);
    TwoDigits(a[0], a[1]);
    assert a[..2] == [a[0], a[1]];
  }

  lemma TwoDigits(a: Byte, b: Byte)
    ensures BeVal([a, b]) == 256 * a + b
  {
    hide BeVal;
    NoDigits();
    BeValLast([], a);
    BeValLast([a], b);
    assert [] + [a] == [a] && [a] + [b] == [a, b];
  }

  lemma PaddedBytes(s: seq<Byte>)
    ensures var a := Padded(s);
      |s| <= |a| < |s| + 16 && a[..|s|] == s && forall i :: |s| <= i < |a| ==> a[i] == 0
  {
  }

  /** No first block is a counter block, whatever their nonces. */
  lemma FirstNotCounter(p: Params, nonce: seq<Byte>, c: nat)
    requires p.Valid() && p.tagLen >= 4 && 7 <= |nonce| <= 13
    ensures FirstBlock(p) != CtrBlock(nonce, c)
  {
    hide FirstBlock, BigEndian, BeVal, Pow;
    FirstBlockBytes(p);
    assert CtrBlock(nonce, c)[0] == 14 - |nonce|;
  }

  /** Equal first blocks have equal parameters. */
  lemma FirstBlockInjective(p: Params, p': Params)
    requires p.Valid() && p'.Valid() && p.tagLen >= 4 && p'.tagLen >= 4 && FirstBlock(p) == FirstBlock(p')
    ensures p.nonce == p'.nonce && p.msgLen == p'.msgLen && p.tagLen == p'.tagLen
    ensures p.adLen > 0 <==> p'.adLen > 0
  {
    hide FirstBlock, BeVal, Pow;
    FirstBlockBytes(p);
    FirstBlockBytes(p');
    FlagFields(p.adLen, (p.tagLen - 2) / 2, |p.nonce|, p'.adLen, (p'.tagLen - 2) / 2, |p'.nonce|);
  }

  /** The three fields of the first byte do not overlap. */
  lemma FlagFields(a: nat, t: nat, n: nat, a': nat, t': nat, n': nat)
    requires t < 8 && t' < 8 && 7 <= n <= 13 && 7 <= n' <= 13
    requires (if a > 0 then 64 else 0) + 8 * t + (14 - n) == (if a' > 0 then 64 else 0) + 8 * t' + (14 - n')
    ensures (a > 0 <==> a' > 0) && t == t' && n == n'
  {
  }

  /**
   The formatting is prefix-free, as section 5.4 of NIST SP 800-38C requires: an input that begins
   another has the same parameters, associated data and message.
   */
  lemma PrefixFree(p: Params, ad: seq<Byte>, msg: seq<Byte>, p': Params, ad': seq<Byte>, msg': seq<Byte>)
    requires p.Valid() && p.tagLen >= 4 && |ad| == p.adLen && |msg| == p.msgLen
    requires p'.Valid() && p'.tagLen >= 4 && |ad'| == p'.adLen && |msg'| == p'.msgLen
    requires Formatted(p, ad, msg) <= Formatted(p', ad', msg')
    ensures p == p' && ad == ad' && msg == msg'
  {
    hide FirstBlock, AdBlocks, Padded, Pow;
    var (a, a', m, m') := (AdBlocks(p, ad), AdBlocks(p', ad'), Padded(msg), Padded(msg'));
    var s, s' := Formatted(p, ad, msg), Formatted(p', ad', msg');
    assert s[..16] == FirstBlock(p) && s'[..16] == FirstBlock(p');
    FirstBlockInjective(p, p');
    assert s[16..] == a + m && s'[16..] == a' + m' && a + m <= a' + m';
    AdAgrees(p, ad, m, p', ad', m');
    assert m <= m';
    PaddedBytes(msg);
    PaddedBytes(msg');
    assert msg == m[..|msg|] == m'[..|msg|] == msg';
  }

  lemma AdAgrees(p: Params, ad: seq<Byte>, m: seq<Byte>, p': Params, ad': seq<Byte>, m': seq<Byte>)
    requires p.Valid() && |ad| == p.adLen && p'.Valid() && |ad'| == p'.adLen && (ad == [] <==> ad' == [])
    requires AdBlocks(p, ad) + m <= AdBlocks(p', ad') + m'
    ensures ad == ad' && AdBlocks(p, ad) == AdBlocks(p', ad') && m <= m'
  {
    hide Pow, BeVal;
    var (a, a') := (AdBlocks(p, ad), AdBlocks(p', ad'));
    if ad != [] {
      hide AdBlocks;
      AdBlocksBytes(p, ad);
      AdBlocksBytes(p', ad');
      assert a[..2] == (a + m)[..2] == (a' + m')[..2] == a'[..2];
      assert |ad| == |ad'| && |a| % 16 == 0 && |a'| % 16 == 0;
      assert a == (a + m)[..|a|] && a' == (a' + m')[..|a|];
    }
    assert m == (a + m)[|a|..] && m' == (a' + m')[|a|..];
  }
}
