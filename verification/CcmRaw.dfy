/** The data calls of CCM in any state of the context: what they do to y and ctr, chunk by chunk. */
module CcmRaw {
  import opened Arith
  import opened Blocks
  import opened CcmSpec

  /** The part of s that still fits the block at offset off. */
  function Fits(off: nat, s: seq<Byte>): (use: nat)
    requires off < 16 && s != []
    ensures 1 <= use <= |s| && off + use <= 16
  {
    if 16 - off > |s| then |s| else 16 - off
  }

  // ---------------------------------------------------------------- associated data

  function AdRounds(E: Cipher, adLen: nat, y: Block, pos: nat, s: seq<Byte>): Block
    decreases |s|
  {
    if s == [] then y else
    var off := (pos + 2) % 16;
    var use := Fits(off, s);
    var z := XorAt(y, off, s[..use]);
    AdRounds(E, adLen, if off + use == 16 || pos + use == adLen then E(z) else z, pos + use, s[use..])
  }

  lemma AdRoundsNothing(E: Cipher, adLen: nat, y: Block, pos: nat)
    ensures AdRounds(E, adLen, y, pos, []) == y
  {
  }

  lemma AdRoundsStep(E: Cipher, adLen: nat, y: Block, pos: nat, s: seq<Byte>)
    requires s != []
    ensures var off := (pos + 2) % 16;
      var use := Fits(off, s);
      var z := XorAt(y, off, s[..use]);
      AdRounds(E, adLen, y, pos, s) ==
      AdRounds(E, adLen, if off + use == 16 || pos + use == adLen then E(z) else z, pos + use, s[use..])
  {
  }

  /** Within the declared length the rounds advance the MAC over the associated data. */
  lemma {:induction false} AdRoundsMac(E: Cipher, o: Origin, adLen: nat, ad: seq<Byte>, s: seq<Byte>)
    requires s != [] && |ad| + |s| <= adLen
    ensures AdRounds(E, adLen, AdState(E, o, ad), |ad|, s) ==
      if |ad| + |s| == adLen then AfterAd(E, o, ad + s) else AdState(E, o, ad + s)
    decreases |s|
  {
    hide AdRounds, AdState, AfterAd, XorAt;
    var off := (|ad| + 2) % 16;
    var use := Fits(off, s);
    var c, rest := s[..use], s[use..];
    AdRoundsStep(E, adLen, AdState(E, o, ad), |ad|, s);
    AdChunk(E, o, ad, c, |ad| + use == adLen);
    assert s == c + rest;
    if rest == [] {
      assert s == c;
      var z := if |ad| + use == adLen then AfterAd(E, o, ad + c) else AdState(E, o, ad + c);
      AdRoundsNothing(E, adLen, z, |ad| + use);
    } else {
      AdRoundsMac(E, o, adLen, ad + c, rest);
      ConcatAssoc(ad, c, rest);
    }
  }

  // ---------------------------------------------------------------- the message

  datatype Work = Work(y: Block, ctr: Block, out: seq<Byte>)

  /** One chunk: it is masked, its plaintext goes into the MAC, and at the end of a block the counter moves. */
  function MsgRound(E: Cipher, encrypting: bool, q: nat, len: nat, y: Block, ctr: Block, pos: nat, c: seq<Byte>): Work
    requires q <= 16 && pos % 16 + |c| <= 16
  {
    var out := Masked(E(ctr), pos % 16, c);
    var z := XorAt(y, pos % 16, if encrypting then c else out);
    if Whole(pos, |c|, len) then Work(E(z), IncrementIn(ctr, 16 - q, 16), out) else Work(z, ctr, out)
  }

  function MsgRounds(E: Cipher, encrypting: bool, q: nat, len: nat, y: Block, ctr: Block, pos: nat, s: seq<Byte>): Work
    requires q <= 16
    decreases |s|
  {
    if s == [] then Work(y, ctr, []) else
    var use := Fits(pos % 16, s);
    var v := MsgRound(E, encrypting, q, len, y, ctr, pos, s[..use]);
    var w := MsgRounds(E, encrypting, q, len, v.y, v.ctr, pos + use, s[use..]);
    Work(w.y, w.ctr, v.out + w.out)
  }

  lemma MsgRoundsNothing(E: Cipher, encrypting: bool, q: nat, len: nat, y: Block, ctr: Block, pos: nat)
    requires q <= 16
    ensures MsgRounds(E, encrypting, q, len, y, ctr, pos, []) == Work(y, ctr, [])
  {
  }

  lemma MsgRoundsStep(E: Cipher, encrypting: bool, q: nat, len: nat, y: Block, ctr: Block, pos: nat, s: seq<Byte>)
    requires q <= 16 && s != []
    ensures var use := Fits(pos % 16, s);
      var v := MsgRound(E, encrypting, q, len, y, ctr, pos, s[..use]);
      var w := MsgRounds(E, encrypting, q, len, v.y, v.ctr, pos + use, s[use..]);
      MsgRounds(E, encrypting, q, len, y, ctr, pos, s) == Work(w.y, w.ctr, v.out + w.out)
  {
    hide MsgRound;
  }

  /** The same step when done has already been put out. */
  lemma MsgRoundsMove(E: Cipher, encrypting: bool, q: nat, len: nat, y: Block, ctr: Block, pos: nat, s: seq<Byte>,
                      done: seq<Byte>, total: Work)
    requires q <= 16 && s != []
    requires var w := MsgRounds(E, encrypting, q, len, y, ctr, pos, s); total == Work(w.y, w.ctr, done + w.out)
    ensures var use := Fits(pos % 16, s);
      var v := MsgRound(E, encrypting, q, len, y, ctr, pos, s[..use]);
      var w := MsgRounds(E, encrypting, q, len, v.y, v.ctr, pos + use, s[use..]);
      total == Work(w.y, w.ctr, (done + v.out) + w.out)
  {
    hide MsgRounds, MsgRound;
    MsgRoundsStep(E, encrypting, q, len, y, ctr, pos, s);
    var use := Fits(pos % 16, s);
    var v := MsgRound(E, encrypting, q, len, y, ctr, pos, s[..use]);
    ConcatAssoc(done, v.out, MsgRounds(E, encrypting, q, len, v.y, v.ctr, pos + use, s[use..]).out);
  }

  /** The MAC and the counter after msg. */
  function At(E: Cipher, nonce: seq<Byte>, o: Origin, len: nat, ad: seq<Byte>, msg: seq<Byte>, out: seq<Byte>): Work
    requires 7 <= |nonce| <= 13
  {
    Work(MacState(E, o, len, ad, msg), CtrBlock(nonce, Used(|msg|, len) + 1), out)
  }

  lemma MsgRoundMac(E: Cipher, mode: Mode, nonce: seq<Byte>, o: Origin, len: nat, ad: seq<Byte>, msg: seq<Byte>,
                    c: seq<Byte>)
    requires 7 <= |nonce| <= 13 && c != [] && |msg| % 16 + |c| <= 16 && (len == 0 || |msg| + |c| <= len)
    ensures var a := At(E, nonce, o, len, ad, msg, []);
      MsgRound(E, mode.Encrypting(), 15 - |nonce|, len, a.y, a.ctr, |msg|, c) ==
      At(E, nonce, o, len, ad, msg + PlainOf(E, mode, nonce, |msg|, c), Stream(E, nonce, |msg|, c))
  {
    hide MacState, CtrBlock, XorAt, Masked, Stream, Used, IncrementIn, Whole;
    UsedStep(|msg|, |c|, len);
    MaskedIsStream(E, nonce, |msg|, c);
    MsgChunk(E, o, len, ad, msg, PlainOf(E, mode, nonce, |msg|, c));
    CtrNext(nonce, |msg| / 16 + 1);
  }

  lemma CtrNext(nonce: seq<Byte>, c: nat)
    requires 7 <= |nonce| <= 13
    ensures IncrementIn(CtrBlock(nonce, c), 16 - (15 - |nonce|), 16) == CtrBlock(nonce, c + 1)
  {
    hide IncrementIn;
    var high, q := [14 - |nonce|] + nonce, 15 - |nonce|;
    CounterNext(high, c, q);
    CtrParts(nonce, c);
    CtrParts(nonce, c + 1);
    hide CtrBlock, BigEndian;
  }

  lemma CtrParts(nonce: seq<Byte>, c: nat)
    requires 7 <= |nonce| <= 13
    ensures CtrBlock(nonce, c) == ([14 - |nonce|] + nonce) + BigEndian(c, 15 - |nonce|)
  {
    hide BigEndian;
  }

  lemma CounterNext(high: seq<Byte>, c: nat, q: nat)
    requires |high| + q == 16
    ensures IncrementIn(high + BigEndian(c, q), 16 - q, 16) == high + BigEndian(c + 1, q)
  {
    hide BigEndian, IncrementIn;
    IncrementIsSuccessor(high, c, q, []);
    NothingAfter(high + BigEndian(c, q));
    NothingAfter(high + BigEndian(c + 1, q));
  }

  lemma NothingAfter(s: seq<Byte>)
    ensures s + [] == s
  {
  }

  /** Within the declared length the rounds advance MAC and counter, and put out the key-stream image. */
  lemma {:induction false} MsgRoundsMac(E: Cipher, mode: Mode, nonce: seq<Byte>, o: Origin, len: nat, ad: seq<Byte>,
                                        msg: seq<Byte>, s: seq<Byte>)
    requires 7 <= |nonce| <= 13 && (len == 0 || |msg| + |s| <= len)
    ensures var a := At(E, nonce, o, len, ad, msg, []);
      MsgRounds(E, mode.Encrypting(), 15 - |nonce|, len, a.y, a.ctr, |msg|, s) ==
      At(E, nonce, o, len, ad, msg + PlainOf(E, mode, nonce, |msg|, s), Stream(E, nonce, |msg|, s))
    decreases |s|
  {
    hide MsgRounds, MsgRound, MacState, CtrBlock, Stream, PlainOf, Used;
    var a := At(E, nonce, o, len, ad, msg, []);
    var q, enc := 15 - |nonce|, mode.Encrypting();
    if s == [] {
      MsgRoundsNothing(E, enc, q, len, a.y, a.ctr, |msg|);
      StreamNothing(E, nonce, |msg|);
      assert msg + [] == msg;
    } else {
      var use := Fits(|msg| % 16, s);
      var c, rest := s[..use], s[use..];
      assert s == c + rest;
      var plain := PlainOf(E, mode, nonce, |msg|, c);
      MsgRoundsStep(E, enc, q, len, a.y, a.ctr, |msg|, s);
      MsgRoundMac(E, mode, nonce, o, len, ad, msg, c);
      MsgRoundsMac(E, mode, nonce, o, len, ad, msg + plain, rest);
      PartsConcat(E, mode, nonce, |msg|, c, rest);
      ConcatAssoc(msg, plain, PlainOf(E, mode, nonce, |msg| + use, rest));
    }
  }

  // ---------------------------------------------------------------- the tag

  /** The counter block with its q counter bytes zeroed. */
  function ZeroedCtr(ctr: Block, q: nat): Block
    requires q <= 16
  {
    ctr[..16 - q] + Zeros(q)
  }

  lemma ZeroedIsZero(nonce: seq<Byte>, c: nat)
    requires 7 <= |nonce| <= 13
    ensures ZeroedCtr(CtrBlock(nonce, c), 15 - |nonce|) == CtrBlock(nonce, 0)
  {
    hide BigEndian;
    BigEndianZero(15 - |nonce|);
  }
}
