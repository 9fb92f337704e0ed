/**
 CCM as a stream: counter mode and CBC-MAC advance together over any split of the associated
 data and the message.
 */
module Ccm {
  import opened Arith
  import opened Blocks
  import opened CcmSpec
  import opened CcmStale
  import opened CcmRaw

  datatype Ret = Ok | BadInput | AuthFailed | Corrupted

  class Context {
    const E: Cipher
    const y: array<Byte>
    const ctr: array<Byte>
    var q: nat
    var mode: Mode
    var plaintextLen: nat
    var addLen: nat
    var tagLen: nat
    var processed: nat
    var started: bool
    var lengthsSet: bool
    var adStarted: bool
    var adFinished: bool
    var error: bool
    ghost var nonce: seq<Byte>
    ghost var ad: seq<Byte>
    ghost var msg: seq<Byte>
    ghost var origin: Origin

    ghost predicate Shape()
    {
      y.Length == 16 && ctr.Length == 16 && y != ctr
    }

    /** What holds in every state, however operations were broken off. */
    ghost predicate Sane()
      reads this
    {
      Shape() && (started ==> 7 <= |nonce| <= 13 && q == 15 - |nonce|) && q <= 8 && LengthsOk(addLen, tagLen)
    }

    /** What earlier operations have left behind. */
    ghost function Left(): Stale
      reads this, y
      requires Shape()
    {
      Stale(y[..], lengthsSet, addLen, plaintextLen, tagLen, adStarted, adFinished, error)
    }

    ghost predicate Clear()
      reads this, y
    {
      Sane() && !started && Left().Clear()
    }

    ghost function P(): Params
      reads this
    {
      Params(nonce, addLen, plaintextLen, tagLen)
    }

    ghost predicate Ready()
      reads this
    {
      && Sane() && started && lengthsSet && !error && P().Valid()
      && (tagLen == 0 ==> mode.Star() && plaintextLen == 0)
    }

    /** Part of the associated data is in. */
    ghost predicate AdPhase()
      reads this, y, ctr
    {
      && Ready() && !adFinished && (ad != [] ==> adStarted) && msg == [] && processed == |ad| < addLen
      && (!adStarted ==> origin.Header() == AdHeader(addLen))
      && y[..] == (if adStarted then AdState(E, origin, ad) else origin.start) && ctr[..] == CtrBlock(nonce, 1)
    }

    /** The associated data is complete, part of the message is in. */
    ghost predicate MsgPhase()
      reads this, y, ctr
    {
      && Ready() && |ad| == addLen && (addLen > 0 ==> adFinished)
      && processed == |msg| && (tagLen != 0 ==> |msg| <= plaintextLen)
      && y[..] == MacState(E, origin, plaintextLen, ad, msg)
      && ctr[..] == CtrBlock(nonce, Used(|msg|, plaintextLen) + 1)
    }

    /** Both halves are in, and the first block is enciphered. */
    ghost predicate Primed(mode_: Mode, p: Params, o: Origin)
      reads this, y
    {
      && Sane() && started && lengthsSet && mode == mode_ && P() == p && p.Valid()
      && (tagLen == 0 ==> mode.Star() && plaintextLen == 0)
      && ad == [] && msg == [] && origin == o && y[..] == o.start
      && o.Header() == (if adStarted then [0, 0] else AdHeader(addLen))
    }

    /** ... and data may follow. */
    ghost predicate Opened(mode_: Mode, p: Params, o: Origin)
      reads this, y, ctr
    {
      && mode == mode_ && P() == p && origin == o && ad == [] && msg == []
      && (if addLen > 0 then AdPhase() else MsgPhase())
    }

    /** Nothing but a star mode can get through: an error, or old lengths without a tag. */
    ghost predicate Stuck()
      reads this
    {
      error || (lengthsSet && tagLen == 0)
    }

    constructor (E_: Cipher)
      ensures Clear() && E == E_ && fresh(y) && fresh(ctr)
    {
      E := E_;
      y := new Byte[16](i => 0);
      ctr := new Byte[16](i => 0);
      q, mode, plaintextLen, addLen, tagLen, processed := 0, Decrypt, 0, 0, 0, 0;
      started, lengthsSet, adStarted, adFinished, error := false, false, false, false, false;
    }

    /** y[i + offset] ^= s[i]. */
    method XorIntoY(offset: nat, s: seq<Byte>)
      requires y.Length == 16 && offset + |s| <= 16
      modifies y
      ensures y[..] == XorAt(old(y[..]), offset, s)
    {
      hide Xor;
      var i := 0;
      while i < |s|
        invariant 0 <= i <= |s|
        invariant forall k :: 0 <= k < 16 ==>
          y[k] == if offset <= k < offset + i then Xor(old(y[k]), s[k - offset]) else old(y[k])
      {
        y[i + offset] := Xor(y[i + offset], s[i]);
        i := i + 1;
      }
    }

    /** Enciphers y in place. */
    method EncipherY()
      requires y.Length == 16
      modifies y
      ensures y[..] == E(old(y[..]))
    {
      var out := E(y[..]);
      var i := 0;
      while i < 16
        invariant 0 <= i <= 16 && y[..i] == out[..i]
      {
        y[i] := out[i];
        i := i + 1;
      }
    }

    /** ccm_calculate_first_block_if_ready, in any state. */
    method FirstBlockIfReady() returns (r: Ret)
      requires Sane() && started
      modifies this`plaintextLen, this`error, this`ad, this`msg, this`origin, y
      ensures Sane() && (r == Ok || r == BadInput)
      ensures !lengthsSet ==> r == Ok && y[..] == old(y[..]) && plaintextLen == old(plaintextLen)
      ensures lengthsSet ==> (r == Ok <==> Acceptable(mode, nonce, addLen, old(plaintextLen), tagLen))
      ensures lengthsSet && r == Ok ==>
        var p := Settled(nonce, addLen, old(plaintextLen), tagLen);
        Primed(mode, p, OriginAt(E, old(y[..]), p, adStarted))
      ensures r == Ok ==> error == old(error)
      ensures r != Ok && tagLen != 0 ==> error
      ensures old(error) ==> error
    {
      hide Pow, FirstFrom;
      if !lengthsSet {
        return Ok;
      }
      if tagLen == 0 {
        if mode.Star() {
          plaintextLen := 0;
        } else {
          return BadInput;
        }
      }
      PowPos(256, q);
      var left := WriteFirst();
      if left > 0 {
        error := true;
        return BadInput;
      }
      ad, msg := [], [];
      ghost var first := y[..];
      EncipherY();
      origin := Origin(E(first), if adStarted then 0 else addLen / 256, if adStarted then 0 else addLen % 256);
      return Ok;
    }

    /** The layout of the first block. */
    method WriteFirst() returns (left: nat)
      requires Sane() && started && lengthsSet
      modifies y
      ensures left == 0 <==> P().Valid()
      ensures left == 0 ==> y[..] == FirstFrom(old(y[..]), P())
    {
      hide BigEndian, Flags, Pow;
      FlagsByte(y[0], addLen, tagLen, q);
      ghost var was := y[..];
      y[0] := Flags(y[0], addLen, tagLen, q);
      left := WriteLength();
      assert y[..16 - q] == [y[0]] + was[1..16 - q];
    }

    /** The length field of the first block, least significant byte last. */
    method WriteLength() returns (left: nat)
      requires Shape() && q <= 15
      modifies y
      ensures y[..] == old(y[..16 - q]) + BigEndian(plaintextLen, q)
      ensures left == 0 <==> plaintextLen < Pow(256, q)
    {
      hide BigEndian, Pow, Shifted;
      left := plaintextLen;
      var i := 0;
      ShiftedStep(left, 0);
      while i < q
        invariant 0 <= i <= q && left == Shifted(plaintextLen, i)
        invariant forall k :: 0 <= k < 16 - i ==> y[k] == old(y[k])
        invariant forall k :: 16 - i <= k < 16 ==> y[k] == Shifted(plaintextLen, 15 - k) % 256
      {
        ShiftedStep(plaintextLen, i);
        y[15 - i] := left % 256;
        left := left / 256;
        i := i + 1;
      }
      LengthField(plaintextLen, q, y[..]);
      ShiftedZero(plaintextLen, q);
    }

    /** mbedtls_ccm_starts, in any state: it neither clears y nor resets the flags. */
    method Starts(mode_: Mode, iv: seq<Byte>) returns (r: Ret)
      requires Sane()
      modifies this`mode, this`q, this`nonce, this`started
      modifies this`plaintextLen, this`error, this`ad, this`msg, this`origin, y, ctr
      ensures Sane() && (r == Ok || r == BadInput)
      ensures !(7 <= |iv| <= 13) ==> r == BadInput && unchanged(this) && unchanged(y) && unchanged(ctr)
      ensures 7 <= |iv| <= 13 ==> started && mode == mode_ && nonce == iv && ctr[..] == CtrBlock(iv, 1)
      ensures 7 <= |iv| <= 13 && !lengthsSet ==>
        r == Ok && y[..] == NonceIn(old(y[..]), iv) && error == old(error) && plaintextLen == old(plaintextLen)
      ensures 7 <= |iv| <= 13 && lengthsSet ==> (r == Ok <==> Acceptable(mode_, iv, addLen, old(plaintextLen), tagLen))
      ensures lengthsSet && r == Ok ==>
        var p := Settled(iv, addLen, old(plaintextLen), tagLen);
        Primed(mode_, p, OriginAt(E, NonceIn(old(y[..]), iv), p, adStarted))
      ensures r == Ok ==> error == old(error)
      ensures r != Ok && 7 <= |iv| <= 13 && tagLen != 0 ==> error
      ensures old(error) ==> error
    {
      hide BigEndian, Pow, FirstFrom, OriginAt;
      if |iv| < 7 || |iv| > 13 {
        return BadInput;
      }
      mode := mode_;
      q := 16 - 1 - |iv|;
      nonce := iv;
      forall i | 0 <= i < 16 {
        ctr[i] := if i == 0 then q - 1 else if i <= |iv| then iv[i - 1] else if i == 15 then 1 else 0;
      }
      CounterOne(iv, ctr[..]);
      forall i | 1 <= i <= |iv| {
        y[i] := iv[i - 1];
      }
      assert y[..] == NonceIn(old(y[..]), iv);
      started := true;
      hide CtrBlock, NonceIn;
      r := FirstBlockIfReady();
    }

    /** mbedtls_ccm_set_lengths, in any state. */
    method SetLengths(adLen: nat, msgLen: nat, tagLen_: nat) returns (r: Ret)
      requires Sane()
      modifies this`plaintextLen, this`addLen, this`tagLen, this`processed, this`lengthsSet
      modifies this`error, this`ad, this`msg, this`origin, y
      ensures Sane() && (r == Ok || r == BadInput)
      ensures !LengthsOk(adLen, tagLen_) ==> r == BadInput && unchanged(this) && unchanged(y)
      ensures LengthsOk(adLen, tagLen_) ==> lengthsSet && addLen == adLen && tagLen == tagLen_ && processed == 0
      ensures LengthsOk(adLen, tagLen_) && !started ==>
        r == Ok && y[..] == old(y[..]) && plaintextLen == msgLen && error == old(error)
      ensures LengthsOk(adLen, tagLen_) && started ==> (r == Ok <==> Acceptable(mode, nonce, adLen, msgLen, tagLen_))
      ensures started && r == Ok ==>
        var p := Settled(nonce, adLen, msgLen, tagLen_);
        Primed(mode, p, OriginAt(E, old(y[..]), p, adStarted))
      ensures r == Ok ==> error == old(error)
      ensures LengthsOk(adLen, tagLen_) && r != Ok && tagLen_ != 0 ==> error
      ensures old(error) ==> error
    {
      hide BigEndian, Pow, FirstFrom, OriginAt;
      if tagLen_ == 2 || tagLen_ > 16 || tagLen_ % 2 != 0 {
        return BadInput;
      }
      if adLen >= 0xff00 {
        return BadInput;
      }
      plaintextLen := msgLen;
      addLen := adLen;
      tagLen := tagLen_;
      processed := 0;
      lengthsSet := true;
      if started {
        r := FirstBlockIfReady();
      } else {
        r := Ok;
      }
    }

    /**
     mbedtls_ccm_update_ad, in any state: refused on an error, after finished data, or beyond the
     declared length; else the rounds on y. In the phase for it, the data joins what was fed.
     */
    method UpdateAd(add: seq<Byte>) returns (r: Ret)
      requires Sane()
      modifies this`processed, this`ad, this`adStarted, this`adFinished, y
      ensures Sane() && (r == Ok || r == BadInput)
      ensures r == Ok <==>
        && !error
        && (add == [] || (!old(adFinished) && (if old(adStarted) then old(processed) else 0) + |add| <= addLen))
      ensures add == [] || r != Ok ==> unchanged(this) && unchanged(y)
      ensures add != [] && r == Ok ==>
        var z := if old(adStarted) then old(y[..]) else XorAt(old(y[..]), 0, AdHeader(addLen));
        var end := old(processed) + |add|;
        && y[..] == AdRounds(E, addLen, z, old(processed), add) && adStarted
        && adFinished == (end == addLen) && processed == if end == addLen then 0 else end
      ensures add != [] && r == Ok && old(AdPhase()) ==> ad == old(ad) + add
      ensures add != [] && r == Ok && old(AdPhase()) ==> (if |ad| < addLen then AdPhase() else MsgPhase() && msg == [])
    {
      hide AdState, AfterAd, MacState, CtrBlock, AdHeader, Close, Absorb, XorAt, Pow, AdRounds;
      if error {
        return BadInput;
      }
      if |add| > 0 {
        if adFinished {
          return BadInput;
        }
        if (if adStarted then processed else 0) + |add| > addLen {
          return BadInput;
        }
        AbsorbAd(add);
        if old(AdPhase()) {
          HeaderStep(E, origin);
          AdRoundsMac(E, origin, addLen, ad, add);
          MessageStart(E, origin, plaintextLen, ad + add);
          ad := ad + add;
        }
      }
      return Ok;
    }

    /** Data that is accepted: the length bytes go first, and the last byte ends the phase. */
    method AbsorbAd(add: seq<Byte>)
      requires Sane() && !adFinished
      modifies this`processed, this`adStarted, this`adFinished, y
      ensures var z := if old(adStarted) then old(y[..]) else XorAt(old(y[..]), 0, AdHeader(addLen));
        var end := old(processed) + |add|;
        && y[..] == AdRounds(E, addLen, z, old(processed), add) && adStarted
        && adFinished == (end == addLen) && processed == if end == addLen then 0 else end
    {
      hide AdHeader, XorAt, AdRounds;
      if !adStarted {
        XorIntoY(0, AdHeader(addLen));
        adStarted := true;
      }
      FeedAd(add);
      if processed == addLen {
        adFinished := true;
        processed := 0;
      }
    }

    /** The loop of mbedtls_ccm_update_ad. */
    method FeedAd(add: seq<Byte>)
      requires Shape()
      modifies this`processed, y
      ensures processed == old(processed) + |add| && y[..] == AdRounds(E, addLen, old(y[..]), old(processed), add)
    {
      hide XorAt, AdRounds;
      var k := 0;
      assert add[0..] == add;
      while k < |add|
        invariant 0 <= k <= |add| && processed == old(processed) + k
        invariant AdRounds(E, addLen, y[..], processed, add[k..]) ==
          AdRounds(E, addLen, old(y[..]), old(processed), add)
      {
        var offset := (processed + 2) % 16;
        var use := Fits(offset, add[k..]);
        AdRoundsStep(E, addLen, y[..], processed, add[k..]);
        assert add[k..][..use] == add[k..k + use] && add[k..][use..] == add[k + use..];
        XorIntoY(offset, add[k..k + use]);
        processed := processed + use;
        if use + offset == 16 || processed == addLen {
          EncipherY();
        }
        k := k + use;
      }
      assert add[k..] == [];
      AdRoundsNothing(E, addLen, y[..], processed);
    }

    /** mbedtls_ccm_crypt: masks a chunk that lies inside one block. */
    method Crypt(offset: nat, input: seq<Byte>, output: array<Byte>, at: nat)
      requires Shape() && offset + |input| <= 16 && at + |input| <= output.Length && output != ctr
      modifies output
      ensures output[..at] == old(output[..at]) && output[at + |input|..] == old(output[at + |input|..])
      ensures output[at..at + |input|] == Masked(E(ctr[..]), offset, input)
    {
      hide Xor;
      var mask := E(ctr[..]);
      var i := 0;
      while i < |input|
        invariant 0 <= i <= |input| && output[..at] == old(output[..at]) && ctr[..] == old(ctr[..])
        invariant output[at + |input|..] == old(output[at + |input|..])
        invariant forall k :: 0 <= k < i ==> output[at + k] == Xor(input[k], mask[offset + k])
      {
        output[at + i] := Xor(input[i], mask[offset + i]);
        i := i + 1;
      }
    }

    /** Masks a chunk and feeds its plaintext to the MAC, in the order the direction calls for. */
    method CryptChunk(offset: nat, chunk: seq<Byte>, output: array<Byte>, at: nat)
      requires Shape() && offset + |chunk| <= 16 && output != y && output != ctr && at + |chunk| <= output.Length
      modifies y, output
      ensures output[at..at + |chunk|] == Masked(E(ctr[..]), offset, chunk)
      ensures output[..at] == old(output[..at]) && output[at + |chunk|..] == old(output[at + |chunk|..])
      ensures var plain := if mode.Encrypting() then chunk else Masked(E(ctr[..]), offset, chunk);
        var z := XorAt(old(y[..]), offset, plain);
        y[..] == if |chunk| + offset == 16 || processed == plaintextLen then E(z) else z
    {
      hide XorAt, Masked;
      var use := |chunk|;
      if mode.Encrypting() {
        XorIntoY(offset, chunk);
        if use + offset == 16 || processed == plaintextLen {
          EncipherY();
        }
        Crypt(offset, chunk, output, at);
      } else {
        var local := new Byte[16](i => 0);
        Crypt(offset, chunk, local, 0);
        XorIntoY(offset, local[0..use]);
        CopyInto(local[0..use], output, at);
        if use + offset == 16 || processed == plaintextLen {
          EncipherY();
        }
      }
    }

    /** One round of mbedtls_ccm_update: a chunk inside one block. */
    method Round(chunk: seq<Byte>, output: array<Byte>, at: nat)
      requires Shape() && q <= 16 && processed % 16 + |chunk| <= 16
      requires output != y && output != ctr && at + |chunk| <= output.Length
      modifies this`processed, y, ctr, output
      ensures processed == old(processed) + |chunk|
      ensures var v := MsgRound(E, mode.Encrypting(), q, plaintextLen, old(y[..]), old(ctr[..]), old(processed), chunk);
        y[..] == v.y && ctr[..] == v.ctr && output[..at + |chunk|] == old(output[..at]) + v.out
      ensures forall i :: at + |chunk| <= i < output.Length ==> output[i] == old(output[i])
    {
      hide XorAt, Masked, IncrementIn;
      var offset, use := processed % 16, |chunk|;
      processed := processed + use;
      CryptChunk(offset, chunk, output, at);
      if use + offset == 16 || processed == plaintextLen {
        IncrementLow(ctr, q);
      }
      SplitAt(output[..at + use], at);
      assert forall i :: at + use <= i < output.Length ==> output[i] == output[at + use..][i - (at + use)];
    }

    /** The loop of mbedtls_ccm_update. */
    method FeedMsg(input: seq<Byte>, output: array<Byte>)
      requires Shape() && q <= 16 && output != y && output != ctr && |input| <= output.Length
      modifies this`processed, y, ctr, output
      ensures processed == old(processed) + |input|
      ensures Work(y[..], ctr[..], output[..|input|]) ==
        MsgRounds(E, mode.Encrypting(), q, plaintextLen, old(y[..]), old(ctr[..]), old(processed), input)
      ensures output[|input|..] == old(output[|input|..])
    {
      hide MsgRounds, MsgRound;
      var k := 0;
      ghost var enc, len := mode.Encrypting(), plaintextLen;
      ghost var total := MsgRounds(E, enc, q, len, y[..], ctr[..], processed, input);
      assert input[0..] == input && output[..0] + total.out == total.out;
      while k < |input|
        invariant 0 <= k <= |input| && processed == old(processed) + k
        invariant var w := MsgRounds(E, enc, q, len, y[..], ctr[..], processed, input[k..]);
          total == Work(w.y, w.ctr, output[..k] + w.out)
        invariant forall i :: |input| <= i < output.Length ==> output[i] == old(output[i])
      {
        var use := Fits(processed % 16, input[k..]);
        var chunk := input[k..k + use];
        ghost var done := output[..k];
        MsgRoundsMove(E, enc, q, len, y[..], ctr[..], processed, input[k..], done, total);
        assert input[k..][..use] == chunk && input[k..][use..] == input[k + use..];
        Round(chunk, output, k);
        k := k + use;
      }
      assert input[k..] == [] && output[..k] + [] == output[..k];
      MsgRoundsNothing(E, enc, q, len, y[..], ctr[..], processed);
    }

    /**
     mbedtls_ccm_update, in any state: refused on an error, beyond the declared length, or without
     room; else the rounds on y and ctr. In the phase for it, the data joins the message.
     */
    method Update(input: seq<Byte>, output: array<Byte>, outputSize: nat) returns (r: Ret)
      requires Sane() && output != y && output != ctr && outputSize <= output.Length
      modifies this`processed, this`msg, y, ctr, output
      ensures Sane() && (r == Ok || r == BadInput)
      ensures r == Ok <==>
        !error && (tagLen == 0 || old(processed) + |input| <= plaintextLen) && |input| <= outputSize
      ensures r != Ok ==> unchanged(this) && unchanged(y) && unchanged(ctr) && unchanged(output)
      ensures r == Ok ==> processed == old(processed) + |input| && output[|input|..] == old(output[|input|..])
      ensures r == Ok ==>
        Work(y[..], ctr[..], output[..|input|]) ==
        MsgRounds(E, mode.Encrypting(), q, plaintextLen, old(y[..]), old(ctr[..]), old(processed), input)
      ensures old(MsgPhase()) ==> MsgPhase()
      ensures old(MsgPhase()) && r == Ok ==>
        && msg == old(msg) + PlainOf(E, mode, nonce, old(|msg|), input)
        && output[..|input|] == Stream(E, nonce, old(|msg|), input)
    {
      hide MacState, CtrBlock, Stream, PlainOf, Used, Pow, MsgRounds;
      if error {
        return BadInput;
      }
      if tagLen != 0 && processed + |input| > plaintextLen {
        return BadInput;
      }
      if outputSize < |input| {
        return BadInput;
      }
      FeedMsg(input, output);
      if old(MsgPhase()) {
        MsgRoundsMac(E, mode, nonce, origin, plaintextLen, ad, msg, input);
        msg := msg + PlainOf(E, mode, nonce, |msg|, input);
      }
      return Ok;
    }

    method ZeroCounter()
      requires Shape() && q <= 16
      modifies ctr
      ensures ctr[..] == ZeroedCtr(old(ctr[..]), q)
    {
      var i := 0;
      while i < q
        invariant 0 <= i <= q && ctr[..16 - q] == old(ctr[..16 - q])
        invariant forall k :: 16 - i <= k < 16 ==> ctr[k] == 0
      {
        ctr[15 - i] := 0;
        i := i + 1;
      }
      assert ctr[16 - q..] == Zeros(q);
      assert ctr[..] == ctr[..16 - q] + ctr[16 - q..];
    }

    /**
     mbedtls_ccm_finish, in any state: refuses an error and incomplete data, else masks y and clears
     the state. In the phase for it, the result is the tag of what was fed.
     */
    method Finish(n: nat) returns (r: Ret, tag: seq<Byte>)
      requires Sane() && n <= 16
      modifies this`started, this`lengthsSet, this`adStarted, this`adFinished, this`error, y, ctr
      ensures r == if old(error) then Corrupted
                   else if addLen > 0 && !old(adFinished) then BadInput
                   else if plaintextLen > 0 && processed != plaintextLen then BadInput else Ok
      ensures r != Ok ==> unchanged(this) && unchanged(y) && unchanged(ctr)
      ensures r == Ok ==> Clear() && tag == XorAt(old(y[..]), 0, E(ZeroedCtr(old(ctr[..]), q)))[..n]
      ensures old(MsgPhase()) ==> (r == Ok <==> plaintextLen == 0 || |msg| == plaintextLen)
      ensures old(MsgPhase()) && r == Ok ==> tag == TagFrom(E, nonce, origin, plaintextLen, ad, msg, n)
    {
      hide MacState, CtrBlock, XorAt, Used, Pow, ZeroedCtr;
      tag := [];
      if error {
        return Corrupted, tag;
      }
      if addLen > 0 && !adFinished {
        return BadInput, tag;
      }
      if plaintextLen > 0 && processed != plaintextLen {
        return BadInput, tag;
      }
      if old(MsgPhase()) {
        ZeroedIsZero(nonce, Used(|msg|, plaintextLen) + 1);
      }
      tag := MaskMac(n);
      Wipe();
      return Ok, tag;
    }

    /** y masked with the counter block of counter zero. */
    method MaskMac(n: nat) returns (tag: seq<Byte>)
      requires Shape() && q <= 16 && n <= 16
      modifies y, ctr
      ensures tag == XorAt(old(y[..]), 0, E(ZeroedCtr(old(ctr[..]), q)))[..n]
    {
      hide XorAt, ZeroedCtr;
      ZeroCounter();
      var mask := E(ctr[..]);
      XorIntoY(0, mask);
      tag := y[..n];
    }

    /** mbedtls_ccm_clear_state. */
    method Wipe()
      requires Sane()
      modifies this`started, this`lengthsSet, this`adStarted, this`adFinished, this`error, y, ctr
      ensures Clear()
    {
      started, lengthsSet, adStarted, adFinished, error := false, false, false, false, false;
      forall i | 0 <= i < 16 {
        y[i] := 0;
      }
      forall i | 0 <= i < 16 {
        ctr[i] := 0;
      }
    }

    /** Nothing left behind stands in the way of data. */
    lemma OpenPrimed(mode_: Mode, p: Params, o: Origin)
      requires Primed(mode_, p, o) && processed == 0 && !error && (addLen > 0 ==> !adFinished)
      requires ctr[..] == CtrBlock(nonce, 1)
      ensures Opened(mode_, p, o)
    {
      hide CtrBlock, Pow, AdState, AdHeader;
      if adStarted {
        ZeroHeader(E, o);
      }
      MessageStart(E, o, plaintextLen, []);
    }

    /**
     ccm_auth_crypt, in any state: it succeeds exactly when the settings are acceptable and nothing
     left behind makes it refuse, and its tag starts where the state left behind lets it start.
     */
    method AuthCrypt(mode_: Mode, iv: seq<Byte>, add: seq<Byte>, input: seq<Byte>, output: array<Byte>, n: nat)
      returns (r: Ret, tag: seq<Byte>)
      requires Sane() && output != y && output != ctr && output.Length >= |input|
      modifies this, y, ctr, output
      ensures Sane() && (r == Ok || r == BadInput)
      ensures r == Ok <==> Acceptable(mode_, iv, |add|, |input|, n) && !Refuses(old(Left()), mode_, iv, add)
      ensures r == Ok ==> Clear()
      ensures r == Ok ==> output[..|input|] == Stream(E, iv, 0, input) && output[|input|..] == old(output[|input|..])
      ensures r == Ok ==>
        var p := Settled(iv, |add|, |input|, n);
        tag == TagFrom(E, iv, OriginFrom(E, old(Left()), mode_, p), p.msgLen, add, PlainOf(E, mode_, iv, 0, input), n)
      ensures r != Ok ==> output[..] == old(output[..])
      ensures r != Ok && 7 <= |iv| <= 13 && LengthsOk(|add|, n) ==> Stuck() || (add != [] && adFinished)
      ensures old(Stuck()) && !mode_.Star() ==> r == BadInput && Stuck()
    {
      hide Pow, AdState, MacState, TagFrom, Stream, PlainOf, CtrBlock, OriginFrom, Acceptable, AdHeader, Used;
      tag := [];
      r := Setup(mode_, iv, |add|, |input|, n);
      if r != Ok {
        return;
      }
      hide Primed;
      r, tag := Complete(mode_, add, input, output, n, Settled(iv, |add|, |input|, n));
    }

    /** Its other calls. */
    method Complete(mode_: Mode, add: seq<Byte>, input: seq<Byte>, output: array<Byte>, n: nat, ghost p: Params)
      returns (r: Ret, tag: seq<Byte>)
      requires Primed(mode_, p, origin) && processed == 0 && ctr[..] == CtrBlock(nonce, 1)
      requires addLen == |add| && tagLen == n && (n > 0 ==> plaintextLen == |input|)
      requires output != y && output != ctr && output.Length >= |input|
      modifies this, y, ctr, output
      ensures Sane() && (r == Ok || r == BadInput)
      ensures r == Ok <==> !old(error) && (add == [] || !old(adFinished))
      ensures r == Ok ==>
        Clear() && tag == TagFrom(E, p.nonce, old(origin), p.msgLen, add, PlainOf(E, mode_, p.nonce, 0, input), n)
      ensures r == Ok ==> output[..|input|] == Stream(E, p.nonce, 0, input)
      ensures r == Ok ==> output[|input|..] == old(output[|input|..])
      ensures r != Ok ==> output[..] == old(output[..]) && error == old(error) && adFinished == old(adFinished)
      ensures r != Ok ==> lengthsSet == old(lengthsSet) && tagLen == old(tagLen)
    {
      hide Pow, AdState, MacState, TagFrom, Stream, PlainOf, CtrBlock, AdHeader, Used;
      hide AdRounds, MsgRounds, XorAt, ZeroedCtr;
      tag := [];
      if !error && (add == [] || !adFinished) {
        OpenPrimed(mode_, p, origin);
      }
      r := UpdateAd(add);
      if r != Ok {
        return;
      }
      assert MsgPhase() && ad == add && msg == [] && P() == p && mode == mode_;
      hide Primed, AdPhase;
      r := Update(input, output, |input|);
      assert msg == PlainOf(E, mode_, p.nonce, 0, input);
      r, tag := Finish(n);
    }

    /** What is left behind does no harm to an operation, if that is acceptable at all. */
    ghost predicate Spares(mode_: Mode, iv: seq<Byte>, add: seq<Byte>, msgLen: nat, n: nat)
      reads this, y
      requires Shape()
    {
      Acceptable(mode_, iv, |add|, msgLen, n) ==> Harmless(Left(), mode_, Settled(iv, |add|, msgLen, n), add)
    }

    lemma ClearSpares(mode_: Mode, iv: seq<Byte>, add: seq<Byte>, msgLen: nat, n: nat)
      requires Clear()
      ensures Spares(mode_, iv, add, msgLen, n)
    {
      hide Pow;
      if Acceptable(mode_, iv, |add|, msgLen, n) {
        ClearIsHarmless(Left(), mode_, Settled(iv, |add|, msgLen, n), add);
      }
    }

    /** Its first two calls. */
    method Setup(mode_: Mode, iv: seq<Byte>, adLen: nat, msgLen: nat, n: nat) returns (r: Ret)
      requires Sane()
      modifies this`mode, this`q, this`nonce, this`started
      modifies this`plaintextLen, this`addLen, this`tagLen, this`processed, this`lengthsSet
      modifies this`error, this`ad, this`msg, this`origin, y, ctr
      ensures Sane() && (r == Ok || r == BadInput)
      ensures var s := old(Left());
        && (r == Ok ==> Acceptable(mode_, iv, adLen, msgLen, n))
        && (r == Ok ==> s.lengthsSet ==> Acceptable(mode_, iv, s.adLen, s.msgLen, s.tagLen))
        && (Acceptable(mode_, iv, adLen, msgLen, n) ==>
              r == Ok || (s.lengthsSet && !Acceptable(mode_, iv, s.adLen, s.msgLen, s.tagLen)))
      ensures r == Ok ==>
        var p := Settled(iv, adLen, msgLen, n);
        && Primed(mode_, p, OriginFrom(E, old(Left()), mode_, p)) && processed == 0 && nonce == iv
        && ctr[..] == CtrBlock(iv, 1) && error == old(error)
      ensures r != Ok && 7 <= |iv| <= 13 && LengthsOk(adLen, n) ==> Stuck()
      ensures old(Stuck()) && !mode_.Star() ==> Stuck()
    {
      hide Pow, CtrBlock, OriginAt, NonceIn, OriginFrom, FirstFrom;
      ghost var s := Left();
      r := Starts(mode_, iv);
      if r != Ok {
        return;
      }
      ghost var y1 := y[..];
      r := SetLengths(adLen, msgLen, n);
      if r == Ok {
        OriginSteps(E, s, mode_, Settled(iv, adLen, msgLen, n), y1);
      }
    }

    /** ccm_auth_decrypt, in any state: the plaintext if the tag fits, else zeros. */
    method AuthDecrypt(mode_: Mode, iv: seq<Byte>, add: seq<Byte>, input: seq<Byte>, output: array<Byte>,
                       tag: seq<Byte>)
      returns (r: Ret)
      requires Sane() && output != y && output != ctr && output.Length >= |input| && !mode_.Encrypting()
      modifies this, y, ctr, output
      ensures Sane() && r != Corrupted
      ensures r != BadInput <==> Acceptable(mode_, iv, |add|, |input|, |tag|) && !Refuses(old(Left()), mode_, iv, add)
      ensures r != BadInput ==> Clear()
      ensures r != BadInput ==>
        var p := Settled(iv, |add|, |input|, |tag|);
        var o := OriginFrom(E, old(Left()), mode_, p);
        r == Ok <==> tag == TagFrom(E, iv, o, p.msgLen, add, Stream(E, iv, 0, input), |tag|)
      ensures r != BadInput ==> output[..|input|] == if r == Ok then Stream(E, iv, 0, input) else Zeros(|input|)
      ensures r != BadInput ==> output[|input|..] == old(output[|input|..])
      ensures r == BadInput ==> output[..] == old(output[..])
    {
      hide Pow, TagFrom, Stream, OriginFrom, Refuses;
      var check;
      r, check := AuthCrypt(mode_, iv, add, input, output, |tag|);
      if r != Ok {
        return BadInput;
      }
      var same := CompareTags(tag, check);
      if !same {
        forall i | 0 <= i < |input| {
          output[i] := 0;
        }
        return AuthFailed;
      }
      return Ok;
    }

    /** The same operation with the data in parts, and starts and set_lengths in either order. */
    method MultiPart(mode_: Mode, iv: seq<Byte>, adParts: seq<seq<Byte>>, parts: seq<seq<Byte>>, n: nat,
                     lengthsFirst: bool)
      returns (r: Ret, output: seq<Byte>, tag: seq<Byte>)
      requires Clear()
      modifies this, y, ctr
      ensures r == Ok <==> Acceptable(mode_, iv, |Flat(adParts)|, |Flat(parts)|, n)
      ensures r == Ok ==> Clear() && output == Stream(E, iv, 0, Flat(parts))
      ensures r == Ok ==>
        var (ad, input) := (Flat(adParts), Flat(parts));
        tag == Tag(E, Settled(iv, |ad|, |input|, n), ad, PlainOf(E, mode_, iv, 0, input))
    {
      hide Used, Pow, TagFrom, Stream, PlainOf, CtrBlock, Flat, Standard, MacState, AdState, XorAt, ZeroedCtr;
      output, tag := [], [];
      var adLen, msgLen := |Flat(adParts)|, |Flat(parts)|;
      r := Open(mode_, iv, adLen, msgLen, n, lengthsFirst);
      if r != Ok {
        return;
      }
      FeedAdParts(adParts);
      output := FeedParts(parts);
      r, tag := Finish(n);
    }

    method Open(mode_: Mode, iv: seq<Byte>, adLen: nat, msgLen: nat, n: nat, lengthsFirst: bool) returns (r: Ret)
      requires Clear()
      modifies this, y, ctr
      ensures r == Ok || r == BadInput
      ensures r == Ok <==> Acceptable(mode_, iv, adLen, msgLen, n)
      ensures r == Ok ==>
        var p := Settled(iv, adLen, msgLen, n);
        Opened(mode_, p, Standard(E, p))
    {
      hide Used, Pow, CtrBlock, OriginAt, NonceIn, Standard, MacState, AdState;
      ghost var y0 := y[..];
      if lengthsFirst {
        r := SetLengths(adLen, msgLen, n);
        if r == Ok {
          r := Starts(mode_, iv);
        }
      } else {
        r := Starts(mode_, iv);
        if r == Ok {
          r := SetLengths(adLen, msgLen, n);
        }
      }
      if r == Ok {
        ghost var p := Settled(iv, adLen, msgLen, n);
        ClearIsStandard(E, y0, p);
        OpenPrimed(mode_, p, Standard(E, p));
      }
    }

    method FeedAdParts(parts: seq<seq<Byte>>)
      requires Opened(mode, P(), origin) && |Flat(parts)| == addLen
      modifies this`processed, this`ad, this`adStarted, this`adFinished, y
      ensures MsgPhase() && msg == [] && ad == Flat(parts)
    {
      hide MacState, BigEndian, Used, Pow, AdState, CtrBlock, AdRounds, XorAt, AdHeader;
      assert parts[..0] == [];
      for i := 0 to |parts|
        invariant ad == Flat(parts[..i])
        invariant if |ad| < addLen then AdPhase() else MsgPhase() && msg == []
      {
        FlatStep(parts, i);
        var r := UpdateAd(parts[i]);
        assert Flat(parts[..i]) + [] == Flat(parts[..i]);
      }
      assert parts[..|parts|] == parts;
    }

    method FeedParts(parts: seq<seq<Byte>>) returns (output: seq<Byte>)
      requires MsgPhase() && msg == [] && (tagLen != 0 ==> |Flat(parts)| == plaintextLen)
      modifies this`processed, this`msg, y, ctr
      ensures MsgPhase() && msg == PlainOf(E, mode, nonce, 0, Flat(parts)) && output == Stream(E, nonce, 0, Flat(parts))
    {
      hide MacState, BigEndian, Used, Pow, AdState, CtrBlock, Stream, PlainOf, MsgRounds;
      output := [];
      assert parts[..0] == [];
      StreamNothing(E, nonce, 0);
      for i := 0 to |parts|
        invariant MsgPhase() && msg == PlainOf(E, mode, nonce, 0, Flat(parts[..i]))
        invariant output == Stream(E, nonce, 0, Flat(parts[..i]))
      {
        FlatStep(parts, i);
        PartsConcat(E, mode, nonce, 0, Flat(parts[..i]), parts[i]);
        var out := new Byte[|parts[i]|](j => 0);
        var r := Update(parts[i], out, |parts[i]|);
        output := output + out[..];
      }
      assert parts[..|parts|] == parts;
    }
  }

  /** mbedtls_ccm_compare_tags: no difference bit is set exactly when the tags are equal. */
  method CompareTags(a: seq<Byte>, b: seq<Byte>) returns (same: bool)
    requires |a| == |b|
    ensures same <==> a == b
  {
    hide Xor, BitOr;
    var diff := 0;
    for i := 0 to |a|
      invariant diff == 0 <==> a[..i] == b[..i]
    {
      XorDiffers(a[i], b[i]);
      OrNonzero(diff, Xor(a[i], b[i]));
      assert a[..i + 1] == a[..i] + [a[i]] && b[..i + 1] == b[..i] + [b[i]];
      diff := BitOr(diff, Xor(a[i], b[i]));
    }
    assert a[..|a|] == a && b[..|b|] == b;
    same := diff == 0;
  }

  /** The counter loop: a carry runs through the low n bytes. */
  method IncrementLow(a: array<Byte>, n: nat)
    requires n <= a.Length
    modifies a
    ensures a[..] == IncrementIn(old(a[..]), a.Length - n, a.Length)
  {
    var len := a.Length;
    var i := 0;
    while i < n
      invariant 0 <= i <= n
      invariant IncrementIn(a[..], len - n, len - i) == IncrementIn(old(a[..]), len - n, len)
    {
      ghost var was := a[..];
      var b: Byte := if a[len - 1 - i] == 255 then 0 else a[len - 1 - i] + 1;
      a[len - 1 - i] := b;
      assert a[..] == was[len - 1 - i := b];
      if a[len - 1 - i] != 0 {
        return;
      }
      i := i + 1;
    }
  }

  // ---------------------------------------------------------------- both ends, and a context that is stuck

  /**
   A sender and a receiver that cut the data in unrelated ways and set up in any order: the message
   comes back with the tag the sender made.
   */
  method Exchange(E: Cipher, star: bool, nonce: seq<Byte>, adOut: seq<seq<Byte>>, msgOut: seq<seq<Byte>>,
                  outFirst: bool,
                  adIn: seq<seq<Byte>>, cut: seq<nat>, inFirst: bool, n: nat)
    returns (r: Ret, plain: seq<Byte>, sent: seq<Byte>, received: seq<Byte>)
    requires Flat(adOut) == Flat(adIn)
    ensures r == Ok <==> Acceptable(EncryptMode(star), nonce, |Flat(adOut)|, |Flat(msgOut)|, n)
    ensures r == Ok ==> plain == Flat(msgOut) && sent == received
  {
    hide Tag, Stream, Flat, Pow;
    plain, sent, received := [], [], [];
    var sender := new Context(E);
    var c;
    r, c, sent := sender.MultiPart(EncryptMode(star), nonce, adOut, msgOut, n, outFirst);
    if r != Ok {
      return;
    }
    var receiver := new Context(E);
    var parts := CutAt(c, cut);
    DecryptUndoesEncrypt(E, nonce, Flat(adOut), Flat(msgOut), n);
    r, plain, received := receiver.MultiPart(DecryptMode(star), nonce, adIn, parts, n, inFirst);
  }

  function EncryptMode(star: bool): Mode
  {
    if star then StarEncrypt else Encrypt
  }

  function DecryptMode(star: bool): Mode
  {
    if star then StarDecrypt else Decrypt
  }

  /** A one-shot call on a context whose left-behind state is harmless to it gives the standard's result. */
  method OneShot(ctx: Context, mode: Mode, iv: seq<Byte>, add: seq<Byte>, input: seq<Byte>, n: nat)
    returns (r: Ret, output: seq<Byte>, tag: seq<Byte>)
    requires ctx.Sane() && ctx.Spares(mode, iv, add, |input|, n)
    modifies ctx, ctx.y, ctx.ctr
    ensures ctx.Sane() && (r == Ok <==> Acceptable(mode, iv, |add|, |input|, n))
    ensures r == Ok ==> ctx.Clear() && output == Stream(ctx.E, iv, 0, input)
    ensures r == Ok ==>
      tag == Tag(ctx.E, Settled(iv, |add|, |input|, n), add, PlainOf(ctx.E, mode, iv, 0, input))
  {
    hide TagFrom, Tag, Stream, PlainOf, OriginFrom, Pow, FirstByte;
    ghost var s := ctx.Left();
    var out := new Byte[|input|](i => 0);
    r, tag := ctx.AuthCrypt(mode, iv, add, input, out, n);
    output := out[..];
    if r == Ok {
      HarmlessTag(ctx.E, s, mode, Settled(iv, |add|, |input|, n), add, PlainOf(ctx.E, mode, iv, 0, input));
    }
  }

  /** A receiver takes exactly the standard's tag for the plaintext; any other gets zeros. */
  method Judge(ctx: Context, star: bool, iv: seq<Byte>, add: seq<Byte>, c: seq<Byte>, tag: seq<Byte>)
    returns (r: Ret, plain: seq<Byte>)
    requires ctx.Sane() && ctx.Spares(DecryptMode(star), iv, add, |c|, |tag|)
    modifies ctx, ctx.y, ctx.ctr
    ensures ctx.Sane() && r != Corrupted && (r != BadInput <==> Acceptable(DecryptMode(star), iv, |add|, |c|, |tag|))
    ensures r != BadInput ==> ctx.Clear()
    ensures r != BadInput ==>
      var msg := Stream(ctx.E, iv, 0, c);
      && (r == Ok <==> tag == Tag(ctx.E, Settled(iv, |add|, |c|, |tag|), add, msg))
      && plain == if r == Ok then msg else Zeros(|c|)
  {
    hide TagFrom, Tag, Stream, OriginFrom, Pow, FirstByte;
    ghost var s := ctx.Left();
    var out := new Byte[|c|](i => 0);
    r := ctx.AuthDecrypt(DecryptMode(star), iv, add, c, out, tag);
    plain := out[..];
    if r != BadInput {
      HarmlessTag(ctx.E, s, DecryptMode(star), Settled(iv, |add|, |c|, |tag|), add, Stream(ctx.E, iv, 0, c));
    }
  }

  /**
   auth_decrypt accepts every output of encrypt_and_tag and returns the message, and answers any
   other tag with an error and zeros. The two contexts may be one, and may have a past that is
   harmless.
   */
  method Deliver(sender: Context, receiver: Context, star: bool, iv: seq<Byte>, add: seq<Byte>, msg: seq<Byte>, n: nat,
                 forged: seq<Byte>)
    returns (sent: Ret, tag: seq<Byte>, got: Ret, plain: seq<Byte>, judged: Ret, blank: seq<Byte>)
    requires sender.Sane() && receiver.Sane() && sender.E == receiver.E
    requires sender == receiver || {sender.y, sender.ctr} !! {receiver.y, receiver.ctr}
    requires sender.Spares(EncryptMode(star), iv, add, |msg|, n)
    requires receiver.Spares(DecryptMode(star), iv, add, |msg|, n)
    modifies sender, sender.y, sender.ctr, receiver, receiver.y, receiver.ctr
    ensures sent == Ok <==> Acceptable(EncryptMode(star), iv, |add|, |msg|, n)
    ensures sent == Ok ==> |tag| == n && got == Ok && plain == msg
    ensures sent == Ok && |forged| == n && forged != tag ==> judged == AuthFailed && blank == Zeros(|msg|)
  {
    hide Tag, Stream, PlainOf, Pow, Harmless;
    got, plain, judged, blank := BadInput, [], BadInput, [];
    var c;
    sent, c, tag := OneShot(sender, EncryptMode(star), iv, add, msg, n);
    if sent != Ok {
      return;
    }
    assert PlainOf(sender.E, EncryptMode(star), iv, 0, msg) == msg by { PlainOfEncrypt(sender.E, star, iv, msg); }
    DecryptUndoesEncrypt(sender.E, iv, add, msg, n);
    if receiver == sender {
      receiver.ClearSpares(DecryptMode(star), iv, add, |msg|, n);
    }
    got, plain := Judge(receiver, star, iv, add, c, tag);
    receiver.ClearSpares(DecryptMode(star), iv, add, |msg|, |forged|);
    judged, blank := Judge(receiver, star, iv, add, c, forged);
  }

  lemma PlainOfEncrypt(E: Cipher, star: bool, iv: seq<Byte>, msg: seq<Byte>)
    requires 7 <= |iv| <= 13
    ensures PlainOf(E, EncryptMode(star), iv, 0, msg) == msg
  {
  }

  /** Data in any parts, set up in either order, against the one-shot call: the same answer, output and tag. */
  method PartsAgree(a: Context, b: Context, mode: Mode, iv: seq<Byte>, adParts: seq<seq<Byte>>, parts: seq<seq<Byte>>,
                    n: nat, lengthsFirst: bool)
    returns (r: Ret, output: seq<Byte>, tag: seq<Byte>, r': Ret, output': seq<Byte>, tag': seq<Byte>)
    requires a.Clear() && b.Sane() && a.E == b.E && a != b && {a.y, a.ctr} !! {b.y, b.ctr}
    requires b.Spares(mode, iv, Flat(adParts), |Flat(parts)|, n)
    modifies a, a.y, a.ctr, b, b.y, b.ctr
    ensures r == Ok <==> r' == Ok
    ensures r == Ok ==> output == output' && tag == tag'
  {
    hide Tag, Stream, PlainOf, Pow, Flat, Harmless;
    r, output, tag := a.MultiPart(mode, iv, adParts, parts, n, lengthsFirst);
    r', output', tag' := OneShot(b, mode, iv, Flat(adParts), Flat(parts), n);
  }

  /** Cuts a string into parts of the given lengths and a rest. */
  method CutAt(s: seq<Byte>, cut: seq<nat>) returns (parts: seq<seq<Byte>>)
    ensures Flat(parts) == s
  {
    hide Flat;
    parts := [];
    var at := 0;
    FlatNothing();
    for i := 0 to |cut|
      invariant 0 <= at <= |s| && Flat(parts) == s[..at]
    {
      var next := if at + cut[i] <= |s| then at + cut[i] else |s|;
      FlatPush(parts, s[at..next]);
      assert s[..next] == s[..at] + s[at..next];
      parts := parts + [s[at..next]];
      at := next;
    }
    FlatPush(parts, s[at..]);
    assert s == s[..at] + s[at..];
    parts := parts + [s[at..]];
  }

  lemma FlatNothing()
    ensures Flat([]) == []
  {
  }

  lemma FlatPush(parts: seq<seq<Byte>>, s: seq<Byte>)
    ensures Flat(parts + [s]) == Flat(parts) + s
  {
    assert (parts + [s])[..|parts|] == parts;
  }

  datatype Request = Request(encrypt: bool, iv: seq<Byte>, add: seq<Byte>, input: seq<Byte>, n: nat)

  /** One call without a tag outside CCM*, and every later CCM call on the context is refused, acceptable or not. */
  method RefusedForever(E: Cipher, iv: seq<Byte>, later: seq<Request>) returns (first: Ret, replies: seq<Ret>)
    requires 7 <= |iv| <= 13
    ensures first == BadInput && |replies| == |later|
    ensures forall i :: 0 <= i < |later| ==> replies[i] == BadInput
  {
    hide Acceptable, Refuses, TagFrom, Stream, Pow;
    var ctx := new Context(E);
    var none := new Byte[0];
    var tag;
    NoTagRefused(iv);
    first, tag := ctx.AuthCrypt(Encrypt, iv, [], [], none, 0);
    replies := [];
    while |replies| < |later|
      invariant |replies| <= |later| && ctx.Sane() && ctx.Stuck() && fresh(ctx) && fresh(ctx.y) && fresh(ctx.ctr)
      invariant forall i :: 0 <= i < |replies| ==> replies[i] == BadInput
    {
      var q := later[|replies|];
      var output := new Byte[|q.input|](i => 0);
      var r;
      r, tag := ctx.AuthCrypt(if q.encrypt then Encrypt else Decrypt, q.iv, q.add, q.input, output, q.n);
      replies := replies + [r];
    }
  }

  lemma NoTagRefused(iv: seq<Byte>)
    ensures !Acceptable(Encrypt, iv, 0, 0, 0)
  {
  }
}
