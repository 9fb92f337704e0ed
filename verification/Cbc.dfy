/** CBC as a stream: the cipher layer buffers partial blocks, and a padded decryption holds one back. */
module Cbc {
  import opened Arith
  import opened Bits
  import opened Blocks
  import opened Padding

  // ---------------------------------------------------------------- the chaining

  function LastBlock(iv: Block, c: seq<Byte>): Block
    requires |c| % 16 == 0
  {
    if c == [] then iv else c[|c| - 16..]
  }

  /** The chaining value after s became out: the last ciphertext block. */
  function Next(encrypting: bool, iv: Block, s: seq<Byte>, out: seq<Byte>): Block
    requires |s| % 16 == 0 && |out| % 16 == 0
  {
    LastBlock(iv, if encrypting then out else s)
  }

  function OneBlock(C: Cipher, encrypting: bool, prev: Block, b: Block): Block
  {
    if encrypting then C(XorBlock(b, prev)) else XorBlock(C(b), prev)
  }

  /** CBC over whole blocks, in either direction. */
  function Chain(C: Cipher, encrypting: bool, iv: Block, s: seq<Byte>): (r: seq<Byte>)
    requires |s| % 16 == 0
    ensures |r| == |s|
  {
    if s == [] then [] else
    var n := |s| - 16;
    var before := Chain(C, encrypting, iv, s[..n]);
    before + OneBlock(C, encrypting, Next(encrypting, iv, s[..n], before), s[n..])
  }

  lemma ChainStep(C: Cipher, encrypting: bool, iv: Block, s: seq<Byte>, b: Block)
    requires |s| % 16 == 0
    ensures Chain(C, encrypting, iv, s + b) ==
      Chain(C, encrypting, iv, s) + OneBlock(C, encrypting, Next(encrypting, iv, s, Chain(C, encrypting, iv, s)), b)
  {
    assert (s + b)[..|s|] == s && (s + b)[|s|..] == b;
  }

  /** The block before the end of a string is its last one. */
  lemma LastIs(iv: Block, c: seq<Byte>, i: nat)
    requires |c| == 16 * i
    ensures |c| % 16 == 0 && LastBlock(iv, c) == if i == 0 then iv else BlockAt(c, i - 1)
  {
  }

  lemma ChainFront(C: Cipher, encrypting: bool, iv: Block, front: seq<Byte>, last: Block, i: nat)
    requires |front| % 16 == 0 && 16 * i + 16 <= |front|
    ensures BlockAt(Chain(C, encrypting, iv, front + last), i) == BlockAt(Chain(C, encrypting, iv, front), i)
  {
    hide Chain, BlockAt, OneBlock, Next;
    ChainStep(C, encrypting, iv, front, last);
    var out := Chain(C, encrypting, iv, front);
    BlockAtFront(out, OneBlock(C, encrypting, Next(encrypting, iv, front, out), last), i);
  }

  lemma ChainEnd(C: Cipher, encrypting: bool, iv: Block, front: seq<Byte>, last: Block, i: nat)
    requires |front| == 16 * i
    ensures |front| % 16 == 0
    ensures var out := Chain(C, encrypting, iv, front);
      var prev := LastBlock(iv, if encrypting then out else front);
      BlockAt(Chain(C, encrypting, iv, front + last), i) ==
      if encrypting then C(XorBlock(last, prev)) else XorBlock(C(last), prev)
  {
    hide Chain, XorBlock, BlockAt, LastBlock;
    DivUnique(|front|, 16, i, 0);
    ChainStep(C, encrypting, iv, front, last);
    var out := Chain(C, encrypting, iv, front);
    BlockAtEnd(out, OneBlock(C, encrypting, Next(encrypting, iv, front, out), last));
  }

  /** Section 6.2 of NIST SP 800-38A: block i enciphers its plaintext xored with the ciphertext before it. */
  lemma {:induction false} EncryptedBlock(E: Cipher, iv: Block, s: seq<Byte>, i: nat)
    requires |s| % 16 == 0 && 16 * i + 16 <= |s|
    ensures var c := Chain(E, true, iv, s);
      BlockAt(c, i) == E(XorBlock(BlockAt(s, i), if i == 0 then iv else BlockAt(c, i - 1)))
  {
    hide XorBlock, BlockAt, Chain, LastBlock;
    var n := |s| - 16;
    var front, last: Block := s[..n], s[n..];
    assert s == front + last;
    if 16 * i < n {
      EncryptedBlock(E, iv, front, i);
      BlockAtFront(front, last, i);
      ChainFront(E, true, iv, front, last, i);
    } else {
      ChainEnd(E, true, iv, front, last, i);
      BlockAtEnd(front, last);
      LastIs(iv, Chain(E, true, iv, front), i);
    }
    if i > 0 {
      ChainFront(E, true, iv, front, last, i - 1);
    }
  }

  /** Block i of a decryption is deciphered and xored with the ciphertext before it. */
  lemma {:induction false} DecryptedBlock(D: Cipher, iv: Block, c: seq<Byte>, i: nat)
    requires |c| % 16 == 0 && 16 * i + 16 <= |c|
    ensures BlockAt(Chain(D, false, iv, c), i) ==
      XorBlock(D(BlockAt(c, i)), if i == 0 then iv else BlockAt(c, i - 1))
  {
    hide XorBlock, BlockAt, Chain, LastBlock;
    var n := |c| - 16;
    var front, last: Block := c[..n], c[n..];
    assert c == front + last;
    if 16 * i < n {
      DecryptedBlock(D, iv, front, i);
      BlockAtFront(front, last, i);
      ChainFront(D, false, iv, front, last, i);
    } else {
      ChainEnd(D, false, iv, front, last, i);
      BlockAtEnd(front, last);
      LastIs(iv, front, i);
    }
    if i > 0 {
      BlockAtFront(front, last, i - 1);
    }
  }

  /** A change of the chaining value shows in the first plaintext block, bit by bit, and nowhere else. */
  lemma IvChange(D: Cipher, iv: Block, d: Block, c: seq<Byte>)
    requires |c| % 16 == 0 && c != []
    ensures var p, p' := Chain(D, false, iv, c), Chain(D, false, XorBlock(iv, d), c);
      p'[..16] == XorBlock(p[..16], d) && p'[16..] == p[16..]
  {
    hide XorBlock, Chain;
    var p, p' := Chain(D, false, iv, c), Chain(D, false, XorBlock(iv, d), c);
    DecryptedBlock(D, iv, c, 0);
    DecryptedBlock(D, XorBlock(iv, d), c, 0);
    XorBlockAssoc(D(BlockAt(c, 0)), iv, d);
    forall k | 16 <= k < |c|
      ensures p'[k] == p[k]
    {
      var i := k / 16;
      DecryptedBlock(D, iv, c, i);
      DecryptedBlock(D, XorBlock(iv, d), c, i);
      assert BlockAt(p', i)[k - 16 * i] == BlockAt(p, i)[k - 16 * i];
    }
  }

  lemma XorBlockAssoc(a: Block, b: Block, c: Block)
    ensures XorBlock(XorBlock(a, b), c) == XorBlock(a, XorBlock(b, c))
  {
    forall i | 0 <= i < 16
      ensures XorBlock(XorBlock(a, b), c)[i] == XorBlock(a, XorBlock(b, c))[i]
    {
      XorAssoc(a[i], b[i], c[i]);
    }
  }

  lemma NextStep(encrypting: bool, iv: Block, s: seq<Byte>, out: seq<Byte>, b: Block, c: Block)
    requires |s| % 16 == 0 && |out| % 16 == 0
    ensures Next(encrypting, iv, s + b, out + c) == if encrypting then c else b
  {
  }

  lemma {:induction false} ChainConcat(C: Cipher, encrypting: bool, iv: Block, a: seq<Byte>, b: seq<Byte>)
    requires |a| % 16 == 0 && |b| % 16 == 0
    ensures var out := Chain(C, encrypting, iv, a);
      var next := Next(encrypting, iv, a, out);
      var more := Chain(C, encrypting, next, b);
      && Chain(C, encrypting, iv, a + b) == out + more
      && Next(encrypting, iv, a + b, out + more) == Next(encrypting, next, b, more)
  {
    hide Chain, OneBlock, Next;
    var out := Chain(C, encrypting, iv, a);
    var next := Next(encrypting, iv, a, out);
    if b == [] {
      NothingChained(C, encrypting, next);
      assert a + b == a && out + [] == out;
    } else {
      var n := |b| - 16;
      var front, last := b[..n], b[n..];
      ChainConcat(C, encrypting, iv, a, front);
      var more := Chain(C, encrypting, next, front);
      ConcatAssoc(a, front, last);
      assert front + last == b;
      ChainStep(C, encrypting, iv, a + front, last);
      ChainStep(C, encrypting, next, front, last);
      var c := OneBlock(C, encrypting, Next(encrypting, next, front, more), last);
      ConcatAssoc(out, more, c);
      NextStep(encrypting, iv, a + front, out + more, last, c);
      NextStep(encrypting, next, front, more, last, c);
    }
  }

  /** Decryption undoes encryption. */
  lemma {:induction false} ChainInverse(E: Cipher, D: Cipher, iv: Block, s: seq<Byte>)
    requires Inverse(E, D) && |s| % 16 == 0
    ensures Chain(D, false, iv, Chain(E, true, iv, s)) == s
  {
    if s != [] {
      hide Chain, XorBlock;
      var n := |s| - 16;
      var front, last := s[..n], s[n..];
      ChainInverse(E, D, iv, front);
      assert s == front + last;
      var out := Chain(E, true, iv, front);
      var prev := LastBlock(iv, out);
      ChainStep(E, true, iv, front, last);
      ChainStep(D, false, iv, out, E(XorBlock(last, prev)));
      XorBlockCancel(last, prev);
    } else {
      assert Chain(E, true, iv, s) == [];
    }
  }

  datatype Ret = Ok | InvalidInputLength | FullBlockExpected | InvalidPadding

  /** mbedtls_aes_crypt_cbc. */
  method CryptCbc(C: Cipher, encrypting: bool, iv: array<Byte>, input: seq<Byte>, output: array<Byte>, at: nat)
    returns (r: Ret)
    requires iv.Length == 16 && iv != output && at + |input| <= output.Length
    modifies iv, output
    ensures r == if |input| % 16 == 0 then Ok else InvalidInputLength
    ensures r == Ok ==> output[at..at + |input|] == Chain(C, encrypting, old(iv[..]), input)
    ensures r == Ok ==> iv[..] == Next(encrypting, old(iv[..]), input, output[at..at + |input|])
    ensures output[..at] == old(output[..at]) && output[at + |input|..] == old(output[at + |input|..])
    ensures r != Ok ==> iv[..] == old(iv[..])
  {
    hide Chain, OneBlock, Next;
    if |input| % 16 != 0 {
      return InvalidInputLength;
    }
    ghost var iv0 := iv[..];
    var k := 0;
    NothingChained(C, encrypting, iv0);
    while k < |input|
      invariant 0 <= k <= |input| && k % 16 == 0
      invariant output[at..at + k] == Chain(C, encrypting, iv0, input[..k])
      invariant iv[..] == Next(encrypting, iv0, input[..k], output[at..at + k])
      invariant output[..at] == old(output[..at]) && output[at + |input|..] == old(output[at + |input|..])
    {
      var b: Block := input[k..k + 16];
      ghost var before, done := output[..], output[at..at + k];
      ChainStep(C, encrypting, iv0, input[..k], b);
      assert input[..k + 16] == input[..k] + b;
      CryptOne(C, encrypting, iv, b, output, at + k);
      OneWritten(before, output[..], at, k, |input|);
      assert output[at..at + k] == done;
      NextStep(encrypting, iv0, input[..k], done, b, output[at + k..at + k + 16]);
      k := k + 16;
    }
    assert input[..k] == input;
    return Ok;
  }

  /** A block written behind the first k bytes of the output changes nothing else. */
  lemma OneWritten(before: seq<Byte>, after: seq<Byte>, at: nat, k: nat, n: nat)
    requires |before| == |after| && at + k + 16 <= at + n <= |after|
    requires before[..at + k] == after[..at + k] && before[at + k + 16..] == after[at + k + 16..]
    ensures after[..at] == before[..at] && after[at..at + k] == before[at..at + k]
    ensures after[at + n..] == before[at + n..]
    ensures after[at..at + k + 16] == after[at..at + k] + after[at + k..at + k + 16]
  {
    assert after[..at] == after[..at + k][..at] && before[..at] == before[..at + k][..at];
    assert after[at..at + k] == after[..at + k][at..] && before[at..at + k] == before[..at + k][at..];
    var rest := n - k - 16;
    assert after[at + n..] == after[at + k + 16..][rest..] && before[at + n..] == before[at + k + 16..][rest..];
  }

  lemma NothingChained(C: Cipher, encrypting: bool, iv: Block)
    ensures Chain(C, encrypting, iv, []) == [] && Next(encrypting, iv, [], []) == iv
  {
  }

  /** One round of either loop of mbedtls_aes_crypt_cbc. */
  method CryptOne(C: Cipher, encrypting: bool, iv: array<Byte>, b: Block, output: array<Byte>, at: nat)
    requires iv.Length == 16 && iv != output && at + 16 <= output.Length
    modifies iv, output
    ensures output[at..at + 16] == OneBlock(C, encrypting, old(iv[..]), b)
    ensures iv[..] == if encrypting then output[at..at + 16] else b
    ensures output[..at] == old(output[..at]) && output[at + 16..] == old(output[at + 16..])
  {
    hide XorBlock;
    if encrypting {
      XorLoop(b, iv[..], output, at);
      CopyInto(C(output[at..at + 16]), output, at);
      CopyInto(output[at..at + 16], iv, 0);
    } else {
      var temp := b;
      CopyInto(C(b), output, at);
      XorLoop(output[at..at + 16], iv[..], output, at);
      CopyInto(temp, iv, 0);
    }
    assert iv[..] == iv[0..16];
  }

  // ---------------------------------------------------------------- the cipher context

  /** How much of n input bytes has been processed; a padded decryption keeps the last block back. */
  function DoneLen(n: nat, holdsBack: bool): (d: nat)
    ensures d % 16 == 0 && d <= n
    ensures if holdsBack then n - d <= 16 && (n > 0 ==> n > d) else n - d < 16
  {
    if !holdsBack then n - n % 16 else if n == 0 then 0 else (n - 1) - (n - 1) % 16
  }

  lemma DoneLenUnique(n: nat, d: nat, holdsBack: bool)
    requires d % 16 == 0 && d <= n
    requires if holdsBack then n - d <= 16 && (n > 0 ==> n > d) else n - d < 16
    ensures DoneLen(n, holdsBack) == d
  {
  }

  class Context {
    const E: Cipher
    const D: Cipher
    const encrypting: bool
    const scheme: Scheme
    const iv: array<Byte>
    const unprocessed: array<Byte>
    var unprocessedLen: nat
    ghost const iv0: Block
    /** The blocks processed so far and what they became. */
    ghost var done: seq<Byte>
    ghost var emitted: seq<Byte>

    ghost predicate HoldsBack()
    {
      !encrypting && scheme != NoPadding
    }

    function C(): Cipher
    {
      if encrypting then E else D
    }

    ghost predicate Processed()
      reads this, iv
    {
      && iv.Length == 16 && unprocessed.Length == 16 && iv != unprocessed && |done| % 16 == 0
      && emitted == Chain(C(), encrypting, iv0, done) && iv[..] == Next(encrypting, iv0, done, emitted)
    }

    /** All the input so far. */
    ghost function Fed(): seq<Byte>
      reads this, unprocessed
      requires unprocessedLen <= unprocessed.Length
    {
      done + unprocessed[..unprocessedLen]
    }

    ghost predicate Valid()
      reads this, iv, unprocessed
    {
      Processed() && unprocessedLen <= 16 && |done| == DoneLen(|Fed()|, HoldsBack())
    }

    constructor (E_: Cipher, D_: Cipher, encrypting_: bool, scheme_: Scheme, iv_: Block)
      ensures Valid() && Fed() == [] && emitted == [] && fresh(iv) && fresh(unprocessed)
      ensures E == E_ && D == D_ && encrypting == encrypting_ && scheme == scheme_ && iv0 == iv_
    {
      E, D, encrypting, scheme, iv0 := E_, D_, encrypting_, scheme_, iv_;
      iv := new Byte[16](i requires 0 <= i < 16 => iv_[i]);
      unprocessed := new Byte[16](i => 0);
      unprocessedLen := 0;
      done, emitted := [], [];
      new;
      assert iv[..] == iv_;
    }

    /** cbc_func on whole blocks. */
    method Process(blocks: seq<Byte>, output: array<Byte>, at: nat)
      requires Processed() && |blocks| % 16 == 0 && at + |blocks| <= output.Length
      requires output != iv && output != unprocessed
      modifies this`done, this`emitted, iv, output
      ensures Processed() && done == old(done) + blocks && |output[at..at + |blocks|]| == |blocks|
      ensures emitted == old(emitted) + output[at..at + |blocks|]
      ensures output[..at] == old(output[..at]) && output[at + |blocks|..] == old(output[at + |blocks|..])
    {
      hide Chain, Next;
      ChainConcat(C(), encrypting, iv0, done, blocks);
      var r := CryptCbc(C(), encrypting, iv, blocks, output, at);
      done, emitted := done + blocks, emitted + output[at..at + |blocks|];
    }

    /** The CBC branch of mbedtls_cipher_update. */
    method Update(input: seq<Byte>, output: array<Byte>) returns (olen: nat)
      requires Valid() && output.Length >= |input| + 16 && output != iv && output != unprocessed
      modifies this`done, this`emitted, this`unprocessedLen, iv, unprocessed, output
      ensures Valid() && Fed() == old(Fed()) + input
      ensures olen <= output.Length && emitted == old(emitted) + output[..olen] && output[olen..] == old(output[olen..])
    {
      hide Chain, Next, DoneLen;
      var room := 16 - unprocessedLen;
      if (!encrypting && scheme != NoPadding && |input| <= room)
         || (!encrypting && scheme == NoPadding && |input| < room)
         || (encrypting && |input| < room) {
        KeepAll(input);
        return 0;
      }
      var rest;
      rest, olen := FlushKept(input, output);
      ghost var out, more, mid := output[..olen], olen, output[..];
      olen := ProcessRest(rest, output, olen);
      BeyondKept(old(output[..]), mid, more, olen);
      assert output[olen..] == mid[olen..];
      ConcatAssoc(old(emitted), out, output[more..olen]);
      assert output[..olen] == output[..more] + output[more..olen];
    }

    /** Nothing is cached: whole blocks are processed and the tail is kept. */
    method ProcessRest(rest: seq<Byte>, output: array<Byte>, at: nat) returns (olen: nat)
      requires Processed() && unprocessedLen == 0 && at + |rest| <= output.Length
      requires output != iv && output != unprocessed
      requires HoldsBack() ==> rest != [] || done == []
      modifies this`done, this`emitted, this`unprocessedLen, iv, unprocessed, output
      ensures Valid() && Fed() == old(done) + rest && at <= olen <= output.Length
      ensures emitted == old(emitted) + output[at..olen]
      ensures output[..at] == old(output[..at]) && output[olen..] == old(output[olen..])
    {
      hide Chain, Next, DoneLen;
      var full := KeepTail(rest);
      ConcatAssoc(done, full, unprocessed[..unprocessedLen]);
      olen := ProcessFull(full, output, at);
      DoneLenUnique(|Fed()|, |done|, HoldsBack());
    }

    /** The remaining full blocks, if any. */
    method ProcessFull(full: seq<Byte>, output: array<Byte>, at: nat) returns (olen: nat)
      requires Processed() && |full| % 16 == 0 && at + |full| <= output.Length && output != iv && output != unprocessed
      modifies this`done, this`emitted, iv, output
      ensures Processed() && done == old(done) + full
      ensures olen == at + |full| && emitted == old(emitted) + output[at..olen]
      ensures output[..at] == old(output[..at]) && output[olen..] == old(output[olen..])
    {
      hide Chain, Next;
      olen := at;
      if |full| != 0 {
        Process(full, output, at);
        olen := olen + |full|;
      }
    }

    /** Not enough data for a full block: it is cached. */
    method KeepAll(input: seq<Byte>)
      requires Valid() && unprocessedLen + |input| <= 16 && (!HoldsBack() ==> unprocessedLen + |input| < 16)
      modifies this`unprocessedLen, unprocessed
      ensures Valid() && Fed() == old(Fed()) + input
    {
      hide Chain, Next, DoneLen;
      ghost var u := unprocessed[..unprocessedLen];
      CopyInto(input, unprocessed, unprocessedLen);
      unprocessedLen := unprocessedLen + |input|;
      assert unprocessed[..unprocessedLen] == u + input;
      ConcatAssoc(done, u, input);
      DoneLenUnique(|Fed()|, |done|, HoldsBack());
    }

    /** Cached data goes first, completed by the head of the input. */
    method FlushKept(input: seq<Byte>, output: array<Byte>) returns (rest: seq<Byte>, olen: nat)
      requires Processed() && unprocessedLen <= 16 && |input| >= 16 - unprocessedLen
      requires output.Length >= |input| + 16 && output != iv && output != unprocessed
      modifies this`done, this`emitted, this`unprocessedLen, iv, unprocessed, output
      ensures Processed() && unprocessedLen == 0 && done + rest == old(Fed()) + input
      ensures olen + |rest| <= output.Length && emitted == old(emitted) + output[..olen]
      ensures output[olen..] == old(output[olen..])
      ensures |input| > 16 - old(unprocessedLen) ==> rest != []
    {
      hide Chain, Next;
      ghost var u := unprocessed[..unprocessedLen];
      if unprocessedLen == 0 {
        return input, 0;
      }
      var copyLen := 16 - unprocessedLen;
      var head := input[..copyLen];
      rest := input[copyLen..];
      CopyInto(head, unprocessed, unprocessedLen);
      assert unprocessed[..] == u + head;
      ghost var done0 := done;
      Process(unprocessed[..], output, 0);
      unprocessedLen := 0;
      olen := 16;
      assert output[0..16] == output[..16];
      Regroup(done0, u, head, rest);
      assert head + rest == input;
    }

    /** The final, incomplete block is cached, or the last whole one when a block is held back. */
    method KeepTail(rest: seq<Byte>) returns (full: seq<Byte>)
      requires unprocessed.Length == 16 && unprocessedLen == 0
      modifies this`unprocessedLen, unprocessed
      ensures unprocessedLen <= 16 && rest == full + unprocessed[..unprocessedLen] && |full| % 16 == 0
      ensures if HoldsBack() then (rest != [] ==> unprocessedLen > 0) else unprocessedLen < 16
    {
      var copyLen := 0;
      if |rest| != 0 {
        copyLen := |rest| % 16;
        if copyLen == 0 && !encrypting && scheme != NoPadding {
          copyLen := 16;
        }
        var tail := rest[|rest| - copyLen..];
        CopyInto(tail, unprocessed, 0);
        unprocessedLen := unprocessedLen + copyLen;
        assert unprocessed[..unprocessedLen] == unprocessed[0..|tail|];
      }
      full := rest[..|rest| - copyLen];
    }

    /** The CBC branch of mbedtls_cipher_finish. */
    method Finish(output: array<Byte>) returns (r: Ret, olen: nat)
      requires Valid() && output.Length >= 16 && output != iv && output != unprocessed
      modifies this`done, this`emitted, iv, unprocessed, output
      ensures encrypting ==> (r == Ok <==> Encryptable(scheme, old(Fed())))
      ensures encrypting && r == Ok ==>
        olen <= 16 && old(emitted) + output[..olen] == Encrypted(E, iv0, scheme, old(Fed()))
      ensures !encrypting && scheme == NoPadding ==> olen == 0 && (r == Ok <==> |old(Fed())| % 16 == 0)
      ensures !encrypting && scheme == NoPadding && r == Ok ==> old(emitted) == Chain(D, false, iv0, old(Fed()))
      ensures HoldsBack() ==> (r == FullBlockExpected <==> old(Fed()) == [] || |old(Fed())| % 16 != 0)
      ensures HoldsBack() && r != FullBlockExpected ==>
        var plain := Chain(D, false, iv0, old(Fed()));
        && Reads(scheme, plain[|plain| - 16..], r == Ok, olen)
        && (r == Ok ==> olen <= 16 && old(emitted) + output[..olen] == plain[..|plain| - 16 + olen])
    {
      hide Chain, Next, Fill, Reads;
      if encrypting {
        if scheme == NoPadding {
          r, olen := if unprocessedLen != 0 then FullBlockExpected else Ok, 0;
          EncryptedPlain(E, iv0, done);
          assert unprocessedLen == 0 ==> Fed() == done;
          return;
        }
        ghost var u := unprocessed[..unprocessedLen];
        AddPadding(scheme, unprocessed, unprocessedLen);
        ConcatAssoc(done, u, Fill(scheme, 16, unprocessedLen));
        EncryptedPadded(E, iv0, scheme, done, u);
        Process(unprocessed[..], output, 0);
        assert output[0..16] == output[..16];
        return Ok, 16;
      }
      if unprocessedLen != 16 {
        if scheme == NoPadding && unprocessedLen == 0 {
          assert Fed() == done;
          return Ok, 0;
        }
        return FullBlockExpected, 0;
      }
      assert unprocessed[..unprocessedLen] == unprocessed[..];
      Process(unprocessed[..], output, 0);
      assert output[0..16] == output[..16];
      LastSixteen(old(emitted), output[..16]);
      var ok;
      ok, olen := GetPadding(scheme, output[..16]);
      ReadsBound(scheme, output[..16], ok, olen);
      r := if ok then Ok else InvalidPadding;
    }

    /** Several updates in a row; what they put out, end to end. */
    method Feed(parts: seq<seq<Byte>>) returns (out: seq<Byte>)
      requires Valid()
      modifies this`done, this`emitted, this`unprocessedLen, iv, unprocessed
      ensures Valid() && Fed() == old(Fed()) + Flat(parts) && emitted == old(emitted) + out
    {
      hide Chain, Next, DoneLen;
      out := [];
      assert parts[..0] == [];
      for i := 0 to |parts|
        invariant Valid() && Fed() == old(Fed()) + Flat(parts[..i]) && emitted == old(emitted) + out
      {
        FlatStep(parts, i);
        ConcatAssoc(old(Fed()), Flat(parts[..i]), parts[i]);
        var output := new Byte[|parts[i]| + 16](j => 0);
        var olen := Update(parts[i], output);
        ConcatAssoc(old(emitted), out, output[..olen]);
        out := out + output[..olen];
      }
      assert parts[..|parts|] == parts;
    }
  }

  predicate Encryptable(scheme: Scheme, m: seq<Byte>)
  {
    scheme != NoPadding || |m| % 16 == 0
  }

  /** One-shot CBC of the padded message. */
  function Encrypted(E: Cipher, iv: Block, scheme: Scheme, m: seq<Byte>): (c: seq<Byte>)
    requires Encryptable(scheme, m)
  {
    Chain(E, true, iv, m + Fill(scheme, 16, |m| % 16))
  }

  lemma EncryptedPlain(E: Cipher, iv: Block, m: seq<Byte>)
    requires |m| % 16 == 0
    ensures Encrypted(E, iv, NoPadding, m) == Chain(E, true, iv, m)
  {
    assert m + Fill(NoPadding, 16, 0) == m;
  }

  lemma EncryptedPadded(E: Cipher, iv: Block, scheme: Scheme, done: seq<Byte>, u: seq<Byte>)
    requires |done| % 16 == 0 && |u| < 16 && scheme != NoPadding
    ensures Encrypted(E, iv, scheme, done + u) == Chain(E, true, iv, done + u + Fill(scheme, 16, |u|))
  {
    assert |done + u| % 16 == |u|;
  }

  lemma LastSixteen(a: seq<Byte>, b: Block)
    ensures (a + b)[|a + b| - 16..] == b && forall n :: 0 <= n <= 16 ==> (a + b)[..|a| + n] == a + b[..n]
  {
  }

  lemma ReadsBound(scheme: Scheme, block: Block, ok: bool, n: nat)
    requires Reads(scheme, block, ok, n)
    ensures ok ==> n <= 16
  {
  }

  /** Encryption of a message that arrives in parts is the one-shot encryption of the whole. */
  method EncryptParts(E: Cipher, D: Cipher, iv: Block, scheme: Scheme, parts: seq<seq<Byte>>)
    returns (r: Ret, c: seq<Byte>)
    ensures r == Ok <==> Encryptable(scheme, Flat(parts))
    ensures r == Ok ==> c == Encrypted(E, iv, scheme, Flat(parts))
  {
    hide Chain, Next, DoneLen, Fill;
    var ctx := new Context(E, D, true, scheme, iv);
    c := ctx.Feed(parts);
    var output := new Byte[16](j => 0);
    var olen;
    assert ctx.Fed() == Flat(parts) && ctx.emitted == c;
    r, olen := ctx.Finish(output);
    if r == Ok {
      c := c + output[..olen];
    }
  }

  /**
   Decryption of such a ciphertext, cut in any other way, returns the message: always for the
   self-delimiting paddings and without padding, and for zero filling exactly when the message
   ends on a block boundary or in a nonzero byte.
   */
  method DecryptParts(E: Cipher, D: Cipher, iv: Block, scheme: Scheme, parts: seq<seq<Byte>>, ghost m: seq<Byte>)
    returns (r: Ret, plain: seq<Byte>)
    requires Inverse(E, D) && Encryptable(scheme, m) && Flat(parts) == Encrypted(E, iv, scheme, m)
    ensures r == Ok
    ensures plain == m <==> scheme != ZeroFill || |m| % 16 == 0 || m[|m| - 1] != 0
  {
    hide Chain, Next, DoneLen, Fill, Reads, Flat, Encrypted;
    var ctx := new Context(E, D, false, scheme, iv);
    plain := ctx.Feed(parts);
    var output := new Byte[16](j => 0);
    var olen;
    assert ctx.Fed() == Flat(parts) && ctx.emitted == plain;
    PaddedBack(E, D, iv, scheme, m);
    ghost var p := m + Fill(scheme, 16, |m| % 16);
    assert Chain(D, false, iv, Flat(parts)) == p && |p| % 16 == 0 && (scheme != NoPadding ==> |p| >= 16);
    hide Encrypted, Inverse, Encryptable;
    r, olen := ctx.Finish(output);
    if scheme != NoPadding {
      ReadsMessage(scheme, m, r == Ok, olen);
    }
    plain := plain + output[..olen];
  }

  lemma Regroup(a: seq<Byte>, u: seq<Byte>, h: seq<Byte>, r: seq<Byte>)
    ensures a + (u + h) + r == a + u + (h + r)
  {
  }

  /** The padded message and what deciphering gives back. */
  lemma PaddedBack(E: Cipher, D: Cipher, iv: Block, scheme: Scheme, m: seq<Byte>)
    requires Inverse(E, D) && Encryptable(scheme, m)
    ensures var c := Encrypted(E, iv, scheme, m);
      && |c| % 16 == 0 && (scheme != NoPadding ==> c != [])
      && Chain(D, false, iv, c) == m + Fill(scheme, 16, |m| % 16) && |m + Fill(scheme, 16, |m| % 16)| == |c|
      && (scheme == NoPadding ==> Chain(D, false, iv, c) == m)
  {
    hide Chain;
    ChainInverse(E, D, iv, m + Fill(scheme, 16, |m| % 16));
  }

  lemma ReadsMessage(scheme: Scheme, m: seq<Byte>, ok: bool, olen: nat)
    requires scheme != NoPadding
    requires var p := m + Fill(scheme, 16, |m| % 16);
      |p| % 16 == 0 && |p| >= 16 && Reads(scheme, p[|p| - 16..], ok, olen)
    ensures ok && olen <= 16
    ensures var p := m + Fill(scheme, 16, |m| % 16);
      p[..|p| - 16 + olen] == m <==> scheme != ZeroFill || |m| % 16 == 0 || m[|m| - 1] != 0
  {
    hide Fill, Reads;
    var n := |m| % 16;
    var p := m + Fill(scheme, 16, n);
    var last := p[|p| - 16..];
    assert last[n..] == Fill(scheme, 16, n);
    ReadsBack(scheme, last, n, ok, olen);
    ReadsBound(scheme, last, ok, olen);
    assert n > 0 ==> last[n - 1] == m[|m| - 1];
    assert |p| - 16 + n == |m| && p[..|m|] == m;
  }
}
