/** The padding schemes of the cipher layer: bytes added to the last block, and how they are found again. */
module Padding {
  import opened Arith
  import opened Blocks

  datatype Scheme = Pkcs7 | OneAndZeros | ZerosAndLen | ZeroFill | NoPadding

  /** A block of any size whose padding length fits a byte, as the byte counters of the loops need. */
  type AnyBlock = s: seq<Byte> | 1 <= |s| <= 255 witness [0]

  /** What fills a last block of the given size that holds n bytes of data. */
  function Fill(scheme: Scheme, size: nat, n: nat): (r: seq<Byte>)
    requires n < size <= 255
    ensures |r| == if scheme.NoPadding? then 0 else size - n
  {
    match scheme
    case Pkcs7 => seq(size - n, i => size - n)
    case OneAndZeros => [0x80] + Zeros(size - 1 - n)
    case ZerosAndLen => Zeros(size - 1 - n) + [size - n]
    case ZeroFill => Zeros(size - n)
    case NoPadding => []
  }

  /** The block is n bytes of data and their padding. */
  predicate IsPadded(scheme: Scheme, block: AnyBlock, n: nat)
  {
    n < |block| && block[n..] == Fill(scheme, |block|, n)
  }

  /** Schemes whose padding can be told from any data. */
  predicate SelfDelimiting(scheme: Scheme)
  {
    scheme.Pkcs7? || scheme.OneAndZeros? || scheme.ZerosAndLen?
  }

  /** Three data bytes in a block of eight, under each scheme. */
  lemma FillExamples()
    ensures Fill(Pkcs7, 8, 3) == [5, 5, 5, 5, 5] && Fill(OneAndZeros, 8, 3) == [0x80, 0, 0, 0, 0]
    ensures Fill(ZerosAndLen, 8, 3) == [0, 0, 0, 0, 5] && Fill(ZeroFill, 8, 3) == [0, 0, 0, 0, 0]
    ensures Fill(NoPadding, 8, 3) == []
  {
  }

  /** The padding byte at position k of a block that holds n bytes. */
  function FillByte(scheme: Scheme, size: nat, n: nat, k: nat): Byte
    requires n <= k < size <= 255
  {
    match scheme
    case Pkcs7 => size - n
    case OneAndZeros => if k == n then 0x80 else 0
    case ZerosAndLen => if k == size - 1 then size - n else 0
    case ZeroFill => 0
    case NoPadding => 0
  }

  lemma PaddedBytes(scheme: Scheme, block: AnyBlock, n: nat)
    requires n < |block| && scheme != NoPadding
    ensures IsPadded(scheme, block, n) <==> forall k :: n <= k < |block| ==> block[k] == FillByte(scheme, |block|, n, k)
  {
    var f := Fill(scheme, |block|, n);
    assert forall k :: n <= k < |block| ==> f[k - n] == FillByte(scheme, |block|, n, k);
    assert forall k :: n <= k < |block| ==> block[n..][k - n] == block[k];
  }

  lemma FillUnique(scheme: Scheme, block: AnyBlock, m: nat, n: nat)
    requires SelfDelimiting(scheme) && IsPadded(scheme, block, m) && IsPadded(scheme, block, n)
    ensures m == n
  {
    PaddedBytes(scheme, block, m);
    PaddedBytes(scheme, block, n);
    assert block[|block| - 1] == FillByte(scheme, |block|, m, |block| - 1) == FillByte(scheme, |block|, n, |block| - 1);
    assert block[m] == FillByte(scheme, |block|, m, m) && block[n] == FillByte(scheme, |block|, n, n);
  }

  // ---------------------------------------------------------------- adding

  method AddPkcs(a: array<Byte>, dataLen: nat)
    requires dataLen < a.Length <= 255
    modifies a
    ensures a[..] == old(a[..dataLen]) + Fill(Pkcs7, a.Length, dataLen)
  {
    var paddingLen := a.Length - dataLen;
    var i := 0;
    while i < paddingLen
      invariant 0 <= i <= paddingLen && a[..dataLen] == old(a[..dataLen])
      invariant forall k :: dataLen <= k < dataLen + i ==> a[k] == paddingLen
    {
      a[dataLen + i] := paddingLen;
      i := i + 1;
    }
    assert a[..] == a[..dataLen] + a[dataLen..];
  }

  method AddOneAndZeros(a: array<Byte>, dataLen: nat)
    requires dataLen < a.Length <= 255
    modifies a
    ensures a[..] == old(a[..dataLen]) + Fill(OneAndZeros, a.Length, dataLen)
  {
    a[dataLen] := 0x80;
    var i := 1;
    while i < a.Length - dataLen
      invariant 1 <= i <= a.Length - dataLen && a[..dataLen] == old(a[..dataLen]) && a[dataLen] == 0x80
      invariant forall k :: dataLen < k < dataLen + i ==> a[k] == 0
    {
      a[dataLen + i] := 0;
      i := i + 1;
    }
    assert a[..] == a[..dataLen] + a[dataLen..];
  }

  method AddZerosAndLen(a: array<Byte>, dataLen: nat)
    requires dataLen < a.Length <= 255
    modifies a
    ensures a[..] == old(a[..dataLen]) + Fill(ZerosAndLen, a.Length, dataLen)
  {
    var i := 1;
    while i < a.Length - dataLen
      invariant 1 <= i <= a.Length - dataLen && a[..dataLen] == old(a[..dataLen])
      invariant forall k :: dataLen <= k < dataLen + i - 1 ==> a[k] == 0
    {
      a[dataLen + i - 1] := 0;
      i := i + 1;
    }
    a[a.Length - 1] := a.Length - dataLen;
    assert a[..] == a[..dataLen] + a[dataLen..];
  }

  method AddZeros(a: array<Byte>, dataLen: nat)
    requires dataLen < a.Length <= 255
    modifies a
    ensures a[..] == old(a[..dataLen]) + Fill(ZeroFill, a.Length, dataLen)
  {
    var i := dataLen;
    while i < a.Length
      invariant dataLen <= i <= a.Length && a[..dataLen] == old(a[..dataLen])
      invariant forall k :: dataLen <= k < i ==> a[k] == 0
    {
      a[i] := 0;
      i := i + 1;
    }
    assert a[..] == a[..dataLen] + a[dataLen..];
  }

  // ---------------------------------------------------------------- finding

  /** size_t subtraction. */
  function Minus(a: nat, b: nat): nat
    requires a < 0x1_0000_0000_0000_0000 && b <= 0x1_0000_0000_0000_0000
  {
    (a + 0x1_0000_0000_0000_0000 - b) % 0x1_0000_0000_0000_0000
  }

  lemma MinusValue(n: Byte, b: Byte)
    ensures if b <= n then Minus(n, b) == n - b else Minus(n, b) >= n
  {
  }

  /** get_pkcs_padding: accepts exactly the padded blocks. */
  method GetPkcs(input: AnyBlock) returns (ok: bool, dataLen: nat)
    ensures ok <==> exists n :: IsPadded(Pkcs7, input, n)
    ensures ok ==> IsPadded(Pkcs7, input, dataLen)
  {
    hide Xor, BitOr, IsPadded, Minus;
    var paddingLen := input[|input| - 1];
    MinusValue(|input|, paddingLen);
    dataLen := Minus(|input|, paddingLen);
    var bad := if paddingLen > |input| then 1 else 0;
    bad := BitOr(bad, if paddingLen == 0 then 1 else 0);
    OrNonzero(if paddingLen > |input| then 1 else 0, if paddingLen == 0 then 1 else 0);
    ghost var fits := 1 <= paddingLen <= |input|;
    var padIdx := Minus(|input|, paddingLen);
    var i := 0;
    while i < |input|
      invariant 0 <= i <= |input|
      invariant bad == 0 <==> fits && forall k :: padIdx <= k < i ==> input[k] == paddingLen
    {
      var d := if i >= padIdx then Xor(input[i], paddingLen) else 0;
      XorDiffers(input[i], paddingLen);
      OrNonzero(bad, d);
      bad := BitOr(bad, d);
      i := i + 1;
    }
    ok := bad == 0;
    LengthByte(Pkcs7, input, paddingLen);
  }

  /** Where the last byte is the padding length, only one data length is possible. */
  lemma LengthByte(scheme: Scheme, block: AnyBlock, paddingLen: Byte)
    requires (scheme.Pkcs7? || scheme.ZerosAndLen?) && block[|block| - 1] == paddingLen
    ensures 1 <= paddingLen <= |block| ==>
      (IsPadded(scheme, block, |block| - paddingLen) <==>
       forall k :: |block| - paddingLen <= k < |block| - 1 ==> block[k] == if scheme.Pkcs7? then paddingLen else 0)
    ensures (exists n :: IsPadded(scheme, block, n)) <==>
      1 <= paddingLen <= |block| && IsPadded(scheme, block, |block| - paddingLen)
  {
    if 1 <= paddingLen <= |block| {
      PaddedBytes(scheme, block, |block| - paddingLen);
    }
    forall n | IsPadded(scheme, block, n)
      ensures n == |block| - paddingLen
    {
      PaddedBytes(scheme, block, n);
      assert block[|block| - 1] == FillByte(scheme, |block|, n, |block| - 1);
    }
  }

  /** get_zeros_and_len_padding. */
  method GetZerosAndLen(input: AnyBlock) returns (ok: bool, dataLen: nat)
    ensures ok <==> exists n :: IsPadded(ZerosAndLen, input, n)
    ensures ok ==> IsPadded(ZerosAndLen, input, dataLen)
  {
    hide BitOr, IsPadded, Minus;
    var paddingLen := input[|input| - 1];
    MinusValue(|input|, paddingLen);
    dataLen := Minus(|input|, paddingLen);
    var bad := if paddingLen > |input| then 1 else 0;
    bad := BitOr(bad, if paddingLen == 0 then 1 else 0);
    OrNonzero(if paddingLen > |input| then 1 else 0, if paddingLen == 0 then 1 else 0);
    ghost var fits := 1 <= paddingLen <= |input|;
    var padIdx := Minus(|input|, paddingLen);
    var i := 0;
    while i < |input| - 1
      invariant 0 <= i <= |input| - 1
      invariant bad == 0 <==> fits && forall k :: padIdx <= k < i ==> input[k] == 0
    {
      var d := if i >= padIdx then input[i] else 0;
      OrNonzero(bad, d);
      bad := BitOr(bad, d);
      i := i + 1;
    }
    ok := bad == 0;
    LengthByte(ZerosAndLen, input, paddingLen);
  }

  /** get_one_and_zeros_padding. */
  method GetOneAndZeros(input: AnyBlock) returns (ok: bool, dataLen: nat)
    ensures ok <==> exists n :: IsPadded(OneAndZeros, input, n)
    ensures ok ==> IsPadded(OneAndZeros, input, dataLen)
  {
    hide Xor, BitOr, IsPadded;
    var done, bad: Byte := false, 0x80;
    dataLen := 0;
    var i := |input|;
    while i > 0
      invariant 0 <= i <= |input|
      invariant !done ==> dataLen == 0 && bad == 0x80 && forall k :: i <= k < |input| ==> input[k] == 0
      invariant done ==> i <= dataLen < |input| && input[dataLen] != 0 && bad == Xor(0x80, input[dataLen])
      invariant done ==> forall k :: dataLen < k < |input| ==> input[k] == 0
    {
      var prevDone := done;
      done := done || input[i - 1] != 0;
      OrZero(i - 1);
      OrNothing(dataLen);
      XorZero(bad);
      dataLen := BitOr(dataLen, if done != prevDone then i - 1 else 0);
      bad := Xor(bad, if done != prevDone then input[i - 1] else 0);
      i := i - 1;
    }
    XorDiffers(0x80, input[dataLen]);
    ok := bad == 0;
    OneMarks(input, dataLen, done);
    assert ok <==> IsPadded(OneAndZeros, input, dataLen);
  }

  lemma OrNothing(x: nat)
    ensures BitOr(x, 0) == x
  {
  }

  lemma OneMarks(block: AnyBlock, m: nat, done: bool)
    requires m < |block| && (done <==> block[m] != 0) && forall k :: m < k < |block| ==> block[k] == 0
    requires !done ==> forall k :: 0 <= k < |block| ==> block[k] == 0
    ensures forall n :: IsPadded(OneAndZeros, block, n) <==> n == m && block[m] == 0x80
  {
    forall n: nat
      ensures IsPadded(OneAndZeros, block, n) <==> n == m && block[m] == 0x80
    {
      if n < |block| {
        PaddedBytes(OneAndZeros, block, n);
        assert FillByte(OneAndZeros, |block|, n, n) == 0x80;
      }
    }
  }

  /** get_zeros_padding: never fails; it cuts every trailing zero. */
  method GetZeros(input: AnyBlock) returns (dataLen: nat)
    ensures dataLen <= |input| && (forall k :: dataLen <= k < |input| ==> input[k] == 0)
    ensures dataLen > 0 ==> input[dataLen - 1] != 0
  {
    hide BitOr;
    var done := false;
    dataLen := 0;
    var i := |input|;
    while i > 0
      invariant 0 <= i <= |input|
      invariant !done ==> dataLen == 0 && forall k :: i <= k < |input| ==> input[k] == 0
      invariant done ==> i < dataLen <= |input| && input[dataLen - 1] != 0
      invariant done ==> forall k :: dataLen <= k < |input| ==> input[k] == 0
    {
      var prevDone := done;
      done := done || input[i - 1] != 0;
      OrZero(i);
      OrNothing(dataLen);
      dataLen := BitOr(dataLen, if done != prevDone then i else 0);
      i := i - 1;
    }
  }

  // ---------------------------------------------------------------- dispatch

  method AddPadding(scheme: Scheme, a: array<Byte>, dataLen: nat)
    requires dataLen < a.Length <= 255 && scheme != NoPadding
    modifies a
    ensures a[..] == old(a[..dataLen]) + Fill(scheme, a.Length, dataLen)
  {
    match scheme
    case Pkcs7 => AddPkcs(a, dataLen);
    case OneAndZeros => AddOneAndZeros(a, dataLen);
    case ZerosAndLen => AddZerosAndLen(a, dataLen);
    case ZeroFill => AddZeros(a, dataLen);
  }

  /** The data length a receiver reads off a block, if the block is acceptable. */
  ghost predicate Reads(scheme: Scheme, block: AnyBlock, ok: bool, dataLen: nat)
  {
    match scheme
    case ZeroFill =>
      && ok && dataLen <= |block| && (forall k :: dataLen <= k < |block| ==> block[k] == 0)
      && (dataLen > 0 ==> block[dataLen - 1] != 0)
    case NoPadding => ok && dataLen == |block|
    case _ => (ok <==> exists n :: IsPadded(scheme, block, n)) && (ok ==> IsPadded(scheme, block, dataLen))
  }

  method GetPadding(scheme: Scheme, block: AnyBlock) returns (ok: bool, dataLen: nat)
    ensures Reads(scheme, block, ok, dataLen)
  {
    match scheme
    case Pkcs7 => ok, dataLen := GetPkcs(block);
    case OneAndZeros => ok, dataLen := GetOneAndZeros(block);
    case ZerosAndLen => ok, dataLen := GetZerosAndLen(block);
    case ZeroFill => ok := true; dataLen := GetZeros(block);
    case NoPadding => ok, dataLen := true, |block|;
  }

  /**
   Reading the padding of n data bytes gives n back: always for the self-delimiting schemes, and
   for zero filling exactly when the data is empty or does not end in a zero.
   */
  lemma ReadsBack(scheme: Scheme, block: AnyBlock, n: nat, ok: bool, dataLen: nat)
    requires scheme != NoPadding && IsPadded(scheme, block, n) && Reads(scheme, block, ok, dataLen)
    ensures ok && (dataLen == n <==> SelfDelimiting(scheme) || n == 0 || block[n - 1] != 0)
  {
    PaddedBytes(scheme, block, n);
    if SelfDelimiting(scheme) {
      FillUnique(scheme, block, n, dataLen);
    } else {
      assert forall k :: n <= k < |block| ==> FillByte(scheme, |block|, n, k) == 0;
    }
  }
}
