/**
 DER: writers that fill a buffer backwards from a cursor, parsers that advance one, and the
 encodings that connect them (ITU-T X.690).
 */
module Der {
  import opened Arith
  import opened Blocks
  import Limbs
  import Mpis
  import MpiBytes

  const OUT_OF_DATA: int := -0x60
  const UNEXPECTED_TAG: int := -0x62
  const INVALID_LENGTH: int := -0x64
  const LENGTH_MISMATCH: int := -0x66
  const BUF_TOO_SMALL: int := -0x6c

  const INTEGER: Byte := 0x02
  const BIT_STRING: Byte := 0x03

  // ---------------------------------------------------------------- big-endian values

  /** The shortest big-endian form; zero has no bytes. */
  function MinBytes(v: nat): seq<Byte>
  {
    if v == 0 then [] else MinBytes(v / 256) + [v % 256]
  }

  lemma {:induction false} BeValMin(v: nat)
    ensures BeVal(MinBytes(v)) == v
    ensures v > 0 ==> MinBytes(v) != [] && MinBytes(v)[0] != 0
  {
    if v > 0 {
      BeValMin(v / 256);
      BeValLast(MinBytes(v / 256), v % 256);
    }
  }

  // ---------------------------------------------------------------- encodings

  /** Section 10.1: the shortest length octets. */
  function LenBytes(n: nat): seq<Byte>
    requires n < 0x1_0000_0000
  {
    if n < 0x80 then [n]
    else if n <= 0xff then [0x81] + BigEndian(n, 1)
    else if n <= 0xffff then [0x82] + BigEndian(n, 2)
    else if n <= 0xff_ffff then [0x83] + BigEndian(n, 3)
    else [0x84] + BigEndian(n, 4)
  }

  /** Section 8.1.3: the first k bytes of s are length octets for n, shortest or not. */
  predicate LenForm(s: seq<Byte>, k: nat, n: nat)
  {
    && 1 <= k <= 5 && k <= |s|
    && (if k == 1 then s[0] < 0x80 && n == s[0] else s[0] == 0x80 + (k - 1) && n == BeVal(s[1..k]))
  }

  function Tlv(tag: Byte, content: seq<Byte>): seq<Byte>
    requires |content| < 0x1_0000_0000
  {
    [tag] + LenBytes(|content|) + content
  }

  /** Section 8.3: the shortest two's complement form of a nonnegative integer. */
  function IntContent(v: nat): seq<Byte>
  {
    var m := if v == 0 then [0] else MinBytes(v);
    if m != [] && m[0] >= 0x80 then [0] + m else m
  }

  lemma LenBytesForm(n: nat, rest: seq<Byte>)
    requires n < 0x1_0000_0000
    ensures LenForm(LenBytes(n) + rest, |LenBytes(n)|, n)
  {
    Powers();
    hide Pow, BigEndian, BeVal;
    var s := LenBytes(n) + rest;
    if n >= 0x80 {
      var k := |LenBytes(n)|;
      assert s[1..k] == BigEndian(n, k - 1);
      BeValFixed(n, k - 1);
    }
  }

  lemma Powers()
    ensures Pow(256, 1) == 0x100 && Pow(256, 2) == 0x1_0000 && Pow(256, 3) == 0x100_0000 && Pow(256, 4) == 0x1_0000_0000
  {
    assert Pow(256, 2) == 0x1_0000;
    PowAdd(256, 2, 1);
    PowAdd(256, 2, 2);
  }

  /** The identifier and length octets of sections 8.1, 8.3, 8.6 and 8.9 of X.690, written out. */
  lemma Octets()
    ensures Tlv(INTEGER, [5]) == [0x02, 0x01, 0x05] && Tlv(BIT_STRING, [0]) == [0x03, 0x01, 0x00]
    ensures Tlv(SEQUENCE, []) == [0x30, 0x00]
    ensures LenBytes(0x7f) == [0x7f] && LenBytes(0x80) == [0x81, 0x80] && LenBytes(0xff) == [0x81, 0xff]
    ensures LenBytes(0x100) == [0x82, 1, 0] && LenBytes(0x1_0203) == [0x83, 1, 2, 3]
    ensures LenBytes(0x102_0304) == [0x84, 1, 2, 3, 4]
    ensures IntContent(0) == [0] && IntContent(0x7f) == [0x7f] && IntContent(0x80) == [0, 0x80]
  {
    hide BigEndian;
    BigEndianBytes(0x80);
    BigEndianBytes(0xff);
    BigEndianBytes(0x100);
    BigEndianBytes(0x1_0203);
    BigEndianBytes(0x102_0304);
  }

  /** A bit string's content: how many bits of the last byte are unused, then the bytes without those. */
  lemma BitOctets()
    ensures BitContent([0xbf], 4) == [4, 0xb0] && BitContent([0xa5, 0xff], 9) == [7, 0xa5, 0x80]
  {
    hide Pow, Pow2;
    Pow2One();
    Pow2Succ(1);
    Pow2Succ(2);
    Pow2Add(2, 2);
    Pow2Add(3, 4);
  }

  /** No other length octets for n are shorter. */
  lemma LenShortest(n: nat, s: seq<Byte>, k: nat)
    requires n < 0x1_0000_0000 && LenForm(s, k, n)
    ensures |LenBytes(n)| <= k
  {
    Powers();
    hide BeVal, Pow, BigEndian;
    if k > 1 {
      BeValBound(s[1..k]);
    }
  }

  /** Length octets are self-delimiting. */
  lemma LenFormUnique(s: seq<Byte>, k: nat, n: nat, k': nat, n': nat)
    requires LenForm(s, k, n) && LenForm(s, k', n')
    ensures k == k' && n == n'
  {
  }

  // ---------------------------------------------------------------- writing backwards

  /** Between before and after, exactly the bytes below p down to q became content. */
  ghost predicate Wrote(before: seq<Byte>, after: seq<Byte>, p: int, q: int, content: seq<Byte>)
  {
    && 0 <= q <= p <= |before| == |after| && q + |content| == p
    && after[..q] == before[..q] && after[q..p] == content && after[p..] == before[p..]
  }

  /** Nothing outside start to p was touched. */
  ghost predicate Kept(before: seq<Byte>, after: seq<Byte>, start: int, p: int)
  {
    0 <= start <= p <= |before| == |after| && after[..start] == before[..start] && after[p..] == before[p..]
  }

  lemma WroteMore(a: seq<Byte>, b: seq<Byte>, c: seq<Byte>, p: int, q: int, r: int, front: seq<Byte>, back: seq<Byte>)
    requires Wrote(a, b, p, q, back) && Wrote(b, c, q, r, front)
    ensures Wrote(a, c, p, r, front + back)
  {
    assert c[r..p] == c[r..q] + c[q..p];
    assert c[q..p] == c[q..][..p - q] && b[q..p] == b[q..][..p - q];
    assert c[p..] == c[q..][p - q..] && b[p..] == b[q..][p - q..];
    assert b[..r] == b[..q][..r] && a[..r] == a[..q][..r];
  }

  lemma WroteKept(a: seq<Byte>, b: seq<Byte>, start: int, p: int, q: int, content: seq<Byte>)
    requires Wrote(a, b, p, q, content) && 0 <= start <= q
    ensures Kept(a, b, start, p)
  {
    assert a[..start] == a[..q][..start] && b[..start] == b[..q][..start];
  }

  /** mbedtls_asn1_write_len. */
  method WriteLen(buf: array<Byte>, p: nat, start: nat, len: nat) returns (ret: int, q: nat)
    requires start <= p <= buf.Length
    modifies buf
    ensures ret > 0 <==> len < 0x1_0000_0000 && p - start >= |LenBytes(len)|
    ensures ret > 0 ==> ret == |LenBytes(len)| && q == p - ret && Wrote(old(buf[..]), buf[..], p, q, LenBytes(len))
    ensures ret <= 0 ==> ret == (if len < 0x1_0000_0000 then BUF_TOO_SMALL else INVALID_LENGTH) && q == p
    ensures ret <= 0 ==> buf[..] == old(buf[..])
  {
    hide BigEndian;
    BigEndianBytes(len);
    if len < 0x80 {
      if p - start < 1 {
        return BUF_TOO_SMALL, p;
      }
      buf[p - 1] := len;
      return 1, p - 1;
    }
    if len <= 0xff {
      if p - start < 2 {
        return BUF_TOO_SMALL, p;
      }
      buf[p - 1] := len;
      buf[p - 2] := 0x81;
      return 2, p - 2;
    }
    if len <= 0xffff {
      if p - start < 3 {
        return BUF_TOO_SMALL, p;
      }
      buf[p - 1] := len % 256;
      buf[p - 2] := len / 0x100 % 256;
      buf[p - 3] := 0x82;
      return 3, p - 3;
    }
    ret, q := WriteLongLen(buf, p, start, len);
  }

  /** Its branches for three and four length octets, and the refusal of longer ones. */
  method WriteLongLen(buf: array<Byte>, p: nat, start: nat, len: nat) returns (ret: int, q: nat)
    requires start <= p <= buf.Length && len > 0xffff
    modifies buf
    ensures ret > 0 <==> len < 0x1_0000_0000 && p - start >= |LenBytes(len)|
    ensures ret > 0 ==> ret == |LenBytes(len)| && q == p - ret && Wrote(old(buf[..]), buf[..], p, q, LenBytes(len))
    ensures ret <= 0 ==> ret == (if len < 0x1_0000_0000 then BUF_TOO_SMALL else INVALID_LENGTH) && q == p
    ensures ret <= 0 ==> buf[..] == old(buf[..])
  {
    hide BigEndian;
    BigEndianBytes(len);
    if len <= 0xff_ffff {
      if p - start < 4 {
        return BUF_TOO_SMALL, p;
      }
      PutOctets(buf, p, [0x83, len / 0x1_0000 % 256, len / 0x100 % 256, len % 256]);
      return 4, p - 4;
    }
    if len <= 0xffff_ffff {
      if p - start < 5 {
        return BUF_TOO_SMALL, p;
      }
      PutOctets(buf, p, [0x84, len / 0x100_0000 % 256, len / 0x1_0000 % 256, len / 0x100 % 256, len % 256]);
      return 5, p - 5;
    }
    return INVALID_LENGTH, p;
  }

  /** The octets in front of p, written from the last to the first. */
  method PutOctets(buf: array<Byte>, p: nat, content: seq<Byte>)
    requires |content| <= p <= buf.Length
    modifies buf
    ensures Wrote(old(buf[..]), buf[..], p, p - |content|, content)
  {
    var i, q := |content|, p;
    while i > 0
      invariant 0 <= i <= |content| && q == p - (|content| - i) && buf[q..p] == content[i..]
      invariant buf[..q] == old(buf[..q]) && buf[p..] == old(buf[p..])
    {
      i, q := i - 1, q - 1;
      PutByte(buf, q, p, content[i]);
      assert content[i..] == [content[i]] + content[i + 1..];
    }
  }

  lemma BigEndianBytes(v: nat)
    ensures BigEndian(v, 1) == [v % 256] && BigEndian(v, 2) == [v / 0x100 % 256, v % 256]
    ensures BigEndian(v, 3) == [v / 0x1_0000 % 256, v / 0x100 % 256, v % 256]
    ensures BigEndian(v, 4) == [v / 0x100_0000 % 256, v / 0x1_0000 % 256, v / 0x100 % 256, v % 256]
  {
    hide BigEndian;
    Shifts(v);
    var w, x, y := v / 0x100, v / 0x1_0000, v / 0x100_0000;
    TwoBytes(v, w);
    ThreeBytes(v, w, x);
    FourBytes(v, w, x, y);
  }

  lemma TwoBytes(v: nat, w: nat)
    requires w == v / 256
    ensures BigEndian(v, 1) == [v % 256] && BigEndian(v, 2) == [w % 256, v % 256]
  {
    BigEndianNext(v, 2);
    BigEndianNext(v, 1);
    BigEndianNext(w, 1);
  }

  lemma ThreeBytes(v: nat, w: nat, x: nat)
    requires w == v / 256 && x == w / 256
    ensures BigEndian(v, 3) == [x % 256, w % 256, v % 256]
  {
    hide BigEndian;
    BigEndianNext(v, 3);
    TwoBytes(w, x);
  }

  lemma FourBytes(v: nat, w: nat, x: nat, y: nat)
    requires w == v / 256 && x == w / 256 && y == x / 256
    ensures BigEndian(v, 4) == [y % 256, x % 256, w % 256, v % 256]
  {
    hide BigEndian;
    BigEndianNext(v, 4);
    ThreeBytes(w, x, y);
  }

  lemma Shifts(v: nat)
    ensures v / 0x100 / 0x100 == v / 0x1_0000 && v / 0x100 / 0x100 / 0x100 == v / 0x100_0000
  {
  }

  /** mbedtls_asn1_write_tag. */
  method WriteTag(buf: array<Byte>, p: nat, start: nat, tag: Byte) returns (ret: int, q: nat)
    requires start <= p <= buf.Length
    modifies buf
    ensures ret == if p > start then 1 else BUF_TOO_SMALL
    ensures ret > 0 ==> q == p - 1 && Wrote(old(buf[..]), buf[..], p, q, [tag])
    ensures ret <= 0 ==> q == p && buf[..] == old(buf[..])
  {
    if p - start < 1 {
      return BUF_TOO_SMALL, p;
    }
    buf[p - 1] := tag;
    return 1, p - 1;
  }

  /** The two CHK_ADD lines that end every writer: length and tag go in front of the content. */
  method WriteHeader(buf: array<Byte>, p: nat, start: nat, len: nat, tag: Byte) returns (ret: int, q: nat)
    requires start <= p <= buf.Length
    modifies buf
    ensures ret > 0 <==> len < 0x1_0000_0000 && p - start >= |LenBytes(len)| + 1
    ensures ret > 0 ==> ret == len + |LenBytes(len)| + 1 && Wrote(old(buf[..]), buf[..], p, q, [tag] + LenBytes(len))
    ensures ret <= 0 ==> ret == (if len < 0x1_0000_0000 then BUF_TOO_SMALL else INVALID_LENGTH)
    ensures start <= q <= p && Kept(old(buf[..]), buf[..], start, p)
  {
    hide LenBytes, Wrote;
    var total := len;
    ret, q := WriteLen(buf, p, start, len);
    if ret < 0 {
      return;
    }
    LenBytesSome(len);
    WroteKeptLow(old(buf[..]), buf[..], start, p, q, LenBytes(len));
    total := total + ret;
    ghost var middle, m := buf[..], q;
    ret, q := WriteTag(buf, q, start, tag);
    if ret < 0 {
      return;
    }
    total := total + ret;
    WroteMore(old(buf[..]), middle, buf[..], p, m, q, [tag], LenBytes(len));
    WroteKeptLow(old(buf[..]), buf[..], start, p, q, [tag] + LenBytes(len));
    ret := total;
  }

  lemma LenBytesSome(n: nat)
    requires n < 0x1_0000_0000
    ensures 1 <= |LenBytes(n)| <= 5
  {
  }

  lemma WroteKeptLow(a: seq<Byte>, b: seq<Byte>, start: int, p: int, q: int, content: seq<Byte>)
    requires Wrote(a, b, p, q, content) && 0 <= start && p - start >= |content|
    ensures q == p - |content| && Kept(a, b, start, p)
  {
    WroteKept(a, b, start, p, q, content);
  }

  lemma KeptMore(a: seq<Byte>, b: seq<Byte>, c: seq<Byte>, start: int, p: int, q: int)
    requires Kept(a, b, start, p) && Kept(b, c, start, q) && q <= p
    ensures Kept(a, c, start, p)
  {
    assert c[p..] == c[q..][p - q..] && b[p..] == b[q..][p - q..];
  }

  /** An int as the writer sees it: a negative one stops the loop after its lowest byte. */
  function Written(val: int): nat
  {
    if val >= 0 then val else val % 256
  }

  /** asn1_write_tagged_int: the shortest form of a nonnegative int, or of a negative one's lowest byte. */
  method WriteTaggedInt(buf: array<Byte>, p: nat, start: nat, val: int, tag: Byte) returns (ret: int, q: nat)
    requires start <= p <= buf.Length && -0x8000_0000 <= val < 0x8000_0000
    modifies buf
    ensures 1 <= |IntContent(Written(val))| <= 5
    ensures var element := Tlv(tag, IntContent(Written(val)));
      && (ret > 0 <==> p - start >= |element|)
      && (ret > 0 ==> ret == |element| && Wrote(old(buf[..]), buf[..], p, q, element))
    ensures ret <= 0 ==> ret == BUF_TOO_SMALL
    ensures Kept(old(buf[..]), buf[..], start, p)
  {
    hide LenBytes, Wrote;
    IntSize(Written(val));
    LenBytesSome(|IntContent(Written(val))|);
    ret, q := WriteDigits(buf, p, start, val);
    if ret < 0 {
      return;
    }
    var len := ret;
    ghost var middle, m := buf[..], q;
    ret, q := WriteHeader(buf, q, start, len, tag);
    KeptMore(old(buf[..]), middle, buf[..], start, p, m);
    if ret > 0 {
      WroteMore(old(buf[..]), middle, buf[..], p, m, q, [tag] + LenBytes(len), IntContent(Written(val)));
    }
  }

  lemma IntSize(v: nat)
    requires v < 0x8000_0000
    ensures 1 <= |IntContent(v)| <= 5
  {
    DigitsStep(v);
    DigitsStep(v / 0x100);
    Shifts(v);
    DigitsStep(v / 0x1_0000);
    DigitsStep(v / 0x100_0000);
    DigitsStep(v / 0x100_0000 / 0x100);
  }

  /** The digits of a number, at least one. */
  function Digits(v: nat): seq<Byte>
  {
    if v == 0 then [0] else MinBytes(v)
  }

  /** The content octets: digits, then a zero in front of a set top bit. */
  method WriteDigits(buf: array<Byte>, p: nat, start: nat, val: int) returns (ret: int, q: nat)
    requires start <= p <= buf.Length
    modifies buf
    ensures ret > 0 <==> p - start >= |IntContent(Written(val))|
    ensures ret > 0 ==> ret == |IntContent(Written(val))| && q == p - ret
    ensures ret > 0 ==> Wrote(old(buf[..]), buf[..], p, q, IntContent(Written(val)))
    ensures ret <= 0 ==> ret == BUF_TOO_SMALL
    ensures Kept(old(buf[..]), buf[..], start, p) && q <= p
  {
    hide MinBytes;
    DigitsStep(Written(val));
    ret, q := WriteRawDigits(buf, p, start, val);
    if ret < 0 {
      return;
    }
    ghost var digits, mid := Digits(Written(val)), buf[..];
    assert buf[q..p] == digits && buf[q] == digits[0];
    if buf[q] >= 0x80 {
      if q - start < 1 {
        return BUF_TOO_SMALL, q;
      }
      q := q - 1;
      buf[q] := 0;
      ret := ret + 1;
      CopyWrote(mid, buf[..], q + 1, q, [0]);
      WroteMore(old(buf[..]), mid, buf[..], p, q + 1, q, [0], digits);
      WroteKept(old(buf[..]), buf[..], start, p, q, [0] + digits);
    }
  }

  /** The do-while loop: one digit after the other until nothing is left. */
  method WriteRawDigits(buf: array<Byte>, p: nat, start: nat, val: int) returns (ret: int, q: nat)
    requires start <= p <= buf.Length
    modifies buf
    ensures ret > 0 <==> p - start >= |Digits(Written(val))|
    ensures ret > 0 ==> ret == |Digits(Written(val))| && q == p - ret
    ensures ret > 0 ==> Wrote(old(buf[..]), buf[..], p, q, Digits(Written(val)))
    ensures ret <= 0 ==> ret == BUF_TOO_SMALL
    ensures Kept(old(buf[..]), buf[..], start, p) && q <= p
  {
    hide Digits, MinBytes, Written, Rest;
    q := p;
    var v, more := val, true;
    ghost var todo := Digits(Written(val));
    RestStep(val);
    while more
      invariant start <= q <= p && more == (todo != [])
      invariant todo == if q == p then Digits(Written(v)) else Rest(v)
      invariant buf[..q] == old(buf[..q]) && buf[p..] == old(buf[p..])
      invariant Digits(Written(val)) == todo + buf[q..p]
      decreases |todo|
    {
      RestStep(v);
      if q - start < 1 {
        return BUF_TOO_SMALL, q;
      }
      ghost var tail := buf[q..p];
      q := q - 1;
      PutByte(buf, q, p, v % 256);
      todo := Rest(v / 256);
      ConcatAssoc(todo, [v % 256], tail);
      v := v / 256;
      RestStep(v);
      more := v > 0;
    }
    ret := p - q;
  }

  /** What is written for v after the first digit. */
  function Rest(v: int): seq<Byte>
  {
    MinBytes(if v > 0 then v else 0)
  }

  lemma RestStep(v: int)
    ensures Digits(Written(v)) == Rest(v / 256) + [v % 256]
    ensures v > 0 ==> Rest(v) == Rest(v / 256) + [v % 256]
    ensures Rest(v) != [] <==> v > 0
  {
    hide MinBytes, Digits;
    DigitsStep(Written(v));
    DigitsStep(if v > 0 then v else 0);
  }

  lemma DigitsStep(v: nat)
    ensures v > 0 ==> MinBytes(v) == MinBytes(v / 256) + [v % 256]
    ensures Digits(v) == MinBytes(v / 256) + [v % 256]
    ensures MinBytes(v) != [] <==> v > 0
  {
  }

  // ---------------------------------------------------------------- multi-precision integers

  /**
   The magnitude's bytes; a number of positive sign gets a zero in front of a set top bit. For zero
   there is no byte to look at, and the byte after the cursor decides.
   */
  function MpiContent(v: int, sign: int, after: Byte): seq<Byte>
  {
    var m := MinBytes(Mpis.AbsInt(v));
    var first := if m == [] then after else m[0];
    if sign == 1 && first >= 0x80 then [0] + m else m
  }

  /** A nonempty two's complement form of v >= 0: the top bit is clear. */
  predicate TwosComplement(c: seq<Byte>, v: nat)
  {
    c != [] && c[0] < 0x80 && BeVal(c) == v
  }

  /** The contents of nonnegative ints and of positive numbers are such forms, and no other is shorter. */
  lemma ContentShortest(v: nat, after: Byte, c: seq<Byte>)
    ensures TwosComplement(IntContent(v), v) && (v > 0 ==> TwosComplement(MpiContent(v, 1, after), v))
    ensures TwosComplement(c, v) ==> |IntContent(v)| <= |c| && (v > 0 ==> |MpiContent(v, 1, after)| <= |c|)
  {
    hide BeVal, Pow, MinBytes;
    var m := MinBytes(v);
    BeValMin(v);
    MinNothing();
    NoDigits();
    BeValLast([], 0);
    assert [] + [0] == [0];
    BeValFront(0, m);
    if TwosComplement(c, v) && v > 0 {
      MinLength(v, c);
    }
  }

  lemma MinNothing()
    ensures MinBytes(0) == []
  {
  }

  /** A form with a clear top bit has room for the shortest digits, and one more byte if their top bit is set. */
  lemma MinLength(v: nat, c: seq<Byte>)
    requires v > 0 && TwosComplement(c, v)
    ensures var m := MinBytes(v); m != [] && |c| >= |m| + if m[0] >= 0x80 then 1 else 0
  {
    hide BeVal, Pow, MinBytes;
    var m := MinBytes(v);
    BeValMin(v);
    var n, k := |m| - 1, |c| - 1;
    var x, p, y, r: int := m[0], Pow(256, n), c[0], Pow(256, k);
    assert m == [m[0]] + m[1..] && c == [c[0]] + c[1..];
    BeValFront(m[0], m[1..]);
    BeValFront(c[0], c[1..]);
    BeValBound(c[1..]);
    PowPos(256, n);
    MulMono(1, x, p);
    MulMono(y, 127, r);
    MulDist(r, y, 1);
    if k < n {
      PowMono(256, k + 1, n);
      PowSucc(256, k);
    } else if k == n && x >= 0x80 {
      MulMono(0x80, x, p);
    }
  }

  lemma {:induction false} MinIsBigEndian(v: nat, n: nat)
    requires MpiBytes.IsSize(v, n)
    ensures BigEndian(v, n) == MinBytes(v) && v < Pow(256, n) && (MinBytes(v) == [] <==> v == 0)
  {
    if v > 0 {
      assert Pow(256, 0) == 1 && Pow(256, 1) == 256;
      if n > 1 {
        PowMono(256, 1, n - 1);
        assert Pow(256, n) == 256 * Pow(256, n - 1) && Pow(256, n - 1) == 256 * Pow(256, n - 2);
      }
      MinIsBigEndian(v / 256, n - 1);
    }
  }

  function After(s: seq<Byte>, p: nat): Byte
  {
    if p < |s| then s[p] else 0
  }

  /** mbedtls_asn1_write_mpi; for zero it reads the byte after the cursor, which must exist. */
  method WriteMpi(buf: array<Byte>, p: nat, start: nat, X: Mpis.Mpi) returns (ret: int, q: nat)
    requires start <= p <= buf.Length && (X.Value() == 0 ==> p < buf.Length)
    modifies buf
    ensures var content := MpiContent(X.Value(), X.s, old(After(buf[..], p)));
      && (ret > 0 <==> |content| < 0x1_0000_0000 && p - start >= |Tlv(INTEGER, content)|)
      && (ret > 0 ==> ret == |Tlv(INTEGER, content)| && Wrote(old(buf[..]), buf[..], p, q, Tlv(INTEGER, content)))
    ensures Kept(old(buf[..]), buf[..], start, p)
  {
    hide LenBytes, Wrote, MpiContent;
    ghost var content := MpiContent(X.Value(), X.s, After(buf[..], p));
    ret, q := WriteMagnitude(buf, p, start, X);
    if ret < 0 {
      return;
    }
    var len := ret;
    ghost var middle, m := buf[..], q;
    if len < 0x1_0000_0000 {
      LenBytesSome(len);
    }
    ret, q := WriteHeader(buf, q, start, len, INTEGER);
    KeptMore(old(buf[..]), middle, buf[..], start, p, m);
    if ret > 0 {
      WroteMore(old(buf[..]), middle, buf[..], p, m, q, [INTEGER] + LenBytes(len), content);
    }
  }

  /** Its content octets. */
  method WriteMagnitude(buf: array<Byte>, p: nat, start: nat, X: Mpis.Mpi) returns (ret: int, q: nat)
    requires start <= p <= buf.Length && (X.Value() == 0 ==> p < buf.Length)
    modifies buf
    ensures var content := MpiContent(X.Value(), X.s, old(After(buf[..], p)));
      && (ret >= 0 <==> p - start >= |content|)
      && (ret >= 0 ==> ret == |content| && q == p - ret && Wrote(old(buf[..]), buf[..], p, q, content))
    ensures ret < 0 ==> ret == BUF_TOO_SMALL
    ensures Kept(old(buf[..]), buf[..], start, p) && q <= p
  {
    hide Wrote, MinBytes, BigEndian, Pow, Limbs.Val, MpiBytes.IsSize;
    ghost var v: nat, after := Mpis.AbsInt(X.Value()), After(buf[..], p);
    ghost var bytes := MinBytes(v);
    BeValMin(v);
    var len := MpiBytes.Size(X);
    MinIsBigEndian(v, len);
    if p - start < len {
      return BUF_TOO_SMALL, p;
    }
    q := p - len;
    var ok := MpiBytes.WriteBinary(X, buf, q, len);
    CopyWrote(old(buf[..]), buf[..], p, q, bytes);
    WroteKept(old(buf[..]), buf[..], start, p, q, bytes);
    FirstWritten(old(buf[..]), buf[..], p, q, bytes);
    assert buf[q] == buf[..][q];
    if X.s == 1 && buf[q] >= 0x80 {
      if q - start < 1 {
        return BUF_TOO_SMALL, q;
      }
      ghost var mid := buf[..];
      q := q - 1;
      buf[q] := 0;
      CopyWrote(mid, buf[..], q + 1, q, [0]);
      WroteMore(old(buf[..]), mid, buf[..], p, q + 1, q, [0], bytes);
      WroteKept(old(buf[..]), buf[..], start, p, q, [0] + bytes);
      len := len + 1;
    }
    ret := len;
  }

  lemma FirstWritten(a: seq<Byte>, b: seq<Byte>, p: nat, q: nat, content: seq<Byte>)
    requires Wrote(a, b, p, q, content) && q < |b|
    ensures b[q] == if content == [] then After(a, p) else content[0]
  {
    if content == [] {
      assert b[q] == b[p..][0];
    } else {
      assert b[q] == b[q..p][0];
    }
  }

  lemma CopyWrote(a: seq<Byte>, b: seq<Byte>, p: nat, q: nat, content: seq<Byte>)
    requires q + |content| == p <= |a| == |b|
    requires b[q..p] == content && b[..q] == a[..q] && b[p..] == a[p..]
    ensures Wrote(a, b, p, q, content)
  {
  }

  // ---------------------------------------------------------------- bit strings

  /** Bit i of a bit string, the most significant bit of a byte first. */
  function BitAt(s: seq<Byte>, i: nat): bool
    requires i < 8 * |s|
  {
    s[i / 8] / Pow2(7 - i % 8) % 2 == 1
  }

  function ByteLen(bits: nat): nat
  {
    (bits + 7) / 8
  }

  function Unused(bits: nat): (u: nat)
    ensures u < 8 && 8 * ByteLen(bits) == bits + u
  {
    8 * ByteLen(bits) - bits
  }

  /** The byte without its u lowest bits. */
  function Cleared(b: Byte, u: nat): Byte
    requires u < 8
  {
    b - b % Pow2(u)
  }

  /** buf[byte_len] & ~((1 << unused) - 1). */
  function MaskLow(b: Byte, u: nat): nat
    requires u < 8
  {
    BitAnd(b, Shl(Pow2(8 - u) - 1, u))
  }

  lemma {:induction false} MaskLowClears(b: nat, m: nat, u: nat)
    requires b < Pow(2, m + u)
    ensures BitAnd(b, Shl(Pow2(m) - 1, u)) == b - b % Pow2(u)
  {
    if u == 0 {
      BitAndMask(b, m);
      assert Pow2(0) == 1;
    } else {
      assert Pow(2, m + u) == 2 * Pow(2, m + u - 1);
      MaskLowClears(b / 2, m, u - 1);
      AndEven(b, Shl(Pow2(m) - 1, u - 1));
      HalfMod(b, Pow2(u - 1));
    }
  }

  lemma AndEven(b: nat, y: nat)
    ensures BitAnd(b, 2 * y) == 2 * BitAnd(b / 2, y)
  {
  }

  /** The content octets of a bit string: the number of unused bits, then the bytes with them cleared. */
  function BitContent(s: seq<Byte>, bits: nat): (r: seq<Byte>)
    requires ByteLen(bits) <= |s|
    ensures |r| == ByteLen(bits) + 1
  {
    var n := ByteLen(bits);
    [Unused(bits)] + if n == 0 then [] else s[..n - 1] + [Cleared(s[n - 1], Unused(bits))]
  }

  /** mbedtls_asn1_write_bitstring. */
  method WriteBitstring(buf: array<Byte>, p: nat, start: nat, s: seq<Byte>, bits: nat) returns (ret: int, q: nat)
    requires start <= p <= buf.Length && ByteLen(bits) <= |s|
    modifies buf
    ensures ret > 0 <==> ByteLen(bits) + 1 < 0x1_0000_0000 && p - start >= |Tlv(BIT_STRING, BitContent(s, bits))|
    ensures ret > 0 ==>
      && ret == |Tlv(BIT_STRING, BitContent(s, bits))|
      && Wrote(old(buf[..]), buf[..], p, q, Tlv(BIT_STRING, BitContent(s, bits)))
    ensures Kept(old(buf[..]), buf[..], start, p)
  {
    hide LenBytes, Wrote, Cleared, MaskLow;
    var n, unused := ByteLen(bits), Unused(bits);
    if p - start < n + 1 {
      return BUF_TOO_SMALL, p;
    }
    q := p;
    var len := n + 1;
    if n > 0 {
      n := n - 1;
      q := q - 1;
      MaskLowIsClear(s[n], unused);
      buf[q] := MaskLow(s[n], unused);
      q := q - n;
      CopyInto(s[..n], buf, q);
      assert buf[q..p] == s[..n] + [Cleared(s[n], unused)];
    }
    q := q - 1;
    buf[q] := unused;
    ghost var content := BitContent(s, bits);
    assert buf[q..p] == content;
    CopyWrote(old(buf[..]), buf[..], p, q, content);
    WroteKept(old(buf[..]), buf[..], start, p, q, content);
    ghost var middle, m := buf[..], q;
    if len < 0x1_0000_0000 {
      LenBytesSome(len);
    }
    ret, q := WriteHeader(buf, q, start, len, BIT_STRING);
    KeptMore(old(buf[..]), middle, buf[..], start, p, m);
    if ret > 0 {
      WroteMore(old(buf[..]), middle, buf[..], p, m, q, [BIT_STRING] + LenBytes(len), content);
    }
  }

  lemma MaskLowIsClear(b: Byte, u: nat)
    requires u < 8
    ensures MaskLow(b, u) == Cleared(b, u)
  {
    assert Pow(2, 8) == 256 by {
      assert Pow(2, 4) == 16;
      PowAdd(2, 4, 4);
    }
    MaskLowClears(b, 8 - u, u);
  }

  /** The number of bits up to the last one that is set. */
  function Trimmed(s: seq<Byte>, bits: nat): (b: nat)
    requires ByteLen(bits) <= |s|
    ensures b <= bits
  {
    if bits == 0 || BitAt(s, bits - 1) then bits else Trimmed(s, bits - 1)
  }

  lemma {:induction false} TrimmedMeaning(s: seq<Byte>, bits: nat)
    requires ByteLen(bits) <= |s|
    ensures var b := Trimmed(s, bits);
      (b > 0 ==> BitAt(s, b - 1)) && forall i :: b <= i < bits ==> !BitAt(s, i)
  {
    if bits > 0 && !BitAt(s, bits - 1) {
      TrimmedMeaning(s, bits - 1);
    }
  }

  /** mbedtls_asn1_write_named_bitstring: section 11.2.2 leaves out trailing zero bits. */
  method WriteNamedBitstring(buf: array<Byte>, p: nat, start: nat, s: seq<Byte>, bits: nat) returns (ret: int, q: nat)
    requires start <= p <= buf.Length && ByteLen(bits) <= |s|
    modifies buf
    ensures var content := BitContent(s, Trimmed(s, bits));
      && (ret > 0 <==> |content| < 0x1_0000_0000 && p - start >= |Tlv(BIT_STRING, content)|)
      && (ret > 0 ==> ret == |Tlv(BIT_STRING, content)| && Wrote(old(buf[..]), buf[..], p, q, Tlv(BIT_STRING, content)))
    ensures Kept(old(buf[..]), buf[..], start, p)
  {
    hide Wrote, Trimmed, BitContent;
    var b := TrimBits(s, bits);
    ret, q := WriteBitstring(buf, p, start, s, b);
  }

  /** Its scan for the last set bit, by shifting one byte at a time. */
  method TrimBits(s: seq<Byte>, bits: nat) returns (b: nat)
    requires ByteLen(bits) <= |s|
    ensures b == Trimmed(s, bits)
  {
    hide Pow, Pow2;
    b := bits;
    if b == 0 {
      return;
    }
    var cur := ByteLen(bits) - 1;
    var shifted: nat := s[cur] / Pow2(Unused(bits));
    while true
      invariant 0 < b <= bits && Trimmed(s, b) == Trimmed(s, bits)
      invariant cur == (b - 1) / 8 && shifted == s[cur] / Pow2(7 - (b - 1) % 8)
      decreases b
    {
      var bit := shifted % 2;
      HalfShift(s[cur], 7 - (b - 1) % 8);
      shifted := shifted / 2;
      if bit != 0 {
        break;
      }
      b := b - 1;
      if b == 0 {
        break;
      }
      if b % 8 == 0 {
        cur := cur - 1;
        NoShift(s[cur]);
        shifted := s[cur];
      }
    }
  }

  lemma HalfShift(x: nat, k: nat)
    ensures x / Pow2(k) / 2 == x / Pow2(k + 1)
  {
    hide Pow, Pow2;
    var m: int := Pow2(k);
    Pow2Succ(k);
    var q, r := x / m, x % m;
    DivMod(x, m);
    var h, b := q / 2, q % 2;
    MulCong(q, 2 * h + b, m);
    MulDist(m, 2 * h, b);
    MulAssoc(2, h, m);
    MulAssoc(h, 2, m);
    MulMono(b, 1, m);
    DivUnique(x, 2 * m, h, b * m + r);
  }

  lemma NoShift(x: nat)
    ensures x / Pow2(0) == x
  {
    assert Pow2(0) == 1;
  }

  // ---------------------------------------------------------------- parsing

  /** s starts with a tag and length octets, h bytes in all, and holds n content bytes after them. */
  predicate Element(s: seq<Byte>, tag: Byte, h: nat, n: nat)
  {
    2 <= h && h + n <= |s| && s[0] == tag && LenForm(s[1..], h - 1, n)
  }

  /** Parsing is deterministic, and a written element is one. */
  lemma ElementUnique(s: seq<Byte>, tag: Byte, h: nat, n: nat, h': nat, n': nat)
    requires Element(s, tag, h, n) && Element(s, tag, h', n')
    ensures h == h' && n == n'
  {
    LenFormUnique(s[1..], h - 1, n, h' - 1, n');
  }

  lemma TlvElement(tag: Byte, content: seq<Byte>, rest: seq<Byte>)
    requires |content| < 0x1_0000_0000
    ensures var (s, h) := (Tlv(tag, content) + rest, |Tlv(tag, content)| - |content|);
      Element(s, tag, h, |content|) && s[h..h + |content|] == content
  {
    hide LenBytes, LenForm;
    LenBytesSome(|content|);
    LenBytesForm(|content|, content + rest);
    var s := Tlv(tag, content) + rest;
    assert s[1..] == LenBytes(|content|) + (content + rest);
  }

  /** Why s does not begin with an element of the tag: wrong tag, no length octets, or not enough data. */
  function NoElement(s: seq<Byte>, tag: Byte): (r: int)
  {
    if s != [] && s[0] != tag then -0x62
    else if |s| > 1 && (s[1] == 0x80 || s[1] > 0x84) then -0x64
    else -0x60
  }

  /** mbedtls_asn1_get_len: accepts exactly the length octets whose content is there. */
  method GetLen(buf: seq<Byte>, p: nat, end: nat) returns (r: int, q: nat, len: nat)
    requires p <= end <= |buf|
    ensures r == 0 ==> p < q && LenForm(buf[p..end], q - p, len) && q + len <= end
    ensures forall k: nat, n: nat :: LenForm(buf[p..end], k, n) && k + n <= end - p ==> r == 0
    ensures r == INVALID_LENGTH <==> p < end && (buf[p] == 0x80 || buf[p] > 0x84)
    ensures r == 0 || r == INVALID_LENGTH || r == OUT_OF_DATA
  {
    hide BeVal, JoinOctets;
    ghost var s := buf[p..end];
    q, len := p, 0;
    if end - p < 1 {
      return OUT_OF_DATA, q, len;
    }
    if buf[p] < 0x80 {
      len := buf[p];
      q := p + 1;
    } else {
      var n := buf[p] - 0x80;
      if n == 0 || n > 4 {
        return INVALID_LENGTH, q, len;
      }
      if end - p < n + 1 {
        return OUT_OF_DATA, q, len;
      }
      LenDigits(s, n);
      len := JoinOctets(buf[p..end], n);
      q := p + n + 1;
    }
    forall k: nat, n: nat | LenForm(s, k, n)
      ensures k == q - p && n == len
    {
      LenFormUnique(s, k, n, q - p, len);
    }
    if len > end - q {
      return OUT_OF_DATA, q, len;
    }
    return 0, q, len;
  }

  /** One to four octets after the first, shifted together. */
  function JoinOctets(s: seq<Byte>, n: nat): nat
    requires 1 <= n <= 4 && |s| > n
  {
    match n
    case 1 => s[1]
    case 2 => s[1] as int * 0x100 + s[2]
    case 3 => s[1] as int * 0x1_0000 + s[2] as int * 0x100 + s[3]
    case _ => s[1] as int * 0x100_0000 + s[2] as int * 0x1_0000 + s[3] as int * 0x100 + s[4]
  }

  lemma LenDigits(s: seq<Byte>, n: nat)
    requires 1 <= n <= 4 && |s| > n
    ensures BeVal(s[1..n + 1]) == JoinOctets(s, n)
  {
    hide BeVal;
    BeValLast([], s[1]);
    NoDigits();
    assert s[1..2] == [] + [s[1]];
    if n >= 2 {
      assert s[1..3] == s[1..2] + [s[2]];
      BeValLast(s[1..2], s[2]);
    }
    if n >= 3 {
      assert s[1..4] == s[1..3] + [s[3]];
      BeValLast(s[1..3], s[3]);
    }
    if n >= 4 {
      assert s[1..5] == s[1..4] + [s[4]];
      BeValLast(s[1..4], s[4]);
    }
  }

  /** mbedtls_asn1_get_tag. */
  method GetTag(buf: seq<Byte>, p: nat, end: nat, tag: Byte) returns (r: int, q: nat, len: nat)
    requires p <= end <= |buf|
    ensures r == 0 ==> p < q && Element(buf[p..end], tag, q - p, len)
    ensures forall h: nat, n: nat :: Element(buf[p..end], tag, h, n) ==> r == 0
    ensures r == 0 || r == NoElement(buf[p..end], tag)
    ensures r <= 0
  {
    hide LenForm;
    if end - p < 1 {
      return OUT_OF_DATA, p, 0;
    }
    if buf[p] != tag {
      return UNEXPECTED_TAG, p, 0;
    }
    assert buf[p..end][1..] == buf[p + 1..end];
    r, q, len := GetLen(buf, p + 1, end);
    OneOctetLess(buf[p + 1..end]);
  }

  lemma OneOctetLess(s: seq<Byte>)
    ensures forall k: nat, n: nat :: LenForm(s, k, n) ==> k >= 1
  {
  }

  // ---------------------------------------------------------------- integers back

  /** asn1_get_tagged_int: accepts exactly nonempty, nonnegative contents whose value fits an int. */
  method GetTaggedInt(buf: seq<Byte>, p: nat, end: nat, tag: Byte) returns (r: int, q: nat, val: nat)
    requires p <= end <= |buf|
    ensures r == 0 ==> exists h: nat, n: nat ::
      && Element(buf[p..end], tag, h, n) && n >= 1 && buf[p + h] < 0x80
      && q == p + h + n && val == BeVal(buf[p + h..p + h + n]) && val < 0x8000_0000
    ensures forall h: nat, n: nat ::
      (Element(buf[p..end], tag, h, n) && n >= 1 && buf[p + h] < 0x80 && BeVal(buf[p + h..p + h + n]) < 0x8000_0000) ==>
        r == 0
    ensures r == 0 || r == if exists h: nat, n: nat :: Element(buf[p..end], tag, h, n) then -0x64
                           else NoElement(buf[p..end], tag)
  {
    hide LenForm, BeVal;
    val := 0;
    var len;
    r, q, len := GetTag(buf, p, end, tag);
    if r != 0 {
      return;
    }
    ghost var h, n := q - p, len;
    forall h': nat, n': nat | Element(buf[p..end], tag, h', n')
      ensures h' == h && n' == n
    {
      ElementUnique(buf[p..end], tag, h', n', h, n);
    }
    if len == 0 {
      return INVALID_LENGTH, q, val;
    }
    if buf[q] >= 0x80 {
      return INVALID_LENGTH, q, val;
    }
    r, q, val := IntValue(buf, q, q + len);
  }

  /** The value of the content octets from q to e. */
  method IntValue(buf: seq<Byte>, from: nat, e: nat) returns (r: int, q: nat, val: nat)
    requires from <= e <= |buf|
    ensures r == 0 <==> BeVal(buf[from..e]) < 0x8000_0000
    ensures r == 0 ==> q == e && val == BeVal(buf[from..e])
    ensures r == 0 || r == INVALID_LENGTH
  {
    hide BeVal;
    q, val := from, 0;
    while q < e && buf[q] == 0
      invariant from <= q <= e && BeVal(buf[q..e]) == BeVal(buf[from..e])
    {
      assert buf[q..e] == [0] + buf[q + 1..e];
      BeValFront(0, buf[q + 1..e]);
      q := q + 1;
    }
    StrippedFits(buf[q..e]);
    if e - q > 4 {
      return INVALID_LENGTH, q, val;
    }
    if e - q == 4 && buf[q] >= 0x80 {
      return INVALID_LENGTH, q, val;
    }
    NoDigits();
    ghost var at := q;
    assert buf[at..q] == [];
    while q < e
      invariant at <= q <= e && val == BeVal(buf[at..q])
    {
      assert buf[at..q + 1] == buf[at..q] + [buf[q]];
      BeValLast(buf[at..q], buf[q]);
      val := 256 * val + buf[q];
      q := q + 1;
    }
    r := 0;
  }

  lemma StrippedFits(s: seq<Byte>)
    requires s == [] || s[0] != 0
    ensures BeVal(s) < 0x8000_0000 <==> |s| < 4 || (|s| == 4 && s[0] < 0x80)
  {
    hide BeVal, Pow;
    Powers();
    NoDigits();
    BeValBound(s);
    if s != [] {
      var n := |s| - 1;
      var top: int, rest, p: int := s[0], s[1..], Pow(256, n);
      assert s == [s[0]] + rest;
      BeValFront(s[0], rest);
      BeValBound(rest);
      if n >= 4 {
        PowMono(256, 4, n);
        MulMono(1, top, p);
      } else if n < 3 {
        PowMono(256, n + 1, 3);
      }
    }
  }

  lemma IntContentValue(v: nat)
    ensures |IntContent(v)| >= 1 && IntContent(v)[0] < 0x80 && BeVal(IntContent(v)) == v
  {
    hide BeVal;
    BeValMin(v);
    NoDigits();
    BeValLast([], 0);
    assert [] + [0] == [0];
    if v > 0 {
      BeValFront(0, MinBytes(v));
    }
  }

  /**
   Whatever fits its buffer is accepted and read to the end: a nonnegative int comes back, a
   negative one comes back as its value modulo 256.
   */
  method IntRoundTrip(val: int, tag: Byte, size: nat) returns (fits: bool, r: int, back: nat, atEnd: bool)
    requires -0x8000_0000 <= val < 0x8000_0000
    ensures |IntContent(Written(val))| < 0x1_0000_0000 && (fits <==> size >= |Tlv(tag, IntContent(Written(val)))|)
    ensures fits ==> r == 0 && atEnd && back == (if val >= 0 then val else val % 256)
    ensures fits ==> (back == val <==> val >= 0)
  {
    hide BeVal, LenBytes, IntContent;
    var buf := new Byte[size](i => 0);
    var ret, q := WriteTaggedInt(buf, size, 0, val, tag);
    fits, r, back, atEnd := ret > 0, 0, 0, false;
    if fits {
      IntContentValue(Written(val));
      assert buf[..][q..size] == Tlv(tag, IntContent(Written(val)));
      var e;
      r, e, back := ReadWritten(buf[..], q, size, tag, IntContent(Written(val)));
      atEnd := e == size;
    }
  }

  /** asn1_get_tagged_int on one whole element that it accepts. */
  method ReadWritten(buf: seq<Byte>, p: nat, end: nat, tag: Byte, ghost content: seq<Byte>)
    returns (r: int, q: nat, val: nat)
    requires 1 <= |content| < 0x1_0000_0000 && content[0] < 0x80 && BeVal(content) < 0x8000_0000
    requires p <= end <= |buf| && buf[p..end] == Tlv(tag, content)
    ensures r == 0 && q == end && val == BeVal(content)
  {
    hide BeVal, LenForm, Tlv, NoElement;
    ghost var s := buf[p..end];
    TlvElement(tag, content, []);
    assert s == Tlv(tag, content) + [];
    ghost var h, n := |s| - |content|, |content|;
    assert s[h..h + n] == buf[p + h..p + h + n];
    assert content[0] == buf[p + h];
    r, q, val := GetTaggedInt(buf, p, end, tag);
    forall h': nat, n': nat | Element(s, tag, h', n')
      ensures h' == h && n' == n
    {
      ElementUnique(s, tag, h', n', h, n);
    }
  }

  /** Negative ints that come back as others: -1 as 255, -200 as 56. */
  method NegativeInts() returns (a: nat, b: nat)
    ensures a == 255 && b == 56
  {
    hide IntContent, Tlv, LenBytes;
    IntSize(255);
    IntSize(56);
    var fits, r, atEnd;
    TlvShort(INTEGER, IntContent(255));
    fits, r, a, atEnd := IntRoundTrip(-1, INTEGER, 16);
    TlvShort(INTEGER, IntContent(56));
    fits, r, b, atEnd := IntRoundTrip(-200, INTEGER, 16);
  }

  lemma TlvShort(tag: Byte, content: seq<Byte>)
    requires |content| <= 5
    ensures |Tlv(tag, content)| <= 11
  {
    hide LenBytes;
    LenBytesSome(|content|);
  }

  /** mbedtls_asn1_get_mpi: the content as an unsigned number. */
  method GetMpi(buf: seq<Byte>, p: nat, end: nat, X: Mpis.Mpi) returns (r: int, q: nat)
    requires p <= end <= |buf|
    modifies X
    ensures r == 0 ==> exists h: nat, n: nat ::
      Element(buf[p..end], INTEGER, h, n) && q == p + h + n && X.Value() == BeVal(buf[p + h..p + h + n])
    ensures forall h: nat, n: nat :: Element(buf[p..end], INTEGER, h, n) ==> r == 0
    ensures r == 0 || r == NoElement(buf[p..end], INTEGER)
  {
    hide LenForm, BeVal;
    var len;
    r, q, len := GetTag(buf, p, end, INTEGER);
    if r != 0 {
      return;
    }
    ghost var h := q - p;
    MpiBytes.ReadBinary(X, buf[q..q + len]);
    q := q + len;
    assert Element(buf[p..end], INTEGER, h, len);
  }

  lemma MpiContentValue(v: int, sign: int, after: Byte)
    ensures BeVal(MpiContent(v, sign, after)) == Mpis.AbsInt(v)
  {
    hide BeVal;
    BeValMin(Mpis.AbsInt(v));
    BeValFront(0, MinBytes(Mpis.AbsInt(v)));
  }

  /**
   A number written in front of any byte comes back as its magnitude, so exactly the nonnegative
   ones come back unchanged.
   */
  method MpiRoundTrip(X: Mpis.Mpi, size: nat, after: Byte) returns (fits: bool, r: int, back: Mpis.Mpi, atEnd: bool)
    requires |MpiContent(X.Value(), X.s, after)| < 0x1_0000_0000
    ensures fits <==> size >= |Tlv(INTEGER, MpiContent(X.Value(), X.s, after))|
    ensures fits ==> r == 0 && atEnd && back.Value() == Mpis.AbsInt(X.Value())
    ensures fits ==> (back.Value() == X.Value() <==> X.Value() >= 0)
  {
    hide BeVal, LenForm, LenBytes, MpiContent;
    var buf := new Byte[size + 1](i => after);
    var ret, q := WriteMpi(buf, size, 0, X);
    back := new Mpis.Mpi();
    fits, r, atEnd := ret > 0, 0, false;
    if fits {
      MpiContentValue(X.Value(), X.s, after);
      ghost var content := MpiContent(X.Value(), X.s, after);
      TlvElement(INTEGER, content, []);
      ghost var s, h := buf[..][q..size], |Tlv(INTEGER, content)| - |content|;
      assert s == Tlv(INTEGER, content) + [];
      assert s[h..h + |content|] == buf[..][q + h..q + h + |content|];
      var e;
      r, e := GetMpi(buf[..], q, size, back);
      forall h': nat, n': nat | Element(s, INTEGER, h', n')
        ensures h' == h && n' == |content|
      {
        ElementUnique(s, INTEGER, h', n', h, |content|);
      }
      atEnd := e == size;
    }
  }

  // ---------------------------------------------------------------- bit strings back

  /** mbedtls_asn1_get_bitstring: the element must end the input and leave at most seven bits unused. */
  method GetBitstring(buf: seq<Byte>, p: nat, end: nat) returns (r: int, unused: nat, bytes: seq<Byte>)
    requires p <= end <= |buf|
    ensures r == 0 ==> exists h: nat, n: nat ::
      && Element(buf[p..end], BIT_STRING, h, n) && n >= 1 && h + n == end - p
      && unused == buf[p + h] <= 7 && bytes == buf[p + h + 1..end]
    ensures forall h: nat, n: nat ::
      Element(buf[p..end], BIT_STRING, h, n) && n >= 1 && h + n == end - p && buf[p + h] <= 7 ==> r == 0
    ensures forall h: nat, n: nat :: Element(buf[p..end], BIT_STRING, h, n) && r != 0 ==>
      r == if n == 0 then -0x60 else if buf[p + h] > 7 then -0x64 else -0x66
    ensures (forall h: nat, n: nat :: !Element(buf[p..end], BIT_STRING, h, n)) ==>
      r == NoElement(buf[p..end], BIT_STRING)
  {
    hide LenForm;
    unused, bytes := 0, [];
    var q, len;
    r, q, len := GetTag(buf, p, end, BIT_STRING);
    if r != 0 {
      return;
    }
    ghost var h, n := q - p, len;
    forall h': nat, n': nat | Element(buf[p..end], BIT_STRING, h', n')
      ensures h' == h && n' == n
    {
      ElementUnique(buf[p..end], BIT_STRING, h', n', h, n);
    }
    if len < 1 {
      return OUT_OF_DATA, unused, bytes;
    }
    len := len - 1;
    unused := buf[q];
    if unused > 7 {
      return INVALID_LENGTH, unused, bytes;
    }
    q := q + 1;
    bytes := buf[q..q + len];
    q := q + len;
    if q != end {
      return LENGTH_MISMATCH, unused, bytes;
    }
    assert Element(buf[p..end], BIT_STRING, h, n);
  }

  /** Clearing unused bits leaves the others. */
  lemma ClearedKeeps(b: Byte, u: nat, k: nat)
    requires u <= k < 8
    ensures Cleared(b, u) / Pow2(k) == b / Pow2(k)
  {
    var m: int, d: int := Pow2(u), Pow2(k - u);
    assert Pow2(k) == m * d by { PowAdd(2, u, k - u); }
    var q: int, r := b / m, b % m;
    DivMod(b, m);
    MulDivides(q, m, d, 0);
    MulDivides(q, m, d, r);
  }

  lemma MulDivides(q: int, m: int, d: int, r: int)
    requires m >= 1 && d >= 1 && q >= 0 && 0 <= r < m
    ensures m * d >= 1 && (q * m + r) / (m * d) == q / d
  {
    hide *;
    MulMono(1, m, d);
    var a: int, b: int := q / d, q % d;
    DivMod(q, d);
    MulCong(q, a * d + b, m);
    MulDist(m, a * d, b);
    MulAssoc(a, d, m);
    MulCong(d * m, m * d, a);
    MulMono(b, d - 1, m);
    MulDist(m, d, -1);
    MulMono(0, b, m);
    DivUnique(q * m + r, m * d, a, b * m + r);
  }

  /** Every bit of a bit string survives its encoding. */
  lemma BitsSurvive(s: seq<Byte>, bits: nat, i: nat)
    requires ByteLen(bits) <= |s| && i < bits
    ensures i < 8 * |BitContent(s, bits)[1..]| && BitAt(BitContent(s, bits)[1..], i) == BitAt(s, i)
  {
    hide Cleared, Pow2;
    var n, u := ByteLen(bits), Unused(bits);
    var t := BitContent(s, bits)[1..];
    assert t == s[..n - 1] + [Cleared(s[n - 1], u)];
    if i / 8 == n - 1 {
      assert 7 - i % 8 >= u;
      ClearedKeeps(s[n - 1], u, 7 - i % 8);
    }
  }

  /** A bit string comes back bit for bit; a named one has only lost trailing zero bits. */
  method BitstringRoundTrip(s: seq<Byte>, bits: nat, named: bool, size: nat)
    returns (fits: bool, r: int, unused: nat, back: seq<Byte>)
    requires ByteLen(bits) <= |s| && ByteLen(bits) + 1 < 0x1_0000_0000
    ensures fits <==> size >= |Tlv(BIT_STRING, BitContent(s, if named then Trimmed(s, bits) else bits))|
    ensures fits ==> r == 0 && unused <= 7 && 8 * |back| - unused == if named then Trimmed(s, bits) else bits
    ensures fits ==> forall i :: 0 <= i < 8 * |back| - unused ==> BitAt(back, i) == BitAt(s, i)
  {
    hide LenForm, LenBytes, BitContent, Trimmed, BitAt;
    var buf := new Byte[size](i => 0);
    var ret, q;
    if named {
      ret, q := WriteNamedBitstring(buf, size, 0, s, bits);
    } else {
      ret, q := WriteBitstring(buf, size, 0, s, bits);
    }
    fits, r, unused, back := ret > 0, 0, 0, [];
    if fits {
      r, unused, back := ReadBits(buf[..], q, size, s, if named then Trimmed(s, bits) else bits);
    }
  }

  method ReadBits(buf: seq<Byte>, p: nat, end: nat, ghost s: seq<Byte>, ghost bits: nat)
    returns (r: int, unused: nat, back: seq<Byte>)
    requires ByteLen(bits) <= |s| && ByteLen(bits) + 1 < 0x1_0000_0000
    requires p <= end <= |buf| && buf[p..end] == Tlv(BIT_STRING, BitContent(s, bits))
    ensures r == 0 && unused <= 7 && 8 * |back| - unused == bits
    ensures forall i :: 0 <= i < bits ==> BitAt(back, i) == BitAt(s, i)
  {
    hide LenForm, LenBytes, BitContent, BitAt;
    ghost var content := BitContent(s, bits);
    TlvElement(BIT_STRING, content, []);
    ghost var t, h, n := buf[p..end], |Tlv(BIT_STRING, content)| - |content|, |content|;
    assert t == Tlv(BIT_STRING, content) + [];
    assert t[h..h + n] == buf[p + h..p + h + n];
    BitContentParts(s, bits);
    assert buf[p + h] == content[0];
    r, unused, back := GetBitstring(buf, p, end);
    forall h': nat, n': nat | Element(t, BIT_STRING, h', n')
      ensures h' == h && n' == n
    {
      ElementUnique(t, BIT_STRING, h', n', h, n);
    }
    assert back == content[1..];
    forall i | 0 <= i < bits
      ensures BitAt(back, i) == BitAt(s, i)
    {
      BitsSurvive(s, bits, i);
    }
  }

  lemma BitContentParts(s: seq<Byte>, bits: nat)
    requires ByteLen(bits) <= |s|
    ensures BitContent(s, bits)[0] == Unused(bits) && |BitContent(s, bits)[1..]| == ByteLen(bits)
  {
  }

  // ---------------------------------------------------------------- sequences

  const SEQUENCE: Byte := 0x30

  datatype Item = Item(tag: Byte, content: seq<Byte>)

  predicate Writable(items: seq<Item>)
  {
    forall i :: 0 <= i < |items| ==> |items[i].content| < 0x1_0000_0000
  }

  function Items(items: seq<Item>): seq<Byte>
    requires Writable(items)
  {
    if items == [] then [] else Tlv(items[0].tag, items[0].content) + Items(items[1..])
  }

  /** The tag under the mask has the wanted value. */
  predicate Matches(tag: Byte, mask: Byte, value: Byte)
  {
    BitAnd(tag, mask) == value
  }

  function Chosen(items: seq<Item>, mask: Byte, value: Byte): seq<Item>
  {
    if items == [] then [] else
    var n := |items| - 1;
    Chosen(items[..n], mask, value) + if Matches(items[n].tag, mask, value) then [items[n]] else []
  }

  /** The element at the front of s, with h bytes of tag and length, is x. */
  ghost predicate ElementIs(s: seq<Byte>, x: Item, h: nat)
  {
    Element(s, x.tag, h, |x.content|) && s[h..h + |x.content|] == x.content
  }

  /** The byte string is exactly these elements one after the other, whatever form their lengths have. */
  ghost predicate Elements(s: seq<Byte>, items: seq<Item>)
    decreases |items|
  {
    if items == [] then s == []
    else exists h: nat :: ElementIs(s, items[0], h) && Elements(s[h + |items[0].content|..], items[1..])
  }

  /** Written elements are such a string. */
  lemma {:induction false} EncodedElements(items: seq<Item>)
    requires Writable(items)
    ensures Elements(Items(items), items)
  {
    if items != [] {
      hide LenForm, LenBytes;
      var x, rest := items[0], items[1..];
      EncodedElements(rest);
      TlvElement(x.tag, x.content, Items(rest));
      var h := |Tlv(x.tag, x.content)| - |x.content|;
      assert Items(items)[h + |x.content|..] == Items(rest);
      assert ElementIs(Items(items), x, h);
    }
  }

  /** A written sequence is a sequence of what was written. */
  lemma WrittenSequence(items: seq<Item>)
    requires Writable(items) && |Items(items)| < 0x1_0000_0000
    ensures SequenceOf(Tlv(SEQUENCE, Items(items)), items)
  {
    hide LenForm, LenBytes, Items, Elements;
    var content := Items(items);
    var s := Tlv(SEQUENCE, content);
    EncodedElements(items);
    TlvElement(SEQUENCE, content, []);
    assert s + [] == s;
    var h := |s| - |content|;
    assert s[h..] == s[h..h + |content|];
  }

  /** A byte string is a sequence of at most one list of elements. */
  lemma SequenceUnique(s: seq<Byte>, a: seq<Item>, b: seq<Item>)
    requires SequenceOf(s, a) && SequenceOf(s, b)
    ensures a == b
  {
    hide LenForm, Elements;
    var h: nat :| h <= |s| && Element(s, SEQUENCE, h, |s| - h) && Elements(s[h..], a);
    var k: nat :| k <= |s| && Element(s, SEQUENCE, k, |s| - k) && Elements(s[k..], b);
    ElementUnique(s, SEQUENCE, h, |s| - h, k, |s| - k);
    ElementsUnique(s[h..], a, b);
  }

  lemma {:induction false} ElementsUnique(s: seq<Byte>, a: seq<Item>, b: seq<Item>)
    requires Elements(s, a) && Elements(s, b)
    ensures a == b
    decreases |a|
  {
    hide *;
    if a == [] {
      NoElements(s);
      ElementsOfNothing(b);
    } else {
      var h := FrontHeader(s, a);
      FrontElement(s, b, a[0], h);
      ElementsUnique(s[h + |a[0].content|..], a[1..], b[1..]);
      assert a == [a[0]] + a[1..] && b == [b[0]] + b[1..];
    }
  }

  lemma NoElements(s: seq<Byte>)
    ensures Elements(s, []) <==> s == []
  {
  }

  lemma FrontHeader(s: seq<Byte>, items: seq<Item>) returns (h: nat)
    requires Elements(s, items) && items != []
    ensures ElementIs(s, items[0], h) && h + |items[0].content| <= |s|
    ensures Elements(s[h + |items[0].content|..], items[1..])
  {
    hide LenForm;
    h :| ElementIs(s, items[0], h) && Elements(s[h + |items[0].content|..], items[1..]);
  }

  /** The front element of a string is determined by the string. */
  lemma FrontElement(s: seq<Byte>, items: seq<Item>, x: Item, h: nat)
    requires Elements(s, items) && ElementIs(s, x, h)
    ensures items != [] && items[0] == x && Elements(s[h + |x.content|..], items[1..])
  {
    hide LenForm;
    var h': nat :| ElementIs(s, items[0], h') && Elements(s[h' + |items[0].content|..], items[1..]);
    ElementUnique(s, x.tag, h, |x.content|, h', |items[0].content|);
  }

  lemma SomeElement(s: seq<Byte>, items: seq<Item>)
    requires Elements(s, items) && s != []
    ensures items != [] && s[0] == items[0].tag
    ensures exists h: nat :: Element(s, items[0].tag, h, |items[0].content|)
  {
    hide LenForm;
    var h: nat :| ElementIs(s, items[0], h) && Elements(s[h + |items[0].content|..], items[1..]);
  }

  predicate AllMatch(items: seq<Item>, mask: Byte, value: Byte)
  {
    forall i :: 0 <= i < |items| ==> Matches(items[i].tag, mask, value)
  }

  /**
   What a callback returns, from all it has been given so far: it may keep state of its own between
   calls.
   */
  type Callback = seq<Item> -> int

  predicate AllAccepted(cb: Callback, items: seq<Item>)
  {
    forall i :: 1 <= i <= |items| ==> cb(items[..i]) == 0
  }

  /** The input is one sequence element and nothing else, made of these elements. */
  ghost predicate SequenceOf(s: seq<Byte>, items: seq<Item>)
  {
    exists h: nat :: h <= |s| && Element(s, SEQUENCE, h, |s| - h) && Elements(s[h..], items)
  }

  /**
   mbedtls_asn1_traverse_sequence_of, with any callback; visited lists what the callback is given.
   For every byte string: it succeeds exactly when the input is a sequence whose tags all meet the
   first condition and the callback accepts every element that meets the second; it has then
   visited exactly those, in order, and ends at the end.
   */
  method Traverse(buf: seq<Byte>, p: nat, end: nat, mustMask: Byte, mustVal: Byte, mayMask: Byte, mayVal: Byte,
                  cb: Callback)
    returns (r: int, q: nat, visited: seq<Item>, ghost items: seq<Item>)
    requires p <= end <= |buf|
    ensures visited == Chosen(items, mayMask, mayVal)
    ensures r == 0 ==> SequenceOf(buf[p..end], items) && AllMatch(items, mustMask, mustVal)
    ensures r == 0 ==> q == end && AllAccepted(cb, visited)
    ensures forall want: seq<Item> ::
      (&& SequenceOf(buf[p..end], want) && AllMatch(want, mustMask, mustVal)
       && AllAccepted(cb, Chosen(want, mayMask, mayVal))) ==>
        r == 0 && items == want
  {
    hide LenForm, Matches, Chosen, Elements;
    visited, items := [], [];
    NoItems(mayMask, mayVal);
    var len;
    r, q, len := GetTag(buf, p, end, SEQUENCE);
    if r != 0 {
      return;
    }
    ghost var h := q - p;
    forall want: seq<Item> | SequenceOf(buf[p..end], want)
      ensures q + len == end && Elements(buf[q..end], want)
    {
      SequenceBody(buf, p, end, want, h, len);
    }
    if q + len != end {
      r := LENGTH_MISMATCH;
      return;
    }
    r, q, visited, items := Walk(buf, q, end, mustMask, mustVal, mayMask, mayVal, cb);
    if r == 0 {
      assert buf[p..end][h..] == buf[p + h..end];
    }
  }

  /** mbedtls_asn1_write_raw_buffer. */
  method WriteRaw(buf: array<Byte>, p: nat, start: nat, content: seq<Byte>) returns (ret: int, q: nat)
    requires start <= p <= buf.Length
    modifies buf
    ensures ret >= 0 <==> p - start >= |content|
    ensures ret >= 0 ==> ret == |content| && q == p - ret && Wrote(old(buf[..]), buf[..], p, q, content)
    ensures ret < 0 ==> ret == BUF_TOO_SMALL && q == p && buf[..] == old(buf[..])
    ensures Kept(old(buf[..]), buf[..], start, p)
  {
    if p - start < |content| {
      return BUF_TOO_SMALL, p;
    }
    q := p - |content|;
    CopyInto(content, buf, q);
    CopyWrote(old(buf[..]), buf[..], p, q, content);
    WroteKept(old(buf[..]), buf[..], start, p, q, content);
    ret := |content|;
  }

  /** One element: content, length and tag, as the writers of single types end. */
  method WriteElement(buf: array<Byte>, p: nat, start: nat, x: Item) returns (ret: int, q: nat)
    requires start <= p <= buf.Length && |x.content| < 0x1_0000_0000
    modifies buf
    ensures var element := Tlv(x.tag, x.content);
      && (ret > 0 <==> p - start >= |element|)
      && (ret > 0 ==> ret == |element| && q == p - ret && Wrote(old(buf[..]), buf[..], p, q, element))
    ensures Kept(old(buf[..]), buf[..], start, p)
  {
    hide LenBytes, Wrote;
    LenBytesSome(|x.content|);
    ret, q := WriteRaw(buf, p, start, x.content);
    if ret < 0 {
      return;
    }
    ghost var middle, m := buf[..], q;
    ret, q := WriteHeader(buf, q, start, ret, x.tag);
    KeptMore(old(buf[..]), middle, buf[..], start, p, m);
    if ret > 0 {
      WroteMore(old(buf[..]), middle, buf[..], p, m, q, [x.tag] + LenBytes(|x.content|), x.content);
      WroteEnds(old(buf[..]), buf[..], p, q, Tlv(x.tag, x.content));
    }
  }

  lemma WroteEnds(a: seq<Byte>, b: seq<Byte>, p: int, q: int, content: seq<Byte>)
    requires Wrote(a, b, p, q, content)
    ensures q == p - |content|
  {
  }

  lemma ItemsStep(items: seq<Item>, i: nat)
    requires Writable(items) && i < |items|
    ensures Items(items[i..]) == Tlv(items[i].tag, items[i].content) + Items(items[i + 1..])
  {
    assert items[i..][1..] == items[i + 1..];
  }

  lemma ItemsNone()
    ensures Items([]) == []
  {
  }

  lemma {:induction false} ItemsSize(items: seq<Item>, i: nat)
    requires Writable(items) && i <= |items|
    ensures |Items(items[i..])| <= |Items(items)|
    decreases i
  {
    hide Items;
    if i == 0 {
      assert items[0..] == items;
    } else {
      ItemsSize(items, i - 1);
      ItemsStep(items, i - 1);
    }
  }

  /** A sequence as callers compose it from the writers: the elements backwards, then the header. */
  method WriteSequence(buf: array<Byte>, p: nat, start: nat, items: seq<Item>) returns (ret: int, q: nat)
    requires start <= p <= buf.Length && Writable(items)
    modifies buf
    ensures var content := Items(items);
      && (ret > 0 <==> |content| < 0x1_0000_0000 && p - start >= |Tlv(SEQUENCE, content)|)
      && (ret > 0 ==> ret == |Tlv(SEQUENCE, content)| && q == p - ret)
      && (ret > 0 ==> Wrote(old(buf[..]), buf[..], p, q, Tlv(SEQUENCE, content)))
    ensures Kept(old(buf[..]), buf[..], start, p)
  {
    hide LenBytes, Wrote, Items, Tlv;
    var len;
    len, q := WriteItems(buf, p, start, items);
    if len < 0 {
      if |Items(items)| < 0x1_0000_0000 {
        TlvSize(SEQUENCE, Items(items));
      }
      return len, q;
    }
    ghost var content, middle, m := Items(items), buf[..], q;
    ret, q := WriteHeader(buf, q, start, len, SEQUENCE);
    KeptMore(old(buf[..]), middle, buf[..], start, p, m);
    if |content| < 0x1_0000_0000 {
      TlvSize(SEQUENCE, content);
      LenBytesSome(|content|);
    }
    if ret > 0 {
      WroteMore(old(buf[..]), middle, buf[..], p, m, q, [SEQUENCE] + LenBytes(len), content);
      WroteEnds(old(buf[..]), buf[..], p, q, Tlv(SEQUENCE, content));
    }
  }

  lemma TlvSize(tag: Byte, content: seq<Byte>)
    requires |content| < 0x1_0000_0000
    ensures Tlv(tag, content) == [tag] + LenBytes(|content|) + content
    ensures |Tlv(tag, content)| == 1 + |LenBytes(|content|)| + |content|
  {
    hide LenBytes;
  }

  method WriteItems(buf: array<Byte>, p: nat, start: nat, items: seq<Item>) returns (ret: int, q: nat)
    requires start <= p <= buf.Length && Writable(items)
    modifies buf
    ensures ret >= 0 <==> p - start >= |Items(items)|
    ensures ret >= 0 ==> ret == |Items(items)| && q == p - ret && Wrote(old(buf[..]), buf[..], p, q, Items(items))
    ensures Kept(old(buf[..]), buf[..], start, p) && q <= p
  {
    hide Items, Wrote, Tlv;
    ItemsNone();
    var i := |items|;
    q, ret := p, 0;
    CopyWrote(old(buf[..]), buf[..], p, p, []);
    WroteKept(old(buf[..]), buf[..], start, p, p, []);
    assert items[i..] == [];
    while i > 0
      invariant 0 <= i <= |items| && start <= q <= p && ret == p - q == |Items(items[i..])|
      invariant Wrote(old(buf[..]), buf[..], p, q, Items(items[i..])) && Kept(old(buf[..]), buf[..], start, p)
    {
      i := i - 1;
      ItemsStep(items, i);
      ItemsSize(items, i);
      ghost var middle, m := buf[..], q;
      var more;
      more, q := WriteElement(buf, q, start, items[i]);
      KeptMore(old(buf[..]), middle, buf[..], start, p, m);
      if more <= 0 {
        return BUF_TOO_SMALL, p;
      }
      WroteMore(old(buf[..]), middle, buf[..], p, m, q, Tlv(items[i].tag, items[i].content), Items(items[i + 1..]));
      ret := ret + more;
    }
    assert items[0..] == items;
  }

  /**
   A sequence that fits its buffer is traversed successfully exactly when its tags meet the first
   condition and the callback accepts what meets the second, and then exactly those were visited.
   */
  method SequenceRoundTrip(items: seq<Item>, size: nat, mustMask: Byte, mustVal: Byte, mayMask: Byte, mayVal: Byte,
                           cb: Callback)
    returns (fits: bool, r: int, visited: seq<Item>)
    requires Writable(items) && |Items(items)| < 0x1_0000_0000
    ensures fits <==> size >= |Tlv(SEQUENCE, Items(items))|
    ensures fits ==>
      (r == 0 <==> AllMatch(items, mustMask, mustVal) && AllAccepted(cb, Chosen(items, mayMask, mayVal)))
    ensures fits && r == 0 ==> visited == Chosen(items, mayMask, mayVal)
  {
    hide Items, Tlv, SequenceOf, AllMatch, AllAccepted, Chosen;
    var buf := new Byte[size](i => 0);
    var ret, q := WriteSequence(buf, size, 0, items);
    fits, r, visited := ret > 0, 0, [];
    if fits {
      WrittenSequence(items);
      assert buf[..][q..size] == Tlv(SEQUENCE, Items(items));
      var end;
      ghost var found;
      r, end, visited, found := Traverse(buf[..], q, size, mustMask, mustVal, mayMask, mayVal, cb);
      if r == 0 {
        SequenceUnique(buf[..][q..size], items, found);
      }
    }
  }

  lemma SequenceBody(buf: seq<Byte>, p: nat, end: nat, want: seq<Item>, h: nat, len: nat)
    requires p <= end <= |buf| && SequenceOf(buf[p..end], want) && Element(buf[p..end], SEQUENCE, h, len)
    ensures p + h + len == end && Elements(buf[p + h..end], want)
  {
    hide LenForm, Elements;
    var s := buf[p..end];
    var h': nat :| h' <= |s| && Element(s, SEQUENCE, h', |s| - h') && Elements(s[h'..], want);
    ElementUnique(s, SEQUENCE, h, len, h', |s| - h');
    assert s[h..] == buf[p + h..end];
  }

  /** The loop over the elements. */
  method Walk(buf: seq<Byte>, from: nat, end: nat, mustMask: Byte, mustVal: Byte, mayMask: Byte, mayVal: Byte,
              cb: Callback)
    returns (r: int, q: nat, visited: seq<Item>, ghost items: seq<Item>)
    requires from <= end <= |buf|
    ensures visited == Chosen(items, mayMask, mayVal)
    ensures r == 0 ==> Elements(buf[from..end], items) && AllMatch(items, mustMask, mustVal)
    ensures r == 0 ==> q == end && AllAccepted(cb, visited)
    ensures forall want: seq<Item> ::
      (&& Elements(buf[from..end], want) && AllMatch(want, mustMask, mustVal)
       && AllAccepted(cb, Chosen(want, mayMask, mayVal))) ==>
        r == 0 && items == want
  {
    hide LenForm, Matches, Chosen, Elements, ElementIs;
    q, visited, items, r := from, [], [], 0;
    NoItems(mayMask, mayVal);
    ghost var body := buf[from..end];
    StartWalk(body);
    while q < end
      invariant from <= q <= end && r == 0 && visited == Chosen(items, mayMask, mayVal)
      invariant AllMatch(items, mustMask, mustVal) && AllAccepted(cb, visited)
      invariant Prefix(body, items, buf[q..end])
      decreases end - q
    {
      ghost var at := q;
      var tag := buf[q];
      q := q + 1;
      if !Matches(tag, mustMask, mustVal) {
        WrongTag(body, items, buf[at..end], tag, mustMask, mustVal);
        return UNEXPECTED_TAG, q, visited, items;
      }
      var len;
      r, q, len := GetLen(buf, q, end);
      if r != 0 {
        HeaderElement(buf, at, end);
        WrongLength(body, items, buf[at..end]);
        return;
      }
      var x := Item(tag, buf[q..q + len]);
      HeaderBack(buf, at, end, q, len);
      NextItem(body, items, buf[at..end], x, q - at);
      ChosenNext(items, x, mayMask, mayVal);
      items := items + [x];
      if Matches(tag, mayMask, mayVal) {
        assert visited == (visited + [x])[..|visited|];
        visited := visited + [x];
        AcceptedNext(cb, visited);
        r := cb(visited);
        if r != 0 {
          Rejected(body, items, buf[q + len..end], cb, mayMask, mayVal);
          return;
        }
      }
      q := q + len;
    }
    EndWalk(body, items, buf[q..end]);
  }

  /** The string is the items and then the rest, for every way to read it. */
  ghost predicate Prefix(body: seq<Byte>, items: seq<Item>, rest: seq<Byte>)
  {
    forall want: seq<Item> :: Elements(body, want) <==> items <= want && Elements(rest, want[|items|..])
  }

  lemma StartWalk(body: seq<Byte>)
    ensures Prefix(body, [], body)
  {
    hide Elements;
    forall want: seq<Item>
      ensures Elements(body, want) <==> [] <= want && Elements(body, want[0..])
    {
      assert want[0..] == want;
    }
  }

  lemma NextItem(body: seq<Byte>, items: seq<Item>, s: seq<Byte>, x: Item, h: nat)
    requires Prefix(body, items, s) && ElementIs(s, x, h)
    ensures h + |x.content| <= |s| && Prefix(body, items + [x], s[h + |x.content|..])
  {
    var rest := s[h + |x.content|..];
    hide Elements, LenForm, ElementIs;
    forall want: seq<Item>
      ensures Elements(body, want) <==> items + [x] <= want && Elements(rest, want[|items + [x]|..])
    {
      NextFor(body, items, s, x, h, want);
    }
  }

  lemma NextFor(body: seq<Byte>, items: seq<Item>, s: seq<Byte>, x: Item, h: nat, want: seq<Item>)
    requires ElementIs(s, x, h) && h + |x.content| <= |s|
    requires Elements(body, want) <==> items <= want && Elements(s, want[|items|..])
    ensures Elements(body, want) <==> items + [x] <= want && Elements(s[h + |x.content|..], want[|items + [x]|..])
  {
    hide *;
    if items <= want {
      var w := want[|items|..];
      FrontExact(s, w, x, h);
      if w != [] {
        assert want[|items| + 1..] == w[1..] && w[0] == want[|items|];
      }
    }
  }

  lemma FrontExact(s: seq<Byte>, w: seq<Item>, x: Item, h: nat)
    requires ElementIs(s, x, h) && h + |x.content| <= |s|
    ensures Elements(s, w) <==> w != [] && w[0] == x && Elements(s[h + |x.content|..], w[1..])
  {
    hide LenForm;
    if Elements(s, w) {
      FrontElement(s, w, x, h);
    }
  }

  lemma ElementsOfNothing(w: seq<Item>)
    ensures Elements([], w) <==> w == []
  {
    hide LenForm;
  }

  lemma EndWalk(body: seq<Byte>, items: seq<Item>, rest: seq<Byte>)
    requires Prefix(body, items, rest) && rest == []
    ensures forall want: seq<Item> :: Elements(body, want) <==> want == items
  {
    hide Elements;
    forall want: seq<Item>
      ensures Elements(body, want) <==> want == items
    {
      if items <= want {
        var w := want[|items|..];
        assert w == [] ==> want == items;
        ElementsOfNothing(w);
      }
    }
  }

  lemma WrongTag(body: seq<Byte>, items: seq<Item>, s: seq<Byte>, tag: Byte, mask: Byte, value: Byte)
    requires Prefix(body, items, s) && s != [] && s[0] == tag && !Matches(tag, mask, value)
    ensures forall want: seq<Item> :: Elements(body, want) ==> !AllMatch(want, mask, value)
  {
    hide Elements, Matches;
    forall want: seq<Item> | Elements(body, want)
      ensures !AllMatch(want, mask, value)
    {
      SomeElement(s, want[|items|..]);
      assert !Matches(want[|items|].tag, mask, value);
    }
  }

  lemma WrongLength(body: seq<Byte>, items: seq<Item>, s: seq<Byte>)
    requires Prefix(body, items, s) && s != [] && forall h: nat, n: nat :: !Element(s, s[0], h, n)
    ensures forall want: seq<Item> :: !Elements(body, want)
  {
    hide Elements, LenForm;
    forall want: seq<Item>
      ensures !Elements(body, want)
    {
      if Elements(body, want) {
        SomeElement(s, want[|items|..]);
      }
    }
  }

  lemma Rejected(body: seq<Byte>, items: seq<Item>, rest: seq<Byte>, cb: Callback, mask: Byte, value: Byte)
    requires Prefix(body, items, rest) && !AllAccepted(cb, Chosen(items, mask, value))
    ensures forall want: seq<Item> :: Elements(body, want) ==> !AllAccepted(cb, Chosen(want, mask, value))
  {
    hide Elements, Chosen;
    var c := Chosen(items, mask, value);
    var i :| 1 <= i <= |c| && cb(c[..i]) != 0;
    forall want: seq<Item> | Elements(body, want)
      ensures !AllAccepted(cb, Chosen(want, mask, value))
    {
      ChosenPrefix(items, want, mask, value);
      assert Chosen(want, mask, value)[..i] == c[..i];
    }
  }

  lemma AcceptedNext(cb: Callback, items: seq<Item>)
    requires items != [] && AllAccepted(cb, items[..|items| - 1])
    ensures AllAccepted(cb, items) <==> cb(items) == 0
  {
    var n := |items| - 1;
    assert items[..|items|] == items;
    forall i | 1 <= i <= n
      ensures cb(items[..i]) == 0
    {
      assert items[..n][..i] == items[..i];
    }
  }

  lemma {:induction false} ChosenPrefix(items: seq<Item>, want: seq<Item>, mask: Byte, value: Byte)
    requires items <= want
    ensures Chosen(items, mask, value) <= Chosen(want, mask, value)
    decreases |want|
  {
    if items != want {
      ChosenPrefix(items, want[..|want| - 1], mask, value);
    }
  }

  lemma ChosenNext(items: seq<Item>, x: Item, mask: Byte, value: Byte)
    ensures Chosen(items + [x], mask, value) ==
      Chosen(items, mask, value) + if Matches(x.tag, mask, value) then [x] else []
  {
    assert (items + [x])[..|items|] == items;
  }

  lemma NoItems(mask: Byte, value: Byte)
    ensures Chosen([], mask, value) == []
  {
  }

  lemma HeaderElement(buf: seq<Byte>, at: nat, end: nat)
    requires at < end <= |buf|
    ensures forall h: nat, n: nat :: Element(buf[at..end], buf[at], h, n) ==>
      LenForm(buf[at + 1..end], h - 1, n) && h - 1 + n <= end - (at + 1)
  {
    assert buf[at..end][1..] == buf[at + 1..end];
  }

  lemma HeaderBack(buf: seq<Byte>, at: nat, end: nat, q: nat, len: nat)
    requires at + 1 < q && q + len <= end <= |buf| && LenForm(buf[at + 1..end], q - (at + 1), len)
    ensures ElementIs(buf[at..end], Item(buf[at], buf[q..q + len]), q - at)
    ensures buf[at..end][q - at + len..] == buf[q + len..end]
  {
    var s := buf[at..end];
    assert s[1..] == buf[at + 1..end];
    SliceOfSlice(buf, at, end, q - at, q - at + len);
    SliceOfSlice(buf, at, end, q - at + len, end - at);
  }

  lemma SliceOfSlice(buf: seq<Byte>, at: nat, end: nat, i: nat, j: nat)
    requires at <= end <= |buf| && i <= j <= end - at
    ensures buf[at..end][i..j] == buf[at + i..at + j]
  {
    var l, r := buf[at..end][i..j], buf[at + i..at + j];
    assert |l| == |r|;
    forall k | 0 <= k < |l|
      ensures l[k] == r[k]
    {
    }
  }
}
