/** Base64: branch-free digit conversion, an encoder, and a two-pass decoder that tolerates line breaks. */
module Base64 {
  import opened Arith
  import opened Blocks

  const BUFFER_TOO_SMALL: int := -0x2a
  const INVALID_CHARACTER: int := -0x2c
  const SIZE_MAX: nat := 0xffff_ffff_ffff_ffff
  const U32: nat := 0x1_0000_0000

  // ---------------------------------------------------------------- digits

  /** mbedtls_ct_uchar_mask_of_range, on 32-bit unsigned arithmetic. */
  function MaskOfRange(low: Byte, high: Byte, c: Byte): (m: nat)
  {
    var lowMask := (c as int - low) % U32 / 256;
    var highMask := (high as int - c) % U32 / 256;
    BitAnd(U32 - 1 - BitOr(lowMask, highMask) % U32, 0xff)
  }

  lemma MaskMeaning(low: Byte, high: Byte, c: Byte)
    ensures MaskOfRange(low, high, c) == if low <= c <= high then 0xff else 0
  {
    hide BitAnd, BitOr;
    var lowMask := (c as int - low) % U32 / 256;
    var highMask := (high as int - c) % U32 / 256;
    assert lowMask == if low <= c then 0 else 0xff_ffff;
    assert highMask == if c <= high then 0 else 0xff_ffff;
    OrCases(0xff_ffff);
    LowByte(U32 - 1 - BitOr(lowMask, highMask) % U32);
  }

  lemma OrCases(x: nat)
    ensures BitOr(0, x) == x && BitOr(x, 0) == x && BitOr(0, 0) == 0 && BitOr(x, x) == x
  {
    OrSelf(x);
  }

  lemma {:induction false} OrSelf(x: nat)
    ensures BitOr(x, x) == x
  {
    if x > 0 {
      OrSelf(x / 2);
    }
  }

  lemma LowByte(x: nat)
    ensures BitAnd(x, 0xff) == x % 256
  {
    assert Pow(2, 8) == 256 by {
      assert Pow(2, 4) == 16;
      PowAdd(2, 4, 4);
    }
    MaskIsMod(x, 8);
  }

  /** mask & x for a mask of zeros or ones. */
  function Masked(mask: nat, x: int): nat
  {
    BitAnd(x % U32, mask)
  }

  lemma MaskedMeaning(mask: nat, x: int)
    requires mask == 0 || mask == 0xff
    ensures Masked(mask, x) == if mask == 0 then 0 else x % U32 % 256
  {
    if mask == 0xff {
      LowByte(x % U32);
    }
  }

  /** A masked value is the value inside the range, and zero outside. */
  lemma PickedMeaning(low: Byte, high: Byte, c: Byte, x: int)
    requires low <= c <= high ==> 0 <= x < 256
    ensures Masked(MaskOfRange(low, high, c), x) == if low <= c <= high then x else 0
  {
    hide MaskOfRange, Masked;
    MaskMeaning(low, high, c);
    MaskedMeaning(MaskOfRange(low, high, c), x);
  }

  /** mbedtls_ct_base64_enc_char. */
  function EncChar(value: Byte): nat
  {
    var d1 := Masked(MaskOfRange(0, 25, value), 65 + value as int);
    var d2 := BitOr(d1, Masked(MaskOfRange(26, 51, value), 97 + value as int - 26));
    var d3 := BitOr(d2, Masked(MaskOfRange(52, 61, value), 48 + value as int - 52));
    var d4 := BitOr(d3, Masked(MaskOfRange(62, 62, value), 43));
    BitOr(d4, Masked(MaskOfRange(63, 63, value), 47))
  }

  /** mbedtls_ct_base64_dec_value, the final subtraction on a signed char. */
  function DecValue(c: Byte): int
  {
    var v1 := Masked(MaskOfRange(65, 90, c), c as int - 65 + 1);
    var v2 := BitOr(v1, Masked(MaskOfRange(97, 122, c), c as int - 97 + 26 + 1));
    var v3 := BitOr(v2, Masked(MaskOfRange(48, 57, c), c as int - 48 + 52 + 1));
    var v4 := BitOr(v3, Masked(MaskOfRange(43, 43, c), c as int - 43 + 62 + 1));
    BitOr(v4, Masked(MaskOfRange(47, 47, c), c as int - 47 + 63 + 1)) - 1
  }

  /** The alphabet of section 5.2 of RFC 1521: letters, digits, plus and slash. */
  function Alphabet(v: nat): Byte
    requires v < 64
  {
    if v < 26 then 65 + v else if v < 52 then 97 + (v - 26) else if v < 62 then 48 + (v - 52)
    else if v == 62 then 43 else 47
  }

  const UPPER: string := "ABCDEFGHIJKLMNOPQRSTUVWXYZ"
  const LOWER: string := "abcdefghijklmnopqrstuvwxyz"
  const OTHER: string := "0123456789+/"

  /** The alphabet, written out. */
  lemma AlphabetIs(v: nat)
    requires v < 64
    ensures |UPPER| == 26 && |LOWER| == 26 && |OTHER| == 12
    ensures Alphabet(v) == (UPPER + LOWER + OTHER)[v] as int
  {
    assert forall i :: 0 <= i < 26 ==> UPPER[i] as int == 65 + i;
    assert forall i :: 0 <= i < 26 ==> LOWER[i] as int == 97 + i;
    assert forall i :: 0 <= i < 10 ==> OTHER[i] as int == 48 + i;
  }

  lemma EncMeaning(v: Byte)
    requires v < 64
    ensures EncChar(v) == Alphabet(v)
  {
    hide MaskOfRange, Masked, BitOr;
    PickedMeaning(0, 25, v, 65 + v as int);
    PickedMeaning(26, 51, v, 97 + v as int - 26);
    PickedMeaning(52, 61, v, 48 + v as int - 52);
    PickedMeaning(62, 62, v, 43);
    PickedMeaning(63, 63, v, 47);
    OrCases(0);
    OrCases(Alphabet(v));
  }

  function ValueOf(c: Byte): int
  {
    if 65 <= c <= 90 then c - 65 else if 97 <= c <= 122 then c - 97 + 26 else if 48 <= c <= 57 then c + 4
    else if c == 43 then 62 else if c == 47 then 63 else -1
  }

  lemma DecMeaning(c: Byte)
    ensures DecValue(c) == ValueOf(c)
  {
    hide MaskOfRange, Masked, BitOr;
    PickedMeaning(65, 90, c, c as int - 65 + 1);
    PickedMeaning(97, 122, c, c as int - 97 + 26 + 1);
    PickedMeaning(48, 57, c, c as int - 48 + 52 + 1);
    PickedMeaning(43, 43, c, c as int - 43 + 62 + 1);
    PickedMeaning(47, 47, c, c as int - 47 + 63 + 1);
    OrCases(0);
    OrCases(ValueOf(c) + 1);
  }

  /** The two conversions are inverse, and everything outside the alphabet is refused. */
  lemma DigitsInverse(c: Byte, v: nat)
    requires v < 64
    ensures -1 <= DecValue(c) < 64
    ensures DecValue(c) == v <==> EncChar(v) == c
  {
    DecMeaning(c);
    EncMeaning(v);
  }

  // ---------------------------------------------------------------- encoding

  const EQUALS: Byte := 61

  /** The four digits of three bytes. */
  function Quad(a: Byte, b: Byte, c: Byte): (r: seq<Byte>)
    ensures |r| == 4
  {
    [Alphabet(a / 4), Alphabet(a % 4 * 16 + b / 16), Alphabet(b % 16 * 4 + c / 64), Alphabet(c % 64)]
  }

  /** Section 5.2 of RFC 1521: groups of three bytes, the last one padded. */
  function Encoded(s: seq<Byte>): (r: seq<Byte>)
    ensures |r| == 4 * ((|s| + 2) / 3)
  {
    if |s| == 0 then []
    else if |s| == 1 then Quad(s[0], 0, 0)[..2] + [EQUALS, EQUALS]
    else if |s| == 2 then Quad(s[0], s[1], 0)[..3] + [EQUALS]
    else Quad(s[0], s[1], s[2]) + Encoded(s[3..])
  }

  function Bytes(s: string): seq<Byte>
    requires forall i :: 0 <= i < |s| ==> s[i] as int < 256
  {
    seq(|s|, i requires 0 <= i < |s| => s[i] as int)
  }

  /** Test vectors of section 10 of RFC 4648. */
  lemma Vectors()
    ensures Encoded(Bytes("")) == Bytes("")
    ensures Encoded(Bytes("f")) == Bytes("Zg==")
    ensures Encoded(Bytes("fo")) == Bytes("Zm8=")
    ensures Encoded(Bytes("foo")) == Bytes("Zm9v")
    ensures Encoded(Bytes("foobar")) == Bytes("Zm9vYmFy")
  {
    hide Encoded;
    Quads();
    EncodedEnd(102, 111);
    var s := Bytes("foobar");
    assert Bytes("") == [] && Bytes("f") == [102] && Bytes("fo") == [102, 111] && Bytes("foo") == [102, 111, 111];
    EncodedStep(Bytes("foo"));
    EncodedStep(s);
    EncodedStep(s[3..]);
    assert s[3..][3..] == Bytes("foo")[3..] == [];
  }

  lemma Quads()
    ensures Quad(102, 0, 0)[..2] == [90, 103] && Quad(102, 111, 0)[..3] == [90, 109, 56]
    ensures Quad(102, 111, 111) == [90, 109, 57, 118] && Quad(98, 97, 114) == [89, 109, 70, 121]
  {
  }

  lemma EncodedEnd(a: Byte, b: Byte)
    ensures Encoded([]) == [] && Encoded([a]) == Quad(a, 0, 0)[..2] + [EQUALS, EQUALS]
    ensures Encoded([a, b]) == Quad(a, b, 0)[..3] + [EQUALS]
  {
    hide Quad;
  }

  lemma EncodedStep(s: seq<Byte>)
    requires |s| >= 3
    ensures Encoded(s) == Quad(s[0], s[1], s[2]) + Encoded(s[3..])
  {
    hide Quad;
    assert |s| != 0 && |s| != 1 && |s| != 2;
  }

  lemma {:induction false} EncodedConcat(a: seq<Byte>, b: seq<Byte>)
    requires |a| % 3 == 0
    ensures Encoded(a + b) == Encoded(a) + Encoded(b)
  {
    hide Quad, Encoded;
    if a == [] {
      assert a + b == b;
      NothingEncoded();
    } else {
      var rest := a[3..];
      EncodedConcat(rest, b);
      assert (a + b)[3..] == rest + b;
      EncodedStep(a);
      EncodedStep(a + b);
      ConcatAssoc(Quad(a[0], a[1], a[2]), Encoded(rest), Encoded(b));
    }
  }

  /** mbedtls_base64_encode. */
  method Encode(dst: array<Byte>, src: seq<Byte>) returns (ret: int, olen: nat)
    requires |src| <= SIZE_MAX
    modifies dst
    ensures ret == 0 || ret == BUFFER_TOO_SMALL
    ensures ret == 0 <==> src == [] || (|Encoded(src)| < dst.Length && |Encoded(src)| < SIZE_MAX)
    ensures ret == 0 ==> olen == |Encoded(src)| <= dst.Length && dst[..olen] == Encoded(src)
    ensures ret == 0 && src != [] ==> olen < dst.Length && dst[olen] == 0 && dst[olen + 1..] == old(dst[olen + 1..])
    ensures ret != 0 ==> dst[..] == old(dst[..])
    ensures ret != 0 ==> olen == if |Encoded(src)| < SIZE_MAX then |Encoded(src)| + 1 else SIZE_MAX
  {
    hide Quad, Encoded;
    NothingEncoded();
    if |src| == 0 {
      return 0, 0;
    }
    var n := |src| / 3 + (if |src| % 3 != 0 then 1 else 0);
    assert |Encoded(src)| == 4 * n;
    if n > (SIZE_MAX - 1) / 4 {
      return BUFFER_TOO_SMALL, SIZE_MAX;
    }
    n := n * 4;
    if dst.Length < n + 1 {
      return BUFFER_TOO_SMALL, n + 1;
    }
    var p := WriteGroups(dst, src);
    dst[p] := 0;
    return 0, p;
  }

  /** The main loop and the remaining bytes. */
  method WriteGroups(dst: array<Byte>, src: seq<Byte>) returns (p: nat)
    requires |Encoded(src)| < dst.Length
    modifies dst
    ensures p == |Encoded(src)| && dst[..p] == Encoded(src) && dst[p..] == old(dst[p..])
  {
    hide Quad, Encoded;
    var i;
    i, p := WriteWhole(dst, src);
    if i < |src| {
      EncodedNext(src, i, |src| - i);
      WriteTail(dst, p, src[i..]);
      assert dst[..p + 4] == dst[..p] + dst[p..p + 4];
      p := p + 4;
    }
    assert src[..|src|] == src;
  }

  /** Its main loop. */
  method WriteWhole(dst: array<Byte>, src: seq<Byte>) returns (i: nat, p: nat)
    requires |Encoded(src)| < dst.Length
    modifies dst
    ensures var n := |src| / 3; i == 3 * n && p == 4 * n && dst[..p] == Encoded(src[..i])
    ensures dst[|Encoded(src)|..] == old(dst[|Encoded(src)|..])
  {
    hide Quad, Encoded;
    NothingEncoded();
    ghost var size, g := |Encoded(src)|, 0;
    var n := |src| / 3;
    assert 3 * n <= |src| && 4 * n <= size;
    i, p := 0, 0;
    while i < n * 3
      invariant 0 <= g <= n && i == 3 * g && p == 4 * g
      invariant dst[..p] == Encoded(src[..i]) && dst[size..] == old(dst[size..])
    {
      ModShift(i, 0, g, 3);
      EncodedNext(src, i, 3);
      WriteQuad(dst, p, src[i], src[i + 1], src[i + 2]);
      assert dst[..p + 4] == dst[..p] + dst[p..p + 4];
      p := p + 4;
      i := i + 3;
      g := g + 1;
    }
  }

  lemma NothingEncoded()
    ensures Encoded([]) == []
  {
  }

  lemma EncodedNext(src: seq<Byte>, i: nat, k: nat)
    requires i % 3 == 0 && i + k <= |src| && 1 <= k <= 3
    ensures Encoded(src[..i + k]) == Encoded(src[..i]) + Encoded(src[i..i + k])
    ensures k == 3 ==> Encoded(src[i..i + k]) == Quad(src[i], src[i + 1], src[i + 2])
  {
    hide Quad;
    EncodedConcat(src[..i], src[i..i + k]);
    assert src[..i + k] == src[..i] + src[i..i + k];
    if k == 3 {
      assert src[i..i + 3][3..] == [];
    }
  }

  /** One round of the main loop. */
  method WriteQuad(dst: array<Byte>, p: nat, c1: Byte, c2: Byte, c3: Byte)
    requires p + 4 <= dst.Length
    modifies dst
    ensures dst[p..p + 4] == Quad(c1, c2, c3) && dst[..p] == old(dst[..p]) && dst[p + 4..] == old(dst[p + 4..])
  {
    hide EncChar;
    EncMeaning(c1 / 4);
    EncMeaning(c1 % 4 * 16 + c2 / 16);
    EncMeaning(c2 % 16 * 4 + c3 / 64);
    EncMeaning(c3 % 64);
    dst[p] := EncChar(c1 / 4);
    dst[p + 1] := EncChar(c1 % 4 * 16 + c2 / 16);
    dst[p + 2] := EncChar(c2 % 16 * 4 + c3 / 64);
    dst[p + 3] := EncChar(c3 % 64);
  }

  /** One or two remaining bytes. */
  method WriteTail(dst: array<Byte>, p: nat, rest: seq<Byte>)
    requires p + 4 <= dst.Length && 1 <= |rest| <= 2
    modifies dst
    ensures dst[p..p + 4] == Encoded(rest) && dst[..p] == old(dst[..p]) && dst[p + 4..] == old(dst[p + 4..])
  {
    hide EncChar;
    var c1 := rest[0];
    var c2 := if 1 < |rest| then rest[1] else 0;
    EncMeaning(c1 / 4);
    EncMeaning(c1 % 4 * 16 + c2 / 16);
    EncMeaning(c2 % 16 * 4);
    dst[p] := EncChar(c1 / 4);
    dst[p + 1] := EncChar(c1 % 4 * 16 + c2 / 16);
    if 1 < |rest| {
      dst[p + 2] := EncChar(c2 % 16 * 4);
    } else {
      dst[p + 2] := EQUALS;
    }
    dst[p + 3] := EQUALS;
  }

  // ---------------------------------------------------------------- what the decoder accepts

  const SPACE: Byte := 32
  const CR: Byte := 13
  const LF: Byte := 10

  predicate Blank(c: Byte)
  {
    c == SPACE || c == CR || c == LF
  }

  /** The digits and equals signs, without spaces and line breaks. */
  function Strip(s: seq<Byte>): seq<Byte>
  {
    if s == [] then [] else (if Blank(s[0]) then [] else [s[0]]) + Strip(s[1..])
  }

  lemma StripNext(src: seq<Byte>, i: nat)
    requires i < |src|
    ensures Strip(src[i..]) == if Blank(src[i]) then Strip(src[i + 1..]) else [src[i]] + Strip(src[i + 1..])
  {
    assert src[i..][1..] == src[i + 1..];
  }

  function EqCount(s: seq<Byte>): nat
  {
    if s == [] then 0 else (if s[0] == EQUALS then 1 else 0) + EqCount(s[1..])
  }

  /** Digits, then at most two equals signs, when e of them have been seen. */
  predicate Form(s: seq<Byte>, e: nat)
  {
    s == [] ||
    if s[0] == EQUALS then e < 2 && Form(s[1..], e + 1)
    else e == 0 && ValueOf(s[0]) >= 0 && Form(s[1..], 0)
  }

  /** A carriage return stands before a line feed, and spaces only at the end of a line or of the input. */
  predicate PlacedAt(src: seq<Byte>, i: nat)
    requires i < |src|
  {
    && (src[i] == CR ==> i + 1 < |src| && src[i + 1] == LF)
    && (src[i] == SPACE ==> i + 1 == |src| || Blank(src[i + 1]))
  }

  ghost predicate Acceptable(src: seq<Byte>)
  {
    (forall i :: 0 <= i < |src| ==> PlacedAt(src, i)) && Form(Strip(src), 0)
  }

  /** The marks, written out; a blank inside a line or a lone return is refused, a line break is not. */
  lemma Marks()
    ensures EQUALS == '=' as int && SPACE == ' ' as int && CR == '\r' as int && LF == '\n' as int
    ensures !Acceptable(Bytes("Zm 9v")) && !Acceptable(Bytes("Zm9v\r")) && Acceptable(Bytes("Zg==\r\n"))
  {
    var (a, b, c) := (Bytes("Zm 9v"), Bytes("Zm9v\r"), Bytes("Zg==\r\n"));
    assert !PlacedAt(a, 2) && !PlacedAt(b, 4);
    assert c == [90, 103, EQUALS, EQUALS, CR, LF];
    Broken(90, 103);
  }

  lemma Broken(x: Byte, y: Byte)
    requires ValueOf(x) >= 0 && ValueOf(y) >= 0 && !Blank(x) && !Blank(y) && x != EQUALS && y != EQUALS
    ensures Acceptable([x, y, EQUALS, EQUALS, CR, LF])
  {
    hide Strip, Form, ValueOf;
    BrokenStrip(x, y);
    FormNext(EQUALS, [], 1);
    FormNext(EQUALS, [EQUALS], 0);
    FormNext(y, [EQUALS, EQUALS], 0);
    FormNext(x, [y, EQUALS, EQUALS], 0);
    NothingLeft([]);
    assert [EQUALS] + [] == [EQUALS] && [EQUALS] + [EQUALS] == [EQUALS, EQUALS];
    assert [y] + [EQUALS, EQUALS] == [y, EQUALS, EQUALS] && [x] + [y, EQUALS, EQUALS] == [x, y, EQUALS, EQUALS];
  }

  lemma BrokenStrip(x: Byte, y: Byte)
    requires !Blank(x) && !Blank(y)
    ensures Strip([x, y, EQUALS, EQUALS, CR, LF]) == [x, y, EQUALS, EQUALS]
  {
    var s := [x, y, EQUALS, EQUALS, CR, LF];
    hide Strip;
    StripNext(s, 0);
    StripNext(s, 1);
    StripNext(s, 2);
    StripNext(s, 3);
    StripNext(s, 4);
    StripNext(s, 5);
    NothingLeft(s);
    assert s[0..] == s;
    assert Strip(s[4..]) == [] && Strip(s[3..]) == [EQUALS] && Strip(s[2..]) == [EQUALS, EQUALS];
  }

  /** What Form means: a prefix of digits and a suffix of at most two equals signs. */
  lemma {:induction false} FormMeaning(s: seq<Byte>, e: nat)
    requires Form(s, e) && e <= 2
    ensures EqCount(s) + e <= 2 && EqCount(s) <= |s|
    ensures forall i :: 0 <= i < |s| ==> if i < |s| - EqCount(s) then ValueOf(s[i]) >= 0 else s[i] == EQUALS
    ensures e > 0 ==> EqCount(s) == |s|
  {
    if s != [] {
      FormMeaning(s[1..], if s[0] == EQUALS then e + 1 else e);
    }
  }

  /** The first pass. */
  method Scan(src: seq<Byte>) returns (ok: bool, n: nat, equals: nat)
    ensures ok <==> Acceptable(src)
    ensures ok ==> n == |Strip(src)| && equals == EqCount(Strip(src))
  {
    hide Strip, Form, EqCount, ValueOf;
    var i := 0;
    n, equals := 0, 0;
    assert src[0..] == src;
    while i < |src|
      invariant 0 <= i <= |src| && forall j :: 0 <= j < i ==> PlacedAt(src, j)
      invariant Form(Strip(src), 0) <==> Form(Strip(src[i..]), equals)
      invariant n + |Strip(src[i..])| == |Strip(src)| && equals + EqCount(Strip(src[i..])) == EqCount(Strip(src))
      decreases |src| - i
    {
      var spaces;
      i, spaces := SkipSpaces(src, i);
      if i == |src| {
        break;
      }
      StripNext(src, i);
      if |src| - i >= 2 && src[i] == CR && src[i + 1] == LF {
        i := i + 1;
      } else if src[i] == LF {
        i := i + 1;
      } else {
        if spaces {
          assert !PlacedAt(src, i - 1) || !PlacedAt(src, i);
          return false, n, equals;
        }
        if src[i] == CR {
          assert !PlacedAt(src, i);
          NotADigit();
        }
        FormNext(src[i], Strip(src[i + 1..]), equals);
        var fine;
        fine, equals := CheckCharacter(src[i], equals);
        if !fine {
          return false, n, equals;
        }
        n := n + 1;
        i := i + 1;
      }
    }
    NothingLeft(src);
    ok := true;
  }

  /** The checks on a character that is neither space nor line break. */
  method CheckCharacter(c: Byte, equals: nat) returns (fine: bool, equals': nat)
    ensures fine <==> if c == EQUALS then equals < 2 else equals == 0 && ValueOf(c) >= 0
    ensures fine ==> equals' == equals + if c == EQUALS then 1 else 0
  {
    hide DecValue;
    DecMeaning(c);
    equals' := equals;
    if c > 127 {
      return false, equals';
    }
    if c == EQUALS {
      equals' := equals' + 1;
      if equals' > 2 {
        return false, equals';
      }
    } else {
      if equals' != 0 {
        return false, equals';
      }
      if DecValue(c) < 0 {
        return false, equals';
      }
    }
    return true, equals';
  }

  /** The inner loop over spaces. */
  method SkipSpaces(src: seq<Byte>, i: nat) returns (k: nat, spaces: bool)
    requires i < |src|
    ensures i <= k <= |src| && (forall j :: i <= j < k ==> src[j] == SPACE) && (k < |src| ==> src[k] != SPACE)
    ensures spaces <==> k > i
    ensures Strip(src[k..]) == Strip(src[i..])
  {
    hide Strip;
    k, spaces := i, false;
    while k < |src| && src[k] == SPACE
      invariant i <= k <= |src| && (forall j :: i <= j < k ==> src[j] == SPACE) && (spaces <==> k > i)
      invariant Strip(src[k..]) == Strip(src[i..])
    {
      StripNext(src, k);
      k := k + 1;
      spaces := true;
    }
  }

  lemma NotADigit()
    ensures ValueOf(CR) < 0 && ValueOf(EQUALS) < 0
  {
  }

  lemma FormNext(c: Byte, rest: seq<Byte>, e: nat)
    ensures Form([c] + rest, e) <==>
      if c == EQUALS then e < 2 && Form(rest, e + 1) else e == 0 && ValueOf(c) >= 0 && Form(rest, 0)
    ensures EqCount([c] + rest) == (if c == EQUALS then 1 else 0) + EqCount(rest)
  {
    assert ([c] + rest)[1..] == rest;
  }

  lemma NothingLeft(src: seq<Byte>)
    ensures Strip(src[|src|..]) == [] && EqCount([]) == 0 && forall e: nat :: Form([], e)
  {
  }

  // ---------------------------------------------------------------- decoding

  /** A digit's value; an equals sign counts as zero. */
  function Dig(c: Byte): (d: nat)
    ensures d < 64
  {
    if ValueOf(c) < 0 then 0 else ValueOf(c)
  }

  function Number(s: seq<Byte>): nat
  {
    if s == [] then 0 else 64 * Number(s[..|s| - 1]) + Dig(s[|s| - 1])
  }

  /** The bytes of a group of four, as many as the equals signs leave. */
  function Triple(x: nat, e: nat): seq<Byte>
    requires x < 0x100_0000
  {
    [x / 0x1_0000] + (if e <= 1 then [x / 0x100 % 256] else []) + (if e == 0 then [x % 256] else [])
  }

  lemma {:induction false} NumberBound(s: seq<Byte>)
    requires |s| <= 4
    ensures Number(s) < Scale(|s|)
  {
    if s != [] {
      NumberBound(s[..|s| - 1]);
    }
  }

  /** 64^n for a group's worth of digits. */
  function Scale(n: nat): nat
    requires n <= 4
  {
    if n == 0 then 1 else if n == 1 then 0x40 else if n == 2 then 0x1000 else if n == 3 then 0x4_0000 else 0x100_0000
  }

  /** The bytes of a stripped text; digits after the last full group are dropped. */
  function Out(s: seq<Byte>, e: nat): (r: seq<Byte>)
  {
    if |s| < 4 then [] else
    var e' := e + EqCount(s[..4]);
    NumberBound(s[..4]);
    Triple(Number(s[..4]), e') + Out(s[4..], e')
  }

  /** The size the first pass computes, without overflow, from the number of characters. */
  function Needed(n: nat, equals: nat): int
  {
    6 * (n / 8) + (6 * (n % 8) + 7) / 8 - equals
  }

  lemma NeededValue(n: nat, equals: nat)
    ensures Needed(n, equals) == 3 * (n / 4) + n % 4 - equals
  {
  }

  /**
   The second pass writes the computed size less the bytes of an incomplete last group, so never
   more, and exactly as much when the characters come in fours.
   */
  lemma {:induction false} OutSize(s: seq<Byte>)
    requires Form(s, 0)
    ensures var slack := |s| % 4 - EqCount(s);
      |Out(s, 0)| == Needed(|s|, EqCount(s)) - if slack > 0 then slack else 0
  {
    hide Out, Form, EqCount, Needed;
    NeededValue(|s|, EqCount(s));
    FormMeaning(s, 0);
    OutStep(s, 0);
    if |s| >= 4 {
      var rest := s[4..];
      EqSplit(s, 4);
      if EqCount(s[..4]) == 0 {
        FormRest(s);
        OutSize(rest);
        NeededValue(|rest|, EqCount(rest));
      } else {
        NoGroups(s);
        OutStep(rest, EqCount(s[..4]));
      }
    }
  }

  lemma OutStep(s: seq<Byte>, e: nat)
    ensures |s| < 4 ==> Out(s, e) == []
    ensures |s| >= 4 ==>
      var g := e + EqCount(s[..4]);
      |Out(s, e)| == (if g == 0 then 3 else if g == 1 then 2 else 1) + |Out(s[4..], g)|
  {
    hide EqCount, Number;
    if |s| >= 4 {
      NumberBound(s[..4]);
    }
  }

  lemma {:induction false} EqSplit(s: seq<Byte>, k: nat)
    requires k <= |s|
    ensures EqCount(s) == EqCount(s[..k]) + EqCount(s[k..])
  {
    if k > 0 {
      EqSplit(s[1..], k - 1);
      assert s[1..][..k - 1] == s[..k][1..] && s[1..][k - 1..] == s[k..];
    }
  }

  /** After four digits without an equals sign the rest is again of the form. */
  lemma FormRest(s: seq<Byte>)
    requires |s| >= 4 && Form(s, 0) && EqCount(s[..4]) == 0
    ensures Form(s[4..], 0)
  {
    FormSkip(s);
    FormSkip(s[1..]);
    FormSkip(s[2..]);
    FormSkip(s[3..]);
    EqFree(s[..4]);
    assert s[1..][1..] == s[2..] && s[2..][1..] == s[3..] && s[3..][1..] == s[4..];
  }

  lemma FormSkip(s: seq<Byte>)
    requires s != []
    ensures s[0] != EQUALS && Form(s, 0) ==> Form(s[1..], 0)
  {
  }

  lemma {:induction false} EqFree(s: seq<Byte>)
    requires EqCount(s) == 0
    ensures forall i :: 0 <= i < |s| ==> s[i] != EQUALS
  {
    if s != [] {
      EqFree(s[1..]);
    }
  }

  /** An equals sign in the first group leaves at most one character after it. */
  lemma NoGroups(s: seq<Byte>)
    requires |s| >= 4 && Form(s, 0) && EqCount(s[..4]) > 0
    ensures |s| <= 5 && EqCount(s) == EqCount(s[..4]) + (|s| - 4)
  {
    FormMeaning(s, 0);
    EqSplit(s, 4);
    EqSome(s[..4]);
    EqAll(s[4..]);
  }

  lemma {:induction false} EqSome(s: seq<Byte>)
    requires EqCount(s) > 0
    ensures exists i :: 0 <= i < |s| && s[i] == EQUALS
  {
    if s[0] != EQUALS {
      EqSome(s[1..]);
      var i :| 0 <= i < |s| - 1 && s[1..][i] == EQUALS;
      assert s[i + 1] == EQUALS;
    }
  }

  lemma {:induction false} EqAll(s: seq<Byte>)
    ensures (forall i :: 0 <= i < |s| ==> s[i] == EQUALS) ==> EqCount(s) == |s|
  {
    if s != [] {
      EqAll(s[1..]);
      assert forall i :: 0 <= i < |s| - 1 ==> s[1..][i] == s[i + 1];
    }
  }

  /** mbedtls_base64_decode. */
  method Decode(dst: array<Byte>, src: seq<Byte>) returns (ret: int, olen: nat)
    modifies dst
    ensures ret == INVALID_CHARACTER <==> !Acceptable(src)
    ensures ret == 0 || ret == INVALID_CHARACTER || ret == BUFFER_TOO_SMALL
    ensures Acceptable(src) ==>
      var s := Strip(src);
      && (ret == 0 <==> Needed(|s|, EqCount(s)) <= dst.Length)
      && (ret == 0 ==> olen == |Out(s, 0)| <= Needed(|s|, EqCount(s)) && dst[..olen] == Out(s, 0))
      && (ret == BUFFER_TOO_SMALL ==> olen == Needed(|s|, EqCount(s)))
      && (ret == 0 ==> dst[olen..] == old(dst[olen..]))
    ensures ret != 0 ==> dst[..] == old(dst[..])
  {
    hide Acceptable, Out, EqCount, Strip, Form, Needed;
    var ok, n, equals := Scan(src);
    olen := 0;
    if !ok {
      return INVALID_CHARACTER, olen;
    }
    AcceptedForm(src);
    ghost var s := Strip(src);
    OutFits(s);
    if n == 0 {
      OutStep(s, 0);
      NoCharacters(s);
      return 0, olen;
    }
    n := OutputSize(n, equals);
    if dst.Length < n {
      return BUFFER_TOO_SMALL, n;
    }
    olen := SecondPass(dst, src);
    return 0, olen;
  }

  lemma AcceptedForm(src: seq<Byte>)
    requires Acceptable(src)
    ensures Form(Strip(src), 0)
  {
  }

  lemma NoCharacters(s: seq<Byte>)
    requires s == []
    ensures EqCount(s) == 0 && Needed(0, 0) == 0
  {
  }

  method OutputSize(n: nat, equals: nat) returns (size: int)
    ensures size == Needed(n, equals)
  {
    size := 6 * (n / 8) + (6 * (n % 8) + 7) / 8;
    size := size - equals;
  }

  lemma OutFits(s: seq<Byte>)
    requires Form(s, 0)
    ensures 0 <= |Out(s, 0)| <= Needed(|s|, EqCount(s))
  {
    hide Out, Form, EqCount, Needed;
    OutSize(s);
  }

  /** The second pass: every accepted character enters the accumulator, every fourth one empties it. */
  method SecondPass(dst: array<Byte>, src: seq<Byte>) returns (p: nat)
    requires Form(Strip(src), 0) && |Out(Strip(src), 0)| <= dst.Length
    modifies dst
    ensures p == |Out(Strip(src), 0)| && dst[..p] == Out(Strip(src), 0) && dst[p..] == old(dst[p..])
  {
    hide Out, EqCount, Strip, Form, Number, ValueOf;
    ghost var all := Out(Strip(src), 0);
    ghost var pending, e: nat := [], 0;
    p := 0;
    var x: nat, digits: nat, equals: nat, k: nat := 0, 0, 0, 0;
    assert src[0..] == src && [] + Strip(src) == Strip(src);
    PendingNone();
    FormCharacters(Strip(src));
    while k < |src|
      invariant 0 <= k <= |src| && digits == |pending| < 4 && x < U32
      invariant equals == e + EqCount(pending) && x % Scale(digits) == Number(pending)
      invariant p <= |all| && dst[..p] == all[..p] && all[p..] == Out(pending + Strip(src[k..]), e)
      invariant dst[|all|..] == old(dst[|all|..]) && Characters(Strip(src[k..]))
    {
      StripNext(src, k);
      var c := src[k];
      k := k + 1;
      if !Blank(c) {
        ghost var rest := Strip(src[k..]);
        CharactersNext(c, rest);
        assert pending + ([c] + rest) == (pending + [c]) + rest;
        x, equals := Shift(x, digits, equals, c);
        PendingPush(pending, c);
        pending := pending + [c];
        digits := digits + 1;
        if digits == 4 {
          digits := 0;
          GroupDone(pending, rest, e);
          e := equals;
          p := Empty(dst, p, x, equals, all, Number(pending), Out(rest, e));
          pending := [];
          assert [] + rest == rest;
        }
      }
    }
    Leftover(src, pending, e);
  }

  predicate Characters(s: seq<Byte>)
  {
    forall i :: 0 <= i < |s| ==> s[i] == EQUALS || ValueOf(s[i]) >= 0
  }

  lemma FormCharacters(s: seq<Byte>)
    requires Form(s, 0)
    ensures Characters(s)
  {
    FormMeaning(s, 0);
  }

  lemma CharactersNext(c: Byte, rest: seq<Byte>)
    requires Characters([c] + rest)
    ensures (c == EQUALS || ValueOf(c) >= 0) && Characters(rest)
  {
    var s := [c] + rest;
    assert s[0] == c;
    assert forall i :: 0 <= i < |rest| ==> rest[i] == s[i + 1];
  }

  lemma PendingNone()
    ensures Number([]) == 0 && EqCount([]) == 0 && Scale(0) == 1
  {
  }

  lemma PendingPush(s: seq<Byte>, c: Byte)
    ensures Number(s + [c]) == 64 * Number(s) + Dig(c)
    ensures EqCount(s + [c]) == EqCount(s) + if c == EQUALS then 1 else 0
  {
    hide ValueOf;
    assert (s + [c])[..|s|] == s;
    EqSplit(s + [c], |s|);
    assert (s + [c])[|s|..] == [c];
    assert [c][1..] == [];
  }

  /** x << 6, then the digit in the free bits; 32-bit arithmetic drops old digits. */
  method Shift(x: nat, digits: nat, equals: nat, c: Byte) returns (x': nat, equals': nat)
    requires x < U32 && digits < 4 && (c == EQUALS || ValueOf(c) >= 0)
    ensures x' < U32 && x' % Scale(digits + 1) == 64 * (x % Scale(digits)) + Dig(c)
    ensures equals' == equals + if c == EQUALS then 1 else 0
  {
    hide DecValue, BitOr;
    DecMeaning(c);
    x', equals' := 64 * x % U32, equals;
    ghost var h := x % 0x400_0000;
    assert x' == 64 * h;
    Accumulate(x, h, digits, Dig(c));
    if c == EQUALS {
      equals' := equals' + 1;
    } else {
      FreeBits(h, Dig(c));
      x' := BitOr(x', DecValue(c));
    }
  }

  lemma FreeBits(h: nat, d: nat)
    requires d < 64
    ensures BitOr(64 * h, d) == 64 * h + d
  {
    hide *;
    PowSucc(2, 0);
    PowSucc(2, 1);
    PowSucc(2, 2);
    PowAdd(2, 3, 3);
    BitOrDisjoint(h, d, 6);
  }

  lemma Accumulate(x: nat, h: nat, digits: nat, d: nat)
    requires digits < 4 && d < 64 && h == x % 0x400_0000
    ensures (64 * h + d) % Scale(digits + 1) == 64 * (x % Scale(digits)) + d
  {
    if digits == 0 {
      AccumulateStep(x, 0x400_0000, 1, d);
    } else if digits == 1 {
      AccumulateStep(x, 0x10_0000, 0x40, d);
    } else if digits == 2 {
      AccumulateStep(x, 0x4000, 0x1000, d);
    } else {
      AccumulateStep(x, 0x100, 0x4_0000, d);
    }
  }

  lemma AccumulateStep(x: int, k: int, m: int, d: int)
    requires x >= 0 && k >= 1 && m >= 1 && k * m == 0x400_0000 && 0 <= d < 64
    ensures (64 * (x % 0x400_0000) + d) % (64 * m) == 64 * (x % m) + d
  {
    hide *;
    var q, h := x / 0x400_0000, x % 0x400_0000;
    DivMod(x, k * m);
    MulAssoc(q, k, m);
    MulCong(k * m, 0x400_0000, q);
    ModShift(x, h, q * k, m);
    var t, r := h / m, h % m;
    DivMod(h, m);
    MulAssoc(64, t, m);
    MulAssoc(t, 64, m);
    DivUnique(64 * h + d, 64 * m, t, 64 * r + d);
  }

  lemma GroupDone(group: seq<Byte>, rest: seq<Byte>, e: nat)
    requires |group| == 4
    ensures Number(group) < 0x100_0000
    ensures var g := e + EqCount(group); Out(group + rest, e) == Triple(Number(group), g) + Out(rest, g)
  {
    hide Number, EqCount;
    NumberBound(group);
    assert (group + rest)[..4] == group && (group + rest)[4..] == rest;
  }

  /** Writes the bytes of a full accumulator. */
  method Empty(dst: array<Byte>, p: nat, x: nat, equals: nat, ghost all: seq<Byte>, ghost v: nat, ghost more: seq<Byte>)
    returns (q: nat)
    requires p <= |all| <= dst.Length && dst[..p] == all[..p] && x % 0x100_0000 == v
    requires all[p..] == Triple(v, equals) + more
    modifies dst
    ensures q <= |all| && dst[..q] == all[..q] && all[q..] == more && dst[|all|..] == old(dst[|all|..])
  {
    AccumulatorBytes(x);
    ghost var t := Triple(v, equals);
    assert forall i :: 0 <= i < |t| ==> all[p + i] == all[p..][i] == t[i];
    q := p;
    dst[q] := x / 0x1_0000 % 256;
    q := q + 1;
    if equals <= 1 {
      dst[q] := x / 0x100 % 256;
      q := q + 1;
    }
    if equals <= 0 {
      dst[q] := x % 256;
      q := q + 1;
    }
    assert all[q..] == all[p..][|t|..];
  }

  lemma AccumulatorBytes(x: nat)
    ensures var v := x % 0x100_0000;
      x / 0x1_0000 % 256 == v / 0x1_0000 && x / 0x100 % 256 == v / 0x100 % 256 && x % 256 == v % 256
  {
    var v, h := x % 0x100_0000, x / 0x100_0000;
    assert x == 0x100_0000 * h + v;
    DivUnique(x, 0x1_0000, 0x100 * h + v / 0x1_0000, v % 0x1_0000);
    DivUnique(x, 0x100, 0x1_0000 * h + v / 0x100, v % 0x100);
    ModShift(0x100 * h + v / 0x1_0000, v / 0x1_0000, h, 256);
    ModShift(0x1_0000 * h + v / 0x100, v / 0x100, 0x100 * h, 256);
    ModShift(x, v, 0x1_0000 * h, 256);
    ModSmall(v / 0x1_0000, 256);
  }

  lemma Leftover(src: seq<Byte>, pending: seq<Byte>, e: nat)
    requires |pending| < 4
    ensures Out(pending + Strip(src[|src|..]), e) == []
  {
    assert Strip(src[|src|..]) == [];
  }

  // ---------------------------------------------------------------- round trip

  lemma AlphabetFacts(v: nat)
    requires v < 64
    ensures ValueOf(Alphabet(v)) == v && Dig(Alphabet(v)) == v && !Blank(Alphabet(v)) && Alphabet(v) != EQUALS
  {
  }

  lemma FourDigits(w: Byte, x: Byte, y: Byte, z: Byte)
    ensures Number([w, x, y, z]) == 0x4_0000 * Dig(w) + 0x1000 * Dig(x) + 0x40 * Dig(y) + Dig(z)
  {
    hide Dig;
    var (a, b, c, d) := ([w], [w, x], [w, x, y], [w, x, y, z]);
    assert a[..0] == [] && b[..1] == a && c[..2] == b && d[..3] == c;
    assert Number(a) == Dig(w);
    assert Number(b) == 64 * Dig(w) + Dig(x);
    assert Number(c) == 64 * Number(b) + Dig(y);
  }

  /** Four characters, digits or equals signs as the flags say, in front of a text of the right form. */
  lemma GroupForm(w: Byte, x: Byte, y: Byte, z: Byte, rest: seq<Byte>)
    requires ValueOf(w) >= 0 && ValueOf(x) >= 0
    requires (ValueOf(y) >= 0 || y == z == EQUALS) && (ValueOf(z) >= 0 || z == EQUALS)
    requires if z == EQUALS then rest == [] else Form(rest, 0)
    ensures Form([w, x, y, z] + rest, 0)
    ensures EqCount([w, x, y, z]) == (if y == EQUALS then 1 else 0) + (if z == EQUALS then 1 else 0)
  {
    NotADigit();
    hide ValueOf, Form, EqCount;
    var e := if y == EQUALS then 1 else 0;
    NothingLeft([]);
    FormNext(z, rest, e);
    FormNext(z, [], 0);
    FormNext(y, [z] + rest, 0);
    FormNext(y, [z], 0);
    FormNext(x, [y, z] + rest, 0);
    FormNext(x, [y, z], 0);
    FormNext(w, [x, y, z] + rest, 0);
    FormNext(w, [x, y, z], 0);
    assert [z] + [] == [z] && [y] + [z] == [y, z] && [x] + [y, z] == [x, y, z] && [w] + [x, y, z] == [w, x, y, z];
    assert [y] + ([z] + rest) == [y, z] + rest && [x] + ([y, z] + rest) == [x, y, z] + rest;
    assert [w] + ([x, y, z] + rest) == [w, x, y, z] + rest;
  }

  /** Three bytes through their four digits and back. */
  lemma QuadBack(a: Byte, b: Byte, c: Byte)
    ensures var q := Quad(a, b, c);
      && Dig(q[0]) == a / 4 && Dig(q[1]) == a % 4 * 16 + b / 16
      && Dig(q[2]) == b % 16 * 4 + c / 64 && Dig(q[3]) == c % 64
      && (forall i :: 0 <= i < 4 ==> ValueOf(q[i]) >= 0 && !Blank(q[i]) && q[i] != EQUALS)
  {
    hide Alphabet, ValueOf, Dig;
    AlphabetFacts(a / 4);
    AlphabetFacts(a % 4 * 16 + b / 16);
    AlphabetFacts(b % 16 * 4 + c / 64);
    AlphabetFacts(c % 64);
  }

  lemma SixBits(a: Byte, b: Byte, c: Byte)
    ensures 0x4_0000 * (a / 4) + 0x1000 * (a % 4 * 16 + b / 16) + 0x40 * (b % 16 * 4 + c / 64) + c % 64
      == 0x1_0000 * a as int + 0x100 * b as int + c
  {
  }

  lemma TripleBack(a: Byte, b: Byte, c: Byte, e: nat)
    requires e <= 2
    ensures var x: int := 0x1_0000 * a as int + 0x100 * b as int + c;
      x < 0x100_0000 && Triple(x, e) == [a, b, c][..3 - e]
  {
    var x: int, m: int := 0x1_0000 * a as int + 0x100 * b as int + c, 0x100 * a as int + b;
    DivUnique(x, 0x1_0000, a, 0x100 * b as int + c);
    DivUnique(x, 0x100, m, c);
    DivUnique(m, 0x100, a, b);
    ByteTriple(x, e, a, b, c);
  }

  lemma ByteTriple(x: nat, e: nat, a: Byte, b: Byte, c: Byte)
    requires x < 0x100_0000 && x / 0x1_0000 == a && x / 0x100 % 256 == b && x % 256 == c && e <= 2
    ensures Triple(x, e) == [a, b, c][..3 - e]
  {
  }

  lemma QuadForm(a: Byte, b: Byte, c: Byte, rest: seq<Byte>)
    requires Form(rest, 0)
    ensures Form(Quad(a, b, c) + rest, 0) && Out(Quad(a, b, c) + rest, 0) == [a, b, c] + Out(rest, 0)
  {
    hide ValueOf, Number, Triple, Form, EqCount, Out;
    var q := Quad(a, b, c);
    QuadBack(a, b, c);
    FourDigits(q[0], q[1], q[2], q[3]);
    SixBits(a, b, c);
    TripleBack(a, b, c, 0);
    GroupForm(q[0], q[1], q[2], q[3], rest);
    assert q == [q[0], q[1], q[2], q[3]];
    GroupDone(q, rest, 0);
  }

  /** One or two last bytes. */
  lemma LastQuad(s: seq<Byte>)
    requires 1 <= |s| <= 2
    ensures Form(Encoded(s), 0) && Out(Encoded(s), 0) == s && forall i :: 0 <= i < 4 ==> !Blank(Encoded(s)[i])
  {
    hide *;
    var (a, b) := (s[0], if |s| == 2 then s[1] else 0);
    var (q, e) := (Quad(a, b, 0), 3 - |s|);
    var r := [q[0], q[1], if e == 2 then EQUALS else q[2], EQUALS];
    EncodedLast(s);
    LastDigits(a, b, e);
    TripleBack(a, b, 0, e);
    assert r + [] == r;
    GroupDone(r, [], 0);
    OutStep([], e);
  }

  lemma EncodedLast(s: seq<Byte>)
    requires 1 <= |s| <= 2
    ensures var q := Quad(s[0], if |s| == 2 then s[1] else 0, 0);
      Encoded(s) == [q[0], q[1], if |s| == 1 then EQUALS else q[2], EQUALS]
  {
    hide Quad;
  }

  lemma LastDigits(a: Byte, b: Byte, e: nat)
    requires e == 1 || (e == 2 && b == 0)
    ensures var q := Quad(a, b, 0);
      var r := [q[0], q[1], if e == 2 then EQUALS else q[2], EQUALS];
      && Form(r, 0) && EqCount(r) == e && Number(r) == 0x1_0000 * a as int + 0x100 * b as int
      && forall i :: 0 <= i < 4 ==> !Blank(r[i])
  {
    NotADigit();
    hide ValueOf, Number, Form, EqCount, Quad;
    var q := Quad(a, b, 0);
    var y := if e == 2 then EQUALS else q[2];
    QuadBack(a, b, 0);
    FourDigits(q[0], q[1], y, EQUALS);
    SixBits(a, b, 0);
    GroupForm(q[0], q[1], y, EQUALS, []);
    assert [q[0], q[1], y, EQUALS] + [] == [q[0], q[1], y, EQUALS];
  }

  lemma {:induction false} EncodedForm(s: seq<Byte>)
    ensures Form(Encoded(s), 0) && forall i :: 0 <= i < |Encoded(s)| ==> !Blank(Encoded(s)[i])
    ensures Out(Encoded(s), 0) == s
  {
    hide Quad, ValueOf, Number, Triple, Form, Out;
    NothingLeft([]);
    OutStep([], 0);
    if 1 <= |s| <= 2 {
      LastQuad(s);
    } else if |s| > 2 {
      EncodedForm(s[3..]);
      QuadForm(s[0], s[1], s[2], Encoded(s[3..]));
      QuadBack(s[0], s[1], s[2]);
      assert s == [s[0], s[1], s[2]] + s[3..];
    }
  }

  lemma {:induction false} StripNothing(s: seq<Byte>)
    requires forall i :: 0 <= i < |s| ==> !Blank(s[i])
    ensures Strip(s) == s
  {
    if s != [] {
      StripNothing(s[1..]);
    }
  }

  /** Decoding an encoded text: accepted, of the size the first pass computes, and the original bytes. */
  lemma DecodeEncode(s: seq<Byte>)
    ensures Acceptable(Encoded(s)) && Out(Strip(Encoded(s)), 0) == s
    ensures var t := Strip(Encoded(s)); Needed(|t|, EqCount(t)) == |s|
  {
    hide Encoded, Form, Out, EqCount, Needed;
    EncodedForm(s);
    StripNothing(Encoded(s));
    OutSize(Encoded(s));
    FormMeaning(Encoded(s), 0);
  }

  /** The two calls one after the other, given room for the text and for the bytes. */
  method RoundTrip(src: seq<Byte>) returns (ret: int, back: seq<Byte>)
    requires |Encoded(src)| < SIZE_MAX
    ensures ret == 0 && back == src
  {
    hide Acceptable, Encoded, Out, Strip, EqCount, Needed;
    var text := new Byte[4 * ((|src| + 2) / 3) + 1](i => 0);
    var olen;
    ret, olen := Encode(text, src);
    DecodeEncode(src);
    var bytes := new Byte[|src|](i => 0);
    ret, olen := Decode(bytes, text[..olen]);
    back := bytes[..olen];
  }
}
