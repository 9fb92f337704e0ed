/** What an operation does when earlier ones have left state behind. */
module CcmStale {
  import opened Arith
  import opened Blocks
  import opened CcmSpec

  predicate LengthsOk(adLen: nat, tagLen: nat)
  {
    adLen < 0xff00 && tagLen <= 16 && tagLen != 2 && tagLen % 2 == 0
  }

  /** The parts of a context that an operation does not overwrite when it starts. */
  datatype Stale = Stale(y: Block, lengthsSet: bool, adLen: nat, msgLen: nat, tagLen: nat, adStarted: bool,
                         adFinished: bool, error: bool)
  {
    predicate Clear()
    {
      y == Zeros(16) && !lengthsSet && !adStarted && !adFinished && !error
    }
  }

  /** y after the nonce has been copied in. */
  function NonceIn(y: Block, iv: seq<Byte>): Block
    requires |iv| <= 13
  {
    [y[0]] + iv + y[1 + |iv|..]
  }

  /** The start of a MAC whose first block is formed in y; once data has started the header is left out. */
  function OriginAt(E: Cipher, y: Block, p: Params, adStarted: bool): Origin
    requires p.Valid()
  {
    Origin(E(FirstFrom(y, p)), if adStarted then 0 else p.adLen / 256, if adStarted then 0 else p.adLen % 256)
  }

  /** An acceptable operation is refused: by an old error, by old lengths, or by finished data. */
  ghost predicate Refuses(s: Stale, mode: Mode, iv: seq<Byte>, ad: seq<Byte>)
  {
    s.error || (s.lengthsSet && !Acceptable(mode, iv, s.adLen, s.msgLen, s.tagLen)) || (ad != [] && s.adFinished)
  }

  /** Where its MAC starts otherwise: with old lengths a first block is enciphered before its own. */
  ghost function OriginFrom(E: Cipher, s: Stale, mode: Mode, p: Params): Origin
    requires p.Valid() && (s.lengthsSet ==> Acceptable(mode, p.nonce, s.adLen, s.msgLen, s.tagLen))
  {
    var y := NonceIn(s.y, p.nonce);
    var z := if s.lengthsSet then E(FirstFrom(y, Settled(p.nonce, s.adLen, s.msgLen, s.tagLen))) else y;
    OriginAt(E, z, p, s.adStarted)
  }

  /** From a clear context the MAC starts as the standard has it. */
  lemma ClearIsStandard(E: Cipher, y: Block, p: Params)
    requires p.Valid() && y == Zeros(16)
    ensures OriginAt(E, NonceIn(y, p.nonce), p, false) == Standard(E, p)
  {
    hide Flags, BigEndian, Pow;
    assert NonceIn(y, p.nonce)[1..16 - p.Q()] == p.nonce;
  }

  lemma OriginSteps(E: Cipher, s: Stale, mode: Mode, p: Params, y: Block)
    requires p.Valid() && (s.lengthsSet ==> Acceptable(mode, p.nonce, s.adLen, s.msgLen, s.tagLen))
    requires y == if s.lengthsSet
      then OriginAt(E, NonceIn(s.y, p.nonce), Settled(p.nonce, s.adLen, s.msgLen, s.tagLen), s.adStarted).start
      else NonceIn(s.y, p.nonce)
    ensures OriginFrom(E, s, mode, p) == OriginAt(E, y, p, s.adStarted)
  {
    hide FirstFrom, NonceIn, Pow;
  }

  // ---------------------------------------------------------------- exactly when nothing left behind matters

  /** The first byte of the first block, from what y[0] holds. */
  function FirstByte(b: Byte, p: Params): Byte
    requires p.Valid()
  {
    FlagsByte(b, p.adLen, p.tagLen, p.Q());
    Flags(b, p.adLen, p.tagLen, p.Q())
  }

  /**
   Without a tag only refusals matter. With a tag there must be no old lengths, y[0] may hold flag
   bits of the new operation only, and associated data must not have started.
   */
  ghost predicate Harmless(s: Stale, mode: Mode, p: Params, ad: seq<Byte>)
    requires p.Valid()
  {
    && !Refuses(s, mode, p.nonce, ad)
    && (p.tagLen > 0 ==> !s.lengthsSet && FirstByte(s.y[0], p) == FirstByte(0, p) && (ad == [] || !s.adStarted))
  }

  /** The operation's tag under a cipher. */
  ghost function StaleTag(E: Cipher, s: Stale, mode: Mode, p: Params, ad: seq<Byte>, msg: seq<Byte>): seq<Byte>
    requires p.Valid() && !Refuses(s, mode, p.nonce, ad)
  {
    TagFrom(E, p.nonce, OriginFrom(E, s, mode, p), p.msgLen, ad, msg, p.tagLen)
  }

  /**
   Whatever earlier operations have left behind, an acceptable operation is accepted and makes the
   standard's tag under every cipher if and only if what they left is harmless to it.
   */
  lemma StaleExact(s: Stale, mode: Mode, p: Params, ad: seq<Byte>, msg: seq<Byte>)
    requires p.Valid() && |ad| == p.adLen
    ensures Harmless(s, mode, p, ad) <==>
      && !Refuses(s, mode, p.nonce, ad)
      && forall E: Cipher, D: Cipher | Inverse(E, D) :: StaleTag(E, s, mode, p, ad, msg) == Tag(E, p, ad, msg)
  {
    hide StaleTag, Tag, FirstByte, Refuses, Pow;
    if Harmless(s, mode, p, ad) {
      forall E: Cipher, D: Cipher | Inverse(E, D)
        ensures StaleTag(E, s, mode, p, ad, msg) == Tag(E, p, ad, msg)
      {
        HarmlessTag(E, s, mode, p, ad, msg);
      }
    } else if !Refuses(s, mode, p.nonce, ad) {
      var E := SpottingCipher(s, mode, p, ad, msg);
    }
  }

  /** In particular a clear context is harmless to every operation. */
  lemma ClearIsHarmless(s: Stale, mode: Mode, p: Params, ad: seq<Byte>)
    requires p.Valid() && s.Clear()
    ensures Harmless(s, mode, p, ad)
  {
    hide Flags, Pow;
  }

  lemma HarmlessTag(E: Cipher, s: Stale, mode: Mode, p: Params, ad: seq<Byte>, msg: seq<Byte>)
    requires p.Valid() && Harmless(s, mode, p, ad) && |ad| == p.adLen
    ensures StaleTag(E, s, mode, p, ad, msg) == Tag(E, p, ad, msg)
  {
    hide Pow, MacState, XorAt, BigEndian, Flags, CtrBlock;
    if p.tagLen > 0 {
      var o, o' := OriginFrom(E, s, mode, p), Standard(E, p);
      FirstFromNonce(s.y, p);
      if ad == [] {
        HeaderUnused(E, o, o', p.msgLen, msg);
      }
    }
  }

  lemma FirstFromNonce(y: Block, p: Params)
    requires p.Valid()
    ensures FirstFrom(NonceIn(y, p.nonce), p) == [FirstByte(y[0], p)] + p.nonce + BigEndian(p.msgLen, p.Q())
    ensures FirstBlock(p) == [FirstByte(0, p)] + p.nonce + BigEndian(p.msgLen, p.Q())
  {
    hide Pow, Flags, BigEndian;
    assert NonceIn(y, p.nonce)[1..16 - p.Q()] == p.nonce;
  }

  lemma HeaderUnused(E: Cipher, o: Origin, o': Origin, msgLen: nat, msg: seq<Byte>)
    requires o.start == o'.start
    ensures MacState(E, o, msgLen, [], msg) == MacState(E, o', msgLen, [], msg)
  {
    hide Absorb;
  }

  // ---------------------------------------------------------------- a cipher that shows the difference

  /** An involution that changes the second byte of the blocks that start with c. */
  function Spot(c: Byte, v: Byte): Cipher
  {
    (x: Block) => if x[0] == c then x[1 := Xor(x[1], v)] else x
  }

  lemma SpotInvolution(c: Byte, v: Byte)
    ensures Inverse(Spot(c, v), Spot(c, v))
  {
    hide Xor;
    forall x: Block
      ensures Spot(c, v)(Spot(c, v)(x)) == x
    {
      XorCancel(x[1], v);
    }
  }

  predicate Same(a: Block, b: Block)
  {
    a[0] == b[0] && a[1] == b[1]
  }

  lemma SpotKeeps(c: Byte, v: Byte, a: Block, b: Block)
    ensures Same(Spot(c, v)(a), Spot(c, v)(b)) <==> Same(a, b)
  {
    hide Xor;
    XorInjective(a[1], b[1], v);
  }

  lemma XorAtKeeps(a: Block, b: Block, off: nat, s: seq<Byte>)
    requires off + |s| <= 16
    ensures Same(XorAt(a, off, s), XorAt(b, off, s)) <==> Same(a, b)
  {
    hide Xor;
    if off == 0 && |s| > 0 {
      XorInjective(a[0], b[0], s[0]);
    }
    if off <= 1 < off + |s| {
      XorInjective(a[1], b[1], s[1 - off]);
    }
  }

  lemma {:induction false} AbsorbKeeps(c: Byte, v: Byte, a: Block, b: Block, h: seq<Byte>, g: seq<Byte>, s: seq<Byte>)
    requires |h| == |g|
    ensures var E := Spot(c, v);
      Same(Absorb(E, a, h + s), Absorb(E, b, g + s)) <==> Same(Absorb(E, a, h), Absorb(E, b, g))
  {
    hide Absorb, XorAt, Spot, Same;
    var E := Spot(c, v);
    if s == [] {
      assert h + s == h && g + s == g;
    } else {
      var n := |s| - 1;
      var t, x := s[..n], s[n];
      AbsorbKeeps(c, v, a, b, h, g, t);
      assert h + s == (h + t) + [x] && g + s == (g + t) + [x];
      AbsorbStep(E, a, h + t, x);
      AbsorbStep(E, b, g + t, x);
      FeedKeeps(c, v, Absorb(E, a, h + t), Absorb(E, b, g + t), |h + t|, x);
    }
  }

  lemma FeedKeeps(c: Byte, v: Byte, a: Block, b: Block, pos: nat, x: Byte)
    ensures Same(Feed(Spot(c, v), a, pos, x), Feed(Spot(c, v), b, pos, x)) <==> Same(a, b)
  {
    hide XorAt, Spot, Same;
    var off := pos % 16;
    XorAtKeeps(a, b, off, [x]);
    SpotKeeps(c, v, XorAt(a, off, [x]), XorAt(b, off, [x]));
  }

  lemma CloseKeeps(c: Byte, v: Byte, a: Block, b: Block, n: nat)
    ensures Same(Close(Spot(c, v), a, n), Close(Spot(c, v), b, n)) <==> Same(a, b)
  {
    hide Spot, Same;
    SpotKeeps(c, v, a, b);
  }

  /** What is xored into the start before data arrives. */
  function Lead(o: Origin, ad: seq<Byte>): seq<Byte>
  {
    if ad == [] then [0, 0] else o.Header()
  }

  lemma MacKeeps(c: Byte, v: Byte, o: Origin, o': Origin, msgLen: nat, ad: seq<Byte>, msg: seq<Byte>)
    ensures var E := Spot(c, v);
      Same(MacState(E, o, msgLen, ad, msg), MacState(E, o', msgLen, ad, msg))
      <==> Same(XorAt(o.start, 0, Lead(o, ad)), XorAt(o'.start, 0, Lead(o', ad)))
  {
    hide Absorb, XorAt, Spot, Same, Close;
    var E := Spot(c, v);
    var (a, b) := (AfterAd(E, o, ad), AfterAd(E, o', ad));
    if ad == [] {
      XorAtKeeps(o.start, o'.start, 0, [0, 0]);
    } else {
      AbsorbKeeps(c, v, o.start, o'.start, o.Header(), o'.Header(), ad);
      CloseKeeps(c, v, AdState(E, o, ad), AdState(E, o', ad), |ad| + 2);
      HeaderStep(E, o);
      HeaderStep(E, o');
      assert o.Header() + [] == o.Header() && o'.Header() + [] == o'.Header();
    }
    AbsorbKeeps(c, v, a, b, [], [], msg);
    assert [] + msg == msg;
    AbsorbNothing(E, a);
    AbsorbNothing(E, b);
    CloseKeeps(c, v, Absorb(E, a, msg), Absorb(E, b, msg), |msg|);
  }

  lemma AbsorbNothing(E: Cipher, y: Block)
    ensures Absorb(E, y, []) == y
  {
  }

  lemma TagKeeps(E: Cipher, nonce: seq<Byte>, o: Origin, o': Origin, msgLen: nat, ad: seq<Byte>, msg: seq<Byte>, n: nat)
    requires 7 <= |nonce| <= 13 && 2 <= n <= 16
    requires TagFrom(E, nonce, o, msgLen, ad, msg, n) == TagFrom(E, nonce, o', msgLen, ad, msg, n)
    ensures Same(MacState(E, o, msgLen, ad, msg), MacState(E, o', msgLen, ad, msg))
  {
    hide MacState, Xor, CtrBlock;
    var mask := E(CtrBlock(nonce, 0));
    var t, t' := TagFrom(E, nonce, o, msgLen, ad, msg, n), TagFrom(E, nonce, o', msgLen, ad, msg, n);
    var (a, b) := (MacState(E, o, msgLen, ad, msg), MacState(E, o', msgLen, ad, msg));
    assert t[0] == Xor(a[0], mask[0]) && t'[0] == Xor(b[0], mask[0]);
    assert t[1] == Xor(a[1], mask[1]) && t'[1] == Xor(b[1], mask[1]);
    XorInjective(a[0], b[0], mask[0]);
    XorInjective(a[1], b[1], mask[1]);
  }

  /** Some change of the second byte is not undone by the header. */
  lemma PickChange(x: Byte, a: Byte, b: Byte) returns (v: Byte)
    ensures Xor(Xor(x, v), a) != b
  {
    hide Xor;
    v := if Xor(Xor(x, 1), a) != b then 1 else 2;
    XorInjective(Xor(x, 1), Xor(x, 2), a);
    XorInjective(1, 2, x);
  }

  /** The second byte of a block that starts with f, through the cipher. */
  function Changed(c: Byte, v: Byte, f: Byte, x: Byte): Byte
  {
    if f == c then Xor(x, v) else x
  }

  /** The first two bytes of the start, and of the start of the standard. */
  lemma StartBytes(c: Byte, v: Byte, s: Stale, mode: Mode, p: Params, ad: seq<Byte>)
    requires p.Valid() && !Refuses(s, mode, p.nonce, ad)
    ensures var (E, x) := (Spot(c, v), p.nonce[0]);
      var (o, o') := (OriginFrom(E, s, mode, p), Standard(E, p));
      && o'.start[0] == FirstByte(0, p) && o'.start[1] == Changed(c, v, FirstByte(0, p), x)
      && (!s.lengthsSet ==>
            var f := FirstByte(s.y[0], p); o.start[0] == f && o.start[1] == Changed(c, v, f, x))
      && (s.lengthsSet ==>
            var g := FirstByte(s.y[0], Settled(p.nonce, s.adLen, s.msgLen, s.tagLen));
            var f := FirstByte(g, p);
            o.start[0] == f && o.start[1] == Changed(c, v, f, Changed(c, v, g, x)))
  {
    hide Xor, Flags, BigEndian, Pow, FirstFrom, FirstBlock;
    var E := Spot(c, v);
    FirstFromNonce(s.y, p);
    if s.lengthsSet {
      var q := Settled(p.nonce, s.adLen, s.msgLen, s.tagLen);
      FirstFromNonce(s.y, q);
      var z := E(FirstFrom(NonceIn(s.y, p.nonce), q));
      FirstFromBytes(z, p);
    }
  }

  lemma FirstFromBytes(y: Block, p: Params)
    requires p.Valid()
    ensures FirstFrom(y, p)[0] == FirstByte(y[0], p) && FirstFrom(y, p)[1] == y[1]
  {
    hide Flags, BigEndian, Pow;
  }

  lemma LeadBytes(E: Cipher, s: Stale, mode: Mode, p: Params, ad: seq<Byte>)
    requires p.Valid() && |ad| == p.adLen && !Refuses(s, mode, p.nonce, ad)
    ensures Lead(OriginFrom(E, s, mode, p), ad) ==
      if ad == [] || s.adStarted then [0, 0] else [p.adLen / 256, p.adLen % 256]
    ensures Lead(Standard(E, p), ad) == if ad == [] then [0, 0] else [p.adLen / 256, p.adLen % 256]
  {
    hide Pow, FirstFrom, FirstBlock;
  }

  /** The first two bytes once a header is in. */
  lemma LedBytes(z: Block, h: seq<Byte>)
    requires |h| == 2
    ensures XorAt(z, 0, h)[0] == Xor(z[0], h[0]) && XorAt(z, 0, h)[1] == Xor(z[1], h[1])
  {
    hide Xor;
  }

  /** Which first byte to look for, and what change to make, from the bytes f, g and h that first blocks start with. */
  lemma PickFor(lengthsSet: bool, g: Byte, f: Byte, h: Byte, x: Byte, a1: Byte, b1: Byte) returns (c: Byte, v: Byte)
    requires lengthsSet || f != h
    ensures Xor(Changed(c, v, f, if lengthsSet then Changed(c, v, g, x) else x), a1) != Xor(Changed(c, v, h, x), b1)
  {
    hide Xor;
    if (if lengthsSet then g == h && f != h else f != h) {
      v := PickChange(x, a1, Xor(x, b1));
      c := f;
    } else if g != h && f == h {
      v := PickChange(x, a1, Xor(x, b1));
      c := g;
    } else {
      v := PickChange(x, b1, Xor(x, a1));
      c := h;
      XorCancel(x, v);
    }
  }

  lemma PickSpot(s: Stale, mode: Mode, p: Params, ad: seq<Byte>) returns (c: Byte, v: Byte)
    requires p.Valid() && |ad| == p.adLen && !Refuses(s, mode, p.nonce, ad) && !Harmless(s, mode, p, ad)
    ensures var (o, o') := (OriginFrom(Spot(c, v), s, mode, p), Standard(Spot(c, v), p));
      && |Lead(o, ad)| == 2 && |Lead(o', ad)| == 2
      && !Same(XorAt(o.start, 0, Lead(o, ad)), XorAt(o'.start, 0, Lead(o', ad)))
  {
    hide Xor, Pow, XorAt, OriginFrom, Standard, Spot, FirstByte, Lead;
    var x, h := p.nonce[0], FirstByte(0, p);
    var g := if s.lengthsSet then FirstByte(s.y[0], Settled(p.nonce, s.adLen, s.msgLen, s.tagLen)) else s.y[0];
    var f := FirstByte(g, p);
    var hi, lo := p.adLen / 256, p.adLen % 256;
    var a := if ad == [] || s.adStarted then [0, 0] else [hi, lo];
    var b := if ad == [] then [0, 0] else [hi, lo];
    if s.lengthsSet || f != h {
      c, v := PickFor(s.lengthsSet, g, f, h, x, a[1], b[1]);
    } else {
      c, v := 0, 0;
      XorZero(x);
      XorInjective(a[0], b[0], f);
      XorInjective(a[1], b[1], x);
    }
    StartBytes(c, v, s, mode, p, ad);
    LeadBytes(Spot(c, v), s, mode, p, ad);
    LedBytes(OriginFrom(Spot(c, v), s, mode, p).start, a);
    LedBytes(Standard(Spot(c, v), p).start, b);
  }

  lemma SpottingCipher(s: Stale, mode: Mode, p: Params, ad: seq<Byte>, msg: seq<Byte>) returns (E: Cipher)
    requires p.Valid() && |ad| == p.adLen && !Refuses(s, mode, p.nonce, ad) && !Harmless(s, mode, p, ad)
    ensures Inverse(E, E) && StaleTag(E, s, mode, p, ad, msg) != Tag(E, p, ad, msg)
  {
    hide Xor, Pow, TagFrom, MacState, XorAt, OriginFrom, Standard, Spot, FirstByte;
    var c, v := PickSpot(s, mode, p, ad);
    E := Spot(c, v);
    SpotInvolution(c, v);
    var (o, o') := (OriginFrom(E, s, mode, p), Standard(E, p));
    MacKeeps(c, v, o, o', p.msgLen, ad, msg);
    if StaleTag(E, s, mode, p, ad, msg) == Tag(E, p, ad, msg) {
      TagKeeps(E, p.nonce, o, o', p.msgLen, ad, msg, p.tagLen);
    }
  }
}
