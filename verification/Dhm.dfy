/** Diffie-Hellman with blinding: a context whose blinding pair is refreshed on every use. */
module DhmBlinding {
  import opened Arith
  import opened Limbs
  import opened Mpis
  import opened MpiBits
  import opened MpiDiv
  import opened ExpMod
  import opened GcdInv
  import Blocks
  import MpiBytes

  /** What the random source delivers: a number, or a failure that leaves junk in the target. */
  datatype Draw = Drawn(v: Mpi) | Failed(junk: Mpi)

  /** vi^x * vf == 1 modulo p: blinding with vi and unblinding with vf cancel out. */
  predicate Blinds(vi: int, vf: int, x: nat, p: int)
    requires p > 0
  {
    (Pow(vi, x) * vf) % p == 1 % p
  }

  lemma BlindsReset(x: nat, p: int)
    requires p > 0
    ensures Blinds(1, 1, x, p)
  {
    PowOne(x);
  }

  /** Squaring both values keeps them paired. */
  lemma BlindsSquare(vi: int, vf: int, x: nat, p: int)
    requires p > 0 && Blinds(vi, vf, x, p)
    ensures Blinds((vi * vi) % p, (vf * vf) % p, x, p)
  {
    hide Pow;
    ModMod(vi * vi, p);
    ModMod(vf * vf, p);
    ModPow((vi * vi) % p, vi * vi, x, p);
    PowMulBase(vi, vi, x);
    ModMul2(Pow((vi * vi) % p, x), Pow(vi, x) * Pow(vi, x), (vf * vf) % p, vf * vf, p);
    MulSwap(Pow(vi, x), Pow(vi, x), vf, vf);
    ModMul2(Pow(vi, x) * vf, 1, Pow(vi, x) * vf, 1, p);
  }

  /** The fresh pair: u inverts vi, so its x-th power unblinds. */
  lemma BlindsFresh(vi: int, u: int, x: nat, p: int)
    requires p > 1 && (vi * u) % p == 1
    ensures Blinds(vi, Pow(u, x) % p, x, p)
  {
    hide Pow;
    ModSmall(1, p);
    ModPow(vi * u, 1, x, p);
    PowMulBase(vi, u, x);
    PowOne(x);
    ModMod(Pow(u, x), p);
    ModMul(Pow(u, x) % p, Pow(u, x), Pow(vi, x), p);
    assert Pow(u, x) % p * Pow(vi, x) == Pow(vi, x) * (Pow(u, x) % p);
    assert Pow(u, x) * Pow(vi, x) == Pow(vi, x) * Pow(u, x);
  }

  /** What a pair leaves in the secret: vi^x * vf. */
  function Factor(vi: int, vf: int, x: nat): int
  {
    Pow(vi, x) * vf
  }

  /** Blind, exponentiate, unblind: with any pair the result is gy^x times the pair's factor. */
  lemma BlindedResult(k: int, vf: int, gy: int, vi: int, x: nat, p: int)
    requires p > 0 && k % p == Pow((gy * vi) % p, x) % p
    ensures (k * vf) % p == (Pow(gy, x) * Factor(vi, vf, x)) % p
  {
    hide Pow;
    var b := (gy * vi) % p;
    ModMod(gy * vi, p);
    ModPow(b, gy * vi, x, p);
    PowMulBase(gy, vi, x);
    ModMod(Pow(b, x), p);
    ModMul(k, Pow(gy, x) * Pow(vi, x), vf, p);
    MulAssoc(Pow(gy, x), Pow(vi, x), vf);
  }

  /** A pair that blinds is invisible in the result. */
  lemma Transparent(gy: int, vi: int, vf: int, x: nat, p: int)
    requires p > 0 && Blinds(vi, vf, x, p)
    ensures (Pow(gy, x) * Factor(vi, vf, x)) % p == Pow(gy, x) % p
  {
    hide Pow;
    var f, g := Factor(vi, vf, x), Pow(gy, x);
    ModMul(f, 1, g, p);
    assert f * g == g * f;
  }

  /** Squaring the pair squares its factor. */
  lemma FactorSquare(gy: int, vi: int, vf: int, x: nat, p: int)
    requires p > 0
    ensures var f := Factor(vi, vf, x);
      (Pow(gy, x) * Factor((vi * vi) % p, (vf * vf) % p, x)) % p == (Pow(gy, x) * (f * f)) % p
  {
    hide Pow;
    var u, w, g := (vi * vi) % p, (vf * vf) % p, Pow(gy, x);
    var f := Factor(vi, vf, x);
    ModMod(vi * vi, p);
    ModMod(vf * vf, p);
    ModPow(u, vi * vi, x, p);
    PowMulBase(vi, vi, x);
    ModMul2(Pow(u, x), Pow(vi, x) * Pow(vi, x), w, vf * vf, p);
    MulSwap(Pow(vi, x), Pow(vi, x), vf, vf);
    ModMul(Pow(u, x) * w, f * f, g, p);
    assert Pow(u, x) * w * g == g * (Pow(u, x) * w) && f * f * g == g * (f * f);
  }

  // ---------------------------------------------------------------- the state machine

  /** The remembered exponent and the blinding pair. */
  datatype Pair = Pair(px: int, vi: int, vf: int)

  /** What the random source delivers, as numbers. */
  datatype Luck = Got(v: int) | Lost(junk: int)

  /**
   One call of dhm_update_blinding, failures included: a reset on a new exponent, squares, or a
   fresh pair. A failure leaves what the fresh pair had come to: junk or a new vi beside the old vf,
   or beside a vf that is not finished.
   */
  ghost predicate Updated(s: Pair, x: int, d1: Luck, d2: Luck, p: int, s': Pair, ret: Ret)
    requires p > 1
  {
    if x != s.px then
      s' == Pair(x, 1, 1) && ret == Ok
    else if s.vi != 1 then
      s' == Pair(x, (s.vi * s.vi) % p, (s.vf * s.vf) % p) && ret == Ok
    else
      Refreshed(s, x, d1, d2, p, s', ret)
  }

  ghost predicate Refreshed(s: Pair, x: int, d1: Luck, d2: Luck, p: int, s': Pair, ret: Ret)
    requires p > 1
  {
    s'.px == x &&
    match d1
    case Lost(j) => s'.vi == (if p <= 3 then s.vi else j) && s'.vf == s.vf && ret != Ok
    case Got(v) =>
      s'.vi == v &&
      match d2
      case Lost(_) => s'.vf == s.vf && ret == NotAcceptable
      case Got(r) => Paired(v, r, x, p, s'.vf, ret)
  }

  /** The unblinding value for vi == v: not invertible, not exponentiated, or finished. */
  ghost predicate Paired(v: int, r: int, x: int, p: int, vf: int, ret: Ret)
    requires p > 1
  {
    && 0 <= vf < p
    && if !IsGcd(1, (v * r) % p, p) then vf == (v * r) % p && ret == NotAcceptable
       else if Refused(x, p) then (v * vf) % p == 1 && ret == BadInputData
       else Blinds(v, vf, x, p) && ret == Ok
  }

  /** One call of mbedtls_dhm_calc_secret that ends in state s' with return code ret and K == k. */
  ghost predicate Called(s: Pair, t: Task, p: int, s': Pair, ret: Ret, k: int)
    requires p > 1
  {
    if !t.InRange(p) then s' == s && ret == BadInputData
    else exists u: Ret ::
      && Updated(s, t.x, t.d1, t.d2, p, s', u)
      && ret == (if u != Ok then u else if Refused(t.x, p) then BadInputData else Ok)
      && (ret == Ok ==> k == (Pow(t.gy, t.x) * Factor(s'.vi, s'.vf, t.x)) % p)
  }

  /** What one call is given: the exponent, the peer value and the two draws. */
  datatype Task = Task(x: int, gy: int, d1: Luck, d2: Luck)
  {
    predicate InRange(p: int)
    {
      2 <= gy <= p - 2
    }
  }

  /**
   The secret of a successful call. On a new exponent, or with no pair in use, it is gy^x mod p.
   With a pair in use it is gy^x times the square of the pair's factor.
   */
  lemma SecretExact(s: Pair, t: Task, p: int, s': Pair, ret: Ret, k: int)
    requires p > 1 && Called(s, t, p, s', ret, k) && ret == Ok
    ensures t.x >= 0 && s'.px == t.x && t.InRange(p)
    ensures t.x != s.px || s.vi == 1 ==> Blinds(s'.vi, s'.vf, t.x, p) && k == Pow(t.gy, t.x) % p
    ensures t.x == s.px && s.vi != 1 ==>
      var f := Factor(s.vi, s.vf, t.x); k == (Pow(t.gy, t.x) * (f * f)) % p
  {
    hide Pow, Factor, Blinds;
    var u: Ret :| Updated(s, t.x, t.d1, t.d2, p, s', u)
      && ret == (if u != Ok then u else if Refused(t.x, p) then BadInputData else Ok)
      && (ret == Ok ==> k == (Pow(t.gy, t.x) * Factor(s'.vi, s'.vf, t.x)) % p);
    if t.x != s.px || s.vi == 1 {
      if t.x != s.px {
        BlindsReset(t.x, p);
      }
      Transparent(t.gy, s'.vi, s'.vf, t.x, p);
    } else {
      FactorSquare(t.gy, s.vi, s.vf, t.x, p);
    }
  }

  /** A fresh context takes exponent zero for known: the all-zero pair turns the secret into 0 instead of 1. */
  lemma ZeroExponent(gy: int, d1: Luck, d2: Luck, p: int, s': Pair, ret: Ret, k: int)
    requires p > 1 && Called(Pair(0, 0, 0), Task(0, gy, d1, d2), p, s', ret, k) && ret == Ok
    ensures k == 0 && Pow(gy, 0) % p == 1
  {
    hide Called;
    SecretExact(Pair(0, 0, 0), Task(0, gy, d1, d2), p, s', ret, k);
    ModSmall(0, p);
    ModSmall(1, p);
  }

  /** A wrong factor shows: if gy has an inverse g, the secret is right if and only if the square is 1. */
  lemma WrongFactorShows(gy: int, g: int, x: nat, f: int, p: int)
    requires p > 1 && (gy * g) % p == 1
    ensures (Pow(gy, x) * (f * f)) % p == Pow(gy, x) % p <==> (f * f) % p == 1
  {
    hide Pow;
    var a, b, c := Pow(gy, x), Pow(g, x), f * f;
    ModSmall(1, p);
    ModPow(gy * g, 1, x, p);
    PowMulBase(gy, g, x);
    PowOne(x);
    if (a * c) % p == a % p {
      ModMul(a * c, a, b, p);
      MulAssoc(a, c, b);
      MulAssoc(a, b, c);
      MulCong(c * b, b * c, a);
      ModMul(a * b, 1, c, p);
    }
    if c % p == 1 {
      ModMul(c, 1, a, p);
      assert c * a == a * c;
    }
  }

  // ---------------------------------------------------------------- runs with failures

  /** A run of calls: states[i] is the state before call i. */
  ghost predicate Run(states: seq<Pair>, tasks: seq<Task>, p: int, rets: seq<Ret>, keys: seq<int>)
    requires p > 1
  {
    && |states| == |tasks| + 1 && |rets| == |tasks| && |keys| == |tasks|
    && forall i :: 0 <= i < |tasks| ==> Called(states[i], tasks[i], p, states[i + 1], rets[i], keys[i])
  }

  /** The exponent the context remembers before call i: that of the latest call with a peer value in range. */
  function Remembered(tasks: seq<Task>, p: int, i: nat, px: int): int
    requires i <= |tasks|
  {
    if i == 0 then px
    else if tasks[i - 1].InRange(p) then tasks[i - 1].x
    else Remembered(tasks, p, i - 1, px)
  }

  lemma {:induction false} RememberedIsPx(states: seq<Pair>, tasks: seq<Task>, p: int, rets: seq<Ret>, keys: seq<int>,
                                          i: nat)
    requires p > 1 && Run(states, tasks, p, rets, keys) && i <= |tasks|
    ensures states[i].px == Remembered(tasks, p, i, states[0].px)
  {
    hide Pow, Factor;
    if i > 0 {
      RememberedIsPx(states, tasks, p, rets, keys, i - 1);
      assert Called(states[i - 1], tasks[i - 1], p, states[i], rets[i - 1], keys[i - 1]);
    }
  }

  /** Call c was made with another exponent than the one before it, and no call from c up to i failed. */
  ghost predicate CleanSince(tasks: seq<Task>, p: int, rets: seq<Ret>, px: int, c: nat, i: nat)
    requires |rets| == |tasks|
  {
    && c <= i < |tasks| && tasks[c].InRange(p) && tasks[c].x != Remembered(tasks, p, c, px)
    && forall f :: c <= f < i && tasks[f].InRange(p) ==> rets[f] == Ok
  }

  /**
   Over every run, failures included: a successful call whose exponent was new at some call since
   the last failure yields gy^x mod p; any other yields gy^x times the squared factor of the pair
   it found, or gy^x itself when that pair was unused.
   */
  lemma RunSecrets(states: seq<Pair>, tasks: seq<Task>, p: int, rets: seq<Ret>, keys: seq<int>, i: nat)
    requires p > 1 && Run(states, tasks, p, rets, keys) && i < |tasks| && rets[i] == Ok
    ensures tasks[i].x >= 0 && tasks[i].InRange(p)
    ensures (exists c: nat :: CleanSince(tasks, p, rets, states[0].px, c, i)) ==>
      keys[i] == Pow(tasks[i].gy, tasks[i].x) % p
    ensures var (s, x) := (states[i], tasks[i].x);
      var f := Factor(s.vi, s.vf, x);
      keys[i] == (Pow(tasks[i].gy, x) * (if x != s.px || s.vi == 1 then 1 else f * f)) % p
  {
    hide Pow, Factor, Blinds, Called, CleanSince;
    var (s, t) := (states[i], tasks[i]);
    assert Called(states[i], tasks[i], p, states[i + 1], rets[i], keys[i]);
    SecretExact(s, t, p, states[i + 1], rets[i], keys[i]);
    if c: nat :| CleanSince(tasks, p, rets, states[0].px, c, i) {
      CleanBlinds(states, tasks, p, rets, keys, c, i);
      if t.x == s.px && s.vi != 1 {
        SquareOfOne(t.gy, s.vi, s.vf, t.x, p);
      }
    }
  }

  /** From call c on the pair blinds the remembered exponent. */
  lemma {:induction false} CleanBlinds(states: seq<Pair>, tasks: seq<Task>, p: int, rets: seq<Ret>, keys: seq<int>,
                                       c: nat, i: nat)
    requires p > 1 && Run(states, tasks, p, rets, keys) && CleanSince(tasks, p, rets, states[0].px, c, i)
    ensures i > c || tasks[i].x == states[i].px ==>
      states[i].px >= 0 && Blinds(states[i].vi, states[i].vf, states[i].px, p)
    decreases i
  {
    hide Pow, Factor, Blinds;
    RememberedIsPx(states, tasks, p, rets, keys, c);
    if i > c {
      CleanBlinds(states, tasks, p, rets, keys, c, i - 1);
      var (s, t) := (states[i - 1], tasks[i - 1]);
      assert Called(s, t, p, states[i], rets[i - 1], keys[i - 1]);
      if t.InRange(p) {
        SecretExact(s, t, p, states[i], rets[i - 1], keys[i - 1]);
        if t.x == s.px && s.vi != 1 {
          BlindsSquare(s.vi, s.vf, t.x, p);
        }
      }
    }
  }

  lemma SquareOfOne(gy: int, vi: int, vf: int, x: nat, p: int)
    requires p > 1 && Blinds(vi, vf, x, p)
    ensures var f := Factor(vi, vf, x); (Pow(gy, x) * (f * f)) % p == Pow(gy, x) % p
  {
    hide Pow;
    BlindsSquare(vi, vf, x, p);
    FactorSquare(gy, vi, vf, x, p);
    Transparent(gy, (vi * vi) % p, (vf * vf) % p, x, p);
  }

  // ---------------------------------------------------------------- the context

  class Context {
    const P: Mpi
    const X: Mpi
    const GY: Mpi
    const RP: Mpi
    const pX: Mpi
    const Vi: Mpi
    const Vf: Mpi
    const K: Mpi

    ghost predicate Separate()
    {
      Apart(P, X, GY, RP, pX, Vi, Vf, K) && Vf != K
    }

    /** What every call keeps, failed or not: the modulus and its cache. */
    ghost predicate Sound()
      reads P, RP
    {
      Separate() && P.Value() > 1 && (|RP.p| > 0 ==> CachesRR(RP, P))
    }

    ghost function State(): Pair
      reads pX, Vi, Vf
    {
      Pair(pX.Value(), Vi.Value(), Vf.Value())
    }

    constructor (p: Mpi)
      requires p.Value() > 1
      ensures Sound() && fresh(X) && fresh(GY) && fresh(RP) && fresh(pX) && fresh(Vi) && fresh(Vf) && fresh(K)
      ensures P.Value() == p.Value() && fresh(P) && State() == Pair(0, 0, 0)
    {
      var m := NewCopy(p);
      P := m;
      X := new Mpi();
      GY := new Mpi();
      RP := new Mpi();
      pX := new Mpi();
      Vi := new Mpi();
      Vf := new Mpi();
      K := new Mpi();
    }

    /** Keeps, squares, or replaces the blinding pair for the current exponent. */
    method UpdateBlinding(d1: Draw, d2: Draw) returns (ret: Ret)
      requires Sound() && DrawFor(d1) && DrawFor(d2)
      modifies RP, pX, Vi, Vf
      ensures Sound() && Updated(old(State()), X.Value(), View(d1), View(d2), P.Value(), State(), ret)
    {
      hide Val, Pow, Pow2, BPow, CachesRR, Refreshed;
      var c := CmpMpi(X, pX);
      if c != 0 {
        Copy(pX, X);
        Lset(Vi, 1);
        Lset(Vf, 1);
        return Ok;
      }
      c := CmpInt(Vi, 1);
      if c != 0 {
        MulMpi(Vi, Vi, Vi);
        var _ := ModMpi(Vi, Vi, P);
        MulMpi(Vf, Vf, Vf);
        var _ := ModMpi(Vf, Vf, P);
        return Ok;
      }
      ret := FreshPair(d1, d2);
    }

    /** The draws are numbers of their own; a delivered one is in the range the generator promises. */
    ghost predicate DrawFor(d: Draw)
      reads P, match d { case Drawn(v) => v case Failed(j) => j }
    {
      match d
      case Drawn(v) => v !in {P, X, GY, RP, pX, Vi, Vf, K} && 2 <= v.Value() <= P.Value() - 2
      case Failed(j) => j !in {P, X, GY, RP, pX, Vi, Vf, K}
    }

    /** A pair from scratch; each failure leaves what it had come to. */
    method FreshPair(d1: Draw, d2: Draw) returns (ret: Ret)
      requires Sound() && X.Value() == pX.Value() && DrawFor(d1) && DrawFor(d2)
      modifies RP, Vi, Vf
      ensures Sound() && Refreshed(old(State()), X.Value(), View(d1), View(d2), P.Value(), State(), ret)
    {
      hide Val, Pow, Pow2, BPow, CachesRR, Paired;
      ret := RandomBelow(Vi, P, d1);
      if ret != Ok { return; }
      var R := new Mpi();
      ret := RandomBelow(R, P, d2);
      if ret != Ok { return; }
      ret := FinishPair(R);
    }

    /** Vf = (R * (R*Vi)^-1)^X. */
    method FinishPair(R: Mpi) returns (ret: Ret)
      requires Sound() && R !in {P, X, GY, RP, pX, Vi, Vf, K}
      modifies RP, Vf
      ensures Sound() && Paired(Vi.Value(), R.Value(), X.Value(), P.Value(), Vf.Value(), ret)
    {
      hide Val, Pow, Pow2, BPow, CachesRR, Blinds, Refused, IsGcd;
      ret := InvertProduct(R);
      if ret == Ok {
        ret := PowerOfInverse();
      }
    }

    /** Vf = R * (R*Vi)^-1, the inverse of Vi. */
    method InvertProduct(R: Mpi) returns (ret: Ret)
      requires Sound() && R !in {P, X, GY, RP, pX, Vi, Vf, K}
      modifies Vf
      ensures var (v, r, p) := (Vi.Value(), R.Value(), P.Value());
        && ret == (if IsGcd(1, (v * r) % p, p) then Ok else NotAcceptable) && 0 <= Vf.Value() < p
        && (if ret == Ok then (v * Vf.Value()) % p == 1 && Vf.Value() > 0 else Vf.Value() == (v * r) % p)
    {
      hide Val, Pow, Pow2, BPow, IsGcd;
      ghost var p, v, r := P.Value(), Vi.Value(), R.Value();
      MulMpi(Vf, Vi, R);
      var _ := ModMpi(Vf, Vf, P);
      ret := InvMod(Vf, Vf, P);
      if ret != Ok { return; }
      InverseOf(v, r, Vf.Value(), p);
      MulMpi(Vf, Vf, R);
      var _ := ModMpi(Vf, Vf, P);
    }

    /** Vf = Vf^X. */
    method PowerOfInverse() returns (ret: Ret)
      requires Sound() && 0 < Vf.Value() < P.Value() && (Vi.Value() * Vf.Value()) % P.Value() == 1
      modifies RP, Vf
      ensures Sound() && 0 <= Vf.Value() < P.Value()
      ensures ret == if Refused(X.Value(), P.Value()) then BadInputData else Ok
      ensures if ret == Ok then X.Value() >= 0 && Blinds(Vi.Value(), Vf.Value(), X.Value(), P.Value())
        else Vf.Value() == old(Vf.Value())
    {
      hide Val, Pow, Pow2, BPow, Blinds, Refused;
      ghost var p, x, v, u := P.Value(), X.Value(), Vi.Value(), Vf.Value();
      assert Vf.s == 1;
      ret := ExpModMpi(Vf, Vf, X, P, RP);
      if ret == Ok {
        NotRefused(x, p);
        BlindsFresh(v, u, x, p);
      }
    }

    /** Derives the shared secret into K. */
    method CalcSecret(d1: Draw, d2: Draw) returns (ret: Ret)
      requires Sound() && DrawFor(d1) && DrawFor(d2)
      modifies RP, pX, Vi, Vf, K
      ensures Sound()
      ensures Called(old(State()), Given(d1, d2), P.Value(), State(), ret, K.Value())
    {
      hide Val, Pow, Pow2, BPow, CachesRR, Blinds, Updated, Refused, Factor;
      var ok := InRange(GY, P);
      if !ok {
        return BadInputData;
      }
      ret := UpdateBlinding(d1, d2);
      if ret != Ok { return; }
      ret := BlindedPower();
    }

    ghost function Given(d1: Draw, d2: Draw): Task
      reads X, GY, match d1 { case Drawn(v) => v case Failed(j) => j }
      reads match d2 { case Drawn(v) => v case Failed(j) => j }
    {
      Task(X.Value(), GY.Value(), View(d1), View(d2))
    }

    /** mbedtls_dhm_calc_secret as a whole: the secret's bytes, without a leading zero. */
    method CalcSecretBytes(d1: Draw, d2: Draw, output: array<Blocks.Byte>) returns (ret: Ret, olen: nat)
      requires Sound() && DrawFor(d1) && DrawFor(d2)
      modifies RP, pX, Vi, Vf, K, output
      ensures Sound()
      ensures forall n: nat :: MpiBytes.IsSize(P.Value(), n) ==>
        if output.Length < n then State() == old(State()) && ret == BadInputData
        else Called(old(State()), Given(d1, d2), P.Value(), State(), ret, K.Value())
      ensures ret == Ok ==> olen <= output.Length && 0 <= K.Value() && MpiBytes.IsSize(K.Value(), olen)
      ensures ret == Ok ==> output[..olen] == Blocks.BigEndian(K.Value(), olen)
      ensures ret != Ok ==> output[..] == old(output[..])
    {
      hide Val, Pow, Pow2, BPow, CachesRR, Updated, MpiBytes.IsSize, Blocks.BigEndian, Factor, Refused;
      olen := 0;
      var room := MpiBytes.Size(P);
      NonnegAbs(P);
      SizeUnique(P.Value(), room);
      if output.Length < room {
        return BadInputData, olen;
      }
      ret := CalcSecret(d1, d2);
      if ret != Ok { return; }
      olen := MpiBytes.Size(K);
      assert 0 <= K.Value() < P.Value();
      NonnegAbs(K);
      SizeFits(Val(K.p), olen, Val(P.p), room);
      var ok := MpiBytes.WriteBinary(K, output, 0, olen);
      assert output[0..olen] == output[..olen];
    }

    /** (GY*Vi)^X * Vf mod P. */
    method BlindedPower() returns (ret: Ret)
      requires Sound()
      modifies RP, K
      ensures Sound() && ret == if Refused(X.Value(), P.Value()) then BadInputData else Ok
      ensures ret == Ok ==> X.Value() >= 0
      ensures ret == Ok ==>
        K.Value() == (Pow(GY.Value(), X.Value()) * Factor(Vi.Value(), Vf.Value(), X.Value())) % P.Value()
    {
      hide Val, Pow, Pow2, BPow, Factor, ExpResult, Refused;
      ghost var g, x, p := GY.Value(), X.Value(), P.Value();
      ghost var vi, vf := Vi.Value(), Vf.Value();
      var GYb := new Mpi();
      MulMpi(GYb, GY, Vi);
      var _ := ModMpi(GYb, GYb, P);
      ghost var b, neg := GYb.Value(), GYb.s == -1;
      ret := ExpModMpi(K, GYb, X, P, RP);
      if ret != Ok { return; }
      NotRefused(x, p);
      ExpMeaning(b, neg, x, p);
      BlindedResult(K.Value(), vf, g, vi, x, p);
      MulMpi(K, K, Vf);
      var _ := ModMpi(K, K, P);
    }
  }

  lemma NotRefused(x: int, p: int)
    requires !Refused(x, p)
    ensures x >= 0 && p > 0 && p % 2 == 1
  {
  }

  /** From an inverse w of vi*r to an inverse of vi. */
  lemma InverseOf(v: int, r: int, w: int, p: int)
    requires p > 1 && (((v * r) % p) * w) % p == 1
    ensures (v * ((w * r) % p)) % p == 1 && (w * r) % p > 0
  {
    hide *;
    var u := (w * r) % p;
    ModSmall(0, p);
    ModMod(w * r, p);
    ModMul(u, w * r, v, p);
    ModMod(v * r, p);
    ModMul((v * r) % p, v * r, w, p);
    MulAssoc(v, r, w);
    MulCong(r * w, w * r, v);
  }

  lemma SizeFits(v: nat, n: nat, w: nat, m: nat)
    requires MpiBytes.IsSize(v, n) && MpiBytes.IsSize(w, m) && v <= w
    ensures n <= m && v < Pow(256, n)
  {
    hide Pow;
    if n > m {
      PowMono(256, m, n - 1);
    }
    PowSucc(256, 0);
  }

  lemma SizeUnique(v: nat, n: nat)
    requires MpiBytes.IsSize(v, n)
    ensures forall m: nat :: MpiBytes.IsSize(v, m) ==> m == n
  {
    forall m: nat | MpiBytes.IsSize(v, m)
      ensures m == n
    {
      SizeFits(v, n, v, m);
      SizeFits(v, m, v, n);
    }
  }

  /** 2 <= M <= P - 2. */
  method InRange(M: Mpi, P: Mpi) returns (ok: bool)
    ensures ok == (2 <= M.Value() <= P.Value() - 2)
  {
    var U := new Mpi();
    SubInt(U, P, 2);
    var c := CmpInt(M, 2);
    var d := CmpMpi(M, U);
    ok := c >= 0 && d <= 0;
  }

  ghost function View(d: Draw): Luck
    reads match d { case Drawn(v) => v case Failed(j) => j }
  {
    match d
    case Drawn(v) => Got(v.Value())
    case Failed(j) => Lost(j.Value())
  }

  /** dhm_random_below: a modulus of at most 3 is refused before R is touched; a failed draw leaves junk. */
  method RandomBelow(R: Mpi, P: Mpi, d: Draw) returns (ret: Ret)
    requires R != P && (match d case Drawn(v) => v != R && P.Value() > 3 case Failed(j) => j != R)
    modifies R
    ensures ret == if P.Value() <= 3 then BadInputData else if d.Drawn? then Ok else NotAcceptable
    ensures R.Value() ==
      if P.Value() <= 3 then old(R.Value()) else match d case Drawn(v) => v.Value() case Failed(j) => j.Value()
  {
    var c := CmpInt(P, 3);
    if c <= 0 {
      return BadInputData;
    }
    match d {
      case Drawn(v) =>
        Copy(R, v);
        ret := Ok;
      case Failed(j) =>
        Copy(R, j);
        ret := NotAcceptable;
    }
  }

  // ---------------------------------------------------------------- whole runs

  /** One use of the context: an exponent, a peer value, and the random draws. */
  datatype Job = Job(x: Mpi, gy: Mpi, d1: Draw, d2: Draw)

  ghost predicate JobFor(C: Context, j: Job)
    reads C.P, match j.d1 { case Drawn(v) => v case Failed(u) => u }
    reads match j.d2 { case Drawn(v) => v case Failed(u) => u }
  {
    && j.x !in {C.P, C.X, C.GY, C.RP, C.pX, C.Vi, C.Vf, C.K} && j.gy !in {C.P, C.X, C.GY, C.RP, C.pX, C.Vi, C.Vf, C.K}
    && C.DrawFor(j.d1) && C.DrawFor(j.d2)
  }

  ghost function TaskOf(j: Job): Task
    reads j.x, j.gy, match j.d1 { case Drawn(v) => v case Failed(u) => u }
    reads match j.d2 { case Drawn(v) => v case Failed(u) => u }
  {
    Task(j.x.Value(), j.gy.Value(), View(j.d1), View(j.d2))
  }

  /** Any calls in a row, going on after failures, are a run of the state machine. */
  method Session(C: Context, jobs: seq<Job>)
    returns (rets: seq<Ret>, secrets: seq<Mpi>, ghost states: seq<Pair>, ghost tasks: seq<Task>, ghost keys: seq<int>)
    requires C.Sound() && forall i :: 0 <= i < |jobs| ==> JobFor(C, jobs[i])
    modifies C.X, C.GY, C.RP, C.pX, C.Vi, C.Vf, C.K
    ensures C.Sound() && |tasks| == |jobs| && forall i :: 0 <= i < |jobs| ==> tasks[i] == old(TaskOf(jobs[i]))
    ensures Run(states, tasks, C.P.Value(), rets, keys) && states[0] == old(C.State()) && states[|jobs|] == C.State()
    ensures |secrets| == |jobs| && forall i :: 0 <= i < |jobs| ==> secrets[i].Value() == keys[i]
    ensures forall i :: 0 <= i < |jobs| && rets[i] == Ok ==>
      && tasks[i].x >= 0
      && ((exists c: nat :: CleanSince(tasks, C.P.Value(), rets, states[0].px, c, i)) ==>
            secrets[i].Value() == Pow(tasks[i].gy, tasks[i].x) % C.P.Value())
  {
    hide Val, Pow, Pow2, BPow, CachesRR, Called, Factor, CleanSince;
    rets, secrets := [], [];
    states, tasks, keys := [C.State()], seq(|jobs|, i requires 0 <= i < |jobs| reads * => TaskOf(jobs[i])), [];
    ghost var p := C.P.Value();
    while |rets| < |jobs|
      invariant |rets| <= |jobs| && C.Sound() && C.P.Value() == p
      invariant |secrets| == |rets| == |keys| && |states| == |rets| + 1
      invariant states[0] == old(C.State()) && states[|rets|] == C.State()
      invariant forall i :: 0 <= i < |rets| ==> fresh(secrets[i]) && secrets[i].Value() == keys[i]
      invariant forall i :: 0 <= i < |rets| ==> Called(states[i], tasks[i], p, states[i + 1], rets[i], keys[i])
    {
      var ret, S := RunJob(C, jobs[|rets|]);
      rets, secrets := rets + [ret], secrets + [S];
      states, keys := states + [C.State()], keys + [S.Value()];
    }
    forall i | 0 <= i < |jobs| && rets[i] == Ok
      ensures tasks[i].x >= 0
      ensures (exists c: nat :: CleanSince(tasks, p, rets, states[0].px, c, i)) ==>
        keys[i] == Pow(tasks[i].gy, tasks[i].x) % p
    {
      RunSecrets(states, tasks, p, rets, keys, i);
    }
  }

  method RunJob(C: Context, j: Job) returns (ret: Ret, S: Mpi)
    requires C.Sound() && JobFor(C, j)
    modifies C.X, C.GY, C.RP, C.pX, C.Vi, C.Vf, C.K
    ensures C.Sound() && fresh(S)
    ensures Called(old(C.State()), old(TaskOf(j)), C.P.Value(), C.State(), ret, S.Value())
  {
    hide Val, Pow, Pow2, BPow, CachesRR, Called;
    Copy(C.X, j.x);
    Copy(C.GY, j.gy);
    ret := C.CalcSecret(j.d1, j.d2);
    S := NewCopy(C.K);
  }

  /**
   Failures that spoil the next secret, for P == 7, X == 1 and GY == 3, whose secret is 3: after a
   first draw that fails with 0 in its target the third call succeeds with 0; after a second draw
   that fails it succeeds with 5.
   */
  method SpoiltSecret(first: bool) returns (ret: Ret, secret: Mpi)
    ensures ret == Ok && secret.Value() == (if first then 0 else 5) && Pow(3, 1) % 7 == 3
  {
    hide Val, Pow, Pow2, BPow, CachesRR, Called, Refused;
    var p := NewInt(7);
    var zero := NewInt(0);
    var two := NewInt(2);
    var C := new Context(p);
    Lset(C.X, 1);
    Lset(C.GY, 3);
    var lost := Failed(zero);
    SpoiltFirst(C, lost, if first then lost else Drawn(two), first);
    ret := C.CalcSecret(lost, lost);
    SpoiltKey(if first then 0 else 2, C.State(), ret, C.K.Value());
    secret := C.K;
  }

  /** Two calls: a new exponent, and the failure. */
  method SpoiltFirst(C: Context, lost: Draw, draw: Draw, first: bool)
    requires C.Sound() && C.DrawFor(lost) && C.DrawFor(draw) && C.State() == Pair(0, 0, 0)
    requires C.X.Value() == 1 && C.GY.Value() == 3 && C.P.Value() == 7
    requires View(lost) == Lost(0) && View(draw) == (if first then Lost(0) else Got(2))
    modifies C.RP, C.pX, C.Vi, C.Vf, C.K
    ensures C.Sound() && C.State() == Pair(1, if first then 0 else 2, 1)
  {
    hide Val, Pow, Pow2, BPow, CachesRR, Called, Refused;
    var ret := C.CalcSecret(lost, lost);
    SpoiltReset(Lost(0), C.State(), ret, C.K.Value());
    ret := C.CalcSecret(draw, lost);
    SpoiltDraw(first, C.State(), ret, C.K.Value());
  }

  lemma SpoiltReset(d: Luck, s: Pair, ret: Ret, k: int)
    requires Called(Pair(0, 0, 0), Task(1, 3, d, d), 7, s, ret, k)
    ensures s == Pair(1, 1, 1)
  {
    hide Pow, Factor, Refused;
  }

  lemma SpoiltDraw(first: bool, s: Pair, ret: Ret, k: int)
    requires Called(Pair(1, 1, 1), Task(1, 3, if first then Lost(0) else Got(2), Lost(0)), 7, s, ret, k)
    ensures s == Pair(1, if first then 0 else 2, 1) && ret != Ok
  {
    hide Pow, Factor, Refused;
  }

  lemma SpoiltKey(vi: int, s: Pair, ret: Ret, k: int)
    requires (vi == 0 || vi == 2) && Called(Pair(1, vi, 1), Task(1, 3, Lost(0), Lost(0)), 7, s, ret, k)
    ensures ret == Ok && k == (if vi == 0 then 0 else 5) && Pow(3, 1) % 7 == 3
  {
    hide Called;
    assert Pow(3, 1) == 3 && Pow(vi, 1) == vi;
    SmallAccepted();
    SpoiltCode(vi, s, ret, k);
    hide Pow;
    SecretExact(Pair(1, vi, 1), Task(1, 3, Lost(0), Lost(0)), 7, s, ret, k);
  }

  lemma SpoiltCode(vi: int, s: Pair, ret: Ret, k: int)
    requires vi != 1 && !Refused(1, 7) && Called(Pair(1, vi, 1), Task(1, 3, Lost(0), Lost(0)), 7, s, ret, k)
    ensures ret == Ok
  {
    hide Pow, Factor, Refused;
  }

  lemma SmallAccepted()
    ensures !Refused(1, 7)
  {
    hide Pow;
    PowMono(2, 3, MAX_BITS);
    assert Pow(2, 3) == 8 by { PowCube(); }
  }

  lemma PowCube()
    ensures Pow(2, 3) == 8
  {
  }
}
