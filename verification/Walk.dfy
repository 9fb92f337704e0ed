/**
 cycle_access: which TLB entries and cache lines an access touches, and what one access does to the
 levels and the counters.
 */
module Walk {
  import opened Arith
  import opened Bits
  import opened Lru

  const PAGE: nat := 0x1000
  const LINE: nat := 0x40
  const HALF: nat := 0x8000_0000_0000_0000

  // ---------------------------------------------------------------- TLB entries

  /** The page number of a signed shift: the top twelve bits repeat the sign. */
  function PageNo(addr: nat): nat
    requires addr < U64
  {
    addr / PAGE + if addr < HALF then 0 else U64 - U64 / PAGE
  }

  /** Addresses of at most 60 significant bits. */
  predicate Sixty(addr: nat)
  {
    addr < 0x1000_0000_0000_0000 || 0xf000_0000_0000_0000 <= addr < U64
  }

  /** Canonical addresses of the machine: 48 significant bits. */
  predicate Address48(addr: nat)
  {
    addr < 0x8000_0000_0000 || U64 - 0x8000_0000_0000 <= addr < U64
  }

  /** The assertion in mixpageasid holds exactly for these. */
  lemma PageAccepted(addr: nat)
    requires addr < U64
    ensures Canonical(PageNo(addr)) <==> Sixty(addr)
  {
  }

  /** What the TLBs are indexed with. */
  function Entry(addr: nat, asid: nat): nat
    requires Sixty(addr) && asid < 0x1_0000
  {
    PageAccepted(addr);
    MixPageAsid(PageNo(addr), asid)
  }

  lemma EntryValue(addr: nat, asid: nat)
    requires Sixty(addr) && asid < 0x1_0000
    ensures Entry(addr, asid) ==
      if addr < HALF then asid * T48 + addr / PAGE else 0xffff * T48 + addr / PAGE - 0xf_0000_0000_0000
  {
    hide MixPageAsid;
    PageAccepted(addr);
    MixParts(PageNo(addr), asid);
  }

  /**
   Two 48-bit addresses share an entry exactly when they lie in the same page of the same address
   space, or in the same kernel page: the clash with address space 0xffff needs other addresses.
   */
  lemma EntryExact(p: nat, a: nat, q: nat, b: nat)
    requires Address48(p) && Address48(q) && a < 0x1_0000 && b < 0x1_0000
    ensures Entry(p, a) == Entry(q, b) <==> p / PAGE == q / PAGE && (a == b || p >= HALF)
  {
    hide Entry;
    EntryValue(p, a);
    EntryValue(q, b);
  }

  /** Without that bound there is a clash: one user page of address space 0xffff and a kernel page. */
  lemma EntryClash()
    ensures Entry(0xfff_ffff_ffff_f000, 0xffff) == Entry(0xffff_ffff_ffff_f000, 0)
  {
    hide Entry;
    EntryValue(0xfff_ffff_ffff_f000, 0xffff);
    EntryValue(0xffff_ffff_ffff_f000, 0);
  }

  /** Counting up from the first entry visits exactly the entries of the bytes of the access. */
  lemma WalkExact(addr: nat, size: nat, asid: nat, x: nat)
    requires size > 0 && asid < 0x1_0000 && addr + size <= U64
    requires Sixty(addr) && Sixty(addr + size - 1) && (addr < HALF <==> addr + size - 1 < HALF)
    ensures Spanned(addr, size, PAGE) >= 0
    ensures x in Run(Entry(addr, asid), Spanned(addr, size, PAGE)) <==>
      exists b :: addr <= b < addr + size && Sixty(b) && x == Entry(b, asid)
  {
    hide Entry, Spanned;
    var first, n := addr / PAGE, Spanned(addr, size, PAGE);
    SpanExact(addr, size, PAGE, first);
    assert addr / PAGE == first && n >= 0;
    var run := Run(Entry(addr, asid), n);
    if x in run {
      var i :| 0 <= i < |run| && run[i] == x;
      SpanExact(addr, size, PAGE, first + i);
      var b :| addr <= b < addr + size && b / PAGE == first + i;
      EntryAt(addr, b, size, asid);
    }
    if b :| addr <= b < addr + size && Sixty(b) && x == Entry(b, asid) {
      SpanExact(addr, size, PAGE, b / PAGE);
      EntryAt(addr, b, size, asid);
      assert run[b / PAGE - first] == x;
    }
  }

  lemma EntryAt(addr: nat, b: nat, size: nat, asid: nat)
    requires asid < 0x1_0000 && addr <= b < addr + size <= U64
    requires Sixty(addr) && Sixty(addr + size - 1) && (addr < HALF <==> addr + size - 1 < HALF)
    ensures Sixty(b) && addr / PAGE <= b / PAGE
    ensures Entry(b, asid) == (Entry(addr, asid) + (b / PAGE - addr / PAGE)) % U64
  {
    hide Entry;
    EntryValue(addr, asid);
    EntryValue(b, asid);
  }

  // ---------------------------------------------------------------- lines and pages

  /** Two addresses share a line exactly when they agree from bit 6 up, and a page from bit 12 up. */
  lemma SharedUnits(a: nat, b: nat)
    ensures a / LINE == b / LINE <==> forall k :: k >= 6 ==> Bit(a, k) == Bit(b, k)
    ensures a / PAGE == b / PAGE <==> forall k :: k >= 12 ==> Bit(a, k) == Bit(b, k)
  {
    hide Bit, Pow, Pow2;
    UnitSizes();
    SharedFrom(a, b, 6);
    SharedFrom(a, b, 12);
  }

  lemma UnitSizes()
    ensures Pow2(6) == LINE && Pow2(12) == PAGE
  {
    hide Pow, Pow2;
    Pow2One();
    Pow2Succ(1);
    Pow2Succ(2);
    Pow2Add(3, 3);
    Pow2Add(6, 6);
  }

  lemma SharedFrom(a: nat, b: nat, n: nat)
    ensures a / Pow2(n) == b / Pow2(n) <==> forall k :: k >= n ==> Bit(a, k) == Bit(b, k)
  {
    hide Bit, Pow, Pow2;
    forall k | k >= n
      ensures Bit(a, k) == Bit(a / Pow2(n), k - n) && Bit(b, k) == Bit(b / Pow2(n), k - n)
    {
      BitShifted(a, n, k - n);
      BitShifted(b, n, k - n);
    }
    if forall k :: k >= n ==> Bit(a, k) == Bit(b, k) {
      forall k: nat
        ensures Bit(a / Pow2(n), k) == Bit(b / Pow2(n), k)
      {
        BitShifted(a, n, k);
        BitShifted(b, n, k);
      }
      SameBits(a / Pow2(n), b / Pow2(n));
    }
  }

  // ---------------------------------------------------------------- one access

  datatype Kind = Inst | Data

  /** The sets and ways of a level. */
  datatype Shape = Shape(sets: nat, assoc: nat)
  {
    predicate Ok() { sets > 0 && assoc > 0 }
  }

  /** A first level for instructions, one for data, and the level behind both. */
  datatype Shapes = Shapes(inst: Shape, data: Shape, second: Shape)
  {
    predicate Ok() { inst.Ok() && data.Ok() && second.Ok() }

    function First(kind: Kind): Shape { if kind.Data? then data else inst }
  }

  /** The accesses each of the three levels has seen, and its misses as counted. */
  datatype Seen = Seen(inst: seq<nat>, data: seq<nat>, second: seq<nat>, instMisses: nat, dataMisses: nat,
                       secondMisses: nat)

  /** One walk: the level of its kind sees the run, the second level that level's misses. */
  function Advance(g: Shapes, s: Seen, run: seq<nat>, kind: Kind, warmup: bool): Seen
    requires g.Ok()
  {
    var l := g.First(kind);
    var missed := Misses(l.sets, l.assoc, if kind.Data? then s.data else s.inst, run);
    var n, n2 := |missed|, |Misses(g.second.sets, g.second.assoc, s.second, missed)|;
    Seen(if kind.Data? then s.inst else s.inst + run, if kind.Data? then s.data + run else s.data, s.second + missed,
         s.instMisses + (if warmup || kind.Data? then 0 else n), s.dataMisses + (if warmup || kind.Inst? then 0 else n),
         s.secondMisses + (if warmup then 0 else n2))
  }

  /** The misses of a level over a whole trace from the start. */
  function Count(l: Shape, trace: seq<nat>): nat
    requires l.Ok()
  {
    |Misses(l.sets, l.assoc, [], trace)|
  }

  /**
   Every counter is the number of misses of its level over its whole trace, and the second level has
   been asked exactly once for each miss of a first one.
   */
  predicate Counted(g: Shapes, s: Seen)
    requires g.Ok()
  {
    && s.instMisses == Count(g.inst, s.inst) && s.dataMisses == Count(g.data, s.data)
    && s.secondMisses == Count(g.second, s.second) && |s.second| == s.instMisses + s.dataMisses
  }

  lemma AdvanceCounted(g: Shapes, s: Seen, run: seq<nat>, kind: Kind)
    requires g.Ok() && Counted(g, s)
    ensures Counted(g, Advance(g, s, run, kind, false))
  {
    hide Misses;
    var l := g.First(kind);
    var trace := if kind.Data? then s.data else s.inst;
    CountGrows(l, trace, run);
    CountGrows(g.second, s.second, Misses(l.sets, l.assoc, trace, run));
  }

  lemma CountGrows(l: Shape, trace: seq<nat>, run: seq<nat>)
    requires l.Ok()
    ensures Count(l, trace + run) == Count(l, trace) + |Misses(l.sets, l.assoc, trace, run)|
  {
    hide Misses;
    MissesConcat(l.sets, l.assoc, [], trace, run);
    assert [] + trace == trace;
  }

  lemma {:induction false} MissesConcat(sets: nat, assoc: nat, trace: seq<nat>, a: seq<nat>, b: seq<nat>)
    requires sets > 0 && assoc > 0
    ensures Misses(sets, assoc, trace, a + b) == Misses(sets, assoc, trace, a) + Misses(sets, assoc, trace + a, b)
  {
    hide Misses, Hit;
    if b == [] {
      assert a + b == a;
      NoMisses(sets, assoc, trace + a);
    } else {
      var n := |b| - 1;
      var front, x := b[..n], b[n];
      MissesConcat(sets, assoc, trace, a, front);
      assert a + b == (a + front) + [x] && b == front + [x] && trace + (a + front) == trace + a + front;
      MissesStep(sets, assoc, trace, a + front, x);
      MissesStep(sets, assoc, trace + a, front, x);
    }
  }

  lemma NoMisses(sets: nat, assoc: nat, trace: seq<nat>)
    requires sets > 0 && assoc > 0
    ensures Misses(sets, assoc, trace, []) == []
  {
  }

  // ---------------------------------------------------------------- the levels

  class Levels {
    const inst: Level
    const data: Level
    const second: Level
    var instMisses: nat
    var dataMisses: nat
    var secondMisses: nat

    ghost function Repr(): set<object>
    {
      {this, inst, inst.lines, data, data.lines, second, second.lines}
    }

    ghost predicate Valid()
      reads this, inst, inst.lines, data, data.lines, second, second.lines
    {
      && inst != data && inst != second && data != second
      && inst.lines != data.lines && inst.lines != second.lines && data.lines != second.lines
      && inst.Valid() && data.Valid() && second.Valid()
    }

    function Geometry(): Shapes
    {
      Shapes(Shape(inst.sets, inst.assoc), Shape(data.sets, data.assoc), Shape(second.sets, second.assoc))
    }

    ghost function State(): Seen
      reads this, inst, data, second
    {
      Seen(inst.trace, data.trace, second.trace, instMisses, dataMisses, secondMisses)
    }

    constructor (i: Shape, d: Shape, s: Shape, ghost ki: nat, ghost kd: nat, ghost ks: nat)
      requires i.Ok() && d.Ok() && s.Ok() && i.sets == Pow(2, ki) && d.sets == Pow(2, kd) && s.sets == Pow(2, ks)
      ensures Valid() && fresh(Repr()) && Geometry() == Shapes(i, d, s) && State() == Seen([], [], [], 0, 0, 0)
    {
      hide Pow, SetOk, Tags;
      inst := new Level(i.sets, i.assoc, ki);
      data := new Level(d.sets, d.assoc, kd);
      second := new Level(s.sets, s.assoc, ks);
      instMisses, dataMisses, secondMisses := 0, 0, 0;
    }

    /** cycle_helper on the side that the kind of access selects. */
    method Access(addr: nat, n: nat, kind: Kind, warmup: bool)
      requires Valid() && n < 0x1_0000_0000
      modifies this, inst, inst.lines, data, data.lines, second, second.lines
      ensures Valid() && Geometry().Ok() && State() == Advance(Geometry(), old(State()), Run(addr, n), kind, warmup)
    {
      hide Pow, Misses, SetOk, Tags, Run;
      if kind.Data? {
        dataMisses, secondMisses := CycleHelper(addr, n, data, dataMisses, second, secondMisses, warmup);
      } else {
        instMisses, secondMisses := CycleHelper(addr, n, inst, instMisses, second, secondMisses, warmup);
      }
    }
  }

  class Machine {
    const tlbs: Levels
    const caches: Levels
    var userInsts: nat
    var kernInsts: nat
    var warmup: bool
    var enabled: bool

    ghost predicate Valid()
      reads this, tlbs, tlbs.Repr(), caches, caches.Repr()
    {
      tlbs.Repr() !! caches.Repr() && this !in tlbs.Repr() && this !in caches.Repr() && tlbs.Valid() && caches.Valid()
    }

    /** init_tlbcache. */
    constructor ()
      ensures Valid() && fresh(tlbs.Repr()) && fresh(caches.Repr()) && !enabled && !warmup
      ensures tlbs.Geometry() == Shapes(Shape(1, 64), Shape(1, 64), Shape(0x100, 4))
      ensures caches.Geometry() == Shapes(Shape(0x40, 8), Shape(0x40, 8), Shape(0x4000, 16))
      ensures tlbs.State() == caches.State() == Seen([], [], [], 0, 0, 0)
    {
      hide Pow, SetOk, Tags;
      SetCounts();
      tlbs := new Levels(Shape(1, 64), Shape(1, 64), Shape(0x100, 4), 0, 0, 8);
      caches := new Levels(Shape(0x40, 8), Shape(0x40, 8), Shape(0x4000, 16), 6, 6, 14);
      userInsts, kernInsts, warmup, enabled := 0, 0, false, false;
    }

    /** cycle_access, for an access whose walks are shorter than 2^32 and whose page number passes the assertion. */
    method CycleAccess(addr: nat, size: nat, asid: nat, kind: Kind)
      requires Valid() && addr < U64 && asid < 0x1_0000
      requires enabled ==> Sixty(addr) && 0 <= Spanned(addr, size, PAGE) < 0x1_0000_0000
      requires enabled ==> 0 <= Spanned(addr, size, LINE) < 0x1_0000_0000
      modifies this`userInsts, this`kernInsts, tlbs.Repr(), caches.Repr()
      ensures Valid() && tlbs.Geometry().Ok() && caches.Geometry().Ok()
      ensures !enabled ==> tlbs.State() == old(tlbs.State()) && caches.State() == old(caches.State())
      ensures enabled ==>
        tlbs.State() ==
        Advance(tlbs.Geometry(), old(tlbs.State()), Run(Entry(addr, asid), Spanned(addr, size, PAGE)), kind, warmup)
      ensures enabled ==>
        caches.State() ==
        Advance(caches.Geometry(), old(caches.State()), Run(addr / LINE, Spanned(addr, size, LINE)), kind, warmup)
      ensures var counts := enabled && kind.Inst? && !warmup;
        && userInsts == old(userInsts) + (if counts && addr / T48 == 0 then 1 else 0)
        && kernInsts == old(kernInsts) + (if counts && addr / T48 == 0xffff then 1 else 0)
    {
      hide Pow, Misses, SetOk, Tags, Run, Spanned, Entry;
      if !enabled {
        return;
      }
      if kind.Inst? && !warmup {
        userInsts := userInsts + if addr / T48 == 0 then 1 else 0;
        kernInsts := kernInsts + if addr / T48 == 0xffff then 1 else 0;
      }
      tlbs.Access(Entry(addr, asid), Spanned(addr, size, PAGE), kind, warmup);
      caches.Access(addr / LINE, Spanned(addr, size, LINE), kind, warmup);
    }
  }

  // ---------------------------------------------------------------- whole runs

  datatype Ref = Ref(addr: nat, size: nat, asid: nat, kind: Kind)
  {
    predicate Ok()
    {
      && Sixty(addr) && asid < 0x1_0000
      && 0 <= Spanned(addr, size, PAGE) < 0x1_0000_0000 && 0 <= Spanned(addr, size, LINE) < 0x1_0000_0000
    }

    function Entries(): seq<nat>
      requires Ok()
    {
      Run(Entry(addr, asid), Spanned(addr, size, PAGE))
    }

    function Lines(): seq<nat>
      requires Ok()
    {
      Run(addr / LINE, Spanned(addr, size, LINE))
    }
  }

  /** What the accesses of one kind feed to their first level. */
  function Fed(refs: seq<Ref>, kind: Kind, tlb: bool): seq<nat>
    requires forall i :: 0 <= i < |refs| ==> refs[i].Ok()
  {
    if refs == [] then [] else
    var n := |refs| - 1;
    var r := refs[n];
    Fed(refs[..n], kind, tlb) + if r.kind != kind then [] else if tlb then r.Entries() else r.Lines()
  }

  lemma FedStep(refs: seq<Ref>, i: nat, kind: Kind, tlb: bool)
    requires i < |refs| && forall i :: 0 <= i < |refs| ==> refs[i].Ok()
    ensures var r := refs[i];
      Fed(refs[..i + 1], kind, tlb) ==
      Fed(refs[..i], kind, tlb) + if r.kind != kind then [] else if tlb then r.Entries() else r.Lines()
  {
    assert refs[..i + 1][..i] == refs[..i];
  }

  lemma FedNothing(kind: Kind, tlb: bool)
    ensures Fed([], kind, tlb) == []
  {
  }

  /**
   Any accesses from when a new machine is enabled: the first levels see exactly the pages and lines of their kind, in
   order, each counter is its level's number of misses, and second levels are asked once per miss.
   */
  method Simulate(refs: seq<Ref>) returns (m: Machine)
    requires forall i :: 0 <= i < |refs| ==> refs[i].Ok()
    ensures m.Valid() && m.tlbs.Geometry().Ok() && m.caches.Geometry().Ok()
    ensures Counted(m.tlbs.Geometry(), m.tlbs.State()) && Counted(m.caches.Geometry(), m.caches.State())
    ensures m.tlbs.State().inst == Fed(refs, Inst, true) && m.tlbs.State().data == Fed(refs, Data, true)
    ensures m.caches.State().inst == Fed(refs, Inst, false) && m.caches.State().data == Fed(refs, Data, false)
  {
    hide Pow, Misses, SetOk, Tags, Run, Spanned, Entry, Fed, Counted, Advance;
    m := new Machine();
    m.enabled := true;
    StartCounted(m.tlbs.Geometry());
    StartCounted(m.caches.Geometry());
    FedNothing(Inst, true);
    FedNothing(Data, true);
    FedNothing(Inst, false);
    FedNothing(Data, false);
    assert refs[..0] == [];
    for i := 0 to |refs|
      invariant m.Valid() && fresh(m) && fresh(m.tlbs.Repr()) && fresh(m.caches.Repr()) && m.enabled && !m.warmup
      invariant m.tlbs.Geometry().Ok() && m.caches.Geometry().Ok()
      invariant Reached(m.tlbs.Geometry(), m.tlbs.State(), refs[..i], true)
      invariant Reached(m.caches.Geometry(), m.caches.State(), refs[..i], false)
    {
      var r := refs[i];
      ReachedStep(m.tlbs.Geometry(), m.tlbs.State(), refs, i, true);
      ReachedStep(m.caches.Geometry(), m.caches.State(), refs, i, false);
      m.CycleAccess(r.addr, r.size, r.asid, r.kind);
    }
    assert refs[..|refs|] == refs;
  }

  predicate Reached(g: Shapes, s: Seen, refs: seq<Ref>, tlb: bool)
    requires g.Ok() && forall i :: 0 <= i < |refs| ==> refs[i].Ok()
  {
    Counted(g, s) && s.inst == Fed(refs, Inst, tlb) && s.data == Fed(refs, Data, tlb)
  }

  lemma ReachedStep(g: Shapes, s: Seen, refs: seq<Ref>, i: nat, tlb: bool)
    requires g.Ok() && i < |refs| && (forall i :: 0 <= i < |refs| ==> refs[i].Ok()) && Reached(g, s, refs[..i], tlb)
    ensures var run := if tlb then refs[i].Entries() else refs[i].Lines();
      Reached(g, Advance(g, s, run, refs[i].kind, false), refs[..i + 1], tlb)
  {
    hide Misses, Fed, Counted, Ref.Ok, Ref.Entries, Ref.Lines;
    FedStep(refs, i, Inst, tlb);
    FedStep(refs, i, Data, tlb);
    AdvanceCounted(g, s, if tlb then refs[i].Entries() else refs[i].Lines(), refs[i].kind);
  }

  lemma StartCounted(g: Shapes)
    requires g.Ok()
    ensures Counted(g, Seen([], [], [], 0, 0, 0))
  {
    NoMisses(g.inst.sets, g.inst.assoc, []);
    NoMisses(g.data.sets, g.data.assoc, []);
    NoMisses(g.second.sets, g.second.assoc, []);
  }

  lemma SetCounts()
    ensures Pow(2, 0) == 1 && Pow(2, 6) == 0x40 && Pow(2, 8) == 0x100 && Pow(2, 14) == 0x4000
  {
    PowAdd(2, 6, 8);
    PowAdd(2, 2, 4);
    PowAdd(2, 4, 4);
    assert Pow(2, 4) == 16 && Pow(2, 2) == 4;
  }
}
