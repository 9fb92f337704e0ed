/**
 The TLB and cache simulator: set-associative levels whose sets are rotated in place, and the
 recency list they stand for.
 */
module Lru {
  import opened Arith
  import opened Sequences

  // ---------------------------------------------------------------- one set

  /** The first position of tag, or the length when it is missing. */
  function Find(ways: seq<nat>, tag: nat): (i: nat)
    ensures i <= |ways| && (forall j :: 0 <= j < i ==> ways[j] != tag) && (i < |ways| ==> ways[i] == tag)
  {
    if ways == [] then 0 else if ways[0] == tag then 0 else
    1 + Find(ways[1..], tag)
  }

  /** The way that gives up its place: the one that holds the tag, else the last one. */
  function Victim(ways: seq<nat>, tag: nat): (b: nat)
    requires ways != []
    ensures b < |ways|
  {
    var i := Find(ways, tag);
    if i == |ways| then i - 1 else i
  }

  /** An access moves the tag to the front. */
  function Boost(ways: seq<nat>, tag: nat): (r: seq<nat>)
    requires ways != []
    ensures |r| == |ways|
  {
    var b := Victim(ways, tag);
    [tag] + ways[..b] + ways[b + 1..]
  }

  /** A set of the given associativity after a sequence of tags, starting from zeros. */
  function RunSet(assoc: nat, tags: seq<nat>): (r: seq<nat>)
    requires assoc > 0
    ensures |r| == assoc
  {
    if tags == [] then seq(assoc, i => 0) else Boost(RunSet(assoc, tags[..|tags| - 1]), tags[|tags| - 1])
  }

  // ---------------------------------------------------------------- the recency list

  function Drop(s: seq<nat>, x: nat): seq<nat>
  {
    if s == [] then [] else if s[0] == x then Drop(s[1..], x) else [s[0]] + Drop(s[1..], x)
  }

  /** The distinct tags, latest first. */
  function Recency(tags: seq<nat>): seq<nat>
  {
    if tags == [] then [] else
    var x := tags[|tags| - 1];
    [x] + Drop(Recency(tags[..|tags| - 1]), x)
  }

  function Padded(s: seq<nat>, assoc: nat): (r: seq<nat>)
    ensures |r| == assoc
  {
    seq(assoc, i requires 0 <= i < assoc => if i < |s| then s[i] else 0)
  }

  ghost function Elems(s: seq<nat>): set<nat>
  {
    set x | x in s
  }

  lemma {:induction false} DropMissing(s: seq<nat>, x: nat)
    requires x !in s
    ensures Drop(s, x) == s
  {
    if s != [] {
      DropMissing(s[1..], x);
    }
  }

  lemma {:induction false} DropAt(s: seq<nat>, x: nat, p: nat)
    requires NoDup(s) && p < |s| && s[p] == x
    ensures Drop(s, x) == s[..p] + s[p + 1..]
  {
    var t := s[1..];
    assert forall i :: 0 <= i < |t| ==> t[i] == s[i + 1];
    if p == 0 {
      DropMissing(t, x);
    } else {
      DropAt(t, x, p - 1);
      assert [s[0]] + t[..p - 1] == s[..p] && t[p..] == s[p + 1..];
    }
  }

  /** Drop on a list without repetitions, whichever way x lies. */
  lemma DropSpec(s: seq<nat>, x: nat)
    requires NoDup(s)
    ensures var p := Find(s, x); Drop(s, x) == if p == |s| then s else s[..p] + s[p + 1..]
    ensures NoDup(Drop(s, x)) && x !in Drop(s, x) && Elems(Drop(s, x)) == Elems(s) - {x}
  {
    hide Drop, Find, NoDup;
    var p := Find(s, x);
    if p == |s| {
      DropMissing(s, x);
    } else {
      DropAt(s, x, p);
      CutOut(s, p);
    }
  }

  lemma CutOut(s: seq<nat>, p: nat)
    requires NoDup(s) && p < |s|
    ensures var t := s[..p] + s[p + 1..]; NoDup(t) && s[p] !in t && Elems(t) == Elems(s) - {s[p]}
  {
    var t := s[..p] + s[p + 1..];
    assert forall i :: 0 <= i < |t| ==> t[i] == s[if i < p then i else i + 1];
    forall x | x in s && x != s[p]
      ensures x in t
    {
      var i :| 0 <= i < |s| && s[i] == x;
      assert t[if i < p then i else i - 1] == x;
    }
  }

  lemma ElemsConcat(a: seq<nat>, b: seq<nat>)
    ensures Elems(a + b) == Elems(a) + Elems(b)
  {
  }

  lemma ElemsLast(a: seq<nat>, x: nat)
    ensures Elems(a + [x]) == Elems(a) + {x}
  {
  }

  lemma FrontDistinct(d: seq<nat>, x: nat)
    requires NoDup(d) && x !in d
    ensures NoDup([x] + d) && Elems([x] + d) == Elems(d) + {x}
  {
    ElemsConcat([x], d);
  }

  lemma MoveToFront(s: seq<nat>, x: nat)
    requires NoDup(s)
    ensures NoDup([x] + Drop(s, x)) && Elems([x] + Drop(s, x)) == Elems(s) + {x}
  {
    hide Drop, NoDup, Elems, Find;
    DropSpec(s, x);
    FrontDistinct(Drop(s, x), x);
  }

  /** The recency list holds every tag used, once. */
  lemma {:induction false} RecencyDistinct(tags: seq<nat>)
    ensures NoDup(Recency(tags)) && Elems(Recency(tags)) == Elems(tags)
  {
    if tags == [] {
      assert Recency(tags) == tags;
    } else {
      hide Drop, NoDup, Elems;
      var n := |tags| - 1;
      var before, x := tags[..n], tags[n];
      RecencyDistinct(before);
      MoveToFront(Recency(before), x);
      assert tags == before + [x];
      ElemsLast(before, x);
    }
  }

  /** One access keeps the set equal to the padded recency list. */
  lemma BoostPadded(s: seq<nat>, x: nat, assoc: nat)
    requires NoDup(s) && assoc > 0
    ensures Boost(Padded(s, assoc), x) == Padded([x] + Drop(s, x), assoc)
  {
    var c := Padded(s, assoc);
    var (p, b) := (Find(s, x), Victim(c, x));
    hide Drop, NoDup, Elems, Victim, Find;
    DropSpec(s, x);
    VictimPadded(s, x, assoc);
    var d := Drop(s, x);
    PaddedFront(s, d, x, assoc, p, b);
  }

  lemma PaddedFront(s: seq<nat>, d: seq<nat>, x: nat, assoc: nat, p: nat, b: nat)
    requires b < assoc && p <= |s| && d == if p == |s| then s else s[..p] + s[p + 1..]
    requires p < |s| && p < assoc ==> b == p
    requires p < |s| && p >= assoc ==> b == assoc - 1
    requires p == |s| && |s| < assoc ==> b >= |s|
    requires p == |s| && |s| >= assoc ==> b == assoc - 1
    ensures var c := Padded(s, assoc); [x] + c[..b] + c[b + 1..] == Padded([x] + d, assoc)
  {
    var c := Padded(s, assoc);
    var l, r := [x] + c[..b] + c[b + 1..], Padded([x] + d, assoc);
    forall i | 0 <= i < assoc
      ensures l[i] == r[i]
    {
      if i > 0 {
        assert r[i] == if i - 1 < |d| then d[i - 1] else 0;
        assert l[i] == c[if i - 1 < b then i - 1 else i];
      }
    }
  }

  lemma VictimPadded(s: seq<nat>, x: nat, assoc: nat)
    requires assoc > 0
    ensures var (p, b) := (Find(s, x), Victim(Padded(s, assoc), x));
      && (p < |s| && p < assoc ==> b == p)
      && (p < |s| && p >= assoc ==> b == assoc - 1)
      && (p == |s| && |s| < assoc ==> b >= |s|)
      && (p == |s| && |s| >= assoc ==> b == assoc - 1)
  {
    var c := Padded(s, assoc);
    var (p, i) := (Find(s, x), Find(c, x));
    assert p < |s| && p < assoc ==> c[p] == x;
    assert i < assoc && i < |s| ==> c[i] == s[i];
  }

  /** Every set is the recency list of the tags that reached it, cut or padded with zeros to the ways. */
  lemma {:induction false} SetIsRecency(assoc: nat, tags: seq<nat>)
    requires assoc > 0
    ensures RunSet(assoc, tags) == Padded(Recency(tags), assoc)
  {
    if tags != [] {
      var n := |tags| - 1;
      SetIsRecency(assoc, tags[..n]);
      RecencyDistinct(tags[..n]);
      BoostPadded(Recency(tags[..n]), tags[n], assoc);
    }
  }

  // ---------------------------------------------------------------- when an access hits

  /** The tag was used, and since its last use fewer than assoc distinct other tags came. */
  ghost predicate RecentlyUsed(tags: seq<nat>, tag: nat, assoc: nat)
  {
    exists p :: 0 <= p < |tags| && tags[p] == tag && tag !in tags[p + 1..] && |Elems(tags[p + 1..])| < assoc
  }

  /** The entries in front of a tag are the distinct tags used since. */
  lemma {:induction false} StackDistance(tags: seq<nat>, tag: nat, p: nat)
    requires p < |tags| && tags[p] == tag && tag !in tags[p + 1..]
    ensures var r := Recency(tags);
      var q := Find(r, tag);
      q < |r| && Elems(r[..q]) == Elems(tags[p + 1..]) && |Elems(tags[p + 1..])| == q
  {
    hide Drop, NoDup;
    var n := |tags| - 1;
    var before, x := tags[..n], tags[n];
    var was, r := Recency(before), Recency(tags);
    RecencyDistinct(before);
    RecencyDistinct(tags);
    var q := Find(r, tag);
    if p == n {
      assert q == 0;
    } else {
      assert before[p + 1..] + [x] == tags[p + 1..];
      StackDistance(before, tag, p);
      var q0 := Find(was, tag);
      assert x != tag by { assert tags[p + 1..][n - p - 1] == x; }
      FrontAfterDrop(was, x, tag);
      ElemsConcat(before[p + 1..], [x]);
    }
    PrefixSize(r, q);
  }

  /** Moving x to the front puts x and the others before tag in front of it. */
  lemma FrontAfterDrop(s: seq<nat>, x: nat, tag: nat)
    requires NoDup(s) && tag in s && x != tag
    ensures var r := [x] + Drop(s, x);
      Find(r, tag) < |r| && Elems(r[..Find(r, tag)]) == Elems(s[..Find(s, tag)]) + {x}
  {
    hide Drop, Find, NoDup, Elems;
    DropSpec(s, x);
    var r := [x] + Drop(s, x);
    FrontDistinct(Drop(s, x), x);
    var (d, q) := (Find(s, x), Find(s, tag));
    if d < q {
      FrontShift(s, d, q);
      FindUnique(r, tag, q);
    } else {
      FrontStay(s, d, q, x);
      FindUnique(r, tag, q + 1);
    }
  }

  lemma FrontStay(s: seq<nat>, d: nat, q: nat, x: nat)
    requires q < d <= |s|
    ensures var r := [x] + (if d == |s| then s else s[..d] + s[d + 1..]);
      r[q + 1] == s[q] && Elems(r[..q + 1]) == Elems(s[..q]) + {x}
  {
    var r := [x] + (if d == |s| then s else s[..d] + s[d + 1..]);
    assert r[..q + 1] == [x] + s[..q];
    ElemsConcat([x], s[..q]);
  }

  lemma FrontShift(s: seq<nat>, d: nat, q: nat)
    requires NoDup(s) && d < q < |s|
    ensures var r := [s[d]] + (s[..d] + s[d + 1..]); r[q] == s[q] && Elems(r[..q]) == Elems(s[..q]) + {s[d]}
  {
    hide NoDup;
    var r := [s[d]] + (s[..d] + s[d + 1..]);
    var front := s[..q];
    PrefixDistinct(s, q);
    CutOut(front, d);
    assert r[..q] == [s[d]] + (front[..d] + front[d + 1..]);
    ElemsConcat([s[d]], front[..d] + front[d + 1..]);
    assert front[d] == s[d];
  }

  lemma PrefixDistinct(s: seq<nat>, q: nat)
    requires NoDup(s) && q <= |s|
    ensures NoDup(s[..q])
  {
  }

  lemma FindUnique(s: seq<nat>, tag: nat, q: nat)
    requires NoDup(s) && q < |s| && s[q] == tag
    ensures Find(s, tag) == q
  {
  }

  lemma ElemsPush(s: seq<nat>, x: nat)
    requires x !in s
    ensures |Elems(s + [x])| == |Elems(s)| + 1
  {
    assert Elems(s + [x]) == Elems(s) + {x};
  }

  lemma {:induction false} PrefixSize(s: seq<nat>, q: nat)
    requires NoDup(s) && q <= |s|
    ensures |Elems(s[..q])| == q
  {
    if q > 0 {
      PrefixSize(s, q - 1);
      var front, x := s[..q - 1], s[q - 1];
      assert s[..q] == front + [x];
      assert x !in front;
      ElemsPush(front, x);
    }
  }

  lemma {:induction false} LastUse(tags: seq<nat>, tag: nat) returns (p: nat)
    requires tag in tags
    ensures p < |tags| && tags[p] == tag && tag !in tags[p + 1..]
  {
    var n := |tags| - 1;
    if tags[n] == tag {
      p := n;
    } else {
      p := LastUse(tags[..n], tag);
      assert tags[p + 1..] == tags[..n][p + 1..] + [tags[n]];
    }
  }

  /** A tag stands in the first assoc places exactly when it was recently used. */
  lemma RecentlyUsedMeaning(tags: seq<nat>, tag: nat, assoc: nat)
    ensures RecentlyUsed(tags, tag, assoc) <==>
      Find(Recency(tags), tag) < |Recency(tags)| && Find(Recency(tags), tag) < assoc
  {
    var r := Recency(tags);
    var q := Find(r, tag);
    RecencyDistinct(tags);
    if q < |r| && q < assoc {
      assert tag in Elems(tags);
      var p := LastUse(tags, tag);
      StackDistance(tags, tag, p);
    }
    if RecentlyUsed(tags, tag, assoc) {
      var p :| 0 <= p < |tags| && tags[p] == tag && tag !in tags[p + 1..] && |Elems(tags[p + 1..])| < assoc;
      StackDistance(tags, tag, p);
    }
  }

  /**
   An access hits exactly when its tag was recently used, except for a zero tag that was never used
   while the set still has unused ways: the padding is taken for it.
   */
  lemma HitExact(assoc: nat, tags: seq<nat>, tag: nat)
    requires assoc > 0
    ensures tag in RunSet(assoc, tags) <==>
      RecentlyUsed(tags, tag, assoc) || (tag == 0 && 0 !in tags && |Elems(tags)| < assoc)
  {
    SetIsRecency(assoc, tags);
    RecencyDistinct(tags);
    RecentlyUsedMeaning(tags, tag, assoc);
    var r := Recency(tags);
    var (c, q) := (Padded(r, assoc), Find(r, tag));
    PrefixSize(r, |r|);
    assert r[..|r|] == r;
    assert tag in tags <==> tag in Elems(r);
    if q < |r| && q < assoc {
      assert c[q] == tag;
    } else if tag == 0 && |r| < assoc {
      assert c[|r|] == 0;
    } else {
      assert forall j :: 0 <= j < assoc ==> c[j] != tag by {
        forall j | 0 <= j < assoc
          ensures c[j] != tag
        {
        }
      }
    }
  }

  /** The simulator is true LRU on an access if and only if the access is not such a first zero tag. */
  lemma TrueLruIff(assoc: nat, tags: seq<nat>, tag: nat)
    requires assoc > 0
    ensures (tag in RunSet(assoc, tags) <==> RecentlyUsed(tags, tag, assoc)) <==>
      tag != 0 || 0 in tags || |Elems(tags)| >= assoc
  {
    HitExact(assoc, tags, tag);
    if RecentlyUsed(tags, tag, assoc) {
      var p :| 0 <= p < |tags| && tags[p] == tag && tag !in tags[p + 1..] && |Elems(tags[p + 1..])| < assoc;
    }
  }

  /** The stack property: a set with fewer ways is a prefix of one with more. */
  lemma {:induction false} Inclusion(small: nat, large: nat, tags: seq<nat>)
    requires 0 < small <= large
    ensures RunSet(small, tags) == RunSet(large, tags)[..small]
  {
    if tags != [] {
      var n := |tags| - 1;
      Inclusion(small, large, tags[..n]);
      BoostPrefix(RunSet(large, tags[..n]), small, tags[n]);
    }
  }

  lemma BoostPrefix(s: seq<nat>, small: nat, tag: nat)
    requires 0 < small <= |s|
    ensures Boost(s[..small], tag) == Boost(s, tag)[..small]
  {
    var (i, j) := (Find(s[..small], tag), Find(s, tag));
    assert i < small ==> s[..small][i] == s[i];
    assert j < small ==> s[..small][j] == s[j];
    var l, r := Boost(s[..small], tag), Boost(s, tag)[..small];
    forall k | 0 <= k < small
      ensures l[k] == r[k]
    {
    }
  }

  /** More ways never turn a hit into a miss. */
  lemma MoreWaysKeepHits(small: nat, large: nat, tags: seq<nat>, tag: nat)
    requires 0 < small <= large && tag in RunSet(small, tags)
    ensures tag in RunSet(large, tags)
  {
    Inclusion(small, large, tags);
  }

  // ---------------------------------------------------------------- sets and tags

  /** vallog2: the number of trailing zero bits, which is the logarithm of a power of two. */
  method ValLog2(val: nat) returns (logval: nat)
    requires val > 0
    ensures exists odd: nat :: odd % 2 == 1 && val == Pow(2, logval) * odd
  {
    var v := val;
    logval := 0;
    while v % 2 == 0
      invariant v > 0 && val == Pow(2, logval) * v
      decreases v
    {
      DoubleStep(val, Pow(2, logval), v / 2);
      v := v / 2;
      logval := logval + 1;
    }
  }

  lemma DoubleStep(val: int, p: int, h: int)
    requires val == p * (2 * h)
    ensures val == (2 * p) * h
  {
    MulAssoc(p, 2, h);
  }

  /** On a power of two the count is the exponent. */
  lemma {:induction false} LogOfPower(k: nat, logval: nat, odd: nat)
    requires odd % 2 == 1 && Pow(2, k) == Pow(2, logval) * odd
    ensures k == logval && odd == 1
  {
    if logval > 0 {
      var p: int := Pow(2, logval - 1);
      MulAssoc(2, p, odd);
      PowPos(2, k);
      assert k > 0;
      LogOfPower(k - 1, logval - 1, odd);
    }
  }

  /** Set and tag together determine the address. */
  lemma SplitExact(a: nat, b: nat, sets: nat)
    requires sets > 0
    ensures a == b <==> a % sets == b % sets && a / sets == b / sets
  {
    DivMod(a, sets);
    DivMod(b, sets);
    if a / sets == b / sets {
      MulCong(a / sets, b / sets, sets);
    }
  }

  /** The tags of one set, in the order the accesses reached it. */
  function Tags(trace: seq<nat>, sets: nat, s: nat): seq<nat>
    requires sets > 0
  {
    if trace == [] then [] else
    var n := |trace| - 1;
    var before := Tags(trace[..n], sets, s);
    if trace[n] % sets == s then before + [trace[n] / sets] else before
  }

  lemma {:induction false} TagsConcat(a: seq<nat>, b: seq<nat>, sets: nat, s: nat)
    requires sets > 0
    ensures Tags(a + b, sets, s) == Tags(a, sets, s) + Tags(b, sets, s)
  {
    if b == [] {
      assert a + b == a;
    } else {
      var n := |b| - 1;
      assert (a + b)[..|a| + n] == a + b[..n];
      TagsConcat(a, b[..n], sets, s);
    }
  }

  lemma {:induction false} TagsMember(trace: seq<nat>, sets: nat, addr: nat)
    requires sets > 0
    ensures addr / sets in Tags(trace, sets, addr % sets) <==> addr in trace
  {
    if trace != [] {
      var n := |trace| - 1;
      TagsMember(trace[..n], sets, addr);
      SplitExact(trace[n], addr, sets);
      assert trace == trace[..n] + [trace[n]];
    }
  }

  // ---------------------------------------------------------------- whole traces

  /** The level holds the line after the trace. */
  predicate Hit(sets: nat, assoc: nat, trace: seq<nat>, addr: nat)
    requires sets > 0 && assoc > 0
  {
    addr / sets in RunSet(assoc, Tags(trace, sets, addr % sets))
  }

  /** The line was touched before, and fewer than assoc other lines of its set were touched since. */
  ghost predicate LruHit(sets: nat, assoc: nat, trace: seq<nat>, addr: nat)
    requires sets > 0
  {
    exists p :: 0 <= p < |trace| && trace[p] == addr && addr !in trace[p + 1..]
             && |Elems(Tags(trace[p + 1..], sets, addr % sets))| < assoc
  }

  lemma LruHitTags(sets: nat, assoc: nat, trace: seq<nat>, addr: nat)
    requires sets > 0
    ensures LruHit(sets, assoc, trace, addr) <==> RecentlyUsed(Tags(trace, sets, addr % sets), addr / sets, assoc)
  {
    hide Tags, Elems;
    var s, tag, tags := addr % sets, addr / sets, Tags(trace, sets, addr % sets);
    TagsMember(trace, sets, addr);
    if addr in trace {
      var p := LastUse(trace, addr);
      LastTag(trace, sets, addr, p);
      LruHitAt(sets, assoc, trace, addr, p);
      RecentlyUsedAt(tags, tag, assoc, |Tags(trace[..p], sets, s)|);
    }
  }

  lemma LruHitAt(sets: nat, assoc: nat, trace: seq<nat>, addr: nat, p: nat)
    requires sets > 0 && p < |trace| && trace[p] == addr && addr !in trace[p + 1..]
    ensures LruHit(sets, assoc, trace, addr) <==> |Elems(Tags(trace[p + 1..], sets, addr % sets))| < assoc
  {
    hide Tags, Elems;
    LastUnique(trace, addr, p);
  }

  lemma RecentlyUsedAt(tags: seq<nat>, tag: nat, assoc: nat, p: nat)
    requires p < |tags| && tags[p] == tag && tag !in tags[p + 1..]
    ensures RecentlyUsed(tags, tag, assoc) <==> |Elems(tags[p + 1..])| < assoc
  {
    hide Elems;
    LastUnique(tags, tag, p);
  }

  lemma TagsOne(sets: nat, addr: nat)
    requires sets > 0
    ensures Tags([addr], sets, addr % sets) == [addr / sets]
  {
    assert [addr][..0] == [];
  }

  /** Where the last use of an address lies among the tags of its set. */
  lemma LastTag(trace: seq<nat>, sets: nat, addr: nat, p: nat)
    requires sets > 0 && p < |trace| && trace[p] == addr && addr !in trace[p + 1..]
    ensures var (tags, m) := (Tags(trace, sets, addr % sets), |Tags(trace[..p], sets, addr % sets)|);
      && m < |tags| && tags[m] == addr / sets && tags[m + 1..] == Tags(trace[p + 1..], sets, addr % sets)
      && addr / sets !in tags[m + 1..]
  {
    hide Tags;
    var s := addr % sets;
    assert trace == trace[..p] + ([addr] + trace[p + 1..]);
    TagsConcat(trace[..p], [addr] + trace[p + 1..], sets, s);
    TagsConcat([addr], trace[p + 1..], sets, s);
    TagsOne(sets, addr);
    TagsMember(trace[p + 1..], sets, addr);
  }

  /** A last use is the only one. */
  lemma LastUnique(s: seq<nat>, x: nat, p: nat)
    requires p < |s| && s[p] == x && x !in s[p + 1..]
    ensures forall q :: 0 <= q < |s| && s[q] == x && x !in s[q + 1..] ==> q == p
  {
    forall q | 0 <= q < p
      ensures s[q] == x ==> x in s[q + 1..]
    {
      assert s[q + 1..][p - q - 1] == x;
    }
    forall q | p < q < |s|
      ensures s[q] != x
    {
      assert s[p + 1..][q - p - 1] == s[q];
    }
  }

  /** Over any trace the level is a true LRU cache exactly outside the first touches of tag zero. */
  lemma LevelIsLru(sets: nat, assoc: nat, trace: seq<nat>, addr: nat)
    requires sets > 0 && assoc > 0
    ensures (Hit(sets, assoc, trace, addr) <==> LruHit(sets, assoc, trace, addr)) <==>
      addr >= sets || addr in trace || |Elems(Tags(trace, sets, addr))| >= assoc
  {
    hide RunSet, Tags, Elems, LruHit, RecentlyUsed;
    LruHitTags(sets, assoc, trace, addr);
    TrueLruIff(assoc, Tags(trace, sets, addr % sets), addr / sets);
    TagsMember(trace, sets, addr);
    ZeroTag(addr, sets);
  }

  lemma ZeroTag(addr: nat, sets: nat)
    requires sets > 0
    ensures addr / sets == 0 <==> addr < sets
    ensures addr < sets ==> addr % sets == addr
  {
    DivMod(addr, sets);
    if addr < sets {
      DivUnique(addr, sets, 0, addr);
    }
  }

  /** The accesses that miss, in order. */
  function Misses(sets: nat, assoc: nat, trace: seq<nat>, accs: seq<nat>): (r: seq<nat>)
    requires sets > 0 && assoc > 0
  {
    if accs == [] then [] else
    var n := |accs| - 1;
    var before := Misses(sets, assoc, trace, accs[..n]);
    if Hit(sets, assoc, trace + accs[..n], accs[n]) then before else before + [accs[n]]
  }

  /** Over every trace, more ways in the same sets never miss more. */
  lemma {:induction false} MoreWaysFewerMisses(sets: nat, small: nat, large: nat, trace: seq<nat>, accs: seq<nat>)
    requires sets > 0 && 0 < small <= large
    ensures |Misses(sets, large, trace, accs)| <= |Misses(sets, small, trace, accs)|
  {
    if accs != [] {
      var n := |accs| - 1;
      MoreWaysFewerMisses(sets, small, large, trace, accs[..n]);
      var (t, a) := (trace + accs[..n], accs[n]);
      if Hit(sets, small, t, a) {
        MoreWaysKeepHits(small, large, Tags(t, sets, a % sets), a / sets);
      }
    }
  }

  // ---------------------------------------------------------------- the levels

  /** access_cache on one set: the scan and the rotation. */
  method AccessSet(lines: array<nat>, at: nat, assoc: nat, tag: nat) returns (r: nat)
    requires assoc > 0 && at + assoc <= lines.Length
    modifies lines
    ensures lines[at..at + assoc] == Boost(old(lines[at..at + assoc]), tag)
    ensures lines[..at] == old(lines[..at]) && lines[at + assoc..] == old(lines[at + assoc..])
    ensures r == 0 <==> tag in old(lines[at..at + assoc])
    ensures r != 0 ==> r == if old(lines[at + assoc - 1]) == 0 then 1 else old(lines[at + assoc - 1])
  {
    ghost var ways := lines[at..at + assoc];
    var evicted := lines[at + assoc - 1];
    var idx := 0;
    while idx < assoc
      invariant 0 <= idx <= assoc && forall k :: 0 <= k < idx ==> ways[k] != tag
    {
      if lines[at + idx] == tag {
        break;
      }
      assert ways[idx] == lines[at + idx];
      idx := idx + 1;
    }
    FirstFound(ways, tag, idx);
    var bounded := if idx == assoc then assoc - 1 else idx;
    ghost var before := lines[..];
    Rotate(lines, at, bounded, tag);
    RotatedIsBoost(before, lines[..], at, assoc, tag, bounded);
    if idx == assoc {
      r := if evicted != 0 then evicted else 1;
    } else {
      r := 0;
    }
  }

  /** The boosting loop: entries before the victim move one place down. */
  method Rotate(lines: array<nat>, at: nat, bounded: nat, tag: nat)
    requires at + bounded < lines.Length
    modifies lines
    ensures forall k :: 0 <= k < lines.Length ==>
      lines[k] == if k == at then tag else if at < k <= at + bounded then old(lines[k - 1]) else old(lines[k])
  {
    var j := 0;
    while j < bounded
      invariant 0 <= j <= bounded
      invariant forall k :: 0 <= k < lines.Length ==>
        lines[k] == if at + bounded - j < k <= at + bounded then old(lines[k - 1]) else old(lines[k])
    {
      lines[at + (bounded - j)] := lines[at + (bounded - j - 1)];
      j := j + 1;
    }
    lines[at] := tag;
  }

  lemma RotatedIsBoost(before: seq<nat>, after: seq<nat>, at: nat, assoc: nat, tag: nat, bounded: nat)
    requires assoc > 0 && at + assoc <= |before| == |after| && bounded == Victim(before[at..at + assoc], tag)
    requires forall k {:trigger after[k]} :: 0 <= k < |before| ==>
      after[k] == if k == at then tag else if at < k <= at + bounded then before[k - 1] else before[k]
    ensures after[at..at + assoc] == Boost(before[at..at + assoc], tag)
    ensures after[..at] == before[..at] && after[at + assoc..] == before[at + assoc..]
  {
    hide Victim;
    var l, r := after[at..at + assoc], Boost(before[at..at + assoc], tag);
    forall k | 0 <= k < assoc
      ensures l[k] == r[k]
    {
      assert l[k] == after[at + k];
    }
    assert forall k :: 0 <= k < at ==> after[k] == before[k];
    assert forall k :: at + assoc <= k < |after| ==> after[k] == before[k];
  }

  lemma FirstFound(s: seq<nat>, tag: nat, i: nat)
    requires i <= |s| && (forall j :: 0 <= j < i ==> s[j] != tag) && (i < |s| ==> s[i] == tag)
    ensures Find(s, tag) == i && (i < |s| <==> tag in s)
  {
  }

  /** The slice of a level's array that belongs to set s. */
  ghost predicate SetOk(lines: seq<nat>, assoc: nat, s: nat, tags: seq<nat>)
  {
    assoc > 0 && assoc * s + assoc <= |lines| && lines[assoc * s..assoc * s + assoc] == RunSet(assoc, tags)
  }

  lemma SliceBounds(assoc: nat, s: nat, sets: nat)
    requires s < sets
    ensures assoc * s + assoc <= assoc * sets
  {
    MulMono(s + 1, sets, assoc);
    MulDist(assoc, s, 1);
  }

  /** Rewriting one set leaves the others alone. */
  lemma OtherSets(lines: seq<nat>, lines': seq<nat>, assoc: nat, s: nat, t: nat, tags: seq<nat>)
    requires SetOk(lines, assoc, t, tags) && s != t && assoc * s + assoc <= |lines| == |lines'|
    requires lines'[..assoc * s] == lines[..assoc * s] && lines'[assoc * s + assoc..] == lines[assoc * s + assoc..]
    ensures SetOk(lines', assoc, t, tags)
  {
    hide RunSet;
    if t < s {
      SliceBounds(assoc, t, s);
      SliceInside(lines, lines', assoc * s, assoc * s + assoc, assoc * t, assoc);
    } else {
      SliceBounds(assoc, s, t);
      SliceInside(lines, lines', assoc * s, assoc * s + assoc, assoc * t, assoc);
    }
  }

  lemma SliceInside(l: seq<nat>, m: seq<nat>, u: nat, w: nat, v: nat, n: nat)
    requires u <= w <= |l| == |m| && l[..u] == m[..u] && l[w..] == m[w..] && v + n <= |l| && (v + n <= u || w <= v)
    ensures l[v..v + n] == m[v..v + n]
  {
    forall k | v <= k < v + n
      ensures l[k] == m[k]
    {
      if k < u {
        assert l[k] == l[..u][k] && m[k] == m[..u][k];
      } else {
        assert l[k] == l[w..][k - w] && m[k] == m[w..][k - w];
      }
    }
  }

  class Level {
    const sets: nat
    const assoc: nat
    const setmask: nat
    const tagshift: nat
    const lines: array<nat>
    ghost var trace: seq<nat>

    /** Every set is what the tags that reached it make of it. */
    ghost predicate Valid()
      reads this, lines
    {
      && assoc > 0 && sets > 0 && sets == Pow(2, tagshift) && setmask == sets - 1 && lines.Length == assoc * sets
      && forall s :: 0 <= s < sets ==> SetOk(lines[..], assoc, s, Tags(trace, sets, s))
    }

    constructor (sets_: nat, assoc_: nat, ghost k: nat)
      requires sets_ == Pow(2, k) && sets_ > 0 && assoc_ > 0
      ensures Valid() && sets == sets_ && assoc == assoc_ && trace == [] && fresh(lines)
    {
      sets := sets_;
      assoc := assoc_;
      setmask := sets_ - 1;
      var shift := ValLog2(sets_);
      ghost var odd: nat :| odd % 2 == 1 && sets_ == Pow(2, shift) * odd;
      LogOfPower(k, shift, odd);
      tagshift := shift;
      lines := new nat[assoc_ * sets_](i => 0);
      trace := [];
      new;
      forall s | 0 <= s < sets
        ensures SetOk(lines[..], assoc, s, Tags(trace, sets, s))
      {
        SliceBounds(assoc, s, sets);
      }
    }

    /** access_cache: zero on a hit, else the evicted tag, or one when the way was unused. */
    method Access(addr: nat) returns (r: nat)
      requires Valid()
      modifies this, lines
      ensures Valid() && trace == old(trace) + [addr]
      ensures r == 0 <==> Hit(sets, assoc, old(trace), addr)
    {
      hide RunSet, Boost, Pow, BitAnd, Tags;
      MaskIsMod(addr, tagshift);
      var s := BitAnd(addr, setmask);
      var tag := addr / Pow(2, tagshift);
      SliceBounds(assoc, s, sets);
      var at := assoc * s;
      ghost var before, tags := lines[..], Tags(trace, sets, s);
      assert SetOk(before, assoc, s, tags);
      r := AccessSet(lines, at, assoc, tag);
      AccessStep(before, lines[..], sets, assoc, trace, addr, at);
      trace := trace + [addr];
    }
  }

  lemma AccessStep(lines: seq<nat>, lines': seq<nat>, sets: nat, assoc: nat, trace: seq<nat>, addr: nat, at: nat)
    requires assoc > 0 && sets > 0 && |lines| == |lines'| == assoc * sets
    requires forall s :: 0 <= s < sets ==> SetOk(lines, assoc, s, Tags(trace, sets, s))
    requires at == assoc * (addr % sets) && at + assoc <= |lines|
    requires lines'[at..at + assoc] == Boost(lines[at..at + assoc], addr / sets)
    requires lines'[..at] == lines[..at] && lines'[at + assoc..] == lines[at + assoc..]
    ensures forall t :: 0 <= t < sets ==> SetOk(lines', assoc, t, Tags(trace + [addr], sets, t))
  {
    hide RunSet, Boost, Tags;
    var s := addr % sets;
    forall t | 0 <= t < sets
      ensures SetOk(lines', assoc, t, Tags(trace + [addr], sets, t))
    {
      TagsStep(trace, addr, sets, t);
      assert SetOk(lines, assoc, t, Tags(trace, sets, t));
      if t != s {
        OtherSets(lines, lines', assoc, s, t, Tags(trace, sets, t));
      } else {
        RunSetStep(assoc, Tags(trace, sets, s), addr / sets);
      }
    }
  }

  lemma TagsStep(trace: seq<nat>, addr: nat, sets: nat, s: nat)
    requires sets > 0
    ensures Tags(trace + [addr], sets, s) ==
      if addr % sets == s then Tags(trace, sets, s) + [addr / sets] else Tags(trace, sets, s)
  {
    assert (trace + [addr])[..|trace|] == trace;
  }

  lemma RunSetStep(assoc: nat, tags: seq<nat>, tag: nat)
    requires assoc > 0
    ensures RunSet(assoc, tags + [tag]) == Boost(RunSet(assoc, tags), tag)
  {
    assert (tags + [tag])[..|tags|] == tags;
  }

  // ---------------------------------------------------------------- two levels

  const U64: nat := 0x1_0000_0000_0000_0000

  /** The consecutive lines of one access; addresses wrap at 64 bits. */
  function Run(addr: nat, n: nat): (r: seq<nat>)
  {
    seq(n, i requires 0 <= i < n => (addr + i) % U64)
  }

  lemma RunEmpty(addr: nat)
    ensures Run(addr, 0) == []
  {
  }

  lemma RunStep(addr: nat, n: nat)
    ensures Run(addr, n + 1) == Run(addr, n) + [(addr + n) % U64]
  {
  }

  /**
   cycle_helper without inclusion: the first level sees every line of the access, the second
   exactly the first level's misses in order, and outside warm-up each counter grows by the
   misses of its own level.
   */
  method CycleHelper(addr: nat, size: nat, l1: Level, l1stat: nat, l2: Level, l2stat: nat, warmup: bool)
    returns (s1: nat, s2: nat)
    requires l1.Valid() && l2.Valid() && l1 != l2 && l1.lines != l2.lines && size < 0x1_0000_0000
    modifies l1, l1.lines, l2, l2.lines
    ensures l1.Valid() && l2.Valid()
    ensures l1.trace == old(l1.trace) + Run(addr, size)
    ensures var missed := Misses(l1.sets, l1.assoc, old(l1.trace), Run(addr, size));
      && l2.trace == old(l2.trace) + missed
      && s1 == l1stat + (if warmup then 0 else |missed|)
      && s2 == l2stat + (if warmup then 0 else |Misses(l2.sets, l2.assoc, old(l2.trace), missed)|)
  {
    hide Hit, SetOk, Tags, Pow, Run;
    RunEmpty(addr);
    s1, s2 := l1stat, l2stat;
    var i := 0;
    ghost var run, missed := [], [];
    while i < size
      invariant 0 <= i <= size && l1.Valid() && l2.Valid()
      invariant run == Run(addr, i) && l1.trace == old(l1.trace) + run
      invariant missed == Misses(l1.sets, l1.assoc, old(l1.trace), run) && l2.trace == old(l2.trace) + missed
      invariant s1 == l1stat + (if warmup then 0 else |missed|)
      invariant s2 == l2stat + (if warmup then 0 else |Misses(l2.sets, l2.assoc, old(l2.trace), missed)|)
    {
      var a := (addr + i) % U64;
      var r := l1.Access(a);
      MissesStep(l1.sets, l1.assoc, old(l1.trace), run, a);
      RunStep(addr, i);
      run := run + [a];
      if r != 0 {
        if !warmup {
          s1 := s1 + 1;
        }
        var evicted := l2.Access(a);
        MissesStep(l2.sets, l2.assoc, old(l2.trace), missed, a);
        missed := missed + [a];
        if evicted != 0 && !warmup {
          s2 := s2 + 1;
        }
      }
      i := i + 1;
    }
  }

  lemma MissesStep(sets: nat, assoc: nat, trace: seq<nat>, accs: seq<nat>, a: nat)
    requires sets > 0 && assoc > 0
    ensures Misses(sets, assoc, trace, accs + [a]) ==
      Misses(sets, assoc, trace, accs) + if Hit(sets, assoc, trace + accs, a) then [] else [a]
  {
    assert (accs + [a])[..|accs|] == accs;
  }

  // ---------------------------------------------------------------- addresses

  /** How many pages or lines cycle_access walks for an access. */
  function Spanned(addr: nat, size: nat, granule: nat): int
    requires granule > 0
  {
    (addr + size - 1) % U64 / granule - addr / granule + 1
  }

  /** They are exactly the granules that the bytes of the access touch. */
  lemma SpanExact(addr: nat, size: nat, granule: nat, x: int)
    requires granule > 0 && size > 0 && addr + size <= U64
    ensures addr / granule <= x < addr / granule + Spanned(addr, size, granule) <==>
      exists a :: addr <= a < addr + size && a / granule == x
  {
    var last := addr + size - 1;
    var (lo, hi) := (addr / granule, last / granule);
    assert Spanned(addr, size, granule) == hi - lo + 1;
    hide Spanned;
    if lo <= x <= hi {
      var a := TouchedAt(addr, last, granule, x);
    }
    forall a | addr <= a < addr + size && a / granule == x
      ensures lo <= x <= hi
    {
      DivMono(addr, a, granule);
      DivMono(a, last, granule);
    }
  }

  /** The first touched byte of a granule between those of the first and the last byte. */
  lemma TouchedAt(addr: nat, last: nat, granule: nat, x: int) returns (a: nat)
    requires granule > 0 && addr <= last && addr / granule <= x <= last / granule
    ensures addr <= a <= last && a / granule == x
  {
    hide *;
    if x == addr / granule {
      a := addr;
    } else {
      GranuleInside(addr, last, granule, x);
      a := granule * x;
    }
  }

  /** A granule that begins between two addresses. */
  lemma GranuleInside(addr: nat, last: nat, granule: nat, x: int)
    requires granule > 0 && addr / granule < x <= last / granule
    ensures addr <= granule * x <= last && (granule * x) / granule == x
  {
    hide *;
    var lo, hi := addr / granule, last / granule;
    DivMod(addr, granule);
    DivMod(last, granule);
    MulMono(lo + 1, x, granule);
    MulMono(x, hi, granule);
    MulDist(granule, lo, 1);
    DivUnique(granule * x, granule, x, 0);
  }

  lemma DivMono(a: int, b: int, n: int)
    requires n > 0 && 0 <= a <= b
    ensures a / n <= b / n
  {
    var qa: int, qb: int := a / n, b / n;
    DivMod(a, n);
    DivMod(b, n);
    if qa > qb {
      MulMono(qb + 1, qa, n);
      MulDist(n, qb, 1);
    }
  }

  const T48: nat := 0x1_0000_0000_0000

  /** The top 16 bits of a page number; the assertion in mixpageasid wants them all equal. */
  predicate Canonical(pageno: nat)
  {
    pageno / T48 == 0 || pageno / T48 == 0xffff
  }

  /** mixpageasid. */
  function MixPageAsid(pageno: nat, asid: nat): nat
    requires Canonical(pageno) && asid < 0x1_0000
  {
    BitOr(Shl(asid, 48), pageno)
  }

  /**
   Two entries share a tag exactly when they name the same page of the same address space, the
   same kernel page under any two address spaces, or when one is a user page of address space
   0xffff and the other the kernel page with the same low bits.
   */
  lemma MixCollision(p: nat, a: nat, q: nat, b: nat)
    requires Canonical(p) && Canonical(q) && a < 0x1_0000 && b < 0x1_0000
    ensures MixPageAsid(p, a) == MixPageAsid(q, b) <==>
      || (p == q && (a == b || p / T48 == 0xffff))
      || (p != q && p % T48 == q % T48 && (if p / T48 == 0 then a == 0xffff else b == 0xffff))
  {
    hide MixPageAsid;
    MixParts(p, a);
    MixParts(q, b);
  }

  /** The low 48 bits are the page's; the high ones the address space, or all ones for the kernel. */
  lemma MixParts(p: nat, a: nat)
    requires Canonical(p) && a < 0x1_0000
    ensures MixPageAsid(p, a) == (if p / T48 == 0 then a else 0xffff) * T48 + p % T48
  {
    hide BitOr, Shl, Pow;
    PowerValues();
    ShlValue(p / T48, 48);
    ShlValue(BitOr(a, p / T48), 48);
    BitOrHigh(a, p / T48, p % T48, 48);
    BitOrZero(a);
    BitOrOnes(a, 16);
  }

  lemma PowerValues()
    ensures Pow(2, 16) == 0x1_0000 && Pow(2, 48) == T48
  {
    assert Pow(2, 4) == 16;
    PowAdd(2, 4, 4);
    PowAdd(2, 8, 8);
    PowAdd(2, 16, 16);
    PowAdd(2, 32, 16);
  }

  lemma BitOrZero(a: nat)
    ensures BitOr(a, 0) == a
  {
  }

  lemma {:induction false} BitOrOnes(a: nat, k: nat)
    requires a < Pow(2, k)
    ensures BitOr(a, Pow(2, k) - 1) == Pow(2, k) - 1
  {
    if k > 0 && a > 0 {
      var m: int := Pow(2, k - 1);
      assert Pow(2, k) == 2 * m;
      BitOrOnes(a / 2, k - 1);
      assert (2 * m - 1) / 2 == m - 1 && (2 * m - 1) % 2 == 1;
    }
  }

  lemma {:induction false} BitOrHigh(a: nat, t: nat, l: nat, k: nat)
    requires l < Pow(2, k)
    ensures BitOr(Shl(a, k), Shl(t, k) + l) == Shl(BitOr(a, t), k) + l
  {
    if k > 0 {
      BitOrHigh(a, t, l / 2, k - 1);
      OrDouble(Shl(a, k - 1), Shl(t, k - 1) + l / 2, l % 2);
    }
  }

  lemma OrDouble(x: nat, y: nat, bit: nat)
    requires bit <= 1
    ensures BitOr(2 * x, 2 * y + bit) == 2 * BitOr(x, y) + bit
  {
  }
}
