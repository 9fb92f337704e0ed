/**
 The key-value store: a chained hash table of intrusive, doubly linked items that live in
 fixed-size chunks handed out by a slab allocator. An item pointer is the number of its chunk
 in the one slab page the allocator carves.
 */
module Store {
  import opened Blocks
  import opened Sequences
  import opened Jenkins

  type Key = seq<Byte>
  type Value = seq<Byte>

  /** sizeof(item) on a 64-bit machine: two links, two ints and the class id, padded. */
  const HEADER: nat := 32
  const CHUNK: nat := 64
  const ROOM: nat := 32
  const PAGE_SIZE: nat := 32 * 1024 * 1024
  const PER_SLAB: nat := 524288
  const MAX_CLASSES: nat := 64
  const MAX_ITEM: nat := 16384
  const BUCKETS: nat := 65536

  /** hv & hashmask(16). */
  function Bucket(k: Key): (b: nat)
    ensures b < BUCKETS
  {
    Hash(k) % 65536
  }

  /** ITEM_ntotal. */
  function Total(k: Key, v: Value): nat
  {
    HEADER + |k| + 1 + |v| + 1
  }

  type Ptr = p: int | p >= -1 witness -1

  const NULL: Ptr := -1

  /** A chunk seen as an item: the header fields and the bytes behind them. */
  datatype Item = Item(next: Ptr, prev: Ptr, nbytes: nat, nkey: nat, clsid: nat, payload: seq<Byte>)

  predicate Fits(it: Item)
  {
    |it.payload| == ROOM && it.nkey + 1 + it.nbytes + 1 <= ROOM
  }

  /** ITEM_key and ITEM_val. */
  function KeyOf(it: Item): Key
    requires Fits(it)
  {
    it.payload[..it.nkey]
  }

  function ValueOf(it: Item): Value
    requires Fits(it)
  {
    it.payload[it.nkey + 1..it.nkey + 1 + it.nbytes]
  }

  /** An item is within the chunk size exactly when some chunk can hold it. */
  lemma SizeExact(k: Key, v: Value)
    ensures Total(k, v) <= CHUNK <==> exists it: Item :: Fits(it) && KeyOf(it) == k && ValueOf(it) == v
  {
    if Total(k, v) <= CHUNK {
      var payload := k + [0] + v + Zeros(ROOM - |k| - 1 - |v|);
      var it := Item(NULL, NULL, |v|, |k|, 1, payload);
      assert Fits(it) && KeyOf(it) == k && ValueOf(it) == v;
    }
  }

  datatype SlabClass = SlabClass(size: nat, perslab: nat, slots: Ptr, slCurr: nat, slabs: nat)

  /** Sizes double from 32 to 16384; the rest of the table stays zero. */
  function ClassSize(i: nat): nat
  {
    if i == 0 then 32 else if i < 10 then 2 * ClassSize(i - 1) else 0
  }

  // ---------------------------------------------------------------- lists in memory

  const FREE: int := -1
  const LOOSE: int := -2

  /** The item at position i of a list, nothing past its end. */
  function At(s: seq<nat>, i: nat): Ptr
  {
    if i < |s| then s[i] else NULL
  }

  function Before(s: seq<nat>, i: nat): Ptr
    requires i < |s|
  {
    if i == 0 then NULL else s[i - 1]
  }

  function Without(s: seq<nat>, i: nat): seq<nat>
    requires i < |s|
  {
    s[..i] + s[i + 1..]
  }

  /** s is the acyclic list that starts at head and follows the next links. */
  ghost predicate List(mem: seq<Item>, head: Ptr, s: seq<nat>)
  {
    && NoDup(s) && head == At(s, 0)
    && (forall i :: 0 <= i < |s| ==> s[i] < |mem|)
    && (forall i {:trigger mem[s[i]]} :: 0 <= i < |s| ==> mem[s[i]].next == At(s, i + 1))
  }

  /** The prev links run the other way. */
  ghost predicate Back(mem: seq<Item>, s: seq<nat>)
  {
    forall i :: 0 <= i < |s| ==> s[i] < |mem| && mem[s[i]].prev == Before(s, i)
  }

  /** Exactly the chunks of s belong to h. */
  ghost predicate Covers(owner: seq<int>, s: seq<nat>, h: int)
  {
    && (forall i :: 0 <= i < |s| ==> s[i] < |owner| && owner[s[i]] == h)
    && (forall x :: 0 <= x < |owner| && owner[x] == h ==> x in s)
  }

  ghost predicate Chain(mem: seq<Item>, head: Ptr, s: seq<nat>, owner: seq<int>, b: int)
  {
    List(mem, head, s) && Back(mem, s) && Covers(owner, s, b)
  }

  ghost predicate Chains(mem: seq<Item>, table: seq<Ptr>, chains: seq<seq<nat>>, owner: seq<int>)
  {
    && |table| == BUCKETS && |chains| == BUCKETS
    && forall b :: 0 <= b < BUCKETS ==> Chain(mem, table[b], chains[b], owner, b)
  }

  lemma ChainKeep(mem: seq<Item>, mem': seq<Item>, head: Ptr, s: seq<nat>, owner: seq<int>, owner': seq<int>, b: int)
    requires Chain(mem, head, s, owner, b) && |mem| == |mem'| == |owner| == |owner'|
    requires forall x :: 0 <= x < |owner| ==> (owner[x] == b <==> owner'[x] == b)
    requires forall x :: 0 <= x < |mem| && owner[x] == b ==> mem'[x] == mem[x]
    ensures Chain(mem', head, s, owner', b)
  {
  }

  lemma ChainsKeep(mem: seq<Item>, mem': seq<Item>, table: seq<Ptr>, chains: seq<seq<nat>>, owner: seq<int>,
                   owner': seq<int>)
    requires Chains(mem, table, chains, owner) && |mem| == |mem'| == |owner| == |owner'|
    requires forall x :: 0 <= x < |owner| && (owner[x] >= 0 || owner'[x] >= 0) ==> owner'[x] == owner[x]
    requires forall x :: 0 <= x < |mem| && owner[x] >= 0 ==> mem'[x] == mem[x]
    ensures Chains(mem', table, chains, owner')
  {
    hide Chain;
    forall b | 0 <= b < BUCKETS
      ensures Chain(mem', table[b], chains[b], owner', b)
    {
      ChainKeep(mem, mem', table[b], chains[b], owner, owner', b);
    }
  }

  lemma FreeKeep(mem: seq<Item>, mem': seq<Item>, head: Ptr, s: seq<nat>, owner: seq<int>, owner': seq<int>)
    requires List(mem, head, s) && Covers(owner, s, FREE) && |mem| == |mem'| == |owner| == |owner'|
    requires forall x :: 0 <= x < |owner| ==> (owner[x] == FREE <==> owner'[x] == FREE)
    requires forall x :: 0 <= x < |mem| && owner[x] == FREE ==> mem'[x].next == mem[x].next
    ensures List(mem', head, s) && Covers(owner', s, FREE)
  {
  }

  // ---------------------------------------------------------------- the invariant

  /** A chunk in a bucket holds a key of that bucket, and the index finds it there. */
  ghost predicate ItemOk(it: Item, x: nat, b: int, index: map<Key, nat>)
  {
    b >= 0 ==> Fits(it) && it.clsid == 1 && Bucket(KeyOf(it)) == b && KeyOf(it) in index && index[KeyOf(it)] == x
  }

  ghost predicate IndexOk(mem: seq<Item>, owner: seq<int>, index: map<Key, nat>)
    requires |mem| == |owner|
  {
    && (forall x :: 0 <= x < |mem| ==> |mem[x].payload| == ROOM && ItemOk(mem[x], x, owner[x], index))
    && (forall k :: k in index ==>
          index[k] < |mem| && owner[index[k]] == Bucket(k) && Fits(mem[index[k]]) && KeyOf(mem[index[k]]) == k)
  }

  /** Who owns a chunk: a bucket, the free list, or nobody for a moment. */
  ghost predicate OwnerOk(owner: seq<int>, loose: Ptr)
  {
    && (forall x :: 0 <= x < |owner| ==>
          owner[x] == FREE || 0 <= owner[x] < BUCKETS || (owner[x] == LOOSE && x == loose))
    && (loose != NULL ==> loose < |owner| && owner[loose] == LOOSE)
  }

  datatype Ghost = Ghost(free: seq<nat>, chains: seq<seq<nat>>, owner: seq<int>, index: map<Key, nat>)

  /** The whole store: every chunk is on exactly one list, or is the single loose one. */
  ghost predicate Inv(mem: seq<Item>, table: seq<Ptr>, slots: Ptr, g: Ghost, loose: Ptr)
  {
    && |mem| == PER_SLAB && |g.owner| == PER_SLAB
    && List(mem, slots, g.free) && Covers(g.owner, g.free, FREE) && Chains(mem, table, g.chains, g.owner)
    && IndexOk(mem, g.owner, g.index) && OwnerOk(g.owner, loose)
    && |g.free| + |g.index| + (if loose == NULL then 0 else 1) == PER_SLAB
  }

  /** The store as a finite map. */
  ghost function Contents(mem: seq<Item>, index: map<Key, nat>): map<Key, Value>
    requires forall k :: k in index ==> index[k] < |mem| && Fits(mem[index[k]])
  {
    map k | k in index :: ValueOf(mem[index[k]])
  }

  // ---------------------------------------------------------------- the steps

  /** slabs_alloc: the head of the free list becomes loose. */
  lemma AllocStep(mem: seq<Item>, mem': seq<Item>, table: seq<Ptr>, slots: Ptr, g: Ghost)
    requires Inv(mem, table, slots, g, NULL) && slots != NULL && |mem'| == |mem|
    requires forall x :: 0 <= x < |mem| ==> mem'[x].next == mem[x].next && |mem'[x].payload| == ROOM
    requires forall x :: 0 <= x < |mem| && g.owner[x] != FREE ==> mem'[x] == mem[x]
    ensures 0 <= slots < |mem| && g.free != []
    ensures Inv(mem', table, mem[slots].next, g.(free := g.free[1..], owner := g.owner[slots := LOOSE]), slots)
    ensures Contents(mem', g.index) == Contents(mem, g.index)
  {
    hide Bucket, Chain, Chains, Covers, IndexOk;
    var x := slots;
    var owner' := g.owner[x := LOOSE];
    var free' := g.free[1..];
    assert g.free[0] == x && owner'[x] == LOOSE;
    ListOwner(g.owner, g.free);
    assert List(mem', mem[x].next, free') && Covers(owner', free', FREE) by {
      PopFree(mem, mem', g.free, g.owner);
    }
    IndexKeep(mem, mem', g.owner, owner', g.index);
    ChainsKeep(mem, mem', table, g.chains, g.owner, owner');
  }

  lemma ListOwner(owner: seq<int>, s: seq<nat>)
    requires s != [] && Covers(owner, s, FREE)
    ensures s[0] < |owner| && owner[s[0]] == FREE
  {
  }

  lemma PopFree(mem: seq<Item>, mem': seq<Item>, s: seq<nat>, owner: seq<int>)
    requires |s| > 0 && List(mem, s[0], s) && Covers(owner, s, FREE) && |mem| == |mem'| == |owner|
    requires forall x :: 0 <= x < |mem| ==> mem'[x].next == mem[x].next
    ensures List(mem', mem[s[0]].next, s[1..]) && Covers(owner[s[0] := LOOSE], s[1..], FREE)
  {
    hide Covers;
    assert Without(s, 0) == s[1..];
    UnlinkCovers(s, 0, owner, FREE);
    var t := s[1..];
    forall i | 0 <= i < |t|
      ensures mem'[t[i]].next == At(t, i + 1)
    {
      assert t[i] == s[i + 1];
    }
  }

  /** slabs_free: the loose chunk becomes the head of the free list. */
  lemma FreeStep(mem: seq<Item>, mem': seq<Item>, table: seq<Ptr>, slots: Ptr, g: Ghost, x: nat)
    requires Inv(mem, table, slots, g, x) && |mem'| == |mem|
    requires forall y :: 0 <= y < |mem| ==> |mem'[y].payload| == ROOM
    requires forall y :: 0 <= y < |mem| && g.owner[y] >= 0 ==> mem'[y] == mem[y]
    requires forall y :: 0 <= y < |mem| && y != x ==> mem'[y].next == mem[y].next
    requires mem'[x].next == slots
    ensures Inv(mem', table, x, g.(free := [x] + g.free, owner := g.owner[x := FREE]), NULL)
    ensures Contents(mem', g.index) == Contents(mem, g.index)
  {
    hide Bucket, Chain, List, Covers, ItemOk, ValueOf;
    var owner' := g.owner[x := FREE];
    PushFree(mem, mem', slots, g.free, g.owner, x);
    ChainsKeep(mem, mem', table, g.chains, g.owner, owner');
    IndexKeep(mem, mem', g.owner, owner', g.index);
  }

  /** Chunks outside the buckets may change without the index noticing. */
  lemma IndexKeep(mem: seq<Item>, mem': seq<Item>, owner: seq<int>, owner': seq<int>, index: map<Key, nat>)
    requires |mem| == |mem'| == |owner| == |owner'| && IndexOk(mem, owner, index)
    requires forall y :: 0 <= y < |mem| ==> |mem'[y].payload| == ROOM
    requires forall y :: 0 <= y < |mem| && owner[y] >= 0 ==> mem'[y] == mem[y]
    requires forall y :: 0 <= y < |mem| && (owner[y] >= 0 || owner'[y] >= 0) ==> owner'[y] == owner[y]
    ensures IndexOk(mem', owner', index) && Contents(mem', index) == Contents(mem, index)
  {
    hide Bucket, KeyOf, ValueOf;
    forall y | 0 <= y < |mem|
      ensures |mem'[y].payload| == ROOM && ItemOk(mem'[y], y, owner'[y], index)
    {
      assert ItemOk(mem[y], y, owner[y], index);
    }
  }

  lemma PushFree(mem: seq<Item>, mem': seq<Item>, slots: Ptr, s: seq<nat>, owner: seq<int>, x: nat)
    requires List(mem, slots, s) && Covers(owner, s, FREE) && x < |mem| == |mem'| == |owner| && owner[x] == LOOSE
    requires forall y :: 0 <= y < |mem| && y != x ==> mem'[y].next == mem[y].next
    requires mem'[x].next == slots
    ensures List(mem', x, [x] + s) && Covers(owner[x := FREE], [x] + s, FREE)
  {
    hide List;
    assert x !in s;
    PushFresh(mem, mem', slots, s, x);
    PushCovers(owner, s, FREE, x);
  }

  lemma PushCovers(owner: seq<int>, s: seq<nat>, h: int, x: nat)
    requires Covers(owner, s, h) && x < |owner|
    ensures Covers(owner[x := h], [x] + s, h)
  {
    var t, owner' := [x] + s, owner[x := h];
    forall y | 0 <= y < |owner'| && owner'[y] == h
      ensures y in t
    {
      if y != x {
        assert y in s;
      }
    }
  }

  lemma PushFresh(mem: seq<Item>, mem': seq<Item>, slots: Ptr, s: seq<nat>, x: nat)
    requires List(mem, slots, s) && x < |mem| == |mem'| && x !in s
    requires forall y :: 0 <= y < |mem| && y != x ==> mem'[y].next == mem[y].next
    requires mem'[x].next == slots
    ensures List(mem', x, [x] + s)
  {
    var t := [x] + s;
    forall i | 0 <= i < |t|
      ensures mem'[t[i]].next == At(t, i + 1)
    {
      if i > 0 {
        assert t[i] == s[i - 1];
      }
    }
  }

  /** Writing into the loose chunk disturbs nothing. */
  lemma LooseWrite(mem: seq<Item>, table: seq<Ptr>, slots: Ptr, g: Ghost, x: nat, it: Item)
    requires Inv(mem, table, slots, g, x) && |it.payload| == ROOM
    ensures Inv(mem[x := it], table, slots, g, x)
    ensures Contents(mem[x := it], g.index) == Contents(mem, g.index)
  {
    hide Bucket, Chain, Chains, Covers, List;
    var mem' := mem[x := it];
    FreeKeep(mem, mem', slots, g.free, g.owner, g.owner);
    IndexKeep(mem, mem', g.owner, g.owner, g.index);
    ChainsKeep(mem, mem', table, g.chains, g.owner, g.owner);
  }

  /** The link writes of a removal: the neighbours of position i, or the head, point past it. */
  ghost predicate Relinked(mem: seq<Item>, mem': seq<Item>, head: Ptr, head': Ptr, s: seq<nat>, i: nat)
    requires i < |s| && s[i] < |mem| == |mem'|
  {
    && head' == (if i == 0 then mem[s[i]].next else head)
    && (forall y :: 0 <= y < |mem| && y != s[i] ==>
          mem'[y].next == (if i > 0 && y == s[i - 1] then mem[s[i]].next else mem[y].next))
    && (forall y :: 0 <= y < |mem| && y != s[i] ==>
          mem'[y].prev == (if i + 1 < |s| && y == s[i + 1] then Before(s, i) else mem[y].prev))
  }

  /** Removing position i from a doubly linked list. */
  lemma UnlinkList(mem: seq<Item>, mem': seq<Item>, head: Ptr, head': Ptr, s: seq<nat>, i: nat, owner: seq<int>, b: int)
    requires Chain(mem, head, s, owner, b) && i < |s| && |mem| == |mem'| == |owner| && b != LOOSE
    requires Relinked(mem, mem', head, head', s, i)
    ensures Chain(mem', head', Without(s, i), owner[s[i] := LOOSE], b)
  {
    hide Covers, NoDup, Before;
    var t: seq<nat> := Without(s, i);
    assert head' == At(t, 0) by {
      if i == 0 { assert t == s[1..]; }
    }
    forall j | 0 <= j < |t|
      ensures t[j] < |mem'| && mem'[t[j]].next == At(t, j + 1) && mem'[t[j]].prev == Before(t, j)
    {
      UnlinkNode(mem, mem', head, head', s, i, owner, b, j);
    }
    UnlinkCovers(s, i, owner, b);
  }

  lemma UnlinkCovers(s: seq<nat>, i: nat, owner: seq<int>, b: int)
    requires Covers(owner, s, b) && NoDup(s) && i < |s| && b != LOOSE
    ensures NoDup(Without(s, i)) && Covers(owner[s[i] := LOOSE], Without(s, i), b)
  {
    var t, x := Without(s, i), s[i];
    assert forall j :: 0 <= j < |t| ==> t[j] == s[if j < i then j else j + 1];
    forall y | 0 <= y < |owner| && owner[x := LOOSE][y] == b
      ensures y in t
    {
      var j :| 0 <= j < |s| && s[j] == y;
      assert t[if j < i then j else j - 1] == y;
    }
  }

  /** The node at position j of the shortened list has the right links. */
  lemma UnlinkNode(mem: seq<Item>, mem': seq<Item>, head: Ptr, head': Ptr, s: seq<nat>, i: nat, owner: seq<int>, b: int,
                   j: nat)
    requires Chain(mem, head, s, owner, b) && i < |s| && |mem| == |mem'| == |owner| && j < |s| - 1
    requires Relinked(mem, mem', head, head', s, i)
    ensures var t := Without(s, i);
      t[j] < |mem'| && mem'[t[j]].next == At(t, j + 1) && mem'[t[j]].prev == Before(t, j)
  {
    hide Covers;
    hide Relinked, Before;
    UnlinkNext(mem, mem', head, head', s, i, j);
    UnlinkPrev(mem, mem', head, head', s, i, j);
  }

  lemma UnlinkNext(mem: seq<Item>, mem': seq<Item>, head: Ptr, head': Ptr, s: seq<nat>, i: nat, j: nat)
    requires List(mem, head, s) && i < |s| && |mem| == |mem'| && j < |s| - 1 && Relinked(mem, mem', head, head', s, i)
    ensures var t := Without(s, i); t[j] < |mem'| && mem'[t[j]].next == At(t, j + 1)
  {
    var t := Without(s, i);
    UnlinkNeighbours(s, i, j);
    var m := if j < i then j else j + 1;
    assert t[j] == s[m] && s[m] != s[i];
    assert mem[s[i]].next == At(s, i + 1) && mem[s[m]].next == At(s, m + 1);
    assert i > 0 && s[m] == s[i - 1] <==> m == i - 1;
  }

  lemma UnlinkPrev(mem: seq<Item>, mem': seq<Item>, head: Ptr, head': Ptr, s: seq<nat>, i: nat, j: nat)
    requires NoDup(s) && Back(mem, s) && i < |s| && |mem| == |mem'| && j < |s| - 1
    requires s[i] < |mem| && Relinked(mem, mem', head, head', s, i)
    ensures var t := Without(s, i); t[j] < |mem'| && mem'[t[j]].prev == Before(t, j)
  {
    hide Before;
    var t := Without(s, i);
    var m := if j < i then j else j + 1;
    assert t[j] == s[m] && s[m] != s[i];
    assert mem[s[m]].prev == Before(s, m);
    assert i + 1 < |s| && s[m] == s[i + 1] <==> m == i + 1;
    UnlinkBefore(s, i, j);
  }

  lemma UnlinkBefore(s: seq<nat>, i: nat, j: nat)
    requires i < |s| && j < |s| - 1
    ensures Before(Without(s, i), j) == Before(s, if j <= i then j else j + 1)
  {
  }

  lemma UnlinkNeighbours(s: seq<nat>, i: nat, j: nat)
    requires i < |s| && j < |s| - 1
    ensures var t := Without(s, i);
      At(t, j + 1) == if j < i then (if j + 1 == i then At(s, i + 1) else s[j + 1]) else At(s, j + 2)
  {
    var t := Without(s, i);
  }

  /** item_unlink: the chunk of a key leaves its bucket and becomes loose. */
  lemma UnlinkStep(mem: seq<Item>, mem': seq<Item>, table: seq<Ptr>, head': Ptr, slots: Ptr, g: Ghost, b: nat, i: nat,
                   k: Key)
    requires Inv(mem, table, slots, g, NULL) && b < BUCKETS && i < |g.chains[b]| && |mem'| == |mem|
    requires k in g.index && g.index[k] == g.chains[b][i] < |mem|
    requires Relinked(mem, mem', table[b], head', g.chains[b], i)
    requires forall y :: 0 <= y < |mem| && g.owner[y] != b ==> mem'[y] == mem[y]
    requires forall y :: 0 <= y < |mem| ==> mem'[y] == mem[y].(next := mem'[y].next, prev := mem'[y].prev)
    ensures var s := g.chains[b];
      var g' := Ghost(g.free, g.chains[b := Without(s, i)], g.owner[s[i] := LOOSE], g.index - {k});
      && Inv(mem', table[b := head'], slots, g', s[i])
      && Contents(mem', g'.index) == Contents(mem, g.index) - {k}
  {
    hide Bucket, Chain, List, Covers, IndexOk, KeyOf, ValueOf;
    var s := g.chains[b];
    var x := s[i];
    ChainOwner(mem, table[b], s, g.owner, b, i);
    var owner', index' := g.owner[x := LOOSE], g.index - {k};
    UnlinkList(mem, mem', table[b], head', s, i, g.owner, b);
    FreeKeep(mem, mem', slots, g.free, g.owner, owner');
    ChainsReplace(mem, mem', table, g.chains, g.owner, owner', b, head', Without(s, i));
    MapRemove(g.index, k);
    UnlinkIndex(mem, mem', g.owner, g.index, x, k);
  }

  /** One bucket gets a new chain; the others see no change. */
  lemma ChainsReplace(mem: seq<Item>, mem': seq<Item>, table: seq<Ptr>, chains: seq<seq<nat>>, owner: seq<int>,
                      owner': seq<int>,
                      b: nat, head': Ptr, s': seq<nat>)
    requires |mem| == |mem'| == |owner| == |owner'| && b < BUCKETS
    requires Chains(mem, table, chains, owner) && Chain(mem', head', s', owner', b)
    requires forall y :: 0 <= y < |mem| ==>
      owner'[y] == owner[y] || ((owner[y] == b || owner[y] < 0) && (owner'[y] == b || owner'[y] < 0))
    requires forall y :: 0 <= y < |mem| && owner[y] >= 0 && owner[y] != b ==> mem'[y] == mem[y]
    ensures Chains(mem', table[b := head'], chains[b := s'], owner')
  {
    hide Chain;
    var table', chains' := table[b := head'], chains[b := s'];
    forall c | 0 <= c < BUCKETS
      ensures Chain(mem', table'[c], chains'[c], owner', c)
    {
      if c != b {
        ChainKeep(mem, mem', table[c], chains[c], owner, owner', c);
      }
    }
  }

  lemma ChainOwner(mem: seq<Item>, head: Ptr, s: seq<nat>, owner: seq<int>, b: int, i: nat)
    requires Chain(mem, head, s, owner, b) && i < |s|
    ensures s[i] < |owner| && owner[s[i]] == b
  {
  }

  lemma UnlinkIndex(mem: seq<Item>, mem': seq<Item>, owner: seq<int>, index: map<Key, nat>, x: nat, k: Key)
    requires |mem| == |mem'| == |owner| && IndexOk(mem, owner, index) && k in index && index[k] == x
    requires forall y :: 0 <= y < |mem| ==> mem'[y] == mem[y].(next := mem'[y].next, prev := mem'[y].prev)
    ensures IndexOk(mem', owner[x := LOOSE], index - {k})
    ensures Contents(mem', index - {k}) == Contents(mem, index) - {k}
  {
    hide Bucket;
    forall y | 0 <= y < |mem|
      ensures |mem'[y].payload| == ROOM && ItemOk(mem'[y], y, owner[x := LOOSE][y], index - {k})
    {
      assert ItemOk(mem[y], y, owner[y], index);
    }
  }

  lemma MapRemove(m: map<Key, nat>, k: Key)
    requires k in m
    ensures |m - {k}| == |m| - 1
  {
    assert (m - {k}).Keys == m.Keys - {k};
  }

  /** The link writes of an insertion: x points at the old head, and the old head back at x. */
  ghost predicate Pushed(mem: seq<Item>, mem': seq<Item>, head: Ptr, x: nat)
    requires x < |mem| == |mem'|
  {
    && mem'[x].next == head && mem'[x].prev == NULL
    && (forall y :: 0 <= y < |mem| && y != x ==> mem'[y].next == mem[y].next)
    && (forall y :: 0 <= y < |mem| && y != x ==> mem'[y].prev == if y == head then x else mem[y].prev)
  }

  /** Pushing x in front of a doubly linked list. */
  lemma PushList(mem: seq<Item>, mem': seq<Item>, head: Ptr, s: seq<nat>, owner: seq<int>, b: int, x: nat)
    requires Chain(mem, head, s, owner, b) && x < |mem| == |mem'| == |owner| && owner[x] != b
    requires Pushed(mem, mem', head, x)
    ensures Chain(mem', x, [x] + s, owner[x := b], b)
  {
    var t := [x] + s;
    assert Covers(owner[x := b], t, b) by { PushCovers(owner, s, b, x); }
    assert List(mem', x, t) by { PushFresh(mem, mem', head, s, x); }
    forall i | 0 <= i < |t|
      ensures mem'[t[i]].prev == Before(t, i)
    {
      if i > 0 {
        assert mem[s[i - 1]].prev == Before(s, i - 1);
      }
    }
  }

  /** cache_set: the loose, filled chunk becomes the head of its key's bucket. */
  lemma LinkStep(mem: seq<Item>, mem': seq<Item>, table: seq<Ptr>, slots: Ptr, g: Ghost, x: nat, k: Key)
    requires Inv(mem, table, slots, g, x) && |mem'| == |mem| && k !in g.index
    requires Fits(mem[x]) && KeyOf(mem[x]) == k && mem[x].clsid == 1
    requires Pushed(mem, mem', table[Bucket(k)], x)
    requires forall y :: 0 <= y < |mem| && g.owner[y] != Bucket(k) && y != x ==> mem'[y] == mem[y]
    requires forall y :: 0 <= y < |mem| ==> mem'[y] == mem[y].(next := mem'[y].next, prev := mem'[y].prev)
    ensures var b := Bucket(k);
      var g' := Ghost(g.free, g.chains[b := [x] + g.chains[b]], g.owner[x := b], g.index[k := x]);
      && Inv(mem', table[b := x], slots, g', NULL)
      && Contents(mem', g'.index) == Contents(mem, g.index)[k := ValueOf(mem[x])]
  {
    hide Bucket, Chain, List, Covers, IndexOk, KeyOf, ValueOf;
    var b := Bucket(k);
    var owner' := g.owner[x := b];
    PushList(mem, mem', table[b], g.chains[b], g.owner, b, x);
    FreeKeep(mem, mem', slots, g.free, g.owner, owner');
    ChainsReplace(mem, mem', table, g.chains, g.owner, owner', b, x, [x] + g.chains[b]);
    LinkIndex(mem, mem', g.owner, g.index, x, k, b);
    MapAdd(g.index, k, x);
    IndexFits(mem, g.owner, g.index);
    LinkContents(mem, mem', g.index, g.index[k := x], x, k);
  }

  lemma LinkIndex(mem: seq<Item>, mem': seq<Item>, owner: seq<int>, index: map<Key, nat>, x: nat, k: Key, b: nat)
    requires |mem| == |mem'| == |owner| && IndexOk(mem, owner, index) && k !in index && x < |mem| && owner[x] < 0
    requires Fits(mem[x]) && KeyOf(mem[x]) == k && mem[x].clsid == 1 && b == Bucket(k)
    requires forall y :: 0 <= y < |mem| ==> mem'[y] == mem[y].(next := mem'[y].next, prev := mem'[y].prev)
    ensures IndexOk(mem', owner[x := b], index[k := x])
  {
    hide Bucket, KeyOf, ValueOf, Fits, ItemOk;
    var owner', index' := owner[x := b], index[k := x];
    forall y | 0 <= y < |mem|
      ensures |mem'[y].payload| == ROOM && ItemOk(mem'[y], y, owner'[y], index')
    {
      LinkItem(mem[y], mem'[y], y, owner[y], index, x, k, b);
    }
    forall c | c in index'
      ensures index'[c] < |mem| && owner'[index'[c]] == Bucket(c)
      ensures Fits(mem'[index'[c]]) && KeyOf(mem'[index'[c]]) == c
    {
      LinksApart(mem[index'[c]], mem'[index'[c]]);
    }
  }

  lemma IndexFits(mem: seq<Item>, owner: seq<int>, index: map<Key, nat>)
    requires |mem| == |owner| && IndexOk(mem, owner, index)
    ensures forall c :: c in index ==> index[c] < |mem| && Fits(mem[index[c]])
  {
    hide Bucket, KeyOf;
  }

  lemma MapReplace(m: map<Key, Value>, k: Key, v: Value)
    ensures (m - {k})[k := v] == m[k := v]
  {
  }

  lemma MapAdd(m: map<Key, nat>, k: Key, x: nat)
    requires k !in m
    ensures |m[k := x]| == |m| + 1
  {
    assert m[k := x].Keys == m.Keys + {k};
  }

  lemma LinkContents(mem: seq<Item>, mem': seq<Item>, index: map<Key, nat>, index': map<Key, nat>, x: nat, k: Key)
    requires x < |mem| == |mem'| && Fits(mem[x]) && index' == index[k := x]
    requires forall y :: 0 <= y < |mem| ==> mem'[y] == mem[y].(next := mem'[y].next, prev := mem'[y].prev)
    requires forall c :: c in index ==> index[c] < |mem| && Fits(mem[index[c]])
    ensures forall c :: c in index' ==> index'[c] < |mem'| && Fits(mem'[index'[c]])
    ensures Contents(mem', index') == Contents(mem, index)[k := ValueOf(mem[x])]
  {
    hide ValueOf, Fits;
    forall c | c in index'
      ensures Fits(mem'[index'[c]]) && ValueOf(mem'[index'[c]]) == ValueOf(mem[index'[c]])
    {
      LinksApart(mem[index'[c]], mem'[index'[c]]);
    }
  }

  lemma LinkItem(it: Item, it': Item, y: nat, h: int, index: map<Key, nat>, x: nat, k: Key, b: nat)
    requires it' == it.(next := it'.next, prev := it'.prev) && ItemOk(it, y, h, index) && k !in index
    requires y == x ==> Fits(it) && KeyOf(it) == k && it.clsid == 1 && b == Bucket(k)
    ensures ItemOk(it', y, if y == x then b else h, index[k := x])
  {
    hide Bucket, KeyOf, ValueOf, Fits;
    LinksApart(it, it');
  }

  lemma LinksApart(it: Item, it': Item)
    requires it' == it.(next := it'.next, prev := it'.prev)
    ensures Fits(it') == Fits(it) && (Fits(it) ==> KeyOf(it') == KeyOf(it) && ValueOf(it') == ValueOf(it))
  {
  }

  // ---------------------------------------------------------------- what the invariant gives

  /** The free list and the bucket chains are disjoint and together are exactly the carved chunks. */
  lemma ChunkConservation(mem: seq<Item>, table: seq<Ptr>, slots: Ptr, g: Ghost)
    requires Inv(mem, table, slots, g, NULL)
    ensures NoDup(g.free) && forall b :: 0 <= b < BUCKETS ==> NoDup(g.chains[b])
    ensures forall b, x: nat :: 0 <= b < BUCKETS && x in g.chains[b] ==> x < PER_SLAB && x !in g.free
    ensures forall b, c, x: nat :: 0 <= b < c < BUCKETS && x in g.chains[b] ==> x !in g.chains[c]
    ensures forall x: nat :: x < PER_SLAB ==> x in g.free || exists b :: 0 <= b < BUCKETS && x in g.chains[b]
  {
    hide Bucket, IndexOk, Back;
    forall b | 0 <= b < BUCKETS
      ensures NoDup(g.chains[b]) && Covers(g.owner, g.chains[b], b)
    {
      assert Chain(mem, table[b], g.chains[b], g.owner, b);
    }
    forall x: nat | x < PER_SLAB
      ensures x in g.free || exists b :: 0 <= b < BUCKETS && x in g.chains[b]
    {
      if g.owner[x] != FREE {
        assert x in g.chains[g.owner[x]];
      }
    }
  }

  /** Every bucket holds each of its keys once, and only keys that hash to it. */
  lemma BucketKeys(mem: seq<Item>, table: seq<Ptr>, slots: Ptr, g: Ghost, b: nat, i: nat)
    requires Inv(mem, table, slots, g, NULL) && b < BUCKETS && i < |g.chains[b]|
    ensures g.chains[b][i] < |mem| && Fits(mem[g.chains[b][i]]) && mem[g.chains[b][i]].clsid == 1
    ensures var k := KeyOf(mem[g.chains[b][i]]);
      && Hash(k) % 65536 == b && k in Contents(mem, g.index)
      && forall j :: 0 <= j < |g.chains[b]| && j != i ==>
           g.chains[b][j] < |mem| && Fits(mem[g.chains[b][j]]) && KeyOf(mem[g.chains[b][j]]) != k
  {
    hide Hash, KeyOf, ValueOf, Back;
    var s := g.chains[b];
    assert Chain(mem, table[b], s, g.owner, b);
    var x := s[i];
    assert ItemOk(mem[x], x, b, g.index);
    forall j | 0 <= j < |s| && j != i
      ensures s[j] < |mem| && Fits(mem[s[j]]) && KeyOf(mem[s[j]]) != KeyOf(mem[x])
    {
      assert ItemOk(mem[s[j]], s[j], b, g.index);
    }
  }

  /** A key found in its chain is indexed there; a key missing from the chain is not stored. */
  lemma Found(mem: seq<Item>, table: seq<Ptr>, slots: Ptr, g: Ghost, k: Key, i: nat)
    requires Inv(mem, table, slots, g, NULL)
    requires var s := g.chains[Bucket(k)];
      i < |s| && s[i] < |mem| && Fits(mem[s[i]]) && KeyOf(mem[s[i]]) == k
    ensures k in g.index && g.index[k] == g.chains[Bucket(k)][i]
    ensures Contents(mem, g.index)[k] == ValueOf(mem[g.chains[Bucket(k)][i]])
  {
    hide Bucket, KeyOf, ValueOf;
    var b := Bucket(k);
    assert Chain(mem, table[b], g.chains[b], g.owner, b);
    var x := g.chains[b][i];
    assert ItemOk(mem[x], x, b, g.index);
  }

  lemma Missing(mem: seq<Item>, table: seq<Ptr>, slots: Ptr, g: Ghost, k: Key)
    requires Inv(mem, table, slots, g, NULL)
    requires forall j :: 0 <= j < |g.chains[Bucket(k)]| ==>
      var x := g.chains[Bucket(k)][j]; x < |mem| && Fits(mem[x]) && KeyOf(mem[x]) != k
    ensures k !in g.index
  {
    hide Bucket, KeyOf, ValueOf;
    var b := Bucket(k);
    assert Chain(mem, table[b], g.chains[b], g.owner, b);
  }

  // ---------------------------------------------------------------- the store

  function FreshClass(i: nat): SlabClass
  {
    SlabClass(ClassSize(i), if ClassSize(i) == 0 then 0 else PAGE_SIZE / ClassSize(i), NULL, 0, 0)
  }

  /** Only the 64-byte class ever gets a page. */
  ghost predicate Classes(classes: seq<SlabClass>)
  {
    && |classes| == MAX_CLASSES
    && (forall i :: 0 <= i < MAX_CLASSES && i != 1 ==> classes[i] == FreshClass(i))
    && classes[1].size == CHUNK && classes[1].perslab == PER_SLAB
  }

  lemma ClassSizes()
    ensures ClassSize(0) == 32 && ClassSize(1) == 64 && ClassSize(2) == 128
    ensures ClassSize(3) == 256 && ClassSize(4) == 512
    ensures ClassSize(5) == 1024 && ClassSize(6) == 2048 && ClassSize(7) == 4096
    ensures ClassSize(8) == 8192 && ClassSize(9) == 16384
    ensures forall i :: 10 <= i ==> ClassSize(i) == 0
  {
  }

  /** A key as the caller passes it: bytes at some address, whose alignment picks the hash's read path. */
  datatype KeyAt = KeyAt(buffer: seq<Byte>, address: nat, length: nat) {
    predicate Readable()
    {
      length <= |buffer| && (address % 4 == 0 ==> |buffer| >= (length + 3) / 4 * 4)
    }

    function Key(): Key
      requires Readable()
    {
      buffer[..length]
    }
  }

  class Cache {
    var slabclass: seq<SlabClass>
    var mem: seq<Item>
    var hashtable: seq<Ptr>
    ghost var g: Ghost

    ghost predicate Valid(loose: Ptr)
      reads this
    {
      && Classes(slabclass) && slabclass[1].slabs == 1 && slabclass[1].slCurr == |g.free|
      && Inv(mem, hashtable, slabclass[1].slots, g, loose)
    }

    ghost function Map(): map<Key, Value>
      reads this
      requires |mem| == |g.owner| && IndexOk(mem, g.owner, g.index)
    {
      Contents(mem, g.index)
    }

    /** slab_init: the size classes, then one page of 64-byte chunks pushed one by one. */
    constructor ()
      ensures Valid(NULL) && Map() == map[]
    {
      slabclass := seq(MAX_CLASSES, i => SlabClass(0, 0, NULL, 0, 0));
      mem := seq(PER_SLAB, i => Item(NULL, NULL, 0, 0, 0, seq(ROOM, j => 0)));
      hashtable := seq(BUCKETS, i => NULL);
      g := Ghost([], seq(BUCKETS, i => []), seq(PER_SLAB, i => FREE), map[]);
      new;
      SizeClasses();
      var id := SlabsClsid(64);
      SplitPage(id);
      slabclass := slabclass[id := slabclass[id].(slabs := slabclass[id].slabs + 1)];
      EmptyStore(mem, hashtable, slabclass[1].slots, g);
    }

    method SizeClasses()
      requires |slabclass| == MAX_CLASSES
      requires forall i :: 0 <= i < MAX_CLASSES ==> slabclass[i] == SlabClass(0, 0, NULL, 0, 0)
      modifies this`slabclass
      ensures |slabclass| == MAX_CLASSES && forall i :: 0 <= i < MAX_CLASSES ==> slabclass[i] == FreshClass(i)
    {
      ClassSizes();
      var size, i := 32, 0;
      while i < MAX_CLASSES
        invariant 0 <= i <= 10 && |slabclass| == MAX_CLASSES && size == if i < 10 then ClassSize(i) else 32768
        invariant forall j :: 0 <= j < MAX_CLASSES ==>
          slabclass[j] == if j < i then FreshClass(j) else SlabClass(0, 0, NULL, 0, 0)
      {
        if size > MAX_ITEM {
          break;
        }
        slabclass := slabclass[i := slabclass[i].(size := size, perslab := PAGE_SIZE / size)];
        size := size * 2;
        i := i + 1;
      }
    }

    /** The smallest class that holds size bytes; none is 2^32 - 1, since the result is unsigned. */
    method SlabsClsid(size: nat) returns (r: nat)
      requires |slabclass| == MAX_CLASSES && forall i :: 0 <= i < MAX_CLASSES ==> slabclass[i].size == ClassSize(i)
      ensures size == 0 || size > MAX_ITEM ==> r == 0xffff_ffff
      ensures 0 < size <= MAX_ITEM ==> r < 10 && size <= ClassSize(r) && forall j :: 0 <= j < r ==> ClassSize(j) < size
    {
      ClassSizes();
      var res := 0;
      if size == 0 {
        return 0xffff_ffff;
      }
      while size > slabclass[res].size
        invariant res < 10 && forall j :: 0 <= j < res ==> ClassSize(j) < size
        decreases 10 - res
      {
        res := res + 1;
        if slabclass[res].size == 0 {
          return 0xffff_ffff;
        }
      }
      return res;
    }

    /** do_slabs_free. */
    method DoSlabsFree(it: nat, id: nat)
      requires it < |mem| && id < |slabclass| && slabclass[id].slots < |mem|
      modifies this`mem, this`slabclass
      ensures var c := old(slabclass[id]);
        slabclass == old(slabclass)[id := c.(slots := it, slCurr := c.slCurr + 1)]
      ensures |mem| == old(|mem|)
      ensures forall x :: 0 <= x < |mem| ==> mem[x] == old(mem[x]).(next := mem[x].next, prev := mem[x].prev)
      ensures forall x :: 0 <= x < |mem| && x != it ==> mem[x].next == old(mem[x].next)
      ensures mem[it].next == old(slabclass[id].slots)
    {
      mem := mem[it := mem[it].(prev := NULL, next := slabclass[id].slots)];
      var n := mem[it].next;
      if n != NULL {
        mem := mem[n := mem[n].(prev := it)];
      }
      slabclass := slabclass[id := slabclass[id].(slots := it, slCurr := slabclass[id].slCurr + 1)];
    }

    /** split_slab_page_into_freelist. */
    method SplitPage(id: nat)
      requires id == 1 && |mem| == PER_SLAB && |slabclass| == MAX_CLASSES && g.free == []
      requires forall i :: 0 <= i < MAX_CLASSES ==> slabclass[i] == FreshClass(i)
      requires forall x :: 0 <= x < PER_SLAB ==> |mem[x].payload| == ROOM
      modifies this`mem, this`slabclass, this`g
      ensures Classes(slabclass) && slabclass[1].slabs == 0 && slabclass[1].slCurr == |g.free| == PER_SLAB == |mem|
      ensures List(mem, slabclass[1].slots, g.free)
      ensures forall x :: 0 <= x < PER_SLAB ==> |mem[x].payload| == ROOM
      ensures forall x: nat :: x < PER_SLAB ==> x in g.free
      ensures g == old(g).(free := g.free)
    {
      ClassSizes();
      var x := 0;
      while x < slabclass[id].perslab
        invariant 0 <= x <= PER_SLAB == |mem| && Classes(slabclass)
        invariant slabclass[1].slabs == 0 && slabclass[1].slCurr == |g.free| == x
        invariant List(mem, slabclass[1].slots, g.free) && forall i :: 0 <= i < x ==> g.free[i] == x - 1 - i
        invariant forall y :: 0 <= y < PER_SLAB ==> |mem[y].payload| == ROOM
        invariant g == old(g).(free := g.free)
      {
        ghost var was := mem;
        ghost var slots := slabclass[1].slots;
        DoSlabsFree(x, id);
        PushFresh(was, mem, slots, g.free, x);
        g := g.(free := [x] + g.free);
        x := x + 1;
      }
      forall y: nat | y < PER_SLAB
        ensures y in g.free
      {
        assert g.free[PER_SLAB - 1 - y] == y;
      }
    }

    /** slabs_alloc: takes the head of the free list of the item's class. */
    method SlabsAlloc(size: nat) returns (it: Ptr)
      requires Valid(NULL) && 0 < size <= MAX_ITEM
      modifies this
      ensures Valid(it) && Map() == old(Map()) && hashtable == old(hashtable) && g.index == old(g.index)
      ensures it == NULL <==> !(32 < size <= CHUNK) || old(g.free) == []
      ensures it == NULL ==> g == old(g) && mem == old(mem) && slabclass == old(slabclass)
      ensures it != NULL ==> g.free == old(g.free)[1..] && mem[it].clsid == 1
    {
      hide Inv, ItemOk, KeyOf, ValueOf, Bucket;
      ClassSizes();
      var id := SlabsClsid(size);
      if slabclass[id].slCurr == 0 {
        return NULL;
      }
      SlotsHead(mem, hashtable, slabclass[1].slots, g);
      ghost var was, slots := mem, slabclass[1].slots;
      it := slabclass[id].slots;
      slabclass := slabclass[id := slabclass[id].(slots := mem[it].next)];
      var n := mem[it].next;
      if n != NULL {
        mem := mem[n := mem[n].(prev := NULL)];
      }
      slabclass := slabclass[id := slabclass[id].(slCurr := slabclass[id].slCurr - 1)];
      mem := mem[it := mem[it].(clsid := id)];
      AllocStep(was, mem, hashtable, slots, g);
      g := g.(free := g.free[1..], owner := g.owner[it := LOOSE]);
    }

    /** slabs_free: the loose chunk goes back to the free list. */
    method SlabsFree(it: nat)
      requires Valid(it) && mem[it].clsid == 1
      modifies this
      ensures Valid(NULL) && Map() == old(Map()) && hashtable == old(hashtable) && g.index == old(g.index)
      ensures g.free == [it] + old(g.free)
    {
      hide Inv, List, Chains, Covers;
      LooseChunk(mem, hashtable, slabclass[1].slots, g, it);
      ghost var was, slots := mem, slabclass[1].slots;
      var id := mem[it].clsid;
      mem := mem[it := mem[it].(next := slabclass[id].slots)];
      var n := mem[it].next;
      if n != NULL {
        mem := mem[n := mem[n].(prev := it)];
      }
      slabclass := slabclass[id := slabclass[id].(slots := it, slCurr := slabclass[id].slCurr + 1)];
      FreeStep(was, mem, hashtable, slots, g, it);
      g := g.(free := [it] + g.free, owner := g.owner[it := FREE]);
    }

    /** item_alloc: a chunk filled with the key and the value, each followed by its terminator. */
    method ItemAlloc(key: Key, value: Value) returns (it: Ptr)
      requires Valid(NULL) && Total(key, value) <= MAX_ITEM
      modifies this
      ensures Valid(it) && Map() == old(Map()) && hashtable == old(hashtable) && g.index == old(g.index)
      ensures it == NULL <==> Total(key, value) > CHUNK || old(g.free) == []
      ensures it != NULL ==> mem[it].clsid == 1 && mem[it].prev == NULL && Fits(mem[it])
      ensures it != NULL ==> KeyOf(mem[it]) == key && ValueOf(mem[it]) == value
    {
      hide Inv, Contents, Bucket;
      it := SlabsAlloc(Total(key, value));
      if it != NULL {
        ghost var was := mem;
        LooseChunk(mem, hashtable, slabclass[1].slots, g, it);
        var payload := key + [0] + value + [0] + mem[it].payload[|key| + |value| + 2..];
        mem := mem[it := mem[it].(next := NULL, prev := NULL, nbytes := |value|, nkey := |key|, payload := payload)];
        LooseWrite(was, hashtable, slabclass[1].slots, g, it, mem[it]);
      }
    }

    /** item_get: walks the key's bucket. */
    method ItemGet(key: Key, hv: U32) returns (it: Ptr)
      requires Valid(NULL) && hv == Hash(key)
      ensures it == NULL <==> key !in Map()
      ensures it != NULL ==> it < |mem| && Fits(mem[it]) && Map()[key] == ValueOf(mem[it])
    {
      hide Inv, Bucket, Walk, IndexOk, Hash, ValueOf;
      ghost var slots := slabclass[1].slots;
      WalkStart(mem, hashtable, slots, g, key);
      ghost var n := |g.chains[Bucket(key)]|;
      it := hashtable[hv % 65536];
      ghost var i := 0;
      while it != NULL
        invariant Walk(mem, g, key, i, it)
        invariant |mem| == |g.owner| && IndexOk(mem, g.owner, g.index)
        decreases n - i
      {
        WalkStep(mem, hashtable, slots, g, key, i, it);
        if |key| == mem[it].nkey && key == KeyOf(mem[it]) {
          return;
        }
        it := mem[it].next;
        i := i + 1;
      }
      WalkEnd(mem, hashtable, slots, g, key, i);
    }

    /** item_unlink: the key's chunk, if any, leaves its bucket. */
    method ItemUnlink(key: Key, hv: U32) returns (it: Ptr)
      requires Valid(NULL) && hv == Hash(key)
      modifies this
      ensures Valid(it) && g.free == old(g.free)
      ensures it == NULL <==> key !in old(Map())
      ensures Map() == old(Map()) - {key} && key !in g.index
      ensures it != NULL ==> mem[it].clsid == 1
    {
      hide Inv, Bucket, Walk, IndexOk, Hash, ValueOf;
      ghost var slots := slabclass[1].slots;
      WalkStart(mem, hashtable, slots, g, key);
      ghost var n := |g.chains[Bucket(key)]|;
      it := hashtable[hv % 65536];
      ghost var i := 0;
      while it != NULL
        invariant Walk(mem, g, key, i, it)
        invariant mem == old(mem) && hashtable == old(hashtable) && slabclass == old(slabclass) && g == old(g)
        decreases n - i
      {
        WalkStep(mem, hashtable, slots, g, key, i, it);
        if |key| == mem[it].nkey && key == KeyOf(mem[it]) {
          BucketOf(key);
          Detach(it, hv % 65536, i, key);
          return;
        }
        it := mem[it].next;
        i := i + 1;
      }
      WalkEnd(mem, hashtable, slots, g, key, i);
      assert Map().Keys == g.index.Keys;
      assert Map() - {key} == Map();
    }

    /** The link surgery of item_unlink, for the item at position i of bucket b. */
    method Detach(it: nat, b: nat, ghost i: nat, ghost key: Key)
      requires Valid(NULL) && b < BUCKETS && i < |g.chains[b]|
      requires g.chains[b][i] == it && it < |mem| && mem[it].clsid == 1
      requires key in g.index && g.index[key] == it
      modifies this
      ensures Valid(it) && g.free == old(g.free)
      ensures Map() == old(Map()) - {key} && key !in g.index && mem[it].clsid == 1
    {
      hide Inv, Bucket, Hash, KeyOf, IndexOk, ValueOf, Chain;
      ghost var slots, was, table := slabclass[1].slots, mem, hashtable;
      LinksAround(mem, hashtable, slots, g, b, i);
      ghost var s := g.chains[b];
      var n, p := mem[it].next, mem[it].prev;
      if it == hashtable[b] {
        hashtable := hashtable[b := n];
        if n != NULL {
          mem := mem[n := mem[n].(prev := NULL)];
        }
      } else {
        mem := mem[p := mem[p].(next := n)];
        if n != NULL {
          mem := mem[n := mem[n].(prev := p)];
        }
      }
      assert hashtable == table[b := hashtable[b]];
      UnlinkStep(was, mem, table, hashtable[b], slots, g, b, i, key);
      g := Ghost(g.free, g.chains[b := Without(s, i)], g.owner[it := LOOSE], g.index - {key});
    }

    /** cache_get: the stored value, cut to maxnval - 1 bytes and terminated, or -1 when the key is absent. */
    method CacheGet(at: KeyAt, value: array<Byte>, maxnval: nat) returns (r: int)
      requires Valid(NULL) && at.Readable() && 1 <= maxnval <= value.Length
      modifies value
      ensures r == -1 <==> at.Key() !in Map()
      ensures at.Key() in Map() ==> r == MinNat(|Map()[at.Key()]|, maxnval - 1)
      ensures at.Key() in Map() ==> value[..r] == Map()[at.Key()][..r] && value[r] == 0
      ensures at.Key() in Map() ==> value[r + 1..] == old(value[r + 1..])
      ensures r == -1 ==> value[..] == old(value[..])
    {
      hide Inv, Bucket, Hash;
      var key := at.Key();
      var hv := JenkinsHash(at.buffer, at.address, at.length);
      var it := ItemGet(key, hv);
      if it == NULL {
        return -1;
      }
      var nval := MinNat(mem[it].nbytes, maxnval - 1);
      var v := ValueOf(mem[it]);
      forall j | 0 <= j < nval {
        value[j] := v[j];
      }
      value[nval] := 0;
      return nval;
    }

    /** cache_set: replaces the key's item; fails when it does not fit a chunk or no chunk is free. */
    method CacheSet(at: KeyAt, value: Value) returns (r: int)
      requires Valid(NULL) && at.Readable() && Total(at.Key(), value) <= MAX_ITEM
      modifies this
      ensures Valid(NULL)
      ensures r == 0 || r == -1
      ensures r == 0 <==> Accepts(old(Map()), at.Key(), value)
      ensures Map() == if r == 0 then old(Map())[at.Key() := value] else old(Map()) - {at.Key()}
    {
      hide Inv, Bucket, Hash, ItemOk, KeyOf, ValueOf;
      Census(mem, hashtable, slabclass[1].slots, g);
      ghost var before := Map();
      var key := at.Key();
      var hv := JenkinsHash(at.buffer, at.address, at.length);
      var it := ItemUnlink(key, hv);
      if it != NULL {
        SlabsFree(it);
      }
      Census(mem, hashtable, slabclass[1].slots, g);
      it := ItemAlloc(key, value);
      if it == NULL {
        return -1;
      }
      BucketOf(key);
      LooseChunk(mem, hashtable, slabclass[1].slots, g, it);
      Attach(it, hv % 65536, key);
      MapReplace(before, key, value);
      return 0;
    }

    /** The link surgery at the end of cache_set. */
    method Attach(it: nat, b: nat, ghost key: Key)
      requires Valid(it) && b == Bucket(key) && key !in g.index
      requires it < |mem| && Fits(mem[it]) && KeyOf(mem[it]) == key && mem[it].clsid == 1 && mem[it].prev == NULL
      modifies this
      ensures Valid(NULL) && Map() == old(Map())[key := old(ValueOf(mem[it]))]
    {
      hide Inv, Bucket, Hash, KeyOf, IndexOk, ValueOf, Chain;
      ghost var slots, was, table := slabclass[1].slots, mem, hashtable;
      BucketHead(mem, hashtable, slots, g, b, it);
      mem := mem[it := mem[it].(next := hashtable[b])];
      var n := mem[it].next;
      if n != NULL {
        mem := mem[n := mem[n].(prev := it)];
      }
      hashtable := hashtable[b := it];
      LinkStep(was, mem, table, slots, g, it, key);
      g := Ghost(g.free, g.chains[b := [it] + g.chains[b]], g.owner[it := b], g.index[key := it]);
    }

    method Perform(op: Op) returns (reply: Reply)
      requires Valid(NULL) && Legal(op)
      modifies this
      ensures Valid(NULL) && (Map(), reply) == MapStep(old(Map()), op)
    {
      hide Classes, List, Covers, Chains, IndexOk, OwnerOk, Bucket;
      match op
      case Get(at, maxnval) =>
        var value := new Byte[maxnval];
        var r := CacheGet(at, value, maxnval);
        reply := if r == -1 then Absent else Present(value[..r]);
      case Set(at, value) =>
        var r := CacheSet(at, value);
        reply := if r == 0 then Stored else Failed;
    }

    /** slabs_memory_used: one chunk for every live key. */
    method SlabsMemoryUsed() returns (storage: nat)
      requires Valid(NULL)
      ensures storage == CHUNK * |Map()|
    {
      hide Inv, Bucket;
      Census(mem, hashtable, slabclass[1].slots, g);
      storage := 0;
      var id := 0;
      while id < MAX_CLASSES
        invariant 0 <= id <= MAX_CLASSES && storage == if id <= 1 then 0 else CHUNK * (PER_SLAB - |g.free|)
      {
        var slab := slabclass[id];
        if slab.size != 0 {
          var totalInSlab := slab.slabs * PAGE_SIZE;
          var remainInSlab := slab.slCurr * slab.size;
          storage := storage + (totalInSlab - remainInSlab);
        }
        id := id + 1;
      }
    }
  }

  function MinNat(a: nat, b: nat): nat
  {
    if a < b then a else b
  }

  /** When a set succeeds: the item fits the 64-byte class, and its key is stored or a chunk is free. */
  predicate Accepts(m: map<Key, Value>, key: Key, value: Value)
  {
    |key| + |value| <= 30 && (key in m || |m| < 524288)
  }

  /** Live keys and free chunks add up to the page. */
  lemma Census(mem: seq<Item>, table: seq<Ptr>, slots: Ptr, g: Ghost)
    requires Inv(mem, table, slots, g, NULL)
    ensures |mem| == |g.owner| && IndexOk(mem, g.owner, g.index)
    ensures |Contents(mem, g.index)| + |g.free| == PER_SLAB
  {
    hide Bucket, Chains;
    assert Contents(mem, g.index).Keys == g.index.Keys;
  }

  lemma BucketHead(mem: seq<Item>, table: seq<Ptr>, slots: Ptr, g: Ghost, b: nat, x: nat)
    requires Inv(mem, table, slots, g, x) && b < BUCKETS
    ensures |mem| == |g.owner| == PER_SLAB && |table| == |g.chains| == BUCKETS
    ensures Chain(mem, table[b], g.chains[b], g.owner, b)
    ensures IndexOk(mem, g.owner, g.index) && x < |mem| && g.owner[x] == LOOSE
    ensures table[b] != NULL ==> 0 <= table[b] < |mem| && g.owner[table[b]] == b
  {
    hide Bucket, IndexOk;
    assert Chain(mem, table[b], g.chains[b], g.owner, b);
  }

  lemma BucketOf(key: Key)
    ensures Bucket(key) == Hash(key) % 65536
  {
  }

  /** The links of the item at position i lead to its neighbours in the bucket. */
  lemma LinksAround(mem: seq<Item>, table: seq<Ptr>, slots: Ptr, g: Ghost, b: nat, i: nat)
    requires Inv(mem, table, slots, g, NULL) && b < BUCKETS && i < |g.chains[b]|
    ensures var s := g.chains[b];
      && |mem| == |g.owner| == PER_SLAB && |table| == |g.chains| == BUCKETS
      && Chain(mem, table[b], s, g.owner, b) && IndexOk(mem, g.owner, g.index)
      && s[i] < |mem| && g.owner[s[i]] == b
      && mem[s[i]].prev == Before(s, i) && (i == 0 <==> table[b] == s[i])
      && mem[s[i]].next == (if i + 1 < |s| then s[i + 1] else NULL)
      && (i > 0 ==> s[i - 1] < |mem| && g.owner[s[i - 1]] == b && s[i - 1] != s[i])
      && (i + 1 < |s| ==> s[i + 1] < |mem| && g.owner[s[i + 1]] == b && s[i + 1] != s[i])
      && (0 < i < |s| - 1 ==> s[i - 1] != s[i + 1])
  {
    hide Bucket, IndexOk, OwnerOk;
    assert Chain(mem, table[b], g.chains[b], g.owner, b);
  }

  /** The walk stands at position i of the key's bucket and has not met the key yet. */
  ghost predicate Walk(mem: seq<Item>, g: Ghost, key: Key, i: nat, it: Ptr)
  {
    && |g.chains| == BUCKETS
    && var s := g.chains[Bucket(key)];
    && i <= |s| && it == At(s, i)
    && forall j :: 0 <= j < i ==> s[j] < |mem| && Fits(mem[s[j]]) && KeyOf(mem[s[j]]) != key
  }

  lemma WalkStart(mem: seq<Item>, table: seq<Ptr>, slots: Ptr, g: Ghost, key: Key)
    requires Inv(mem, table, slots, g, NULL)
    ensures |mem| == |g.owner| == PER_SLAB && IndexOk(mem, g.owner, g.index)
    ensures |table| == |g.chains| == BUCKETS && Walk(mem, g, key, 0, table[Hash(key) % 65536])
  {
    hide IndexOk, Hash;
    var b := Bucket(key);
    assert Chain(mem, table[b], g.chains[b], g.owner, b);
    assert g.chains[b][0..] == g.chains[b];
  }

  lemma WalkStep(mem: seq<Item>, table: seq<Ptr>, slots: Ptr, g: Ghost, key: Key, i: nat, it: Ptr)
    requires Inv(mem, table, slots, g, NULL) && Walk(mem, g, key, i, it) && it != NULL
    ensures it < |mem| && Fits(mem[it]) && mem[it].clsid == 1 && |g.chains| == BUCKETS
    ensures var s := g.chains[Bucket(key)]; i < |s| && s[i] == it
    ensures KeyOf(mem[it]) == key ==> key in Contents(mem, g.index) && g.index[key] == it
    ensures KeyOf(mem[it]) == key ==> Contents(mem, g.index)[key] == ValueOf(mem[it])
    ensures KeyOf(mem[it]) != key ==> Walk(mem, g, key, i + 1, mem[it].next)
  {
    hide Bucket, IndexOk, OwnerOk, KeyOf, Fits;
    var b := Bucket(key);
    var s := g.chains[b];
    assert Chain(mem, table[b], s, g.owner, b);
    BucketKeys(mem, table, slots, g, b, i);
    assert mem[it].next == At(s, i + 1);
    if KeyOf(mem[it]) == key {
      Found(mem, table, slots, g, key, i);
    }
  }

  lemma WalkEnd(mem: seq<Item>, table: seq<Ptr>, slots: Ptr, g: Ghost, key: Key, i: nat)
    requires Inv(mem, table, slots, g, NULL) && Walk(mem, g, key, i, NULL)
    ensures key !in Contents(mem, g.index) && key !in g.index
  {
    hide Bucket, KeyOf;
    assert i == |g.chains[Bucket(key)]|;
    Missing(mem, table, slots, g, key);
  }

  /** The free list's head, and the item after it, are free chunks. */
  lemma SlotsHead(mem: seq<Item>, table: seq<Ptr>, slots: Ptr, g: Ghost)
    requires Inv(mem, table, slots, g, NULL) && g.free != []
    ensures |mem| == |g.owner| == PER_SLAB && IndexOk(mem, g.owner, g.index)
    ensures 0 <= slots < |mem| && g.owner[slots] == FREE && mem[slots].next != slots
    ensures mem[slots].next != NULL ==> 0 <= mem[slots].next < |mem| && g.owner[mem[slots].next] == FREE
  {
    hide Bucket, IndexOk, Chains;
    var n := mem[slots].next;
    assert n == At(g.free, 1);
    if n != NULL {
      assert n == g.free[1];
    }
  }

  lemma LooseChunk(mem: seq<Item>, table: seq<Ptr>, slots: Ptr, g: Ghost, x: nat)
    requires Inv(mem, table, slots, g, x)
    ensures |mem| == |g.owner| == PER_SLAB && IndexOk(mem, g.owner, g.index) && x < |mem| && g.owner[x] == LOOSE
    ensures slots != NULL ==> 0 <= slots < |mem| && g.owner[slots] == FREE && slots != x
  {
    hide Bucket, IndexOk, Chains;
  }

  /** The state after a successful init. */
  lemma EmptyStore(mem: seq<Item>, table: seq<Ptr>, slots: Ptr, g: Ghost)
    requires |mem| == PER_SLAB && |table| == BUCKETS && forall b :: 0 <= b < BUCKETS ==> table[b] == NULL
    requires g == Ghost(g.free, seq(BUCKETS, i => []), seq(PER_SLAB, i => FREE), map[])
    requires List(mem, slots, g.free) && |g.free| == PER_SLAB && forall x: nat :: x < PER_SLAB ==> x in g.free
    requires forall x :: 0 <= x < PER_SLAB ==> |mem[x].payload| == ROOM
    ensures Inv(mem, table, slots, g, NULL)
  {
  }

  // ---------------------------------------------------------------- whole runs

  datatype Op = Get(at: KeyAt, maxnval: nat) | Set(at: KeyAt, value: Value)

  datatype Reply = Absent | Present(value: Value) | Stored | Failed

  /** What the callers must respect: readable keys, room for the terminator, items of at most 16 KiB. */
  predicate Legal(op: Op)
  {
    && op.at.Readable()
    && match op
       case Get(_, maxnval) => maxnval >= 1
       case Set(at, value) => Total(at.Key(), value) <= MAX_ITEM
  }

  function KeyIn(op: Op): Key
    requires Legal(op)
  {
    op.at.Key()
  }

  /** The bounded finite map the store stands for. */
  function MapStep(m: map<Key, Value>, op: Op): (map<Key, Value>, Reply)
    requires Legal(op)
  {
    var k := KeyIn(op);
    match op
    case Get(_, maxnval) =>
      (m, if k in m then Present(m[k][..MinNat(|m[k]|, maxnval - 1)]) else Absent)
    case Set(_, value) =>
      if Accepts(m, k, value) then (m[k := value], Stored) else (m - {k}, Failed)
  }

  function MapRun(ops: seq<Op>): (map<Key, Value>, seq<Reply>)
    requires forall i :: 0 <= i < |ops| ==> Legal(ops[i])
  {
    if ops == [] then (map[], []) else
    var n := |ops| - 1;
    var (m, replies) := MapRun(ops[..n]);
    var (m', reply) := MapStep(m, ops[n]);
    (m', replies + [reply])
  }

  /** Every run of the store from a fresh start answers as the bounded map does. */
  method Session(ops: seq<Op>) returns (replies: seq<Reply>, used: nat)
    requires forall i :: 0 <= i < |ops| ==> Legal(ops[i])
    ensures replies == MapRun(ops).1
    ensures used == CHUNK * |MapRun(ops).0|
  {
    hide Classes, List, Covers, Chains, IndexOk, OwnerOk, Bucket;
    var cache := new Cache();
    replies := [];
    assert ops[..0] == [];
    for i := 0 to |ops|
      invariant cache.Valid(NULL) && fresh(cache)
      invariant MapRun(ops[..i]) == (cache.Map(), replies)
    {
      assert ops[..i + 1][..i] == ops[..i];
      var reply := cache.Perform(ops[i]);
      replies := replies + [reply];
    }
    assert ops[..|ops|] == ops;
    used := cache.SlabsMemoryUsed();
  }

  ghost function KeysOf(ops: seq<Op>): set<Key>
    requires forall i :: 0 <= i < |ops| ==> Legal(ops[i])
  {
    set i | 0 <= i < |ops| :: KeyIn(ops[i])
  }

  /** The latest value written for a key; an oversized write erases it. */
  function Latest(ops: seq<Op>, k: Key): (v: seq<Value>)
    requires forall i :: 0 <= i < |ops| ==> Legal(ops[i])
    ensures |v| <= 1
  {
    if ops == [] then [] else
    var op := ops[|ops| - 1];
    if op.Set? && KeyIn(op) == k then
      if |k| + |op.value| <= 30 then [op.value] else []
    else
      Latest(ops[..|ops| - 1], k)
  }

  /** While a run names no more keys than there are chunks, every read sees the latest write. */
  lemma {:induction false} ReadsLatest(ops: seq<Op>, k: Key)
    requires forall i :: 0 <= i < |ops| ==> Legal(ops[i])
    requires |KeysOf(ops)| <= PER_SLAB
    ensures var m := MapRun(ops).0;
      m.Keys <= KeysOf(ops) && (if k in m then Latest(ops, k) == [m[k]] else Latest(ops, k) == [])
  {
    if ops != [] {
      hide KeysOf, MapStep, KeyIn;
      var n := |ops| - 1;
      var before := ops[..n];
      KeysGrow(ops);
      ReadsLatest(before, k);
      var (m, op) := (MapRun(before).0, ops[n]);
      if KeyIn(op) !in m {
        NewKeyFits(m.Keys, KeyIn(op), KeysOf(ops));
      }
      StepReads(m, op, k);
    }
  }

  /** With a chunk to spare, one operation changes its own key only, and only as written. */
  lemma StepReads(m: map<Key, Value>, op: Op, k: Key)
    requires Legal(op) && (KeyIn(op) in m || |m.Keys| < PER_SLAB)
    ensures var m' := MapStep(m, op).0;
      && m'.Keys <= m.Keys + {KeyIn(op)}
      && (if op.Set? && KeyIn(op) == k then
            (if |k| + |op.value| <= 30 then k in m' && m'[k] == op.value else k !in m')
          else
            (k in m' <==> k in m) && (k in m ==> m'[k] == m[k]))
  {
  }

  lemma KeysGrow(ops: seq<Op>)
    requires ops != [] && forall i :: 0 <= i < |ops| ==> Legal(ops[i])
    ensures KeysOf(ops) == KeysOf(ops[..|ops| - 1]) + {KeyIn(ops[|ops| - 1])}
    ensures |KeysOf(ops[..|ops| - 1])| <= |KeysOf(ops)|
  {
    var n := |ops| - 1;
    var before := ops[..n];
    assert forall i :: 0 <= i < n ==> before[i] == ops[i];
    forall c | c in KeysOf(ops)
      ensures c in KeysOf(before) + {KeyIn(ops[n])}
    {
      var i :| 0 <= i < |ops| && KeyIn(ops[i]) == c;
      if i < n {
        assert KeyIn(before[i]) == c;
      }
    }
    forall c | c in KeysOf(before)
      ensures c in KeysOf(ops)
    {
      var i :| 0 <= i < n && KeyIn(before[i]) == c;
      assert KeyIn(ops[i]) == c;
    }
    assert KeyIn(ops[n]) in KeysOf(ops);
    SubsetSize(KeysOf(before), KeysOf(ops));
  }

  lemma {:induction false} SubsetSize(a: set<Key>, b: set<Key>)
    requires a <= b
    ensures |a| <= |b|
  {
    if a != {} {
      var x :| x in a;
      SubsetSize(a - {x}, b - {x});
    }
  }

  lemma NewKeyFits(a: set<Key>, c: Key, b: set<Key>)
    requires a <= b && c !in a && c in b
    ensures |a| < |b|
  {
    SubsetSize(a + {c}, b);
  }
}
