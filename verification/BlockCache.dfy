/** The byte-bounded block cache over an entry-bounded LRU. */
module BlockCache {
  import opened ByteStrings
  import opened Records

  datatype Key = Key(fileID: uint64, offset: uint64)

  datatype Cached = Cached(key: Key, block: Bytes)

  /** `entries` is the LRU, oldest first; `bytes` is the counter that add maintains. */
  datatype Cache = Cache(entries: seq<Cached>, bytes: int, max: int, cap: nat)

  function New(maxBytes: int): Cache {
    var max := if maxBytes <= 0 then 0x200_0000 else maxBytes;
    Cache([], 0, max, max / 256)
  }

  // ----- the LRU, as far as the cache relies on it ---------------------------------------------

  function IndexOf(es: seq<Cached>, key: Key): (i: nat)
    ensures i <= |es| && (i < |es| ==> es[i].key == key)
    ensures forall j :: 0 <= j < i ==> es[j].key != key
  {
    if es == [] || es[0].key == key then 0 else 1 + IndexOf(es[1..], key)
  }

  function Drop(es: seq<Cached>, i: nat): seq<Cached>
    requires i < |es|
  {
    es[..i] + es[i + 1..]
  }

  /** A hit becomes the most recent entry. */
  function Touch(es: seq<Cached>, key: Key): seq<Cached> {
    var i := IndexOf(es, key);
    if i < |es| then Drop(es, i) + [es[i]] else es
  }

  /** Replace or append; past the entry cap the oldest entry is dropped without notice. */
  function LruAdd(es: seq<Cached>, key: Key, block: Bytes, cap: nat): seq<Cached> {
    var i := IndexOf(es, key);
    if i < |es| then Drop(es, i) + [Cached(key, block)]
    else if |es| + 1 > cap then (es + [Cached(key, block)])[1..]
    else es + [Cached(key, block)]
  }

  // ----- the cache -----------------------------------------------------------------------------------

  /** The eviction loop at the end of add. */
  function Shrink(c: Cache): Cache
    decreases |c.entries|
  {
    if c.bytes > c.max && c.entries != []
    then Shrink(c.(entries := c.entries[1..], bytes := c.bytes - |c.entries[0].block|))
    else c
  }

  function Add(c: Cache, key: Key, block: Bytes): Cache {
    var i := IndexOf(c.entries, key);
    var bytes := if i < |c.entries| then c.bytes - |c.entries[i].block| else c.bytes;
    Shrink(c.(entries := LruAdd(c.entries, key, block, c.cap), bytes := bytes + |block|))
  }

  function Get(c: Cache, key: Key): (Cache, Option<Bytes>) {
    var i := IndexOf(c.entries, key);
    (c.(entries := Touch(c.entries, key)), if i < |c.entries| then Some(c.entries[i].block) else None)
  }

  /** The bytes really stored. */
  function Total(es: seq<Cached>): nat {
    if es == [] then 0 else |es[0].block| + Total(es[1..])
  }

  lemma {:induction false} TotalAppend(a: seq<Cached>, b: seq<Cached>)
    ensures Total(a + b) == Total(a) + Total(b)
  {
    if a == [] {
      assert a + b == b;
    } else {
      assert (a + b)[1..] == a[1..] + b;
      TotalAppend(a[1..], b);
    }
  }

  lemma TotalOne(e: Cached)
    ensures Total([e]) == |e.block|
  {
    assert [e][1..] == [];
  }

  lemma TotalDrop(es: seq<Cached>, i: nat)
    requires i < |es|
    ensures Total(Drop(es, i)) == Total(es) - |es[i].block|
  {
    assert es == es[..i] + [es[i]] + es[i + 1..];
    TotalAppend(es[..i] + [es[i]], es[i + 1..]);
    TotalAppend(es[..i], [es[i]]);
    TotalAppend(es[..i], es[i + 1..]);
    TotalOne(es[i]);
  }

  /** How far the counter runs ahead of the bytes stored. */
  function Drift(c: Cache): int {
    c.bytes - Total(c.entries)
  }

  ghost predicate Inv(c: Cache) {
    && c.max >= 256 && c.cap >= 1 && |c.entries| <= c.cap
    && Drift(c) >= 0 && Total(c.entries) <= c.max
  }

  lemma {:induction false} ShrinkFacts(c: Cache)
    ensures var s := Shrink(c);
      && s.max == c.max && s.cap == c.cap && Drift(s) == Drift(c) && |s.entries| <= |c.entries|
      && (s.entries == [] || s.bytes <= s.max)
      && (forall e :: e in s.entries ==> e in c.entries)
    decreases |c.entries|
  {
    if c.bytes > c.max && c.entries != [] {
      ShrinkFacts(c.(entries := c.entries[1..], bytes := c.bytes - |c.entries[0].block|));
    }
  }

  /** The loop drops the fewest oldest entries that bring the counter within the limit, or all of them. */
  lemma {:induction false} ShrinkExactly(c: Cache) returns (n: nat)
    ensures n <= |c.entries| && Shrink(c).entries == c.entries[n..]
    ensures Shrink(c).bytes == c.bytes - Total(c.entries[..n])
    ensures n < |c.entries| ==> c.bytes - Total(c.entries[..n]) <= c.max
    ensures n > 0 ==> c.bytes - Total(c.entries[..n - 1]) > c.max
    decreases |c.entries|
  {
    if c.bytes > c.max && c.entries != [] {
      var head, rest := c.entries[0], c.entries[1..];
      var m := ShrinkExactly(c.(entries := rest, bytes := c.bytes - |head.block|));
      n := m + 1;
      assert c.entries[..n][1..] == rest[..n - 1] && c.entries[..n][0] == head;
      assert c.entries[n..] == rest[n - 1..];
      if n > 1 { assert c.entries[..n - 1][1..] == rest[..n - 2] && c.entries[..n - 1][0] == head; }
    } else {
      n := 0;
    }
  }

  /** A hit moves to the young end and everything else keeps its order; a miss moves nothing. */
  lemma HitIsYoungest(c: Cache, key: Key) returns (i: nat)
    ensures Get(c, key).1.None? <==> forall j :: 0 <= j < |c.entries| ==> c.entries[j].key != key
    ensures Get(c, key).1.None? ==> Get(c, key).0 == c
    ensures Get(c, key).1.Some? ==>
      && i < |c.entries| && c.entries[i] == Cached(key, Get(c, key).1.value)
      && Get(c, key).0 == c.(entries := c.entries[..i] + c.entries[i + 1..] + [c.entries[i]])
  {
    i := IndexOf(c.entries, key);
  }

  /** An add that fits, by the counter and by the number of entries, evicts nothing. */
  lemma RoomForAll(c: Cache, key: Key, block: Bytes)
    requires forall j :: 0 <= j < |c.entries| ==> c.entries[j].key != key
    requires |c.entries| < c.cap && c.bytes + |block| <= c.max
    ensures Add(c, key, block) == c.(entries := c.entries + [Cached(key, block)], bytes := c.bytes + |block|)
  {
    assert IndexOf(c.entries, key) == |c.entries|;
  }

  /** What is added becomes the youngest, also when it replaces a block; the others keep their order, and past the
      entry cap exactly the oldest goes. */
  lemma AddIsYoungest(es: seq<Cached>, key: Key, block: Bytes, cap: nat)
    requires 1 <= cap && |es| <= cap
    ensures var i, r := IndexOf(es, key), LruAdd(es, key, block, cap);
      r == (if i < |es| then es[..i] + es[i + 1..] else if |es| == cap then es[1..] else es) + [Cached(key, block)]
  {
    if IndexOf(es, key) == |es| == cap { assert (es + [Cached(key, block)])[1..] == es[1..] + [Cached(key, block)]; }
  }

  /** A limit of zero or less means 32 MiB; there is room for one entry per 256 bytes. */
  lemma NewLimits(maxBytes: int)
    ensures New(maxBytes).max == (if maxBytes <= 0 then 33_554_432 else maxBytes)
    ensures New(0).cap == 131_072 && New(maxBytes).entries == [] && New(maxBytes).bytes == 0
    ensures maxBytes > 0 ==> 256 * New(maxBytes).cap <= maxBytes < 256 * (New(maxBytes).cap + 1)
  {
  }

  /** Size of the entry that the LRU drops without telling the counter. */
  function SilentlyEvicted(c: Cache, key: Key): nat {
    if IndexOf(c.entries, key) < |c.entries| || |c.entries| + 1 <= c.cap || c.entries == []
    then 0
    else |c.entries[0].block|
  }

  lemma LruAddTotal(c: Cache, key: Key, block: Bytes)
    requires c.cap >= 1 && |c.entries| <= c.cap
    ensures var i := IndexOf(c.entries, key);
      && |LruAdd(c.entries, key, block, c.cap)| <= c.cap
      && Total(LruAdd(c.entries, key, block, c.cap))
         == Total(c.entries) + |block| - SilentlyEvicted(c, key) - (if i < |c.entries| then |c.entries[i].block| else 0)
  {
    var i, e := IndexOf(c.entries, key), Cached(key, block);
    TotalOne(e);
    TotalAppend(c.entries, [e]);
    if i < |c.entries| {
      TotalDrop(c.entries, i);
      TotalAppend(Drop(c.entries, i), [e]);
    } else if |c.entries| + 1 > c.cap {
      assert (c.entries + [e])[0] == c.entries[0];
    }
  }

  /** One add: the bound holds, and the drift grows by exactly what was evicted silently. */
  lemma AddKeeps(c: Cache, key: Key, block: Bytes)
    requires Inv(c)
    ensures Inv(Add(c, key, block)) && Drift(Add(c, key, block)) == Drift(c) + SilentlyEvicted(c, key)
    ensures Drift(Add(c, key, block)) > c.max ==> Add(c, key, block).entries == []
  {
    hide Shrink, LruAdd, IndexOf;
    LruAddTotal(c, key, block);
    var i := IndexOf(c.entries, key);
    var bytes := if i < |c.entries| then c.bytes - |c.entries[i].block| else c.bytes;
    ShrinkFacts(c.(entries := LruAdd(c.entries, key, block, c.cap), bytes := bytes + |block|));
  }

  lemma GetKeeps(c: Cache, key: Key)
    requires Inv(c)
    ensures Inv(Get(c, key).0) && Drift(Get(c, key).0) == Drift(c)
  {
    var i := IndexOf(c.entries, key);
    if i < |c.entries| {
      TotalDrop(c.entries, i);
      TotalAppend(Drop(c.entries, i), [c.entries[i]]);
      TotalOne(c.entries[i]);
    }
  }

  // ----- any sequence of operations ---------------------------------------------------------------------

  datatype Op = AddOp(key: Key, block: Bytes) | GetOp(key: Key)

  function Run(c: Cache, ops: seq<Op>): Cache {
    if ops == [] then c
    else
      var d := Run(c, ops[..|ops| - 1]);
      match ops[|ops| - 1] case AddOp(k, b) => Add(d, k, b) case GetOp(k) => Get(d, k).0
  }

  /** However the counter drifts, the stored bytes never exceed the limit, and the drift never shrinks. */
  lemma {:induction false} BytesBounded(maxBytes: int, ops: seq<Op>)
    requires maxBytes >= 256
    ensures Inv(Run(New(maxBytes), ops)) && Run(New(maxBytes), ops).max == maxBytes
    ensures ops != [] ==> Drift(Run(New(maxBytes), ops)) >= Drift(Run(New(maxBytes), ops[..|ops| - 1]))
  {
    hide Add, Get, Inv;
    NewInv(maxBytes);
    if ops != [] {
      BytesBounded(maxBytes, ops[..|ops| - 1]);
      var c := Run(New(maxBytes), ops[..|ops| - 1]);
      match ops[|ops| - 1]
      case AddOp(k, b) => AddKeeps(c, k, b); AddMax(c, k, b);
      case GetOp(k) => GetKeeps(c, k); GetMax(c, k);
    }
  }

  lemma NewInv(maxBytes: int)
    requires maxBytes >= 256
    ensures Inv(New(maxBytes))
  {
  }

  lemma AddMax(c: Cache, key: Key, block: Bytes)
    ensures Add(c, key, block).max == c.max
  {
    hide Shrink, LruAdd;
    var i := IndexOf(c.entries, key);
    var bytes := if i < |c.entries| then c.bytes - |c.entries[i].block| else c.bytes;
    ShrinkFacts(c.(entries := LruAdd(c.entries, key, block, c.cap), bytes := bytes + |block|));
  }

  lemma GetMax(c: Cache, key: Key)
    ensures Get(c, key).0.max == c.max
  {
  }

  /** A silent eviction does make the counter too high: two one-byte blocks in a cache of 256 bytes. */
  lemma CounterDrifts() returns (c: Cache)
    ensures c == Run(New(256), [AddOp(Key(1, 0), [7]), AddOp(Key(1, 9), [8])]) && c.bytes == 2 && Total(c.entries) == 1
  {
    var a, b := AddOp(Key(1, 0), [7]), AddOp(Key(1, 9), [8]);
    var c1 := Add(New(256), Key(1, 0), [7]);
    c := Add(c1, Key(1, 9), [8]);
    assert [a, b][..1] == [a] && [a][..0] == [];
    assert Run(New(256), [a]) == Add(Run(New(256), [a][..0]), Key(1, 0), [7]);
    assert c1.entries == [Cached(Key(1, 0), [7])];
    assert LruAdd(c1.entries, Key(1, 9), [8], 1) == [Cached(Key(1, 9), [8])];
    TotalOne(Cached(Key(1, 9), [8]));
  }

  // ----- contents -----------------------------------------------------------------------------------------------

  /** Every cached block is the block that the files hold under that key. */
  ghost predicate Agrees(c: Cache, store: map<Key, Bytes>) {
    forall e :: e in c.entries ==> e.key in store && store[e.key] == e.block
  }

  lemma AddAgrees(c: Cache, key: Key, block: Bytes, store: map<Key, Bytes>)
    requires Agrees(c, store) && key in store && store[key] == block
    ensures Agrees(Add(c, key, block), store)
  {
    hide Shrink;
    var i := IndexOf(c.entries, key);
    var bytes := if i < |c.entries| then c.bytes - |c.entries[i].block| else c.bytes;
    ShrinkFacts(c.(entries := LruAdd(c.entries, key, block, c.cap), bytes := bytes + |block|));
    forall e | e in LruAdd(c.entries, key, block, c.cap) ensures e == Cached(key, block) || e in c.entries { }
  }

  lemma GetAgrees(c: Cache, key: Key, store: map<Key, Bytes>)
    requires Agrees(c, store)
    ensures Agrees(Get(c, key).0, store)
    ensures Get(c, key).1.Some? ==> key in store && Get(c, key).1 == Some(store[key])
  {
  }

  // ----- the code -----------------------------------------------------------------------------------------------

  class Shared {
    var entries: seq<Cached>
    var bytes: int
    const max: int
    const cap: nat

    function Value(): Cache
      reads this
    {
      Cache(entries, bytes, max, cap)
    }

    constructor (maxBytes: int)
      ensures Value() == New(maxBytes)
    {
      var c := New(maxBytes);
      entries, bytes, max, cap := c.entries, c.bytes, c.max, c.cap;
    }

    method GetBlock(key: Key) returns (block: Option<Bytes>)
      modifies this
      ensures (Value(), block) == Get(old(Value()), key)
    {
      var i := IndexOf(entries, key);
      block := if i < |entries| then Some(entries[i].block) else None;
      entries := Touch(entries, key);
    }

    method AddBlock(key: Key, block: Bytes)
      modifies this
      ensures Value() == Add(old(Value()), key, block)
    {
      hide Add, LruAdd;
      AddUnfold(Value(), key, block);
      var i := IndexOf(entries, key);
      if i < |entries| { bytes := bytes - |entries[i].block|; }
      entries := LruAdd(entries, key, block, cap);
      bytes := bytes + |block|;
      ghost var full := Value();
      while bytes > max
        invariant Shrink(Value()) == Shrink(full)
        decreases |entries|
      {
        if entries == [] { break; }
        bytes := bytes - |entries[0].block|;
        entries := entries[1..];
      }
    }
  }

  lemma AddUnfold(c: Cache, key: Key, block: Bytes)
    ensures var i := IndexOf(c.entries, key);
      var bytes := if i < |c.entries| then c.bytes - |c.entries[i].block| else c.bytes;
      Add(c, key, block) == Shrink(c.(entries := LruAdd(c.entries, key, block, c.cap), bytes := bytes + |block|))
  {
  }
}
