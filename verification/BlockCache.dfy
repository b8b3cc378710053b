/** The LRU cache of decoded blocks (`block_cache.rs`). */
module BlockCache {
  import opened Bytes

  datatype BlockKey = BlockKey(name: string, stream: u64, start: i64)

  /** The entries map, the eviction queue (front is evicted first) and the byte counter. */
  datatype Cache = Cache(entries: map<BlockKey, bytes>, queue: seq<BlockKey>, size: nat)

  const EMPTY: Cache := Cache(map[], [], 0)

  /** `saturating_sub`. */
  function Saturating(a: nat, b: nat): nat { if a < b then 0 else a - b }

  /** The queue without the first occurrence of a key. */
  function Without(q: seq<BlockKey>, k: BlockKey): (r: seq<BlockKey>)
    ensures forall x :: x in r ==> x in q
    ensures forall x :: x in q && x != k ==> x in r
    ensures k !in q ==> r == q
  {
    if q == [] then []
    else
      assert q == [q[0]] + q[1..];
      if q[0] == k then q[1..] else [q[0]] + Without(q[1..], k)
  }

  /** One turn of the eviction loop. */
  function Pop(c: Cache): Cache
    requires c.queue != []
  {
    var k := c.queue[0];
    if k in c.entries then Cache(c.entries - {k}, c.queue[1..], Saturating(c.size, |c.entries[k]|))
    else c.(queue := c.queue[1..])
  }

  function Evict(c: Cache, max: nat, room: nat): Cache
    decreases |c.queue|
  {
    if c.size + room > max && c.queue != [] then Evict(Pop(c), max, room) else c
  }

  function Insert(c: Cache, key: BlockKey, data: bytes): Cache {
    if key in c.entries then
      Cache(c.entries[key := data], Without(c.queue, key) + [key],
            Saturating(c.size, |c.entries[key]|) + |data|)
    else
      Cache(c.entries[key := data], c.queue + [key], c.size + |data|)
  }

  function Put(c: Cache, max: nat, key: BlockKey, data: bytes): Cache {
    Insert(Evict(c, max, |data|), key, data)
  }

  /** The second locked section of a hit: it moves the key to the back, or adds it. */
  function Touch(c: Cache, key: BlockKey): Cache { c.(queue := Without(c.queue, key) + [key]) }

  /** A lookup that nothing interrupts. */
  function Get(c: Cache, key: BlockKey): Cache { if key in c.entries then Touch(c, key) else c }

  class SharedCache {
    const maxBytes: nat
    var entries: map<BlockKey, bytes>
    var lruOrder: seq<BlockKey>
    var currentBytes: nat
    var hits: nat
    var misses: nat

    ghost function State(): Cache
      reads this
    {
      Cache(entries, lruOrder, currentBytes)
    }

    constructor (max: nat)
      ensures maxBytes == max && State() == EMPTY && hits == 0 && misses == 0
    {
      maxBytes := max;
      entries, lruOrder, currentBytes, hits, misses := map[], [], 0, 0, 0;
    }

    /** The first locked section of a lookup. */
    method Find(key: BlockKey) returns (r: Option<bytes>)
      modifies this`hits, this`misses
      ensures r == if key in entries then Some(entries[key]) else None
      ensures hits + misses == old(hits) + old(misses) + 1 && (r.Some? <==> hits == old(hits) + 1)
    {
      if key in entries {
        hits := hits + 1;
        return Some(entries[key]);
      }
      misses := misses + 1;
      return None;
    }

    /** The second. */
    method MoveToBack(key: BlockKey)
      modifies this`lruOrder
      ensures State() == Touch(old(State()), key)
    {
      lruOrder := DropFirst(lruOrder, key);
      lruOrder := lruOrder + [key];
    }

    method GetBlock(key: BlockKey) returns (r: Option<bytes>)
      modifies this
      ensures r == if key in old(entries) then Some(old(entries)[key]) else None
      ensures State() == Get(old(State()), key)
    {
      r := Find(key);
      if r.Some? { MoveToBack(key); }
    }

    method PutBlock(key: BlockKey, data: bytes)
      modifies this`entries, this`lruOrder, this`currentBytes
      ensures State() == Put(old(State()), maxBytes, key, data)
    {
      while currentBytes + |data| > maxBytes && lruOrder != []
        invariant Evict(State(), maxBytes, |data|) == Evict(old(State()), maxBytes, |data|)
        decreases |lruOrder|
      {
        var oldKey := lruOrder[0];
        lruOrder := lruOrder[1..];
        if oldKey in entries {
          currentBytes := Saturating(currentBytes, |entries[oldKey]|);
          entries := entries - {oldKey};
        }
      }
      var replaced := if key in entries then Some(entries[key]) else None;
      entries := entries[key := data];
      if replaced.Some? {
        currentBytes := Saturating(currentBytes, |replaced.value|);
        lruOrder := DropFirst(lruOrder, key);
      }
      currentBytes := currentBytes + |data|;
      lruOrder := lruOrder + [key];
    }

    method Clear()
      modifies this`entries, this`lruOrder, this`currentBytes
      ensures State() == EMPTY
    {
      entries, lruOrder, currentBytes := map[], [], 0;
    }
  }

  /** `position`, then `remove`. */
  method DropFirst(q: seq<BlockKey>, key: BlockKey) returns (r: seq<BlockKey>)
    ensures r == Without(q, key)
  {
    var i := 0;
    while i < |q| && q[i] != key
      invariant 0 <= i <= |q| && key !in q[..i]
    {
      i := i + 1;
    }
    WithoutAt(q, key, i);
    if i < |q| { return q[..i] + q[i + 1..]; }
    return q;
  }

  lemma {:induction false} WithoutAt(q: seq<BlockKey>, key: BlockKey, i: nat)
    requires i <= |q| && key !in q[..i] && (i < |q| ==> q[i] == key)
    ensures Without(q, key) == if i < |q| then q[..i] + q[i + 1..] else q
  {
    if 0 < i {
      var head, tail := q[0], q[1..];
      assert tail[..i - 1] == q[1..i] && q[..i] == [head] + q[1..i];
      WithoutAt(tail, key, i - 1);
      if i < |q| {
        assert tail[i..] == q[i + 1..];
        assert [head] + (q[1..i] + q[i + 1..]) == q[..i] + q[i + 1..];
      }
    }
  }

  // ---------- exact accounting under interleaving ----------

  ghost function Sum(m: map<BlockKey, bytes>): nat {
    if m == map[] then 0
    else
      var k :| k in m;
      |m[k]| + Sum(m - {k})
  }

  lemma {:induction false} SumWithout(m: map<BlockKey, bytes>, k: BlockKey)
    requires k in m
    ensures Sum(m) == |m[k]| + Sum(m - {k})
    decreases |m|
  {
    var j :| j in m && Sum(m) == |m[j]| + Sum(m - {j});
    if j != k {
      SumWithout(m - {j}, k);
      SumWithout(m - {k}, j);
      assert m - {j} - {k} == m - {k} - {j};
    }
  }

  lemma SumInsert(m: map<BlockKey, bytes>, k: BlockKey, data: bytes)
    ensures Sum(m[k := data]) == |data| + Sum(m - {k})
  {
    SumWithout(m[k := data], k);
    assert m[k := data] - {k} == m - {k};
  }

  /** Every stored key is queued for eviction and the counter is exact. */
  ghost predicate Accounted(c: Cache) {
    (forall k :: k in c.entries ==> k in c.queue) && c.size == Sum(c.entries)
  }

  lemma PopKeeps(c: Cache)
    requires Accounted(c) && c.queue != []
    ensures Accounted(Pop(c))
  {
    var k := c.queue[0];
    assert c.queue == [k] + c.queue[1..];
    if k in c.entries { SumWithout(c.entries, k); }
  }

  lemma {:induction false} EvictKeeps(c: Cache, max: nat, room: nat)
    requires Accounted(c)
    ensures var e := Evict(c, max, room);
            Accounted(e) && (e.size + room <= max || e.entries == map[])
    decreases |c.queue|
  {
    if c.size + room > max && c.queue != [] {
      PopKeeps(c);
      EvictKeeps(Pop(c), max, room);
    }
  }

  lemma InsertKeeps(c: Cache, key: BlockKey, data: bytes)
    requires Accounted(c)
    ensures Accounted(Insert(c, key, data)) && Insert(c, key, data).size <= c.size + |data|
  {
    SumInsert(c.entries, key, data);
    if key in c.entries {
      SumWithout(c.entries, key);
    } else {
      assert c.entries - {key} == c.entries;
    }
  }

  /** A put stores its own value and otherwise only drops entries. */
  lemma {:induction false} EvictDropsOnly(c: Cache, max: nat, room: nat)
    ensures forall k :: k in Evict(c, max, room).entries ==>
              k in c.entries && Evict(c, max, room).entries[k] == c.entries[k]
    decreases |c.queue|
  {
    if c.size + room > max && c.queue != [] { EvictDropsOnly(Pop(c), max, room); }
  }

  lemma PutStores(c: Cache, max: nat, key: BlockKey, data: bytes)
    ensures var e := Put(c, max, key, data).entries;
            && key in e && e[key] == data
            && forall k :: k in e && k != key ==> k in c.entries && e[k] == c.entries[k]
  {
    EvictDropsOnly(c, max, |data|);
  }

  /** The two locked sections of a lookup, a put and a clear, as the steps threads can take. */
  datatype Step = Lookup(key: BlockKey) | Finish(key: BlockKey) | Store(key: BlockKey, data: bytes) | Wipe

  /** The cache and the keys of the hits whose second section is still to come. */
  datatype Shared = Shared(cache: Cache, pending: multiset<BlockKey>)

  predicate Enabled(s: Shared, step: Step) { step.Finish? ==> step.key in s.pending }

  function Take(s: Shared, max: nat, step: Step): Shared {
    match step
    case Lookup(k) => if k in s.cache.entries then s.(pending := s.pending + multiset{k}) else s
    case Finish(k) => Shared(Touch(s.cache, k), s.pending - multiset{k})
    case Store(k, data) => s.(cache := Put(s.cache, max, k, data))
    case Wipe => s.(cache := EMPTY)
  }

  ghost predicate Reaches(max: nat, steps: seq<Step>, s: Shared)
    decreases |steps|
  {
    if steps == [] then s == Shared(EMPTY, multiset{})
    else
      var n := |steps| - 1;
      exists t :: Reaches(max, steps[..n], t) && Enabled(t, steps[n]) && s == Take(t, max, steps[n])
  }

  lemma StepKeepsAccount(s: Shared, max: nat, step: Step)
    requires Accounted(s.cache)
    ensures Accounted(Take(s, max, step).cache)
  {
    if step.Store? {
      EvictKeeps(s.cache, max, |step.data|);
      InsertKeeps(Evict(s.cache, max, |step.data|), step.key, step.data);
    }
  }

  /** For every interleaving: each stored key is queued, and the counter is the sum of the stored lengths. */
  lemma {:induction false} AccountIsExact(max: nat, steps: seq<Step>, s: Shared)
    requires Reaches(max, steps, s)
    ensures Accounted(s.cache)
  {
    if steps != [] {
      var n := |steps| - 1;
      var t :| Reaches(max, steps[..n], t) && Enabled(t, steps[n]) && s == Take(t, max, steps[n]);
      AccountIsExact(max, steps[..n], t);
      StepKeepsAccount(t, max, steps[n]);
    }
  }

  /** No subtraction of the eviction loop saturates, from the first entry evicted to the last. */
  predicate EvictsExactly(c: Cache, max: nat, room: nat)
    decreases |c.queue|
  {
    c.size + room > max && c.queue != [] ==>
      && (c.queue[0] in c.entries ==> |c.entries[c.queue[0]]| <= c.size)
      && EvictsExactly(Pop(c), max, room)
  }

  lemma {:induction false} AccountedEvictsExactly(c: Cache, max: nat, room: nat)
    requires Accounted(c)
    ensures EvictsExactly(c, max, room)
    decreases |c.queue|
  {
    if c.size + room > max && c.queue != [] {
      if c.queue[0] in c.entries { SumWithout(c.entries, c.queue[0]); }
      PopKeeps(c);
      AccountedEvictsExactly(Pop(c), max, room);
    }
  }

  /** So in every put of every run no subtraction saturates, neither in the loop nor for the value replaced. */
  lemma NeverSaturates(max: nat, steps: seq<Step>, s: Shared, key: BlockKey, data: bytes)
    requires Reaches(max, steps, s)
    ensures EvictsExactly(s.cache, max, |data|)
    ensures var e := Evict(s.cache, max, |data|);
            key in e.entries ==> |e.entries[key]| <= e.size
  {
    AccountIsExact(max, steps, s);
    AccountedEvictsExactly(s.cache, max, |data|);
    EvictKeeps(s.cache, max, |data|);
    var e := Evict(s.cache, max, |data|);
    if key in e.entries { SumWithout(e.entries, key); }
  }

  /** After every put the total is within the capacity, or the cache holds only that entry. */
  lemma PutFits(max: nat, steps: seq<Step>, s: Shared, key: BlockKey, data: bytes)
    requires Reaches(max, steps, s)
    ensures var c := Put(s.cache, max, key, data);
            key in c.entries && c.entries[key] == data && (Sum(c.entries) <= max || c.entries == map[key := data])
  {
    AccountIsExact(max, steps, s);
    EvictKeeps(s.cache, max, |data|);
    InsertKeeps(Evict(s.cache, max, |data|), key, data);
  }

  // ---------- calls that do not interleave: an ideal LRU ----------

  predicate NoDuplicates(q: seq<BlockKey>) {
    forall i, j :: 0 <= i < j < |q| ==> q[i] != q[j]
  }

  /** The queue lists exactly the stored keys, each once. */
  ghost predicate Exact(c: Cache) {
    Accounted(c) && NoDuplicates(c.queue) && forall k :: k in c.queue ==> k in c.entries
  }

  lemma {:induction false} WithoutDuplicates(q: seq<BlockKey>, k: BlockKey)
    requires NoDuplicates(q)
    ensures NoDuplicates(Without(q, k)) && k !in Without(q, k)
  {
    if q != [] {
      assert NoDuplicates(q[1..]) by { assert forall i :: 0 <= i < |q| - 1 ==> q[1..][i] == q[i + 1]; }
      assert q[0] !in q[1..];
      WithoutDuplicates(q[1..], k);
    }
  }

  /**
   * A hit's second section keeps the queue exact exactly when the key is still stored. A put or a clear between the
   * two sections can have removed it.
   */
  lemma TouchKeepsExactIffStored(c: Cache, k: BlockKey)
    requires Exact(c)
    ensures Exact(Touch(c, k)) <==> k in c.entries
  {
    WithoutDuplicates(c.queue, k);
    assert k in Touch(c, k).queue by { assert Touch(c, k).queue[|Without(c.queue, k)|] == k; }
  }

  /** A block stored, found, wiped away between the two sections of the lookup, and queued all the same. */
  function WipedLookup(k: BlockKey, data: bytes): seq<Step> { [Store(k, data), Lookup(k), Wipe, Finish(k)] }

  lemma WipedLookupLeavesStaleKey(max: nat, k: BlockKey, data: bytes)
    ensures var s := Shared(Cache(map[], [k], 0), multiset{});
            Reaches(max, WipedLookup(k, data), s) && !Exact(s.cache)
  {
    WipedSteps(max, k, data);
    hide Take, Reaches, Put, Enabled, Exact;
    var c := Put(EMPTY, max, k, data);
    var s0, s1, s2 := Shared(EMPTY, multiset{}), Shared(c, multiset{}), Shared(c, multiset{k});
    var s3, s4 := Shared(EMPTY, multiset{k}), Shared(Cache(map[], [k], 0), multiset{});
    var steps := WipedLookup(k, data);
    assert steps[..1] == [Store(k, data)] && steps[..2] == [Store(k, data), Lookup(k)];
    assert [] + [steps[0]] == steps[..1] && steps[..1] + [steps[1]] == steps[..2];
    assert steps[..2] + [steps[2]] == steps[..3] && steps[..3] + [steps[3]] == steps;
    ReachesNext(max, [], s0, steps[0], s1);
    ReachesNext(max, steps[..1], s1, steps[1], s2);
    ReachesNext(max, steps[..2], s2, steps[2], s3);
    ReachesNext(max, steps[..3], s3, steps[3], s4);
  }

  lemma WipedSteps(max: nat, k: BlockKey, data: bytes)
    ensures var c, m := Put(EMPTY, max, k, data), multiset{k};
            && Take(Shared(EMPTY, multiset{}), max, Store(k, data)) == Shared(c, multiset{})
            && Take(Shared(c, multiset{}), max, Lookup(k)) == Shared(c, m)
            && Take(Shared(c, m), max, Wipe) == Shared(EMPTY, m)
            && Take(Shared(EMPTY, m), max, Finish(k)) == Shared(Cache(map[], [k], 0), multiset{})
            && Enabled(Shared(EMPTY, multiset{}), Store(k, data)) && Enabled(Shared(c, multiset{}), Lookup(k))
            && Enabled(Shared(c, m), Wipe) && Enabled(Shared(EMPTY, m), Finish(k))
            && !Exact(Cache(map[], [k], 0))
  {
    hide Evict;
    assert k in Cache(map[], [k], 0).queue;
    assert multiset{} + multiset{k} == multiset{k};
  }

  lemma ReachesNext(max: nat, steps: seq<Step>, s: Shared, step: Step, t: Shared)
    requires if steps == [] then s == Shared(EMPTY, multiset{}) else Reaches(max, steps, s)
    requires Enabled(s, step) && t == Take(s, max, step)
    ensures Reaches(max, steps + [step], t)
  {
    hide Take;
    var all := steps + [step];
    assert all[..|all| - 1] == steps && all[|all| - 1] == step;
    assert Reaches(max, [], Shared(EMPTY, multiset{}));
  }

  /** The entries whose keys are not among the first `j` of the queue. */
  ghost function Kept(c: Cache, j: nat): map<BlockKey, bytes>
    requires j <= |c.queue|
  {
    map k | k in c.entries && k in c.queue[j..] :: c.entries[k]
  }

  lemma PopIsKept(c: Cache)
    requires Exact(c) && c.queue != []
    ensures Pop(c) == Cache(Kept(c, 1), c.queue[1..], Sum(Kept(c, 1))) && Exact(Pop(c))
  {
    hide Sum;
    var k := c.queue[0];
    assert c.queue == [k] + c.queue[1..];
    PopKeeps(c);
    assert k !in c.queue[1..];
    assert c.entries - {k} == Kept(c, 1);
    assert NoDuplicates(c.queue[1..]) by {
      assert forall i :: 0 <= i < |c.queue| - 1 ==> c.queue[1..][i] == c.queue[i + 1];
    }
  }

  lemma KeptShifts(c: Cache, i: nat)
    requires Exact(c) && i < |c.queue|
    ensures Kept(Pop(c), i) == Kept(c, i + 1)
  {
    hide Sum, Exact, Pop;
    PopIsKept(c);
    assert c.queue[1..][i..] == c.queue[i + 1..];
    assert forall k :: k in c.queue[i + 1..] ==> k in c.queue[1..] by {
      assert forall n :: i + 1 <= n < |c.queue| ==> c.queue[n] == c.queue[1..][n - 1];
    }
  }

  /** Eviction drops the shortest prefix of the queue that makes room, or everything. */
  lemma {:induction false} EvictsShortestPrefix(c: Cache, max: nat, room: nat) returns (j: nat)
    requires Exact(c)
    ensures j <= |c.queue| && Evict(c, max, room) == Cache(Kept(c, j), c.queue[j..], Sum(Kept(c, j)))
    ensures j == |c.queue| || Sum(Kept(c, j)) + room <= max
    ensures forall i: nat :: i < j ==> Sum(Kept(c, i)) + room > max
    decreases |c.queue|
  {
    hide Sum, Pop, Exact;
    assert c.queue[0..] == c.queue;
    AllKept(c);
    if c.size + room > max && c.queue != [] {
      PopIsKept(c);
      var i := EvictsShortestPrefix(Pop(c), max, room);
      j := i + 1;
      assert c.queue[1..][i..] == c.queue[j..];
      KeptShifts(c, i);
      forall h: nat | h < j
        ensures Sum(Kept(c, h)) + room > max
      {
        if h > 0 { KeptShifts(c, h - 1); }
      }
    } else {
      j := 0;
    }
  }

  lemma AllKept(c: Cache)
    requires Exact(c)
    ensures Kept(c, 0) == c.entries && c.size == Sum(c.entries)
  {
    assert c.queue[0..] == c.queue;
  }

  datatype Call = GetCall(key: BlockKey) | PutCall(key: BlockKey, data: bytes) | ClearCall

  function Apply(c: Cache, max: nat, call: Call): Cache {
    match call
    case GetCall(k) => Get(c, k)
    case PutCall(k, data) => Put(c, max, k, data)
    case ClearCall => EMPTY
  }

  function Run(max: nat, calls: seq<Call>): Cache {
    if calls == [] then EMPTY else Apply(Run(max, calls[..|calls| - 1]), max, calls[|calls| - 1])
  }

  predicate Names(call: Call, k: BlockKey) { !call.ClearCall? && call.key == k }

  /** The last call that named a key, or -1. */
  function LastUse(calls: seq<Call>, k: BlockKey): (r: int)
    ensures r < |calls|
  {
    if calls == [] then -1
    else if Names(calls[|calls| - 1], k) then |calls| - 1
    else LastUse(calls[..|calls| - 1], k)
  }

  /** What was last put under a key since the last clear. */
  function LastPut(calls: seq<Call>, k: BlockKey): Option<bytes> {
    if calls == [] then None
    else
      var call := calls[|calls| - 1];
      if call.ClearCall? then None
      else if call.PutCall? && call.key == k then Some(call.data)
      else LastPut(calls[..|calls| - 1], k)
  }

  /** From the least to the most recently used. */
  ghost predicate ByRecency(calls: seq<Call>, q: seq<BlockKey>) {
    q == [] || ((forall x :: x in q[1..] ==> LastUse(calls, q[0]) < LastUse(calls, x)) && ByRecency(calls, q[1..]))
  }

  lemma {:induction false} WithoutByRecency(calls: seq<Call>, q: seq<BlockKey>, k: BlockKey)
    requires ByRecency(calls, q)
    ensures ByRecency(calls, Without(q, k))
  {
    hide LastUse;
    if q != [] { WithoutByRecency(calls, q[1..], k); }
  }

  lemma {:induction false} SuffixByRecency(calls: seq<Call>, q: seq<BlockKey>, j: nat)
    requires j <= |q| && ByRecency(calls, q)
    ensures ByRecency(calls, q[j..])
  {
    hide LastUse;
    if j > 0 {
      assert q[1..][j - 1..] == q[j..];
      SuffixByRecency(calls, q[1..], j - 1);
    } else {
      assert q[0..] == q;
    }
  }

  /** A call that names another key, or none, changes no one's place. */
  lemma {:induction false} SameRecency(calls: seq<Call>, q: seq<BlockKey>)
    requires calls != [] && forall k :: k in q ==> !Names(calls[|calls| - 1], k)
    requires ByRecency(calls[..|calls| - 1], q)
    ensures ByRecency(calls, q)
  {
    if q != [] {
      forall k | k in q[1..]
        ensures !Names(calls[|calls| - 1], k)
      {
        assert k in q;
      }
      SameRecency(calls, q[1..]);
      assert forall x :: x in q ==> LastUse(calls, x) == LastUse(calls[..|calls| - 1], x);
    }
  }

  /** The key just named goes last. */
  lemma {:induction false} NamedLast(calls: seq<Call>, q: seq<BlockKey>, k: BlockKey)
    requires calls != [] && Names(calls[|calls| - 1], k) && k !in q
    requires ByRecency(calls[..|calls| - 1], q)
    ensures ByRecency(calls, q + [k])
  {
    if q == [] {
      assert q + [k] == [k];
    } else {
      NamedLast(calls, q[1..], k);
      assert (q + [k])[1..] == q[1..] + [k];
    }
  }

  /** The part of the state that a call touches: exact, in order of use, and holding what was put last. */
  ghost predicate Ideal(calls: seq<Call>, c: Cache) {
    && Exact(c) && ByRecency(calls, c.queue)
    && forall k :: k in c.entries ==> LastPut(calls, k) == Some(c.entries[k])
  }

  lemma GetKeepsIdeal(calls: seq<Call>, c: Cache, k: BlockKey)
    requires calls != [] && calls[|calls| - 1] == GetCall(k) && Ideal(calls[..|calls| - 1], c)
    ensures Ideal(calls, Get(c, k))
  {
    hide Sum;
    var before := calls[..|calls| - 1];
    TouchKeepsExactIffStored(c, k);
    if k in c.entries {
      WithoutByRecency(before, c.queue, k);
      WithoutDuplicates(c.queue, k);
      NamedLast(calls, Without(c.queue, k), k);
    } else {
      SameRecency(calls, c.queue);
    }
  }

  lemma EvictKeepsIdeal(calls: seq<Call>, c: Cache, max: nat, room: nat)
    requires Ideal(calls, c)
    ensures Ideal(calls, Evict(c, max, room))
  {
    hide Sum, LastPut;
    EvictKeeps(c, max, room);
    var j := EvictsShortestPrefix(c, max, room);
    SuffixByRecency(calls, c.queue, j);
    assert NoDuplicates(c.queue[j..]);
  }

  lemma InsertKeepsIdeal(calls: seq<Call>, c: Cache, k: BlockKey, data: bytes)
    requires calls != [] && calls[|calls| - 1] == PutCall(k, data) && Ideal(calls[..|calls| - 1], c)
    ensures Ideal(calls, Insert(c, k, data))
  {
    hide Sum, LastUse;
    var before := calls[..|calls| - 1];
    InsertKeeps(c, k, data);
    WithoutByRecency(before, c.queue, k);
    WithoutDuplicates(c.queue, k);
    NamedLast(calls, Without(c.queue, k), k);
  }

  /**
   * Over every list of calls, the queue lists exactly the stored keys from the least to the most recently used, and
   * each stored value is the one last put under its key since the last clear.
   */
  lemma {:induction false} IdealLru(max: nat, calls: seq<Call>)
    ensures Ideal(calls, Run(max, calls))
  {
    hide Sum, Exact, Get, Evict, Insert, LastPut, LastUse;
    if calls == [] {
      NothingIsIdeal(calls);
    } else {
      var before, call := calls[..|calls| - 1], calls[|calls| - 1];
      var c := Run(max, before);
      IdealLru(max, before);
      match call
      case GetCall(k) => GetKeepsIdeal(calls, c, k);
      case PutCall(k, data) =>
        EvictKeepsIdeal(before, c, max, |data|);
        InsertKeepsIdeal(calls, Evict(c, max, |data|), k, data);
      case ClearCall => NothingIsIdeal(calls);
    }
  }

  lemma NothingIsIdeal(calls: seq<Call>)
    ensures Ideal(calls, EMPTY)
  {
  }

  /** A put of an absent key drops the shortest least-recent prefix that makes room, and nothing else. */
  lemma PutOfAbsentKey(max: nat, calls: seq<Call>, k: BlockKey, data: bytes) returns (j: nat)
    requires k !in Run(max, calls).entries
    ensures var c := Run(max, calls);
            && j <= |c.queue| && Put(c, max, k, data).entries == Kept(c, j)[k := data]
            && Put(c, max, k, data).queue == c.queue[j..] + [k]
            && (j == |c.queue| || Sum(Kept(c, j)) + |data| <= max)
            && forall i: nat :: i < j ==> Sum(Kept(c, i)) + |data| > max
  {
    hide Sum, Exact, Get, Evict, Run;
    IdealLru(max, calls);
    j := EvictsShortestPrefix(Run(max, calls), max, |data|);
  }
}
