/** Objects of one stream in S3: uploads (`stream.rs`) and compaction (`compactor.rs`). */
module Compaction {
  import opened Bytes
  import opened Names
  import opened ObjectCodec

  // ---------- object keys ----------

  /** An uploaded object's key, or a compacted one's. */
  function Key(stream: string, start: i64, end: i64, compacted: bool): string {
    "streams/" + stream + "/" + Padded(start, 20) + "_" + Padded(end, 20) + if compacted
      then ".compacted.data" else ".data"
  }

  /** Two objects of a stream with the same key have the same range and are of the same kind. */
  lemma KeyInjective(stream: string, s1: i64, e1: i64, c1: bool, s2: i64, e2: i64, c2: bool)
    requires Key(stream, s1, e1, c1) == Key(stream, s2, e2, c2)
    ensures s1 == s2 && e1 == e2 && c1 == c2
  {
    hide Padded;
    PaddedTwenty(s1);
    PaddedTwenty(e1);
    PaddedTwenty(s2);
    PaddedTwenty(e2);
    var n := 8 + |stream| + 1;
    var x, y := Key(stream, s1, e1, c1), Key(stream, s2, e2, c2);
    assert |x| == n + 41 + (if c1 then 15 else 5) && |y| == n + 41 + (if c2 then 15 else 5);
    assert x[n..n + 20] == Padded(s1, 20) && y[n..n + 20] == Padded(s2, 20);
    assert x[n + 21..n + 41] == Padded(e1, 20) && y[n + 21..n + 41] == Padded(e2, 20);
    PaddedInjective(s1, s2);
    PaddedInjective(e1, e2);
  }

  // ---------- objects and their blocks ----------

  datatype Meta = Meta(key: string, start: i64, end: i64, count: u32, size: nat)

  type Storage = map<string, bytes>

  function BlocksOf(storage: Storage, m: Meta): seq<Block> {
    if m.key in storage && Decode(storage[m.key]).Ok? then Decode(storage[m.key]).value else []
  }

  /** The smallest start offset, counted from the largest number as the loop does. */
  function MinStart(bs: seq<Block>): (r: i64)
    ensures forall b :: b in bs ==> r <= b.start
  {
    if bs == [] then I64_MAX
    else
      assert bs == [bs[0]] + bs[1..];
      var rest := MinStart(bs[1..]);
      if bs[0].start < rest then bs[0].start else rest
  }

  /** The largest end offset, counted from the smallest number. */
  function MaxEnd(bs: seq<Block>): (r: i64)
    ensures forall b :: b in bs ==> r >= b.end
  {
    if bs == [] then I64_MIN
    else
      assert bs == [bs[0]] + bs[1..];
      var rest := MaxEnd(bs[1..]);
      if bs[0].end > rest then bs[0].end else rest
  }

  function Total(bs: seq<Block>): nat {
    if bs == [] then 0 else bs[0].count + Total(bs[1..])
  }

  /** The blocks of several objects, in order. */
  function Merged(storage: Storage, ms: seq<Meta>): seq<Block> {
    if ms == [] then [] else BlocksOf(storage, ms[0]) + Merged(storage, ms[1..])
  }

  /** The blocks reachable from a list of metadata. */
  function Bag(storage: Storage, ms: seq<Meta>): multiset<Block> {
    if ms == [] then multiset{} else multiset(BlocksOf(storage, ms[0])) + Bag(storage, ms[1..])
  }

  /** The records they hold, by the metadata. */
  function Records(ms: seq<Meta>): nat {
    if ms == [] then 0 else ms[0].count + Records(ms[1..])
  }

  // ---------- lists of metadata ----------

  function Keys(ms: seq<Meta>): set<string> { set m | m in ms :: m.key }

  /** `retain`: the entries whose key is in `ks`, or those whose key is not. */
  function Keep(ms: seq<Meta>, ks: set<string>, inside: bool): (r: seq<Meta>)
    ensures forall m :: m in r <==> m in ms && (m.key in ks) == inside
  {
    if ms == [] then []
    else
      assert ms == [ms[0]] + ms[1..];
      (if (ms[0].key in ks) == inside then [ms[0]] else []) + Keep(ms[1..], ks, inside)
  }

  function Small(ms: seq<Meta>, target: nat): (r: seq<Meta>)
    ensures forall m :: m in r <==> m in ms && m.size < target
  {
    if ms == [] then []
    else
      assert ms == [ms[0]] + ms[1..];
      (if ms[0].size < target then [ms[0]] else []) + Small(ms[1..], target)
  }

  ghost predicate Ascending(ms: seq<Meta>) {
    |ms| < 2 || (ms[0].start <= ms[1].start && Ascending(ms[1..]))
  }

  /** A stable sort by start offset: each entry goes behind those that do not start later. */
  function Sorted(ms: seq<Meta>): (r: seq<Meta>)
    ensures Ascending(r) && |r| == |ms|
  {
    if ms == [] then [] else Insert(Sorted(ms[..|ms| - 1]), ms[|ms| - 1])
  }

  function Insert(ms: seq<Meta>, m: Meta): (r: seq<Meta>)
    requires Ascending(ms)
    ensures Ascending(r) && |r| == |ms| + 1
    ensures r[0] == m || (ms != [] && r[0] == ms[0])
  {
    if ms == [] || m.start < ms[0].start then
      assert ([m] + ms)[1..] == ms;
      [m] + ms
    else
      var r := Insert(ms[1..], m);
      assert ([ms[0]] + r)[1..] == r;
      [ms[0]] + r
  }

  ghost predicate DistinctKeys(ms: seq<Meta>) {
    ms == [] || ((forall m :: m in ms[1..] ==> m.key != ms[0].key) && DistinctKeys(ms[1..]))
  }

  lemma {:induction false} InsertKeeps(storage: Storage, ms: seq<Meta>, m: Meta)
    requires Ascending(ms)
    ensures Bag(storage, Insert(ms, m)) == Bag(storage, ms) + multiset(BlocksOf(storage, m))
    ensures Records(Insert(ms, m)) == Records(ms) + m.count
    ensures forall x :: x in Insert(ms, m) <==> x in ms || x == m
    ensures DistinctKeys(ms) && m.key !in Keys(ms) ==> DistinctKeys(Insert(ms, m))
  {
    hide BlocksOf;
    if ms == [] || m.start < ms[0].start {
      assert ([m] + ms)[1..] == ms;
    } else {
      InsertKeeps(storage, ms[1..], m);
      var r := Insert(ms[1..], m);
      assert ([ms[0]] + r)[1..] == r;
      assert ms == [ms[0]] + ms[1..];
    }
  }

  lemma {:induction false} SortedKeeps(storage: Storage, ms: seq<Meta>)
    ensures Bag(storage, Sorted(ms)) == Bag(storage, ms)
    ensures Records(Sorted(ms)) == Records(ms)
    ensures forall x :: x in Sorted(ms) <==> x in ms
    ensures DistinctKeys(ms) ==> DistinctKeys(Sorted(ms))
  {
    hide BlocksOf, Insert;
    if ms != [] {
      var front, last := ms[..|ms| - 1], ms[|ms| - 1];
      assert ms == front + [last];
      SortedKeeps(storage, front);
      InsertKeeps(storage, Sorted(front), last);
      AppendKeeps(storage, front, last);
    }
  }

  lemma {:induction false} AppendKeeps(storage: Storage, ms: seq<Meta>, m: Meta)
    ensures Bag(storage, ms + [m]) == Bag(storage, ms) + multiset(BlocksOf(storage, m))
    ensures Records(ms + [m]) == Records(ms) + m.count
    ensures DistinctKeys(ms + [m]) <==> DistinctKeys(ms) && m.key !in Keys(ms)
  {
    hide BlocksOf;
    if ms == [] {
      assert ms + [m] == [m];
    } else {
      assert (ms + [m])[1..] == ms[1..] + [m];
      AppendKeeps(storage, ms[1..], m);
      assert ms == [ms[0]] + ms[1..];
    }
  }

  lemma {:induction false} KeepSplits(storage: Storage, ms: seq<Meta>, ks: set<string>)
    ensures Bag(storage, ms) == Bag(storage, Keep(ms, ks, true)) + Bag(storage, Keep(ms, ks, false))
    ensures Records(ms) == Records(Keep(ms, ks, true)) + Records(Keep(ms, ks, false))
  {
    hide BlocksOf, Bag, Records, Keep;
    HeadOfBag(storage, ms);
    HeadOfBag(storage, Keep(ms, ks, true));
    HeadOfBag(storage, Keep(ms, ks, false));
    if ms != [] {
      KeepSplits(storage, ms[1..], ks);
      KeepStep(ms, ks, true);
      KeepStep(ms, ks, false);
    } else {
      assert Keep(ms, ks, true) == [] && Keep(ms, ks, false) == [] by { KeepOfNone(ks); }
    }
  }

  lemma KeepOfNone(ks: set<string>)
    ensures Keep([], ks, true) == [] && Keep([], ks, false) == []
  {
  }

  lemma HeadOfBag(storage: Storage, ms: seq<Meta>)
    ensures ms == [] ==> Bag(storage, ms) == multiset{} && Records(ms) == 0
    ensures ms != [] ==>
              Bag(storage, ms) == multiset(BlocksOf(storage, ms[0])) + Bag(storage, ms[1..]) &&
              Records(ms) == ms[0].count + Records(ms[1..])
  {
  }

  lemma KeepStep(ms: seq<Meta>, ks: set<string>, inside: bool)
    requires ms != []
    ensures var r := Keep(ms[1..], ks, inside);
            if (ms[0].key in ks) == inside then Keep(ms, ks, inside) == [ms[0]] + r && Keep(ms, ks, inside)[1..] == r
            else Keep(ms, ks, inside) == r
  {
  }

  lemma {:induction false} KeepDistinct(ms: seq<Meta>, ks: set<string>, inside: bool)
    requires DistinctKeys(ms)
    ensures DistinctKeys(Keep(ms, ks, inside))
  {
    if ms != [] {
      KeepDistinct(ms[1..], ks, inside);
      KeepStep(ms, ks, inside);
    }
  }

  /** With distinct keys, retaining the keys of the small objects retains the small objects. */
  lemma {:induction false} KeepSmall(ms: seq<Meta>, target: nat, ks: set<string>)
    requires forall m :: m in ms ==> (m.key in ks <==> m.size < target)
    ensures Keep(ms, ks, true) == Small(ms, target)
  {
    if ms != [] {
      assert ms == [ms[0]] + ms[1..];
      KeepSmall(ms[1..], target, ks);
    }
  }

  lemma {:induction false} KeepAppend(ms: seq<Meta>, m: Meta, ks: set<string>)
    ensures Keep(ms + [m], ks, true) == Keep(ms, ks, true) + if m.key in ks then [m] else []
  {
    if ms == [] {
      assert ms + [m] == [m];
    } else {
      assert (ms + [m])[1..] == ms[1..] + [m];
      KeepAppend(ms[1..], m, ks);
    }
  }

  lemma {:induction false} BagIgnoresOthers(s: Storage, t: Storage, ms: seq<Meta>)
    requires forall m :: m in ms ==> BlocksOf(s, m) == BlocksOf(t, m)
    ensures Bag(s, ms) == Bag(t, ms) && Merged(s, ms) == Merged(t, ms)
  {
    hide BlocksOf;
    if ms != [] {
      assert ms == [ms[0]] + ms[1..];
      BagIgnoresOthers(s, t, ms[1..]);
    }
  }

  lemma {:induction false} DistinctByKey(ms: seq<Meta>, a: Meta, b: Meta)
    requires DistinctKeys(ms) && a in ms && b in ms && a.key == b.key
    ensures a == b
  {
    if a in ms[1..] && b in ms[1..] { DistinctByKey(ms[1..], a, b); }
  }

  // ---------- the compactor ----------

  /** Reading and decoding the chosen objects. */
  function Gather(storage: Storage, ms: seq<Meta>): (r: Result<seq<Block>>)
    ensures r.Ok? ==> r.value == Merged(storage, ms)
  {
    if ms == [] then Ok([])
    else if ms[0].key !in storage then Err("Object not found")
    else
      var bs :- Decode(storage[ms[0].key]);
      var rest :- Gather(storage, ms[1..]);
      Ok(bs + rest)
  }

  /** The metadata of the object that holds `bs`. */
  function CompactedMeta(stream: string, bs: seq<Block>): Meta {
    Meta(Key(stream, MinStart(bs), MaxEnd(bs), true), MinStart(bs), MaxEnd(bs), Low32(Total(bs)), |Encode(bs)|)
  }

  /** The metadata after the swap. */
  function Swapped(ms: seq<Meta>, keys: set<string>, meta: Meta): seq<Meta> {
    Sorted(Keep(ms, keys, false) + [meta])
  }

  /** A whole undisturbed compaction: the answer, the storage and the metadata. */
  function Compacted(storage: Storage, ms: seq<Meta>, stream: string, target: nat)
    : (Result<Option<Meta>>, Storage, seq<Meta>)
  {
    var objects := Small(ms, target);
    if |objects| < 2 then (Ok(None), storage, ms)
    else
      var bs := Gather(storage, objects);
      if bs.Err? then (Err(bs.error), storage, ms)
      else if bs.value == [] then (Ok(None), storage, ms)
      else
        var meta := CompactedMeta(stream, bs.value);
        (Ok(Some(meta)), storage[meta.key := Encode(bs.value)] - Keys(objects), Swapped(ms, Keys(objects), meta))
  }

  class ObjectStore {
    var objects: Storage

    constructor ()
      ensures objects == map[]
    {
      objects := map[];
    }

    method PutObject(key: string, data: bytes)
      modifies this
      ensures objects == old(objects)[key := data]
    {
      objects := objects[key := data];
    }

    method GetObject(key: string) returns (r: Result<bytes>)
      ensures r == if key in objects then Ok(objects[key]) else Err("Object not found")
    {
      if key in objects { return Ok(objects[key]); }
      return Err("Object not found");
    }

    method DeleteObjects(keys: seq<string>)
      modifies this
      ensures objects == old(objects) - (set k | k in keys)
    {
      for i := 0 to |keys|
        invariant objects == old(objects) - (set k | k in keys[..i])
      {
        objects := objects - {keys[i]};
        assert keys[..i + 1] == keys[..i] + [keys[i]];
      }
      assert keys[..|keys|] == keys;
    }
  }

  /** A stream's name in keys, its number in blocks, and its list of objects. */
  class StreamObjects {
    const streamId: string
    const number: u64
    var metas: seq<Meta>

    constructor (id: string, n: u64)
      ensures streamId == id && number == n && metas == []
    {
      streamId, number, metas := id, n, [];
    }
  }

  // ---------- uploads ----------

  function Flat(records: seq<bytes>): bytes {
    if records == [] then [] else Flat(records[..|records| - 1]) + records[|records| - 1]
  }

  /** The metadata of an object that holds one block. */
  function UploadMeta(stream: string, b: Block): Meta {
    Meta(Key(stream, b.start, b.end, false), b.start, b.end, b.count, |Encode([b])|)
  }

  method UploadBatch(store: ObjectStore, stream: StreamObjects, start: i64, end: i64, records: seq<bytes>)
    returns (key: string)
    modifies store, stream
    ensures records == [] ==> key == "" && store.objects == old(store.objects) && stream.metas == old(stream.metas)
    ensures records != [] ==>
              var b := Block(stream.number, start, end, Low32(|records|), Flat(records));
              && key == UploadMeta(stream.streamId, b).key
              && store.objects == old(store.objects)[key := Encode([b])]
              && stream.metas == old(stream.metas) + [UploadMeta(stream.streamId, b)]
  {
    hide Encode, Key;
    if records == [] { return ""; }
    var payload: bytes := [];
    for i := 0 to |records|
      invariant payload == Flat(records[..i])
    {
      assert records[..i + 1][..i] == records[..i];
      payload := payload + records[i];
    }
    assert records[..|records|] == records;
    var b := Block(stream.number, start, end, Low32(|records|), payload);
    var encoded := EncodeObject([b]);
    key := Key(stream.streamId, start, end, false);
    store.PutObject(key, encoded);
    stream.metas := stream.metas + [Meta(key, start, end, b.count, |encoded|)];
  }

  method MergeObjects(store: ObjectStore, objects: seq<Meta>)
    returns (r: Result<seq<Block>>, keys: seq<string>, minOffset: i64, maxOffset: i64, total: u32)
    ensures r == Gather(store.objects, objects)
    ensures r.Ok? ==> |keys| == |objects| && forall i :: 0 <= i < |keys| ==> keys[i] == objects[i].key
    ensures r.Ok? ==> Extremes(r.value, minOffset, maxOffset, total)
  {
    hide Decode, Extremes, Gather;
    var merged: seq<Block> := [];
    keys, minOffset, maxOffset, total := [], I64_MAX, I64_MIN, 0;
    ghost var whole := Gather(store.objects, objects);
    if whole.Ok? { assert [] + whole.value == whole.value; }
    assert objects[0..] == objects;
    NothingMerged();
    for i := 0 to |objects|
      invariant |keys| == i && forall k :: 0 <= k < i ==> keys[k] == objects[k].key
      invariant var rest := Gather(store.objects, objects[i..]);
                whole == if rest.Ok? then Ok(merged + rest.value) else rest
      invariant Extremes(merged, minOffset, maxOffset, total)
    {
      var meta := objects[i];
      assert objects[i..][1..] == objects[i + 1..];
      GatherStep(store.objects, objects[i..], merged);
      var raw := store.GetObject(meta.key);
      if raw.Err? { return Err(raw.error), keys, minOffset, maxOffset, total; }
      var blocks := DecodeAll(raw.value);
      if blocks.Err? { return Err(blocks.error), keys, minOffset, maxOffset, total; }
      merged, minOffset, maxOffset, total := MergeBlocks(merged, blocks.value, minOffset, maxOffset, total);
      keys := keys + [meta.key];
    }
    assert merged + [] == merged;
    return Ok(merged), keys, minOffset, maxOffset, total;
  }

  lemma NothingMerged()
    ensures Extremes([], I64_MAX, I64_MIN, 0) && forall s :: Gather(s, []) == Ok([])
  {
  }

  lemma GatherStep(storage: Storage, ms: seq<Meta>, front: seq<Block>)
    requires ms != []
    ensures ms[0].key !in storage ==> Gather(storage, ms) == Err("Object not found")
    ensures ms[0].key in storage && Decode(storage[ms[0].key]).Err? ==>
              Gather(storage, ms) == Err(Decode(storage[ms[0].key]).error)
    ensures ms[0].key in storage && Decode(storage[ms[0].key]).Ok? ==>
              var bs, rest := Decode(storage[ms[0].key]).value, Gather(storage, ms[1..]);
              if rest.Ok? then Gather(storage, ms).Ok? && front + Gather(storage, ms).value == front + bs + rest.value
              else Gather(storage, ms) == rest
  {
    hide Decode;
    if ms[0].key in storage && Decode(storage[ms[0].key]).Ok? && Gather(storage, ms[1..]).Ok? {
      var bs, rest := Decode(storage[ms[0].key]).value, Gather(storage, ms[1..]).value;
      assert front + (bs + rest) == front + bs + rest;
    }
  }

  /** The running minimum, maximum and count of the blocks merged so far. */
  ghost predicate Extremes(bs: seq<Block>, lo: i64, hi: i64, total: u32) {
    lo == MinStart(bs) && hi == MaxEnd(bs) && total == Low32(Total(bs))
  }

  method MergeBlocks(merged: seq<Block>, blocks: seq<Block>, lo: i64, hi: i64, total: u32)
    returns (m: seq<Block>, lo': i64, hi': i64, total': u32)
    requires Extremes(merged, lo, hi, total)
    ensures m == merged + blocks && Extremes(m, lo', hi', total')
  {
    hide Extremes;
    m, lo', hi', total' := merged, lo, hi, total;
    for i := 0 to |blocks|
      invariant m == merged + blocks[..i] && Extremes(m, lo', hi', total')
    {
      var b := blocks[i];
      ExtremesStep(m, lo', hi', total', b);
      if b.start < lo' { lo' := b.start; }
      if b.end > hi' { hi' := b.end; }
      total' := Low32(total' + b.count);
      assert blocks[..i + 1] == blocks[..i] + [b];
      m := m + [b];
    }
    assert blocks[..|blocks|] == blocks;
  }

  lemma ExtremesStep(bs: seq<Block>, lo: i64, hi: i64, total: u32, b: Block)
    requires Extremes(bs, lo, hi, total)
    ensures Extremes(bs + [b], if b.start < lo then b.start else lo, if b.end > hi then b.end else hi,
                     Low32(total + b.count))
  {
    TotalAppend(bs, b);
    AddLow32(Total(bs), b.count);
  }

  lemma {:induction false} TotalAppend(bs: seq<Block>, b: Block)
    ensures Total(bs + [b]) == Total(bs) + b.count
    ensures MinStart(bs + [b]) == if b.start < MinStart(bs) then b.start else MinStart(bs)
    ensures MaxEnd(bs + [b]) == if b.end > MaxEnd(bs) then b.end else MaxEnd(bs)
  {
    if bs == [] {
      assert bs + [b] == [b];
    } else {
      assert (bs + [b])[1..] == bs[1..] + [b];
      TotalAppend(bs[1..], b);
    }
  }

  lemma AddLow32(n: nat, c: u32)
    ensures Low32(Low32(n) + c) == Low32(n + c)
  {
  }

  method CompactStream(store: ObjectStore, stream: StreamObjects, target: nat) returns (r: Result<Option<Meta>>)
    modifies store, stream
    ensures (r, store.objects, stream.metas)
         == Compacted(old(store.objects), old(stream.metas), stream.streamId, target)
  {
    hide Gather, Encode, Swapped;
    var objects := SmallObjects(stream.metas, target);
    if |objects| < 2 { return Ok(None); }
    var merged, keys, lo, hi, total := MergeObjects(store, objects);
    if merged.Err? { return Err(merged.error); }
    if merged.value == [] { return Ok(None); }
    var data := EncodeObject(merged.value);
    var meta := Meta(Key(stream.streamId, lo, hi, true), lo, hi, total, |data|);
    store.PutObject(meta.key, data);
    assert (set k | k in keys) == Keys(objects);
    stream.metas := Swapped(stream.metas, (set k | k in keys), meta);
    store.DeleteObjects(keys);
    return Ok(Some(meta));
  }

  method SmallObjects(ms: seq<Meta>, target: nat) returns (objects: seq<Meta>)
    ensures objects == Small(ms, target)
  {
    hide Small;
    objects := [];
    assert ms[0..] == ms;
    for i := 0 to |ms|
      invariant objects + Small(ms[i..], target) == Small(ms, target)
    {
      assert ms[i..][1..] == ms[i + 1..];
      SmallStep(ms[i..], target, objects);
      if ms[i].size < target { objects := objects + [ms[i]]; }
    }
    SmallStep([], target, objects);
  }

  lemma SmallStep(ms: seq<Meta>, target: nat, front: seq<Meta>)
    ensures if ms == [] then front + Small(ms, target) == front
            else front + Small(ms, target)
                 == front + (if ms[0].size < target then [ms[0]] else []) + Small(ms[1..], target)
  {
  }

  // ---------- order ----------

  /** Objects are merged one behind the other, in the order of the list. */
  lemma {:induction false} MergesInOrder(storage: Storage, a: seq<Meta>, b: seq<Meta>)
    ensures Merged(storage, a + b) == Merged(storage, a) + Merged(storage, b)
  {
    hide BlocksOf;
    if a == [] {
      assert a + b == b;
    } else {
      MergesInOrder(storage, a[1..], b);
      assert (a + b)[1..] == a[1..] + b;
    }
  }

  /** The records of an upload are stored one behind the other. */
  lemma {:induction false} FlattensInOrder(a: seq<bytes>, b: seq<bytes>)
    ensures Flat(a + b) == Flat(a) + Flat(b)
  {
    if b == [] {
      assert a + b == a;
    } else {
      var front, last := b[..|b| - 1], b[|b| - 1];
      FlattensInOrder(a, front);
      assert (a + b)[..|a + b| - 1] == a + front && (a + b)[|a + b| - 1] == last;
      assert Flat(a) + (Flat(front) + last) == Flat(a) + Flat(front) + last;
    }
  }

  lemma FlatOfOne(x: bytes)
    ensures Flat([x]) == x
  {
    assert [x][..0] == [];
  }

  /** The entries that start at a given offset, in order. */
  function StartingAt(ms: seq<Meta>, start: i64): seq<Meta> {
    if ms == [] then [] else (if ms[0].start == start then [ms[0]] else []) + StartingAt(ms[1..], start)
  }

  lemma StartingAtCons(m: Meta, ms: seq<Meta>, start: i64)
    ensures StartingAt([m] + ms, start) == (if m.start == start then [m] else []) + StartingAt(ms, start)
    ensures StartingAt([], start) == []
  {
    assert ([m] + ms)[1..] == ms;
  }

  lemma {:induction false} StartingAtAppend(ms: seq<Meta>, m: Meta, start: i64)
    ensures StartingAt(ms + [m], start) == StartingAt(ms, start) + if m.start == start then [m] else []
  {
    hide StartingAt;
    StartingAtCons(m, [], start);
    if ms == [] {
      assert ms + [m] == [m] + [];
    } else {
      StartingAtAppend(ms[1..], m, start);
      StartingAtCons(ms[0], ms[1..], start);
      StartingAtCons(ms[0], ms[1..] + [m], start);
      assert ms == [ms[0]] + ms[1..] && ms + [m] == [ms[0]] + (ms[1..] + [m]);
    }
  }

  lemma {:induction false} NoneStartEarlier(ms: seq<Meta>, m: Meta)
    requires Ascending(ms) && ms != [] && m.start < ms[0].start
    ensures StartingAt(ms, m.start) == []
  {
    if |ms| > 1 { NoneStartEarlier(ms[1..], m); }
  }

  lemma {:induction false} InsertIsStable(ms: seq<Meta>, m: Meta, start: i64)
    requires Ascending(ms)
    ensures StartingAt(Insert(ms, m), start) == StartingAt(ms, start) + if m.start == start then [m] else []
  {
    hide StartingAt;
    if ms == [] || m.start < ms[0].start {
      StartingAtCons(m, ms, start);
      StartingAtCons(m, [], start);
      if ms != [] && m.start == start { NoneStartEarlier(ms, m); }
    } else {
      InsertIsStable(ms[1..], m, start);
      StartingAtCons(ms[0], Insert(ms[1..], m), start);
      StartingAtCons(ms[0], ms[1..], start);
      assert ms == [ms[0]] + ms[1..];
    }
  }

  /** Sorting keeps the order of entries that start at the same offset. */
  lemma {:induction false} SortIsStable(ms: seq<Meta>, start: i64)
    ensures StartingAt(Sorted(ms), start) == StartingAt(ms, start)
  {
    hide Insert;
    if ms != [] {
      var front, last := ms[..|ms| - 1], ms[|ms| - 1];
      assert ms == front + [last];
      SortIsStable(front, start);
      InsertIsStable(Sorted(front), last, start);
      StartingAtAppend(front, last, start);
    }
  }

  /** The range of blocks is attained: some block starts it and some block ends it. */
  lemma {:induction false} RangeIsAttained(bs: seq<Block>) returns (first: Block, last: Block)
    requires bs != []
    ensures first in bs && last in bs && MinStart(bs) == first.start && MaxEnd(bs) == last.end
  {
    first, last := bs[0], bs[0];
    if |bs| > 1 {
      var f, l := RangeIsAttained(bs[1..]);
      if f.start < first.start { first := f; }
      if l.end > last.end { last := l; }
    } else {
      assert bs[1..] == [];
    }
  }
}
