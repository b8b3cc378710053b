/** Historical reads through the block cache (`stream.rs`). */
module HistoricalReads {
  import opened Bytes
  import opened ObjectCodec
  import opened Compaction
  import opened ColdReads
  import opened BlockCache
  import Runs = CompactionRuns

  /** A historical read: within the stream's offsets, from the block cache, or from the object. */
  function Fetched(c: Cache, storage: Storage, ms: seq<Meta>, id: u64, first: i64, next: i64, offset: i64)
    : Result<seq<(i64, bytes)>>
  {
    if offset < first || offset >= next then Ok([])
    else
      match Covering(ms, offset)
      case None => Ok([])
      case Some(m) =>
        var k := BlockKey(m.key, id, m.start);
        if k in c.entries then Ok([(m.start, c.entries[k])]) else ColdFetch(storage, ms, id, offset)
  }

  /** The cache after all blocks of an object were put into it, in order. */
  function PutBlocks(c: Cache, max: nat, name: string, bs: seq<Block>): Cache {
    if bs == [] then c
    else
      var b := bs[|bs| - 1];
      Put(PutBlocks(c, max, name, bs[..|bs| - 1]), max, BlockKey(name, b.streamId, b.start), b.data)
  }

  /** What a historical read leaves in the cache. */
  function CachedAfter(c: Cache, max: nat, storage: Storage, ms: seq<Meta>, id: u64, first: i64, next: i64, offset: i64)
    : Cache
  {
    if offset < first || offset >= next then c
    else
      match Covering(ms, offset)
      case None => c
      case Some(m) =>
        var k := BlockKey(m.key, id, m.start);
        if k in c.entries then Get(c, k)
        else if m.key in storage && Decode(storage[m.key]).Ok? then
          PutBlocks(c, max, m.key, Decode(storage[m.key]).value)
        else c
  }

  method FetchHistorical(store: ObjectStore, stream: StreamObjects, cache: SharedCache, first: i64, next: i64,
                         offset: i64)
    returns (r: Result<seq<(i64, bytes)>>)
    modifies cache
    ensures r == Fetched(old(cache.State()), store.objects, stream.metas, stream.number, first, next, offset)
    ensures cache.State()
         == CachedAfter(old(cache.State()), cache.maxBytes, store.objects, stream.metas, stream.number, first, next,
                        offset)
  {
    hide Decode, Get, PutBlocks;
    if offset < first || offset >= next { return Ok([]); }
    assert stream.metas[0..] == stream.metas;
    for i := 0 to |stream.metas|
      invariant Covering(stream.metas[i..], offset) == Covering(stream.metas, offset)
      invariant cache.State() == old(cache.State())
    {
      var m := stream.metas[i];
      assert stream.metas[i..][1..] == stream.metas[i + 1..];
      if m.start <= offset <= m.end {
        var cached := cache.GetBlock(BlockKey(m.key, stream.number, m.start));
        if cached.Some? { return Ok([(m.start, cached.value)]); }
        MissChangesNothing(old(cache.State()), BlockKey(m.key, stream.number, m.start));
        var raw := store.GetObject(m.key);
        if raw.Err? { return Err(raw.error); }
        var blocks := DecodeAll(raw.value);
        if blocks.Err? { return Err(blocks.error); }
        var found := CacheBlocks(cache, m.key, blocks.value, stream.number, m.start);
        if found.None? { return Err("Block not found in S3 object"); }
        return Ok([(m.start, found.value)]);
      }
    }
    return Ok([]);
  }

  lemma MissChangesNothing(c: Cache, k: BlockKey)
    ensures k !in c.entries ==> Get(c, k) == c
  {
  }

  /** The loop over an object's blocks: each goes into the cache, and the last that fits is the answer. */
  method CacheBlocks(cache: SharedCache, name: string, bs: seq<Block>, id: u64, start: i64)
    returns (found: Option<bytes>)
    modifies cache
    ensures found == Found(bs, id, start) && cache.State() == PutBlocks(old(cache.State()), cache.maxBytes, name, bs)
  {
    hide Put;
    found := None;
    for i := 0 to |bs|
      invariant found == Found(bs[..i], id, start)
      invariant cache.State() == PutBlocks(old(cache.State()), cache.maxBytes, name, bs[..i])
    {
      var b := bs[i];
      assert bs[..i + 1][..i] == bs[..i];
      cache.PutBlock(BlockKey(name, b.streamId, b.start), b.data);
      if b.streamId == id && b.start == start { found := Some(b.data); }
    }
    assert bs[..|bs|] == bs;
  }

  /** What the cache holds of a stored object is what a read of that object would give. */
  ghost predicate Coherent(c: Cache, storage: Storage) {
    forall k :: k in c.entries && k.name in storage && Decode(storage[k.name]).Ok? ==>
      Found(Decode(storage[k.name]).value, k.stream, k.start) == Some(c.entries[k])
  }

  lemma {:induction false} PutBlocksHolds(c: Cache, max: nat, name: string, bs: seq<Block>, k: BlockKey)
    requires k in PutBlocks(c, max, name, bs).entries
    ensures var v := PutBlocks(c, max, name, bs).entries[k];
            || (k in c.entries && c.entries[k] == v)
            || (k.name == name && Found(bs, k.stream, k.start) == Some(v))
  {
    hide Put;
    if bs != [] {
      var n := |bs| - 1;
      var b := bs[n];
      var before, last := PutBlocks(c, max, name, bs[..n]), BlockKey(name, b.streamId, b.start);
      PutStores(before, max, last, b.data);
      if k != last { PutBlocksHolds(c, max, name, bs[..n], k); }
    }
  }

  /**
   * Behind a coherent cache a historical read of a stored object answers as if there were no cache, and leaves the
   * cache coherent.
   */
  lemma CacheIsTransparent(c: Cache, max: nat, storage: Storage, ms: seq<Meta>, id: u64, first: i64, next: i64,
                           offset: i64)
    requires Coherent(c, storage)
    requires var m := Covering(ms, offset);
             m.Some? ==> m.value.key in storage && Decode(storage[m.value.key]).Ok?
    ensures Fetched(c, storage, ms, id, first, next, offset)
         == if first <= offset < next then ColdFetch(storage, ms, id, offset) else Ok([])
    ensures Coherent(CachedAfter(c, max, storage, ms, id, first, next, offset), storage)
  {
    hide Decode, PutBlocks, Covering;
    if first <= offset < next && Covering(ms, offset).Some? {
      var m := Covering(ms, offset).value;
      var bs, k := Decode(storage[m.key]).value, BlockKey(m.key, id, m.start);
      if k !in c.entries {
        forall j | j in PutBlocks(c, max, m.key, bs).entries && j.name in storage && Decode(storage[j.name]).Ok?
          ensures Found(Decode(storage[j.name]).value, j.stream, j.start)
               == Some(PutBlocks(c, max, m.key, bs).entries[j])
        {
          PutBlocksHolds(c, max, m.key, bs, j);
        }
      }
    }
  }

  /** Deleting objects, and storing one whose name the cache does not hold, keep the cache coherent. */
  lemma StorageKeepsCoherent(c: Cache, storage: Storage, deleted: set<string>, key: string, data: bytes)
    requires Coherent(c, storage)
    ensures Coherent(c, storage - deleted)
    ensures (forall k :: k in c.entries ==> k.name != key) ==> Coherent(c, storage[key := data])
  {
    hide Decode, Found;
  }

  /** In every run of uploads and compactions, behind a coherent cache, reads answer as the objects do. */
  lemma ReadsAsStored(c: Runs.Config, steps: seq<Runs.Step>, t: Runs.Tier, cache: Cache, max: nat, first: i64,
                      next: i64, offset: i64)
    requires Runs.Reaches(c, steps, t) && Coherent(cache, t.storage) && first <= offset < next
    ensures Fetched(cache, t.storage, t.metas, c.id, first, next, offset)
         == ColdFetch(t.storage, t.metas, c.id, offset)
    ensures Coherent(CachedAfter(cache, max, t.storage, t.metas, c.id, first, next, offset), t.storage)
  {
    hide Runs.Reaches, Decode, Covering, Fetched, CachedAfter, Coherent;
    if Covering(t.metas, offset).Some? { Runs.MetadataIsTrue(c, steps, t, Covering(t.metas, offset).value); }
    CacheIsTransparent(cache, max, t.storage, t.metas, c.id, first, next, offset);
  }

  /**
   * The read of an object whose last block answers it leaves that block in the cache: reading again gives the same
   * answer whatever became of the objects in storage, even deleted.
   */
  lemma SecondReadIsCached(c: Cache, max: nat, storage: Storage, ms: seq<Meta>, id: u64, first: i64, next: i64,
                           offset: i64, b: Block, later: Storage)
    requires first <= offset < next && Covering(ms, offset).Some?
    requires var m := Covering(ms, offset).value;
             m.key in storage && Decode(storage[m.key]).Ok? && b.streamId == id && b.start == m.start &&
             var bs := Decode(storage[m.key]).value;
             bs != [] && bs[|bs| - 1] == b
    ensures var after := CachedAfter(c, max, storage, ms, id, first, next, offset);
            Fetched(after, later, ms, id, first, next, offset) == Fetched(c, storage, ms, id, first, next, offset)
  {
    hide Decode, Put, Covering;
    var m := Covering(ms, offset).value;
    var bs, k := Decode(storage[m.key]).value, BlockKey(m.key, id, m.start);
    if k !in c.entries {
      PutStores(PutBlocks(c, max, m.key, bs[..|bs| - 1]), max, k, b.data);
    }
  }
}
