/** Every run of uploads and one compactor, step by step. */
module CompactionRuns {
  import opened Bytes
  import opened ObjectCodec
  import opened Compaction

  /** Where the compactor is: which objects it chose, what it stored, what it still has to delete. */
  datatype Job =
    | Idle
    | Chosen(objects: seq<Meta>)
    | Stored(objects: seq<Meta>, meta: Meta)
    | Deleting(keys: set<string>)

  /** Uploads start at or above the frontier. */
  datatype Tier = Tier(storage: Storage, metas: seq<Meta>, job: Job, frontier: int)

  const START: Tier := Tier(map[], [], Idle, 0)

  /** The stream's name in keys, its number in blocks, and the compactor's target size. */
  datatype Config = Config(stream: string, id: u64, target: nat)

  datatype Step =
    | Upload(start: i64, end: i64, count: u32, data: bytes)
    | Choose
    | Put
    | Swap
    | Delete

  function UploadedMeta(c: Config, s: Step): Meta
    requires s.Upload?
  {
    UploadMeta(c.stream, UploadedBlock(c, s))
  }

  function UploadedBlock(c: Config, s: Step): Block
    requires s.Upload?
  {
    Block(c.id, s.start, s.end, s.count, s.data)
  }

  /** A step may be taken, with the sizes the formats can hold. */
  ghost predicate Enabled(c: Config, t: Tier, s: Step) {
    match s
    case Upload(start, end, count, data) => t.frontier <= start <= end && |data| < 0x1_0000_0000
    case Choose => t.job.Idle? && |Small(t.metas, c.target)| >= 2
    case Put =>
      && t.job.Chosen?
      && (var bs := Merged(t.storage, t.job.objects); |bs| < 0x1_0000 && Total(bs) < 0x1_0000_0000)
    case Swap => t.job.Stored?
    case Delete => t.job.Deleting?
  }

  function Take(c: Config, t: Tier, s: Step): Tier {
    match s
    case Upload(_, end, _, _) =>
      var m := UploadedMeta(c, s);
      t.(storage := t.storage[m.key := Encode([UploadedBlock(c, s)])], metas := t.metas + [m], frontier := end + 1)
    case Choose => t.(job := Chosen(Small(t.metas, c.target)))
    case Put =>
      if t.job.Chosen? then
        var bs := Merged(t.storage, t.job.objects);
        var meta := CompactedMeta(c.stream, bs);
        t.(storage := t.storage[meta.key := Encode(bs)], job := Stored(t.job.objects, meta))
      else t
    case Swap =>
      if t.job.Stored? then
        t.(metas := Swapped(t.metas, Keys(t.job.objects), t.job.meta), job := Deleting(Keys(t.job.objects)))
      else t
    case Delete => if t.job.Deleting? then t.(storage := t.storage - t.job.keys, job := Idle) else t
  }

  ghost predicate Reaches(c: Config, steps: seq<Step>, t: Tier)
    decreases |steps|
  {
    if steps == [] then t == START
    else
      var n := |steps| - 1;
      exists u :: Reaches(c, steps[..n], u) && Enabled(c, u, steps[n]) && t == Take(c, u, steps[n])
  }

  // ---------- the invariant ----------

  /** The metadata names a stored object and describes its blocks. */
  ghost predicate Backed(storage: Storage, m: Meta) {
    && m.key in storage && Decode(storage[m.key]).Ok? && m.size == |storage[m.key]|
    && (var bs := Decode(storage[m.key]).value;
        bs != [] && Sized(bs) && m.start == MinStart(bs) && m.end == MaxEnd(bs) && m.count == Total(bs))
  }

  predicate IsUpload(c: Config, m: Meta) { m.key == Key(c.stream, m.start, m.end, false) }
  predicate IsCompacted(c: Config, m: Meta) { m.key == Key(c.stream, m.start, m.end, true) }

  ghost predicate MetaInv(c: Config, t: Tier, m: Meta) {
    Backed(t.storage, m) && (IsUpload(c, m) || IsCompacted(c, m)) && m.start <= m.end < t.frontier
  }

  ghost predicate MetasInv(c: Config, t: Tier) {
    && DistinctKeys(t.metas)
    && (forall m :: m in t.metas ==> MetaInv(c, t, m))
    // small uploads lie above everything compacted, and at most one compacted object is small
    && (forall x, u ::
          x in t.metas && u in t.metas && IsCompacted(c, x) && IsUpload(c, u) && u.size < c.target ==> x.end < u.start)
    && (forall x, y :: SmallCompacted(c, t, x) && SmallCompacted(c, t, y) ==> x == y)
  }

  ghost predicate SmallCompacted(c: Config, t: Tier, m: Meta) {
    m in t.metas && IsCompacted(c, m) && m.size < c.target
  }

  /** What the compactor chose is still there, and whatever became small since is an upload above it. */
  ghost predicate ChosenInv(c: Config, t: Tier, objects: seq<Meta>) {
    && |objects| >= 2
    && Keep(t.metas, Keys(objects), true) == objects
    && (forall o :: o in objects ==> o.size < c.target)
    && (forall m, o :: m in t.metas && m.size < c.target && m.key !in Keys(objects) && o in objects ==>
          IsUpload(c, m) && o.end < m.start)
  }

  ghost predicate StoredInv(c: Config, t: Tier, objects: seq<Meta>, meta: Meta) {
    && Backed(t.storage, meta) && IsCompacted(c, meta) && meta.key !in Keys(t.metas)
    && Decode(t.storage[meta.key]) == Ok(Merged(t.storage, objects))
    && (forall o :: o in objects ==> meta.start <= o.start && o.end <= meta.end)
    && (exists o :: o in objects && o.end == meta.end)
    && meta.start <= meta.end
  }

  ghost predicate DeletingInv(c: Config, t: Tier, keys: set<string>) {
    && keys !! Keys(t.metas)
    && forall k :: k in keys ==> exists s: i64, e: i64, b :: k == Key(c.stream, s, e, b) && e < t.frontier
  }

  ghost predicate Inv(c: Config, t: Tier) {
    && MetasInv(c, t)
    && match t.job
       case Idle => true
       case Chosen(objects) => ChosenInv(c, t, objects)
       case Stored(objects, meta) => ChosenInv(c, t, objects) && StoredInv(c, t, objects, meta)
       case Deleting(keys) => DeletingInv(c, t, keys)
  }

  // ---------- uploads ----------

  lemma EncodedOne(c: Config, s: Step)
    requires s.Upload? && |s.data| < 0x1_0000_0000
    ensures Decode(Encode([UploadedBlock(c, s)])) == Ok([UploadedBlock(c, s)])
  {
    DecodeOfEncode([UploadedBlock(c, s)]);
  }

  lemma UploadKeyIsNew(c: Config, t: Tier, s: Step)
    requires s.Upload? && MetasInv(c, t) && Enabled(c, t, s)
    ensures UploadedMeta(c, s).key !in Keys(t.metas)
  {
    hide Key, Backed, Encode;
    var m := UploadedMeta(c, s);
    if m.key in Keys(t.metas) {
      var x :| x in t.metas && x.key == m.key;
      assert MetaInv(c, t, x);
      KeyInjective(c.stream, m.start, m.end, false, x.start, x.end, IsCompacted(c, x));
      assert false;
    }
  }

  lemma UploadedIsBacked(c: Config, t: Tier, s: Step)
    requires s.Upload? && Enabled(c, t, s)
    ensures MetaInv(c, Take(c, t, s), UploadedMeta(c, s)) && IsUpload(c, UploadedMeta(c, s))
  {
    hide Key, Encode, Decode, MinStart, MaxEnd, Total;
    EncodedOne(c, s);
    OneBlock(UploadedBlock(c, s));
  }

  lemma OneBlock(b: Block)
    ensures MinStart([b]) == b.start && MaxEnd([b]) == b.end && Total([b]) == b.count
  {
    var none: seq<Block> := [];
    assert [b][1..] == none;
    assert MinStart(none) == I64_MAX && MaxEnd(none) == I64_MIN && Total(none) == 0;
  }

  /** Storing an object under a new key leaves the others as they were. */
  lemma OtherObjectsStay(s: Storage, key: string, data: bytes, m: Meta)
    requires m.key != key
    ensures BlocksOf(s[key := data], m) == BlocksOf(s, m)
    ensures Backed(s[key := data], m) <==> Backed(s, m)
  {
    hide Decode;
  }

  lemma UploadKeepsMetas(c: Config, t: Tier, s: Step)
    requires s.Upload? && MetasInv(c, t) && Enabled(c, t, s)
    ensures MetasInv(c, Take(c, t, s))
  {
    hide Backed, Encode, Key, BlocksOf, DistinctKeys, Bag, Records;
    var m, u := UploadedMeta(c, s), Take(c, t, s);
    UploadKeyIsNew(c, t, s);
    UploadedIsBacked(c, t, s);
    AppendKeeps(t.storage, t.metas, m);
    forall x | x in t.metas
      ensures MetaInv(c, u, x)
    {
      assert MetaInv(c, t, x) && x.key in Keys(t.metas);
      OtherObjectsStay(t.storage, m.key, Encode([UploadedBlock(c, s)]), x);
    }
    NotBoth(c, m);
    forall x, y | x in u.metas && y in u.metas && IsCompacted(c, x) && IsUpload(c, y) && y.size < c.target
      ensures x.end < y.start
    {
      assert x in t.metas && MetaInv(c, t, x);
    }
    forall x, y | SmallCompacted(c, u, x) && SmallCompacted(c, u, y)
      ensures x == y
    {
      assert SmallCompacted(c, t, x) && SmallCompacted(c, t, y);
    }
  }

  lemma NotBoth(c: Config, m: Meta)
    ensures !(IsUpload(c, m) && IsCompacted(c, m))
  {
    if IsUpload(c, m) && IsCompacted(c, m) { KeyInjective(c.stream, m.start, m.end, false, m.start, m.end, true); }
  }

  lemma UploadKeepsChosen(c: Config, t: Tier, s: Step, objects: seq<Meta>)
    requires s.Upload? && MetasInv(c, t) && Enabled(c, t, s) && ChosenInv(c, t, objects)
    ensures ChosenInv(c, Take(c, t, s), objects)
  {
    hide Backed, Encode, Key, DistinctKeys, Keep;
    var m := UploadedMeta(c, s);
    UploadKeyIsNew(c, t, s);
    KeepAppend(t.metas, m, Keys(objects));
    assert forall o :: o in objects ==> o in t.metas;
    forall o | o in objects
      ensures o.end < m.start && o.key != m.key
    {
      assert MetaInv(c, t, o) && o.key in Keys(t.metas);
    }
    IsAnUpload(c, s);
  }

  lemma IsAnUpload(c: Config, s: Step)
    requires s.Upload?
    ensures IsUpload(c, UploadedMeta(c, s))
  {
  }

  lemma UploadKeepsStored(c: Config, t: Tier, s: Step, objects: seq<Meta>, meta: Meta)
    requires s.Upload? && MetasInv(c, t) && Enabled(c, t, s) && ChosenInv(c, t, objects) &&
             StoredInv(c, t, objects, meta)
    ensures StoredInv(c, Take(c, t, s), objects, meta)
  {
    hide Backed, Encode, Key, DistinctKeys, BlocksOf, Decode;
    var m, u := UploadedMeta(c, s), Take(c, t, s);
    UploadKeyIsNew(c, t, s);
    KindsDiffer(c, m, meta, s);
    OtherObjectsStay(t.storage, m.key, Encode([UploadedBlock(c, s)]), meta);
    forall o | o in objects
      ensures BlocksOf(t.storage, o) == BlocksOf(u.storage, o)
    {
      assert o in t.metas && o.key in Keys(t.metas);
      OtherObjectsStay(t.storage, m.key, Encode([UploadedBlock(c, s)]), o);
    }
    BagIgnoresOthers(t.storage, u.storage, objects);
    BackedDecodes(t.storage, meta);
  }

  lemma KindsDiffer(c: Config, m: Meta, meta: Meta, s: Step)
    requires s.Upload? && m == UploadedMeta(c, s) && IsCompacted(c, meta)
    ensures m.key != meta.key
  {
    if m.key == meta.key { KeyInjective(c.stream, m.start, m.end, false, meta.start, meta.end, true); }
  }

  lemma BackedDecodes(storage: Storage, m: Meta)
    requires Backed(storage, m)
    ensures m.key in storage && Decode(storage[m.key]) == Ok(BlocksOf(storage, m))
  {
  }

  lemma UploadKeepsDeleting(c: Config, t: Tier, s: Step, keys: set<string>)
    requires s.Upload? && Enabled(c, t, s) && DeletingInv(c, t, keys)
    ensures DeletingInv(c, Take(c, t, s), keys)
  {
    hide Encode, Key;
    var m := UploadedMeta(c, s);
    if m.key in keys {
      var a: i64, e: i64, b :| m.key == Key(c.stream, a, e, b) && e < t.frontier;
      KeyInjective(c.stream, m.start, m.end, false, a, e, b);
      assert false;
    }
    forall k | k in keys
      ensures exists a: i64, e: i64, b :: k == Key(c.stream, a, e, b) && e < Take(c, t, s).frontier
    {
      var a: i64, e: i64, b :| k == Key(c.stream, a, e, b) && e < t.frontier;
      assert e < Take(c, t, s).frontier;
    }
  }

  // ---------- the compactor's steps ----------

  lemma ChooseKeeps(c: Config, t: Tier)
    requires MetasInv(c, t) && Enabled(c, t, Choose)
    ensures ChosenInv(c, t, Small(t.metas, c.target))
  {
    hide Backed, Key, Keep, Small;
    SmallByKey(t.metas, c.target);
    forall m | m in t.metas && m.size < c.target
      ensures m.key in Keys(Small(t.metas, c.target))
    {
      assert m in Small(t.metas, c.target);
    }
  }

  /** Two of the chosen are different, so one of them is an upload. */
  lemma SomeUpload(c: Config, t: Tier, objects: seq<Meta>) returns (u: Meta)
    requires MetasInv(c, t) && ChosenInv(c, t, objects)
    ensures u in objects && u in t.metas && IsUpload(c, u) && u.size < c.target
  {
    hide Backed, Key, Keep;
    KeepDistinct(t.metas, Keys(objects), true);
    var a, b := objects[0], objects[1];
    assert objects[1..][0] == b;
    assert a in t.metas && b in t.metas && a.key != b.key;
    assert MetaInv(c, t, a) && MetaInv(c, t, b);
    if IsUpload(c, a) {
      u := a;
    } else {
      u := b;
      assert SmallCompacted(c, t, a);
      assert SmallCompacted(c, t, b) ==> a == b;
    }
  }

  lemma {:induction false} MergedFacts(storage: Storage, objects: seq<Meta>)
    requires forall o :: o in objects ==> Backed(storage, o)
    ensures var bs := Merged(storage, objects);
            Sized(bs) && |bs| >= |objects| && Total(bs) == Records(objects) && multiset(bs) == Bag(storage, objects)
    ensures Gather(storage, objects) == Ok(Merged(storage, objects))
  {
    hide Decode;
    if objects != [] {
      assert objects == [objects[0]] + objects[1..];
      MergedFacts(storage, objects[1..]);
      var a, b := BlocksOf(storage, objects[0]), Merged(storage, objects[1..]);
      TotalOfTwo(a, b);
      assert Backed(storage, objects[0]);
    }
  }

  lemma {:induction false} TotalOfTwo(a: seq<Block>, b: seq<Block>)
    ensures Total(a + b) == Total(a) + Total(b)
    ensures MinStart(a + b) == if MinStart(a) < MinStart(b) then MinStart(a) else MinStart(b)
    ensures MaxEnd(a + b) == if MaxEnd(a) > MaxEnd(b) then MaxEnd(a) else MaxEnd(b)
  {
    if a == [] {
      assert a + b == b;
    } else {
      assert (a + b)[1..] == a[1..] + b;
      TotalOfTwo(a[1..], b);
    }
  }

  lemma {:induction false} MergedRange(storage: Storage, objects: seq<Meta>)
    requires objects != [] && forall o :: o in objects ==> Backed(storage, o)
    ensures var bs := Merged(storage, objects);
            (forall o :: o in objects ==> MinStart(bs) <= o.start && o.end <= MaxEnd(bs)) &&
            (exists o :: o in objects && o.end == MaxEnd(bs))
  {
    hide Decode, MinStart, MaxEnd, Total;
    assert objects == [objects[0]] + objects[1..];
    var a, b := BlocksOf(storage, objects[0]), Merged(storage, objects[1..]);
    TotalOfTwo(a, b);
    assert Backed(storage, objects[0]);
    if objects[1..] == [] {
      assert a + b == a;
      assert objects[0] in objects && objects[0].end == MaxEnd(a + b);
    } else {
      MergedRange(storage, objects[1..]);
      var o :| o in objects[1..] && o.end == MaxEnd(b);
      assert o in objects && objects[0] in objects;
    }
  }

  /** The new object's key is none of the stream's, so storing it overwrites nothing reachable. */
  lemma CompactedKeyIsNew(c: Config, t: Tier, objects: seq<Meta>, meta: Meta)
    requires MetasInv(c, t) && ChosenInv(c, t, objects) && IsCompacted(c, meta)
    requires forall o :: o in objects ==> o.end <= meta.end
    ensures meta.key !in Keys(t.metas)
  {
    hide Backed, Key, Keep, DistinctKeys;
    var u := SomeUpload(c, t, objects);
    assert MetaInv(c, t, u);
    if meta.key in Keys(t.metas) {
      var x :| x in t.metas && x.key == meta.key;
      assert MetaInv(c, t, x);
      KeyInjective(c.stream, meta.start, meta.end, true, x.start, x.end, IsCompacted(c, x));
      assert false;
    }
  }

  lemma PutKeeps(c: Config, t: Tier)
    requires Inv(c, t) && Enabled(c, t, Put)
    ensures Inv(c, Take(c, t, Put))
    ensures Bag(Take(c, t, Put).storage, t.metas) == Bag(t.storage, t.metas)
  {
    hide Backed, Encode, Decode, Key, BlocksOf, DistinctKeys, Keep, Merged, MinStart, MaxEnd, Total, Gather, Bag;
    var objects := t.job.objects;
    var u := Take(c, t, Put);
    var meta := u.job.meta;
    forall o | o in objects
      ensures Backed(t.storage, o) && o.start <= o.end
    {
      assert o in t.metas && MetaInv(c, t, o);
    }
    MergedFacts(t.storage, objects);
    MergedRange(t.storage, objects);
    PutIsBacked(c, t, objects);
    CompactedKeyIsNew(c, t, objects, meta);
    forall m | m in t.metas
      ensures MetaInv(c, u, m) && BlocksOf(t.storage, m) == BlocksOf(u.storage, m)
    {
      assert MetaInv(c, t, m) && m.key in Keys(t.metas);
      OtherObjectsStay(t.storage, meta.key, Encode(Merged(t.storage, objects)), m);
    }
    BagIgnoresOthers(t.storage, u.storage, t.metas);
    BagIgnoresOthers(t.storage, u.storage, objects);
    assert MetasInv(c, u) by { SameMetas(c, t, u); }
  }

  lemma SameMetas(c: Config, t: Tier, u: Tier)
    requires MetasInv(c, t) && u.metas == t.metas && forall m :: m in t.metas ==> MetaInv(c, u, m)
    ensures MetasInv(c, u)
  {
    hide Backed, Key, DistinctKeys;
    forall x, y | SmallCompacted(c, u, x) && SmallCompacted(c, u, y)
      ensures x == y
    {
      assert SmallCompacted(c, t, x) && SmallCompacted(c, t, y);
    }
  }

  lemma PutIsBacked(c: Config, t: Tier, objects: seq<Meta>)
    requires var bs := Merged(t.storage, objects);
             bs != [] && Sized(bs) && |bs| < 0x1_0000 && Total(bs) < 0x1_0000_0000
    ensures var bs := Merged(t.storage, objects);
            var meta := CompactedMeta(c.stream, bs);
            var storage := t.storage[meta.key := Encode(bs)];
            Backed(storage, meta) && IsCompacted(c, meta) && Decode(storage[meta.key]) == Ok(bs)
  {
    hide Encode, Decode, Key, Merged, MinStart, MaxEnd, Total;
    DecodeOfEncode(Merged(t.storage, objects));
  }

  /** The swap replaces what was chosen by the object that holds the same blocks. */
  lemma SwapConserves(c: Config, t: Tier, objects: seq<Meta>, meta: Meta)
    requires MetasInv(c, t) && ChosenInv(c, t, objects) && StoredInv(c, t, objects, meta)
    ensures var ms := Swapped(t.metas, Keys(objects), meta);
            Bag(t.storage, ms) == Bag(t.storage, t.metas) && Records(ms) == Records(t.metas)
  {
    hide Backed, Encode, Decode, Key, BlocksOf, DistinctKeys, Keep, Merged, Bag, Records, Sorted, IsCompacted, IsUpload;
    var ks := Keys(objects);
    var rest := Keep(t.metas, ks, false);
    KeepSplits(t.storage, t.metas, ks);
    AppendKeeps(t.storage, rest, meta);
    SortedKeeps(t.storage, rest + [meta]);
    forall o | o in objects
      ensures Backed(t.storage, o)
    {
      assert o in t.metas && MetaInv(c, t, o);
    }
    MergedFacts(t.storage, objects);
    MetaHoldsMerged(t.storage, objects, meta);
  }

  lemma SwapKeeps(c: Config, t: Tier)
    requires Inv(c, t) && Enabled(c, t, Swap)
    ensures Inv(c, Take(c, t, Swap))
  {
    hide MetasInv, ChosenInv, StoredInv, DeletingInv, DistinctKeys, Keep, Sorted, Bag, Records;
    var objects, meta := t.job.objects, t.job.meta;
    var rest := Keep(t.metas, Keys(objects), false);
    SwapDistinct(c, t, objects, meta);
    SortedKeeps(t.storage, rest + [meta]);
    SwapMetas(c, t, objects, meta, rest);
    SwapDeletes(c, t, objects, meta, rest);
    var u := t.(metas := Sorted(rest + [meta]));
    SameTier(c, u, Take(c, t, Swap));
  }

  lemma SwapDistinct(c: Config, t: Tier, objects: seq<Meta>, meta: Meta)
    requires MetasInv(c, t) && StoredInv(c, t, objects, meta)
    ensures DistinctKeys(Keep(t.metas, Keys(objects), false) + [meta])
  {
    hide Backed, Decode, Key, DistinctKeys, Keep, Bag, Records;
    KeepDistinct(t.metas, Keys(objects), false);
    AppendKeeps(t.storage, Keep(t.metas, Keys(objects), false), meta);
  }

  /** The invariant on the metadata does not look at the job. */
  lemma SameTier(c: Config, t: Tier, u: Tier)
    requires u.storage == t.storage && u.metas == t.metas && u.frontier == t.frontier
    ensures MetasInv(c, t) ==> MetasInv(c, u)
    ensures forall ks :: DeletingInv(c, t, ks) ==> DeletingInv(c, u, ks)
  {
    hide Backed, Key, DistinctKeys;
    if MetasInv(c, t) {
      assert forall m :: m in t.metas ==> MetaInv(c, t, m);
      SameMetas(c, t, u);
    }
  }

  lemma MetaHoldsMerged(storage: Storage, objects: seq<Meta>, meta: Meta)
    requires Backed(storage, meta) && Decode(storage[meta.key]) == Ok(Merged(storage, objects))
    ensures BlocksOf(storage, meta) == Merged(storage, objects) && meta.count == Total(Merged(storage, objects))
  {
    hide Decode, Merged;
  }

  lemma SwapMetas(c: Config, t: Tier, objects: seq<Meta>, meta: Meta, rest: seq<Meta>)
    requires MetasInv(c, t) && ChosenInv(c, t, objects) && StoredInv(c, t, objects, meta)
    requires rest == Keep(t.metas, Keys(objects), false) && DistinctKeys(Sorted(rest + [meta]))
    requires forall x :: x in Sorted(rest + [meta]) <==> x in rest + [meta]
    ensures MetasInv(c, t.(metas := Sorted(rest + [meta])))
  {
    hide Backed, Encode, Decode, Key, Keep, Merged, Sorted, DistinctKeys;
    var u := t.(metas := Sorted(rest + [meta]));
    var last :| last in objects && last.end == meta.end;
    assert last in t.metas && MetaInv(c, t, last);
    forall m | m in u.metas
      ensures MetaInv(c, u, m)
    {
      if m in rest { assert MetaInv(c, t, m); }
    }
    NotBoth(c, meta);
    forall x, y | x in u.metas && y in u.metas && IsCompacted(c, x) && IsUpload(c, y) && y.size < c.target
      ensures x.end < y.start
    {
      assert y in rest && y in t.metas && last.end < y.start;
    }
    forall x, y | SmallCompacted(c, u, x) && SmallCompacted(c, u, y)
      ensures x == y
    {
      if x in rest { NotBoth(c, x); }
      if y in rest { NotBoth(c, y); }
    }
  }

  lemma SwapDeletes(c: Config, t: Tier, objects: seq<Meta>, meta: Meta, rest: seq<Meta>)
    requires MetasInv(c, t) && ChosenInv(c, t, objects) && StoredInv(c, t, objects, meta)
    requires rest == Keep(t.metas, Keys(objects), false)
    requires forall x :: x in Sorted(rest + [meta]) <==> x in rest + [meta]
    ensures DeletingInv(c, t.(metas := Sorted(rest + [meta])), Keys(objects))
  {
    hide Backed, Encode, Decode, Key, Keep, Merged, Sorted, DistinctKeys;
    forall k | k in Keys(objects)
      ensures k in Keys(t.metas) && k !in Keys(Sorted(rest + [meta]))
      ensures exists s: i64, e: i64, b :: k == Key(c.stream, s, e, b) && e < t.frontier
    {
      var o :| o in objects && o.key == k;
      assert o in t.metas && MetaInv(c, t, o);
      assert k == Key(c.stream, o.start, o.end, IsCompacted(c, o));
    }
  }

  lemma DeleteKeeps(c: Config, t: Tier)
    requires Inv(c, t) && Enabled(c, t, Delete)
    ensures Inv(c, Take(c, t, Delete))
    ensures Bag(Take(c, t, Delete).storage, t.metas) == Bag(t.storage, t.metas)
  {
    hide Encode, Decode, Key, DistinctKeys, Bag, MinStart, MaxEnd, Total, Sized;
    var u := Take(c, t, Delete);
    forall m | m in t.metas
      ensures MetaInv(c, u, m) && BlocksOf(t.storage, m) == BlocksOf(u.storage, m)
    {
      assert MetaInv(c, t, m) && m.key in Keys(t.metas);
    }
    BagIgnoresOthers(t.storage, u.storage, t.metas);
    SameMetas(c, t, u);
  }

  // ---------- every run ----------

  lemma StepKeepsInv(c: Config, t: Tier, s: Step)
    requires Inv(c, t) && Enabled(c, t, s)
    ensures Inv(c, Take(c, t, s))
  {
    hide MetasInv, ChosenInv, StoredInv, DeletingInv, Enabled;
    match s
    case Upload(_, _, _, _) =>
      UploadKeepsMetas(c, t, s);
      match t.job {
        case Idle =>
        case Chosen(objects) => UploadKeepsChosen(c, t, s, objects);
        case Stored(objects, meta) =>
          UploadKeepsChosen(c, t, s, objects);
          UploadKeepsStored(c, t, s, objects, meta);
        case Deleting(keys) => UploadKeepsDeleting(c, t, s, keys);
      }
    case Choose =>
      ChooseKeeps(c, t);
      SameTier(c, t, Take(c, t, s));
      SameChosen(c, t, Take(c, t, s), Small(t.metas, c.target));
    case Put => PutKeeps(c, t);
    case Swap => SwapKeeps(c, t);
    case Delete => DeleteKeeps(c, t);
  }

  lemma SameChosen(c: Config, t: Tier, u: Tier, objects: seq<Meta>)
    requires u.metas == t.metas && ChosenInv(c, t, objects)
    ensures ChosenInv(c, u, objects)
  {
  }

  /** The blocks and the records that the uploads of a run brought. */
  function Brought(c: Config, steps: seq<Step>): multiset<Block> {
    if steps == [] then multiset{}
    else
      var s := steps[|steps| - 1];
      Brought(c, steps[..|steps| - 1]) + if s.Upload? then multiset{UploadedBlock(c, s)} else multiset{}
  }

  function BroughtRecords(steps: seq<Step>): nat {
    if steps == [] then 0
    else
      var s := steps[|steps| - 1];
      BroughtRecords(steps[..|steps| - 1]) + if s.Upload? then s.count else 0
  }

  lemma UploadConserves(c: Config, t: Tier, s: Step)
    requires s.Upload? && MetasInv(c, t) && Enabled(c, t, s)
    ensures var u := Take(c, t, s);
            Bag(u.storage, u.metas) == Bag(t.storage, t.metas) + multiset{UploadedBlock(c, s)} &&
            Records(u.metas) == Records(t.metas) + s.count
  {
    hide Backed, Encode, Decode, Key, BlocksOf, DistinctKeys, Bag, Records;
    var m, u := UploadedMeta(c, s), Take(c, t, s);
    UploadKeyIsNew(c, t, s);
    forall x | x in t.metas
      ensures BlocksOf(t.storage, x) == BlocksOf(u.storage, x)
    {
      assert x.key in Keys(t.metas);
      OtherObjectsStay(t.storage, m.key, Encode([UploadedBlock(c, s)]), x);
    }
    BagIgnoresOthers(t.storage, u.storage, t.metas);
    AppendKeeps(u.storage, t.metas, m);
    EncodedOne(c, s);
    StoredBlocks(u.storage, m, [UploadedBlock(c, s)]);
  }

  lemma StoredBlocks(storage: Storage, m: Meta, bs: seq<Block>)
    requires m.key in storage && Decode(storage[m.key]) == Ok(bs)
    ensures BlocksOf(storage, m) == bs
  {
    hide Decode;
  }

  lemma StepConserves(c: Config, t: Tier, s: Step)
    requires Inv(c, t) && Enabled(c, t, s)
    ensures var u := Take(c, t, s);
            Bag(u.storage, u.metas)
            == Bag(t.storage, t.metas) + (if s.Upload? then multiset{UploadedBlock(c, s)} else multiset{})
            && Records(u.metas) == Records(t.metas) + (if s.Upload? then s.count else 0)
  {
    hide MetasInv, ChosenInv, StoredInv, DeletingInv, Enabled, Bag, Records, Swapped;
    match s
    case Upload(_, _, _, _) => UploadConserves(c, t, s);
    case Choose =>
    case Put => if t.job.Chosen? { PutKeeps(c, t); }
    case Swap => if t.job.Stored? { SwapConserves(c, t, t.job.objects, t.job.meta); }
    case Delete => if t.job.Deleting? { DeleteKeeps(c, t); }
  }

  /**
   * However uploads and the compactor's steps interleave, the stream's metadata reaches exactly the blocks
   * uploaded so far, each as often as it was uploaded, and its counts add up to the records uploaded.
   */
  lemma {:induction false} NothingLostNothingTwice(c: Config, steps: seq<Step>, t: Tier)
    requires Reaches(c, steps, t)
    ensures Inv(c, t)
    ensures Bag(t.storage, t.metas) == Brought(c, steps) && Records(t.metas) == BroughtRecords(steps)
  {
    if steps != [] {
      var n := |steps| - 1;
      var u :| Reaches(c, steps[..n], u) && Enabled(c, u, steps[n]) && t == Take(c, u, steps[n]);
      NothingLostNothingTwice(c, steps[..n], u);
      RunStep(c, u, steps[n]);
    }
  }

  lemma RunStep(c: Config, t: Tier, s: Step)
    requires Inv(c, t) && Enabled(c, t, s)
    ensures Inv(c, Take(c, t, s))
    ensures var u := Take(c, t, s);
            Bag(u.storage, u.metas)
            == Bag(t.storage, t.metas) + (if s.Upload? then multiset{UploadedBlock(c, s)} else multiset{})
            && Records(u.metas) == Records(t.metas) + (if s.Upload? then s.count else 0)
  {
    hide Inv, Enabled, Take, Bag, Records;
    StepKeepsInv(c, t, s);
    StepConserves(c, t, s);
  }

  /** At every moment each listed object is stored, decodes, and its metadata is true of its blocks. */
  lemma MetadataIsTrue(c: Config, steps: seq<Step>, t: Tier, m: Meta)
    requires Reaches(c, steps, t) && m in t.metas
    ensures m.key in t.storage && Decode(t.storage[m.key]).Ok? && m.size == |t.storage[m.key]|
    ensures m.count == Total(BlocksOf(t.storage, m))
    ensures forall b :: b in BlocksOf(t.storage, m) ==> m.start <= b.start && b.end <= m.end
    ensures (exists b :: b in BlocksOf(t.storage, m) && b.start == m.start) &&
            (exists b :: b in BlocksOf(t.storage, m) && b.end == m.end)
    ensures t.job.Deleting? ==> m.key !in t.job.keys
  {
    hide Decode, MinStart, MaxEnd, Total, Key, Bag, Records;
    NothingLostNothingTwice(c, steps, t);
    assert MetaInv(c, t, m);
    var first, last := RangeIsAttained(BlocksOf(t.storage, m));
  }

  /** The class method's undisturbed compaction is the four steps in a row. */
  lemma StepsAreCompaction(c: Config, t: Tier)
    requires Inv(c, t) && Enabled(c, t, Choose) && Enabled(c, Take(c, t, Choose), Put)
    ensures var u := Take(c, Take(c, Take(c, Take(c, t, Choose), Put), Swap), Delete);
            var r := Compacted(t.storage, t.metas, c.stream, c.target);
            r.0.Ok? && r.0.value.Some? && r.1 == u.storage && r.2 == u.metas && u.job == Idle
  {
    hide Backed, Decode, Encode, Key, Keep, Merged, Gather, Small, Swapped, Total, CompactedMeta, Bag, Records;
    var objects := Small(t.metas, c.target);
    forall o | o in objects
      ensures Backed(t.storage, o)
    {
      assert o in t.metas && MetaInv(c, t, o);
    }
    MergedFacts(t.storage, objects);
  }

  // ---------- where a compaction can lose data ----------

  /** What one undisturbed compaction of these objects would store. */
  function Product(storage: Storage, ms: seq<Meta>, c: Config): Meta {
    CompactedMeta(c.stream, Merged(storage, Small(ms, c.target)))
  }

  /**
   * The new key equals the key of an object about to be deleted exactly when one of the chosen objects was itself
   * compacted and already covers the range of all of them. The delete that follows the swap then removes it.
   */
  lemma DeletesItsOwnProduct(storage: Storage, ms: seq<Meta>, c: Config)
    requires forall m :: m in ms ==> IsUpload(c, m) || IsCompacted(c, m)
    requires |Small(ms, c.target)| >= 2 && Gather(storage, Small(ms, c.target)).Ok?
    requires Merged(storage, Small(ms, c.target)) != []
    ensures var meta := Product(storage, ms, c);
            var r := Compacted(storage, ms, c.stream, c.target);
            meta in r.2 && (meta.key in r.1 <==>
              !exists o :: o in Small(ms, c.target) && IsCompacted(c, o) && o.start == meta.start && o.end == meta.end)
  {
    hide Key, Gather, Merged, Small, Encode, Decode, MinStart, MaxEnd, Total, Sorted, Keep, Bag, Records;
    var meta, objects := Product(storage, ms, c), Small(ms, c.target);
    SortedKeeps(storage, Keep(ms, Keys(objects), false) + [meta]);
    if meta.key in Keys(objects) {
      var o :| o in objects && o.key == meta.key;
      KeyInjective(c.stream, meta.start, meta.end, true, o.start, o.end, IsCompacted(c, o));
    }
  }

  /**
   * One undisturbed compaction that does not meet its own key keeps every block exactly when the merged object has
   * fewer than 65536 blocks, and keeps the record count exactly when that fits in 32 bits.
   */
  lemma CompactionConserves(storage: Storage, ms: seq<Meta>, c: Config)
    requires DistinctKeys(ms) && forall m :: m in ms ==> Backed(storage, m)
    requires |Small(ms, c.target)| >= 2 && Product(storage, ms, c).key !in Keys(ms)
    ensures var bs := Merged(storage, Small(ms, c.target));
            var r := Compacted(storage, ms, c.stream, c.target);
            && (Bag(r.1, r.2) == Bag(storage, ms) <==> |bs| < 0x1_0000)
            && (Records(r.2) == Records(ms) <==> Total(bs) < 0x1_0000_0000)
  {
    hide Backed, Key, Gather, Merged, Small, Encode, Decode, MinStart, MaxEnd, Total, Sorted, Keep, Bag, Records,
      BlocksOf;
    var meta, objects := Product(storage, ms, c), Small(ms, c.target);
    var bs, rest := Merged(storage, objects), Keep(ms, Keys(objects), false);
    var after := storage[meta.key := Encode(bs)] - Keys(objects);
    SmallByKey(ms, c.target);
    KeepSplits(storage, ms, Keys(objects));
    MergedFacts(storage, objects);
    AppendKeeps(after, rest, meta);
    SortedKeeps(after, rest + [meta]);
    forall m | m in rest
      ensures BlocksOf(storage, m) == BlocksOf(after, m)
    {
      assert m.key in Keys(ms);
      UntouchedObject(storage, meta.key, Encode(bs), Keys(objects), m);
    }
    BagIgnoresOthers(storage, after, rest);
    DecodeOfEncode(bs);
    assert meta.key in after;
    StoredBlocks(after, meta, bs[..Low16(|bs|)]);
    CutBag(bs, Low16(|bs|), Bag(storage, rest));
  }

  lemma SmallByKey(ms: seq<Meta>, target: nat)
    requires DistinctKeys(ms)
    ensures Keep(ms, Keys(Small(ms, target)), true) == Small(ms, target)
  {
    hide Keep, Small;
    var objects := Small(ms, target);
    forall m | m in ms
      ensures m.key in Keys(objects) <==> m.size < target
    {
      if m.key in Keys(objects) {
        var o :| o in objects && o.key == m.key;
        DistinctByKey(ms, m, o);
      }
    }
    KeepSmall(ms, target, Keys(objects));
  }

  lemma UntouchedObject(storage: Storage, key: string, data: bytes, deleted: set<string>, m: Meta)
    requires m.key != key && m.key !in deleted
    ensures BlocksOf(storage[key := data] - deleted, m) == BlocksOf(storage, m)
  {
    hide Decode;
  }

  lemma CutBag(bs: seq<Block>, k: nat, others: multiset<Block>)
    requires k <= |bs|
    ensures multiset(bs[..k]) + others == multiset(bs) + others <==> k == |bs|
  {
    assert bs == bs[..k] + bs[k..];
    if k < |bs| {
      assert bs[k] in multiset(bs[k..]);
      assert (multiset(bs[..k]) + others)[bs[k]] < (multiset(bs) + others)[bs[k]];
    }
  }
}
