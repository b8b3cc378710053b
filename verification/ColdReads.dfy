/** Reading a stream's objects back (`stream.rs`), and what compaction does to those reads. */
module ColdReads {
  import opened Bytes
  import opened ObjectCodec
  import opened Compaction
  import opened CompactionRuns

  predicate Covers(m: Meta, offset: i64) { m.start <= offset <= m.end }

  /** The first listed object whose range holds an offset. */
  function Covering(ms: seq<Meta>, offset: i64): (r: Option<Meta>)
    ensures r.Some? ==> r.value in ms && Covers(r.value, offset)
    ensures r.None? ==> forall m :: m in ms ==> !Covers(m, offset)
  {
    if ms == [] then None
    else
      assert ms == [ms[0]] + ms[1..];
      if Covers(ms[0], offset) then Some(ms[0]) else Covering(ms[1..], offset)
  }

  /** The data of the last block of a stream that starts at an offset. */
  function Found(bs: seq<Block>, id: u64, start: i64): Option<bytes> {
    if bs == [] then None
    else
      var b := bs[|bs| - 1];
      if b.streamId == id && b.start == start then Some(b.data) else Found(bs[..|bs| - 1], id, start)
  }

  /** A read that misses both caches. */
  function ColdFetch(storage: Storage, ms: seq<Meta>, id: u64, offset: i64): Result<seq<(i64, bytes)>> {
    match Covering(ms, offset)
    case None => Ok([])
    case Some(m) =>
      if m.key !in storage then Err("Object not found")
      else
        var bs :- Decode(storage[m.key]);
        match Found(bs, id, m.start)
        case None => Err("Block not found in S3 object")
        case Some(data) => Ok([(m.start, data)])
  }

  /** Of the objects that hold an offset the first listed answers. */
  lemma {:induction false} FirstObjectAnswers(a: seq<Meta>, b: seq<Meta>, offset: i64)
    ensures Covering(a + b, offset) == if Covering(a, offset).Some? then Covering(a, offset) else Covering(b, offset)
  {
    if a == [] {
      assert a + b == b;
    } else {
      FirstObjectAnswers(a[1..], b, offset);
      assert (a + b)[1..] == a[1..] + b;
    }
  }

  /** Of an object's blocks that start at an offset the last answers. */
  lemma {:induction false} LastBlockAnswers(a: seq<Block>, b: seq<Block>, id: u64, start: i64)
    ensures Found(a + b, id, start) == if Found(b, id, start).Some? then Found(b, id, start) else Found(a, id, start)
  {
    if b == [] {
      assert a + b == a;
    } else {
      var front := b[..|b| - 1];
      LastBlockAnswers(a, front, id, start);
      assert (a + b)[..|a + b| - 1] == a + front;
    }
  }

  // ---------- what a run has uploaded ----------

  /** Two uploaded blocks are the same or lie apart. */
  lemma {:induction false} UploadsLieApart(c: Config, steps: seq<Step>, t: Tier)
    requires Reaches(c, steps, t)
    ensures forall b :: b in Brought(c, steps) ==> b.streamId == c.id && b.start <= b.end < t.frontier
    ensures forall a, b ::
              a in Brought(c, steps) && b in Brought(c, steps) && a.start <= b.end && b.start <= a.end ==> a == b
  {
    hide Encode, Key, Merged, Swapped, CompactedMeta, Small;
    if steps != [] {
      var n := |steps| - 1;
      var u :| Reaches(c, steps[..n], u) && Enabled(c, u, steps[n]) && t == Take(c, u, steps[n]);
      UploadsLieApart(c, steps[..n], u);
    }
  }

  lemma {:induction false} BagHasBlocks(storage: Storage, ms: seq<Meta>, b: Block)
    ensures b in Bag(storage, ms) <==> exists m :: m in ms && b in BlocksOf(storage, m)
  {
    hide BlocksOf;
    if ms != [] {
      assert ms == [ms[0]] + ms[1..];
      BagHasBlocks(storage, ms[1..], b);
    }
  }

  lemma {:induction false} SmallestStart(bs: seq<Block>) returns (b: Block)
    requires bs != []
    ensures b in bs && b.start == MinStart(bs)
  {
    if |bs| == 1 {
      b := bs[0];
      OneBlock(b);
      assert bs == [b];
    } else {
      b := SmallestStart(bs[1..]);
      if bs[0].start < b.start { b := bs[0]; }
    }
  }

  lemma {:induction false} FoundSome(bs: seq<Block>, id: u64, start: i64, b: Block)
    requires b in bs && b.streamId == id && b.start == start
    ensures Found(bs, id, start).Some?
    ensures exists x :: x in bs && x.start == start && Found(bs, id, start) == Some(x.data)
  {
    var last := bs[|bs| - 1];
    if last.streamId != id || last.start != start {
      assert bs == bs[..|bs| - 1] + [last];
      FoundSome(bs[..|bs| - 1], id, start, b);
    }
  }

  lemma ReachableBlock(c: Config, steps: seq<Step>, t: Tier, m: Meta, b: Block)
    requires Reaches(c, steps, t) && m in t.metas && b in BlocksOf(t.storage, m)
    ensures b in Brought(c, steps)
  {
    hide Reaches, Inv, BlocksOf, Bag, Records;
    NothingLostNothingTwice(c, steps, t);
    BagHasBlocks(t.storage, t.metas, b);
  }

  /** A read at a covered offset answers with the block that starts the first listed object covering it. */
  lemma AnswersFirstBlock(c: Config, steps: seq<Step>, t: Tier, offset: i64) returns (b: Block)
    requires Reaches(c, steps, t) && Covering(t.metas, offset).Some?
    ensures var m := Covering(t.metas, offset).value;
            b in Brought(c, steps) && b in BlocksOf(t.storage, m) && b.start == m.start
    ensures ColdFetch(t.storage, t.metas, c.id, offset) == Ok([(b.start, b.data)])
  {
    hide Reaches, Decode, Found, Bag, Records, Brought, MinStart, MaxEnd, Total, Key, Covering;
    var m := Covering(t.metas, offset).value;
    NothingLostNothingTwice(c, steps, t);
    assert MetaInv(c, t, m);
    var bs := BlocksOf(t.storage, m);
    var first := SmallestStart(bs);
    ReachableBlock(c, steps, t, m, first);
    UploadsLieApart(c, steps, t);
    FoundSome(bs, c.id, m.start, first);
    b :| b in bs && b.start == m.start && Found(bs, c.id, m.start) == Some(b.data);
    ReachableBlock(c, steps, t, m, b);
  }

  /**
   * Every uploaded offset is answered without error, but with the block uploaded there exactly when the first listed
   * object that covers the offset starts where that block starts.
   */
  lemma ReadsBackIffFirst(c: Config, steps: seq<Step>, t: Tier, u: Block, offset: i64)
    requires Reaches(c, steps, t) && u in Brought(c, steps) && u.start <= offset <= u.end
    ensures Covering(t.metas, offset).Some? && ColdFetch(t.storage, t.metas, c.id, offset).Ok?
    ensures ColdFetch(t.storage, t.metas, c.id, offset) == Ok([(u.start, u.data)])
       <==> Covering(t.metas, offset).value.start == u.start
  {
    hide Reaches, BlocksOf, Bag, Records, Brought, ColdFetch;
    IsCovered(c, steps, t, u, offset);
    var b := AnswersFirstBlock(c, steps, t, offset);
    UploadsLieApart(c, steps, t);
    assert [(b.start, b.data)][0] == (b.start, b.data) && [(u.start, u.data)][0] == (u.start, u.data);
  }

  lemma IsCovered(c: Config, steps: seq<Step>, t: Tier, u: Block, offset: i64)
    requires Reaches(c, steps, t) && u in Brought(c, steps) && u.start <= offset <= u.end
    ensures Covering(t.metas, offset).Some?
  {
    hide Reaches, BlocksOf, Bag, Records, Brought, Covering, Inv, Decode;
    NothingLostNothingTwice(c, steps, t);
    BagHasBlocks(t.storage, t.metas, u);
    var m :| m in t.metas && u in BlocksOf(t.storage, m);
    MetadataIsTrue(c, steps, t, m);
    assert Covers(m, offset);
  }

  // ---------- compaction hides a block ----------

  /** Two uploads in order, both below the target size. */
  ghost predicate Pair(c: Config, a: Step, b: Step) {
    && a.Upload? && b.Upload? && 0 <= a.start <= a.end < b.start <= b.end
    && |a.data| < 0x1_0000_0000 && |b.data| < 0x1_0000_0000 && a.count + b.count < 0x1_0000_0000
    && UploadedMeta(c, a).size < c.target && UploadedMeta(c, b).size < c.target
  }

  /** Both of them, then an undisturbed compaction. */
  function TwoAndCompact(a: Step, b: Step): seq<Step> { [a, b, Choose, Put, Swap, Delete] }

  /**
   * After it, a read anywhere in the second upload answers with the first upload's data, although both blocks are
   * still stored.
   */
  lemma SecondUploadIsHidden(c: Config, a: Step, b: Step, offset: i64) returns (t: Tier)
    requires Pair(c, a, b) && b.start <= offset <= b.end
    ensures Reaches(c, TwoAndCompact(a, b), t)
    ensures ColdFetch(t.storage, t.metas, c.id, offset) == Ok([(a.start, a.data)])
    ensures UploadedBlock(c, b) in Bag(t.storage, t.metas)
  {
    hide Reaches, Bag, Records, ColdFetch;
    t := CompactedPair(c, a, b);
    var steps := TwoAndCompact(a, b);
    BroughtTwo(c, a, b);
    NothingLostNothingTwice(c, steps, t);
    var x := AnswersFirstBlock(c, steps, t, offset);
    UploadsLieApart(c, steps, t);
  }

  lemma CompactedPair(c: Config, a: Step, b: Step) returns (t: Tier)
    requires Pair(c, a, b)
    ensures Reaches(c, TwoAndCompact(a, b), t)
    ensures |t.metas| == 1 && t.metas[0].start == a.start && t.metas[0].end == b.end && IsCompacted(c, t.metas[0])
    ensures t.metas[0].size == |Encode([UploadedBlock(c, a), UploadedBlock(c, b)])|
  {
    hide Reaches, Enabled, Take, Pair, Encode, Key, IsCompacted;
    var t1, t2, t3, t4, t5 := Halfway(c, a, b);
    t := Take(c, t5, Delete);
    IdleAfterDelete(c, t5);
    assert [] + [a] == [a] && [a] + [b] == [a, b] && [a, b] + [Choose] == [a, b, Choose];
    assert [a, b, Choose] + [Put] == [a, b, Choose, Put] && [a, b, Choose, Put] + [Swap] == [a, b, Choose, Put, Swap];
    assert [a, b, Choose, Put, Swap] + [Delete] == TwoAndCompact(a, b);
    ReachesNext(c, [], START, a, t1);
    ReachesNext(c, [a], t1, b, t2);
    ReachesNext(c, [a, b], t2, Choose, t3);
    ReachesNext(c, [a, b, Choose], t3, Put, t4);
    ReachesNext(c, [a, b, Choose, Put], t4, Swap, t5);
    ReachesNext(c, [a, b, Choose, Put, Swap], t5, Delete, t);
  }

  lemma ReachesNext(c: Config, steps: seq<Step>, u: Tier, s: Step, t: Tier)
    requires (if steps == [] then u == START else Reaches(c, steps, u)) && Enabled(c, u, s) && t == Take(c, u, s)
    ensures Reaches(c, steps + [s], t)
  {
    hide Enabled, Take;
    var all := steps + [s];
    assert all[..|all| - 1] == steps && all[|all| - 1] == s;
    assert Reaches(c, [], START);
  }

  lemma IdleAfterDelete(c: Config, t: Tier)
    requires t.job.Deleting?
    ensures Enabled(c, t, Delete) && Take(c, t, Delete).metas == t.metas
  {
  }

  lemma BroughtTwo(c: Config, a: Step, b: Step)
    requires a.Upload? && b.Upload?
    ensures Brought(c, TwoAndCompact(a, b)) == multiset{UploadedBlock(c, a), UploadedBlock(c, b)}
  {
    var s := TwoAndCompact(a, b);
    assert s[..5] == [a, b, Choose, Put, Swap] && s[..5][..4] == [a, b, Choose, Put];
    assert [a, b, Choose, Put][..3] == [a, b, Choose] && [a, b, Choose][..2] == [a, b] && [a, b][..1] == [a];
    assert Brought(c, [a]) == multiset{UploadedBlock(c, a)} by { assert [a][..0] == []; }
    assert Brought(c, [a, b]) == multiset{UploadedBlock(c, a), UploadedBlock(c, b)};
    assert Brought(c, [a, b, Choose]) == Brought(c, [a, b]);
    assert Brought(c, [a, b, Choose, Put]) == Brought(c, [a, b]);
    assert Brought(c, s[..5]) == Brought(c, [a, b]);
  }

  lemma Halfway(c: Config, a: Step, b: Step) returns (t1: Tier, t2: Tier, t3: Tier, t4: Tier, t5: Tier)
    requires Pair(c, a, b)
    ensures Enabled(c, START, a) && t1 == Take(c, START, a) && Enabled(c, t1, b) && t2 == Take(c, t1, b)
    ensures Enabled(c, t2, Choose) && t3 == Take(c, t2, Choose) && Enabled(c, t3, Put) && t4 == Take(c, t3, Put)
    ensures Enabled(c, t4, Swap) && t5 == Take(c, t4, Swap) && t5.job.Deleting?
    ensures |t5.metas| == 1 && t5.metas[0].start == a.start && t5.metas[0].end == b.end && IsCompacted(c, t5.metas[0])
    ensures t5.metas[0].size == |Encode([UploadedBlock(c, a), UploadedBlock(c, b)])|
  {
    hide Encode, Decode, Key, Merged, Small, Keep, MinStart, MaxEnd, Total, Sorted, BlocksOf;
    t1 := Take(c, START, a);
    t2 := Take(c, t1, b);
    t3 := Take(c, t2, Choose);
    t4 := Take(c, t3, Put);
    t5 := Take(c, t4, Swap);
    var m, n := UploadedMeta(c, a), UploadedMeta(c, b);
    assert t1.metas == [m] && t2.metas == [m, n];
    SmallPair(m, n, c.target);
    MergedPair(c, a, b, t2.storage);
    RangeOfPair(UploadedBlock(c, a), UploadedBlock(c, b));
    KeepNone([m, n], Keys([m, n]));
    assert [] + [t4.job.meta] == [t4.job.meta];
    SortedOne(t4.job.meta);
  }

  lemma SmallPair(m: Meta, n: Meta, target: nat)
    requires m.size < target && n.size < target
    ensures Small([m, n], target) == [m, n]
  {
    assert [m, n][1..] == [n] && [n][1..] == [];
    assert Small([n], target) == [n];
  }

  lemma MergedPair(c: Config, a: Step, b: Step, storage: Storage)
    requires Pair(c, a, b)
    requires storage == Take(c, Take(c, START, a), b).storage
    ensures Merged(storage, [UploadedMeta(c, a), UploadedMeta(c, b)]) == [UploadedBlock(c, a), UploadedBlock(c, b)]
  {
    hide Encode, Decode, Key;
    var m, n := UploadedMeta(c, a), UploadedMeta(c, b);
    if m.key == n.key { KeyInjective(c.stream, m.start, m.end, false, n.start, n.end, false); }
    EncodedOne(c, a);
    EncodedOne(c, b);
    StoredBlocks(storage, m, [UploadedBlock(c, a)]);
    StoredBlocks(storage, n, [UploadedBlock(c, b)]);
    hide BlocksOf;
    assert [m, n][1..] == [n] && [n][1..] == [];
    assert Merged(storage, [n]) == [UploadedBlock(c, b)];
  }

  lemma RangeOfPair(x: Block, y: Block)
    requires x.start <= x.end < y.start <= y.end
    ensures MinStart([x, y]) == x.start && MaxEnd([x, y]) == y.end && Total([x, y]) == x.count + y.count
  {
    hide MinStart, MaxEnd, Total;
    OneBlock(x);
    OneBlock(y);
    TotalOfTwo([x], [y]);
    assert [x] + [y] == [x, y];
  }

  lemma {:induction false} KeepNone(ms: seq<Meta>, ks: set<string>)
    requires forall m :: m in ms ==> m.key in ks
    ensures Keep(ms, ks, false) == []
  {
    if ms != [] {
      assert ms == [ms[0]] + ms[1..];
      KeepNone(ms[1..], ks);
    }
  }

  lemma SortedOne(m: Meta)
    ensures Sorted([m]) == [m]
  {
    assert [m][..0] == [];
    assert Sorted([]) == [];
  }
}
