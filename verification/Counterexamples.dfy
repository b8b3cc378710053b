/** Inputs and runs at which the broker does not do what one would expect. */
module Counterexamples {
  import opened Bytes
  import opened Names
  import B = Batches
  import T = Transcode
  import P = Pipeline
  import Patch
  import Log = PartitionLog
  import Runs = PartitionRuns
  import Txn = Transactions
  import TxnRuns = TransactionRuns
  import Broker = BrokerRuns
  import C = Compaction
  import CR = CompactionRuns
  import Cold = ColdReads
  import O = ObjectCodec

  // ---------- a compressed buffer that cannot be read ----------

  /** An empty plain batch. */
  function EmptyBatch(): bytes { P.Assemble(0, P.Fields(0, 0, 0, 0, -1, -1, -1, 0), []) }

  /** Trailing bytes with a version 2 magic and length field -82. */
  function BackwardHeader(): (t: bytes)
    ensures |t| == 61 && t[16] == B.MAGIC && B.Length(t) == -82
  {
    var zeros := seq(44, i => 0);
    var t := [0, 0, 0, 0, 0, 0, 0, 0] + PutI32(-82) + [0, 0, 0, 0, B.MAGIC] + zeros;
    assert t[8..12] == PutI32(-82);
    t
  }

  /**
   * The buffer can be decompressed, compressed and parsed, but what compressing gives cannot be read by any of the
   * loops: with an empty gzip stream of 20 bytes, and with any of at least nine, the trailing header points back into
   * it.
   */
  lemma CompressedBufferIsUnreadable(lib: T.Library)
    requires T.Lossless(lib) && lib.compress(T.Gzip, []).Ok? && 9 <= |lib.compress(T.Gzip, []).value| <= 1000
    ensures var s := EmptyBatch() + BackwardHeader();
            && T.Readable(s) && T.ParseReturns(lib, s) && T.Parse(lib, s) == Ok([])
            && T.CompressReturns(lib, s, T.Gzip) && T.Compress(lib, s, T.Gzip).Ok? && T.Fits(lib, s, T.Gzip)
            && var x := T.Compress(lib, s, T.Gzip).value;
               !T.DecompressReturns(lib, x) && !T.ParseReturns(lib, x) && forall c :: !T.CompressReturns(lib, x, c)
  {
    hide T.Readable, T.DecompressReturns, T.CompressReturns, T.ParseReturns, T.Compress, T.Parse, T.Decompress,
      T.Fits, T.EndsSafely,
      T.Tail;
    BackwardBuffer(lib);
    var s := EmptyBatch() + BackwardHeader();
    forall c
      ensures !T.CompressReturns(lib, T.Compress(lib, s, T.Gzip).value, c)
    {
      T.ReadableReturns(lib, s, T.Gzip);
      T.RecodedReturns(lib, s, T.Gzip, c);
    }
    T.ReadableReturns(lib, s, T.Gzip);
    T.RecodedReturns(lib, s, T.Gzip, T.Gzip);
  }

  lemma BackwardBuffer(lib: T.Library)
    requires T.Lossless(lib) && lib.compress(T.Gzip, []).Ok? && 9 <= |lib.compress(T.Gzip, []).value| <= 1000
    ensures var s := EmptyBatch() + BackwardHeader();
            && T.Readable(s) && T.Decompress(lib, s) == Ok(s) && T.Parse(lib, s) == Ok([])
            && T.Compress(lib, s, T.Gzip).Ok? && T.Fits(lib, s, T.Gzip)
            && !T.EndsSafely(T.Compress(lib, s, T.Gzip).value, T.Tail(s))
  {
    var b, t := EmptyBatch(), BackwardHeader();
    var s := b + t;
    PlainAndEmpty();
    hide EmptyBatch, BackwardHeader, B.Length, T.Batch, T.Tail, B.Attributes, T.Readable, B.IsBatch, B.Rebuild,
      B.RecordCount, B.BaseOffset, B.BaseTimestamp;
    var data := lib.compress(T.Gzip, []).value;
    var x := B.Rebuild(b, T.WithCodec(B.Attributes(b), T.Gzip), data);
    JoinOne(b);
    JoinOne(x);
    T.Recut([b], t);
    OneBatch(lib, T.Gzip, b);
    T.ReadableIffEndsSafely(s);
    B.RebuildLayout(b, T.WithCodec(B.Attributes(b), T.Gzip), data);
    assert T.CompressAll(lib, T.Gzip, [b]) == Ok([x]);
  }

  lemma JoinOne(b: bytes)
    ensures B.Join([b]) == b
  {
    var none: seq<bytes> := [];
    assert [b][1..] == none;
    assert B.Join(none) == [] && b + [] == b;
  }

  lemma OneBatch(lib: T.Library, c: T.Codec, b: bytes)
    requires |b| >= B.HEADER
    ensures T.DecompressBatch(lib, b).Ok? ==> T.DecompressAll(lib, [b]) == Ok([T.DecompressBatch(lib, b).value])
    ensures T.CompressBatch(lib, c, b).Ok? ==> T.CompressAll(lib, c, [b]) == Ok([T.CompressBatch(lib, c, b).value])
    ensures T.ParseBatch(b).Ok? ==> T.ParseAll([b]) == T.ParseBatch(b)
  {
    hide T.DecompressBatch, T.CompressBatch, T.ParseBatch;
    var none: seq<bytes> := [];
    assert [b][1..] == none;
    assert T.DecompressAll(lib, none) == Ok([]) && T.CompressAll(lib, c, none) == Ok([]) && T.ParseAll(none) == Ok([]);
    if T.DecompressBatch(lib, b).Ok? { assert [T.DecompressBatch(lib, b).value] + none == [T.DecompressBatch(lib,
      b).value]; }
    if T.CompressBatch(lib, c, b).Ok? { assert [T.CompressBatch(lib, c, b).value] + none == [T.CompressBatch(lib, c,
      b).value]; }
    if T.ParseBatch(b).Ok? { assert T.ParseBatch(b).value + [] == T.ParseBatch(b).value; }
  }

  lemma PlainAndEmpty()
    ensures var b := EmptyBatch();
            && |b| == 61 && B.IsBatch(b, B.HEADER) && T.FromAttributes(B.Attributes(b)).Plain? && b[61..] == []
            && T.ParseBatch(b) == Ok([])
  {
    hide P.Assemble, B.Attributes, B.RecordCount, B.BaseOffset, B.BaseTimestamp, B.Length;
    P.AssembledIsBatch(0, P.Fields(0, 0, 0, 0, -1, -1, -1, 0), []);
    P.AssembledFields(0, P.Fields(0, 0, 0, 0, -1, -1, -1, 0), []);
  }

  // ---------- a committed entry that a later abort hides ----------

  /** A transactional batch of one record whose bytes 39 to 47 spell a producer id. */
  function KeyedFields(id: nat): P.Fields
    requires id < 0x8000_0000
  {
    P.Fields(0x0010, 0, 0, 0, id * 0x1_0000_0000, 0, 0, 1)
  }

  function KeyedBatch(id: nat, payload: bytes): bytes
    requires id < 0x8000_0000
  {
    P.Assemble(0, KeyedFields(id), payload)
  }

  lemma KeySpellsId(f: P.Fields, payload: bytes, id: nat)
    requires f.maxTimestamp == 0 && f.producerId == id * 0x1_0000_0000 && id < 0x8000_0000
    ensures var b := P.Assemble(0, f, payload); |b| >= 61 && Log.TxnKey(b) == id
  {
    var b, s := P.Assemble(0, f, payload), P.EncodeFields(f);
    P.AssembleLayout(0, f, payload);
    P.FieldsLayout(f);
    hide P.Assemble, P.EncodeFields, FromBe, Be, PutI64;
    B.Slice(b, 21, 61, 14, 22);
    B.Slice(b, 21, 61, 22, 30);
    assert b[35..43] == PutI64(f.maxTimestamp) && b[43..51] == PutI64(f.producerId);
    KeyHalves(b, id);
  }

  lemma KeyHalves(b: bytes, id: nat)
    requires |b| >= 61 && GetI64(b[35..43]) == 0 && GetI64(b[43..51]) == id * 0x1_0000_0000 && id < 0x8000_0000
    ensures Log.TxnKey(b) == id
  {
    hide FromBe;
    Runs.HalfWords(b[35..43]);
    Runs.HalfWords(b[43..51]);
    Runs.HalfWords(b[39..47]);
    B.Slice(b, 35, 43, 4, 8);
    B.Slice(b, 43, 51, 0, 4);
    B.Slice(b, 39, 47, 0, 4);
    B.Slice(b, 39, 47, 4, 8);
    assert b[35..43][4..] == b[35..43][4..8] && b[43..51][..4] == b[43..51][0..4];
    assert b[39..47][..4] == b[39..47][0..4] && b[39..47][4..] == b[39..47][4..8];
  }

  lemma KeyedBatchFacts(f: P.Fields, payload: bytes)
    requires f.attributes == 0x0010 && f.lastOffsetDelta == 0 && 49 + |payload| <= I32_MAX
    ensures var b := P.Assemble(0, f, payload);
            Patch.PatchRecords(b, 0) == (b, 1) && Log.IsV2(b) && Log.IsTransactional(b) && !Log.IsControl(b)
  {
    hide P.Assemble, B.Attributes, B.Length, B.LastOffsetDelta, Patch.PatchRecords, B.BaseTimestamp, B.ProducerId,
      B.ProducerEpoch, B.RecordCount;
    var b := P.Assemble(0, f, payload);
    TxnRuns.PatchedIsReassembled(0, f, payload);
    P.AssembledFields(0, f, payload);
    P.AssembledIsBatch(0, f, payload);
    TxnRuns.OneOffset(b);
  }

  /** Appended and committed, the entry is delivered; a later rollback of the same id hides it. */
  lemma CommittedThenHidden(id: nat, payload: bytes, fallback: i64) returns (t: Runs.Traced)
    requires 1000 <= id < 0x8000_0000 && 49 + |payload| <= I32_MAX
    ensures Runs.Reaches([Runs.Produce(KeyedBatch(id, payload), true), Runs.Commit(id)], t)
    ensures t.status == [Runs.Committed] && |t.state.log| == 1 && Runs.Visible(t.state, t.state.log[0])
    ensures !Runs.Visible(Runs.Step(t, Runs.Rollback(id, fallback)).state, t.state.log[0])
  {
    hide P.Assemble, Runs.Reaches, Runs.Visible, Runs.Step, Patch.PatchRecords, Log.IsV2, B.Attributes;
    KeyedBatchFacts(KeyedFields(id), payload);
    KeySpellsId(KeyedFields(id), payload, id);
    t := CommittedOnce(KeyedBatch(id, payload), id, fallback);
  }

  lemma CommittedOnce(b: bytes, id: i64, fallback: i64) returns (t: Runs.Traced)
    requires Patch.PatchRecords(b, 0) == (b, 1) && Log.InTransaction(b) && Log.TxnKey(b) == id
    ensures Runs.Reaches([Runs.Produce(b, true), Runs.Commit(id)], t)
    ensures t.status == [Runs.Committed] && |t.state.log| == 1 && Runs.Visible(t.state, t.state.log[0])
    ensures !Runs.Visible(Runs.Step(t, Runs.Rollback(id, fallback)).state, t.state.log[0])
  {
    hide Runs.Reaches, Patch.PatchRecords, Log.TxnKey, B.Attributes;
    var e, f := Runs.Produce(b, true), Runs.Commit(id);
    StartReaches();
    assert [] + [e] == [e] && [e] + [f] == [e, f];
    Broker.Extend([], Runs.START, e);
    var u := Runs.Step(Runs.START, e);
    Broker.Extend([e], u, f);
    t := Runs.Step(u, f);
    assert u.state == Log.State(1, [Log.Entry(0, b)], map[id := 0], [], map[]);
    assert t.state == Log.State(1, [Log.Entry(0, b)], map[], [], map[]);
    assert t.status == [Runs.Committed];
    hide Runs.Step;
    Runs.DeliveredUntilAbort([e, f], t, Runs.Rollback(id, fallback), t.state.log[0]);
  }

  lemma StartReaches()
    ensures Runs.Reaches([], Runs.START)
  {
  }

  // ---------- a retry answered with another batch's offset ----------

  /** Two batches of one producer accepted, then the first sent again: the answer is the second one's offset. */
  lemma OlderRetryGetsLatestOffset(id: i64, epoch: i16, sequence: i32) returns (t: Runs.Traced)
    requires sequence < I32_MAX
    ensures Runs.Reaches([Runs.ProduceIdempotent(id, epoch, sequence, EmptyBatch(), true),
                          Runs.ProduceIdempotent(id, epoch, sequence + 1, EmptyBatch(), true)], t)
    ensures t.accepted == [(id, Log.Accepted(epoch, sequence, 0)), (id, Log.Accepted(epoch, sequence + 1, 1))]
    ensures Log.IdempotentOutcome(t.state, id, epoch, sequence, true) == Log.Duplicate(1)
  {
    OneOffsetEach(0);
    OneOffsetEach(1);
    hide EmptyBatch, Patch.PatchRecords, Log.InTransaction, Runs.Reaches, Runs.Step;
    t := TwoAccepted(EmptyBatch(), id, epoch, sequence);
  }

  lemma TwoAccepted(b: bytes, id: i64, epoch: i16, sequence: i32) returns (t: Runs.Traced)
    requires sequence < I32_MAX && Patch.PatchRecords(b, 0).1 == 1 && Patch.PatchRecords(b, 1).1 == 1
    ensures Runs.Reaches([Runs.ProduceIdempotent(id, epoch, sequence, b, true),
                          Runs.ProduceIdempotent(id, epoch, sequence + 1, b, true)], t)
    ensures t.accepted == [(id, Log.Accepted(epoch, sequence, 0)), (id, Log.Accepted(epoch, sequence + 1, 1))]
    ensures Log.IdempotentOutcome(t.state, id, epoch, sequence, true) == Log.Duplicate(1)
  {
    hide Patch.PatchRecords, Log.InTransaction, Runs.Reaches, Log.Register;
    var e := Runs.ProduceIdempotent(id, epoch, sequence, b, true);
    var f := Runs.ProduceIdempotent(id, epoch, sequence + 1, b, true);
    StartReaches();
    assert [] + [e] == [e] && [e] + [f] == [e, f];
    Broker.Extend([], Runs.START, e);
    var u := Runs.Step(Runs.START, e);
    assert u.state.next == 1 && u.state.producers == map[id := Log.Accepted(epoch, sequence, 0)];
    assert u.accepted == [(id, Log.Accepted(epoch, sequence, 0))];
    Broker.Extend([e], u, f);
    t := Runs.Step(u, f);
  }

  lemma OneOffsetEach(offset: i64)
    ensures Patch.PatchRecords(EmptyBatch(), offset).1 == 1
  {
    var f := P.Fields(0, 0, 0, 0, -1, -1, -1, 0);
    hide P.Assemble, Patch.PatchRecords, B.LastOffsetDelta, B.Length;
    P.AssembledIsBatch(0, f, []);
    P.AssembledFields(0, f, []);
    OneRecordOneOffset(EmptyBatch(), offset);
  }

  lemma OneRecordOneOffset(b: bytes, offset: i64)
    requires B.IsBatch(b, B.HEADER) && B.LastOffsetDelta(b) == 0
    ensures Patch.PatchRecords(b, offset).1 == 1
  {
    hide Patch.PatchFrom, Patch.PatchBatch, B.LastOffsetDelta, B.Length, WrapI64;
    P.PatchWhole(b, offset);
    assert Patch.Count(b) == 1;
    TxnRuns.WrapNext(offset);
  }

  // ---------- an end that fails, and its retry ----------

  /**
   * A transaction registers one partition; the write-ahead log refuses the marker. The end fails, ending again
   * succeeds, and the partition never gets a marker.
   */
  lemma MarkerIsNeverWritten(name: string, tp: TopicPartition, commit: bool)
    returns (b: TxnRuns.Broker, c: TxnRuns.Broker, d: TxnRuns.Broker)
    ensures TxnRuns.Reaches(TxnRuns.START, [TxnRuns.InitProducer(Some(name), 0), TxnRuns.AddTo(name, 1000, 0, [tp])], b)
    ensures name in b.metas && b.metas[name].partitions == {tp} &&
            TxnRuns.EndFails(b, b.metas[name], name, 0, commit, c)
    ensures TxnRuns.Next(b, TxnRuns.End(name, 1000, 0, commit), c) &&
            TxnRuns.Next(c, TxnRuns.End(name, 1000, 0, commit), d)
    ensures TxnRuns.EndSucceeds(c, c.metas[name], name, 0, commit, d) && Txn.Part(d.cluster, tp).log == []
  {
    hide Log.Append, Txn.Marker, Txn.Ended;
    var init, add := TxnRuns.InitProducer(Some(name), 0), TxnRuns.AddTo(name, 1000, 0, [tp]);
    var meta := Txn.Metadata(1000, 0, 60000, Txn.Empty, {});
    var a := TxnRuns.Broker(map[name := meta], 1001, map[]);
    var ready := meta.(phase := Txn.Ongoing, partitions := {tp});
    b := a.(metas := map[name := ready]);
    FirstInit(name);
    FirstAdd(name, tp);
    TwoCalls(TxnRuns.START, init, a, add, b);
    var clock: TopicPartition -> i64 := p => 0;
    var waiting := ready.(phase := if commit then Txn.PrepareCommit else Txn.PrepareAbort, partitions := {});
    var refused := Txn.EndedSome(b.cluster, {}, tp, 1000, 0, commit, clock);
    c := b.(metas := b.metas[name := waiting], cluster := refused);
    d := c.(metas := c.metas[name := waiting.(phase := Txn.Empty)]);
    assert {} < {tp} && tp in {tp} - {};
    Txn.EndedNone(c.cluster, 1000, 0, commit, clock);
    TxnRuns.RetryAppendsNoMarkers(b, name, 0, commit, c, d);
  }

  lemma FirstInit(name: string)
    ensures var meta := Txn.Metadata(1000, 0, 60000, Txn.Empty, {});
            TxnRuns.Next(TxnRuns.START, TxnRuns.InitProducer(Some(name), 0), TxnRuns.Broker(map[name := meta], 1001,
              map[]))
  {
    var none: Txn.Metas := map[];
    var meta := Txn.Metadata(1000, 0, 60000, Txn.Empty, {});
    assert none[name := meta] == map[name := meta];
    assert WrapI64(1001) == 1001;
    assert Txn.Init(none, 1000, Some(name), 0) == (map[name := meta], 1001, 1000, 0);
  }

  lemma FirstAdd(name: string, tp: TopicPartition)
    ensures var meta := Txn.Metadata(1000, 0, 60000, Txn.Empty, {});
            var ready := meta.(phase := Txn.Ongoing, partitions := {tp});
            TxnRuns.Next(TxnRuns.Broker(map[name := meta], 1001, map[]), TxnRuns.AddTo(name, 1000, 0, [tp]),
                         TxnRuns.Broker(map[name := ready], 1001, map[]))
  {
    var meta := Txn.Metadata(1000, 0, 60000, Txn.Empty, {});
    var ready := meta.(phase := Txn.Ongoing, partitions := {tp});
    assert (set p | p in [tp]) == {tp} && meta.partitions + {tp} == {tp};
    assert map[name := meta][name := ready] == map[name := ready];
    assert Txn.AddPartitions(map[name := meta], name, 1000, 0, [tp]) == map[name := ready];
  }

  lemma TwoCalls(a: TxnRuns.Broker, x: TxnRuns.Call, b: TxnRuns.Broker, y: TxnRuns.Call, c: TxnRuns.Broker)
    requires TxnRuns.Next(a, x, b) && TxnRuns.Next(b, y, c)
    ensures TxnRuns.Reaches(a, [x, y], c)
  {
    hide TxnRuns.Next;
    var none: seq<TxnRuns.Call> := [];
    assert [x, y][1..] == [y] && [y][1..] == none;
    assert TxnRuns.Reaches(c, none, c);
    assert TxnRuns.Reaches(b, [y], c);
  }

  // ---------- a compaction that deletes what it made ----------

  /**
   * Two uploads are compacted; a third upload then lies within their range, below the target size like the compacted
   * object. The next compaction stores everything under the old compacted key and deletes that key: nothing uploaded
   * can be reached any more.
   */
  lemma OverlapLosesEverything(c: CR.Config, a: CR.Step, b: CR.Step, late: CR.Step) returns (t: CR.Tier)
    requires Cold.Pair(c, a, b) && late.Upload? && a.start <= late.start <= late.end <= b.end &&
             |late.data| < 0x1_0000_0000
    requires |O.Encode([CR.UploadedBlock(c, a), CR.UploadedBlock(c, b)])| < c.target &&
             CR.UploadedMeta(c, late).size < c.target
    ensures CR.Reaches(c, Cold.TwoAndCompact(a, b), t)
    ensures var u := CR.Take(c, t, late);
            var r := C.Compacted(u.storage, u.metas, c.stream, c.target);
            && C.Bag(u.storage, u.metas) == multiset{CR.UploadedBlock(c, a), CR.UploadedBlock(c, b),
              CR.UploadedBlock(c, late)}
            && r.0.Ok? && r.0.value.Some? && C.Bag(r.1, r.2) == multiset{}
  {
    hide O.Encode, O.Decode, C.Key, CR.Reaches, C.Compacted, C.Bag, CR.Backed, C.BlocksOf;
    t := Cold.CompactedPair(c, a, b);
    var steps := Cold.TwoAndCompact(a, b);
    CR.NothingLostNothingTwice(c, steps, t);
    Cold.BroughtTwo(c, a, b);
    var m, n := t.metas[0], CR.UploadedMeta(c, late);
    assert t.metas == [m] && CR.MetaInv(c, t, m);
    LateUpload(c, t, m, late);
    var u := CR.Take(c, t, late);
    assert u.metas == [m, n];
    ProductIsGone(c, u.storage, m, n);
  }

  /** The third upload is stored beside the compacted object. */
  lemma LateUpload(c: CR.Config, t: CR.Tier, m: C.Meta, late: CR.Step)
    requires late.Upload? && |late.data| < 0x1_0000_0000 && late.start <= late.end
    requires t.metas == [m] && CR.Backed(t.storage, m) && CR.IsCompacted(c, m)
    ensures var u, n := CR.Take(c, t, late), CR.UploadedMeta(c, late);
            && CR.Backed(u.storage, m) && CR.Backed(u.storage, n) && CR.IsUpload(c, n) && n.key != m.key
            && C.Bag(u.storage, u.metas) == C.Bag(t.storage, t.metas) + multiset{CR.UploadedBlock(c, late)}
  {
    hide O.Encode, O.Decode, C.Key, C.Bag, CR.Backed, C.BlocksOf, C.DistinctKeys;
    var u, n := CR.Take(c, t, late), CR.UploadedMeta(c, late);
    CR.UploadedIsBacked(c, t.(frontier := late.start), late);
    CR.KindsDiffer(c, n, m, late);
    CR.OtherObjectsStay(t.storage, n.key, O.Encode([CR.UploadedBlock(c, late)]), m);
    C.BagIgnoresOthers(t.storage, u.storage, t.metas);
    C.AppendKeeps(u.storage, t.metas, n);
    CR.EncodedOne(c, late);
    CR.StoredBlocks(u.storage, n, [CR.UploadedBlock(c, late)]);
  }

  lemma ProductIsGone(c: CR.Config, storage: C.Storage, m: C.Meta, n: C.Meta)
    requires CR.Backed(storage, m) && CR.Backed(storage, n) && CR.IsCompacted(c, m) && CR.IsUpload(c, n)
    requires m.start <= n.start && n.end <= m.end && m.size < c.target && n.size < c.target
    ensures var r := C.Compacted(storage, [m, n], c.stream, c.target);
            r.0.Ok? && r.0.value.Some? && C.Bag(r.1, r.2) == multiset{}
  {
    hide O.Encode, O.Decode, C.Key, C.Bag, C.BlocksOf, C.MinStart, C.MaxEnd, C.Total, C.Sorted, C.Keep, C.Small,
      C.Gather, C.Merged;
    Cold.SmallPair(m, n, c.target);
    CR.MergedFacts(storage, [m, n]);
    PairRange(storage, m, n);
    CR.DeletesItsOwnProduct(storage, [m, n], c);
    var meta := CR.Product(storage, [m, n], c);
    assert m in C.Small([m, n], c.target) && CR.IsCompacted(c, m) && m.start == meta.start && m.end == meta.end;
    var r := C.Compacted(storage, [m, n], c.stream, c.target);
    Cold.KeepNone([m, n], C.Keys([m, n]));
    assert [] + [meta] == [meta];
    Cold.SortedOne(meta);
    NothingBehind(r.1, meta);
  }

  lemma PairRange(storage: C.Storage, m: C.Meta, n: C.Meta)
    requires CR.Backed(storage, m) && CR.Backed(storage, n) && m.start <= n.start && n.end <= m.end
    ensures var bs := C.Merged(storage, [m, n]);
            bs != [] && C.MinStart(bs) == m.start && C.MaxEnd(bs) == m.end
  {
    hide O.Decode, C.MinStart, C.MaxEnd, C.Total;
    var x, y := C.BlocksOf(storage, m), C.BlocksOf(storage, n);
    var none: seq<C.Meta> := [];
    assert [m, n][1..] == [n] && [n][1..] == none;
    assert C.Merged(storage, none) == [] && y + [] == y;
    assert C.Merged(storage, [n]) == y;
    assert C.Merged(storage, [m, n]) == x + y;
    CR.TotalOfTwo(x, y);
  }

  lemma NothingBehind(storage: C.Storage, m: C.Meta)
    requires m.key !in storage
    ensures C.Bag(storage, [m]) == multiset{}
  {
    var none: seq<C.Meta> := [];
    assert [m][1..] == none;
    assert C.Bag(storage, none) == multiset{} && C.BlocksOf(storage, m) == [];
  }
}
