/** Whole runs of the coordinator and its partitions: complete and framed ends, fencing, lost markers. */
module TransactionRuns {
  import opened Bytes
  import opened Names
  import opened Batches
  import Crc = Crc32c
  import opened Patch
  import opened PartitionLog
  import opened Transactions
  import P = Pipeline
  import R = Records
  import T = Transcode
  import Runs = PartitionRuns

  // ---------- one partition ends ----------

  /** The marker as stored: a control entry of that producer and epoch whose key says commit (1) or abort (0). */
  ghost predicate IsMarker(e: Entry, offset: i64, producerId: i64, epoch: i16, commit: bool, now: i64) {
    && e.offset == offset && IsV2(e.data) && IsControl(e.data) && Attributes(e.data) == 0x30
    && ProducerId(e.data) == producerId && ProducerEpoch(e.data) == epoch && CrcValid(e.data)
    && var key: bytes := if commit then [0, 0, 0, 1] else [0, 0, 0, 0];
       forall lib :: T.Parse(lib, e.data) == Ok([R.Record(offset, now, Some(key), Some([0, 0]), [])])
  }

  lemma PatchedMarker(offset: i64, producerId: i64, epoch: i16, commit: bool, now: i64)
    ensures var r := PatchRecords(Marker(producerId, epoch, commit, now), offset);
            IsMarker(Entry(offset, r.0), offset, producerId, epoch, commit, now)
  {
    hide PatchRecords, PatchBatch, P.Assemble, T.Parse, Length, CrcValid, R.EncodeRecords, P.MarkerKey, ProducerId,
      ProducerEpoch, Attributes;
    var f := P.Fields(P.CONTROL_ATTRIBUTES, 0, now, now, producerId, epoch, -1, 1);
    var payload := R.EncodeRecords([P.MarkerRecord(commit)]);
    var b := P.ControlBatch(0, producerId, epoch, commit, now);
    P.MarkerPayload(commit);
    P.AssembledIsBatch(0, f, payload);
    PatchedIsReassembled(offset, f, payload);
    assert PatchRecords(b, offset).0 == P.ControlBatch(offset, producerId, epoch, commit, now);
    var key: bytes := if commit then [0, 0, 0, 1] else [0, 0, 0, 0];
    forall lib
      ensures T.Parse(lib, P.ControlBatch(offset, producerId, epoch, commit, now))
           == Ok([R.Record(offset, now, Some(key), Some([0, 0]), [])])
    {
      P.ControlBatchReadsBack(lib, offset, producerId, epoch, commit, now);
    }
    var lib := T.Library((c, x) => Err(""), (c, x) => Err(""));
    P.ControlBatchReadsBack(lib, offset, producerId, epoch, commit, now);
    var stored := P.ControlBatch(offset, producerId, epoch, commit, now);
    assert IsV2(stored);
    ControlBit(stored);
  }

  lemma ControlBit(b: bytes)
    requires |b| >= HEADER && Attributes(b) == P.CONTROL_ATTRIBUTES
    ensures IsControl(b)
  {
    hide Attributes;
  }

  /** Patching an assembled batch is assembling it at the new offset. */
  lemma PatchedIsReassembled(offset: i64, f: P.Fields, payload: bytes)
    requires 49 + |payload| <= I32_MAX
    ensures PatchRecords(P.Assemble(0, f, payload), offset).0 == P.Assemble(offset, f, payload)
  {
    hide Crc.Checksum, PutI64, PutI32, PutU32, P.EncodeFields, Length, PatchRecords, BaseOffset, CrcValid;
    var b := P.Assemble(0, f, payload);
    P.AssembledIsBatch(0, f, payload);
    P.PatchOne(b, offset);
    var body := P.EncodeFields(f) + payload;
    var len, crc := PutI32(WrapI32(49 + |payload|)), PutU32(Crc.Checksum(body));
    assert b == PutI64(0) + len + PutI32(0) + [MAGIC] + crc + body;
    assert b[21..] == body;
    assert b[8..17] == len + PutI32(0) + [MAGIC];
  }

  lemma MarkerNotRegistered(s: State, producerId: i64, epoch: i16, commit: bool, now: i64)
    ensures var m := Marker(producerId, epoch, commit, now);
            Register(s, PatchRecords(m, s.next).0) == s.ongoing && Reserved(s, m) == 1
  {
    hide PatchRecords, T.Parse, ProducerId, ProducerEpoch, CrcValid, Attributes, Marker;
    PatchedMarker(s.next, producerId, epoch, commit, now);
    MarkerTakesOne(s.next, producerId, epoch, commit, now);
  }

  lemma MarkerTakesOne(offset: i64, producerId: i64, epoch: i16, commit: bool, now: i64)
    ensures PatchRecords(Marker(producerId, epoch, commit, now), offset).1 == 1
  {
    var b := P.ControlBatch(0, producerId, epoch, commit, now);
    var lib := T.Library((c, x) => Err(""), (c, x) => Err(""));
    P.ControlBatchReadsBack(lib, 0, producerId, epoch, commit, now);
    hide P.ControlBatch, T.Parse, PatchBatch, PatchFrom, Count, Length, CrcValid, ProducerId, ProducerEpoch,
      Attributes, WrapI64;
    P.PatchWhole(b, offset);
    WrapNext(offset);
  }

  lemma WrapNext(x: i64)
    ensures WrapI64(WrapI64(x + 1) - x) == 1
  {
  }

  /**
   * Ending a transaction on one partition: exactly one marker, right producer, epoch and outcome,
   * is appended; the producer is closed; other producers' open ranges stay as they were; a rollback adds the
   * producer to the aborted list with the start of its open range, or the marker's offset, a commit adds nothing.
   */
  lemma EndedMarksOnce(s: State, producerId: i64, epoch: i16, commit: bool, now: i64)
    requires s.next < I64_MAX
    ensures var u := Ended(s, producerId, epoch, commit, now);
            && |u.log| == |s.log| + 1 && u.log[..|s.log|] == s.log && u.next == s.next + 1
            && IsMarker(u.log[|s.log|], s.next, producerId, epoch, commit, now)
            && u.ongoing == s.ongoing - {producerId}
            && u.producers == s.producers
            && if commit then u.aborted == s.aborted
               else |u.aborted| == |s.aborted| + 1 && u.aborted[..|s.aborted|] == s.aborted &&
                    u.aborted[|s.aborted|]
                    == (producerId, if producerId in s.ongoing then s.ongoing[producerId] else s.next)
  {
    hide PatchRecords, T.Parse, ProducerId, ProducerEpoch, CrcValid, Attributes, Marker, Register;
    PatchedMarker(s.next, producerId, epoch, commit, now);
    MarkerNotRegistered(s, producerId, epoch, commit, now);
    WrapIdentity(s.next + 1);
  }

  /**
   * A successful end is complete and framed, in whatever order the partitions are visited: every
   * registered partition ended, every other partition is the same, and on every partition the
   * open range of every other producer id is the same.
   */
  lemma EndIsCompleteAndFramed(cluster: Cluster, tps: set<TopicPartition>, producerId: i64, epoch: i16, commit: bool,
                               clock: TopicPartition -> i64, tp: TopicPartition, other: i64)
    requires other != producerId && Part(cluster, tp).next < I64_MAX
    ensures var after := EndedAll(cluster, tps, producerId, epoch, commit, clock);
            var s, u := Part(cluster, tp), Part(after, tp);
            && (other in u.ongoing <==> other in s.ongoing)
            && (other in s.ongoing ==> u.ongoing[other] == s.ongoing[other])
            && if tp in tps then
                 |u.log| == |s.log| + 1 && u.log[..|s.log|] == s.log && producerId !in u.ongoing &&
                 IsMarker(u.log[|s.log|], s.next, producerId, epoch, commit, clock(tp))
               else u == s
  {
    hide Ended, IsMarker;
    EndedMarksOnce(Part(cluster, tp), producerId, epoch, commit, clock(tp));
  }

  // ---------- runs ----------

  datatype Broker = Broker(metas: Metas, nextId: i64, cluster: Cluster)

  datatype Call =
    | InitProducer(name: Option<string>, timeout: i32)
    | AddTo(txn: string, producerId: i64, epoch: i16, tps: seq<TopicPartition>)
    | AddOffsets(txn: string, producerId: i64, epoch: i16)
    | End(txn: string, producerId: i64, epoch: i16, commit: bool)
    | ProduceTo(tp: TopicPartition, records: bytes, durable: bool)
    | ProduceIdempotentTo(tp: TopicPartition, id: i64, epoch: i16, sequence: i32, records: bytes, durable: bool)

  /** One call, whatever fails and whatever the clock says. */
  ghost predicate Next(b: Broker, call: Call, c: Broker) {
    match call
    case InitProducer(txn, timeout) =>
      var (metas, nextId, _, _) := Init(b.metas, b.nextId, txn, timeout);
      b.nextId < I64_MAX && c == b.(metas := metas, nextId := nextId)
    case AddTo(txn, producerId, epoch, tps) => c == b.(metas := AddPartitions(b.metas, txn, producerId, epoch, tps))
    case AddOffsets(_, _, _) => c == b
    case End(txn, producerId, epoch, commit) =>
      if Check(b.metas, txn, producerId, epoch) == NoError then EndNext(b, txn, epoch, commit, c) else c == b
    case ProduceTo(tp, records, durable) =>
      c == b.(cluster := b.cluster[tp := Append(Part(b.cluster, tp), records, durable)])
    case ProduceIdempotentTo(tp, id, epoch, sequence, records, durable) =>
      c == b.(cluster := b.cluster[tp := AppendIdempotent(Part(b.cluster, tp), id, epoch, sequence, records, durable)])
  }

  ghost predicate EndNext(b: Broker, txn: string, epoch: i16, commit: bool, c: Broker)
    requires txn in b.metas
  {
    var meta := b.metas[txn];
    c.nextId == b.nextId && (EndSucceeds(b, meta, txn, epoch, commit, c) || EndFails(b, meta, txn, epoch, commit, c))
  }

  ghost predicate EndSucceeds(b: Broker, meta: Metadata, txn: string, epoch: i16, commit: bool, c: Broker) {
    c.metas == b.metas[txn := meta.(phase := Empty, partitions := {})] &&
    exists clock :: c.cluster == EndedAll(b.cluster, meta.partitions, meta.producerId, epoch, commit, clock)
  }

  ghost predicate EndFails(b: Broker, meta: Metadata, txn: string, epoch: i16, commit: bool, c: Broker) {
    c.metas == b.metas[txn := meta.(phase := if commit then PrepareCommit else PrepareAbort, partitions := {})] &&
    exists done, failed, clock ::
      done < meta.partitions && failed in meta.partitions - done &&
      c.cluster == EndedSome(b.cluster, done, failed, meta.producerId, epoch, commit, clock)
  }

  ghost predicate Reaches(b: Broker, calls: seq<Call>, c: Broker)
    decreases |calls|
  {
    if calls == [] then b == c
    else exists m :: Next(b, calls[0], m) && Reaches(m, calls[1..], c)
  }

  const START: Broker := Broker(map[], 1000, map[])

  // ---------- producer ids ----------

  /** Producer ids are issued from 1000 on, and never to two transactional ids. */
  ghost predicate IdsInv(b: Broker) {
    && 1000 <= b.nextId
    && (forall t :: t in b.metas ==> 1000 <= b.metas[t].producerId < b.nextId)
    && (forall t, u :: t in b.metas && u in b.metas && t != u ==> b.metas[t].producerId != b.metas[u].producerId)
  }

  lemma NextKeepsIds(b: Broker, call: Call, c: Broker)
    requires IdsInv(b) && Next(b, call, c)
    ensures IdsInv(c)
  {
    hide EndNext, Append, AppendIdempotent, Init;
    if call.InitProducer? { InitKeepsIds(b, call.name, call.timeout, c); }
    if call.End? && c != b { EndKeepsMetas(b, call.txn, call.epoch, call.commit, c); }
  }

  lemma InitKeepsIds(b: Broker, name: Option<string>, timeout: i32, c: Broker)
    requires IdsInv(b) && Next(b, InitProducer(name, timeout), c)
    ensures IdsInv(c)
  {
    hide WrapI16;
    WrapIdentity(b.nextId + 1);
  }

  lemma EndKeepsMetas(b: Broker, txn: string, epoch: i16, commit: bool, c: Broker)
    requires txn in b.metas && EndNext(b, txn, epoch, commit, c)
    ensures c.nextId == b.nextId && c.metas.Keys == b.metas.Keys
    ensures forall t :: t in b.metas ==>
              c.metas[t].producerId == b.metas[t].producerId && c.metas[t].epoch == b.metas[t].epoch
  {
    hide EndedAll, EndedSome;
  }

  lemma {:induction false} IdsNeverShared(b: Broker, calls: seq<Call>, c: Broker)
    requires IdsInv(b) && Reaches(b, calls, c)
    ensures IdsInv(c)
    decreases |calls|
  {
    hide Next, IdsInv;
    if calls != [] {
      var m :| Next(b, calls[0], m) && Reaches(m, calls[1..], c);
      NextKeepsIds(b, calls[0], m);
      IdsNeverShared(m, calls[1..], c);
    }
  }

  /** A producer id handed out for the first time, and the transactional id it was handed to, if any. */
  datatype Issue = Issue(name: Option<string>, id: i64)

  function NewIds(b: Broker, call: Call): seq<Issue> {
    if call.InitProducer? && (call.name.None? || call.name.value !in b.metas)
    then [Issue(call.name, Init(b.metas, b.nextId, call.name, call.timeout).2)] else []
  }

  /** A run and the producer ids it hands out, in order. */
  ghost predicate Issues(b: Broker, calls: seq<Call>, ids: seq<Issue>, c: Broker)
    decreases |calls|
  {
    if calls == [] then b == c && ids == []
    else exists m, rest :: Next(b, calls[0], m) && Issues(m, calls[1..], rest, c) && ids == NewIds(b, calls[0]) + rest
  }

  lemma NextIssues(b: Broker, call: Call, c: Broker)
    requires IdsInv(b) && Next(b, call, c)
    ensures b.nextId <= c.nextId
    ensures forall i :: 0 <= i < |NewIds(b, call)| ==> b.nextId <= NewIds(b, call)[i].id < c.nextId
    ensures forall t :: t in b.metas ==> t in c.metas && c.metas[t].producerId == b.metas[t].producerId
    ensures forall t :: t in c.metas && t !in b.metas ==> Issue(Some(t), c.metas[t].producerId) in NewIds(b, call)
  {
    hide EndNext, Append, AppendIdempotent, WrapI16;
    if call.InitProducer? { WrapIdentity(b.nextId + 1); }
    if call.End? && c != b { EndKeepsMetas(b, call.txn, call.epoch, call.commit, c); }
  }

  /**
   * In every run each producer id is handed out once, whether to a transactional id or to a producer without one, and
   * every transactional id keeps the producer id that was handed out to it.
   */
  lemma {:induction false} IdsIssuedOnce(b: Broker, calls: seq<Call>, ids: seq<Issue>, c: Broker)
    requires IdsInv(b) && Issues(b, calls, ids, c)
    ensures IdsInv(c) && b.nextId <= c.nextId
    ensures forall i :: 0 <= i < |ids| ==> b.nextId <= ids[i].id < c.nextId
    ensures forall i, j :: 0 <= i < j < |ids| ==> ids[i].id < ids[j].id
    ensures forall t :: t in b.metas ==> t in c.metas && c.metas[t].producerId == b.metas[t].producerId
    ensures forall t :: t in c.metas && t !in b.metas ==> Issue(Some(t), c.metas[t].producerId) in ids
    decreases |calls|
  {
    hide Next, IdsInv, Init;
    if calls != [] {
      var m, rest :| Next(b, calls[0], m) && Issues(m, calls[1..], rest, c) && ids == NewIds(b, calls[0]) + rest;
      NextKeepsIds(b, calls[0], m);
      NextIssues(b, calls[0], m);
      IdsIssuedOnce(m, calls[1..], rest, c);
    }
  }

  /** Every run hands out some list of ids. */
  lemma {:induction false} EveryRunIssues(b: Broker, calls: seq<Call>, c: Broker) returns (ids: seq<Issue>)
    requires Reaches(b, calls, c)
    ensures Issues(b, calls, ids, c)
    decreases |calls|
  {
    hide Next, NewIds;
    if calls == [] {
      ids := [];
    } else {
      var m :| Next(b, calls[0], m) && Reaches(m, calls[1..], c);
      var rest := EveryRunIssues(m, calls[1..], c);
      ids := NewIds(b, calls[0]) + rest;
    }
  }

  /**
   * In every run, a successful end of one transactional id leaves the open ranges of every other
   * transactional id alone, on every partition.
   */
  lemma EndTouchesOwnRangesOnly(calls: seq<Call>, b: Broker, txn: string, other: string, epoch: i16, commit: bool,
      c: Broker, tp: TopicPartition)
    requires Reaches(START, calls, b) && txn in b.metas && other in b.metas && txn != other
    requires EndSucceeds(b, b.metas[txn], txn, epoch, commit, c) && Part(b.cluster, tp).next < I64_MAX
    ensures var id := b.metas[other].producerId;
            var s, u := Part(b.cluster, tp), Part(c.cluster, tp);
            (id in u.ongoing <==> id in s.ongoing) && (id in s.ongoing ==> u.ongoing[id] == s.ongoing[id])
  {
    hide Reaches, EndedAll, IsMarker;
    IdsNeverShared(START, calls, b);
    var meta := b.metas[txn];
    var clock :| c.cluster == EndedAll(b.cluster, meta.partitions, meta.producerId, epoch, commit, clock);
    EndIsCompleteAndFramed(b.cluster, meta.partitions, meta.producerId, epoch, commit, clock, tp,
      b.metas[other].producerId);
  }

  // ---------- fencing ----------

  /** How often a transactional id is initialised in a run. */
  function Inits(calls: seq<Call>, txn: string): nat {
    if calls == [] then 0
    else (if calls[0].InitProducer? && calls[0].name == Some(txn) then 1 else 0) + Inits(calls[1..], txn)
  }

  lemma NextEpoch(b: Broker, call: Call, c: Broker, txn: string)
    requires txn in b.metas && Next(b, call, c)
    ensures txn in c.metas && c.metas[txn].producerId == b.metas[txn].producerId
    ensures c.metas[txn].epoch
         == if call.InitProducer? && call.name == Some(txn) then WrapI16(b.metas[txn].epoch + 1) else b.metas[txn].epoch
  {
    hide EndNext, Append, AppendIdempotent, WrapI16, WrapI64;
    if call.End? && c != b { EndKeepsMetas(b, call.txn, call.epoch, call.commit, c); }
  }

  /**
   * Over every run with up to 32767 re-initialisations of a transactional id, its producer id
   * stays and its epoch grows by one each time.
   */
  lemma {:induction false} EpochCountsInits(b: Broker, calls: seq<Call>, c: Broker, txn: string)
    requires txn in b.metas && Reaches(b, calls, c) && b.metas[txn].epoch + Inits(calls, txn) <= 32767
    ensures txn in c.metas && c.metas[txn].producerId == b.metas[txn].producerId
    ensures c.metas[txn].epoch == b.metas[txn].epoch + Inits(calls, txn)
    decreases |calls|
  {
    hide Next;
    if calls != [] {
      var m :| Next(b, calls[0], m) && Reaches(m, calls[1..], c);
      NextEpoch(b, calls[0], m, txn);
      EpochCountsInits(m, calls[1..], c, txn);
    }
  }

  /** The next epoch is larger exactly while the current one is not the last 16-bit number. */
  lemma EpochGrowsUnlessLast(b: Broker, c: Broker, txn: string, timeout: i32)
    requires txn in b.metas && Next(b, InitProducer(Some(txn), timeout), c)
    ensures txn in c.metas && (c.metas[txn].epoch > b.metas[txn].epoch <==> b.metas[txn].epoch < 32767)
  {
  }

  /**
   * Once a transactional id was initialised again, any later add-partitions, add-offsets or end
   * call that carries its producer id with the older epoch is fenced and changes nothing, neither
   * in the coordinator nor on any partition.
   */
  lemma OldEpochsAreFenced(b: Broker, calls: seq<Call>, c: Broker, txn: string, stale: i16, d: Broker, call: Call)
    requires txn in b.metas && Reaches(b, calls, c) && b.metas[txn].epoch + Inits(calls, txn) <= 32767
    requires stale <= b.metas[txn].epoch && Inits(calls, txn) > 0
    requires (call.AddTo? || call.AddOffsets? || call.End?) && call.txn == txn
    requires call.producerId == b.metas[txn].producerId && call.epoch == stale && Next(c, call, d)
    ensures Check(c.metas, txn, call.producerId, stale) == ProducerFenced && d == c
  {
    hide Reaches, EndNext;
    EpochCountsInits(b, calls, c, txn);
  }

  // ---------- ends that fail ----------

  /** Ending a transaction with no registered partition succeeds and touches none. */
  lemma EndOfNothing(c: Broker, txn: string, epoch: i16, commit: bool, d: Broker)
    requires txn in c.metas && c.metas[txn].partitions == {} && EndNext(c, txn, epoch, commit, d)
    ensures d.cluster == c.cluster && EndSucceeds(c, c.metas[txn], txn, epoch, commit, d)
  {
    hide Ended, EndedSome;
    var meta := c.metas[txn];
    assert !EndFails(c, meta, txn, epoch, commit, d);
    var clock :| d.cluster == EndedAll(c.cluster, meta.partitions, meta.producerId, epoch, commit, clock);
    EndedNone(c.cluster, meta.producerId, epoch, commit, clock);
  }

  /**
   * An end that fails on one partition has already forgotten all of them: repeating it succeeds
   * and changes no partition, and the partition that failed has no marker.
   */
  lemma RetryAppendsNoMarkers(b: Broker, txn: string, epoch: i16, commit: bool, c: Broker, d: Broker)
    requires txn in b.metas && EndFails(b, b.metas[txn], txn, epoch, commit, c)
    requires txn in c.metas && EndNext(c, txn, epoch, commit, d)
    ensures d.cluster == c.cluster && EndSucceeds(c, c.metas[txn], txn, epoch, commit, d)
    ensures exists tp :: tp in b.metas[txn].partitions && Part(d.cluster, tp).log == Part(b.cluster, tp).log
  {
    hide EndNext, EndSucceeds, EndedAll, Append, Marker;
    EndOfNothing(c, txn, epoch, commit, d);
    var meta := b.metas[txn];
    var done, failed, clock :|
      done < meta.partitions && failed in meta.partitions - done &&
      c.cluster == EndedSome(b.cluster, done, failed, meta.producerId, epoch, commit, clock);
    LogUnchanged(Part(b.cluster, failed), Marker(meta.producerId, epoch, commit, clock(failed)));
    assert failed in meta.partitions && Part(d.cluster, failed).log == Part(b.cluster, failed).log;
  }

  lemma LogUnchanged(s: State, records: bytes)
    ensures Append(s, records, false).log == s.log
  {
  }

  // ---------- a committed transaction nobody sees ----------

  /** A transactional batch of producer 1000, laid out as the format says. */
  function Batch1000(timestamp: i64, payload: bytes): bytes {
    P.Assemble(0, P.Fields(0x0010, 0, timestamp, timestamp, 1000, 0, 0, 1), payload)
  }

  /**
   * Appended to an empty partition and committed by its producer, the batch is still below no
   * last stable offset: a read-committed fetch does not deliver it.
   */
  lemma CommittedBatchIsHidden(timestamp: i64, payload: bytes)
    requires 49 + |payload| <= I32_MAX
    ensures var s := Append(EMPTY, Batch1000(timestamp, payload), true);
            var u := Ended(s, 1000, 0, true, timestamp);
            s.log == [Entry(0, Batch1000(timestamp, payload))] && !Runs.Visible(u, s.log[0])
  {
    var b := Batch1000(timestamp, payload);
    TransactionalBatch(timestamp, payload);
    hide PatchRecords, TxnKey, InTransaction, Batch1000, Marker, IsMarker, Runs.Issued;
    var s := Append(EMPTY, b, true);
    Runs.KeyPresent(b);
    Runs.RegisterKeeps(EMPTY, b);
    OtherCommitHides(s, 1000, timestamp, s.log[0]);
  }

  lemma TransactionalBatch(timestamp: i64, payload: bytes)
    requires 49 + |payload| <= I32_MAX
    ensures var b := Batch1000(timestamp, payload);
            PatchRecords(b, 0).0 == b && InTransaction(b) && TxnKey(b) != 1000 && Reserved(EMPTY, b) < I64_MAX
  {
    hide PatchRecords, P.Assemble, TxnKey, Attributes, Length, ProducerId, PatchFrom, PatchBatch, Count;
    var f := P.Fields(0x0010, 0, timestamp, timestamp, 1000, 0, 0, 1);
    var b := Batch1000(timestamp, payload);
    PatchedIsReassembled(0, f, payload);
    P.AssembledFields(0, f, payload);
    P.AssembledIsBatch(0, f, payload);
    Runs.KeyIsNeverIssued(b);
    KeyNotMinusOne(b);
    OneOffset(b);
  }

  lemma OneOffset(b: bytes)
    requires IsBatch(b, HEADER) && LastOffsetDelta(b) == 0
    ensures PatchRecords(b, 0).1 == 1
  {
    hide PatchFrom, PatchBatch, LastOffsetDelta, Length;
    P.PatchWhole(b, 0);
    assert Count(b) == 1;
  }

  /** Committing one id does not make visible what another id keeps open. */
  lemma OtherCommitHides(s: State, id: i64, now: i64, e: Entry)
    requires s.next < I64_MAX && IsV2(e.data) && TxnKey(e.data) != id
    requires TxnKey(e.data) in s.ongoing && s.ongoing[TxnKey(e.data)] <= e.offset
    ensures !Runs.Visible(Ended(s, id, 0, true, now), e)
  {
    hide Ended, TxnKey, IsMarker, Attributes;
    EndedMarksOnce(s, id, 0, true, now);
    var u := Ended(s, id, 0, true, now);
    assert TxnKey(e.data) in u.ongoing && u.ongoing[TxnKey(e.data)] <= e.offset;
  }

  lemma KeyNotMinusOne(b: bytes)
    requires |b| >= HEADER && Runs.Issued(ProducerId(b))
    ensures TxnKey(b) != -1
  {
    Runs.HalfWords(b[43..51]);
    Runs.HalfWords(b[39..47]);
    assert b[43..51][..4] == b[43..47] == b[39..47][4..];
    hide FromBe;
  }
}
