/** The transaction coordinator (`transaction.rs`) over a cluster of partitions. */
module Transactions {
  import opened Bytes
  import opened Names
  import opened Batches
  import opened Patch
  import opened PartitionLog
  import P = Pipeline
  import R = Records

  datatype Phase = Empty | Ongoing | PrepareCommit | PrepareAbort

  datatype Metadata = Metadata(producerId: i64, epoch: i16, timeout: i32, phase: Phase, partitions: set<TopicPartition>)

  datatype ErrorCode = NoError | InvalidProducerIdMapping | ProducerFenced | InvalidProducerEpoch | UnknownServer

  type Metas = map<string, Metadata>
  type Cluster = map<TopicPartition, State>

  /** `get_or_create_partition`. */
  function Part(cluster: Cluster, tp: TopicPartition): State {
    if tp in cluster then cluster[tp] else EMPTY
  }

  // ---------- specification ----------

  /** The check that add-partitions, add-offsets and end-transaction share. */
  function Check(metas: Metas, txn: string, producerId: i64, epoch: i16): ErrorCode {
    if txn !in metas || metas[txn].producerId != producerId then InvalidProducerIdMapping
    else if epoch < metas[txn].epoch then ProducerFenced
    else if epoch > metas[txn].epoch then InvalidProducerEpoch
    else NoError
  }

  /** The marker of a transaction's end, before it is patched. */
  function Marker(producerId: i64, epoch: i16, commit: bool, now: i64): bytes {
    P.ControlBatch(0, producerId, epoch, commit, now)
  }

  /** A partition after its marker was appended and the producer closed on it. */
  function Ended(s: State, producerId: i64, epoch: i16, commit: bool, now: i64): State {
    var marked := Append(s, Marker(producerId, epoch, commit, now), true);
    if commit then Complete(marked, producerId) else Abort(marked, producerId, s.next)
  }

  /** The cluster after all of `tps` ended; `clock` gives the time of each marker. */
  function EndedAll(cluster: Cluster, tps: set<TopicPartition>, producerId: i64, epoch: i16, commit: bool,
                    clock: TopicPartition -> i64): Cluster
  {
    map tp | tp in cluster.Keys + tps ::
      if tp in tps then Ended(Part(cluster, tp), producerId, epoch, commit, clock(tp)) else cluster[tp]
  }

  /** The cluster after `done` ended and the marker of `failed` was not made durable. */
  function EndedSome(cluster: Cluster, done: set<TopicPartition>, failed: TopicPartition, producerId: i64, epoch: i16,
                     commit: bool, clock: TopicPartition -> i64): Cluster
  {
    EndedAll(cluster, done, producerId, epoch, commit, clock)
      [failed := Append(Part(cluster, failed), Marker(producerId, epoch, commit, clock(failed)), false)]
  }

  // ---------- the coordinator object ----------

  class ClusterState {
    var partitions: map<TopicPartition, Partition>

    /** No two topic partitions share an object. */
    ghost predicate Valid()
      reads this
    {
      forall a, b :: a in partitions && b in partitions && a != b ==> partitions[a] != partitions[b]
    }

    ghost function Abstract(): (c: Cluster)
      reads this, partitions.Values
      ensures c.Keys == partitions.Keys
    {
      map tp | tp in partitions :: partitions[tp].Abstract()
    }

    constructor ()
      ensures Valid() && Abstract() == map[] && partitions == map[]
    {
      partitions := map[];
    }

    method GetOrCreatePartition(tp: TopicPartition) returns (p: Partition)
      requires Valid()
      modifies this
      ensures Valid() && tp in partitions && partitions[tp] == p
      ensures Abstract() == old(Abstract())[tp := Part(old(Abstract()), tp)]
      ensures tp in old(partitions) ==> partitions == old(partitions)
      ensures tp !in old(partitions) ==> fresh(p) && partitions == old(partitions)[tp := p]
    {
      if tp in partitions {
        p := partitions[tp];
        assert Abstract() == old(Abstract())[tp := Part(old(Abstract()), tp)];
        return;
      }
      p := new Partition();
      partitions := partitions[tp := p];
      assert Abstract() == old(Abstract())[tp := EMPTY];
    }

    /** One turn of the end loop: the partition is looked up and the producer's marker written on it. */
    method EndOn(tp: TopicPartition, producerId: i64, epoch: i16, commit: bool, now: i64, durable: bool)
        returns (ok: bool)
      requires Valid()
      modifies this, partitions.Values
      ensures Valid() && ok == durable
      ensures forall q :: q in partitions.Values ==> q in old(partitions.Values) || fresh(q)
      ensures var s := Part(old(Abstract()), tp);
              Abstract() == old(Abstract())[tp := Marked(s, producerId, epoch, commit, now, durable)]
    {
      hide Marked, Valid, Abstract;
      ghost var objects := partitions.Values;
      var p := GetOrCreatePartition(tp);
      assert tp in old(partitions) ==> p in objects;
      ok := MarkOn(tp, producerId, epoch, commit, now, durable);
    }

    method MarkOn(tp: TopicPartition, producerId: i64, epoch: i16, commit: bool, now: i64, durable: bool)
        returns (ok: bool)
      requires Valid() && tp in partitions
      modifies partitions[tp]
      ensures Valid() && ok == durable
      ensures Abstract() == old(Abstract())[tp := Marked(old(Abstract())[tp], producerId, epoch, commit, now, durable)]
    {
      hide Marked, Valid;
      ghost var before := Abstract();
      ok := EndPartition(partitions[tp], producerId, epoch, commit, now, durable);
      forall t | t in partitions && t != tp
        ensures partitions[t].Abstract() == before[t]
      {
        Apart(t, tp);
      }
    }

    lemma Apart(a: TopicPartition, b: TopicPartition)
      requires Valid() && a in partitions && b in partitions && a != b
      ensures partitions[a] != partitions[b]
    {
    }

    /** The end loop, in any order, up to the first marker that is refused. */
    method EndOnAll(tps: set<TopicPartition>, producerId: i64, epoch: i16, commit: bool, clock: TopicPartition -> i64,
                    failing: set<TopicPartition>)
      returns (ok: bool, ghost done: set<TopicPartition>, ghost failed: TopicPartition)
      requires Valid()
      modifies this, partitions.Values
      ensures Valid() && ok == (tps * failing == {})
      ensures if ok then Abstract() == EndedAll(old(Abstract()), tps, producerId, epoch, commit, clock)
              else done < tps && done * failing == {} && failed in tps * failing &&
                   Abstract() == EndedSome(old(Abstract()), done, failed, producerId, epoch, commit, clock)
    {
      hide Ended, Append, Marker, Valid, Abstract, EndedAll, Part;
      var left := tps;
      done, failed := {}, TopicPartition("", 0);
      ghost var before := Abstract();
      EndedNone(before, producerId, epoch, commit, clock);
      while left != {}
        invariant left <= tps && done == tps - left && done * failing == {} && Valid()
        invariant forall q :: q in partitions.Values ==> q in old(partitions.Values) || fresh(q)
        invariant Abstract() == EndedAll(before, done, producerId, epoch, commit, clock)
        decreases left
      {
        var tp :| tp in left;
        PartUntouched(before, done, tp, producerId, epoch, commit, clock);
        ok := EndOn(tp, producerId, epoch, commit, clock(tp), tp !in failing);
        if !ok {
          failed := tp;
          return;
        }
        EndedOneMore(before, done, tp, producerId, epoch, commit, clock);
        done := done + {tp};
        left := left - {tp};
      }
      assert done == tps;
      ok := true;
    }
  }

  /** A partition on which the end wrote its marker, or tried to. */
  function Marked(s: State, producerId: i64, epoch: i16, commit: bool, now: i64, durable: bool): State {
    if durable then Ended(s, producerId, epoch, commit, now)
    else Append(s, Marker(producerId, epoch, commit, now), false)
  }

  /** The marker is encoded and appended and, once durable, the producer closed. */
  method EndPartition(p: Partition, producerId: i64, epoch: i16, commit: bool, now: i64, durable: bool)
      returns (ok: bool)
    modifies p
    ensures ok == durable && p.Abstract() == Marked(old(p.Abstract()), producerId, epoch, commit, now, durable)
  {
    hide Append, Walkable, P.ControlBatch;
    MarkerIsWalkable(producerId, epoch, commit, now);
    var marker := P.EncodeControlBatch(0, producerId, epoch, commit, now);
    var base := p.AppendRecords(marker, durable);
    if base.Err? { return false; }
    if commit {
      p.CompleteTxn(producerId);
    } else {
      p.RecordAbortedTxn(producerId, base.value);
    }
    return true;
  }

  lemma MarkerIsWalkable(producerId: i64, epoch: i16, commit: bool, now: i64)
    ensures var m := Marker(producerId, epoch, commit, now);
            Walkable(m, 0, PATCHED_HEADER) && |m| < 0x8000_0000_0000_0000
  {
    hide P.Assemble, Length;
    var m := Marker(producerId, epoch, commit, now);
    P.MarkerPayload(commit);
    var f := P.Fields(P.CONTROL_ATTRIBUTES, 0, now, now, producerId, epoch, -1, 1);
    var payload := R.EncodeRecords([P.MarkerRecord(commit)]);
    P.AssembledIsBatch(0, f, payload);
    P.AssembledFields(0, f, payload);
    var none: seq<bytes> := [];
    assert [m][1..] == none && Join(none) == [] && m + [] == m && Join([m]) + [] == m;
    assert IsBatch(m, PATCHED_HEADER);
    WalkableIffTailStops([m], [], 0, PATCHED_HEADER);
  }

  class TransactionCoordinator {
    var transactions: Metas
    var nextProducerId: i64

    constructor ()
      ensures transactions == map[] && nextProducerId == 1000
    {
      transactions := map[];
      nextProducerId := 1000;
    }

    method InitProducerId(txn: Option<string>, timeout: i32) returns (producerId: i64, epoch: i16)
      modifies this
      ensures (transactions, nextProducerId, producerId, epoch)
           == Init(old(transactions), old(nextProducerId), txn, timeout)
    {
      if txn.None? {
        producerId, epoch := nextProducerId, 0;
        nextProducerId := WrapI64(nextProducerId + 1);
      } else if txn.value in transactions {
        var meta := transactions[txn.value];
        meta := meta.(epoch := WrapI16(meta.epoch + 1), partitions := {}, phase := Empty);
        transactions := transactions[txn.value := meta];
        producerId, epoch := meta.producerId, meta.epoch;
      } else {
        producerId, epoch := nextProducerId, 0;
        nextProducerId := WrapI64(nextProducerId + 1);
        transactions := transactions[
          txn.value := Metadata(producerId, 0, if timeout <= 0 then 60000 else timeout, Empty, {})];
      }
    }

    method AddPartitionsToTxn(txn: string, producerId: i64, epoch: i16, tps: seq<TopicPartition>)
      returns (r: ErrorCode)
      modifies this
      ensures r == Check(old(transactions), txn, producerId, epoch)
      ensures nextProducerId == old(nextProducerId)
      ensures transactions == AddPartitions(old(transactions), txn, producerId, epoch, tps)
    {
      if txn !in transactions { return InvalidProducerIdMapping; }
      var meta := transactions[txn];
      if meta.producerId != producerId { return InvalidProducerIdMapping; }
      if epoch < meta.epoch { return ProducerFenced; }
      if epoch > meta.epoch { return InvalidProducerEpoch; }
      var partitions := meta.partitions;
      for i := 0 to |tps|
        invariant partitions == meta.partitions + set tp | tp in tps[..i]
      {
        partitions := partitions + {tps[i]};
        assert tps[..i + 1] == tps[..i] + [tps[i]];
      }
      assert tps[..|tps|] == tps;
      transactions := transactions[txn := meta.(phase := Ongoing, partitions := partitions)];
      return NoError;
    }

    method AddOffsetsToTxn(txn: string, producerId: i64, epoch: i16) returns (r: ErrorCode)
      ensures r == Check(transactions, txn, producerId, epoch)
    {
      if txn !in transactions { return InvalidProducerIdMapping; }
      var meta := transactions[txn];
      if meta.producerId != producerId { return InvalidProducerIdMapping; }
      if epoch < meta.epoch { return ProducerFenced; }
      if epoch > meta.epoch { return InvalidProducerEpoch; }
      return NoError;
    }

    /**
     * Ends a transaction. The registered partitions are visited in any order; `failing` are those
     * whose write-ahead log refuses the marker.
     */
    method EndTxn(txn: string, producerId: i64, epoch: i16, commit: bool, cluster: ClusterState,
                  clock: TopicPartition -> i64, failing: set<TopicPartition>)
      returns (r: ErrorCode, ghost done: set<TopicPartition>, ghost failed: TopicPartition)
      requires cluster.Valid()
      modifies this, cluster, cluster.partitions.Values
      ensures cluster.Valid() && nextProducerId == old(nextProducerId)
      ensures var check := Check(old(transactions), txn, producerId, epoch);
              if check != NoError then
                r == check && transactions == old(transactions) && cluster.Abstract() == old(cluster.Abstract())
              else
                var meta := old(transactions)[txn];
                transactions.Keys == old(transactions).Keys &&
                (forall t :: t in transactions && t != txn ==> transactions[t] == old(transactions)[t]) &&
                if meta.partitions * failing == {} then
                  r == NoError && transactions[txn] == meta.(phase := Empty, partitions := {}) &&
                  cluster.Abstract()
                  == EndedAll(old(cluster.Abstract()), meta.partitions, producerId, epoch, commit, clock)
                else
                  r == UnknownServer && done < meta.partitions && done * failing == {} &&
                    failed in meta.partitions * failing &&
                  transactions[txn] == meta.(phase := if commit
                    then PrepareCommit else PrepareAbort, partitions := {}) &&
                  cluster.Abstract()
                  == EndedSome(old(cluster.Abstract()), done, failed, producerId, epoch, commit, clock)
    {
      hide EndedAll, EndedSome, ClusterState.Valid, ClusterState.Abstract;
      done, failed := {}, TopicPartition("", 0);
      if txn !in transactions { return InvalidProducerIdMapping, done, failed; }
      var meta := transactions[txn];
      if meta.producerId != producerId { return InvalidProducerIdMapping, done, failed; }
      if epoch < meta.epoch { return ProducerFenced, done, failed; }
      if epoch > meta.epoch { return InvalidProducerEpoch, done, failed; }
      var left := meta.partitions;
      meta := meta.(phase := if commit then PrepareCommit else PrepareAbort, partitions := {});
      transactions := transactions[txn := meta];
      var ok;
      ok, done, failed := cluster.EndOnAll(left, producerId, epoch, commit, clock, failing);
      if !ok { return UnknownServer, done, failed; }
      transactions := transactions[txn := meta.(phase := Empty)];
      return NoError, done, failed;
    }
  }

  function Init(metas: Metas, nextId: i64, txn: Option<string>, timeout: i32): (Metas, i64, i64, i16) {
    if txn.None? then (metas, WrapI64(nextId + 1), nextId, 0)
    else if txn.value in metas then
      var meta := metas[txn.value];
      var epoch := WrapI16(meta.epoch + 1);
      (metas[txn.value := meta.(epoch := epoch, partitions := {}, phase := Empty)], nextId, meta.producerId, epoch)
    else
      (metas[txn.value := Metadata(nextId, 0, if timeout <= 0 then 60000 else timeout, Empty, {})],
       WrapI64(nextId + 1), nextId, 0)
  }

  function AddPartitions(metas: Metas, txn: string, producerId: i64, epoch: i16, tps: seq<TopicPartition>): Metas {
    if Check(metas, txn, producerId, epoch) == NoError then
      var meta := metas[txn];
      metas[txn := meta.(phase := Ongoing, partitions := meta.partitions + set tp | tp in tps)]
    else metas
  }

  lemma PartUntouched(cluster: Cluster, done: set<TopicPartition>, tp: TopicPartition, producerId: i64, epoch: i16,
                      commit: bool, clock: TopicPartition -> i64)
    requires tp !in done
    ensures Part(EndedAll(cluster, done, producerId, epoch, commit, clock), tp) == Part(cluster, tp)
  {
    hide Ended;
  }

  lemma EndedNone(cluster: Cluster, producerId: i64, epoch: i16, commit: bool, clock: TopicPartition -> i64)
    ensures EndedAll(cluster, {}, producerId, epoch, commit, clock) == cluster
  {
    hide Ended;
  }

  lemma EndedOneMore(cluster: Cluster, done: set<TopicPartition>, tp: TopicPartition, producerId: i64, epoch: i16,
                     commit: bool, clock: TopicPartition -> i64)
    requires tp !in done
    ensures EndedAll(cluster, done, producerId, epoch, commit, clock)
              [tp := Ended(Part(cluster, tp), producerId, epoch, commit, clock(tp))]
         == EndedAll(cluster, done + {tp}, producerId, epoch, commit, clock)
  {
    hide Ended;
  }
}
