/** Each partition of a broker run is a partition run, so what holds of those holds of the whole broker. */
module BrokerRuns {
  import opened Bytes
  import opened Names
  import opened Patch
  import opened PartitionLog
  import opened Transactions
  import opened TransactionRuns
  import Runs = PartitionRuns

  /** No append of the call runs past the last 63-bit offset. */
  ghost predicate HasRoomFor(b: Broker, call: Call) {
    match call
    case ProduceTo(tp, records, _) => HasRoom(Part(b.cluster, tp), records)
    case ProduceIdempotentTo(tp, _, _, _, records, _) => HasRoom(Part(b.cluster, tp), records)
    case End(txn, _, _, _) =>
      txn in b.metas ==> forall tp :: tp in b.metas[txn].partitions ==> Part(b.cluster, tp).next < I64_MAX
    case _ => true
  }

  ghost predicate ReachesInRoom(calls: seq<Call>, c: Broker)
    decreases |calls|
  {
    if calls == [] then c == TransactionRuns.START
    else
      var n := |calls| - 1;
      exists b :: ReachesInRoom(calls[..n], b) && HasRoomFor(b, calls[n]) && Next(b, calls[n], c)
  }

  /** A history of one partition that ends in a state. */
  ghost predicate History(events: seq<Runs.Event>, t: Runs.Traced, s: State) { Runs.Reaches(events, t) && t.state == s }

  /** The same, and if `laid`, all its transactional batches hold issued producer ids where the format puts them. */
  ghost predicate Laid(laid: bool, events: seq<Runs.Event>, t: Runs.Traced) {
    Runs.Reaches(events, t) && (laid ==> Runs.ReachesLaidOut(events, t))
  }

  lemma Extend(events: seq<Runs.Event>, t: Runs.Traced, e: Runs.Event)
    requires Runs.Reaches(events, t) && Runs.Fits(t, e)
    ensures |t.status| == |t.state.log| && Runs.Reaches(events + [e], Runs.Step(t, e))
  {
    hide Runs.Step, Runs.Fits, Runs.Inv;
    Runs.ReachableInv(events, t);
    Runs.InvFacts(t);
    var all := events + [e];
    assert all[..|all| - 1] == events && all[|all| - 1] == e;
  }

  lemma ExtendLaid(laid: bool, events: seq<Runs.Event>, t: Runs.Traced, e: Runs.Event)
    requires Laid(laid, events, t) && Runs.Fits(t, e) && (laid ==> Runs.LaidOut(t, e))
    ensures |t.status| == |t.state.log| && Laid(laid, events + [e], Runs.Step(t, e))
  {
    hide Runs.Step, Runs.Fits, Runs.LaidOut, Runs.Reaches;
    Extend(events, t, e);
    var all := events + [e];
    assert all[..|all| - 1] == events && all[|all| - 1] == e;
  }

  lemma MarkerIsLaidOut(s: State, producerId: i64, epoch: i16, commit: bool, now: i64)
    ensures Runs.LaidOutData(PatchRecords(Marker(producerId, epoch, commit, now), s.next).0)
  {
    hide PatchRecords, Marker, IsTransactional, TxnKey;
    PatchedMarker(s.next, producerId, epoch, commit, now);
  }

  /** An end on one partition is its marker produced, then a commit or a rollback. */
  function EndEvents(s: State, producerId: i64, epoch: i16, commit: bool, now: i64): seq<Runs.Event> {
    [Runs.Produce(Marker(producerId, epoch, commit, now), true),
     if commit then Runs.Commit(producerId) else Runs.Rollback(producerId, s.next)]
  }

  lemma EndIsARun(laid: bool, events: seq<Runs.Event>, t: Runs.Traced, producerId: i64, epoch: i16, commit: bool,
      now: i64)
    returns (u: Runs.Traced)
    requires Laid(laid, events, t) && t.state.next < I64_MAX && (laid ==> Runs.Issued(producerId))
    ensures Laid(laid, events + EndEvents(t.state, producerId, epoch, commit, now), u)
    ensures u.state == Ended(t.state, producerId, epoch, commit, now)
  {
    hide Append, Marker, Laid, Runs.Closed, Reserved, Runs.LaidOutData, PatchRecords;
    var es := EndEvents(t.state, producerId, epoch, commit, now);
    MarkerNotRegistered(t.state, producerId, epoch, commit, now);
    MarkerIsLaidOut(t.state, producerId, epoch, commit, now);
    ExtendLaid(laid, events, t, es[0]);
    var m := Runs.Step(t, es[0]);
    ExtendLaid(laid, events + [es[0]], m, es[1]);
    u := Runs.Step(m, es[1]);
    assert events + [es[0]] + [es[1]] == events + es;
  }

  lemma RefusedIsARun(laid: bool, events: seq<Runs.Event>, t: Runs.Traced, producerId: i64, epoch: i16, commit: bool,
      now: i64)
    returns (e: Runs.Event, u: Runs.Traced)
    requires Laid(laid, events, t) && t.state.next < I64_MAX
    ensures e == Runs.Produce(Marker(producerId, epoch, commit, now), false)
    ensures Laid(laid, events + [e], u) && u.state == Append(t.state, Marker(producerId, epoch, commit, now), false)
  {
    hide Append, Marker, Laid, Reserved, Runs.LaidOutData, PatchRecords;
    e := Runs.Produce(Marker(producerId, epoch, commit, now), false);
    MarkerNotRegistered(t.state, producerId, epoch, commit, now);
    MarkerIsLaidOut(t.state, producerId, epoch, commit, now);
    ExtendLaid(laid, events, t, e);
    u := Runs.Step(t, e);
  }

  /** What an end adds to one partition: its end, its refused marker, or nothing, as the call turned out. */
  ghost predicate EndAdds(b: Broker, meta: Metadata, epoch: i16, commit: bool, c: Broker, tp: TopicPartition,
                          more: seq<Runs.Event>)
  {
    || (exists clock ::
          && c.cluster == EndedAll(b.cluster, meta.partitions, meta.producerId, epoch, commit, clock)
          && more == (if tp in meta.partitions
                      then EndEvents(Part(b.cluster, tp), meta.producerId, epoch, commit, clock(tp)) else []))
    || (exists done, failed, clock ::
          && done < meta.partitions && failed in meta.partitions - done
          && c.cluster == EndedSome(b.cluster, done, failed, meta.producerId, epoch, commit, clock)
          && more == (if tp == failed then [Runs.Produce(Marker(meta.producerId, epoch, commit, clock(tp)), false)]
                      else if tp in done
                      then EndEvents(Part(b.cluster, tp), meta.producerId, epoch, commit, clock(tp)) else []))
  }

  /** What a call adds to one partition's history: a produce to it, its part in an end, and nothing otherwise. */
  ghost predicate Adds(b: Broker, call: Call, c: Broker, tp: TopicPartition, more: seq<Runs.Event>) {
    match call
    case ProduceTo(p, records, durable) => more == if p == tp then [Runs.Produce(records, durable)] else []
    case ProduceIdempotentTo(p, id, epoch, sequence, records, durable) =>
      more == if p == tp then [Runs.ProduceIdempotent(id, epoch, sequence, records, durable)] else []
    case End(txn, producerId, epoch, commit) =>
      if Check(b.metas, txn, producerId, epoch) == NoError then EndAdds(b, b.metas[txn], epoch, commit, c, tp, more)
      else more == []
    case _ => more == []
  }

  /** A call that writes transactional batches only as the format says, and ends only transactions of issued ids. */
  ghost predicate CallLaidOut(b: Broker, call: Call) {
    match call
    case ProduceTo(tp, records, _) => Runs.LaidOutData(PatchRecords(records, Part(b.cluster, tp).next).0)
    case ProduceIdempotentTo(tp, _, _, _, records, _) =>
      Runs.LaidOutData(PatchRecords(records, Part(b.cluster, tp).next).0)
    case End(txn, _, _, _) => txn in b.metas ==> Runs.Issued(b.metas[txn].producerId)
    case _ => true
  }

  /** What one call of the broker adds to the history of one partition. */
  lemma CallIsARun(laid: bool, b: Broker, call: Call, c: Broker, tp: TopicPartition, events: seq<Runs.Event>,
      t: Runs.Traced)
    returns (more: seq<Runs.Event>, u: Runs.Traced)
    requires Next(b, call, c) && HasRoomFor(b, call) && (laid ==> CallLaidOut(b, call))
    requires Laid(laid, events, t) && t.state == Part(b.cluster, tp)
    ensures Laid(laid, events + more, u) && u.state == Part(c.cluster, tp) && Adds(b, call, c, tp, more)
  {
    hide EndAdds, Laid, Append, AppendIdempotent, EndNext, Init, AddPartitions, HasRoom, PatchRecords, Runs.LaidOutData;
    more, u := [], t;
    assert events + [] == events;
    if call.ProduceTo? && call.tp == tp {
      var e := Runs.Produce(call.records, call.durable);
      ExtendLaid(laid, events, t, e);
      more, u := [e], Runs.Step(t, e);
    } else if call.ProduceIdempotentTo? && call.tp == tp {
      var e := Runs.ProduceIdempotent(call.id, call.epoch, call.sequence, call.records, call.durable);
      ExtendLaid(laid, events, t, e);
      more, u := [e], Runs.Step(t, e);
      IdempotentStep(t, e);
    } else if call.End? && Check(b.metas, call.txn, call.producerId, call.epoch) == NoError {
      more, u := EndCallIsARun(laid, b, call, c, tp, events, t);
    }
  }

  lemma IdempotentStep(t: Runs.Traced, e: Runs.Event)
    requires e.ProduceIdempotent? && |t.status| == |t.state.log|
    ensures Runs.Step(t, e).state == AppendIdempotent(t.state, e.id, e.epoch, e.sequence, e.records, e.durable)
  {
    hide Append;
  }

  lemma EndCallIsARun(laid: bool, b: Broker, call: Call, c: Broker, tp: TopicPartition, events: seq<Runs.Event>,
                      t: Runs.Traced)
    returns (more: seq<Runs.Event>, u: Runs.Traced)
    requires call.End? && call.txn in b.metas && EndNext(b, call.txn, call.epoch, call.commit, c)
    requires HasRoomFor(b, call) && (laid ==> CallLaidOut(b, call)) && Laid(laid, events, t) &&
             t.state == Part(b.cluster, tp)
    ensures Laid(laid, events + more, u) && u.state == Part(c.cluster, tp)
    ensures EndAdds(b, b.metas[call.txn], call.epoch, call.commit, c, tp, more)
  {
    hide Laid, Append, Ended, Marker, EndEvents;
    var meta := b.metas[call.txn];
    more, u := [], t;
    assert events + [] == events;
    if EndSucceeds(b, meta, call.txn, call.epoch, call.commit, c) {
      var clock :| c.cluster == EndedAll(b.cluster, meta.partitions, meta.producerId, call.epoch, call.commit, clock);
      if tp in meta.partitions {
        u := EndIsARun(laid, events, t, meta.producerId, call.epoch, call.commit, clock(tp));
        more := EndEvents(t.state, meta.producerId, call.epoch, call.commit, clock(tp));
      }
    } else {
      var done, failed, clock :|
        done < meta.partitions && failed in meta.partitions - done &&
        c.cluster == EndedSome(b.cluster, done, failed, meta.producerId, call.epoch, call.commit, clock);
      if tp == failed {
        var e, v := RefusedIsARun(laid, events, t, meta.producerId, call.epoch, call.commit, clock(tp));
        more, u := [e], v;
      } else if tp in done {
        u := EndIsARun(laid, events, t, meta.producerId, call.epoch, call.commit, clock(tp));
        more := EndEvents(t.state, meta.producerId, call.epoch, call.commit, clock(tp));
      }
    }
  }

  /** `events` is what the calls of a run that ends in `c` did to one partition, call by call. */
  ghost predicate Projects(calls: seq<Call>, c: Broker, tp: TopicPartition, events: seq<Runs.Event>)
    decreases |calls|
  {
    if calls == [] then c == TransactionRuns.START && events == []
    else
      var n := |calls| - 1;
      exists b, before, more ::
        Projects(calls[..n], b, tp, before) && HasRoomFor(b, calls[n]) && Next(b, calls[n], c) &&
        Adds(b, calls[n], c, tp, more) && events == before + more
  }

  /** Every partition of a broker that a run reaches has the history that the run's calls gave it. */
  lemma {:induction false} PartitionsHaveHistories(calls: seq<Call>, c: Broker, tp: TopicPartition)
    returns (events: seq<Runs.Event>, t: Runs.Traced)
    requires ReachesInRoom(calls, c)
    ensures History(events, t, Part(c.cluster, tp)) && Projects(calls, c, tp, events)
    decreases |calls|
  {
    hide Adds, Next, HasRoomFor, CallLaidOut, Runs.Reaches, Runs.ReachesLaidOut;
    if calls == [] {
      events, t := [], Runs.START;
      EmptyHistory();
    } else {
      var n := |calls| - 1;
      var b :| ReachesInRoom(calls[..n], b) && HasRoomFor(b, calls[n]) && Next(b, calls[n], c);
      var before, u := PartitionsHaveHistories(calls[..n], b, tp);
      var more, v := CallIsARun(false, b, calls[n], c, tp, before, u);
      events, t := before + more, v;
    }
  }

  /** The same of runs whose calls are all laid out as the format says. */
  ghost predicate ReachesLaidOut(calls: seq<Call>, c: Broker)
    decreases |calls|
  {
    if calls == [] then c == TransactionRuns.START
    else
      var n := |calls| - 1;
      exists b :: ReachesLaidOut(calls[..n], b) && HasRoomFor(b, calls[n]) && CallLaidOut(b, calls[n]) &&
          Next(b, calls[n], c)
  }

  lemma {:induction false} LaidOutHistories(calls: seq<Call>, c: Broker, tp: TopicPartition)
    returns (events: seq<Runs.Event>, t: Runs.Traced)
    requires ReachesLaidOut(calls, c)
    ensures Laid(true, events, t) && t.state == Part(c.cluster, tp)
    decreases |calls|
  {
    hide Adds, Next, HasRoomFor, CallLaidOut, Laid;
    if calls == [] {
      events, t := [], Runs.START;
      EmptyHistory();
    } else {
      var n := |calls| - 1;
      var b :| ReachesLaidOut(calls[..n], b) && HasRoomFor(b, calls[n]) && CallLaidOut(b, calls[n]) &&
          Next(b, calls[n], c);
      var before, u := LaidOutHistories(calls[..n], b, tp);
      var more, v := CallIsARun(true, b, calls[n], c, tp, before, u);
      events, t := before + more, v;
    }
  }

  /**
   * Over the whole broker: while fewer than 2^32 ids were issued and producers lay out their batches as the format
   * says, no transactional entry of any partition, committed or not, is ever delivered to a read-committed consumer,
   * nor is any version 2 entry behind it.
   */
  lemma NoTransactionIsEverDelivered(calls: seq<Call>, c: Broker, tp: TopicPartition, i: nat, j: nat)
    requires ReachesLaidOut(calls, c) && i <= j < |Part(c.cluster, tp).log| &&
             InTransaction(Part(c.cluster, tp).log[i].data)
    ensures var s := Part(c.cluster, tp);
            Lso(s) <= s.log[i].offset && (IsV2(s.log[j].data) ==> !Runs.Visible(s, s.log[j]))
  {
    hide ReachesLaidOut, Runs.Reaches, Runs.ReachesLaidOut, InTransaction, Runs.Visible;
    var events, t := LaidOutHistories(calls, c, tp);
    Runs.CommittedButNeverDelivered(events, t, i, j);
  }

  lemma EmptyHistory()
    ensures History([], Runs.START, EMPTY) && Laid(true, [], Runs.START)
  {
  }

  /**
   * Over the whole broker, coordinator and partitions together: a read-committed fetch delivers an entry of any
   * partition exactly when its history on that partition says so.
   */
  lemma ReadCommittedOnBroker(calls: seq<Call>, c: Broker, tp: TopicPartition, i: nat)
    returns (events: seq<Runs.Event>, t: Runs.Traced)
    requires ReachesInRoom(calls, c) && i < |Part(c.cluster, tp).log|
    ensures History(events, t, Part(c.cluster, tp)) && Projects(calls, c, tp, events) && |t.status| == |t.state.log|
    ensures var s := Part(c.cluster, tp);
            var e := s.log[i];
            if IsV2(e.data) then
              Runs.Visible(s, e) <==>
                && !IsControl(e.data) && !t.status[i].Open? && !t.status[i].Aborted? && e.offset < Lso(s)
                && !(IsTransactional(e.data) && IsAborted(s.aborted, TxnKey(e.data)))
            else Runs.Visible(s, e)
  {
    hide ReachesInRoom, Projects, Runs.Reaches, Runs.Visible, TxnKey;
    events, t := PartitionsHaveHistories(calls, c, tp);
    Runs.ReadCommitted(events, t, i);
  }

  lemma {:induction false} SameHistorySameState(events: seq<Runs.Event>, t: Runs.Traced, u: Runs.Traced)
    requires Runs.Reaches(events, t) && Runs.Reaches(events, u)
    ensures t == u
    decreases |events|
  {
    hide Runs.Step, Runs.Fits;
    if events != [] {
      var n := |events| - 1;
      var v :| Runs.Reaches(events[..n], v) && |v.status| == |v.state.log| && Runs.Fits(v, events[n]) &&
               t == Runs.Step(v, events[n]);
      var w :| Runs.Reaches(events[..n], w) && |w.status| == |w.state.log| && Runs.Fits(w, events[n]) &&
               u == Runs.Step(w, events[n]);
      SameHistorySameState(events[..n], v, w);
    }
  }

  lemma {:induction false} RisesOver(events: seq<Runs.Event>, more: seq<Runs.Event>, t: Runs.Traced, u: Runs.Traced)
    requires Runs.Reaches(events, t) && Runs.Reaches(events + more, u)
    ensures Lso(t.state) <= Lso(u.state) <= u.state.next && t.state.next <= u.state.next
    decreases |more|
  {
    hide Runs.Step, Runs.Fits;
    var all := events + more;
    if more == [] {
      assert all == events;
      SameHistorySameState(events, t, u);
    } else {
      var n := |all| - 1;
      var v :| Runs.Reaches(all[..n], v) && |v.status| == |v.state.log| && Runs.Fits(v, all[n]) &&
          u == Runs.Step(v, all[n]);
      assert all[..n] == events + more[..|more| - 1];
      RisesOver(events, more[..|more| - 1], t, v);
      Runs.WatermarkLaw(all[..n], v, all[n]);
    }
  }

  /** Over every call of the broker no partition's last stable offset or high watermark falls. */
  lemma WatermarkOnBroker(calls: seq<Call>, b: Broker, call: Call, c: Broker, tp: TopicPartition)
    requires ReachesInRoom(calls, b) && HasRoomFor(b, call) && Next(b, call, c)
    ensures var s, u := Part(b.cluster, tp), Part(c.cluster, tp);
            Lso(s) <= Lso(u) <= u.next && s.next <= u.next
  {
    hide ReachesInRoom, Projects, Adds, Runs.Reaches, Next, HasRoomFor, CallLaidOut;
    var events, t := PartitionsHaveHistories(calls, b, tp);
    var more, u := CallIsARun(false, b, call, c, tp, events, t);
    RisesOver(events, more, t, u);
  }

  // ---------- what an end does to what was written ----------

  /** No call of the broker takes an id off a partition's aborted list. */
  lemma AbortedGrows(b: Broker, call: Call, c: Broker, tp: TopicPartition)
    requires Next(b, call, c)
    ensures Part(b.cluster, tp).aborted <= Part(c.cluster, tp).aborted
  {
    hide Append, AppendIdempotent, EndNext, Init, AddPartitions;
    if call.ProduceIdempotentTo? { IdempotentAborts(Part(b.cluster, call.tp), call); }
    if call.End? && Check(b.metas, call.txn, call.producerId, call.epoch) == NoError {
      EndAborts(b, call.txn, call.epoch, call.commit, c, tp);
    }
  }

  lemma IdempotentAborts(s: State, call: Call)
    requires call.ProduceIdempotentTo?
    ensures AppendIdempotent(s, call.id, call.epoch, call.sequence, call.records, call.durable).aborted == s.aborted
  {
    hide Append;
  }

  lemma EndAborts(b: Broker, txn: string, epoch: i16, commit: bool, c: Broker, tp: TopicPartition)
    requires txn in b.metas && EndNext(b, txn, epoch, commit, c)
    ensures Part(b.cluster, tp).aborted <= Part(c.cluster, tp).aborted
  {
    hide Append, Marker;
  }

  lemma {:induction false} AbortedForEver(b: Broker, calls: seq<Call>, c: Broker, tp: TopicPartition)
    requires TransactionRuns.Reaches(b, calls, c)
    ensures Part(b.cluster, tp).aborted <= Part(c.cluster, tp).aborted
    decreases |calls|
  {
    hide Next;
    if calls != [] {
      var m :| Next(b, calls[0], m) && TransactionRuns.Reaches(m, calls[1..], c);
      AbortedGrows(b, calls[0], m, tp);
      AbortedForEver(m, calls[1..], c, tp);
    }
  }

  /**
   * Once an end call has rolled a transaction back, no transactional entry of its id on a registered partition is
   * delivered read-committed, then or after any later calls, whether written before or after.
   */
  lemma RolledBackIsHidden(b: Broker, txn: string, epoch: i16, c: Broker, calls: seq<Call>, d: Broker,
      tp: TopicPartition,
                           e: Entry)
    requires txn in b.metas && EndSucceeds(b, b.metas[txn], txn, epoch, false, c) && tp in b.metas[txn].partitions
    requires TransactionRuns.Reaches(c, calls, d)
    requires IsV2(e.data) && IsTransactional(e.data) && TxnKey(e.data) == b.metas[txn].producerId
    ensures !Runs.Visible(Part(d.cluster, tp), e)
  {
    hide Append, Marker, TransactionRuns.Reaches, IsTransactional, TxnKey;
    var meta := b.metas[txn];
    var clock :| c.cluster == EndedAll(b.cluster, meta.partitions, meta.producerId, epoch, false, clock);
    var s, u := Part(b.cluster, tp), Part(c.cluster, tp);
    assert u == Ended(s, meta.producerId, epoch, false, clock(tp));
    assert u.aborted[|s.aborted|].0 == meta.producerId;
    AbortedForEver(c, calls, d, tp);
    Runs.AbortedStays(u.aborted, Part(d.cluster, tp).aborted, meta.producerId);
  }
}
