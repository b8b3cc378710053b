/** Every run of one partition: isolation, watermarks and exactly-once appends. */
module PartitionRuns {
  import opened Bytes
  import opened Batches
  import opened Patch
  import opened PartitionLog

  datatype Event =
    | Produce(records: bytes, durable: bool)
    | ProduceIdempotent(id: i64, epoch: i16, sequence: i32, records: bytes, durable: bool)
    | Commit(id: i64)
    | Rollback(id: i64, fallback: i64)

  /** What became of a log entry: `Open` until its id is committed or rolled back on the partition. */
  datatype Status = Unmarked | Open | Committed | Aborted

  /** Offsets reserved by one append, and whether the entry was stored. */
  datatype Span = Span(start: int, end: int, stored: bool)

  /** The partition with its history: a status per log entry, the reservations, the accepted sequence numbers. */
  datatype Traced = Traced(state: State, status: seq<Status>, spans: seq<Span>, accepted: seq<(i64, Accepted)>)

  const START: Traced := Traced(EMPTY, [], [], [])

  // ---------- runs ----------

  /** An open entry of the id. */
  predicate Closes(status: Status, data: bytes, id: i64) { status.Open? && InTransaction(data) && TxnKey(data) == id }

  function Closed(t: Traced, id: i64, outcome: Status): (status: seq<Status>)
    requires |t.status| == |t.state.log|
    ensures |status| == |t.status|
    ensures forall i :: 0 <= i < |status| ==>
              status[i] == if Closes(t.status[i], t.state.log[i].data, id) then outcome else t.status[i]
  {
    seq(|t.status|, i requires 0 <= i < |t.status| =>
      if Closes(t.status[i], t.state.log[i].data, id) then outcome else t.status[i])
  }

  function Appending(t: Traced, records: bytes, durable: bool): Traced {
    var data := PatchRecords(records, t.state.next).0;
    Traced(Append(t.state, records, durable),
           if durable then t.status + [if InTransaction(data) then Open else Unmarked] else t.status,
           t.spans + [Span(t.state.next, t.state.next + Reserved(t.state, records), durable)],
           t.accepted)
  }

  function Step(t: Traced, e: Event): Traced
    requires |t.status| == |t.state.log|
  {
    match e
    case Produce(records, durable) => Appending(t, records, durable)
    case ProduceIdempotent(id, epoch, sequence, records, durable) =>
      var state := AppendIdempotent(t.state, id, epoch, sequence, records, durable);
      (match IdempotentOutcome(t.state, id, epoch, sequence, durable)
       case Appended(offset) =>
         Appending(t, records, true)
           .(state := state, accepted := t.accepted + [(id, Accepted(epoch, sequence, offset))])
       case NotDurable => Appending(t, records, false)
       case _ => t)
    case Commit(id) => t.(state := Complete(t.state, id), status := Closed(t, id, Committed))
    case Rollback(id, fallback) => t.(state := Abort(t.state, id, fallback), status := Closed(t, id, Aborted))
  }

  /** The event does not run past the last 63-bit offset. */
  predicate Fits(t: Traced, e: Event) {
    (e.Produce? || e.ProduceIdempotent?) ==> HasRoom(t.state, e.records)
  }

  /** `t` is reached by `events`. */
  ghost predicate Reaches(events: seq<Event>, t: Traced)
    decreases |events|
  {
    if events == [] then t == START
    else
      var n := |events| - 1;
      exists u ::
        Reaches(events[..n], u) && |u.status| == |u.state.log| && Fits(u, events[n]) && t == Step(u, events[n])
  }

  // ---------- the invariant ----------

  ghost predicate StatusInv(t: Traced) {
    && |t.status| == |t.state.log|
    && forall i :: 0 <= i < |t.status| ==> EntryInv(t.state, t.state.log[i], t.status[i])
  }

  ghost predicate EntryInv(s: State, e: Entry, status: Status) {
    && (status.Unmarked? <==> !InTransaction(e.data))
    && (status.Open? ==> TxnKey(e.data) in s.ongoing && s.ongoing[TxnKey(e.data)] <= e.offset)
    && (status.Aborted? ==> IsAborted(s.aborted, TxnKey(e.data)))
    && 0 <= e.offset < s.next
  }

  ghost predicate OngoingInv(s: State) {
    0 <= s.next && forall id :: id in s.ongoing ==> 0 <= s.ongoing[id] <= s.next
  }

  lemma RegisterKeeps(s: State, data: bytes)
    ensures forall id :: id in s.ongoing ==> id in Register(s, data) && Register(s, data)[id] == s.ongoing[id]
    ensures forall id :: id in Register(s, data) && id !in s.ongoing ==> Register(s, data)[id] == s.next
    ensures InTransaction(data) ==> TxnKey(data) in Register(s, data)
  {
    hide InTransaction, TxnKey;
  }

  lemma AppendKeepsStatus(t: Traced, records: bytes, durable: bool)
    requires StatusInv(t) && OngoingInv(t.state) && HasRoom(t.state, records)
    ensures StatusInv(Appending(t, records, durable)) && OngoingInv(Appending(t, records, durable).state)
  {
    hide PatchRecords, InTransaction, TxnKey, Register;
    var data := PatchRecords(records, t.state.next).0;
    RegisterKeeps(t.state, data);
    KeyPresent(data);
    WrapIdentity(t.state.next + Reserved(t.state, records));
  }

  lemma KeyPresent(data: bytes)
    ensures InTransaction(data) ==> |data| >= HEADER
  {
  }

  lemma CloseKeepsStatus(t: Traced, id: i64, outcome: Status, s: State)
    requires StatusInv(t) && OngoingInv(t.state) && outcome in {Committed, Aborted}
    requires s == t.state.(ongoing := t.state.ongoing - {id}, aborted := s.aborted) && t.state.aborted <= s.aborted
    requires outcome.Aborted? ==> IsAborted(s.aborted, id)
    ensures StatusInv(t.(state := s, status := Closed(t, id, outcome))) && OngoingInv(s)
  {
    hide InTransaction, TxnKey;
    forall i | 0 <= i < |t.status|
      ensures EntryInv(s, s.log[i], Closed(t, id, outcome)[i])
    {
      var e := t.state.log[i];
      assert EntryInv(t.state, e, t.status[i]);
      KeyPresent(e.data);
      if t.status[i].Aborted? { AbortedStays(t.state.aborted, s.aborted, TxnKey(e.data)); }
    }
  }

  lemma AbortedStays(a: seq<(i64, i64)>, b: seq<(i64, i64)>, id: i64)
    requires a <= b && IsAborted(a, id)
    ensures IsAborted(b, id)
  {
    var i :| 0 <= i < |a| && a[i].0 == id;
    assert b[i].0 == id;
  }

  lemma StepKeepsStatus(t: Traced, e: Event)
    requires StatusInv(t) && OngoingInv(t.state) && Fits(t, e)
    ensures StatusInv(Step(t, e)) && OngoingInv(Step(t, e).state)
  {
    hide PatchRecords, InTransaction, TxnKey, Append, Closed, HasRoom;
    match e
    case Produce(records, durable) => AppendKeepsStatus(t, records, durable);
    case ProduceIdempotent(id, epoch, sequence, records, durable) =>
      AppendKeepsStatus(t, records, durable);
      if IdempotentOutcome(t.state, id, epoch, sequence, durable).Appended? {
        SameButProducers(Appending(t, records, true), Step(t, e));
      }
    case Commit(id) => CloseKeepsStatus(t, id, Committed, Complete(t.state, id));
    case Rollback(id, fallback) =>
      var s := Abort(t.state, id, fallback);
      assert s.aborted[|t.state.aborted|].0 == id;
      CloseKeepsStatus(t, id, Aborted, s);
  }

  lemma SameButProducers(u: Traced, v: Traced)
    requires StatusInv(u) && OngoingInv(u.state)
    requires v.status == u.status && v.state == u.state.(producers := v.state.producers)
    ensures StatusInv(v) && OngoingInv(v.state)
  {
    hide InTransaction, TxnKey;
    forall i | 0 <= i < |v.status|
      ensures EntryInv(v.state, v.state.log[i], v.status[i])
    {
      assert EntryInv(u.state, u.state.log[i], u.status[i]);
    }
  }

  // ---------- reservations tile the log ----------

  /** Adjacent spans from `from` to `to`. */
  ghost predicate Adjacent(spans: seq<Span>, from: int, to: int) {
    if spans == [] then from == to
    else
      var last := spans[|spans| - 1];
      last.end == to && last.start < last.end && Adjacent(spans[..|spans| - 1], from, last.start)
  }

  /** Offsets of the spans whose entry was stored. */
  function StoredStarts(spans: seq<Span>): seq<int> {
    if spans == [] then []
    else
      var last := spans[|spans| - 1];
      StoredStarts(spans[..|spans| - 1]) + if last.stored then [last.start] else []
  }

  function Offsets(log: seq<Entry>): (r: seq<int>)
    ensures |r| == |log| && forall i :: 0 <= i < |log| ==> r[i] == log[i].offset
  {
    seq(|log|, i requires 0 <= i < |log| => log[i].offset)
  }

  ghost predicate SpansInv(t: Traced) {
    Adjacent(t.spans, 0, t.state.next) && StoredStarts(t.spans) == Offsets(t.state.log)
  }

  lemma AppendKeepsSpans(t: Traced, records: bytes, durable: bool)
    requires SpansInv(t) && HasRoom(t.state, records)
    ensures SpansInv(Appending(t, records, durable))
  {
    hide PatchRecords, InTransaction, Register;
    var u := Appending(t, records, durable);
    WrapIdentity(t.state.next + Reserved(t.state, records));
    assert u.spans[..|u.spans| - 1] == t.spans;
    assert Offsets(u.state.log) == Offsets(t.state.log) + if durable then [t.state.next] else [];
  }

  lemma StepKeepsSpans(t: Traced, e: Event)
    requires |t.status| == |t.state.log| && SpansInv(t) && Fits(t, e)
    ensures SpansInv(Step(t, e))
  {
    hide PatchRecords, InTransaction, TxnKey, Append, Closed, HasRoom;
    match e
    case Produce(records, durable) => AppendKeepsSpans(t, records, durable);
    case ProduceIdempotent(id, epoch, sequence, records, durable) => AppendKeepsSpans(t, records, durable);
    case Commit(id) =>
    case Rollback(id, fallback) =>
  }

  // ---------- accepted sequence numbers ----------

  /** The latest accepted pair of a producer. */
  function Latest(accepted: seq<(i64, Accepted)>, id: i64): Option<Accepted> {
    if accepted == [] then None
    else
      var last := accepted[|accepted| - 1];
      if last.0 == id then Some(last.1) else Latest(accepted[..|accepted| - 1], id)
  }

  /** A first pair, a higher epoch, or the next sequence number of the same epoch. */
  predicate Follows(previous: Option<Accepted>, next: Accepted) {
    || previous.None?
    || previous.value.epoch < next.epoch
    || (previous.value.epoch == next.epoch && previous.value.sequence + 1 == next.sequence)
  }

  ghost predicate Chained(accepted: seq<(i64, Accepted)>) {
    accepted == [] ||
    (var n := |accepted| - 1;
     Chained(accepted[..n]) && Follows(Latest(accepted[..n], accepted[n].0), accepted[n].1))
  }

  ghost predicate AcceptedInv(t: Traced) {
    && Chained(t.accepted)
    && (forall id :: Latest(t.accepted, id) == if id in t.state.producers then Some(t.state.producers[id]) else None)
    && (forall i :: 0 <= i < |t.accepted| ==> 0 <= t.accepted[i].1.offset < t.state.next)
    && (forall i, j :: 0 <= i < j < |t.accepted| ==> t.accepted[i].1.offset < t.accepted[j].1.offset)
  }

  /** Every accepted append is in the log. */
  ghost predicate StoredInv(t: Traced) {
    forall i :: 0 <= i < |t.accepted| ==> t.accepted[i].1.offset in Offsets(t.state.log)
  }

  lemma StepKeepsStored(t: Traced, e: Event)
    requires |t.status| == |t.state.log| && StoredInv(t)
    ensures StoredInv(Step(t, e))
  {
    LogOnlyGrows(t, e);
    hide Append, Closed, Offsets;
    var u := Step(t, e);
    assert u.accepted == t.accepted || u.accepted[..|t.accepted|] == t.accepted;
  }

  /** The offsets in the log stay, and those of an accepted append are added. */
  lemma LogOnlyGrows(t: Traced, e: Event)
    requires |t.status| == |t.state.log|
    ensures forall o :: o in Offsets(t.state.log) ==> o in Offsets(Step(t, e).state.log)
    ensures e.ProduceIdempotent? && IdempotentOutcome(t.state, e.id, e.epoch, e.sequence, e.durable).Appended? ==>
              t.state.next in Offsets(Step(t, e).state.log)
  {
    hide PatchRecords, InTransaction, TxnKey, Closed, Register, WrapI64;
    var u := Step(t, e);
    assert u.state.log == t.state.log
        || (|u.state.log| == |t.state.log| + 1 && u.state.log[..|t.state.log|] == t.state.log);
    forall o | o in Offsets(t.state.log)
      ensures o in Offsets(u.state.log)
    {
      var i :| 0 <= i < |t.state.log| && Offsets(t.state.log)[i] == o;
      assert u.state.log[i] == t.state.log[i] && Offsets(u.state.log)[i] == o;
    }
    if e.ProduceIdempotent? && IdempotentOutcome(t.state, e.id, e.epoch, e.sequence, e.durable).Appended? {
      assert Offsets(u.state.log)[|t.state.log|] == t.state.next;
    }
  }

  lemma StepKeepsAccepted(t: Traced, e: Event)
    requires |t.status| == |t.state.log| && AcceptedInv(t) && 0 <= t.state.next && Fits(t, e)
    ensures AcceptedInv(Step(t, e))
  {
    hide PatchRecords, InTransaction, TxnKey, Closed, Register;
    if (e.Produce? || e.ProduceIdempotent?) { WrapIdentity(t.state.next + Reserved(t.state, e.records)); }
    if e.ProduceIdempotent? && IdempotentOutcome(t.state, e.id, e.epoch, e.sequence, e.durable).Appended? {
      var u := Step(t, e);
      assert u.accepted[..|u.accepted| - 1] == t.accepted;
      var previous := Latest(t.accepted, e.id);
      assert Follows(previous, Accepted(e.epoch, e.sequence, t.state.next));
    }
  }

  // ---------- every reachable partition ----------

  ghost predicate Inv(t: Traced) {
    StatusInv(t) && OngoingInv(t.state) && SpansInv(t) && AcceptedInv(t) && StoredInv(t)
  }

  lemma StepKeepsInv(t: Traced, e: Event)
    requires Inv(t) && Fits(t, e)
    ensures Inv(Step(t, e))
  {
    hide StatusInv, OngoingInv, SpansInv, AcceptedInv, StoredInv, Step, Fits;
    InvFacts(t);
    StepKeepsStatus(t, e);
    StepKeepsSpans(t, e);
    StepKeepsAccepted(t, e);
    StepKeepsStored(t, e);
  }

  lemma InvFacts(t: Traced)
    requires Inv(t)
    ensures |t.status| == |t.state.log| && 0 <= t.state.next
  {
  }

  lemma {:induction false} ReachableInv(events: seq<Event>, t: Traced)
    requires Reaches(events, t)
    ensures Inv(t)
    decreases |events|
  {
    hide Step, Fits;
    if events != [] {
      var n := |events| - 1;
      var u :| Reaches(events[..n], u) && |u.status| == |u.state.log| && Fits(u, events[n]) && t == Step(u, events[n]);
      ReachableInv(events[..n], u);
      hide Inv;
      StepKeepsInv(u, events[n]);
    }
  }

  // ---------- isolation ----------

  /** A read-committed fetch of one log entry. */
  ghost predicate Visible(s: State, e: Entry) { Delivers(1, Lso(s), s.aborted, e) }

  /**
   * In every run, a read-committed fetch delivers exactly those version 2 entries that are not
   * control entries, not of an open or an aborted transaction, lie below the last stable offset,
   * and are not transactional with an id that was ever aborted on the partition.
   */
  lemma ReadCommitted(events: seq<Event>, t: Traced, i: nat)
    requires Reaches(events, t) && i < |t.state.log|
    ensures |t.status| == |t.state.log|
    ensures var e := t.state.log[i];
            if IsV2(e.data) then
              Visible(t.state, e) <==>
                && !IsControl(e.data) && !t.status[i].Open? && !t.status[i].Aborted? && e.offset < Lso(t.state)
                && !(IsTransactional(e.data) && IsAborted(t.state.aborted, TxnKey(e.data)))
            else Visible(t.state, e)
  {
    hide Reaches, Attributes, TxnKey;
    ReachableInv(events, t);
    assert EntryInv(t.state, t.state.log[i], t.status[i]);
  }

  /** The entries read, without the control entries among them. */
  function Data(read: seq<Entry>): seq<Entry> {
    if read == [] then []
    else (if IsV2(read[0].data) && IsControl(read[0].data) then [] else [read[0]]) + Data(read[1..])
  }

  /** Whatever the isolation level, a fetch answers as if the control entries among those read were not there. */
  lemma {:induction false} ControlEntriesHidden(level: int, lso: int, aborted: seq<(i64, i64)>, read: seq<Entry>)
    ensures Filtered(level, lso, aborted, read) == Filtered(level, lso, aborted, Data(read))
  {
    hide Attributes, TxnKey;
    if read != [] {
      ControlEntriesHidden(level, lso, aborted, read[1..]);
      var rest := Data(read[1..]);
      if IsV2(read[0].data) && IsControl(read[0].data) {
        assert Data(read) == rest;
        assert !Delivers(level, lso, aborted, read[0]);
      } else {
        assert Data(read) == [read[0]] + rest && Data(read)[1..] == rest;
      }
    }
  }

  // ---------- watermarks ----------

  lemma LsoAbove(s: State, u: State)
    requires s.next <= u.next
    requires forall id :: id in u.ongoing ==>
               (id in s.ongoing && u.ongoing[id] == s.ongoing[id]) || u.ongoing[id] >= s.next
    ensures Lso(s) <= Lso(u)
  {
    if Lso(u) != u.next {
      var id :| id in u.ongoing && Lso(u) == u.ongoing[id];
    }
  }

  /**
   * In every run the last stable offset never decreases, also over a failed append that has
   * registered its producer, and it never exceeds the high watermark.
   */
  lemma WatermarkLaw(events: seq<Event>, t: Traced, e: Event)
    requires Reaches(events, t) && Fits(t, e)
    ensures |t.status| == |t.state.log|
    ensures Lso(t.state) <= Lso(Step(t, e).state) <= Step(t, e).state.next
    ensures t.state.next <= Step(t, e).state.next
    ensures forall id :: id in t.state.ongoing ==> 0 <= t.state.ongoing[id] <= t.state.next
  {
    hide PatchRecords, InTransaction, TxnKey, Register, Closed, Append, Reaches, SpansInv, AcceptedInv, StoredInv;
    ReachableInv(events, t);
    if e.Produce? || e.ProduceIdempotent? { AppendRaises(t.state, e.records, e.durable); }
    LsoAbove(t.state, Step(t, e).state);
  }

  lemma AppendRaises(s: State, records: bytes, durable: bool)
    requires HasRoom(s, records)
    ensures var u := Append(s, records, durable);
            && s.next <= u.next
            && Append(s, records, true).ongoing == u.ongoing && Append(s, records, true).next == u.next
            && forall id :: id in u.ongoing ==>
                 (id in s.ongoing && u.ongoing[id] == s.ongoing[id]) || u.ongoing[id] >= s.next
  {
    hide PatchRecords, InTransaction, Register;
    RegisterKeeps(s, PatchRecords(records, s.next).0);
    WrapIdentity(s.next + Reserved(s, records));
  }

  lemma {:induction false} StartsBelow(spans: seq<Span>, from: int, to: int)
    requires Adjacent(spans, from, to)
    ensures from <= to
    ensures forall i :: 0 <= i < |StoredStarts(spans)| ==> StoredStarts(spans)[i] < to
    ensures forall i, j :: 0 <= i < j < |StoredStarts(spans)| ==> StoredStarts(spans)[i] < StoredStarts(spans)[j]
  {
    if spans != [] {
      var n := |spans| - 1;
      StartsBelow(spans[..n], from, spans[n].start);
    }
  }

  /**
   * In every run the reserved offset ranges, stored or not, tile the range from 0 to the high
   * watermark, and the log holds the stored ones in order, at strictly increasing offsets.
   */
  lemma LogTiles(events: seq<Event>, t: Traced)
    requires Reaches(events, t)
    ensures Adjacent(t.spans, 0, t.state.next) && StoredStarts(t.spans) == Offsets(t.state.log)
    ensures forall i, j :: 0 <= i < j < |t.state.log| ==> t.state.log[i].offset < t.state.log[j].offset
  {
    hide Reaches;
    ReachableInv(events, t);
    StartsBelow(t.spans, 0, t.state.next);
    var starts := Offsets(t.state.log);
    assert forall i, j :: 0 <= i < j < |starts| ==> starts[i] < starts[j];
    forall i, j | 0 <= i < j < |t.state.log|
      ensures t.state.log[i].offset < t.state.log[j].offset
    {
      assert starts[i] < starts[j];
    }
  }

  // ---------- visibility over time ----------

  /**
   * A delivered entry stays delivered over every event but one: a rollback of its id on the partition, which hides a
   * transactional entry also when its own transaction was committed before.
   */
  lemma DeliveredUntilAbort(events: seq<Event>, t: Traced, e: Event, entry: Entry)
    requires Reaches(events, t) && Fits(t, e) && Visible(t.state, entry)
    ensures |t.status| == |t.state.log|
    ensures Visible(Step(t, e).state, entry) <==>
            !(e.Rollback? && IsV2(entry.data) && IsTransactional(entry.data) && e.id == TxnKey(entry.data))
  {
    hide Reaches, Attributes, TxnKey, Step, Fits;
    WatermarkLaw(events, t, e);
    if IsV2(entry.data) { StepAborts(t, e, TxnKey(entry.data)); }
  }

  /** Only a rollback lists an id as aborted. */
  lemma StepAborts(t: Traced, e: Event, id: i64)
    requires |t.status| == |t.state.log|
    ensures IsAborted(Step(t, e).state.aborted, id) <==> IsAborted(t.state.aborted, id) || (e.Rollback? && e.id == id)
  {
    hide Append, Closed;
    var a, b := t.state.aborted, Step(t, e).state.aborted;
    if IsAborted(a, id) { AbortedStays(a, b, id); }
    if e.Rollback? && e.id == id { assert b[|a|].0 == id; }
  }

  // ---------- exactly once ----------

  predicate Before(a: Accepted, b: Accepted) {
    a.epoch < b.epoch || (a.epoch == b.epoch && a.sequence < b.sequence)
  }

  lemma {:induction false} ChainedBeforeLatest(accepted: seq<(i64, Accepted)>, i: nat)
    requires Chained(accepted) && i < |accepted|
    ensures Latest(accepted, accepted[i].0).Some?
    ensures var latest := Latest(accepted, accepted[i].0).value;
            accepted[i].1 == latest || Before(accepted[i].1, latest)
    decreases |accepted|
  {
    var n := |accepted| - 1;
    if i < n { ChainedBeforeLatest(accepted[..n], i); }
  }

  lemma {:induction false} ChainedIncreases(accepted: seq<(i64, Accepted)>, i: nat, j: nat)
    requires Chained(accepted) && i < j < |accepted| && accepted[i].0 == accepted[j].0
    ensures Before(accepted[i].1, accepted[j].1)
    decreases |accepted|
  {
    var n := |accepted| - 1;
    if j < n {
      ChainedIncreases(accepted[..n], i, j);
    } else {
      ChainedBeforeLatest(accepted[..n], i);
    }
  }

  /** Log entry `k` is where the `i`-th accepted append was stored. */
  ghost predicate StoredAt(t: Traced, i: nat, k: nat) {
    i < |t.accepted| && k < |t.state.log| && t.state.log[k].offset == t.accepted[i].1.offset
  }

  ghost predicate StoredOnce(t: Traced, i: nat) {
    && (exists k: nat :: StoredAt(t, i, k))
    && (forall k: nat, l: nat :: StoredAt(t, i, k) && StoredAt(t, i, l) ==> k == l)
  }

  lemma StoredOnceOnly(t: Traced, i: nat)
    requires StoredInv(t) && i < |t.accepted|
    requires forall i, j :: 0 <= i < j < |t.state.log| ==> t.state.log[i].offset < t.state.log[j].offset
    ensures StoredOnce(t, i)
  {
    var offsets, o := Offsets(t.state.log), t.accepted[i].1.offset;
    assert o in offsets;
    var k :| 0 <= k < |offsets| && offsets[k] == o;
    assert StoredAt(t, i, k);
  }

  /**
   * In every interleaving of producers, the pairs of epoch and sequence number appended for one
   * producer strictly increase and are consecutive within an epoch, so none is appended twice.
   * Each accepted pair stands for exactly one log entry, and no two for the same.
   */
  lemma ExactlyOnce(events: seq<Event>, t: Traced)
    requires Reaches(events, t)
    ensures Chained(t.accepted)
    ensures forall i, j :: 0 <= i < j < |t.accepted| && t.accepted[i].0 == t.accepted[j].0 ==>
              Before(t.accepted[i].1, t.accepted[j].1)
    ensures forall i :: 0 <= i < |t.accepted| ==> StoredOnce(t, i)
    ensures forall i, j :: 0 <= i < j < |t.accepted| ==> t.accepted[i].1.offset != t.accepted[j].1.offset
  {
    hide Reaches, StatusInv, OngoingInv, SpansInv, StoredInv, StoredOnce, Follows;
    ReachableInv(events, t);
    LogTiles(events, t);
    forall i | 0 <= i < |t.accepted|
      ensures StoredOnce(t, i)
    {
      StoredOnceOnly(t, i);
    }
    forall i, j | 0 <= i < j < |t.accepted| && t.accepted[i].0 == t.accepted[j].0
      ensures Before(t.accepted[i].1, t.accepted[j].1)
    {
      ChainedIncreases(t.accepted, i, j);
    }
  }

  /**
   * Retrying an accepted batch in the producer's current epoch appends nothing. The answer is the
   * batch's own offset exactly when the batch is the producer's latest; an older one is answered
   * with the offset of the latest.
   */
  lemma RetryAnswer(events: seq<Event>, t: Traced, i: nat, records: bytes, durable: bool)
    requires Reaches(events, t) && i < |t.accepted|
    requires var (id, a) := t.accepted[i]; Latest(t.accepted, id).Some? && a.epoch == Latest(t.accepted, id).value.epoch
    ensures var (id, a) := t.accepted[i];
            var outcome := IdempotentOutcome(t.state, id, a.epoch, a.sequence, durable);
            AppendIdempotent(t.state, id, a.epoch, a.sequence, records, durable) == t.state &&
            outcome == Duplicate(Latest(t.accepted, id).value.offset) &&
            (outcome == Duplicate(a.offset) <==> a == Latest(t.accepted, id).value)
  {
    hide Reaches, Append;
    ReachableInv(events, t);
    ChainedBeforeLatest(t.accepted, i);
    LatestIsAccepted(t.accepted, t.accepted[i].0);
  }

  lemma {:induction false} LatestIsAccepted(accepted: seq<(i64, Accepted)>, id: i64)
    requires Latest(accepted, id).Some?
    ensures exists j :: 0 <= j < |accepted| && accepted[j] == (id, Latest(accepted, id).value)
    decreases |accepted|
  {
    var n := |accepted| - 1;
    if accepted[n].0 != id {
      LatestIsAccepted(accepted[..n], id);
      var j :| 0 <= j < n && accepted[..n][j] == (id, Latest(accepted, id).value);
      assert accepted[j] == (id, Latest(accepted, id).value);
    }
  }

  // ---------- the bytes taken for the producer id ----------

  /**
   * Append and fetch read the id at bytes 39 to 47, which are the last half of the maximum
   * timestamp and the first half of the producer id; this is the producer id only if those three
   * half words are equal.
   */
  lemma KeyIsProducerId(b: bytes)
    requires |b| >= HEADER
    ensures TxnKey(b) == ProducerId(b) <==> b[39..43] == b[43..47] == b[47..51]
  {
    FromBeInjective(b[39..47], b[43..51]);
    assert b[39..47] == b[39..43] + b[43..47];
    assert b[43..51] == b[43..47] + b[47..51];
    if b[39..47] == b[43..51] {
      assert b[39..43] == b[39..47][..4] && b[43..47] == b[43..51][..4];
      assert b[43..47] == b[39..47][4..] && b[47..51] == b[43..51][4..];
    }
  }

  /** Ids the coordinator hands out while fewer than 2^32 have been. */
  predicate Issued(id: i64) { 1000 <= id < 0x1_0000_0000 }

  /** With an issued producer id in its place, the bytes read as the id are never an issued id. */
  lemma KeyIsNeverIssued(b: bytes)
    requires |b| >= HEADER && Issued(ProducerId(b))
    ensures !Issued(TxnKey(b))
  {
    HalfWords(b[43..51]);
    HalfWords(b[39..47]);
    assert b[43..51][..4] == b[43..47] == b[39..47][4..];
    hide FromBe;
    HighHalf(FromBe(b[39..47][..4]), TxnKey(b));
  }

  lemma HalfWords(s: bytes)
    requires |s| == 8
    ensures FromBe(s) == FromBe(s[..4]) * 0x1_0000_0000 + FromBe(s[4..]) && FromBe(s[4..]) < 0x1_0000_0000
  {
    assert Pow256(4) == 0x1_0000_0000;
    FromBeSplit(s[..4], s[4..]);
    assert s == s[..4] + s[4..];
  }

  lemma HighHalf(x: nat, key: i64)
    requires key == x * 0x1_0000_0000 || key == x * 0x1_0000_0000 - 0x1_0000_0000_0000_0000
    ensures !Issued(key)
  {
  }

  /** Transactional batches carry issued producer ids, and only those are committed or rolled back. */
  ghost predicate LaidOut(t: Traced, e: Event) {
    match e
    case Produce(records, _) => LaidOutData(PatchRecords(records, t.state.next).0)
    case ProduceIdempotent(_, _, _, records, _) => LaidOutData(PatchRecords(records, t.state.next).0)
    case Commit(id) => Issued(id)
    case Rollback(id, _) => Issued(id)
  }

  ghost predicate LaidOutData(data: bytes) { InTransaction(data) ==> Issued(ProducerId(data)) }

  ghost predicate ReachesLaidOut(events: seq<Event>, t: Traced)
    decreases |events|
  {
    if events == [] then t == START
    else
      var n := |events| - 1;
      exists u :: ReachesLaidOut(events[..n], u) && |u.status| == |u.state.log| && Fits(u, events[n]) &&
                  LaidOut(u, events[n]) && t == Step(u, events[n])
  }

  ghost predicate AllOpen(t: Traced) {
    forall i :: 0 <= i < |t.state.log| && i < |t.status| && InTransaction(t.state.log[i].data) ==>
      t.status[i].Open? && !Issued(TxnKey(t.state.log[i].data))
  }

  lemma StepKeepsOpen(t: Traced, e: Event)
    requires Inv(t) && Fits(t, e) && LaidOut(t, e) && AllOpen(t)
    ensures AllOpen(Step(t, e))
  {
    hide PatchRecords, InTransaction, TxnKey, Register, SpansInv, AcceptedInv, StoredInv, OngoingInv, EntryInv,
      ProducerId, Issued;
    if e.Produce? || e.ProduceIdempotent? {
      var data := PatchRecords(e.records, t.state.next).0;
      KeyPresent(data);
      if InTransaction(data) { KeyIsNeverIssued(data); }
    }
  }

  lemma {:induction false} LaidOutRuns(events: seq<Event>, t: Traced)
    requires ReachesLaidOut(events, t)
    ensures Reaches(events, t) && Inv(t) && AllOpen(t)
    decreases |events|
  {
    hide Step, Fits, LaidOut, Inv, AllOpen;
    if events == [] {
      StartIsFine();
    } else {
      var n := |events| - 1;
      var u :| ReachesLaidOut(events[..n], u) && |u.status| == |u.state.log| && Fits(u, events[n]) &&
               LaidOut(u, events[n]) && t == Step(u, events[n]);
      LaidOutRuns(events[..n], u);
      StepKeepsInv(u, events[n]);
      StepKeepsOpen(u, events[n]);
    }
  }

  lemma StartIsFine()
    ensures Inv(START) && AllOpen(START)
  {
  }

  /**
   * In every run whose transactional batches hold issued producer ids where the format puts them,
   * no commit or rollback closes anything: each transactional entry stays open, the last stable
   * offset stays at or below it, and a read-committed fetch delivers neither it nor any later
   * version 2 entry, also after its transaction was committed.
   */
  lemma CommittedButNeverDelivered(events: seq<Event>, t: Traced, i: nat, j: nat)
    requires ReachesLaidOut(events, t) && i <= j < |t.state.log| && InTransaction(t.state.log[i].data)
    ensures |t.status| == |t.state.log| && t.status[i].Open? && Lso(t.state) <= t.state.log[i].offset
    ensures IsV2(t.state.log[j].data) ==> !Visible(t.state, t.state.log[j])
  {
    hide InTransaction, TxnKey, ReachesLaidOut, Reaches;
    LaidOutRuns(events, t);
    assert EntryInv(t.state, t.state.log[i], t.status[i]);
    LogTiles(events, t);
  }
}
