/** What a partition answers idempotent producers, read off the list of events. */
module PartitionHistory {
  import opened Bytes
  import opened Batches
  import opened PartitionLog
  import opened PartitionRuns

  function Last(events: seq<Event>): Event requires events != [] { events[|events| - 1] }
  function Before(events: seq<Event>): (b: seq<Event>)
    requires events != []
    ensures |b| < |events|
  {
    events[..|events| - 1]
  }

  /** What follows: anything from a new producer or in a higher epoch, the next number in the same epoch. */
  predicate Follows(last: Option<(i16, i32)>, epoch: i16, sequence: i32) {
    last.None? || epoch > last.value.0 || (epoch == last.value.0 && sequence == last.value.1 + 1)
  }

  /** The epoch and sequence number accepted last from a producer: those that followed and became durable. */
  function LastAccepted(events: seq<Event>, id: i64): Option<(i16, i32)> {
    if events == [] then None
    else
      var earlier, e := LastAccepted(Before(events), id), Last(events);
      if e.ProduceIdempotent? && e.id == id && e.durable && Follows(earlier, e.epoch, e.sequence)
      then Some((e.epoch, e.sequence)) else earlier
  }

  ghost predicate Remembers(s: State, id: i64, last: Option<(i16, i32)>) {
    if last.None? then id !in s.producers
    else id in s.producers && s.producers[id].epoch == last.value.0 && s.producers[id].sequence == last.value.1
  }

  lemma StepRemembers(events: seq<Event>, u: Traced, id: i64)
    requires events != [] && |u.status| == |u.state.log| && Remembers(u.state, id, LastAccepted(Before(events), id))
    ensures Remembers(Step(u, Last(events)).state, id, LastAccepted(events, id))
  {
    hide Append, Appending, Closed;
    var e := Last(events);
    match e
    case Produce(records, durable) => AppendingState(u, records, durable);
    case ProduceIdempotent(_, _, _, records, durable) => AppendingState(u, records, durable);
    case Commit(_) =>
    case Rollback(_, _) =>
  }

  lemma AppendingState(t: Traced, records: bytes, durable: bool)
    ensures Appending(t, records, durable).state == Append(t.state, records, durable)
  {
    hide Append;
  }

  lemma {:induction false} RunRemembers(events: seq<Event>, t: Traced, id: i64)
    requires Reaches(events, t)
    ensures Remembers(t.state, id, LastAccepted(events, id))
  {
    hide Step, Fits, Remembers;
    if events == [] {
      NobodyYet(id);
    } else {
      var n := |events| - 1;
      var u :| Reaches(events[..n], u) && |u.status| == |u.state.log| && Fits(u, events[n]) && t == Step(u, events[n]);
      RunRemembers(Before(events), u, id);
      StepRemembers(events, u, id);
    }
  }

  lemma NobodyYet(id: i64)
    ensures Remembers(START.state, id, LastAccepted([], id))
  {
  }

  /**
   * In every run an idempotent append is answered from the last one accepted of its producer. A new producer and a
   * higher epoch are accepted whatever the sequence number; in the same epoch the next number is accepted, a number up
   * to the last is a duplicate, a later one out of order; a lower epoch is fenced. What is accepted starts at the next
   * free offset, and is remembered only if durable.
   */
  lemma IdempotentFromHistory(events: seq<Event>, t: Traced, id: i64, epoch: i16, sequence: i32, durable: bool)
    requires Reaches(events, t)
    ensures var last := LastAccepted(events, id);
            var o := IdempotentOutcome(t.state, id, epoch, sequence, durable);
            && (o.Fenced? <==> last.Some? && epoch < last.value.0)
            && (o.Duplicate? <==> last.Some? && epoch == last.value.0 && sequence <= last.value.1)
            && (o.OutOfOrder? <==> last.Some? && epoch == last.value.0 && sequence > last.value.1 + 1)
            && (o == Appended(t.state.next) <==> Follows(last, epoch, sequence) && durable)
            && (o == NotDurable <==> Follows(last, epoch, sequence) && !durable)
  {
    hide Reaches, LastAccepted;
    RunRemembers(events, t, id);
  }

  /** Refused appends change nothing; accepted ones store the patched records at the next free offset. */
  lemma IdempotentEffect(s: State, id: i64, epoch: i16, sequence: i32, records: bytes, durable: bool)
    ensures var o := IdempotentOutcome(s, id, epoch, sequence, durable);
            var u := AppendIdempotent(s, id, epoch, sequence, records, durable);
            && (o.Fenced? || o.Duplicate? || o.OutOfOrder? ==> u == s)
            && (o.NotDurable? ==> u.log == s.log && u.producers == s.producers)
            && (o.Appended? ==>
                  |u.log| == |s.log| + 1 && u.log[..|s.log|] == s.log && u.log[|s.log|].offset == s.next &&
                  id in u.producers && u.producers[id] == Accepted(epoch, sequence, s.next) &&
                  forall other :: other != id ==>
                    (other in u.producers <==> other in s.producers) &&
                    (other in s.producers ==> u.producers[other] == s.producers[other]))
  {
  }

  /**
   * An append opens a transaction exactly when the first header has version 2, the transactional bit set, the control
   * bit clear and bytes 39 to 47 not all 255, and no range of that number is open; it starts at the next free offset.
   */
  lemma OpensTransaction(s: State, data: bytes)
    ensures Register(s, data)
         == if |data| >= 61 && data[16] == 2 && data[22] / 16 % 2 == 1 && data[22] / 32 % 2 == 0 &&
               data[39..47] != [255, 255, 255, 255, 255, 255, 255, 255] && GetI64(data[39..47]) !in s.ongoing
            then s.ongoing[GetI64(data[39..47]) := s.next] else s.ongoing
  {
    hide IsTransactional, IsControl;
    if |data| >= 61 {
      AttributeBits(data);
      MinusOne(data[39..47]);
    }
  }

  lemma MinusOne(s: bytes)
    requires |s| == 8
    ensures GetI64(s) == -1 <==> s == [255, 255, 255, 255, 255, 255, 255, 255]
  {
    var t: bytes := [255, 255, 255, 255, 255, 255, 255, 255];
    FromBeInjective(s, t);
    FromBeSplit(t[..4], t[4..]);
    BigEndianQuad(t[..4]);
    BigEndianQuad(t[4..]);
    assert t == t[..4] + t[4..] && Pow256(4) == 0x1_0000_0000;
  }
}
