/** What the coordinator knows after a run, read off the list of calls alone. */
module TransactionHistory {
  import opened Bytes
  import opened Names
  import opened PartitionLog
  import opened Transactions
  import opened TransactionRuns

  // ---------- defined on the list of calls ----------

  /** Which producer id a transactional id was first given, and which timeout. */
  datatype Grant = Grant(producerId: int, timeout: i32)

  function Last(calls: seq<Call>): Call requires calls != [] { calls[|calls| - 1] }
  function Before(calls: seq<Call>): (b: seq<Call>)
    requires calls != []
    ensures |b| < |calls|
  {
    calls[..|calls| - 1]
  }

  predicate Initialises(call: Call, txn: string) { call.InitProducer? && call.name == Some(txn) }

  /** The ids handed out: one for every init without a transactional id and for the first init of each. */
  function IdsGiven(calls: seq<Call>): nat
    decreases |calls|, 0
  {
    if calls == [] then 0
    else
      var call := Last(calls);
      IdsGiven(Before(calls)) +
      if call.InitProducer? && (call.name.None? || GrantOf(Before(calls), call.name.value).None?) then 1 else 0
  }

  function GrantOf(calls: seq<Call>, txn: string): Option<Grant>
    decreases |calls|, 1
  {
    if calls == [] then None
    else
      var earlier := GrantOf(Before(calls), txn);
      if earlier.None? && Initialises(Last(calls), txn) then
        Some(Grant(1000 + IdsGiven(Before(calls)), if Last(calls).timeout <= 0 then 60000 else Last(calls).timeout))
      else earlier
  }

  /** How often the transactional id was initialised. */
  function InitsOf(calls: seq<Call>, txn: string): nat {
    if calls == [] then 0 else InitsOf(Before(calls), txn) + if Initialises(Last(calls), txn) then 1 else 0
  }

  /** A call is accepted when it names the id of the first init and the epoch of the last. */
  predicate Accepts(calls: seq<Call>, txn: string, producerId: i64, epoch: i16) {
    && GrantOf(calls, txn).Some?
    && producerId == GrantOf(calls, txn).value.producerId
    && epoch == WrapI16(InitsOf(calls, txn) - 1)
  }

  predicate AcceptedAdd(calls: seq<Call>, call: Call, txn: string) {
    call.AddTo? && call.txn == txn && Accepts(calls, txn, call.producerId, call.epoch)
  }

  predicate AcceptedEnd(calls: seq<Call>, call: Call, txn: string) {
    call.End? && call.txn == txn && Accepts(calls, txn, call.producerId, call.epoch)
  }

  /** The partitions named by the accepted add calls since the last init or accepted end. */
  function Named(calls: seq<Call>, txn: string): set<TopicPartition> {
    if calls == [] then {}
    else
      var before, call := Before(calls), Last(calls);
      if Initialises(call, txn) || AcceptedEnd(before, call, txn) then {}
      else if AcceptedAdd(before, call, txn) then Named(before, txn) + set tp | tp in call.tps
      else Named(before, txn)
  }

  /** Whether an add call was accepted since the last init or accepted end. */
  predicate Adding(calls: seq<Call>, txn: string) {
    calls != [] &&
    var before, call := Before(calls), Last(calls);
    !Initialises(call, txn) && !AcceptedEnd(before, call, txn) &&
    (AcceptedAdd(before, call, txn) || Adding(before, txn))
  }

  // ---------- and what the coordinator holds ----------

  ghost predicate Recorded(calls: seq<Call>, metas: Metas, txn: string) {
    if GrantOf(calls, txn).None? then txn !in metas && InitsOf(calls, txn) == 0
    else
      && txn in metas && InitsOf(calls, txn) > 0
      && var grant, meta := GrantOf(calls, txn).value, metas[txn];
         && meta.producerId == grant.producerId && meta.timeout == grant.timeout
         && meta.epoch == WrapI16(InitsOf(calls, txn) - 1)
         && meta.partitions == Named(calls, txn)
         && (meta.phase == Ongoing <==> Adding(calls, txn))
  }

  lemma {:induction false} LastStep(b: Broker, calls: seq<Call>, c: Broker) returns (m: Broker)
    requires calls != [] && Reaches(b, calls, c)
    ensures Reaches(b, Before(calls), m) && Next(m, Last(calls), c)
    decreases |calls|
  {
    hide Next;
    var n :| Next(b, calls[0], n) && Reaches(n, calls[1..], c);
    if |calls| == 1 {
      return b;
    }
    m := LastStep(n, calls[1..], c);
    assert Before(calls)[1..] == Before(calls[1..]) && Before(calls)[0] == calls[0];
  }

  lemma CheckAccepts(calls: seq<Call>, metas: Metas, txn: string, producerId: i64, epoch: i16)
    requires Recorded(calls, metas, txn)
    ensures Check(metas, txn, producerId, epoch)
         == if GrantOf(calls, txn).None? || producerId != GrantOf(calls, txn).value.producerId then
              InvalidProducerIdMapping
            else if epoch < WrapI16(InitsOf(calls, txn) - 1) then ProducerFenced
            else if epoch > WrapI16(InitsOf(calls, txn) - 1) then InvalidProducerEpoch
            else NoError
  {
    hide GrantOf, InitsOf, Named, Adding, WrapI16;
  }

  lemma WrapNextEpoch(n: nat)
    ensures WrapI16(WrapI16(n - 1) + 1) == WrapI16(n)
  {
    WrapShift16(n - 1);
  }

  lemma {:induction false} WrapShift16(x: int)
    requires x >= -1
    ensures WrapI16(WrapI16(x) + 1) == WrapI16(x + 1)
    decreases x + 1
  {
    if x >= 0x1_0000 { WrapShift16(x - 0x1_0000); }
  }

  lemma InitNamesNothing(calls: seq<Call>, txn: string)
    requires calls != [] && Last(calls).InitProducer?
    ensures Named(calls, txn) == if Initialises(Last(calls), txn) then {} else Named(Before(calls), txn)
    ensures Adding(calls, txn) <==> !Initialises(Last(calls), txn) && Adding(Before(calls), txn)
  {
    hide GrantOf, InitsOf;
  }

  /** An init of another transactional id, or of none. */
  lemma OtherInit(calls: seq<Call>, m: Broker, c: Broker, txn: string)
    requires calls != [] && Last(calls).InitProducer? && Next(m, Last(calls), c)
    requires !Initialises(Last(calls), txn) && Recorded(Before(calls), m.metas, txn)
    ensures Recorded(calls, c.metas, txn)
  {
    hide WrapI16, WrapI64, Named, Adding, IdsGiven;
    InitNamesNothing(calls, txn);
  }

  /** The first init of a transactional id, or a further one. */
  lemma OwnInit(calls: seq<Call>, m: Broker, c: Broker, txn: string)
    requires calls != [] && Next(m, Last(calls), c) && Initialises(Last(calls), txn)
    requires m.nextId == 1000 + IdsGiven(Before(calls)) && Recorded(Before(calls), m.metas, txn)
    ensures Recorded(calls, c.metas, txn)
  {
    hide WrapI16, WrapI64, Named, Adding, IdsGiven;
    InitNamesNothing(calls, txn);
    WrapNextEpoch(InitsOf(Before(calls), txn));
    FirstEpoch();
  }

  lemma FirstEpoch()
    ensures WrapI16(0) == 0
  {
  }

  lemma IdCounted(calls: seq<Call>, m: Broker, c: Broker)
    requires calls != [] && Last(calls).InitProducer? && Next(m, Last(calls), c)
    requires m.nextId == 1000 + IdsGiven(Before(calls))
    requires Last(calls).name.Some? ==> Recorded(Before(calls), m.metas, Last(calls).name.value)
    ensures c.nextId == 1000 + IdsGiven(calls)
  {
    hide WrapI16, Named, Adding, InitsOf, GrantOf;
  }

  /** Any call but an init leaves ids, epochs and timeouts alone. */
  lemma OtherCall(calls: seq<Call>, txn: string)
    requires calls != [] && !Last(calls).InitProducer?
    ensures GrantOf(calls, txn) == GrantOf(Before(calls), txn) && InitsOf(calls, txn) == InitsOf(Before(calls), txn)
    ensures IdsGiven(calls) == IdsGiven(Before(calls))
  {
  }

  lemma AddRecords(calls: seq<Call>, m: Broker, c: Broker, txn: string)
    requires calls != [] && Last(calls).AddTo? && Next(m, Last(calls), c) && Recorded(Before(calls), m.metas, txn)
    ensures Recorded(calls, c.metas, txn)
  {
    hide GrantOf, InitsOf, IdsGiven, WrapI16, Check;
    var call := Last(calls);
    OtherCall(calls, txn);
    CheckAccepts(Before(calls), m.metas, txn, call.producerId, call.epoch);
  }

  lemma EndRecords(calls: seq<Call>, m: Broker, c: Broker, txn: string)
    requires calls != [] && Last(calls).End? && Next(m, Last(calls), c) && Recorded(Before(calls), m.metas, txn)
    ensures Recorded(calls, c.metas, txn)
  {
    hide GrantOf, InitsOf, IdsGiven, WrapI16, Check, EndedAll, EndedSome;
    var call := Last(calls);
    OtherCall(calls, txn);
    CheckAccepts(Before(calls), m.metas, txn, call.producerId, call.epoch);
  }

  lemma ProduceRecords(calls: seq<Call>, m: Broker, c: Broker, txn: string)
    requires calls != [] && (Last(calls).ProduceTo? || Last(calls).ProduceIdempotentTo? || Last(calls).AddOffsets?)
    requires Next(m, Last(calls), c) && Recorded(Before(calls), m.metas, txn)
    ensures Recorded(calls, c.metas, txn)
  {
    hide GrantOf, InitsOf, IdsGiven, WrapI16, Append, AppendIdempotent;
    OtherCall(calls, txn);
  }

  /**
   * After every run the coordinator holds, for every transactional id, exactly what the list of calls says: nothing
   * before its first init; then the producer id counted from 1000 and the timeout of its first init, the epoch
   * counting its inits, and as registered partitions those named by its accepted add calls since its last init or
   * accepted end. It is `Ongoing` exactly when there was such an add call.
   */
  lemma {:induction false} RunIsRecorded(calls: seq<Call>, b: Broker, txn: string)
    requires Reaches(START, calls, b)
    ensures Recorded(calls, b.metas, txn) && b.nextId == 1000 + IdsGiven(calls)
    decreases |calls|
  {
    hide Next, Reaches, Recorded, IdsGiven;
    if calls == [] {
      Nothing(b, txn);
    } else {
      var m := LastStep(START, calls, b);
      var call := Last(calls);
      RunIsRecorded(Before(calls), m, txn);
      if call.InitProducer? {
        if call.name.Some? { RunIsRecorded(Before(calls), m, call.name.value); }
        IdCounted(calls, m, b);
        if Initialises(call, txn) { OwnInit(calls, m, b, txn); } else { OtherInit(calls, m, b, txn); }
      } else {
        OtherCall(calls, txn);
        SameNextId(m, call, b);
        if call.AddTo? { AddRecords(calls, m, b, txn); }
        else if call.End? { EndRecords(calls, m, b, txn); }
        else { ProduceRecords(calls, m, b, txn); }
      }
    }
  }

  lemma Nothing(b: Broker, txn: string)
    requires Reaches(START, [], b)
    ensures Recorded([], b.metas, txn) && b.nextId == 1000 + IdsGiven([])
  {
  }

  lemma SameNextId(m: Broker, call: Call, c: Broker)
    requires !call.InitProducer? && Next(m, call, c)
    ensures c.nextId == m.nextId
  {
    hide Append, AppendIdempotent, AddPartitions, EndSucceeds, EndFails, Check;
  }

  /**
   * In every run, which answer the coordinator's check gives is read off the calls: no error exactly for the id of the
   * first init and the epoch of the last, fenced for an older epoch, another error for a newer one.
   */
  lemma RunIsChecked(calls: seq<Call>, b: Broker, txn: string, producerId: i64, epoch: i16)
    requires Reaches(START, calls, b)
    ensures Check(b.metas, txn, producerId, epoch)
         == if GrantOf(calls, txn).None? || producerId != GrantOf(calls, txn).value.producerId then
              InvalidProducerIdMapping
            else if epoch < WrapI16(InitsOf(calls, txn) - 1) then ProducerFenced
            else if epoch > WrapI16(InitsOf(calls, txn) - 1) then InvalidProducerEpoch
            else NoError
  {
    hide Check, Reaches, GrantOf, InitsOf, Recorded, WrapI16;
    RunIsRecorded(calls, b, txn);
    CheckAccepts(calls, b.metas, txn, producerId, epoch);
  }

  /**
   * In every run, a successful end appends exactly one entry, its marker, to every partition named by the transaction's
   * accepted add calls since its last init or end, and changes no other partition.
   */
  lemma EndMarksWhatWasNamed(calls: seq<Call>, b: Broker, txn: string, epoch: i16, commit: bool, c: Broker,
                             tp: TopicPartition)
    requires Reaches(START, calls, b) && txn in b.metas && Part(b.cluster, tp).next < I64_MAX
    requires EndSucceeds(b, b.metas[txn], txn, epoch, commit, c)
    ensures GrantOf(calls, txn).Some?
    ensures var s, u := Part(b.cluster, tp), Part(c.cluster, tp);
            if tp in Named(calls, txn) then
              |u.log| == |s.log| + 1 && u.log[..|s.log|] == s.log &&
              exists now: i64 :: IsMarker(u.log[|s.log|], s.next, b.metas[txn].producerId, epoch, commit, now)
            else u == s
    ensures b.metas[txn].producerId == GrantOf(calls, txn).value.producerId
  {
    hide Reaches, EndedAll, IsMarker, GrantOf, InitsOf, Named, Adding, WrapI16;
    RunIsRecorded(calls, b, txn);
    var meta := b.metas[txn];
    var clock :| c.cluster == EndedAll(b.cluster, meta.partitions, meta.producerId, epoch, commit, clock);
    var other: i64 := if meta.producerId == 0 then 1 else 0;
    EndIsCompleteAndFramed(b.cluster, meta.partitions, meta.producerId, epoch, commit, clock, tp, other);
  }
}
