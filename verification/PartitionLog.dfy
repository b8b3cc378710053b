/**
 * One topic partition (`partition.rs`, and the append path of `stream.rs`): the log, the open
 * transactions, the aborted list, the idempotent producers, and the Fetch filter of `handler.rs`.
 */
module PartitionLog {
  import opened Bytes
  import opened Batches
  import opened Patch

  datatype Entry = Entry(offset: i64, data: bytes)

  /** Last accepted epoch, sequence number and base offset of a producer. */
  datatype Accepted = Accepted(epoch: i16, sequence: i32, offset: i64)

  datatype State = State(next: i64, log: seq<Entry>, ongoing: map<i64, i64>, aborted: seq<(i64, i64)>,
                         producers: map<i64, Accepted>)

  const EMPTY: State := State(0, [], map[], [], map[])

  // ---------- classification by the first batch header ----------

  predicate IsV2(b: bytes) { |b| >= HEADER && b[16] == MAGIC }

  /** `attr & 0x0010` and `attr & 0x0020`; Euclidean division is the arithmetic shift. */
  predicate IsTransactional(b: bytes) requires |b| >= HEADER { Attributes(b) / 16 % 2 == 1 }
  predicate IsControl(b: bytes) requires |b| >= HEADER { Attributes(b) / 32 % 2 == 1 }

  /** The eight bytes that append and fetch both take for the producer id. */
  function TxnKey(b: bytes): i64 requires |b| >= HEADER { GetI64(b[39..47]) }

  /** An entry that belongs to a transaction, as append sees it. */
  predicate InTransaction(b: bytes) {
    IsV2(b) && IsTransactional(b) && !IsControl(b) && TxnKey(b) != -1
  }

  // ---------- operations ----------

  /** The number of offsets `append_with_count` reserves. */
  function Reserved(s: State, records: bytes): (n: i64)
    ensures n >= 1
  {
    PatchRecords(records, s.next).1
  }

  predicate HasRoom(s: State, records: bytes) { s.next + Reserved(s, records) <= I64_MAX }

  /** `ongoing_txns.entry(pid).or_insert(base_offset)`. */
  function Register(s: State, data: bytes): map<i64, i64> {
    if InTransaction(data) && TxnKey(data) !in s.ongoing then s.ongoing[TxnKey(data) := s.next] else s.ongoing
  }

  /**
   * An append. The offsets are reserved, and the producer registered, before the write-ahead log
   * answers; when that fails no entry is stored but both stay.
   */
  function Append(s: State, records: bytes, durable: bool): (r: State)
    ensures r.producers == s.producers && r.aborted == s.aborted
  {
    var data := PatchRecords(records, s.next).0;
    s.(next := WrapI64(s.next + Reserved(s, records)),
       log := if durable then s.log + [Entry(s.next, data)] else s.log,
       ongoing := Register(s, data))
  }

  function Complete(s: State, id: i64): State { s.(ongoing := s.ongoing - {id}) }

  function Abort(s: State, id: i64, fallback: i64): State {
    var first := if id in s.ongoing then s.ongoing[id] else fallback;
    s.(ongoing := s.ongoing - {id}, aborted := s.aborted + [(id, first)])
  }

  datatype Outcome = Appended(offset: i64) | Duplicate(offset: i64) | Fenced | OutOfOrder | NotDurable

  function IdempotentOutcome(s: State, id: i64, epoch: i16, sequence: i32, durable: bool): Outcome {
    if id in s.producers && epoch < s.producers[id].epoch then Fenced
    else if id in s.producers && epoch == s.producers[id].epoch && sequence <= s.producers[id].sequence then
      Duplicate(s.producers[id].offset)
    else if id in s.producers && epoch == s.producers[id].epoch && sequence > s.producers[id].sequence + 1 then
      OutOfOrder
    else if durable then Appended(s.next)
    else NotDurable
  }

  function AppendIdempotent(s: State, id: i64, epoch: i16, sequence: i32, records: bytes, durable: bool): State {
    match IdempotentOutcome(s, id, epoch, sequence, durable)
    case Appended(offset) =>
      Append(s, records, true).(producers := s.producers[id := Accepted(epoch, sequence, offset)])
    case NotDurable => Append(s, records, false)
    case _ => s
  }

  // ---------- last stable offset ----------

  /** The least among `bound` and the values of `m`. */
  ghost predicate Least(m: map<i64, i64>, bound: i64, l: int) {
    && l <= bound
    && (forall id :: id in m ==> l <= m[id])
    && (l == bound || exists id :: id in m && l == m[id])
  }

  ghost function Lso(s: State): (l: int)
    ensures Least(s.ongoing, s.next, l)
  {
    LeastExists(s.ongoing, s.next);
    var l :| Least(s.ongoing, s.next, l);
    l
  }

  lemma {:induction false} LeastExists(m: map<i64, i64>, bound: i64)
    ensures exists l :: Least(m, bound, l)
    decreases |m|
  {
    if m == map[] {
      assert Least(m, bound, bound);
    } else {
      var id :| id in m;
      var rest := m - {id};
      assert rest.Keys == m.Keys - {id};
      LeastExists(rest, bound);
      var l :| Least(rest, bound, l);
      assert forall k :: k in m ==> k == id || (k in rest && rest[k] == m[k]);
      assert Least(m, bound, if m[id] < l then m[id] else l);
    }
  }

  /** `ongoing.values().min()` against the high watermark, by a loop over the map's keys. */
  method LeastOffset(m: map<i64, i64>, bound: i64) returns (l: i64)
    ensures Least(m, bound, l)
  {
    l := bound;
    var left := m.Keys;
    while left != {}
      invariant left <= m.Keys && l <= bound
      invariant forall id :: id in m && id !in left ==> l <= m[id]
      invariant l == bound || exists id :: id in m && l == m[id]
      decreases left
    {
      var id :| id in left;
      if m[id] < l { l := m[id]; }
      left := left - {id};
    }
  }

  // ---------- the Fetch filter ----------

  /** Whether the loop over the entries read keeps this one. */
  predicate Delivers(level: int, lso: int, aborted: seq<(i64, i64)>, e: Entry) {
    if IsV2(e.data) then
      && !IsControl(e.data)
      && (level == 1 ==>
            e.offset < lso && !(IsTransactional(e.data) && IsAborted(aborted, TxnKey(e.data))))
    else true
  }

  predicate IsAborted(aborted: seq<(i64, i64)>, id: i64) {
    exists i :: 0 <= i < |aborted| && aborted[i].0 == id
  }

  function Filtered(level: int, lso: int, aborted: seq<(i64, i64)>, read: seq<Entry>): bytes {
    if read == [] then []
    else (if Delivers(level, lso, aborted, read[0]) then read[0].data else [])
         + Filtered(level, lso, aborted, read[1..])
  }

  method FilterFetched(level: int, lso: int, aborted: seq<(i64, i64)>, read: seq<Entry>) returns (out: bytes)
    ensures out == Filtered(level, lso, aborted, read)
  {
    hide Filtered, Delivers;
    out := [];
    for i := 0 to |read|
      invariant out + Filtered(level, lso, aborted, read[i..]) == Filtered(level, lso, aborted, read)
    {
      var e := read[i];
      assert read[i..] == [e] + read[i + 1..];
      FilterFirst(level, lso, aborted, e, read[i + 1..]);
      var keep := KeepEntry(level, lso, aborted, e);
      if !keep { continue; }
      out := out + e.data;
    }
    FilterNothing(level, lso, aborted);
    assert out + [] == out;
  }

  /** The checks of the loop body, in order. */
  method KeepEntry(level: int, lso: int, aborted: seq<(i64, i64)>, e: Entry) returns (keep: bool)
    ensures keep == Delivers(level, lso, aborted, e)
  {
    if |e.data| >= HEADER && e.data[16] == MAGIC {
      if IsControl(e.data) { return false; }
      if level == 1 {
        if e.offset >= lso { return false; }
        if IsTransactional(e.data) && IsAborted(aborted, TxnKey(e.data)) { return false; }
      }
    }
    return true;
  }

  /** Attribute bits 4 and 5 are in the low byte of the field, which is byte 22 of the batch. */
  lemma AttributeBits(b: bytes)
    requires |b| >= HEADER
    ensures IsTransactional(b) <==> b[22] / 16 % 2 == 1
    ensures IsControl(b) <==> b[22] / 32 % 2 == 1
  {
    var a: int := Attributes(b);
    var high: int, low: int := b[21], b[22];
    BigEndianPair(b[21..23]);
    if a < 0 { high := high - 256; }
    assert a == 256 * high + low;
    Halves(a, 16, 16 * high + low / 16, low % 16, 8 * high, low / 16);
    Halves(a, 32, 8 * high + low / 32, low % 32, 4 * high, low / 32);
  }

  lemma Halves(a: int, d: int, q: int, r: int, k: int, l: int)
    requires (d == 16 || d == 32) && a == d * q + r && 0 <= r < d && q == 2 * k + l
    ensures a / d % 2 == l % 2
  {
    assert a / d == q;
  }

  /** The entries at the given places, one behind the other. */
  ghost function DataAt(read: seq<Entry>, places: seq<nat>): bytes
    requires forall k :: 0 <= k < |places| ==> places[k] < |read|
  {
    if places == [] then [] else DataAt(read, places[..|places| - 1]) + read[places[|places| - 1]].data
  }

  lemma {:induction false} DataAtPrefix(read: seq<Entry>, more: seq<Entry>, places: seq<nat>)
    requires forall k :: 0 <= k < |places| ==> places[k] < |read|
    ensures DataAt(read + more, places) == DataAt(read, places)
  {
    if places != [] { DataAtPrefix(read, more, places[..|places| - 1]); }
  }

  /** Filtering goes entry by entry and keeps the order. */
  lemma {:induction false} FilterAppends(level: int, lso: int, aborted: seq<(i64, i64)>, a: seq<Entry>, b: seq<Entry>)
    ensures Filtered(level, lso, aborted, a + b) == Filtered(level, lso, aborted, a) + Filtered(level, lso, aborted, b)
  {
    hide Filtered, Delivers;
    if a == [] {
      assert a + b == b;
      assert Filtered(level, lso, aborted, a) == [] by { FilterNothing(level, lso, aborted); }
    } else {
      FilterAppends(level, lso, aborted, a[1..], b);
      FilterFirst(level, lso, aborted, a[0], a[1..]);
      FilterFirst(level, lso, aborted, a[0], a[1..] + b);
      assert a == [a[0]] + a[1..] && a + b == [a[0]] + (a[1..] + b);
    }
  }

  lemma FilterNothing(level: int, lso: int, aborted: seq<(i64, i64)>)
    ensures Filtered(level, lso, aborted, []) == []
  {
  }

  lemma FilterFirst(level: int, lso: int, aborted: seq<(i64, i64)>, e: Entry, rest: seq<Entry>)
    ensures Filtered(level, lso, aborted, [e] + rest)
         == (if Delivers(level, lso, aborted, e) then e.data else []) + Filtered(level, lso, aborted, rest)
  {
    hide Delivers;
    assert ([e] + rest)[1..] == rest;
  }

  /**
   * What a fetch must hand out: what has no version 2 header, and of the rest what has the control bit clear and, at
   * level 1 (read committed), an offset below the last stable offset and no aborted number in bytes 39 to 47 unless
   * the transactional bit is clear.
   */
  ghost predicate Due(level: int, lso: int, aborted: seq<(i64, i64)>, e: Entry) {
    || |e.data| < 61
    || e.data[16] != 2
    || (e.data[22] / 32 % 2 == 0 &&
        (level == 1 ==>
           e.offset < lso &&
           (e.data[22] / 16 % 2 == 1 ==> forall k :: 0 <= k < |aborted| ==> aborted[k].0 != GetI64(e.data[39..47]))))
  }

  lemma DeliversWhatIsDue(level: int, lso: int, aborted: seq<(i64, i64)>, e: Entry)
    ensures Delivers(level, lso, aborted, e) <==> Due(level, lso, aborted, e)
  {
    hide GetI64, IsTransactional, IsControl;
    if |e.data| >= 61 { AttributeBits(e.data); }
  }

  /** The places of the entries that are due, in increasing order. */
  ghost predicate DuePlaces(level: int, lso: int, aborted: seq<(i64, i64)>, read: seq<Entry>, places: seq<nat>) {
    && (forall k :: 0 <= k < |places| ==> places[k] < |read|)
    && (forall j, k :: 0 <= j < k < |places| ==> places[j] < places[k])
    && (forall i: nat :: i < |read| ==> (i in places <==> Due(level, lso, aborted, read[i])))
  }

  lemma NextPlace(level: int, lso: int, aborted: seq<(i64, i64)>, read: seq<Entry>, e: Entry, places: seq<nat>)
    requires DuePlaces(level, lso, aborted, read, places)
    ensures Due(level, lso, aborted, e) ==> DuePlaces(level, lso, aborted, read + [e], places + [|read|])
    ensures !Due(level, lso, aborted, e) ==> DuePlaces(level, lso, aborted, read + [e], places)
  {
    hide Due;
    var all, more := read + [e], places + [|read|];
    assert |read| in more && |read| !in places;
    forall i: nat | i < |read|
      ensures (i in more <==> i in places) && (i in places <==> Due(level, lso, aborted, all[i]))
    {
      assert all[i] == read[i];
    }
  }

  /** A Fetch answers with the data of exactly the entries that are due, in the order of their places. */
  lemma {:induction false} FetchByPosition(level: int, lso: int, aborted: seq<(i64, i64)>, read: seq<Entry>)
    returns (places: seq<nat>)
    ensures DuePlaces(level, lso, aborted, read, places)
    ensures Filtered(level, lso, aborted, read) == DataAt(read, places)
  {
    hide Due, Delivers;
    if read == [] { return []; }
    var n := |read| - 1;
    var e := read[n];
    places := FetchByPosition(level, lso, aborted, read[..n]);
    assert read == read[..n] + [e];
    FilterLast(level, lso, aborted, read[..n], e, places);
    NextPlace(level, lso, aborted, read[..n], e, places);
    if Due(level, lso, aborted, e) { places := places + [n]; }
  }

  lemma FilterLast(level: int, lso: int, aborted: seq<(i64, i64)>, read: seq<Entry>, e: Entry, places: seq<nat>)
    requires forall k :: 0 <= k < |places| ==> places[k] < |read|
    requires Filtered(level, lso, aborted, read) == DataAt(read, places)
    ensures Filtered(level, lso, aborted, read + [e])
         == DataAt(read + [e], if Due(level, lso, aborted, e) then places + [|read|] else places)
  {
    hide Due, Filtered, DataAt;
    FilterAppends(level, lso, aborted, read, [e]);
    FilterOne(level, lso, aborted, e);
    DataAtPrefix(read, [e], places);
    DataAtNext(read + [e], places, |read|);
  }

  lemma FilterOne(level: int, lso: int, aborted: seq<(i64, i64)>, e: Entry)
    ensures Filtered(level, lso, aborted, [e]) == if Due(level, lso, aborted, e) then e.data else []
  {
    hide Due, Delivers;
    DeliversWhatIsDue(level, lso, aborted, e);
    var none: seq<Entry> := [];
    assert [e][1..] == none;
  }

  lemma DataAtNext(read: seq<Entry>, places: seq<nat>, n: nat)
    requires n < |read| && forall k :: 0 <= k < |places| ==> places[k] < |read|
    ensures DataAt(read, places + [n]) == DataAt(read, places) + read[n].data
  {
    assert (places + [n])[..|places|] == places;
  }

  // ---------- the partition object ----------

  class Partition {
    var nextOffset: i64
    var log: seq<Entry>
    var ongoingTxns: map<i64, i64>
    var abortedTxns: seq<(i64, i64)>
    var producerStates: map<i64, Accepted>

    function Abstract(): State
      reads this
    {
      State(nextOffset, log, ongoingTxns, abortedTxns, producerStates)
    }

    constructor ()
      ensures Abstract() == EMPTY
    {
      nextOffset, log, ongoingTxns, abortedTxns, producerStates := 0, [], map[], [], map[];
    }

    /** `durable` is the answer of the write-ahead log. */
    method AppendRecords(records: bytes, durable: bool) returns (r: Result<i64>)
      requires Walkable(records, 0, PATCHED_HEADER) && |records| < 0x8000_0000_0000_0000
      modifies this
      ensures Abstract() == Append(old(Abstract()), records, durable)
      ensures r == if durable then Ok(old(nextOffset)) else Err("wal")
    {
      hide PatchRecords, Attributes, TxnKey, Walkable;
      var base := nextOffset;
      var patched, count := PatchRecordBatches(records, base);
      if |patched| >= 61 && patched[16] == 2 {
        var key := TxnKey(patched);
        if IsTransactional(patched) && !IsControl(patched) && key != -1 {
          if key !in ongoingTxns { ongoingTxns := ongoingTxns[key := base]; }
        }
      }
      nextOffset := WrapI64(nextOffset + count);
      if !durable { return Err("wal"); }
      log := log + [Entry(base, patched)];
      return Ok(base);
    }

    method AppendIdempotentRecords(id: i64, epoch: i16, sequence: i32, records: bytes, durable: bool)
      returns (r: Outcome)
      requires Walkable(records, 0, PATCHED_HEADER) && |records| < 0x8000_0000_0000_0000
      modifies this
      ensures Abstract() == AppendIdempotent(old(Abstract()), id, epoch, sequence, records, durable)
      ensures r == IdempotentOutcome(old(Abstract()), id, epoch, sequence, durable)
    {
      hide Append, Walkable;
      if id in producerStates {
        var last := producerStates[id];
        if epoch < last.epoch { return Fenced; }
        if epoch == last.epoch {
          if sequence <= last.sequence { return Duplicate(last.offset); }
          var expected: i32 := last.sequence + 1;
          if sequence > expected { return OutOfOrder; }
        }
      }
      var appended := AppendRecords(records, durable);
      if appended.Err? { return NotDurable; }
      producerStates := producerStates[id := Accepted(epoch, sequence, appended.value)];
      return Appended(appended.value);
    }

    method CompleteTxn(id: i64)
      modifies this
      ensures Abstract() == Complete(old(Abstract()), id)
    {
      ongoingTxns := ongoingTxns - {id};
    }

    method RecordAbortedTxn(id: i64, firstOffset: i64)
      modifies this
      ensures Abstract() == Abort(old(Abstract()), id, firstOffset)
    {
      var actual := if id in ongoingTxns then ongoingTxns[id] else firstOffset;
      ongoingTxns := ongoingTxns - {id};
      abortedTxns := abortedTxns + [(id, actual)];
    }

    method LastStableOffset() returns (l: i64)
      ensures l == Lso(Abstract())
    {
      l := LeastOffset(ongoingTxns, nextOffset);
      LeastUnique(ongoingTxns, nextOffset, l, Lso(Abstract()));
    }
  }

  lemma LeastUnique(m: map<i64, i64>, bound: i64, l: int, k: int)
    requires Least(m, bound, l) && Least(m, bound, k)
    ensures l == k
  {
  }
}
