/**
 * Record batches, format version 2 (section 5.3.1 of the Apache Kafka documentation): where the
 * fields are, and how the cursor loops cut a buffer into batches and a tail.
 */
module Batches {
  import opened Bytes
  import opened Crc32c

  const HEADER: nat := 61
  const PATCHED_HEADER: nat := 21
  const MAGIC: byte := 2

  // ---------- fields ----------

  function Length(b: bytes): i32 requires |b| >= 12 { GetI32(b[8..12]) }
  function BaseOffset(b: bytes): i64 requires |b| >= 8 { GetI64(b[..8]) }
  function CrcField(b: bytes): u32 requires |b| >= 21 { GetU32(b[17..21]) }
  function Attributes(b: bytes): i16 requires |b| >= 23 { GetI16(b[21..23]) }
  function LastOffsetDelta(b: bytes): i32 requires |b| >= 27 { GetI32(b[23..27]) }
  function BaseTimestamp(b: bytes): i64 requires |b| >= 35 { GetI64(b[27..35]) }
  function ProducerId(b: bytes): i64 requires |b| >= 51 { GetI64(b[43..51]) }
  function ProducerEpoch(b: bytes): i16 requires |b| >= 53 { GetI16(b[51..53]) }
  function RecordCount(b: bytes): i32 requires |b| >= 61 { GetI32(b[57..61]) }

  predicate CrcValid(b: bytes) requires |b| >= 21 { CrcField(b) == Checksum(b[21..]) }

  // ---------- cutting a buffer into batches ----------

  /** A whole batch of at least `min` bytes. */
  predicate IsBatch(b: bytes, min: nat)
    requires min >= 21
  {
    |b| >= min && b[16] == MAGIC && 12 + Length(b) == |b|
  }

  /** The buffer starts with a whole batch of at least `min` bytes. */
  predicate Front(s: bytes, min: nat)
    requires min >= 21
  {
    |s| >= min && s[16] == MAGIC && min <= 12 + Length(s) <= |s|
  }

  function Size(s: bytes, min: nat): (n: nat)
    requires min >= 21 && Front(s, min)
    ensures min <= n <= |s|
  {
    12 + Length(s)
  }

  function Split(s: bytes, min: nat): seq<bytes>
    requires min >= 21
    decreases |s|
  {
    if Front(s, min) then [s[..Size(s, min)]] + Split(s[Size(s, min)..], min) else []
  }

  function Rest(s: bytes, min: nat): bytes
    requires min >= 21
    decreases |s|
  {
    if Front(s, min) then Rest(s[Size(s, min)..], min) else s
  }

  /**
   * What the loops need of a buffer in order not to slice out of range, `s` being what is left
   * at `cursor`: a version 2 header announces at least `min` bytes, or a length so negative that
   * the unsigned sum of cursor and size does not wrap and is past the end.
   */
  predicate Walkable(s: bytes, cursor: nat, min: nat)
    requires min >= 21
    decreases |s|
  {
    && (|s| >= min && s[16] == MAGIC ==> 12 + Length(s) >= min || cursor + 12 + Length(s) < 0)
    && (Front(s, min) ==> Walkable(s[Size(s, min)..], cursor + Size(s, min), min))
  }

  /**
   * The same of what trails the last batch, `n` bytes into the buffer. The header it may pretend to be must not
   * announce a size the loop would follow backwards or into the header.
   */
  predicate Stops(n: nat, t: bytes, min: nat)
    requires min >= 21
  {
    |t| >= min && t[16] == MAGIC ==> 12 + Length(t) >= min || n + 12 + Length(t) < 0
  }

  function Join(bs: seq<bytes>): bytes {
    if bs == [] then [] else bs[0] + Join(bs[1..])
  }

  ghost predicate AllBatches(bs: seq<bytes>, min: nat)
    requires min >= 21
  {
    forall i :: 0 <= i < |bs| ==> IsBatch(bs[i], min)
  }

  lemma FrontOfBatch(b: bytes, t: bytes, min: nat)
    requires min >= 21 && IsBatch(b, min)
    ensures Front(b + t, min) && Size(b + t, min) == |b|
    ensures (b + t)[..|b|] == b && (b + t)[|b|..] == t
  {
    assert (b + t)[8..12] == b[8..12];
  }

  lemma BatchOfFront(s: bytes, min: nat)
    requires min >= 21 && Front(s, min)
    ensures IsBatch(s[..Size(s, min)], min)
  {
    assert s[..Size(s, min)][8..12] == s[8..12];
  }

  /** Cutting takes batches and tail apart again. */
  lemma {:induction false} SplitOfJoin(bs: seq<bytes>, t: bytes, min: nat)
    requires min >= 21 && AllBatches(bs, min) && !Front(t, min)
    ensures Split(Join(bs) + t, min) == bs && Rest(Join(bs) + t, min) == t
  {
    hide Length, IsBatch;
    if bs == [] {
      assert Join(bs) + t == t;
    } else {
      var u := Join(bs[1..]) + t;
      assert Join(bs) + t == bs[0] + u;
      assert IsBatch(bs[0], min);
      FrontOfBatch(bs[0], u, min);
      SplitOfJoin(bs[1..], t, min);
      assert bs == [bs[0]] + bs[1..];
    }
  }

  /** Every buffer is the batches found in it followed by a tail that is not a batch. */
  lemma JoinOfSplit(s: bytes, min: nat)
    requires min >= 21
    ensures Join(Split(s, min)) + Rest(s, min) == s
    ensures AllBatches(Split(s, min), min) && !Front(Rest(s, min), min)
  {
    SplitLosesNothing(s, min);
    SplitFindsBatches(s, min);
  }

  /** A buffer can be walked exactly when its tail stops the walk where it lies. */
  lemma {:induction false} WalkableIffTailStops(bs: seq<bytes>, t: bytes, cursor: nat, min: nat)
    requires min >= 21 && AllBatches(bs, min) && !Front(t, min)
    ensures Walkable(Join(bs) + t, cursor, min) <==> Stops(cursor + |Join(bs)|, t, min)
  {
    hide Length, IsBatch, Front;
    if bs == [] {
      assert Join(bs) + t == t;
    } else {
      var u := Join(bs[1..]) + t;
      assert Join(bs) + t == bs[0] + u;
      assert IsBatch(bs[0], min);
      FrontOfBatch(bs[0], u, min);
      WalkFront(bs[0] + u, cursor, min);
      WalkableIffTailStops(bs[1..], t, cursor + |bs[0]|, min);
    }
  }

  lemma WalkableStops(s: bytes, cursor: nat, min: nat)
    requires min >= 21 && Walkable(s, cursor, min)
    ensures Stops(cursor, s, min)
  {
  }

  lemma WalkFront(s: bytes, cursor: nat, min: nat)
    requires min >= 21 && Front(s, min)
    ensures Walkable(s, cursor, min) <==> Walkable(s[Size(s, min)..], cursor + Size(s, min), min)
  {
    hide Length;
  }

  lemma {:induction false} SplitLosesNothing(s: bytes, min: nat)
    requires min >= 21
    ensures Join(Split(s, min)) + Rest(s, min) == s
    decreases |s|
  {
    hide Front, Size, Join, Split, Rest;
    SplitStep(s, min);
    if Front(s, min) {
      var n := Size(s, min);
      SplitLosesNothing(s[n..], min);
      JoinCons(s[..n], Split(s[n..], min), Rest(s[n..], min));
      assert s == s[..n] + s[n..];
    } else {
      JoinNothing(s);
    }
  }

  lemma SplitStep(s: bytes, min: nat)
    requires min >= 21
    ensures if Front(s, min) then
              var n := Size(s, min);
              Split(s, min) == [s[..n]] + Split(s[n..], min) && Rest(s, min) == Rest(s[n..], min)
            else Split(s, min) == [] && Rest(s, min) == s
  {
    hide Length;
  }

  lemma JoinNothing(t: bytes)
    ensures Join([]) + t == t
  {
  }

  lemma {:induction false} SplitFindsBatches(s: bytes, min: nat)
    requires min >= 21
    ensures AllBatches(Split(s, min), min) && !Front(Rest(s, min), min)
    decreases |s|
  {
    hide Front, Size, IsBatch;
    if Front(s, min) {
      BatchOfFront(s, min);
      SplitFindsBatches(s[Size(s, min)..], min);
    }
  }

  lemma JoinCons(b: bytes, bs: seq<bytes>, t: bytes)
    ensures Join([b] + bs) + t == b + (Join(bs) + t)
  {
    assert ([b] + bs)[1..] == bs;
  }

  lemma {:induction false} JoinSize(bs: seq<bytes>, cs: seq<bytes>)
    requires |bs| == |cs| && forall i :: 0 <= i < |bs| ==> |bs[i]| == |cs[i]|
    ensures |Join(bs)| == |Join(cs)|
  {
    if bs != [] { JoinSize(bs[1..], cs[1..]); }
  }

  lemma {:induction false} JoinAppend(bs: seq<bytes>, b: bytes)
    ensures Join(bs + [b]) == Join(bs) + b
  {
    if bs == [] {
      assert bs + [b] == [b];
      assert Join([b]) == b + [];
    } else {
      assert (bs + [b])[1..] == bs[1..] + [b];
      JoinAppend(bs[1..], b);
    }
  }

  /** With only full headers in the buffer, the loops with the two limits see the same batches. */
  lemma {:induction false} SameSplit(s: bytes)
    requires forall b :: b in Split(s, PATCHED_HEADER) ==> |b| >= HEADER
    ensures Split(s, PATCHED_HEADER) == Split(s, HEADER) && Rest(s, PATCHED_HEADER) == Rest(s, HEADER)
    decreases |s|
  {
    hide Length;
    if Front(s, PATCHED_HEADER) {
      var n := Size(s, PATCHED_HEADER);
      assert s[..n] in Split(s, PATCHED_HEADER);
      assert forall b :: b in Split(s[n..], PATCHED_HEADER) ==> b in Split(s, PATCHED_HEADER);
      SameSplit(s[n..]);
    }
  }

  // ---------- rebuilding a batch around a payload ----------

  /** The batch `b` with new attributes and payload, its length and checksum recomputed. */
  function Rebuild(b: bytes, attributes: i16, payload: bytes): bytes
    requires |b| >= HEADER
  {
    var body := PutI16(attributes) + b[23..61] + payload;
    b[..8] + PutI32(WrapI32(49 + |payload|)) + b[12..16] + [MAGIC] + PutU32(Checksum(body)) + body
  }

  lemma RebuildLayout(b: bytes, attributes: i16, payload: bytes)
    requires |b| >= HEADER
    ensures var r := Rebuild(b, attributes, payload);
            |r| == 61 + |payload| && r[..8] == b[..8] && r[12..16] == b[12..16] && r[16] == MAGIC &&
            Length(r) == WrapI32(49 + |payload|) && Attributes(r) == attributes && r[23..61] == b[23..61] &&
            r[61..] == payload && CrcValid(r)
  {
    hide Checksum, PutI16, PutI32, PutU32;
    var body := PutI16(attributes) + b[23..61] + payload;
    var len, crc := PutI32(WrapI32(49 + |payload|)), PutU32(Checksum(body));
    var r := Rebuild(b, attributes, payload);
    assert r == b[..8] + len + b[12..16] + [MAGIC] + crc + body;
    assert r[8..12] == len;
    assert r[17..21] == crc;
    assert r[21..] == body;
    assert r[21..23] == PutI16(attributes);
    assert r[23..61] == b[23..61];
    assert r[61..] == payload;
  }

  /** A batch that already has these attributes, length and checksum is rebuilt to itself. */
  lemma RebuildSame(b: bytes)
    requires IsBatch(b, HEADER)
    ensures Rebuild(b, Attributes(b), b[61..]) == b <==> CrcValid(b)
  {
    RebuildLayout(b, Attributes(b), b[61..]);
    var r := Rebuild(b, Attributes(b), b[61..]);
    if CrcValid(b) {
      PutI32OfGet(b[8..12]);
      PutI16OfGet(b[21..23]);
      PutU32OfGet(b[17..21]);
      hide Checksum, PutI16, PutI32, PutU32, GetI32, GetI16, GetU32;
      var body := PutI16(Attributes(b)) + b[23..61] + b[61..];
      assert body == b[21..];
      assert b == b[..8] + b[8..12] + b[12..16] + [b[16]] + b[17..21] + b[21..];
      assert r == b;
    }
  }

  /** Rebuilding looks only at the fields it keeps. */
  lemma RebuildAgain(b: bytes, c: bytes, attributes: i16, payload: bytes)
    requires |b| >= HEADER && |c| >= HEADER
    requires b[..8] == c[..8] && b[12..16] == c[12..16] && b[23..61] == c[23..61]
    ensures Rebuild(b, attributes, payload) == Rebuild(c, attributes, payload)
  {
  }

  // ---------- the loops' arithmetic and writes ----------

  const USIZE: nat := 0x1_0000_0000_0000_0000

  /** `cursor + (12 + length as usize) > size` in wrapping 64-bit arithmetic. */
  predicate PastEnd(cursor: nat, length: i32, size: nat) {
    var total := (12 + (if length < 0 then length + USIZE else length)) % USIZE;
    (cursor + total) % USIZE > size
  }

  /** Where a walk can go on or stops, the wrapping comparison is the intended one. */
  lemma PastEndIsNotFront(s: bytes, cursor: nat, size: nat, min: nat)
    requires min >= 21 && |s| >= min && s[16] == MAGIC && Stops(cursor, s, min)
    requires size == cursor + |s| < 0x8000_0000_0000_0000
    ensures PastEnd(cursor, Length(s), size) <==> !Front(s, min)
    ensures !PastEnd(cursor, Length(s), size) ==> 12 + Length(s) >= min
  {
    hide Length;
  }

  /** A rebuilt batch appended to a buffer: the checksum is written last, over its placeholder. */
  method AppendRebuilt(out: bytes, b: bytes, attributes: i16, payload: bytes) returns (r: bytes)
    requires |b| >= HEADER
    ensures r == out + Rebuild(b, attributes, payload)
  {
    hide PutI16, PutI32, PutU32, WrapI32, Crc32c.Checksum;
    var start := |out|;
    r := out + b[..8] + PutI32(WrapI32(49 + |payload|)) + b[12..16] + [MAGIC] + PutU32(0);
    r := r + (PutI16(attributes) + b[23..61] + payload);
    ghost var head := b[..8] + PutI32(WrapI32(49 + |payload|)) + b[12..16] + [MAGIC];
    ghost var body := PutI16(attributes) + b[23..61] + payload;
    assert r == out + head + PutU32(0) + body;
    Overwritten(out + head, PutU32(0), body);
    var crc := ComputeCrc32c(r[start + 21..]);
    r := r[..start + 17] + PutU32(crc) + r[start + 21..];
    assert out + head + PutU32(crc) + body == out + (head + PutU32(crc) + body);
  }

  lemma Overwritten(head: bytes, field: bytes, body: bytes)
    ensures (head + field + body)[..|head|] == head && (head + field + body)[|head| + |field|..] == body
  {
  }

  lemma Slice(b: bytes, lo: nat, hi: nat, i: nat, j: nat)
    requires lo <= hi <= |b| && i <= j <= hi - lo
    ensures b[lo..hi][i..j] == b[lo + i..lo + j]
  {
    var s, t := b[lo..hi], b[lo + i..lo + j];
    forall k | 0 <= k < j - i
      ensures s[i..j][k] == t[k]
    {
      assert s[i..j][k] == s[i + k] == b[lo + (i + k)] == t[k];
    }
  }
}
