/** `patch_record_batches`: assigning offsets to the batches of a produced buffer, in place. */
module Patch {
  import opened Bytes
  import opened Batches
  import opened Crc32c

  /** One batch with its base offset and checksum rewritten. */
  function PatchBatch(b: bytes, offset: i64): (r: bytes)
    requires |b| >= PATCHED_HEADER
    ensures |r| == |b|
  {
    PutI64(offset) + b[8..17] + PutU32(Checksum(b[21..])) + b[21..]
  }

  /**
   * How many offsets the batch at the front takes: its last offset delta plus one. The field is
   * looked up in the buffer, so behind a batch shorter than 27 bytes it is read from what follows.
   */
  function Count(s: bytes): (n: nat)
    ensures n >= 1
  {
    if |s| >= 27 then (if LastOffsetDelta(s) > 0 then LastOffsetDelta(s) else 0) + 1 else 1
  }

  /** The buffer patched from `offset` on, and the next free offset; 64-bit sums wrap. */
  function PatchFrom(s: bytes, offset: i64): (r: (bytes, i64))
    ensures |r.0| == |s|
    decreases |s|
  {
    if Front(s, PATCHED_HEADER) then
      var n := Size(s, PATCHED_HEADER);
      var rest := PatchFrom(s[n..], WrapI64(offset + Count(s)));
      (PatchBatch(s[..n], offset) + rest.0, rest.1)
    else
      (s, offset)
  }

  /** The patched records and the number of offsets they take. */
  function PatchRecords(records: bytes, base: i64): (bytes, i64) {
    if |records| < PATCHED_HEADER then (records, 1)
    else
      var r := PatchFrom(records, base);
      var total := WrapI64(r.1 - base);
      (r.0, if total > 1 then total else 1)
  }

  /** Patching the first batch of what is left, after the bytes in `done`. */
  lemma PatchStep(done: bytes, s: bytes, offset: i64)
    requires Front(s, PATCHED_HEADER)
    ensures var n := Size(s, PATCHED_HEADER);
            var rest := PatchFrom(s[n..], WrapI64(offset + Count(s)));
            done + PatchFrom(s, offset).0 == done + PatchBatch(s[..n], offset) + rest.0 &&
            PatchFrom(s, offset).1 == rest.1
  {
    hide PatchBatch, Count, Front, Size;
  }

  method PatchRecordBatches(records: bytes, base: i64) returns (out: bytes, total: i64)
    requires Walkable(records, 0, PATCHED_HEADER) && |records| < 0x8000_0000_0000_0000
    ensures (out, total) == PatchRecords(records, base)
  {
    hide PatchBatch, Count, Walkable, Front, Size, PatchFrom, WrapI64;
    if |records| < PATCHED_HEADER {
      return records, 1;
    }
    var buf := Copied(records);
    var cursor := 0;
    var current: i64 := base;
    ghost var whole := PatchFrom(records, base);
    ghost var done, rest: bytes := [], records;
    assert [] + records == records && [] + whole.0 == whole.0;
    while cursor + PATCHED_HEADER <= buf.Length
      invariant buf.Length == |records| && |done| == cursor && buf[..] == done + rest
      invariant Walkable(rest, cursor, PATCHED_HEADER)
      invariant whole.0 == done + PatchFrom(rest, current).0
      invariant whole.1 == PatchFrom(rest, current).1
      decreases |rest|
    {
      var found, size, next := PatchNext(buf, cursor, current, done, rest);
      if !found { break; }
      FrontFacts(rest, cursor);
      PatchStep(done, rest, current);
      done, rest := done + PatchBatch(rest[..size], current), rest[size..];
      current := next;
      cursor := cursor + size;
    }
    NotFront(rest, current);
    out := buf[..];
    total := WrapI64(current - base);
    if total < 1 { total := 1; }
  }

  /** One iteration: recognise a batch at the cursor and patch it. */
  method PatchNext(buf: array<byte>, cursor: nat, current: i64, ghost done: bytes, ghost rest: bytes)
    returns (found: bool, size: nat, next: i64)
    requires buf[..] == done + rest && |done| == cursor && |rest| >= PATCHED_HEADER
    requires Walkable(rest, cursor, PATCHED_HEADER) && buf.Length < 0x8000_0000_0000_0000
    modifies buf
    ensures found == Front(rest, PATCHED_HEADER)
    ensures if found then size == Size(rest, PATCHED_HEADER) && next == WrapI64(current + Count(rest)) &&
                          buf[..] == done + PatchBatch(rest[..size], current) + rest[size..]
            else buf[..] == done + rest
  {
    hide PatchBatch, Count, Length, PastEnd, Walkable, WrapI64;
    var s := buf[cursor..];
    assert s == buf[..][cursor..] == rest;
    found, size, next := false, 0, current;
    if s[16] == 2 {
      var length: int := Length(s);
      WalkableStops(s, cursor, PATCHED_HEADER);
      PastEndIsNotFront(s, cursor, buf.Length, PATCHED_HEADER);
      if !PastEnd(cursor, length, buf.Length) {
        found, size := true, 12 + length;
        next := WrapI64(current + Count(s));
        PatchInPlace(buf, cursor, size, current, done, rest);
      }
    }
  }

  /** `BytesMut::from(records)`. */
  method Copied(records: bytes) returns (buf: array<byte>)
    ensures fresh(buf) && buf[..] == records
  {
    buf := new byte[|records|](i requires 0 <= i < |records| => records[i]);
  }

  lemma FrontFacts(s: bytes, cursor: nat)
    requires Front(s, PATCHED_HEADER) && Walkable(s, cursor, PATCHED_HEADER)
    ensures var n := Size(s, PATCHED_HEADER); Walkable(s[n..], cursor + n, PATCHED_HEADER)
  {
  }

  lemma NotFront(s: bytes, current: i64)
    requires |s| < PATCHED_HEADER || !Front(s, PATCHED_HEADER)
    ensures PatchFrom(s, current) == (s, current)
  {
  }

  /** The writes of one iteration: the base offset, then the checksum of bytes 21 and up. */
  method PatchInPlace(buf: array<byte>, cursor: nat, size: nat, offset: i64, ghost done: bytes, ghost rest: bytes)
    requires PATCHED_HEADER <= size <= |rest| && buf[..] == done + rest && |done| == cursor
    modifies buf
    ensures buf[..] == done + PatchBatch(rest[..size], offset) + rest[size..]
  {
    hide Checksum, PutI64, PutU32;
    ghost var batch, after := rest[..size], rest[size..];
    assert buf[..] == done + batch + after;
    Overwrite(buf, cursor, PutI64(offset));
    SpliceFirst(done, batch, after, PutI64(offset));
    assert buf[cursor + 21..cursor + size] == buf[..][cursor + 21..cursor + size];
    var crc := ComputeCrc32c(buf[cursor + 21..cursor + size]);
    Overwrite(buf, cursor + 17, PutU32(crc));
    SpliceSecond(done, batch, after, PutI64(offset), PutU32(crc));
  }

  lemma SpliceFirst(before: bytes, batch: bytes, after: bytes, x: bytes)
    requires |batch| >= 21 && |x| == 8
    ensures var b0 := before + batch + after;
            var b1 := b0[..|before|] + x + b0[|before| + 8..];
            b1 == before + (x + batch[8..]) + after && b1[|before| + 21..|before| + |batch|] == batch[21..]
  {
  }

  lemma SpliceSecond(before: bytes, batch: bytes, after: bytes, x: bytes, c: bytes)
    requires |batch| >= 21 && |x| == 8 && |c| == 4
    ensures var b1 := before + (x + batch[8..]) + after;
            var b2 := b1[..|before| + 17] + c + b1[|before| + 21..];
            b2 == before + (x + batch[8..17] + c + batch[21..]) + after
  {
  }

  /** `buf[at..at + data.len()].copy_from_slice(data)`. */
  method Overwrite(buf: array<byte>, at: nat, data: bytes)
    requires at + |data| <= buf.Length
    modifies buf
    ensures buf[..] == old(buf[..])[..at] + data + old(buf[..])[at + |data|..]
  {
    forall i | at <= i < at + |data| {
      buf[i] := data[i - at];
    }
  }

  // ---------- frame, tiling and algebra ----------

  /** Every batch holds its own last offset delta. */
  ghost predicate Roomy(bs: seq<bytes>) {
    forall i :: 0 <= i < |bs| ==> IsBatch(bs[i], PATCHED_HEADER) && |bs[i]| >= 27
  }

  function PatchList(bs: seq<bytes>, offset: i64): (ps: seq<bytes>)
    requires forall i :: 0 <= i < |bs| ==> |bs[i]| >= PATCHED_HEADER
    ensures |ps| == |bs| && forall i :: 0 <= i < |bs| ==> |ps[i]| == |bs[i]|
  {
    if bs == [] then []
    else [PatchBatch(bs[0], offset)] + PatchList(bs[1..], WrapI64(offset + Count(bs[0])))
  }

  /** The offsets a list of batches takes. */
  function Counts(bs: seq<bytes>): (n: nat)
    ensures n >= |bs|
  {
    if bs == [] then 0 else Count(bs[0]) + Counts(bs[1..])
  }

  lemma PatchBatchLayout(b: bytes, offset: i64)
    requires |b| >= PATCHED_HEADER
    ensures var p := PatchBatch(b, offset);
            p[..8] == PutI64(offset) && BaseOffset(p) == offset && p[8..17] == b[8..17] && p[21..] == b[21..] &&
            CrcValid(p)
  {
    hide Checksum, PutI64, PutU32;
    var p := PatchBatch(b, offset);
    var crc := PutU32(Checksum(b[21..]));
    assert p == PutI64(offset) + b[8..17] + crc + b[21..];
    assert p[..8] == PutI64(offset);
    assert p[17..21] == crc;
    assert p[21..] == b[21..];
  }

  lemma PatchedBatch(b: bytes, offset: i64)
    requires IsBatch(b, PATCHED_HEADER)
    ensures IsBatch(PatchBatch(b, offset), PATCHED_HEADER)
    ensures |b| >= 27 ==> Count(PatchBatch(b, offset)) == Count(b)
  {
    var p := PatchBatch(b, offset);
    PatchBatchLayout(b, offset);
    hide PatchBatch, GetI32;
    assert p[8..12] == p[8..17][..4] && b[8..12] == b[8..17][..4];
    assert p[16] == p[8..17][8] && b[16] == b[8..17][8];
    if |b| >= 27 { assert p[23..27] == p[21..][2..6] && b[23..27] == b[21..][2..6]; }
  }

  lemma PatchTwice(b: bytes, x: i64, y: i64)
    requires |b| >= PATCHED_HEADER
    ensures PatchBatch(PatchBatch(b, x), y) == PatchBatch(b, y)
  {
    PatchBatchLayout(b, x);
  }

  lemma {:induction false} PatchListFacts(bs: seq<bytes>, offset: i64)
    requires Roomy(bs)
    ensures var ps := PatchList(bs, offset);
            Roomy(ps) && Counts(ps) == Counts(bs) &&
            forall i :: 0 <= i < |bs| ==> ps[i][8..17] == bs[i][8..17] && ps[i][21..] == bs[i][21..] && CrcValid(ps[i])
  {
    hide PatchBatch, Count, IsBatch, CrcValid, WrapI64;
    if bs != [] {
      assert IsBatch(bs[0], PATCHED_HEADER);
      PatchedBatch(bs[0], offset);
      PatchBatchLayout(bs[0], offset);
      PatchListFacts(bs[1..], WrapI64(offset + Count(bs[0])));
    }
  }

  lemma {:induction false} PatchListTwice(bs: seq<bytes>, x: i64, y: i64)
    requires Roomy(bs)
    ensures PatchList(PatchList(bs, x), y) == PatchList(bs, y)
  {
    hide PatchBatch, Count, IsBatch, WrapI64;
    if bs != [] {
      PatchedBatch(bs[0], x);
      PatchTwice(bs[0], x, y);
      PatchListTwice(bs[1..], WrapI64(x + Count(bs[0])), WrapI64(y + Count(bs[0])));
    }
  }

  /** The loop patches the batches it finds and nothing else. */
  lemma {:induction false} PatchFromList(s: bytes, offset: i64)
    requires Roomy(Split(s, PATCHED_HEADER))
    ensures PatchFrom(s, offset).0 == Join(PatchList(Split(s, PATCHED_HEADER), offset)) + Rest(s, PATCHED_HEADER)
    ensures PatchFrom(s, offset).1 == WrapI64(offset + Counts(Split(s, PATCHED_HEADER)))
    decreases |s|
  {
    hide PatchBatch, IsBatch, Front, Size, Join, WrapI64, Count;
    if Front(s, PATCHED_HEADER) {
      var n := Size(s, PATCHED_HEADER);
      var bs := Split(s[n..], PATCHED_HEADER);
      assert Split(s, PATCHED_HEADER) == [s[..n]] + bs;
      assert forall i :: 0 <= i < |bs| ==> bs[i] == Split(s, PATCHED_HEADER)[i + 1];
      assert |s[..n]| >= 27 by { assert s[..n] == Split(s, PATCHED_HEADER)[0]; }
      CountIsLocal(s, n);
      var next := WrapI64(offset + Count(s));
      PatchFromList(s[n..], next);
      JoinCons(PatchBatch(s[..n], offset), PatchList(bs, next), Rest(s[n..], PATCHED_HEADER));
      assert ([s[..n]] + bs)[1..] == bs;
      WrapSum(offset, Count(s), Counts(bs));
    } else {
      JoinNothing(s);
      WrapIdentity(offset);
    }
  }

  lemma CountIsLocal(s: bytes, n: nat)
    requires 27 <= n <= |s|
    ensures Count(s[..n]) == Count(s)
  {
    assert s[..n][23..27] == s[23..27];
  }

  lemma WrapIdentity(x: i64)
    ensures WrapI64(x + 0) == x
  {
  }

  lemma {:induction false} WrapSum(x: i64, a: nat, b: nat)
    ensures WrapI64(WrapI64(x + a) + b) == WrapI64(x + a + b)
    decreases a
  {
    WrapShift(x + a, b);
  }

  lemma {:induction false} WrapShift(y: int, b: nat)
    requires y >= I64_MIN
    ensures WrapI64(WrapI64(y) + b) == WrapI64(y + b)
    decreases y - I64_MIN
  {
    if y > I64_MAX { WrapShift(y - 0x1_0000_0000_0000_0000, b); WrapOnce(y + b); }
  }

  lemma WrapOnce(z: int)
    requires z > I64_MAX
    ensures WrapI64(z) == WrapI64(z - 0x1_0000_0000_0000_0000)
  {
  }

  /** The batches of the patched buffer are the patched batches; the tail is untouched. */
  lemma PatchedSplit(s: bytes, base: i64)
    requires Roomy(Split(s, PATCHED_HEADER))
    ensures var p := PatchRecords(s, base).0;
            Split(p, PATCHED_HEADER) == PatchList(Split(s, PATCHED_HEADER), base) &&
            Rest(p, PATCHED_HEADER) == Rest(s, PATCHED_HEADER) && PatchFrom(s, base).0 == p
  {
    hide PatchBatch, Count, IsBatch, WrapI64, PatchFrom, PatchList, Split, Rest, Join, CrcValid;
    var bs := Split(s, PATCHED_HEADER);
    JoinOfSplit(s, PATCHED_HEADER);
    PatchListFacts(bs, base);
    if |s| < PATCHED_HEADER { NotFront(s, base); }
    PatchFromList(s, base);
    SplitOfJoin(PatchList(bs, base), Rest(s, PATCHED_HEADER), PATCHED_HEADER);
  }

  /**
   * Of each batch the patch changes bytes 0 to 8 and 17 to 21 only, it leaves every checksum
   * correct, and it changes nothing behind the last batch.
   */
  lemma PatchFrame(s: bytes, base: i64)
    requires Roomy(Split(s, PATCHED_HEADER))
    ensures var bs, ps := Split(s, PATCHED_HEADER), Split(PatchRecords(s, base).0, PATCHED_HEADER);
            |ps| == |bs| && Rest(PatchRecords(s, base).0, PATCHED_HEADER) == Rest(s, PATCHED_HEADER) &&
            forall i :: 0 <= i < |bs| ==>
              |ps[i]| == |bs[i]| >= 27 && ps[i][8..17] == bs[i][8..17] && ps[i][21..] == bs[i][21..] && CrcValid(ps[i])
  {
    hide PatchBatch, Count, IsBatch, WrapI64, PatchFrom, PatchList, Split, Rest, CrcValid, PatchRecords;
    PatchedSplit(s, base);
    PatchListFacts(Split(s, PATCHED_HEADER), base);
  }

  lemma PatchedIsWalkable(s: bytes, base: i64)
    requires Roomy(Split(s, PATCHED_HEADER))
    ensures Walkable(PatchRecords(s, base).0, 0, PATCHED_HEADER) <==> Walkable(s, 0, PATCHED_HEADER)
  {
    hide PatchList, Split, Rest, Join, PatchRecords, PatchFrom, Walkable, Stops, Roomy, Count;
    var bs, t, p := Split(s, PATCHED_HEADER), Rest(s, PATCHED_HEADER), PatchRecords(s, base).0;
    PatchedSplit(s, base);
    JoinOfSplit(s, PATCHED_HEADER);
    JoinOfSplit(p, PATCHED_HEADER);
    JoinSize(Split(p, PATCHED_HEADER), bs);
    WalkableIffTailStops(bs, t, 0, PATCHED_HEADER);
    WalkableIffTailStops(Split(p, PATCHED_HEADER), t, 0, PATCHED_HEADER);
  }

  /** Patching again may be done whenever the first patch may, and is as if that had not happened. */
  lemma PatchAbsorbs(s: bytes, a: i64, b: i64)
    requires Roomy(Split(s, PATCHED_HEADER))
    ensures PatchRecords(PatchRecords(s, a).0, b) == PatchRecords(s, b)
    ensures Walkable(PatchRecords(s, a).0, 0, PATCHED_HEADER) <==> Walkable(s, 0, PATCHED_HEADER)
  {
    hide PatchBatch, Count, IsBatch, WrapI64, PatchFrom, PatchList, Split, Rest, Join, CrcValid, Counts, Walkable;
    PatchedIsWalkable(s, a);
    var bs := Split(s, PATCHED_HEADER);
    PatchedSplit(s, a);
    PatchListFacts(bs, a);
    PatchListTwice(bs, a, b);
    PatchFromList(s, b);
    PatchFromList(PatchRecords(s, a).0, b);
  }

  /** Adjacent offset ranges, the first starting at `from` and the last ending at `to`. */
  ghost predicate Tiles(ps: seq<bytes>, from: int, to: int) {
    if ps == [] then from == to
    else |ps[0]| >= 27 && BaseOffset(ps[0]) == from && Tiles(ps[1..], from + Count(ps[0]), to)
  }

  lemma {:induction false} PatchListTiles(bs: seq<bytes>, base: i64)
    requires Roomy(bs) && base + Counts(bs) <= I64_MAX
    ensures Tiles(PatchList(bs, base), base, base + Counts(bs))
  {
    hide PatchBatch, Count, IsBatch, BaseOffset, WrapI64;
    if bs != [] {
      var next := base + Count(bs[0]);
      WrapIdentity(next);
      PatchedBatch(bs[0], base);
      PatchBatchLayout(bs[0], base);
      PatchListTiles(bs[1..], next);
      assert PatchList(bs, base)[1..] == PatchList(bs[1..], next);
    }
  }

  /**
   * The batches' offset ranges tile the range from the base to the base plus the returned count,
   * without gap or overlap, as long as offsets stay within 63 bits.
   */
  lemma PatchTiles(s: bytes, base: i64)
    requires Roomy(Split(s, PATCHED_HEADER)) && 0 <= base <= I64_MAX - Counts(Split(s, PATCHED_HEADER))
    ensures var ps := Split(PatchRecords(s, base).0, PATCHED_HEADER);
            var total := PatchRecords(s, base).1;
            if ps == [] then total == 1 else Tiles(ps, base, base + total)
  {
    hide PatchBatch, Count, IsBatch, PatchFrom, PatchList, Split, Rest, Join, CrcValid, BaseOffset, Tiles;
    var bs := Split(s, PATCHED_HEADER);
    PatchedSplit(s, base);
    PatchListTiles(bs, base);
    PatchFromList(s, base);
    ShortSplit(s);
  }

  lemma ShortSplit(s: bytes)
    ensures |s| < PATCHED_HEADER ==> Split(s, PATCHED_HEADER) == []
  {
  }

  // ---------- the offsets, from the header fields ----------

  /** The first offset behind a batch: its base, plus its last offset delta unless that is negative, plus one. */
  ghost function End(b: bytes): int
    requires |b| >= 27
  {
    BaseOffset(b) + (if LastOffsetDelta(b) > 0 then LastOffsetDelta(b) else 0) + 1
  }

  /** The last offset deltas that are positive, plus one for every batch. */
  ghost function Reach(bs: seq<bytes>): nat
    requires Roomy(bs)
  {
    if bs == [] then 0
    else (if LastOffsetDelta(bs[0]) > 0 then LastOffsetDelta(bs[0]) else 0) + 1 + Reach(bs[1..])
  }

  lemma {:induction false} CountsReach(bs: seq<bytes>)
    requires Roomy(bs)
    ensures Counts(bs) == Reach(bs)
  {
    hide IsBatch, LastOffsetDelta;
    if bs != [] { CountsReach(bs[1..]); }
  }

  lemma PatchedEnd(b: bytes, offset: i64)
    requires IsBatch(b, PATCHED_HEADER) && |b| >= 27
    ensures End(PatchBatch(b, offset)) == offset + Reach([b])
  {
    var p := PatchBatch(b, offset);
    PatchBatchLayout(b, offset);
    hide PatchBatch, GetI32, BaseOffset, CrcValid;
    assert p[23..27] == p[21..][2..6] && b[23..27] == b[21..][2..6];
  }

  /** Each batch starts where the one before ends. */
  ghost predicate Adjacent(ps: seq<bytes>) {
    (forall i :: 0 <= i < |ps| ==> |ps[i]| >= 27) &&
    forall i :: 0 < i < |ps| ==> BaseOffset(ps[i]) == End(ps[i - 1])
  }

  lemma {:induction false} PatchListAssigns(bs: seq<bytes>, base: i64)
    requires Roomy(bs) && base + Reach(bs) <= I64_MAX
    ensures var ps := PatchList(bs, base);
            Adjacent(ps) &&
            (ps != [] ==> BaseOffset(ps[0]) == base && End(ps[|ps| - 1]) == base + Reach(bs))
  {
    hide PatchBatch, Count, IsBatch, BaseOffset, End, LastOffsetDelta, WrapI64, CrcValid;
    if bs != [] {
      var p, ps := PatchBatch(bs[0], base), PatchList(bs, base);
      PatchedEnd(bs[0], base);
      PatchBatchLayout(bs[0], base);
      CountsReach([bs[0]]);
      assert Counts([bs[0]]) == Count(bs[0]) && Reach(bs) == Reach([bs[0]]) + Reach(bs[1..]);
      var next: int := base + Count(bs[0]);
      WrapIdentity(next);
      PatchListAssigns(bs[1..], next);
      assert ps == [p] + PatchList(bs[1..], next);
    }
  }

  /**
   * Read off the header fields of the patched buffer, within 63 bits: the first batch starts at the base, each
   * further one at the base of the batch before it plus that batch's last offset delta, none if negative, plus one,
   * and the returned number of offsets is the end of the last batch less the base.
   */
  lemma PatchAssigns(s: bytes, base: i64)
    requires Roomy(Split(s, PATCHED_HEADER)) && 0 <= base && base + Reach(Split(s, PATCHED_HEADER)) <= I64_MAX
    ensures var (out, total) := PatchRecords(s, base);
            var ps := Split(out, PATCHED_HEADER);
            |ps| == |Split(s, PATCHED_HEADER)| &&
            if ps == [] then total == 1
            else Roomy(ps) && BaseOffset(ps[0]) == base &&
                 (forall i :: 0 < i < |ps| ==>
                    var a, b := ps[i - 1], ps[i];
                    BaseOffset(b) == BaseOffset(a) + (if LastOffsetDelta(a) > 0 then LastOffsetDelta(a) else 0) + 1) &&
                 var z := ps[|ps| - 1];
                 total == BaseOffset(z) + (if LastOffsetDelta(z) > 0 then LastOffsetDelta(z) else 0) + 1 - base
  {
    hide PatchBatch, Count, IsBatch, PatchFrom, PatchList, Split, Rest, CrcValid, BaseOffset, LastOffsetDelta, Counts,
      Reach;
    var bs := Split(s, PATCHED_HEADER);
    PatchedSplit(s, base);
    PatchListFacts(bs, base);
    PatchListAssigns(bs, base);
    CountsReach(bs);
    PatchFromList(s, base);
    ShortSplit(s);
    ReachOfNone(bs);
  }

  lemma ReachOfNone(bs: seq<bytes>)
    requires Roomy(bs)
    ensures Reach(bs) == 0 <==> bs == []
  {
  }
}
