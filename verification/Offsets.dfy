/** The offsets consumers see in a patched buffer. */
module Offsets {
  import opened Bytes
  import opened Batches
  import opened Records
  import opened Transcode
  import opened Patch
  import opened Pipeline

  /** Record deltas as producers write them: none beyond the batch's last offset delta, and increasing. */
  ghost predicate Ordered(deltas: seq<Record>, last: int) {
    Increasing(deltas) && forall i :: 0 <= i < |deltas| ==> 0 <= deltas[i].offset <= last
  }

  ghost predicate Increasing(rs: seq<Record>) {
    forall i, j :: 0 <= i < j < |rs| ==> rs[i].offset < rs[j].offset
  }

  ghost predicate Between(rs: seq<Record>, from: int, to: int) {
    forall i :: 0 <= i < |rs| ==> from <= rs[i].offset < to
  }

  /** The payload of the batch parses, and its deltas are in order. */
  ghost predicate WellNumbered(lib: Library, b: bytes)
    requires |b| >= HEADER
  {
    && Contents(lib, b).Ok?
    && var deltas := ParseRecords(Contents(lib, b).value, RecordCount(b));
       deltas.Ok? && Ordered(deltas.value, LastOffsetDelta(b))
  }

  /** The same of a batch already decompressed, against the last offset delta of the one that was sent. */
  ghost predicate Numbered(d: bytes, last: int)
    requires |d| >= HEADER
  {
    var deltas := ParseRecords(d[61..], RecordCount(d));
    deltas.Ok? && Ordered(deltas.value, last)
  }

  lemma DecompressedNumbered(lib: Library, b: bytes, d: bytes)
    requires IsBatch(b, HEADER) && DecompressBatch(lib, b) == Ok(d) && |d| <= 12 + I32_MAX && WellNumbered(lib, b)
    ensures Numbered(d, LastOffsetDelta(b))
  {
    hide DecompressBatch, ParseRecords, RecordCount, BaseOffset, BaseTimestamp, Ordered, Contents, IsBatch;
    DecompressedBatch(lib, b, d);
    SameReadings(b, d);
  }

  lemma PlacedInOrder(deltas: seq<Record>, last: int, base: i64, timestamp: i64)
    requires Ordered(deltas, last) && 0 <= base && base + last < I64_MAX
    ensures var rs := At(base, timestamp, deltas);
            Increasing(rs) && Between(rs, base, base + last + 1) && |rs| == |deltas|
  {
    hide At;
    var rs := At(base, timestamp, deltas);
    forall i | 0 <= i < |rs|
      ensures rs[i].offset == base + deltas[i].offset
    {
      assert rs[i] == Absolute(deltas[i], base, timestamp);
    }
  }

  lemma JoinedInOrder(a: seq<Record>, b: seq<Record>, from: int, mid: int, to: int)
    requires Increasing(a) && Increasing(b) && Between(a, from, mid) && Between(b, mid, to) && from <= mid <= to
    ensures Increasing(a + b) && Between(a + b, from, to)
  {
  }

  lemma {:induction false} ParsedInOrder(ds: seq<bytes>, bs: seq<bytes>, base: i64)
    requires |ds| == |bs| && Roomy(bs) && forall i :: 0 <= i < |ds| ==> |ds[i]| >= HEADER
    requires forall i :: 0 <= i < |ds| ==> Numbered(ds[i], LastOffsetDelta(bs[i]))
    requires 0 <= base && base + Reach(bs) <= I64_MAX
    ensures var rs := ParseWith(ds, Assigned(bs, base));
            rs.Ok? && Increasing(rs.value) && Between(rs.value, base, base + Reach(bs))
  {
    hide ParseWith, IsBatch, LastOffsetDelta, Increasing, Between, Numbered, Count;
    if bs == [] {
      NoneInOrder(ds, Assigned(bs, base), base);
    } else {
      var next: int := base + Count(bs[0]);
      FirstStep(bs, base, next);
      ParsedInOrder(ds[1..], bs[1..], next);
      FirstInOrder(ds, [base] + Assigned(bs[1..], next), LastOffsetDelta(bs[0]), next, base + Reach(bs));
    }
  }

  lemma NoneInOrder(ds: seq<bytes>, offsets: seq<i64>, base: int)
    requires ds == [] && offsets == []
    ensures ParseWith(ds, offsets) == Ok([]) && Increasing([]) && Between([], base, base)
  {
  }

  lemma FirstStep(bs: seq<bytes>, base: i64, next: int)
    requires Roomy(bs) && bs != [] && base + Reach(bs) <= I64_MAX && next == base + Count(bs[0])
    ensures next == base + (if LastOffsetDelta(bs[0]) > 0 then LastOffsetDelta(bs[0]) else 0) + 1
    ensures next + Reach(bs[1..]) == base + Reach(bs) && Roomy(bs[1..])
    ensures Assigned(bs, base) == [base] + Assigned(bs[1..], next)
  {
    hide IsBatch, LastOffsetDelta;
  }

  lemma FirstInOrder(ds: seq<bytes>, offsets: seq<i64>, last: int, next: int, to: int)
    requires |ds| == |offsets| > 0 && (forall i :: 0 <= i < |ds| ==> |ds[i]| >= HEADER)
    requires Numbered(ds[0], last) && 0 <= offsets[0] && next <= I64_MAX && next <= to
    requires next == offsets[0] + (if last > 0 then last else 0) + 1
    requires var rest := ParseWith(ds[1..], offsets[1..]);
             rest.Ok? && Increasing(rest.value) && Between(rest.value, next, to)
    ensures var rs := ParseWith(ds, offsets);
            rs.Ok? && Increasing(rs.value) && Between(rs.value, offsets[0], to)
  {
    hide ParseRecords, RecordCount, BaseTimestamp, Increasing, Between, Ordered, At;
    var base := offsets[0];
    var deltas := ParseRecords(ds[0][61..], RecordCount(ds[0])).value;
    PlacedBefore(deltas, last, base, BaseTimestamp(ds[0]), next);
    JoinedInOrder(At(base, BaseTimestamp(ds[0]), deltas), ParseWith(ds[1..], offsets[1..]).value, base, next, to);
  }

  lemma PlacedBefore(deltas: seq<Record>, last: int, base: i64, timestamp: i64, next: int)
    requires Ordered(deltas, last) && 0 <= base && next <= I64_MAX
    requires next == base + (if last > 0 then last else 0) + 1
    ensures var rs := At(base, timestamp, deltas);
            Increasing(rs) && Between(rs, base, next)
  {
    if deltas == [] {
      assert |At(base, timestamp, deltas)| == 0;
    } else {
      assert 0 <= deltas[0].offset <= last;
      PlacedInOrder(deltas, last, base, timestamp);
    }
  }

  lemma DecompressedCut(lib: Library, s: bytes)
    requires DecompressAll(lib, Batch(s)).Ok? && Small(DecompressAll(lib, Batch(s)).value)
    ensures AllBatches(Batch(s), HEADER)
    ensures Decompress(lib, s).Ok? && Batch(Decompress(lib, s).value) == DecompressAll(lib, Batch(s)).value
  {
    hide Batch, Tail, Join, DecompressAll;
    var ds := DecompressAll(lib, Batch(s)).value;
    DecompressedList(lib, Batch(s), ds);
    Recut(ds, Tail(s));
  }

  lemma TotalIsReach(s: bytes, base: i64)
    requires FullHeaders(s) && Roomy(Batch(s)) && 0 <= base && base + Reach(Batch(s)) <= I64_MAX
    ensures Reach(Batch(s)) <= PatchRecords(s, base).1
  {
    hide Batch, Split, Rest, Tail, Roomy, Reach, Counts, PatchFrom, FullHeaders;
    var bs := Batch(s);
    SameTail(s);
    CountsReach(bs);
    ReachOfNone(bs);
    PatchFromList(s, base);
    ShortSplit(s);
  }

  /**
   * When the record deltas of every batch increase and lie between 0 and the batch's last offset delta, the offsets
   * parsed from the patched buffer strictly increase from the first record to the last, across batches and
   * codecs, and lie between the base and the next free offset.
   */
  lemma OffsetsIncrease(lib: Library, s: bytes, base: i64)
    requires FullHeaders(s) && Walkable(s, 0, PATCHED_HEADER) && |s| < 0x8000_0000_0000_0000
    requires DecompressAll(lib, Batch(s)).Ok? && Small(DecompressAll(lib, Batch(s)).value) && ParseReturns(lib, s)
    requires forall i :: 0 <= i < |Batch(s)| ==> WellNumbered(lib, Batch(s)[i])
    requires Roomy(Batch(s)) && 0 <= base && base + Reach(Batch(s)) <= I64_MAX
    ensures var (out, total) := PatchRecords(s, base);
            ParseReturns(lib, out) &&
            var rs := Parse(lib, out);
            rs.Ok? && Increasing(rs.value) && Between(rs.value, base, base + total)
  {
    hide Batch, Decompress, DecompressAll, Parse, ParseWith, Assigned, ParseReturns, PatchRecords, WellNumbered,
      Numbered, Readable, FullHeaders, Walkable, Reach, Roomy, Increasing, Between, Tail, DecompressBatch;
    var bs := Batch(s);
    var ds := DecompressAll(lib, bs).value;
    PatchCommutesWithParse(lib, s, base);
    DecompressedCut(lib, s);
    forall i | 0 <= i < |bs|
      ensures Numbered(ds[i], LastOffsetDelta(bs[i]))
    {
      DecompressedNumbered(lib, bs[i], ds[i]);
    }
    ParsedInOrder(ds, bs, base);
    TotalIsReach(s, base);
    BetweenWider(ParseWith(ds, Assigned(bs, base)).value, base, base + Reach(bs), base + PatchRecords(s, base).1);
  }

  lemma BetweenWider(rs: seq<Record>, from: int, to: int, wider: int)
    requires Between(rs, from, to) && to <= wider
    ensures Between(rs, from, wider)
  {
  }
}
