/**
 * Whole batches: the encoders of `messages.rs`, and the path of records through the broker:
 * encoded by a producer, patched on append, transcoded on fetch, parsed by a consumer.
 */
module Pipeline {
  import opened Bytes
  import opened Batches
  import opened Crc32c
  import opened Patch
  import opened Records
  import opened Transcode
  import Varint

  // ---------- assembling a batch ----------

  datatype Fields = Fields(attributes: i16, lastOffsetDelta: i32, baseTimestamp: i64, maxTimestamp: i64,
                           producerId: i64, producerEpoch: i16, baseSequence: i32, count: i32)

  function EncodeFields(f: Fields): (s: bytes)
    ensures |s| == 40
  {
    PutI16(f.attributes) + PutI32(f.lastOffsetDelta) + PutI64(f.baseTimestamp) + PutI64(f.maxTimestamp)
    + PutI64(f.producerId) + PutI16(f.producerEpoch) + PutI32(f.baseSequence) + PutI32(f.count)
  }

  function Assemble(baseOffset: i64, f: Fields, payload: bytes): bytes {
    var body := EncodeFields(f) + payload;
    PutI64(baseOffset) + PutI32(WrapI32(49 + |payload|)) + PutI32(0) + [MAGIC] + PutU32(Checksum(body)) + body
  }

  lemma FieldsLayout(f: Fields)
    ensures var s := EncodeFields(f);
            s[..2] == PutI16(f.attributes) && s[2..6] == PutI32(f.lastOffsetDelta) &&
            s[6..14] == PutI64(f.baseTimestamp) && s[14..22] == PutI64(f.maxTimestamp) &&
            s[22..30] == PutI64(f.producerId) && s[30..32] == PutI16(f.producerEpoch) &&
            s[36..40] == PutI32(f.count)
  {
    hide PutI16, PutI32, PutI64;
    var a, b, c, d := PutI16(f.attributes), PutI32(f.lastOffsetDelta), PutI64(f.baseTimestamp), PutI64(f.maxTimestamp);
    var e, g, h, i := PutI64(f.producerId), PutI16(f.producerEpoch), PutI32(f.baseSequence), PutI32(f.count);
    EightPieces(a, b, c, d, e, g, h, i);
  }

  lemma EightPieces(a: bytes, b: bytes, c: bytes, d: bytes, e: bytes, g: bytes, h: bytes, i: bytes)
    requires |a| == |g| == 2 && |b| == |h| == |i| == 4 && |c| == |d| == |e| == 8
    ensures var s := a + b + c + d + e + g + h + i;
            s[..2] == a && s[2..6] == b && s[6..14] == c && s[14..22] == d &&
            s[22..30] == e && s[30..32] == g && s[36..40] == i
  {
  }

  lemma AssembleLayout(base: i64, f: Fields, payload: bytes)
    ensures var b := Assemble(base, f, payload);
            |b| == 61 + |payload| && BaseOffset(b) == base && Length(b) == WrapI32(49 + |payload|) &&
            b[16] == MAGIC && CrcValid(b) && b[61..] == payload && b[21..61] == EncodeFields(f)
  {
    hide Checksum, PutI64, PutI32, PutU32, EncodeFields;
    var body := EncodeFields(f) + payload;
    var off, len, crc := PutI64(base), PutI32(WrapI32(49 + |payload|)), PutU32(Checksum(body));
    var b := Assemble(base, f, payload);
    assert b == off + len + PutI32(0) + [MAGIC] + crc + body;
    assert b[..8] == off;
    assert b[8..12] == len;
    assert b[17..21] == crc;
    assert b[21..] == body;
    assert b[21..61] == EncodeFields(f);
  }

  lemma AssembledFields(base: i64, f: Fields, payload: bytes)
    ensures var b := Assemble(base, f, payload);
            |b| == 61 + |payload| && Attributes(b) == f.attributes && LastOffsetDelta(b) == f.lastOffsetDelta &&
            BaseTimestamp(b) == f.baseTimestamp && ProducerId(b) == f.producerId &&
            ProducerEpoch(b) == f.producerEpoch && RecordCount(b) == f.count
  {
    hide Assemble, EncodeFields, PutI64, PutI32, PutI16, GetI64, GetI32, GetI16;
    var b := Assemble(base, f, payload);
    AssembleLayout(base, f, payload);
    FieldsLayout(f);
    FieldSlices(b);
  }

  lemma FieldSlices(b: bytes)
    requires |b| >= 61
    ensures var s := b[21..61];
            b[21..23] == s[..2] && b[23..27] == s[2..6] && b[27..35] == s[6..14] && b[43..51] == s[22..30] &&
            b[51..53] == s[30..32] && b[57..61] == s[36..40]
  {
    Slice(b, 21, 61, 0, 2);
    Slice(b, 21, 61, 2, 6);
    Slice(b, 21, 61, 6, 14);
    Slice(b, 21, 61, 22, 30);
    Slice(b, 21, 61, 30, 32);
    Slice(b, 21, 61, 36, 40);
  }

  // ---------- the encoder ----------

  function BatchTimestamp(rs: seq<Record>): i64 { if rs == [] then 0 else rs[0].timestamp }

  function RecordsPayload(base: i64, rs: seq<Record>): bytes {
    EncodeRecords(Deltas(base, BatchTimestamp(rs), rs))
  }

  function RecordFields(rs: seq<Record>, c: Codec): Fields {
    var count := WrapI32(|rs|);
    var last := WrapI32(count - 1);
    Fields(ToAttributes(c), if last > 0 then last else 0, BatchTimestamp(rs), MaxTimestamp(rs, BatchTimestamp(rs)),
           -1, -1, -1, count)
  }

  /**
   * The buffer is allocated for the announced size, which as an unsigned number is beyond any allocation when the
   * length is below -12: the panic there is the error `capacity overflow`.
   */
  predicate Allocates(data: bytes) { WrapI32(49 + |data|) >= -12 }

  function EncodeBatch(lib: Library, base: i64, rs: seq<Record>, c: Codec): Result<bytes> {
    var data :- Compressed(lib, c, RecordsPayload(base, rs));
    if Allocates(data) then Ok(Assemble(base, RecordFields(rs, c), data)) else Err("capacity overflow")
  }

  method EncodeRecordBatchV2(lib: Library, base: i64, rs: seq<Record>, c: Codec) returns (r: Result<bytes>)
    ensures r == EncodeBatch(lib, base, rs, c)
  {
    hide EncodeRecords, Deltas, EncodeFields, MaxTimestamp, WrapI32, Assemble;
    var baseTimestamp := if rs == [] then 0 else rs[0].timestamp;
    var payload, maxTimestamp := EncodePayload(rs, base, baseTimestamp);
    var data: bytes := payload;
    if !c.Plain? {
      var compressed := lib.compress(c, payload);
      if compressed.Err? { return Err(compressed.error); }
      data := compressed.value;
    }
    var count: int := WrapI32(|rs|);
    var last := WrapI32(count - 1);
    var batchLen := WrapI32(49 + |data|);
    if batchLen < -12 { return Err("capacity overflow"); }
    var fields := Fields(ToAttributes(c), if last > 0 then last else 0, baseTimestamp, maxTimestamp, -1, -1, -1, count);
    var out := AssembleBatch(base, fields, data);
    return Ok(out);
  }

  /** Header and payload written out, then the checksum over its placeholder. */
  method AssembleBatch(base: i64, f: Fields, payload: bytes) returns (out: bytes)
    ensures out == Assemble(base, f, payload)
  {
    hide EncodeFields, PutI64, PutI32, PutU32, WrapI32;
    var head := PutI64(base) + PutI32(WrapI32(49 + |payload|)) + PutI32(0) + [MAGIC];
    ghost var body := EncodeFields(f) + payload;
    out := head + PutU32(0) + (EncodeFields(f) + payload);
    assert out[..17] == head && out[21..] == body;
    var crc := ComputeCrc32c(out[21..]);
    out := out[..17] + PutU32(crc) + out[21..];
  }

  /** An assembled batch whose length fits is a buffer of one batch. */
  lemma AssembledIsBatch(base: i64, f: Fields, payload: bytes)
    requires 49 + |payload| <= I32_MAX
    ensures var b := Assemble(base, f, payload);
            IsBatch(b, HEADER) && Batch(b) == [b] && Tail(b) == []
  {
    hide Assemble, Length, CrcValid, BaseOffset;
    var b := Assemble(base, f, payload);
    AssembleLayout(base, f, payload);
    OneBatch(b);
  }

  lemma OneBatch(b: bytes)
    requires IsBatch(b, HEADER)
    ensures Batch(b) == [b] && Tail(b) == []
  {
    hide Length;
    assert Join([b]) + [] == b by { assert Join([b]) == b + Join([]); }
    Recut([b], []);
  }

  lemma DecompressOne(lib: Library, b: bytes)
    requires IsBatch(b, HEADER) && DecompressBatch(lib, b).Ok?
    ensures Decompress(lib, b) == DecompressBatch(lib, b)
  {
    hide DecompressBatch, Length, Batch, Tail, DecompressAll;
    var d := DecompressBatch(lib, b).value;
    OneBatch(b);
    DecompressEach(lib, [b], [d]);
    assert Join([d]) + [] == d by { assert Join([d]) == d + Join([]); }
  }

  lemma ParseAllOne(d: bytes)
    requires |d| >= HEADER
    ensures ParseAll([d]) == ParseBatch(d)
  {
    hide ParseBatch;
    ParseNone();
    if ParseBatch(d).Ok? { assert ParseBatch(d).value + [] == ParseBatch(d).value; }
  }

  /** Parsing one batch: decompress its payload, read the records, make the deltas absolute. */
  lemma ParseOne(lib: Library, b: bytes)
    requires IsBatch(b, HEADER) && DecompressBatch(lib, b).Ok? && |DecompressBatch(lib, b).value| <= 12 + I32_MAX
    ensures Contents(lib, b).Ok?
    ensures Parse(lib, b)
         == Parsed(ParseRecords(Contents(lib, b).value, RecordCount(b)), BaseOffset(b), BaseTimestamp(b))
  {
    hide DecompressBatch, Length, ParseRecords, BaseOffset, BaseTimestamp, RecordCount, Batch, Tail, ParseAll,
      Decompress;
    var d := DecompressBatch(lib, b).value;
    DecompressedBatch(lib, b, d);
    DecompressOne(lib, b);
    OneBatch(d);
    ParseAllOne(d);
    SameReadings(b, d);
  }

  lemma SameReadings(b: bytes, d: bytes)
    requires Agree(b, d)
    ensures BaseOffset(d) == BaseOffset(b) && BaseTimestamp(d) == BaseTimestamp(b) && RecordCount(d) == RecordCount(b)
  {
    InnerSlices(b);
    InnerSlices(d);
  }

  /**
   * Every list of records survives encoding and parsing, with any codec, null keys and values and
   * all headers included, as long as the batch length fits its field.
   */
  lemma BatchRoundTrip(lib: Library, base: i64, rs: seq<Record>, c: Codec)
    requires Lossless(lib) && EncodeBatch(lib, base, rs, c).Ok?
    requires 49 + |RecordsPayload(base, rs)| <= I32_MAX
    requires 49 + |Compressed(lib, c, RecordsPayload(base, rs)).value| <= I32_MAX
    ensures Parse(lib, EncodeBatch(lib, base, rs, c).value) == Ok(rs)
  {
    hide Parse, ParseRecords, EncodeRecords, Assemble, EncodeFields, Length, MaxTimestamp, BaseOffset, BaseTimestamp,
      RecordCount, Attributes, Deltas, At, CrcValid;
    var payload := RecordsPayload(base, rs);
    var data := Compressed(lib, c, payload).value;
    var f := RecordFields(rs, c);
    var b := Assemble(base, f, data);
    AssembledIsBatch(base, f, data);
    AssembleLayout(base, f, data);
    AssembledFields(base, f, data);
    RecordsRoundTrip(Deltas(base, BatchTimestamp(rs), rs));
    AtOfDeltas(base, BatchTimestamp(rs), rs);
    CodecRecognised(c);
    DecompressedSize(lib, b, payload);
    ParseOne(lib, b);
  }

  lemma CodecRecognised(c: Codec)
    ensures FromAttributes(ToAttributes(c)) == c
  {
  }

  lemma DecompressedSize(lib: Library, b: bytes, payload: bytes)
    requires IsBatch(b, HEADER) && Contents(lib, b) == Ok(payload) && 49 + |payload| <= I32_MAX
    ensures DecompressBatch(lib, b).Ok? && |DecompressBatch(lib, b).value| <= 12 + I32_MAX
  {
    hide Length, Rebuild;
    RebuildLayout(b, WithCodec(Attributes(b), Plain), payload);
  }

  // ---------- control batches ----------

  const CONTROL_ATTRIBUTES: i16 := 0x0030

  /** The key of a marker: version 0, then 1 for commit or 0 for abort. */
  function MarkerKey(commit: bool): bytes { PutI16(0) + PutI16(if commit then 1 else 0) }

  function MarkerRecord(commit: bool): Record {
    Record(0, 0, Some(MarkerKey(commit)), Some(PutI16(0)), [])
  }

  function ControlBatch(base: i64, producerId: i64, epoch: i16, commit: bool, now: i64): bytes {
    Assemble(base, Fields(CONTROL_ATTRIBUTES, 0, now, now, producerId, epoch, -1, 1),
             EncodeRecords([MarkerRecord(commit)]))
  }

  method EncodeControlBatch(base: i64, producerId: i64, epoch: i16, commit: bool, now: i64) returns (out: bytes)
    ensures out == ControlBatch(base, producerId, epoch, commit, now)
  {
    hide Varint.WriteSigned;
    var body := [0] + Varint.WriteSigned(0) + Varint.WriteSigned(0);
    body := body + (Varint.WriteSigned(4) + (PutI16(0) + PutI16(if commit then 1 else 0)));
    body := body + (Varint.WriteSigned(2) + PutI16(0));
    body := body + Varint.WriteSigned(0);
    assert body + [] == body;
    assert body == EncodeBody(MarkerRecord(commit));
    var payload := Varint.WriteSigned(WrapI64(|body|)) + body;
    assert payload + [] == payload;
    assert payload == EncodeRecords([MarkerRecord(commit)]);
    out := AssembleBatch(base, Fields(CONTROL_ATTRIBUTES, 0, now, now, producerId, epoch, -1, 1), payload);
  }

  lemma SmallI16(v: i16)
    requires 0 <= v < 256
    ensures PutI16(v) == [0, v]
  {
    BigEndianPair(PutI16(v));
  }

  lemma MarkerBytes(commit: bool)
    ensures MarkerRecord(commit) == Record(0, 0, Some([0, 0, 0, if commit then 1 else 0]), Some([0, 0]), [])
  {
    hide PutI16;
    SmallI16(0);
    SmallI16(1);
    assert MarkerKey(commit) == [0, 0, 0, if commit then 1 else 0];
  }

  lemma MarkerPayload(commit: bool)
    ensures |EncodeRecords([MarkerRecord(commit)])| <= 70
  {
    hide Varint.WriteSigned;
    var r := MarkerRecord(commit);
    Varint.ReadAfterWriteSigned(0, []);
    Varint.ReadAfterWriteSigned(4, []);
    Varint.ReadAfterWriteSigned(2, []);
    assert |EncodeNullable(r.key)| <= 14 && |EncodeNullable(r.value)| <= 12;
    assert |EncodeBody(r)| <= 57;
    Varint.ReadAfterWriteSigned(WrapI64(|EncodeBody(r)|), []);
  }

  /**
   * A control batch is a well-formed batch with a correct checksum that names its producer and reads back as one
   * record: its key is 0, 0 and then 0, 1 for a commit or 0, 0 for an abort, its value 0, 0.
   */
  lemma ControlBatchReadsBack(lib: Library, base: i64, producerId: i64, epoch: i16, commit: bool, now: i64)
    ensures var b := ControlBatch(base, producerId, epoch, commit, now);
            IsBatch(b, HEADER) && CrcValid(b) && Attributes(b) == 0x30 && LastOffsetDelta(b) == 0 &&
            ProducerId(b) == producerId && ProducerEpoch(b) == epoch && Count(b) == 1 &&
            Parse(lib, b) == Ok([Record(base, now, Some([0, 0, 0, if commit then 1 else 0]), Some([0, 0]), [])])
  {
    hide Parse, ParseRecords, EncodeRecords, Assemble, EncodeFields, Length, BaseOffset, BaseTimestamp, RecordCount,
      Attributes, CrcValid, ProducerId, ProducerEpoch, LastOffsetDelta, MarkerRecord;
    var f := Fields(CONTROL_ATTRIBUTES, 0, now, now, producerId, epoch, -1, 1);
    var payload := EncodeRecords([MarkerRecord(commit)]);
    var b := Assemble(base, f, payload);
    MarkerPayload(commit);
    AssembledIsBatch(base, f, payload);
    AssembleLayout(base, f, payload);
    AssembledFields(base, f, payload);
    RecordsRoundTrip([MarkerRecord(commit)]);
    MarkerBytes(commit);
    DecompressedSize(lib, b, payload);
    ParseOne(lib, b);
    assert At(base, now, [MarkerRecord(commit)]) == [Absolute(MarkerRecord(commit), base, now)];
  }

  // ---------- patching and parsing ----------

  /** The batches of `ds`, parsed as if their base offsets were those of `offsets`. */
  function ParseWith(ds: seq<bytes>, offsets: seq<i64>): Result<seq<Record>>
    requires |ds| == |offsets| && forall i :: 0 <= i < |ds| ==> |ds[i]| >= HEADER
  {
    if ds == [] then Ok([])
    else
      var rs :- Parsed(ParseRecords(ds[0][61..], RecordCount(ds[0])), offsets[0], BaseTimestamp(ds[0]));
      var rest :- ParseWith(ds[1..], offsets[1..]);
      Ok(rs + rest)
  }

  /** Where the patch puts the batches: each after the offsets of those before it. */
  function Assigned(bs: seq<bytes>, base: i64): (offsets: seq<i64>)
    ensures |offsets| == |bs|
  {
    if bs == [] then [] else [base] + Assigned(bs[1..], WrapI64(base + Count(bs[0])))
  }

  /** Two batches alike but for base offset and checksum. */
  ghost predicate AlikeBut(p: bytes, b: bytes, offset: i64) {
    |b| >= HEADER && |p| == |b| && BaseOffset(p) == offset && p[12..16] == b[12..16] && p[21..] == b[21..]
  }

  lemma PatchedAlike(b: bytes, offset: i64)
    requires |b| >= HEADER
    ensures AlikeBut(PatchBatch(b, offset), b, offset)
  {
    var p := PatchBatch(b, offset);
    PatchBatchLayout(b, offset);
    hide PatchBatch, BaseOffset, CrcValid;
    assert p[12..16] == p[8..17][4..8] && b[12..16] == b[8..17][4..8];
  }

  /** Two decompressed batches with the same records, the first at another base offset. */
  ghost predicate Moved(q: bytes, d: bytes, offset: i64) {
    |d| >= HEADER && |q| == |d| && BaseOffset(q) == offset && q[23..61] == d[23..61] && q[61..] == d[61..]
  }

  lemma ParseMoved(q: bytes, d: bytes, offset: i64)
    requires Moved(q, d, offset)
    ensures ParseBatch(q) == Parsed(ParseRecords(d[61..], RecordCount(d)), offset, BaseTimestamp(d))
  {
    hide ParseRecords, GetI64, GetI32;
    InnerSlices(q);
    InnerSlices(d);
  }

  lemma AlikeSlices(p: bytes, b: bytes, offset: i64)
    requires AlikeBut(p, b, offset)
    ensures p[21..23] == b[21..23] && p[23..61] == b[23..61] && p[61..] == b[61..]
  {
    hide BaseOffset;
    assert p[21..23] == p[21..][..2] && b[21..23] == b[21..][..2];
    assert p[23..61] == p[21..][2..40] && b[23..61] == b[21..][2..40];
    assert p[61..] == p[21..][40..] && b[61..] == b[21..][40..];
  }

  lemma DecompressMoved(lib: Library, p: bytes, b: bytes, offset: i64)
    requires AlikeBut(p, b, offset)
    ensures DecompressBatch(lib, b).Err? ==> DecompressBatch(lib, p) == DecompressBatch(lib, b)
    ensures DecompressBatch(lib, b).Ok? ==>
              DecompressBatch(lib, p).Ok? && Moved(DecompressBatch(lib, p).value, DecompressBatch(lib, b).value, offset)
  {
    hide Rebuild, BaseOffset, GetI16, Length, CrcValid;
    AlikeSlices(p, b, offset);
    if !FromAttributes(Attributes(b)).Plain? && Contents(lib, b).Ok? {
      var a, data := WithCodec(Attributes(b), Plain), Contents(lib, b).value;
      RebuildLayout(b, a, data);
      RebuildLayout(p, a, data);
      SameBase(Rebuild(p, a, data), p);
    }
  }

  lemma SameBase(x: bytes, y: bytes)
    requires |x| >= 8 && |y| >= 8 && x[..8] == y[..8]
    ensures BaseOffset(x) == BaseOffset(y)
  {
  }

  lemma {:induction false} PatchedDecompresses(lib: Library, bs: seq<bytes>, base: i64)
    requires forall i :: 0 <= i < |bs| ==> |bs[i]| >= HEADER
    ensures var ds, qs := DecompressAll(lib, bs), DecompressAll(lib, PatchList(bs, base));
            if ds.Err? then qs == ds
            else qs.Ok? && (forall i :: 0 <= i < |bs| ==> |qs.value[i]| == |ds.value[i]|) &&
                 ParseAll(qs.value) == ParseWith(ds.value, Assigned(bs, base))
  {
    hide DecompressBatch, PatchBatch, Count, ParseBatch, Moved, AlikeBut, ParseRecords, RecordCount, BaseTimestamp,
      WrapI64, Parsed;
    if bs != [] {
      var p, next := PatchBatch(bs[0], base), WrapI64(base + Count(bs[0]));
      PatchedAlike(bs[0], base);
      DecompressMoved(lib, p, bs[0], base);
      PatchedDecompresses(lib, bs[1..], next);
      assert PatchList(bs, base)[1..] == PatchList(bs[1..], next);
      assert Assigned(bs, base)[1..] == Assigned(bs[1..], next);
      var d, q := DecompressBatch(lib, bs[0]), DecompressBatch(lib, p);
      var ds, qs := DecompressAll(lib, bs[1..]), DecompressAll(lib, PatchList(bs[1..], next));
      if d.Ok? && ds.Ok? {
        ParseMoved(q.value, d.value, base);
        MovedSize(q.value, d.value, base);
        assert ([d.value] + ds.value)[1..] == ds.value && ([q.value] + qs.value)[1..] == qs.value;
      }
    }
  }

  lemma MovedSize(q: bytes, d: bytes, offset: i64)
    requires Moved(q, d, offset)
    ensures |q| == |d|
  {
  }

  /** Every batch in the buffer has a full header. */
  ghost predicate FullHeaders(s: bytes) {
    forall i :: 0 <= i < |Split(s, PATCHED_HEADER)| ==> |Split(s, PATCHED_HEADER)[i]| >= HEADER
  }

  lemma PatchedBatches(s: bytes, base: i64)
    requires FullHeaders(s)
    ensures Batch(PatchRecords(s, base).0) == PatchList(Batch(s), base)
    ensures Tail(PatchRecords(s, base).0) == Tail(s)
    ensures Roomy(Batch(s))
  {
    hide PatchBatch, Count, Length, PatchFrom, PatchRecords;
    var bs, p := Split(s, PATCHED_HEADER), PatchRecords(s, base).0;
    JoinOfSplit(s, PATCHED_HEADER);
    assert Roomy(bs);
    SameSplit(s);
    PatchedSplit(s, base);
    assert forall b :: b in PatchList(bs, base) ==> |b| >= HEADER;
    SameSplit(p);
  }

  /**
   * Parsing the patched buffer gives the records of the original in the same order, each offset
   * being its batch's newly assigned base plus its original delta, for every mix of codecs and
   * whatever trails the last batch. A buffer that does not parse fails with the same error. The parse of the
   * patched buffer returns exactly when that of the original does.
   */
  lemma PatchCommutesWithParse(lib: Library, s: bytes, base: i64)
    requires FullHeaders(s) && Walkable(s, 0, PATCHED_HEADER) && |s| < 0x8000_0000_0000_0000
    requires DecompressAll(lib, Batch(s)).Ok? ==> Small(DecompressAll(lib, Batch(s)).value)
    ensures var u := Decompress(lib, s);
            u.Ok? ==> |Batch(u.value)| == |Batch(s)|
    ensures Readable(s) && Readable(PatchRecords(s, base).0)
    ensures ParseReturns(lib, PatchRecords(s, base).0) <==> ParseReturns(lib, s)
    ensures var u := Decompress(lib, s);
            ParseReturns(lib, s) ==>
              Parse(lib, PatchRecords(s, base).0)
              == if u.Err? then Err(u.error) else ParseWith(Batch(u.value), Assigned(Batch(s), base))
  {
    hide Readable, Decompress, Parse, ParseWith, Assigned, ParseReturns, PatchRecords;
    PatchedReadable(s, base);
    PatchedReturns(lib, s, base);
    PatchedParses(lib, s, base);
  }

  /** A buffer the patch can walk, its headers complete, the other loops can walk too, before and after. */
  lemma PatchedReadable(s: bytes, base: i64)
    requires FullHeaders(s) && Walkable(s, 0, PATCHED_HEADER) && |s| < 0x8000_0000_0000_0000
    ensures Readable(s) && Readable(PatchRecords(s, base).0)
  {
    hide Batch, Tail, PatchList, PatchRecords, Join, Roomy, Readable, FullHeaders, Walkable, Stops;
    var bs, p := Batch(s), PatchRecords(s, base).0;
    WalkableIsReadable(s);
    PatchedBatches(s, base);
    JoinSize(PatchList(bs, base), bs);
    ReadableIffEndsSafely(s);
    ReadableIffEndsSafely(p);
    assert |p| == |Join(PatchList(bs, base))| + |Tail(s)|;
    assert |s| == |Join(bs)| + |Tail(s)|;
  }

  lemma WalkableIsReadable(s: bytes)
    requires FullHeaders(s) && Walkable(s, 0, PATCHED_HEADER) && |s| < 0x8000_0000_0000_0000
    ensures Readable(s)
  {
    hide Batch, Tail, Join, Readable, FullHeaders, Walkable, Split, Rest, Stops;
    JoinOfSplit(s, PATCHED_HEADER);
    WalkableIffTailStops(Split(s, PATCHED_HEADER), Rest(s, PATCHED_HEADER), 0, PATCHED_HEADER);
    SameTail(s);
    ReadableIffEndsSafely(s);
    StopsFurther(|s| - |Tail(s)|, Tail(s));
  }

  lemma SameTail(s: bytes)
    requires FullHeaders(s)
    ensures Tail(s) == Rest(s, PATCHED_HEADER) && Batch(s) == Split(s, PATCHED_HEADER)
  {
    SameSplit(s);
  }

  /** A tail that stops a walk with the smaller limit stops one with the larger. */
  lemma StopsFurther(n: nat, t: bytes)
    requires Stops(n, t, PATCHED_HEADER) && !Front(t, PATCHED_HEADER)
    ensures Stops(n, t, HEADER)
  {
    hide Length;
  }

  lemma PatchedReturns(lib: Library, s: bytes, base: i64)
    requires FullHeaders(s) && Readable(s) && Readable(PatchRecords(s, base).0)
    requires DecompressAll(lib, Batch(s)).Ok? ==> Small(DecompressAll(lib, Batch(s)).value)
    ensures ParseReturns(lib, PatchRecords(s, base).0) <==> ParseReturns(lib, s)
  {
    hide Batch, Tail, Length, PatchList, PatchRecords, ParseAll, ParseWith, Assigned, DecompressAll, Join, Roomy,
      Readable, Inflates, Inflated, Scans;
    var bs, p := Batch(s), PatchRecords(s, base).0;
    PatchedBatches(s, base);
    PatchedDecompresses(lib, bs, base);
    InflatedIsDecompress(lib, s);
    InflatedIsDecompress(lib, p);
    var ds, qs := DecompressAll(lib, bs), DecompressAll(lib, PatchList(bs, base));
    if ds.Ok? {
      DecompressedList(lib, bs, ds.value);
      DecompressedList(lib, PatchList(bs, base), qs.value);
      JoinSize(qs.value, ds.value);
      BasesMoveOffsetsOnly(ds.value, Assigned(bs, base));
      ScansIff(ds.value, Tail(s), 0);
      ScansIff(qs.value, Tail(s), 0);
    }
  }

  lemma PatchedParses(lib: Library, s: bytes, base: i64)
    requires FullHeaders(s)
    requires DecompressAll(lib, Batch(s)).Ok? ==> Small(DecompressAll(lib, Batch(s)).value)
    ensures var u := Decompress(lib, s);
            u.Ok? ==> |Batch(u.value)| == |Batch(s)|
    ensures var u := Decompress(lib, s);
            Parse(lib, PatchRecords(s, base).0)
            == if u.Err? then Err(u.error) else ParseWith(Batch(u.value), Assigned(Batch(s), base))
  {
    hide Batch, Tail, Length, PatchList, PatchRecords, ParseAll, ParseWith, Assigned, DecompressAll, Join, Roomy;
    var bs := Batch(s);
    PatchedBatches(s, base);
    PatchedDecompresses(lib, bs, base);
    var ds, qs := DecompressAll(lib, bs), DecompressAll(lib, PatchList(bs, base));
    if ds.Ok? {
      DecompressedList(lib, bs, ds.value);
      Recut(ds.value, Tail(s));
      DecompressedList(lib, PatchList(bs, base), qs.value);
      Recut(qs.value, Tail(s));
    }
  }

  /** Only offsets depend on the bases a list of batches is parsed at. */
  lemma {:induction false} BasesMoveOffsetsOnly(ds: seq<bytes>, offsets: seq<i64>)
    requires |ds| == |offsets| && forall i :: 0 <= i < |ds| ==> |ds[i]| >= HEADER
    ensures ParseAll(ds).Ok? ==>
              ParseWith(ds, offsets).Ok? && |ParseWith(ds, offsets).value| == |ParseAll(ds).value| &&
              forall k :: 0 <= k < |ParseAll(ds).value| ==>
                var r := ParseWith(ds, offsets).value[k];
                r == ParseAll(ds).value[k].(offset := r.offset)
    ensures ParseAll(ds).Err? ==> ParseWith(ds, offsets) == ParseAll(ds)
  {
    hide ParseRecords, BaseOffset, BaseTimestamp, RecordCount, WrapI64;
    if ds != [] {
      BasesMoveOffsetsOnly(ds[1..], offsets[1..]);
    }
  }

  /**
   * Records encoded by a producer at any base and with any codec, patched to `offset` on append
   * and transcoded to any codec on fetch, are read by the consumer unchanged but for their
   * offsets, which move by the same amount.
   */
  lemma EndToEnd(lib: Library, base: i64, rs: seq<Record>, c: Codec, offset: i64, fetched: Codec)
    requires Lossless(lib) && EncodeBatch(lib, base, rs, c).Ok?
    requires 49 + |RecordsPayload(base, rs)| <= I32_MAX
    requires 49 + |Compressed(lib, c, RecordsPayload(base, rs)).value| <= I32_MAX
    requires var p := PatchRecords(EncodeBatch(lib, base, rs, c).value, offset).0;
             Compress(lib, p, fetched).Ok? && Fits(lib, p, fetched)
    ensures var p := PatchRecords(EncodeBatch(lib, base, rs, c).value, offset).0;
            Parse(lib, Compress(lib, p, fetched).value)
            == Ok(At(offset, BatchTimestamp(rs), Deltas(base, BatchTimestamp(rs), rs)))
  {
    hide Parse, ParseRecords, EncodeRecords, Assemble, EncodeFields, Length, MaxTimestamp, BaseOffset, BaseTimestamp,
      RecordCount, Attributes, Deltas, At, CrcValid, Compress, PatchRecords, Fits, PatchBatch;
    var payload := RecordsPayload(base, rs);
    var data := Compressed(lib, c, payload).value;
    var f := RecordFields(rs, c);
    var b := Assemble(base, f, data);
    AssembledIsBatch(base, f, data);
    AssembleLayout(base, f, data);
    AssembledFields(base, f, data);
    var p := PatchBatch(b, offset);
    PatchOne(b, offset);
    SameRecords(lib, PatchRecords(b, offset).0, fetched);
    RecordsRoundTrip(Deltas(base, BatchTimestamp(rs), rs));
    CodecRecognised(c);
    DecompressedSize(lib, p, payload);
    ParseOne(lib, p);
  }

  /** The records of `s`, in order, each at its batch's assigned base plus its delta. */
  ghost predicate ReadsAsAssigned(lib: Library, s: bytes, base: i64, r: Result<seq<Record>>) {
    && Decompress(lib, s).Ok?
    && var ds := Batch(Decompress(lib, s).value);
       |ds| == |Batch(s)| && r == ParseWith(ds, Assigned(Batch(s), base))
  }

  /**
   * The same for whole buffers: any list of batches in any codecs with any tail, patched to `base` on append and
   * transcoded to any codec on fetch. The consumer's parse returns exactly when the tail stops a walk behind the
   * transcoded batches, and then reads every record of the original in order at its assigned offset.
   */
  lemma BuffersEndToEnd(lib: Library, s: bytes, base: i64, c: Codec)
    requires FullHeaders(s) && Walkable(s, 0, PATCHED_HEADER) && |s| < 0x8000_0000_0000_0000 && Lossless(lib)
    requires DecompressAll(lib, Batch(s)).Ok? ==> Small(DecompressAll(lib, Batch(s)).value)
    requires var p := PatchRecords(s, base).0;
             CompressReturns(lib, p, c) && Compress(lib, p, c).Ok? && Fits(lib, p, c)
    ensures var x := Compress(lib, PatchRecords(s, base).0, c).value;
            && (ParseReturns(lib, x) <==> EndsSafely(x, Tail(s)))
            && (EndsSafely(x, Tail(s)) ==>
                  ReadsAsAssigned(lib, s, base, Parse(lib, x)))
  {
    hide Readable, Decompress, Parse, ParseWith, Assigned, ParseReturns, CompressReturns, PatchRecords, EndsSafely,
      Fits,
      Compress, DecompressAll, Batch, Tail;
    var p := PatchRecords(s, base).0;
    PatchCommutesWithParse(lib, s, base);
    CompressKeepsRecords(lib, p, c);
    PatchedBatches(s, base);
    PatchedDecompresses(lib, Batch(s), base);
    CompressedWasDecompressed(lib, s, base, c);
  }

  lemma CompressedWasDecompressed(lib: Library, s: bytes, base: i64, c: Codec)
    requires FullHeaders(s) && Compress(lib, PatchRecords(s, base).0, c).Ok?
    ensures Decompress(lib, s).Ok?
  {
    hide Batch, Tail, PatchRecords, PatchList, DecompressAll, ParseAll, ParseWith, Assigned, Join, CompressAll, Roomy;
    PatchedBatches(s, base);
    PatchedDecompresses(lib, Batch(s), base);
  }

  /** A buffer of one batch, patched. */
  lemma PatchOne(b: bytes, offset: i64)
    requires IsBatch(b, HEADER)
    ensures var p := PatchBatch(b, offset);
            PatchRecords(b, offset).0 == p && IsBatch(p, HEADER) && BaseOffset(p) == offset && p[61..] == b[61..] &&
            Attributes(p) == Attributes(b) && BaseTimestamp(p) == BaseTimestamp(b) && RecordCount(p) == RecordCount(b)
  {
    var p := PatchBatch(b, offset);
    PatchedBatch(b, offset);
    PatchedAlike(b, offset);
    AlikeSlices(p, b, offset);
    InnerSlices(p);
    InnerSlices(b);
    PatchWhole(b, offset);
  }

  lemma PatchWhole(b: bytes, offset: i64)
    requires IsBatch(b, HEADER)
    ensures PatchFrom(b, offset) == (PatchBatch(b, offset), WrapI64(offset + Count(b)))
  {
    hide PatchBatch, Length, Count, WrapI64;
    var none: bytes := [];
    assert Front(b, PATCHED_HEADER) && Size(b, PATCHED_HEADER) == |b|;
    assert b[..|b|] == b && b[|b|..] == none;
    var next := WrapI64(offset + Count(b));
    assert PatchFrom(none, next) == (none, next);
    assert PatchBatch(b, offset) + none == PatchBatch(b, offset);
  }

  // ---------- where transcoding is not the identity ----------

  /** An empty batch whose attributes carry codec number 5, which names no codec. */
  function UnknownCodecBatch(): bytes { Assemble(0, Fields(5, 0, 0, 0, -1, -1, -1, 0), []) }

  /** Compressing it and decompressing it again loses the codec bits. */
  lemma UnknownCodecBitsAreLost(lib: Library)
    requires Lossless(lib) && Compress(lib, UnknownCodecBatch(), Gzip).Ok? && Fits(lib, UnknownCodecBatch(), Gzip)
    ensures Decompress(lib, Compress(lib, UnknownCodecBatch(), Gzip).value) != Decompress(lib, UnknownCodecBatch())
  {
    hide Decompress, Compress, Assemble, Fits, Length, CrcValid, Attributes, LastOffsetDelta, BaseTimestamp, ProducerId,
      ProducerEpoch, RecordCount, EncodeFields;
    var b := UnknownCodecBatch();
    AssembledIsBatch(0, Fields(5, 0, 0, 0, -1, -1, -1, 0), []);
    AssembledFields(0, Fields(5, 0, 0, 0, -1, -1, -1, 0), []);
    UndoneIffCanonical(lib, b, Gzip);
    assert Batch(b)[0] == b;
  }
}
