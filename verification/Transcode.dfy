/** Compressing, decompressing and parsing buffers of batches (`messages.rs`). */
module Transcode {
  import opened Bytes
  import opened Batches
  import opened Records
  import Crc = Crc32c

  datatype Codec = Plain | Gzip | Snappy | Lz4 | Zstd

  /** The compression libraries: deterministic functions that may fail. */
  datatype Library = Library(compress: (Codec, bytes) -> Result<bytes>,
                             decompress: (Codec, bytes) -> Result<bytes>)

  ghost predicate Lossless(lib: Library) {
    forall c, x :: lib.compress(c, x).Ok? ==> lib.decompress(c, lib.compress(c, x).value) == Ok(x)
  }

  /** `attributes & 0x07`; Euclidean remainder is the bit mask, also of a negative number. */
  function CodecBits(attributes: i16): (c: nat)
    ensures c < 8
  {
    attributes % 8
  }

  function FromAttributes(attributes: i16): Codec {
    match CodecBits(attributes)
    case 1 => Gzip
    case 2 => Snappy
    case 3 => Lz4
    case 4 => Zstd
    case _ => Plain
  }

  function ToAttributes(c: Codec): (n: nat)
    ensures n < 5
  {
    match c
    case Plain => 0
    case Gzip => 1
    case Snappy => 2
    case Lz4 => 3
    case Zstd => 4
  }

  /** `(attributes & !0x07) | codec`. */
  function WithCodec(attributes: i16, c: Codec): (r: i16)
    ensures FromAttributes(r) == c && CodecBits(r) == ToAttributes(c)
    ensures r - CodecBits(r) == attributes - CodecBits(attributes)
  {
    attributes - CodecBits(attributes) + ToAttributes(c)
  }

  function Compressed(lib: Library, c: Codec, data: bytes): Result<bytes> {
    if c.Plain? then Ok(data) else lib.compress(c, data)
  }

  function Decompressed(lib: Library, c: Codec, data: bytes): Result<bytes> {
    if c.Plain? then Ok(data) else lib.decompress(c, data)
  }

  // ---------- one batch ----------

  /** The records payload of a batch, decompressed. */
  function Contents(lib: Library, b: bytes): Result<bytes>
    requires |b| >= HEADER
  {
    Decompressed(lib, FromAttributes(Attributes(b)), b[61..])
  }

  function DecompressBatch(lib: Library, b: bytes): (r: Result<bytes>)
    requires |b| >= HEADER
    ensures r.Ok? ==> |r.value| >= HEADER
  {
    if FromAttributes(Attributes(b)).Plain? then Ok(b)
    else
      var data :- Contents(lib, b);
      Ok(Rebuild(b, WithCodec(Attributes(b), Plain), data))
  }

  function CompressBatch(lib: Library, c: Codec, b: bytes): Result<bytes>
    requires |b| >= HEADER
  {
    var data :- Compressed(lib, c, b[61..]);
    Ok(Rebuild(b, WithCodec(Attributes(b), c), data))
  }

  // ---------- buffers ----------

  function DecompressAll(lib: Library, bs: seq<bytes>): (r: Result<seq<bytes>>)
    requires forall i :: 0 <= i < |bs| ==> |bs[i]| >= HEADER
    ensures r.Ok? ==> |r.value| == |bs|
    ensures r.Ok? ==> forall i :: 0 <= i < |bs| ==>
              |r.value[i]| >= HEADER && DecompressBatch(lib, bs[i]) == Ok(r.value[i])
  {
    if bs == [] then Ok([])
    else
      var b :- DecompressBatch(lib, bs[0]);
      var rest :- DecompressAll(lib, bs[1..]);
      Ok([b] + rest)
  }

  function CompressAll(lib: Library, c: Codec, bs: seq<bytes>): (r: Result<seq<bytes>>)
    requires forall i :: 0 <= i < |bs| ==> |bs[i]| >= HEADER
    ensures r.Ok? ==> |r.value| == |bs|
    ensures r.Ok? ==> forall i :: 0 <= i < |bs| ==> CompressBatch(lib, c, bs[i]) == Ok(r.value[i])
  {
    if bs == [] then Ok([])
    else
      var b :- CompressBatch(lib, c, bs[0]);
      var rest :- CompressAll(lib, c, bs[1..]);
      Ok([b] + rest)
  }

  function Batch(s: bytes): (bs: seq<bytes>)
    ensures AllBatches(bs, HEADER)
  {
    JoinOfSplit(s, HEADER);
    Split(s, HEADER)
  }

  function Tail(s: bytes): (t: bytes)
    ensures !Front(t, HEADER) && Join(Batch(s)) + t == s
  {
    JoinOfSplit(s, HEADER);
    Rest(s, HEADER)
  }

  function Decompress(lib: Library, s: bytes): Result<bytes> {
    var bs :- DecompressAll(lib, Batch(s));
    Ok(Join(bs) + Tail(s))
  }

  function Compress(lib: Library, s: bytes, c: Codec): Result<bytes> { CompressFrom(lib, Decompress(lib, s), c) }

  /** What compressing does with the decompressed buffer. */
  function CompressFrom(lib: Library, decompressed: Result<bytes>, c: Codec): Result<bytes> {
    var u :- decompressed;
    if c.Plain? then Ok(u)
    else
      var bs :- CompressAll(lib, c, Batch(u));
      Ok(Join(bs) + Tail(u))
  }

  // ---------- parsing ----------

  function ParseBatch(b: bytes): Result<seq<Record>>
    requires |b| >= HEADER
  {
    Parsed(ParseRecords(b[61..], RecordCount(b)), BaseOffset(b), BaseTimestamp(b))
  }

  function ParseAll(bs: seq<bytes>): Result<seq<Record>>
    requires forall i :: 0 <= i < |bs| ==> |bs[i]| >= HEADER
  {
    if bs == [] then Ok([])
    else
      var rs :- ParseBatch(bs[0]);
      var rest :- ParseAll(bs[1..]);
      Ok(rs + rest)
  }

  function Parse(lib: Library, s: bytes): Result<seq<Record>> { ParseFrom(Decompress(lib, s)) }

  function ParseFrom(decompressed: Result<bytes>): Result<seq<Record>> {
    var u :- decompressed;
    ParseAll(Batch(u))
  }

  // ---------- buffers the loops can read ----------

  /** A buffer that one loop walks to its end without slicing out of range. */
  predicate Readable(s: bytes) { Walkable(s, 0, HEADER) && |s| < 0x8000_0000_0000_0000 }

  /** At the cursor a version 2 header that announces some bytes, all of them there. */
  predicate Whole(s: bytes) { |s| >= HEADER && s[16] == MAGIC && 0 < 12 + Length(s) <= |s| }

  predicate IsPlain(s: bytes)
    requires |s| >= HEADER
  {
    FromAttributes(Attributes(s)).Plain?
  }

  /**
   * The decompressing loop returns. It copies and skips a plain batch that announces fewer bytes than a header has, but
   * one that announces none it would read for ever; and it answers an error before it looks at what comes next.
   */
  predicate Inflates(lib: Library, s: bytes, cursor: nat)
    decreases |s|
  {
    && (|s| >= HEADER && s[16] == MAGIC ==>
          || 12 + Length(s) >= HEADER || cursor + 12 + Length(s) < 0
          || (12 + Length(s) > 0 && IsPlain(s)))
    && (Whole(s) && (IsPlain(s) || (12 + Length(s) >= HEADER && DecompressBatch(lib, s[..12 + Length(s)]).Ok?)) ==>
          Inflates(lib, s[12 + Length(s)..], cursor + 12 + Length(s)))
  }

  /** What it returns. */
  function Inflated(lib: Library, s: bytes): Result<bytes>
    decreases |s|
  {
    if Whole(s) then
      var n := 12 + Length(s);
      if IsPlain(s) then After(s[..n], Inflated(lib, s[n..]))
      else if n < HEADER then Err("out of range")
      else
        var d :- DecompressBatch(lib, s[..n]);
        After(d, Inflated(lib, s[n..]))
    else Ok(s)
  }

  function After(front: bytes, r: Result<bytes>): Result<bytes> { if r.Ok? then Ok(front + r.value) else r }

  /** The compressing loop over a decompressed buffer returns. */
  predicate Deflates(lib: Library, c: Codec, s: bytes, cursor: nat)
    decreases |s|
  {
    && Stops(cursor, s, HEADER)
    && (Front(s, HEADER) && CompressBatch(lib, c, s[..Size(s, HEADER)]).Ok? ==>
          Deflates(lib, c, s[Size(s, HEADER)..], cursor + Size(s, HEADER)))
  }

  /** The parsing loop over a decompressed buffer returns. */
  predicate Scans(s: bytes, cursor: nat)
    decreases |s|
  {
    && Stops(cursor, s, HEADER)
    && (Front(s, HEADER) && ParseBatch(s[..Size(s, HEADER)]).Ok? ==>
          Scans(s[Size(s, HEADER)..], cursor + Size(s, HEADER)))
  }

  /** The calls return: what the three methods require. Buffers in memory have fewer than 2^63 bytes. */
  predicate DecompressReturns(lib: Library, s: bytes) { Inflates(lib, s, 0) && |s| < 0x8000_0000_0000_0000 }

  predicate CompressReturns(lib: Library, s: bytes, c: Codec) {
    && DecompressReturns(lib, s)
    && var u := Inflated(lib, s);
       !c.Plain? && u.Ok? ==> Deflates(lib, c, u.value, 0) && |u.value| < 0x8000_0000_0000_0000
  }

  predicate ParseReturns(lib: Library, s: bytes) {
    && DecompressReturns(lib, s)
    && var u := Inflated(lib, s);
       u.Ok? ==> Scans(u.value, 0) && |u.value| < 0x8000_0000_0000_0000
  }

  /** `t`, at the end of `s`, stops a walk there. */
  predicate EndsSafely(s: bytes, t: bytes) {
    |t| <= |s| < 0x8000_0000_0000_0000 && Stops(|s| - |t|, t, HEADER)
  }

  lemma ReadableIffEndsSafely(s: bytes)
    ensures Readable(s) <==> EndsSafely(s, Tail(s))
  {
    hide Length, Batch, Tail;
    WalkableIffTailStops(Batch(s), Tail(s), 0, HEADER);
  }

  /** A tail that, taken for a header, announces a header's worth of bytes or a negative size. */
  predicate Sane(t: bytes) {
    |t| >= HEADER && t[16] == MAGIC ==> 12 + Length(t) >= HEADER || 12 + Length(t) < 0
  }

  /** With such a tail the decompressing loop returns exactly when a batch fails or the tail stops the walk. */
  lemma {:induction false} InflatesIff(lib: Library, bs: seq<bytes>, t: bytes, cursor: nat)
    requires AllBatches(bs, HEADER) && !Front(t, HEADER) && Sane(t)
    ensures Inflates(lib, Join(bs) + t, cursor)
       <==> (DecompressAll(lib, bs).Ok? ==> Stops(cursor + |Join(bs)|, t, HEADER))
    ensures var ds := DecompressAll(lib, bs);
            Inflated(lib, Join(bs) + t) == if ds.Ok? then Ok(Join(ds.value) + t) else Err(ds.error)
  {
    hide DecompressBatch, IsBatch, IsPlain, Length, Join, DecompressAll;
    if bs == [] {
      JoinNothing(t);
      DecompressNone(lib);
    } else {
      var b, u := bs[0], Join(bs[1..]) + t;
      assert bs == [b] + bs[1..];
      JoinCons(b, bs[1..], t);
      assert IsBatch(b, HEADER);
      WholeBatch(b, u);
      PlainStays(lib, b);
      InflatesIff(lib, bs[1..], t, cursor + |b|);
      DecompressFirst(lib, b, bs[1..], t);
      JoinSizes(b, bs[1..]);
    }
  }

  lemma JoinSizes(b: bytes, bs: seq<bytes>)
    ensures |Join([b] + bs)| == |b| + |Join(bs)|
  {
    assert ([b] + bs)[1..] == bs;
  }

  lemma DecompressNone(lib: Library)
    ensures DecompressAll(lib, []) == Ok([])
  {
  }

  lemma WholeBatch(b: bytes, u: bytes)
    requires IsBatch(b, HEADER)
    ensures Whole(b + u) && 12 + Length(b + u) == |b| && (b + u)[..|b|] == b && (b + u)[|b|..] == u
    ensures IsPlain(b + u) == IsPlain(b) && |b| >= HEADER
  {
    assert (b + u)[8..12] == b[8..12] && (b + u)[21..23] == b[21..23];
  }

  lemma PlainStays(lib: Library, b: bytes)
    requires |b| >= HEADER
    ensures IsPlain(b) ==> DecompressBatch(lib, b) == Ok(b)
  {
  }

  lemma DecompressFirst(lib: Library, b: bytes, bs: seq<bytes>, t: bytes)
    requires |b| >= HEADER && AllBatches(bs, HEADER)
    ensures var all, rest := DecompressAll(lib, [b] + bs), DecompressAll(lib, bs);
            if DecompressBatch(lib, b).Err? then all == Err(DecompressBatch(lib, b).error)
            else if rest.Err? then all == rest
            else all.Ok? && Join(all.value) + t == DecompressBatch(lib, b).value + (Join(rest.value) + t)
  {
    hide DecompressBatch, Join;
    assert ([b] + bs)[1..] == bs;
    if DecompressBatch(lib, b).Ok? && DecompressAll(lib, bs).Ok? {
      JoinCons(DecompressBatch(lib, b).value, DecompressAll(lib, bs).value, t);
    }
  }

  /** So do the other two loops, whatever the tail. */
  lemma {:induction false} DeflatesIff(lib: Library, c: Codec, bs: seq<bytes>, t: bytes, cursor: nat)
    requires AllBatches(bs, HEADER) && !Front(t, HEADER)
    ensures Deflates(lib, c, Join(bs) + t, cursor)
       <==> (CompressAll(lib, c, bs).Ok? ==> Stops(cursor + |Join(bs)|, t, HEADER))
  {
    hide CompressBatch, IsBatch, Length, Join;
    if bs == [] {
      JoinNothing(t);
    } else {
      var b, u := bs[0], Join(bs[1..]) + t;
      assert bs == [b] + bs[1..];
      JoinCons(b, bs[1..], t);
      assert IsBatch(b, HEADER);
      FrontOfBatch(b, u, HEADER);
      DeflatesIff(lib, c, bs[1..], t, cursor + |b|);
      JoinSizes(b, bs[1..]);
    }
  }

  lemma {:induction false} ScansIff(bs: seq<bytes>, t: bytes, cursor: nat)
    requires AllBatches(bs, HEADER) && !Front(t, HEADER)
    ensures Scans(Join(bs) + t, cursor) <==> (ParseAll(bs).Ok? ==> Stops(cursor + |Join(bs)|, t, HEADER))
  {
    hide ParseBatch, IsBatch, Length, Join;
    if bs == [] {
      JoinNothing(t);
    } else {
      var b, u := bs[0], Join(bs[1..]) + t;
      assert bs == [b] + bs[1..];
      JoinCons(b, bs[1..], t);
      assert IsBatch(b, HEADER);
      FrontOfBatch(b, u, HEADER);
      ScansIff(bs[1..], t, cursor + |b|);
      JoinSizes(b, bs[1..]);
    }
  }

  lemma ReadableIsSane(s: bytes)
    requires Readable(s)
    ensures Sane(Tail(s))
  {
    hide Length, Tail;
    ReadableIffEndsSafely(s);
  }

  /** On a readable buffer the loop cuts, decompresses each batch and keeps the tail. */
  lemma InflatedIsDecompress(lib: Library, s: bytes)
    requires Readable(s)
    ensures DecompressReturns(lib, s) && Inflated(lib, s) == Decompress(lib, s)
  {
    hide Inflates, Inflated, DecompressAll, Batch, Tail, Sane, Length, Join;
    ReadableIsSane(s);
    ReadableIffEndsSafely(s);
    InflatesIff(lib, Batch(s), Tail(s), 0);
  }

  /** A buffer whose batches all decompress, with a sane tail, can be read exactly when the tail stops the walk. */
  lemma ReturnsIffEndsSafely(lib: Library, x: bytes)
    requires Decompress(lib, x).Ok? && Sane(Tail(x))
    ensures DecompressReturns(lib, x) <==> EndsSafely(x, Tail(x))
    ensures Readable(x) <==> EndsSafely(x, Tail(x))
  {
    hide Inflates, Inflated, DecompressAll, Batch, Tail, Sane, Length, Join;
    ReadableIffEndsSafely(x);
    InflatesIff(lib, Batch(x), Tail(x), 0);
  }

  /** A readable buffer that decompresses to a readable one can be compressed to any codec, and parsed. */
  lemma ReadableReturns(lib: Library, s: bytes, c: Codec)
    requires Readable(s) && (Decompress(lib, s).Ok? ==> Readable(Decompress(lib, s).value))
    ensures CompressReturns(lib, s, c) && ParseReturns(lib, s)
  {
    hide Inflates, Inflated, Batch, Tail, Length, Join, CompressAll, ParseAll, Decompress, Readable, Deflates, Scans;
    InflatedIsDecompress(lib, s);
    if Decompress(lib, s).Ok? {
      var u := Decompress(lib, s).value;
      ReadableIffEndsSafely(u);
      DeflatesIff(lib, c, Batch(u), Tail(u), 0);
      ScansIff(Batch(u), Tail(u), 0);
    }
  }

  // ---------- what transcoding keeps ----------

  /** The header fields that every rebuilt batch keeps. */
  ghost predicate Agree(b: bytes, d: bytes) {
    |b| >= HEADER && |d| >= HEADER && b[..8] == d[..8] && b[12..16] == d[12..16] && b[23..61] == d[23..61]
  }

  /** The length field of a batch is a signed 32-bit number. */
  ghost predicate Small(bs: seq<bytes>) {
    forall i :: 0 <= i < |bs| ==> |bs[i]| <= 12 + I32_MAX
  }

  /** No batch outgrows its length field when decompressed, nor when that is compressed with `c`. */
  ghost predicate Fits(lib: Library, s: bytes, c: Codec) {
    var ds := DecompressAll(lib, Batch(s));
    ds.Ok? ==> Small(ds.value) &&
               (var xs := CompressAll(lib, c, ds.value); xs.Ok? ==> Small(xs.value))
  }

  /** An uncompressed batch that recomputing its checksum and codec bits would leave alone. */
  predicate Canonical(b: bytes)
    requires |b| >= HEADER
  {
    FromAttributes(Attributes(b)).Plain? ==> CodecBits(Attributes(b)) == 0 && CrcValid(b)
  }

  /** A batch with its payload decompressed and its header recomputed in any case. */
  function Normal(lib: Library, b: bytes): Result<bytes>
    requires |b| >= HEADER
  {
    var data :- Contents(lib, b);
    Ok(Rebuild(b, WithCodec(Attributes(b), Plain), data))
  }

  lemma RebuiltIsBatch(b: bytes, attributes: i16, payload: bytes)
    requires |b| >= HEADER && 49 + |payload| <= I32_MAX
    ensures var r := Rebuild(b, attributes, payload);
            IsBatch(r, HEADER) && Agree(b, r) && Attributes(r) == attributes && r[61..] == payload
  {
    RebuildLayout(b, attributes, payload);
  }

  lemma DecompressedBatch(lib: Library, b: bytes, d: bytes)
    requires IsBatch(b, HEADER) && DecompressBatch(lib, b) == Ok(d) && |d| <= 12 + I32_MAX
    ensures IsBatch(d, HEADER) && Agree(b, d) && Contents(lib, b) == Ok(d[61..])
    ensures FromAttributes(Attributes(d)).Plain? && DecompressBatch(lib, d) == Ok(d)
    ensures WithCodec(Attributes(d), Plain) == WithCodec(Attributes(b), Plain)
    ensures d == Normal(lib, b).value <==> Canonical(b)
  {
    hide Rebuild, Length, Attributes;
    if FromAttributes(Attributes(b)).Plain? {
      PlainNormal(lib, b);
    } else {
      var data := Contents(lib, b).value;
      RebuildLayout(b, WithCodec(Attributes(b), Plain), data);
      RebuiltIsBatch(b, WithCodec(Attributes(b), Plain), data);
    }
  }

  lemma PlainNormal(lib: Library, b: bytes)
    requires IsBatch(b, HEADER) && FromAttributes(Attributes(b)).Plain?
    ensures Normal(lib, b).value == b <==> Canonical(b)
  {
    var attributes := WithCodec(Attributes(b), Plain);
    RebuildSame(b);
    RebuildLayout(b, attributes, b[61..]);
  }

  lemma CompressedBatch(lib: Library, c: Codec, d: bytes, x: bytes)
    requires Lossless(lib) && !c.Plain? && IsBatch(d, HEADER)
    requires CompressBatch(lib, c, d) == Ok(x) && |x| <= 12 + I32_MAX
    ensures IsBatch(x, HEADER) && Agree(d, x) && Contents(lib, x) == Ok(d[61..])
    ensures WithCodec(Attributes(x), Plain) == WithCodec(Attributes(d), Plain)
    ensures DecompressBatch(lib, x) == Normal(lib, x)
  {
    hide Rebuild, Length, Attributes;
    var data := Compressed(lib, c, d[61..]).value;
    RebuildLayout(d, WithCodec(Attributes(d), c), data);
    RebuiltIsBatch(d, WithCodec(Attributes(d), c), data);
  }

  lemma NormalAgrees(lib: Library, b: bytes, x: bytes)
    requires Agree(b, x) && Contents(lib, x) == Contents(lib, b)
    requires WithCodec(Attributes(x), Plain) == WithCodec(Attributes(b), Plain)
    ensures Normal(lib, x) == Normal(lib, b)
  {
    var data := Contents(lib, b);
    if data.Ok? { RebuildAgain(b, x, WithCodec(Attributes(b), Plain), data.value); }
  }

  /** One batch compressed and decompressed again. */
  lemma RecodedBatch(lib: Library, c: Codec, b: bytes, d: bytes, x: bytes)
    requires Lossless(lib) && !c.Plain? && IsBatch(b, HEADER)
    requires DecompressBatch(lib, b) == Ok(d) && |d| <= 12 + I32_MAX
    requires CompressBatch(lib, c, d) == Ok(x) && |x| <= 12 + I32_MAX
    ensures IsBatch(x, HEADER) && Agree(b, x) && Contents(lib, x) == Ok(d[61..])
    ensures DecompressBatch(lib, x).Ok? && Interchangeable(DecompressBatch(lib, x).value, d)
    ensures DecompressBatch(lib, x) == Ok(d) <==> Canonical(b)
  {
    hide Contents, Normal, Length, DecompressBatch, CompressBatch, WithCodec, Canonical;
    DecompressedBatch(lib, b, d);
    CompressedBatch(lib, c, d, x);
    NormalAgrees(lib, b, x);
    NormalBatch(lib, b, d);
  }

  /** Batches that differ at most in checksum and codec bits. */
  ghost predicate Interchangeable(e: bytes, d: bytes) {
    && IsBatch(e, HEADER) && IsBatch(d, HEADER) && Agree(e, d) && e[61..] == d[61..]
    && WithCodec(Attributes(e), Plain) == WithCodec(Attributes(d), Plain)
  }

  lemma NormalBatch(lib: Library, b: bytes, d: bytes)
    requires |b| >= HEADER && IsBatch(d, HEADER) && Agree(b, d) && Contents(lib, b) == Ok(d[61..])
    requires WithCodec(Attributes(d), Plain) == WithCodec(Attributes(b), Plain) && |d| <= 12 + I32_MAX
    ensures Normal(lib, b).Ok? && Interchangeable(Normal(lib, b).value, d)
  {
    RebuiltIsBatch(b, WithCodec(Attributes(b), Plain), d[61..]);
  }

  /** Compressing and parsing do not tell them apart. */
  lemma SameFromHereOn(lib: Library, c: Codec, e: bytes, d: bytes)
    requires Interchangeable(e, d)
    ensures CompressBatch(lib, c, e) == CompressBatch(lib, c, d)
    ensures ParseBatch(e) == ParseBatch(d)
  {
    hide Rebuild, ParseRecords, Length, Compressed, ParseBatch, Crc.Checksum, WithCodec, Attributes;
    SameWithCodec(Attributes(e), Attributes(d), c);
    var data := Compressed(lib, c, d[61..]);
    if data.Ok? { RebuildAgain(e, d, WithCodec(Attributes(d), c), data.value); }
    SameParsed(e, d);
  }

  lemma SameWithCodec(a: i16, b: i16, c: Codec)
    requires WithCodec(a, Plain) == WithCodec(b, Plain)
    ensures WithCodec(a, c) == WithCodec(b, c)
  {
  }

  lemma SameParsed(e: bytes, d: bytes)
    requires Interchangeable(e, d)
    ensures ParseBatch(e) == ParseBatch(d)
  {
    hide ParseRecords, Length, Crc.Checksum;
    InnerSlices(e);
    InnerSlices(d);
  }

  lemma InnerSlices(e: bytes)
    requires |e| >= 61
    ensures e[27..35] == e[23..61][4..12] && e[57..61] == e[23..61][34..38]
  {
  }

  // ---------- lists of batches ----------

  lemma {:induction false} DecompressEach(lib: Library, bs: seq<bytes>, ds: seq<bytes>)
    requires |bs| == |ds|
    requires forall i :: 0 <= i < |bs| ==> |bs[i]| >= HEADER && DecompressBatch(lib, bs[i]) == Ok(ds[i])
    ensures DecompressAll(lib, bs) == Ok(ds)
  {
    hide DecompressBatch;
    if bs != [] {
      DecompressEach(lib, bs[1..], ds[1..]);
      assert ds == [ds[0]] + ds[1..];
    }
  }

  lemma {:induction false} SameEach(lib: Library, c: Codec, es: seq<bytes>, ds: seq<bytes>)
    requires |es| == |ds|
    requires forall i :: 0 <= i < |es| ==> |es[i]| >= HEADER && |ds[i]| >= HEADER
    requires forall i :: 0 <= i < |es| ==> CompressBatch(lib, c, es[i]) == CompressBatch(lib, c, ds[i])
    requires forall i :: 0 <= i < |es| ==> ParseBatch(es[i]) == ParseBatch(ds[i])
    ensures CompressAll(lib, c, es) == CompressAll(lib, c, ds)
    ensures ParseAll(es) == ParseAll(ds)
  {
    hide CompressBatch, ParseBatch;
    if es != [] { SameEach(lib, c, es[1..], ds[1..]); }
  }

  lemma DecompressedList(lib: Library, bs: seq<bytes>, ds: seq<bytes>)
    requires AllBatches(bs, HEADER) && DecompressAll(lib, bs) == Ok(ds) && Small(ds)
    ensures AllBatches(ds, HEADER) && DecompressAll(lib, ds) == Ok(ds)
  {
    hide DecompressBatch, DecompressAll, Length;
    forall i | 0 <= i < |ds|
      ensures IsBatch(ds[i], HEADER) && DecompressBatch(lib, ds[i]) == Ok(ds[i])
    {
      DecompressedBatch(lib, bs[i], ds[i]);
    }
    DecompressEach(lib, ds, ds);
  }

  /** A whole list compressed with `c`: what decompressing it again gives. */
  lemma RecodedList(lib: Library, c: Codec, bs: seq<bytes>, ds: seq<bytes>, xs: seq<bytes>)
    returns (es: seq<bytes>)
    requires Lossless(lib) && !c.Plain? && AllBatches(bs, HEADER)
    requires DecompressAll(lib, bs) == Ok(ds) && Small(ds) && AllBatches(ds, HEADER)
    requires CompressAll(lib, c, ds) == Ok(xs) && Small(xs)
    ensures AllBatches(xs, HEADER) && DecompressAll(lib, xs) == Ok(es)
    ensures |es| == |ds| && forall i :: 0 <= i < |es| ==> Interchangeable(es[i], ds[i])
    ensures es == ds <==> forall i :: 0 <= i < |bs| ==> Canonical(bs[i])
  {
    hide DecompressBatch, DecompressAll, CompressAll, CompressBatch, Length, Canonical, Interchangeable;
    forall i | 0 <= i < |xs|
      ensures IsBatch(xs[i], HEADER) && DecompressBatch(lib, xs[i]).Ok?
      ensures Interchangeable(DecompressBatch(lib, xs[i]).value, ds[i])
      ensures DecompressBatch(lib, xs[i]) == Ok(ds[i]) <==> Canonical(bs[i])
    {
      RecodedBatch(lib, c, bs[i], ds[i], xs[i]);
    }
    es := seq(|xs|, i requires 0 <= i < |xs| => DecompressBatch(lib, xs[i]).value);
    DecompressEach(lib, xs, es);
  }

  // ---------- buffers ----------

  lemma Recut(bs: seq<bytes>, t: bytes)
    requires AllBatches(bs, HEADER) && !Front(t, HEADER)
    ensures Batch(Join(bs) + t) == bs && Tail(Join(bs) + t) == t
  {
    SplitOfJoin(bs, t, HEADER);
  }

  /** The buffer `s` compressed with `c`, cut into batches before and after. */
  lemma Recoded(lib: Library, s: bytes, c: Codec) returns (ds: seq<bytes>, es: seq<bytes>)
    requires Lossless(lib) && !c.Plain? && Compress(lib, s, c).Ok? && Fits(lib, s, c)
    ensures AllBatches(ds, HEADER) && Decompress(lib, s) == Ok(Join(ds) + Tail(s))
    ensures AllBatches(es, HEADER) && Decompress(lib, Compress(lib, s, c).value) == Ok(Join(es) + Tail(s))
    ensures Tail(Compress(lib, s, c).value) == Tail(s)
    ensures |es| == |ds| && forall i :: 0 <= i < |es| ==> Interchangeable(es[i], ds[i])
    ensures es == ds <==> AllCanonical(s)
  {
    hide DecompressAll, CompressAll, Batch, Tail, Length, Canonical, Join;
    var bs, t := Batch(s), Tail(s);
    ds := DecompressAll(lib, bs).value;
    DecompressedList(lib, bs, ds);
    Recut(ds, t);
    var xs := CompressAll(lib, c, ds).value;
    es := RecodedList(lib, c, bs, ds, xs);
    Recut(xs, t);
  }

  ghost predicate AllCanonical(s: bytes) {
    forall i :: 0 <= i < |Batch(s)| ==> Canonical(Batch(s)[i])
  }

  /**
   * Behind a first compression the tail is the same but lies elsewhere. The result can be decompressed exactly when the
   * tail stops a walk at its new place, and then it can be compressed again and parsed.
   */
  lemma RecodedReturns(lib: Library, s: bytes, c1: Codec, c2: Codec)
    requires Lossless(lib) && Compress(lib, s, c1).Ok? && Fits(lib, s, c1) && Readable(s) && CompressReturns(lib, s, c1)
    ensures var x := Compress(lib, s, c1).value;
            && (DecompressReturns(lib, x) <==> EndsSafely(x, Tail(s)))
            && (CompressReturns(lib, x, c2) <==> EndsSafely(x, Tail(s)))
            && (ParseReturns(lib, x) <==> EndsSafely(x, Tail(s)))
            && (EndsSafely(x, Tail(s)) ==> CompressReturns(lib, s, c2) && ParseReturns(lib, s))
  {
    hide DecompressAll, CompressAll, Batch, Tail, Length, Join, Decompress, CompressFrom, Interchangeable, Readable,
      EndsSafely, Inflates, Inflated, Deflates, Scans, Sane;
    var x := Compress(lib, s, c1).value;
    ReadableIsSane(s);
    RecodedTail(lib, s, c1);
    ReturnsIffEndsSafely(lib, x);
    if EndsSafely(x, Tail(s)) {
      RecodedReadable(lib, s, c1);
      ReadableReturns(lib, x, c2);
      ReadableReturns(lib, s, c2);
    }
  }

  lemma RecodedTail(lib: Library, s: bytes, c: Codec)
    requires Lossless(lib) && Compress(lib, s, c).Ok? && Fits(lib, s, c)
    ensures var x := Compress(lib, s, c).value; Tail(x) == Tail(s) && Decompress(lib, x).Ok?
  {
    hide DecompressAll, CompressAll, Batch, Tail, Length, Join, Decompress, CompressFrom, Interchangeable, AllCanonical;
    if c.Plain? {
      PlainIsDecompress(lib, s);
      DecompressTwice(lib, s);
    } else {
      var ds, es := Recoded(lib, s, c);
    }
  }

  /** What the result and the original decompress to can then be read too. */
  lemma RecodedReadable(lib: Library, s: bytes, c: Codec)
    requires Lossless(lib) && Compress(lib, s, c).Ok? && Fits(lib, s, c) && Readable(s) && CompressReturns(lib, s, c)
    requires var x := Compress(lib, s, c).value; Readable(x) && Decompress(lib, x).Ok?
    ensures Decompress(lib, s).Ok? && Readable(Decompress(lib, s).value)
    ensures Readable(Decompress(lib, Compress(lib, s, c).value).value)
  {
    hide DecompressAll, CompressAll, Batch, Tail, Length, Join, Decompress, Interchangeable, Readable, Inflates,
      Inflated,
      Deflates, AllCanonical;
    if c.Plain? {
      PlainIsDecompress(lib, s);
      DecompressTwice(lib, s);
    } else {
      InflatedIsDecompress(lib, s);
      var ds, es := Recoded(lib, s, c);
      Recut(ds, Tail(s));
      DeflatesIff(lib, c, ds, Tail(s), 0);
      ReadableIffEndsSafely(Join(ds) + Tail(s));
      SameReadable(es, ds, Tail(s));
    }
  }

  lemma PlainIsDecompress(lib: Library, s: bytes)
    ensures Compress(lib, s, Plain) == Decompress(lib, s)
  {
    hide Decompress;
  }

  lemma SameReadable(es: seq<bytes>, ds: seq<bytes>, t: bytes)
    requires |es| == |ds| && AllBatches(es, HEADER) && AllBatches(ds, HEADER) && !Front(t, HEADER)
    requires forall i :: 0 <= i < |es| ==> Interchangeable(es[i], ds[i])
    ensures Readable(Join(es) + t) <==> Readable(Join(ds) + t)
  {
    hide Batch, Tail, Length, Join, Readable;
    Recut(es, t);
    Recut(ds, t);
    ReadableIffEndsSafely(Join(es) + t);
    ReadableIffEndsSafely(Join(ds) + t);
    forall i | 0 <= i < |es|
      ensures |es[i]| == |ds[i]|
    {
      SameSize(es[i], ds[i]);
    }
    JoinSize(es, ds);
  }

  lemma SameSize(e: bytes, d: bytes)
    requires Interchangeable(e, d)
    ensures |e| == |d|
  {
    assert |e| == 61 + |e[61..]| && |d| == 61 + |d[61..]|;
  }

  /**
   * Compressing forgets how the batches were compressed before, whatever bytes trail the last batch. The second call
   * returns exactly when the tail stops a walk behind the first call's output, and then it gives what one call gives;
   * with target codec none, if and only if nothing was recompressed or all plain batches were canonical.
   */
  lemma CompressForgetsPath(lib: Library, s: bytes, c1: Codec, c2: Codec)
    requires Lossless(lib) && Compress(lib, s, c1).Ok? && Fits(lib, s, c1) && Readable(s) && CompressReturns(lib, s, c1)
    ensures var x := Compress(lib, s, c1).value;
            && (CompressReturns(lib, x, c2) <==> EndsSafely(x, Tail(s)))
            && (EndsSafely(x, Tail(s)) ==> CompressReturns(lib, s, c2))
            && (EndsSafely(x, Tail(s)) ==>
                  (Compress(lib, x, c2) == Compress(lib, s, c2) <==> !c2.Plain? || c1.Plain? || AllCanonical(s)))
  {
    hide Decompress, Readable, EndsSafely, AllCanonical, CompressFrom, Tail, CompressReturns, ParseReturns;
    RecodedReturns(lib, s, c1, c2);
    PlainIsDecompress(lib, s);
    PlainIsDecompress(lib, Compress(lib, s, c1).value);
    if c1.Plain? {
      DecompressTwice(lib, s);
    } else if c2.Plain? {
      UndoneIffCanonical(lib, s, c1);
    } else {
      SameRecompressed(lib, s, c1, c2);
    }
  }

  lemma SameRecompressed(lib: Library, s: bytes, c1: Codec, c2: Codec)
    requires Lossless(lib) && !c1.Plain? && !c2.Plain? && Compress(lib, s, c1).Ok? && Fits(lib, s, c1)
    ensures Compress(lib, Compress(lib, s, c1).value, c2) == Compress(lib, s, c2)
  {
    hide DecompressAll, CompressAll, Batch, Tail, Length, Join, Decompress, Interchangeable, CompressBatch, ParseBatch;
    var ds, es := Recoded(lib, s, c1);
    SameOutput(lib, c2, es, ds, Tail(s));
  }

  lemma SameOutput(lib: Library, c: Codec, es: seq<bytes>, ds: seq<bytes>, t: bytes)
    requires |es| == |ds| && AllBatches(es, HEADER) && AllBatches(ds, HEADER) && !Front(t, HEADER)
    requires forall i :: 0 <= i < |es| ==> Interchangeable(es[i], ds[i])
    ensures CompressAll(lib, c, Batch(Join(es) + t)) == CompressAll(lib, c, Batch(Join(ds) + t))
    ensures ParseAll(Batch(Join(es) + t)) == ParseAll(Batch(Join(ds) + t))
    ensures Tail(Join(es) + t) == Tail(Join(ds) + t) == t
  {
    hide DecompressAll, CompressAll, Batch, Tail, Length, Join, Interchangeable, CompressBatch, ParseBatch, ParseAll;
    Recut(es, t);
    Recut(ds, t);
    forall i | 0 <= i < |es|
      ensures CompressBatch(lib, c, es[i]) == CompressBatch(lib, c, ds[i]) && ParseBatch(es[i]) == ParseBatch(ds[i])
    {
      SameFromHereOn(lib, c, es[i], ds[i]);
    }
    SameEach(lib, c, es, ds);
  }

  lemma DecompressTwice(lib: Library, s: bytes)
    requires Decompress(lib, s).Ok? && (DecompressAll(lib, Batch(s)).Ok? ==> Small(DecompressAll(lib, Batch(s)).value))
    ensures Decompress(lib, Decompress(lib, s).value) == Decompress(lib, s)
    ensures Tail(Decompress(lib, s).value) == Tail(s)
  {
    hide DecompressAll, Batch, Tail, Length, Join;
    var ds := DecompressAll(lib, Batch(s)).value;
    DecompressedList(lib, Batch(s), ds);
    Recut(ds, Tail(s));
  }

  /**
   * The second of two decompressions returns exactly when the tail stops a walk at its new place; it changes nothing.
   */
  lemma DecompressIdempotent(lib: Library, s: bytes)
    requires Readable(s) && Decompress(lib, s).Ok?
    requires DecompressAll(lib, Batch(s)).Ok? ==> Small(DecompressAll(lib, Batch(s)).value)
    ensures var u := Decompress(lib, s).value;
            && (DecompressReturns(lib, u) <==> EndsSafely(u, Tail(s)))
            && (EndsSafely(u, Tail(s)) ==> Decompress(lib, u) == Ok(u))
  {
    hide Decompress, Readable, EndsSafely, Tail, Sane, DecompressReturns;
    ReadableIsSane(s);
    DecompressTwice(lib, s);
    ReturnsIffEndsSafely(lib, Decompress(lib, s).value);
  }

  lemma UndoneIffCanonical(lib: Library, s: bytes, c: Codec)
    requires Lossless(lib) && !c.Plain? && Compress(lib, s, c).Ok? && Fits(lib, s, c)
    ensures Decompress(lib, Compress(lib, s, c).value) == Decompress(lib, s) <==> AllCanonical(s)
  {
    hide DecompressAll, CompressAll, Batch, Tail, Length, Join, Decompress, Compress, AllCanonical, Interchangeable;
    var ds, es := Recoded(lib, s, c);
    Recut(es, Tail(s));
    Recut(ds, Tail(s));
  }

  /**
   * Decompressing what was compressed returns exactly when the tail stops a walk at its new place. It then undoes the
   * compressing exactly when every uncompressed batch carries the right checksum and codec bits that name a codec,
   * since compressing recomputes both.
   */
  lemma DecompressUndoesCompress(lib: Library, s: bytes, c: Codec)
    requires Lossless(lib) && Compress(lib, s, c).Ok? && Fits(lib, s, c) && Readable(s) && CompressReturns(lib, s, c)
    ensures var x := Compress(lib, s, c).value;
            && (DecompressReturns(lib, x) <==> EndsSafely(x, Tail(s)))
            && (EndsSafely(x, Tail(s)) ==>
                  (Decompress(lib, x) == Decompress(lib, s) <==> c.Plain? || AllCanonical(s)))
  {
    hide Decompress, Readable, EndsSafely, AllCanonical, Tail, DecompressReturns, CompressReturns, ParseReturns;
    RecodedReturns(lib, s, c, c);
    if c.Plain? {
      DecompressTwice(lib, s);
    } else {
      UndoneIffCanonical(lib, s, c);
    }
  }

  /**
   * The records read from a buffer do not depend on how it is compressed, and neither does the error; parsing the
   * compressed buffer returns exactly when the tail stops a walk at its new place.
   */
  lemma CompressKeepsRecords(lib: Library, s: bytes, c: Codec)
    requires Lossless(lib) && Compress(lib, s, c).Ok? && Fits(lib, s, c) && Readable(s) && CompressReturns(lib, s, c)
    ensures var x := Compress(lib, s, c).value;
            && (ParseReturns(lib, x) <==> EndsSafely(x, Tail(s)))
            && (EndsSafely(x, Tail(s)) ==> ParseReturns(lib, s) && Parse(lib, x) == Parse(lib, s))
  {
    hide Readable, EndsSafely, DecompressReturns, CompressReturns, ParseReturns, Compress, Parse;
    RecodedReturns(lib, s, c, c);
    SameRecords(lib, s, c);
  }

  lemma SameRecords(lib: Library, s: bytes, c: Codec)
    requires Lossless(lib) && Compress(lib, s, c).Ok? && Fits(lib, s, c)
    ensures Parse(lib, Compress(lib, s, c).value) == Parse(lib, s)
  {
    if c.Plain? {
      DecompressTwice(lib, s);
    } else {
      hide DecompressAll, CompressAll, Batch, Tail, Length, Join, Decompress, Compress, Interchangeable, ParseAll;
      var ds, es := Recoded(lib, s, c);
      SameOutput(lib, c, es, ds, Tail(s));
    }
  }

  // ---------- the loops ----------

  lemma CutFront(s: bytes)
    ensures Front(s, HEADER) ==>
              var n := Size(s, HEADER);
              Batch(s) == [s[..n]] + Batch(s[n..]) && Tail(s) == Tail(s[n..]) && IsBatch(s[..n], HEADER)
    ensures !Front(s, HEADER) ==> Batch(s) == [] && Tail(s) == s
  {
    if Front(s, HEADER) { BatchOfFront(s, HEADER); }
  }

  lemma SameAttributes(s: bytes, n: nat)
    requires 23 <= n <= |s|
    ensures Attributes(s[..n]) == Attributes(s)
  {
    assert s[..n][21..23] == s[21..23];
  }

  lemma PastEndIsNotWhole(lib: Library, s: bytes, cursor: nat, size: nat)
    requires |s| >= HEADER && s[16] == MAGIC && Inflates(lib, s, cursor) && size == cursor + |s| < 0x8000_0000_0000_0000
    ensures PastEnd(cursor, Length(s), size) <==> !Whole(s)
    ensures Whole(s) ==> 12 + Length(s) >= HEADER || IsPlain(s)
  {
    hide Length, IsPlain, DecompressBatch;
  }

  /** One iteration, after the bytes in `out`. */
  lemma InflateStep(lib: Library, s: bytes, cursor: nat, out: bytes)
    requires Whole(s) && Inflates(lib, s, cursor)
    ensures var n := 12 + Length(s);
            if IsPlain(s) then
              && Inflates(lib, s[n..], cursor + n)
              && After(out, Inflated(lib, s)) == After(out + s[..n], Inflated(lib, s[n..]))
            else if DecompressBatch(lib, s[..n]).Err? then
              Inflated(lib, s) == Err(DecompressBatch(lib, s[..n]).error)
            else
              && Inflates(lib, s[n..], cursor + n)
              && After(out, Inflated(lib, s)) == After(out + DecompressBatch(lib, s[..n]).value, Inflated(lib, s[n..]))
  {
    hide DecompressBatch, IsPlain, Length;
    var n := 12 + Length(s);
    if IsPlain(s) {
      AfterTwo(out, s[..n], Inflated(lib, s[n..]));
    } else if DecompressBatch(lib, s[..n]).Ok? {
      AfterTwo(out, DecompressBatch(lib, s[..n]).value, Inflated(lib, s[n..]));
    }
  }

  lemma AfterTwo(a: bytes, b: bytes, r: Result<bytes>)
    ensures After(a, After(b, r)) == After(a + b, r)
  {
    if r.Ok? { assert a + (b + r.value) == a + b + r.value; }
  }

  method DecompressRecordBatch(lib: Library, src: bytes) returns (r: Result<bytes>)
    requires DecompressReturns(lib, src)
    ensures r == Inflated(lib, src)
    ensures Readable(src) ==> r == Decompress(lib, src)
  {
    hide DecompressBatch, Decompress, Length, PastEnd, Attributes, Inflated, Inflates, Readable;
    NotWhole(lib, src);
    if Readable(src) { InflatedIsDecompress(lib, src); }
    if |src| < HEADER { return Ok(src); }
    var cursor, out, any := 0, [], false;
    assert src[0..] == src;
    if Inflated(lib, src).Ok? { assert [] + Inflated(lib, src).value == Inflated(lib, src).value; }
    while cursor + HEADER <= |src|
      invariant 0 <= cursor <= |src| && Inflates(lib, src[cursor..], cursor)
      invariant After(out, Inflated(lib, src[cursor..])) == Inflated(lib, src)
      invariant !any ==> out == src[..cursor]
      decreases |src| - cursor
    {
      ghost var s := src[cursor..];
      if src[cursor + 16] != 2 { break; }
      var length: int := Length(src[cursor..]);
      PastEndIsNotWhole(lib, s, cursor, |src|);
      if PastEnd(cursor, length, |src|) { break; }
      var total := 12 + length;
      var batch := src[cursor..cursor + total];
      assert batch == s[..total] && src[cursor + total..] == s[total..];
      InflateStep(lib, s, cursor, out);
      if FromAttributes(Attributes(src[cursor..])).Plain? {
        out := out + batch;
      } else {
        any := true;
        SameAttributes(s, total);
        var next := AppendDecompressed(lib, out, batch);
        if next.Err? { return Err(next.error); }
        out := next.value;
      }
      cursor := cursor + total;
    }
    NotWhole(lib, src[cursor..]);
    if !any {
      assert src == src[..cursor] + src[cursor..];
      return Ok(src);
    }
    return Ok(out + src[cursor..]);
  }

  lemma NotWhole(lib: Library, s: bytes)
    ensures !Whole(s) ==> Inflated(lib, s) == Ok(s)
  {
  }

  method AppendDecompressed(lib: Library, out: bytes, b: bytes) returns (r: Result<bytes>)
    requires |b| >= HEADER
    ensures DecompressBatch(lib, b).Err? ==> r == Err(DecompressBatch(lib, b).error)
    ensures DecompressBatch(lib, b).Ok? ==> r == Ok(out + DecompressBatch(lib, b).value)
    ensures FromAttributes(Attributes(b)).Plain? ==> r == Ok(out + b)
  {
    var codec := FromAttributes(Attributes(b));
    if codec.Plain? { return Ok(out + b); }
    var data := lib.decompress(codec, b[61..]);
    if data.Err? { return Err(data.error); }
    var next := AppendRebuilt(out, b, WithCodec(Attributes(b), Plain), data.value);
    return Ok(next);
  }

  lemma NoBatches(lib: Library, s: bytes)
    requires Batch(s) == []
    ensures DecompressAll(lib, Batch(s)) == Ok([]) && Decompress(lib, s) == Ok(s)
  {
    JoinNothing(Tail(s));
  }

  lemma CompressStep(lib: Library, c: Codec, s: bytes, done: seq<bytes>, whole: Result<seq<bytes>>)
    requires Front(s, HEADER) && Prepend(done, CompressAll(lib, c, Batch(s))) == whole
    ensures var n := Size(s, HEADER);
            var x := CompressBatch(lib, c, s[..n]);
            Tail(s[n..]) == Tail(s) && IsBatch(s[..n], HEADER) &&
            if x.Err? then whole == Err(x.error)
            else Prepend(done + [x.value], CompressAll(lib, c, Batch(s[n..]))) == whole &&
                 Join(done + [x.value]) == Join(done) + x.value
  {
    hide CompressBatch, CompressAll, Batch, Tail, Join;
    CutFront(s);
    var n := Size(s, HEADER);
    var x := CompressBatch(lib, c, s[..n]);
    CompressCons(lib, c, s[..n], Batch(s[n..]));
    if x.Ok? {
      JoinAppend(done, x.value);
      PrependAssoc(done, x.value, CompressAll(lib, c, Batch(s[n..])));
    }
  }

  lemma CompressCons(lib: Library, c: Codec, b: bytes, bs: seq<bytes>)
    requires |b| >= HEADER && AllBatches(bs, HEADER)
    ensures CompressAll(lib, c, [b] + bs)
         == (if CompressBatch(lib, c, b).Err? then Err(CompressBatch(lib, c, b).error)
             else Prepend([CompressBatch(lib, c, b).value], CompressAll(lib, c, bs)))
  {
    hide CompressBatch;
    assert ([b] + bs)[1..] == bs;
  }

  method CompressRecordBatch(lib: Library, batchBytes: bytes, target: Codec) returns (r: Result<bytes>)
    requires CompressReturns(lib, batchBytes, target)
    ensures r == CompressFrom(lib, Inflated(lib, batchBytes), target)
    ensures Readable(batchBytes) ==> r == Compress(lib, batchBytes, target)
  {
    hide CompressFrom, Readable, Decompress, Inflated, Inflates, Deflates;
    if Readable(batchBytes) { InflatedIsDecompress(lib, batchBytes); }
    var uncompressed := DecompressRecordBatch(lib, batchBytes);
    if target.Plain? || uncompressed.Err? {
      NotCompressed(lib, uncompressed, target);
      return uncompressed;
    }
    if |uncompressed.value| < HEADER {
      ShortBuffer(lib, batchBytes, target);
      return Ok(batchBytes);
    }
    r := CompressEach(lib, uncompressed.value, target);
  }

  lemma NotCompressed(lib: Library, u: Result<bytes>, c: Codec)
    requires c.Plain? || u.Err?
    ensures CompressFrom(lib, u, c) == u
  {
  }

  /** The loop over the decompressed buffer. */
  method CompressEach(lib: Library, src: bytes, target: Codec) returns (r: Result<bytes>)
    requires Deflates(lib, target, src, 0) && |src| < 0x8000_0000_0000_0000 && !target.Plain?
    ensures r == CompressFrom(lib, Ok(src), target)
  {
    hide CompressBatch, CompressAll, Batch, Tail, Length, Join, PastEnd, Prepend;
    var cursor, out := 0, [];
    ghost var whole := CompressAll(lib, target, Batch(src));
    ghost var done: seq<bytes> := [];
    assert src[0..] == src;
    PrependEmpty(done, whole);
    JoinNothing([]);
    while cursor + HEADER <= |src|
      invariant 0 <= cursor <= |src| && out == Join(done)
      invariant Deflates(lib, target, src[cursor..], cursor)
      invariant Prepend(done, CompressAll(lib, target, Batch(src[cursor..]))) == whole
      invariant Tail(src[cursor..]) == Tail(src)
      decreases |src| - cursor
    {
      ghost var s := src[cursor..];
      if src[cursor + 16] != 2 { break; }
      var length: int := Length(src[cursor..]);
      PastEndIsNotFront(s, cursor, |src|, HEADER);
      if PastEnd(cursor, length, |src|) { break; }
      var total := 12 + length;
      var batch := src[cursor..cursor + total];
      assert batch == s[..total] && src[cursor + total..] == s[total..];
      CompressStep(lib, target, s, done, whole);
      var next := AppendCompressed(lib, target, out, batch);
      if next.Err? { return Err(next.error); }
      out := next.value;
      done := done + [CompressBatch(lib, target, batch).value];
      cursor := cursor + total;
    }
    CutFront(src[cursor..]);
    CompressNone(lib, target);
    PrependEmpty(done, Ok([]));
    return Ok(out + src[cursor..]);
  }

  lemma CompressNone(lib: Library, c: Codec)
    ensures CompressAll(lib, c, []) == Ok([])
  {
  }

  method AppendCompressed(lib: Library, c: Codec, out: bytes, b: bytes) returns (r: Result<bytes>)
    requires |b| >= HEADER && !c.Plain?
    ensures CompressBatch(lib, c, b).Err? ==> r == Err(CompressBatch(lib, c, b).error)
    ensures CompressBatch(lib, c, b).Ok? ==> r == Ok(out + CompressBatch(lib, c, b).value)
  {
    var data := lib.compress(c, b[61..]);
    if data.Err? { return Err(data.error); }
    var next := AppendRebuilt(out, b, WithCodec(Attributes(b), c), data.value);
    return Ok(next);
  }

  /** A decompressed buffer too short for a header had nothing to decompress. */
  lemma {:induction false} InflatedSize(lib: Library, s: bytes)
    requires Inflated(lib, s).Ok?
    ensures |Inflated(lib, s).value| >= HEADER || Inflated(lib, s).value == s
    decreases |s|
  {
    hide Length, Attributes, DecompressBatch;
    if Whole(s) {
      var n := 12 + Length(s);
      assert s == s[..n] + s[n..];
      InflatedSize(lib, s[n..]);
      if !FromAttributes(Attributes(s)).Plain? { assert |DecompressBatch(lib, s[..n]).value| >= HEADER; }
    }
  }

  lemma ShortBuffer(lib: Library, s: bytes, c: Codec)
    requires Inflated(lib, s).Ok? && |Inflated(lib, s).value| < HEADER
    ensures CompressFrom(lib, Inflated(lib, s), c) == Ok(s)
  {
    hide Inflated;
    InflatedSize(lib, s);
    CutFront(s);
    JoinNothing(Tail(s));
  }

  lemma ParseStep(s: bytes, done: seq<Record>, whole: Result<seq<Record>>)
    requires Front(s, HEADER) && Prepend(done, ParseAll(Batch(s))) == whole
    ensures var n := Size(s, HEADER);
            var rs := ParseBatch(s[..n]);
            IsBatch(s[..n], HEADER) &&
            if rs.Err? then whole == Err(rs.error)
            else Prepend(done + rs.value, ParseAll(Batch(s[n..]))) == whole
  {
    hide ParseBatch, Batch;
    CutFront(s);
    var n := Size(s, HEADER);
    var rest := ParseAll(Batch(s[n..]));
    assert ([s[..n]] + Batch(s[n..]))[1..] == Batch(s[n..]);
    if ParseBatch(s[..n]).Ok? && rest.Ok? {
      assert done + (ParseBatch(s[..n]).value + rest.value) == done + ParseBatch(s[..n]).value + rest.value;
    }
  }

  method ParseRecordBatchRecords(lib: Library, batchBytes: bytes) returns (r: Result<seq<Record>>)
    requires ParseReturns(lib, batchBytes)
    ensures r == ParseFrom(Inflated(lib, batchBytes))
    ensures Readable(batchBytes) ==> r == Parse(lib, batchBytes)
  {
    hide ParseAll, Batch, Tail, Length, PastEnd, Prepend, Decompress, ParseRecords, BaseOffset, BaseTimestamp,
      RecordCount,
      Inflated, Inflates, Readable;
    if Readable(batchBytes) { InflatedIsDecompress(lib, batchBytes); }
    var uncompressed := DecompressRecordBatch(lib, batchBytes);
    if uncompressed.Err? { return Err(uncompressed.error); }
    var src := uncompressed.value;
    var cursor, records := 0, [];
    ghost var whole := ParseAll(Batch(src));
    assert src[0..] == src;
    PrependEmpty(records, whole);
    while cursor + HEADER <= |src|
      invariant 0 <= cursor <= |src|
      invariant Scans(src[cursor..], cursor)
      invariant Prepend(records, ParseAll(Batch(src[cursor..]))) == whole
      decreases |src| - cursor
    {
      ghost var s := src[cursor..];
      if src[cursor + 16] != 2 { break; }
      var length: int := Length(src[cursor..]);
      PastEndIsNotFront(s, cursor, |src|, HEADER);
      if PastEnd(cursor, length, |src|) { break; }
      var total := 12 + length;
      var batch := src[cursor..cursor + total];
      assert batch == s[..total] && src[cursor + total..] == s[total..];
      ParseStep(s, records, whole);
      var parsed := ParsePayload(batch[61..], RecordCount(batch), BaseOffset(batch), BaseTimestamp(batch));
      if parsed.Err? { return parsed; }
      records := records + parsed.value;
      cursor := cursor + total;
    }
    CutFront(src[cursor..]);
    ParseNone();
    PrependEmpty(records, Ok([]));
    return Ok(records);
  }

  lemma ParseNone()
    ensures ParseAll([]) == Ok([])
  {
  }

  // ---------- batch by batch ----------

  /** Nothing but length, checksum, codec bits and payload differ, and length and checksum are right. */
  ghost predicate SameHeader(b: bytes, x: bytes) {
    && IsBatch(b, HEADER) && IsBatch(x, HEADER) && CrcValid(x)
    && x[..8] == b[..8] && x[12..16] == b[12..16] && x[23..61] == b[23..61]
    && Attributes(x) - Attributes(x) % 8 == Attributes(b) - Attributes(b) % 8
  }

  lemma RebuiltSameHeader(b: bytes, d: bytes, c: Codec, data: bytes)
    requires IsBatch(b, HEADER) && |d| >= HEADER && Agree(b, d) && 49 + |data| <= I32_MAX
    requires WithCodec(Attributes(d), Plain) == WithCodec(Attributes(b), Plain)
    ensures var x := Rebuild(d, WithCodec(Attributes(d), c), data);
            SameHeader(b, x) && FromAttributes(Attributes(x)) == c && x[61..] == data
  {
    hide Rebuild, Attributes, Length, CrcValid;
    RebuildLayout(d, WithCodec(Attributes(d), c), data);
    RebuiltIsBatch(d, WithCodec(Attributes(d), c), data);
  }

  /** A compressed buffer has a batch for every batch, in order, with its header, that codec and the payload in it. */
  lemma CompressByBatch(lib: Library, s: bytes, c: Codec)
    requires !c.Plain? && Compress(lib, s, c).Ok? && Fits(lib, s, c)
    ensures var x := Compress(lib, s, c).value;
            |Batch(x)| == |Batch(s)| && Tail(x) == Tail(s) &&
            forall i :: 0 <= i < |Batch(s)| ==>
              SameHeader(Batch(s)[i], Batch(x)[i]) && FromAttributes(Attributes(Batch(x)[i])) == c &&
              Contents(lib, Batch(s)[i]).Ok? &&
              lib.compress(c, Contents(lib, Batch(s)[i]).value) == Ok(Batch(x)[i][61..])
  {
    hide DecompressAll, CompressAll, Batch, Tail, Length, Join, SameHeader, Contents, FromAttributes,
      DecompressBatch, CompressBatch, Attributes;
    var bs := Batch(s);
    var ds := DecompressAll(lib, bs).value;
    DecompressedList(lib, bs, ds);
    Recut(ds, Tail(s));
    var xs := CompressAll(lib, c, ds).value;
    forall i | 0 <= i < |bs|
      ensures IsBatch(xs[i], HEADER) && SameHeader(bs[i], xs[i]) && FromAttributes(Attributes(xs[i])) == c
      ensures Contents(lib, bs[i]).Ok? && lib.compress(c, Contents(lib, bs[i]).value) == Ok(xs[i][61..])
    {
      CompressOne(lib, c, bs[i], ds[i], xs[i]);
    }
    Recut(xs, Tail(s));
  }

  lemma CompressOne(lib: Library, c: Codec, b: bytes, d: bytes, x: bytes)
    requires !c.Plain? && IsBatch(b, HEADER) && DecompressBatch(lib, b) == Ok(d) && |d| <= 12 + I32_MAX
    requires |d| >= HEADER && CompressBatch(lib, c, d) == Ok(x) && |x| <= 12 + I32_MAX
    ensures IsBatch(x, HEADER) && SameHeader(b, x) && FromAttributes(Attributes(x)) == c
    ensures Contents(lib, b).Ok? && lib.compress(c, Contents(lib, b).value) == Ok(x[61..])
  {
    hide Rebuild, Contents, DecompressBatch, Length, Attributes, WithCodec, FromAttributes, CrcValid, Canonical, Normal;
    DecompressedBatch(lib, b, d);
    var data := Compressed(lib, c, d[61..]).value;
    RebuildLayout(d, WithCodec(Attributes(d), c), data);
    RebuiltSameHeader(b, d, c, data);
  }

  /**
   * A decompressed buffer has a batch for every batch, in order: the same batch if it was not compressed, and otherwise
   * one with its header, no codec and the payload decompressed.
   */
  lemma DecompressByBatch(lib: Library, s: bytes)
    requires Decompress(lib, s).Ok? && Small(DecompressAll(lib, Batch(s)).value)
    ensures var u := Decompress(lib, s).value;
            |Batch(u)| == |Batch(s)| && Tail(u) == Tail(s) &&
            forall i :: 0 <= i < |Batch(s)| ==>
              var b, d := Batch(s)[i], Batch(u)[i];
              var codec := FromAttributes(Attributes(b));
              if codec.Plain? then d == b
              else SameHeader(b, d) && Attributes(d) % 8 == 0 && lib.decompress(codec, b[61..]) == Ok(d[61..])
  {
    hide DecompressAll, Batch, Tail, Length, Join, SameHeader, FromAttributes, DecompressBatch, Attributes;
    var bs := Batch(s);
    var ds := DecompressAll(lib, bs).value;
    DecompressedList(lib, bs, ds);
    Recut(ds, Tail(s));
    forall i | 0 <= i < |bs|
      ensures var codec := FromAttributes(Attributes(bs[i]));
              if codec.Plain? then ds[i] == bs[i]
              else SameHeader(bs[i], ds[i]) && Attributes(ds[i]) % 8 == 0 &&
                   lib.decompress(codec, bs[i][61..]) == Ok(ds[i][61..])
    {
      DecompressOneBatch(lib, bs[i], ds[i]);
    }
  }

  lemma DecompressOneBatch(lib: Library, b: bytes, d: bytes)
    requires IsBatch(b, HEADER) && |d| >= HEADER && DecompressBatch(lib, b) == Ok(d) && |d| <= 12 + I32_MAX
    ensures var codec := FromAttributes(Attributes(b));
            if codec.Plain? then d == b
            else SameHeader(b, d) && Attributes(d) % 8 == 0 && lib.decompress(codec, b[61..]) == Ok(d[61..])
  {
    hide Rebuild, Length, Attributes, CrcValid;
    if !FromAttributes(Attributes(b)).Plain? {
      var data := Contents(lib, b).value;
      RebuildLayout(b, WithCodec(Attributes(b), Plain), data);
      RebuiltSameHeader(b, b, Plain, data);
    }
  }

  /** Batches are parsed one after the other: the records of the first come first, and the first error is reported. */
  lemma {:induction false} ParsesInOrder(a: seq<bytes>, b: seq<bytes>)
    requires forall i :: 0 <= i < |a| ==> |a[i]| >= HEADER
    requires forall i :: 0 <= i < |b| ==> |b[i]| >= HEADER
    ensures ParseAll(a + b)
         == if ParseAll(a).Err? then ParseAll(a)
            else if ParseAll(b).Err? then ParseAll(b)
            else Ok(ParseAll(a).value + ParseAll(b).value)
  {
    hide ParseBatch;
    if a == [] {
      assert a + b == b;
      if ParseAll(b).Ok? { assert [] + ParseAll(b).value == ParseAll(b).value; }
    } else {
      ParsesInOrder(a[1..], b);
      assert (a + b)[1..] == a[1..] + b;
      if ParseAll(a).Ok? && ParseAll(b).Ok? {
        var first, rest, more := ParseBatch(a[0]).value, ParseAll(a[1..]).value, ParseAll(b).value;
        assert first + (rest + more) == first + rest + more;
      }
    }
  }
}
