/** Where the bytes are: the formats the encoders write, spelled out. */
module Layouts {
  import opened Bytes
  import opened Batches
  import Crc32c
  import opened Varint
  import opened Records
  import opened Transcode
  import opened Pipeline
  import C = Compaction
  import F = Framing
  import G = Groups
  import N = Names
  import O = ObjectCodec
  import W = Wire

  // ---------- fixed-width numbers ----------

  lemma FourBytes(s: bytes, t: bytes)
    requires |s| == |t| == 4
    requires var a: int, b: int, c: int, d: int := t[0], t[1], t[2], t[3];
             GetU32(s) == 0x100_0000 * a + 0x1_0000 * b + 0x100 * c + d
    ensures s == t
  {
    BigEndianQuad(t);
    FromBeInjective(s, t);
  }

  lemma TwoBytes(s: bytes, v: u16)
    requires |s| == 2 && GetU16(s) == v
    ensures s == [v / 256, v % 256]
  {
    BigEndianPair(s);
  }

  // ---------- batches ----------

  function CodecNumber(c: Codec): int {
    match c
    case Plain => 0
    case Gzip => 1
    case Snappy => 2
    case Lz4 => 3
    case Zstd => 4
  }

  /** The header of a batch without a producer, byte range by byte range. */
  ghost predicate HeaderSays(b: bytes, base: i64, length: i32, codec: i16, last: i32, first: i64, largest: i64,
                             count: i32)
  {
    && |b| >= 61 && |b| == 12 + length
    && b[..8] == PutI64(base)
    && b[8..12] == PutI32(length)
    && b[12..16] == [0, 0, 0, 0]
    && b[16] == 2
    && b[17..21] == PutU32(Crc32c.Checksum(b[21..]))
    && b[21..23] == PutI16(codec)
    && b[23..27] == PutI32(last)
    && b[27..35] == PutI64(first)
    && b[35..43] == PutI64(largest)
    && b[43..51] == PutI64(-1)
    && b[51..53] == PutI16(-1)
    && b[53..57] == PutI32(-1)
    && b[57..61] == PutI32(count)
  }

  /**
   * The header of an encoded batch: base offset, length of what follows, four zeros, version 2, checksum of everything
   * from byte 21 on, codec, number of records less one, the first record's timestamp, the largest timestamp, no
   * producer, no epoch, no sequence, number of records. Behind it the payload in that codec.
   */
  lemma EncodedBatchHeader(lib: Library, base: i64, rs: seq<Record>, c: Codec, b: bytes) returns (largest: i64)
    requires EncodeBatch(lib, base, rs, c) == Ok(b) && |rs| <= I32_MAX && 12 <= |b| <= 12 + I32_MAX
    ensures var first := if rs == [] then 0 else rs[0].timestamp;
            && HeaderSays(b, base, |b| - 12, CodecNumber(c), if rs == [] then 0 else |rs| - 1, first, largest, |rs|)
            && Compressed(lib, c, EncodeRecords(Deltas(base, first, rs))) == Ok(b[61..])
    ensures if rs == [] then largest == 0 else exists r :: r in rs && largest == r.timestamp
    ensures forall r :: r in rs ==> largest >= r.timestamp
  {
    hide Assemble, EncodeRecords, Deltas, Compressed, HeaderSays;
    var data := Compressed(lib, c, RecordsPayload(base, rs)).value;
    var f := RecordFields(rs, c);
    Narrow(|rs|);
    AssembledSize(base, f, data);
    AssembledHeader(base, f, data);
    largest := f.maxTimestamp;
  }

  lemma Narrow(n: nat)
    requires n <= I32_MAX
    ensures WrapI32(n) == n && WrapI32(n - 1) == n - 1
  {
  }

  lemma AssembledSize(base: i64, f: Fields, payload: bytes)
    ensures |Assemble(base, f, payload)| == 61 + |payload|
  {
    hide PutI64, PutI32, PutU32, PutI16, Crc32c.Checksum;
  }

  lemma AssembledHeader(base: i64, f: Fields, payload: bytes)
    requires 49 + |payload| <= I32_MAX && f.producerId == -1 && f.producerEpoch == -1 && f.baseSequence == -1
    ensures var b := Assemble(base, f, payload);
            HeaderSays(b, base, 49 + |payload|, f.attributes, f.lastOffsetDelta, f.baseTimestamp, f.maxTimestamp,
                       f.count) && b[61..] == payload
  {
    hide EncodeFields, PutI64, PutI32, PutU32, PutI16, Crc32c.Checksum;
    Narrow(49 + |payload|);
    var s := EncodeFields(f);
    var body := s + payload;
    var b := Assemble(base, f, payload);
    var head, crc := PutI64(base) + PutI32(49 + |payload|) + PutI32(0) + [2], PutU32(Crc32c.Checksum(body));
    HeadPieces(PutI64(base), PutI32(49 + |payload|), PutI32(0));
    ZeroBytes();
    assert b == head + crc + body;
    assert b[..17] == head && b[17..21] == crc && b[21..] == body && b[61..] == payload;
    assert b[..8] == head[..8] && b[8..12] == head[8..12] && b[12..16] == head[12..16] && b[16] == head[16];
    FieldsLayout(f);
    SequenceField(f);
    FieldSlices(b);
    assert b[21..61] == s;
    Slice(b, 21, 61, 14, 22);
    Slice(b, 21, 61, 32, 36);
  }

  lemma HeadPieces(a: bytes, b: bytes, c: bytes)
    requires |a| == 8 && |b| == |c| == 4
    ensures var s := a + b + c + [2];
            |s| == 17 && s[..8] == a && s[8..12] == b && s[12..16] == c && s[16] == 2
  {
  }

  lemma ZeroBytes()
    ensures PutI32(0) == [0, 0, 0, 0]
  {
    FourBytes(PutI32(0), [0, 0, 0, 0]);
  }

  lemma SequenceField(f: Fields)
    ensures EncodeFields(f)[32..36] == PutI32(f.baseSequence)
  {
    hide PutI64, PutI32, PutI16;
  }

  // ---------- records ----------

  /** A short field: its length, doubled, and its bytes; 1 for null. */
  function ShortField(b: Option<bytes>): bytes
    requires b.Some? ==> |b.value| < 64
  {
    if b.Some? then [2 * |b.value|] + b.value else [1]
  }

  lemma ShortNullable(b: Option<bytes>)
    requires b.Some? ==> |b.value| < 64
    ensures EncodeNullable(b) == ShortField(b)
    ensures b.Some? ==> Records.Sized(b.value) == ShortField(b)
  {
    hide WriteSigned;
    if b.Some? { WriteSmall(|b.value|); } else { WriteSmall(-1); }
  }

  function Folded(v: int): byte
    requires -64 <= v < 64
  {
    if v >= 0 then 2 * v else -2 * v - 1
  }

  /** A short record: no attributes, timestamp, then offset, key, value, number of headers, headers. */
  lemma ShortRecord(r: Record)
    requires -64 <= r.timestamp < 64 && -64 <= r.offset < 64 && |r.headers| < 64
    requires (r.key.Some? ==> |r.key.value| < 64) && (r.value.Some? ==> |r.value.value| < 64)
    ensures EncodeBody(r)
         == [0, Folded(r.timestamp), Folded(r.offset)] + ShortField(r.key) + ShortField(r.value) + [2 * |r.headers|]
            + EncodeHeaders(r.headers)
    ensures |EncodeBody(r)| < 64 ==> EncodeRecords([r]) == [2 * |EncodeBody(r)|] + EncodeBody(r)
  {
    hide WriteSigned, EncodeHeaders;
    WriteSmall(r.timestamp);
    WriteSmall(r.offset);
    WriteSmall(|r.headers|);
    ShortNullable(r.key);
    ShortNullable(r.value);
    if |EncodeBody(r)| < 64 {
      ShortNullable(Some(EncodeBody(r)));
      var none: seq<Record> := [];
      assert [r][1..] == none;
    }
  }

  /** A short header: key and value, each with its length. */
  lemma ShortHeader(h: Header)
    requires |h.key| < 64 && |h.value| < 64
    ensures EncodeHeaders([h]) == [2 * |h.key|] + h.key + [2 * |h.value|] + h.value
  {
    hide WriteSigned;
    ShortNullable(Some(h.key));
    ShortNullable(Some(h.value));
    var none: seq<Header> := [];
    assert [h][1..] == none;
  }

  // ---------- frames, strings and byte strings ----------

  /** The number in the first four bytes, most significant first. */
  function Announced(s: bytes): int
    requires |s| >= 4
  {
    var a: int, b: int, c: int, d: int := s[0], s[1], s[2], s[3];
    0x100_0000 * a + 0x1_0000 * b + 0x100 * c + d
  }

  /** A frame is the length of its payload in four bytes, most significant first, and the payload. */
  lemma FrameLayout(payload: bytes)
    requires |payload| <= I32_MAX
    ensures var s := F.Encode(payload);
            |s| == 4 + |payload| && Announced(s) == |payload| && s[4..] == payload
  {
    hide PutI32;
    Narrow(|payload|);
    BigEndianQuad(PutI32(|payload|));
  }

  /** The decoder waits for four bytes, refuses lengths that are negative or above 104857600, and then waits for all. */
  lemma FrameRead(src: bytes)
    ensures |src| < 4 ==> F.Decode(src) == F.Wait
    ensures |src| >= 4 ==>
              var n := Announced(src);
              F.Decode(src)
              == if src[0] >= 128 || n > 104857600 then F.Fail
                 else if |src| < 4 + n then F.Wait
                 else F.Frame(src[4..4 + n], src[4 + n..])
  {
    if |src| >= 4 { BigEndianQuad(src[..4]); }
  }

  /** A nullable string: two length bytes and the string, or 255, 255. */
  lemma StringLayout(s: utf8)
    ensures W.WriteString(None) == [255, 255]
    ensures |s| <= 0x7fff ==> W.WriteString(Some(s)) == [|s| / 256, |s| % 256] + s
  {
    hide PutI16;
    TwoBytes(PutI16(-1), 0xffff);
    if |s| <= 0x7fff { TwoBytes(PutI16(|s|), |s|); }
  }

  /** A nullable byte string: four length bytes and the bytes, or four times 255. */
  lemma BytesLayout(v: bytes)
    ensures W.WriteBytes(None) == [255, 255, 255, 255]
    ensures var s := W.WriteBytes(Some(v));
            |v| <= I32_MAX ==> |s| == 4 + |v| && Announced(s) == |v| && s[4..] == v
  {
    hide PutI32;
    FourBytes(PutI32(-1), [255, 255, 255, 255]);
    if |v| <= I32_MAX {
      Narrow(|v|);
      BigEndianQuad(PutI32(|v|));
    }
  }

  /** The compact forms: the length plus one as a varint and the bytes, or 0. */
  lemma CompactLayout(s: bytes)
    requires |s| < 0xffff_ffff_ffff_ffff
    ensures W.WriteCompact(None) == [0]
    ensures |s| < 127 ==> W.WriteCompact(Some(s)) == [|s| + 1] + s
  {
  }

  // ---------- objects and names ----------

  /** An object starts with S3ST, version 1 and the number of blocks, and ends with S3ST. */
  lemma ObjectLayout(bs: seq<O.Block>)
    ensures var s := O.Encode(bs);
            |s| >= 22 && s[..4] == [0x53, 0x33, 0x53, 0x54] && s[4..6] == [0, 1] &&
            s[6..8] == [O.Low16(|bs|) / 256, O.Low16(|bs|) % 256] && s[|s| - 4..] == [0x53, 0x33, 0x53, 0x54]
  {
    hide O.EncodeBlocks, O.EncodeIndex, O.Low16, PutU16, PutU32, PutU64, GetU16, GetU32, O.Encode;
    var s, magic := O.Encode(bs), PutU32(O.OBJECT_MAGIC);
    O.EncodedHeader(bs);
    FourBytes(s[..4], [0x53, 0x33, 0x53, 0x54]);
    TwoBytes(s[4..6], 1);
    TwoBytes(s[6..8], O.Low16(|bs|));
    FourBytes(magic, [0x53, 0x33, 0x53, 0x54]);
    assert s == s[..8] + s[8..];
    EndsWith(O.Footer(bs), magic);
    assert s[|s| - 4..] == magic;
  }

  lemma EndsWith(foot: bytes, magic: bytes)
    requires |magic| == 4 && |foot| >= 4 && foot[|foot| - 4..] == magic
    ensures forall head: bytes :: (head + foot)[|head + foot| - 4..] == magic
  {
  }

  lemma {:induction false} Zeros(w: nat)
    ensures N.Digits(0, w) == seq(w, _ => '0')
  {
    if w > 0 { Zeros(w - 1); }
  }

  /** The key of the object that holds offsets 0 to 9 of stream 7, and of its compacted form. */
  lemma KeyLayout()
    ensures var range := "00000000000000000000" + "_" + "00000000000000000009";
            C.Key("7", 0, 9, false) == "streams/" + "7" + "/" + range + ".data" &&
            C.Key("7", 0, 9, true) == "streams/" + "7" + "/" + range + ".compacted.data"
  {
    hide N.Digits;
    Zeros(20);
    OneDigit(9, 20);
    var start, end := "00000000000000000000", "00000000000000000009";
    assert N.Padded(0, 20) == start && N.Padded(9, 20) == end;
    hide N.Padded;
    Rest(start, end, ".data");
    Rest(start, end, ".compacted.data");
  }

  lemma Rest(a: string, b: string, c: string)
    ensures "streams/" + "7" + "/" + a + "_" + b + c == "streams/" + "7" + "/" + (a + "_" + b) + c
  {
  }

  lemma OneDigit(d: nat, w: nat)
    requires d < 10 && w > 0
    ensures N.Digits(d, w) == seq(w - 1, _ => '0') + [N.Digit(d)]
  {
    Zeros(w - 1);
  }

  /** The twelfth member id handed out to clients that call themselves app. */
  lemma MemberIdLayout()
    ensures G.MemberId("app", 12) == "app-00000012"
  {
    OneDigit(1, 7);
    TwelveInEight();
    hide N.Padded;
    assert "app" + "-" + "00000012" == "app-00000012";
  }

  lemma TwelveInEight()
    requires N.Digits(1, 7) == seq(6, _ => '0') + [N.Digit(1)]
    ensures N.Padded(12, 8) == "00000012"
  {
    assert N.Width(12) == 2;
    assert N.Digits(12, 8) == N.Digits(1, 7) + "2";
  }
}
