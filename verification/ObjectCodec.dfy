/** The S3 object format (`format.rs`): blocks with checksums between a header and a footer index. */
module ObjectCodec {
  import opened Bytes
  import Crc = Crc32c

  const OBJECT_MAGIC: u32 := 0x53335354
  const OBJECT_VERSION: u16 := 1
  const BLOCK_HEADER: nat := 36

  datatype Block = Block(streamId: u64, start: i64, end: i64, count: u32, data: bytes)

  /** `as u16` and `as u32` of a length. */
  function Low16(n: nat): (r: u16)
    ensures r <= n && (r == n <==> n < 0x1_0000)
  {
    n % 0x1_0000
  }

  function Low32(n: nat): u32 { n % 0x1_0000_0000 }

  function BlockHeader(b: Block): (s: bytes)
    ensures |s| == 36
  {
    PutU64(b.streamId) + PutI64(b.start) + PutI64(b.end) + PutU32(b.count) + PutU32(Low32(|b.data|))
    + PutU32(Crc.Checksum(b.data))
  }

  function EncodeBlocks(bs: seq<Block>): bytes {
    if bs == [] then [] else BlockHeader(bs[0]) + bs[0].data + EncodeBlocks(bs[1..])
  }

  /** The footer's index, the first block starting at byte `at`. */
  function EncodeIndex(bs: seq<Block>, at: nat): bytes {
    if bs == [] then [] else IndexEntry(bs[0], at) + EncodeIndex(bs[1..], at + 36 + |bs[0].data|)
  }

  function Footer(bs: seq<Block>): bytes {
    PutU16(Low16(|bs|)) + EncodeIndex(bs, 8)
    + PutU64((8 + |EncodeBlocks(bs)|) % 0x1_0000_0000_0000_0000) + PutU32(OBJECT_MAGIC)
  }

  function Encode(bs: seq<Block>): bytes {
    PutU32(OBJECT_MAGIC) + PutU16(OBJECT_VERSION) + PutU16(Low16(|bs|)) + EncodeBlocks(bs) + Footer(bs)
  }

  function DecodeBlocks(s: bytes, n: nat): Result<seq<Block>> {
    if n == 0 then Ok([])
    else if |s| < BLOCK_HEADER then Err("Truncated block header in S3 object")
    else
      var len := GetU32(s[28..32]);
      if |s| - 36 < len then Err("Truncated block data in S3 object")
      else
        var data := s[36..36 + len];
        if Crc.Checksum(data) != GetU32(s[32..36]) then Err("Corrupted record")
        else
          var b := Block(GetU64(s[..8]), GetI64(s[8..16]), GetI64(s[16..24]), GetU32(s[24..28]), data);
          var rest :- DecodeBlocks(s[36 + len..], n - 1);
          Ok([b] + rest)
  }

  function Decode(s: bytes): Result<seq<Block>> {
    if |s| < 8 then Err("S3 object too small")
    else if GetU32(s[..4]) != OBJECT_MAGIC then Err("Invalid S3 object magic")
    else if GetU16(s[4..6]) != OBJECT_VERSION then Err("Unsupported S3 object version")
    else DecodeBlocks(s[8..], GetU16(s[6..8]))
  }

  // ---------- the loops ----------

  method DecodeAll(data: bytes) returns (r: Result<seq<Block>>)
    ensures r == Decode(data)
  {
    hide Crc.Checksum, GetU16, GetU32, GetU64, GetI64;
    if |data| < 8 { return Err("S3 object too small"); }
    if GetU32(data[..4]) != OBJECT_MAGIC { return Err("Invalid S3 object magic"); }
    if GetU16(data[4..6]) != OBJECT_VERSION { return Err("Unsupported S3 object version"); }
    var count := GetU16(data[6..8]);
    var cursor, blocks := data[8..], [];
    ghost var whole := DecodeBlocks(cursor, count);
    if whole.Ok? { assert [] + whole.value == whole.value; }
    for i := 0 to count
      invariant var rest := DecodeBlocks(cursor, count - i);
                whole == if rest.Ok? then Ok(blocks + rest.value) else rest
    {
      if |cursor| < BLOCK_HEADER { return Err("Truncated block header in S3 object"); }
      var len := GetU32(cursor[28..32]);
      if |cursor| - 36 < len { return Err("Truncated block data in S3 object"); }
      var payload := cursor[36..36 + len];
      var crc := Crc.ComputeCrc32c(payload);
      if crc != GetU32(cursor[32..36]) { return Err("Corrupted record"); }
      var b := Block(GetU64(cursor[..8]), GetI64(cursor[8..16]), GetI64(cursor[16..24]), GetU32(cursor[24..28]),
          payload);
      ghost var rest := DecodeBlocks(cursor[36 + len..], count - i - 1);
      if rest.Ok? { assert blocks + ([b] + rest.value) == blocks + [b] + rest.value; }
      blocks := blocks + [b];
      cursor := cursor[36 + len..];
    }
    assert blocks + [] == blocks;
    return Ok(blocks);
  }

  /** One index entry. */
  function IndexEntry(b: Block, at: nat): bytes {
    PutU64(b.streamId) + PutI64(b.start) + PutI64(b.end) + PutU32(b.count)
    + PutU64(at % 0x1_0000_0000_0000_0000) + PutU64((36 + |b.data|) % 0x1_0000_0000_0000_0000)
  }

  /** Where block `k` starts in the object. */
  function StartOf(bs: seq<Block>, k: nat): int
    requires k <= |bs|
  {
    8 + |EncodeBlocks(bs)| - |EncodeBlocks(bs[k..])|
  }

  method WriteBlocks(head: bytes, blocks: seq<Block>) returns (buf: bytes, starts: seq<int>)
    requires |head| == 8
    ensures buf == head + EncodeBlocks(blocks)
    ensures |starts| == |blocks| && forall k :: 0 <= k < |blocks| ==> starts[k] == StartOf(blocks, k)
  {
    hide BlockHeader;
    buf, starts := head, [];
    assert blocks[0..] == blocks;
    for i := 0 to |blocks|
      invariant |starts| == i && buf + EncodeBlocks(blocks[i..]) == head + EncodeBlocks(blocks)
      invariant forall k :: 0 <= k < i ==> starts[k] == StartOf(blocks, k)
    {
      ghost var rest := EncodeBlocks(blocks[i + 1..]);
      assert blocks[i..][1..] == blocks[i + 1..];
      assert |buf + EncodeBlocks(blocks[i..])| == |head + EncodeBlocks(blocks)|;
      starts := starts + [|buf|];
      Assoc(buf, BlockHeader(blocks[i]), blocks[i].data, rest);
      buf := buf + BlockHeader(blocks[i]) + blocks[i].data;
    }
    assert buf + [] == buf;
  }

  lemma Assoc(a: bytes, b: bytes, c: bytes, d: bytes)
    ensures a + (b + c + d) == a + b + c + d
  {
  }

  method WriteIndex(blocks: seq<Block>, starts: seq<int>) returns (index: bytes)
    requires |starts| == |blocks| && forall k :: 0 <= k < |blocks| ==> starts[k] == StartOf(blocks, k)
    ensures index == EncodeIndex(blocks, 8)
  {
    hide IndexEntry, EncodeBlocks;
    index := [];
    assert blocks[0..] == blocks;
    for i := 0 to |blocks|
      invariant StartOf(blocks, i) >= 8 &&
                index + EncodeIndex(blocks[i..], StartOf(blocks, i)) == EncodeIndex(blocks, 8)
    {
      assert blocks[i..][1..] == blocks[i + 1..];
      IndexStep(blocks[i..], starts[i]);
      var entry := IndexEntry(blocks[i], starts[i]);
      ghost var rest := EncodeIndex(blocks[i + 1..], StartOf(blocks, i + 1));
      assert index + (entry + rest) == index + entry + rest;
      index := index + entry;
    }
    assert index + [] == index;
  }

  /** The encoder: blocks are written and indexed in one loop, the index is written in a second. */
  method EncodeObject(blocks: seq<Block>) returns (buf: bytes)
    ensures buf == Encode(blocks)
  {
    hide EncodeBlocks, EncodeIndex, PutU16, PutU32, PutU64;
    var head := PutU32(OBJECT_MAGIC) + PutU16(OBJECT_VERSION) + PutU16(Low16(|blocks|));
    var starts;
    buf, starts := WriteBlocks(head, blocks);
    var indexOffset := |buf|;
    var index := WriteIndex(blocks, starts);
    buf := buf + (PutU16(Low16(|blocks|)) + index + PutU64(indexOffset % 0x1_0000_0000_0000_0000)
      + PutU32(OBJECT_MAGIC));
  }

  lemma IndexStep(bs: seq<Block>, at: nat)
    requires bs != []
    ensures EncodeIndex(bs, at) == IndexEntry(bs[0], at) + EncodeIndex(bs[1..], at + 36 + |bs[0].data|)
    ensures |EncodeBlocks(bs)| == 36 + |bs[0].data| + |EncodeBlocks(bs[1..])|
  {
    hide PutU64, PutI64, PutU32;
  }

  // ---------- round trip ----------

  lemma HeaderLayout(b: Block)
    ensures var s := BlockHeader(b);
            GetU64(s[..8]) == b.streamId && GetI64(s[8..16]) == b.start && GetI64(s[16..24]) == b.end &&
            GetU32(s[24..28]) == b.count && GetU32(s[28..32]) == Low32(|b.data|) &&
            GetU32(s[32..36]) == Crc.Checksum(b.data)
  {
    hide Crc.Checksum, PutU64, PutI64, PutU32, Low32;
    var s := BlockHeader(b);
    SixPieces(PutU64(b.streamId), PutI64(b.start), PutI64(b.end), PutU32(b.count), PutU32(Low32(|b.data|)),
              PutU32(Crc.Checksum(b.data)));
  }

  lemma SixPieces(a: bytes, b: bytes, c: bytes, d: bytes, e: bytes, f: bytes)
    requires |a| == |b| == |c| == 8 && |d| == |e| == |f| == 4
    ensures var s := a + b + c + d + e + f;
            s[..8] == a && s[8..16] == b && s[16..24] == c && s[24..28] == d && s[28..32] == e && s[32..36] == f
  {
  }

  /** The header of a block in front of anything. */
  lemma HeaderInFront(b: Block, t: bytes)
    ensures var s := BlockHeader(b) + t;
            GetU64(s[..8]) == b.streamId && GetI64(s[8..16]) == b.start && GetI64(s[16..24]) == b.end &&
            GetU32(s[24..28]) == b.count && GetU32(s[28..32]) == Low32(|b.data|) &&
            GetU32(s[32..36]) == Crc.Checksum(b.data) && s[36..] == t
  {
    HeaderLayout(b);
    hide BlockHeader, Crc.Checksum, GetU64, GetI64, GetU32, Low32;
    var h := BlockHeader(b);
    var s := h + t;
    assert s[..8] == h[..8];
    assert s[8..16] == h[8..16];
    assert s[16..24] == h[16..24];
    assert s[24..28] == h[24..28];
    assert s[28..32] == h[28..32];
    assert s[32..36] == h[32..36];
    assert s[36..] == t;
  }

  /** One block off the front, its data as announced. */
  lemma DecodeFirst(b: Block, data: bytes, t: bytes, n: nat)
    requires n > 0 && |data| == |b.data| < 0x1_0000_0000
    ensures var r := DecodeBlocks(BlockHeader(b) + (data + t), n);
            if Crc.Checksum(data) != Crc.Checksum(b.data) then r == Err("Corrupted record")
            else
              var rest := DecodeBlocks(t, n - 1);
              r == if rest.Ok? then Ok([b.(data := data)] + rest.value) else rest
  {
    HeaderInFront(b, data + t);
    hide BlockHeader, Crc.Checksum, GetU64, GetI64, GetU32;
    var s := BlockHeader(b) + (data + t);
    assert s[36..36 + |data|] == data;
    assert s[36 + |data|..] == t;
  }

  ghost predicate Sized(bs: seq<Block>) {
    forall i :: 0 <= i < |bs| ==> |bs[i].data| < 0x1_0000_0000
  }

  lemma {:induction false} DecodeOfBlocks(bs: seq<Block>, t: bytes, n: nat)
    requires Sized(bs) && n <= |bs|
    ensures DecodeBlocks(EncodeBlocks(bs) + t, n) == Ok(bs[..n])
  {
    hide BlockHeader, Crc.Checksum, DecodeBlocks;
    if n == 0 {
      DecodeNone(EncodeBlocks(bs) + t);
    } else {
      var u := EncodeBlocks(bs[1..]) + t;
      EncodeFirst(bs, t);
      DecodeFirst(bs[0], bs[0].data, u, n);
      DecodeOfBlocks(bs[1..], t, n - 1);
      assert bs[..n] == [bs[0]] + bs[1..][..n - 1];
    }
  }

  lemma DecodeNone(s: bytes)
    ensures DecodeBlocks(s, 0) == Ok([])
  {
  }

  lemma EncodeFirst(bs: seq<Block>, t: bytes)
    requires bs != []
    ensures EncodeBlocks(bs) + t == BlockHeader(bs[0]) + (bs[0].data + (EncodeBlocks(bs[1..]) + t))
  {
    hide BlockHeader;
  }

  lemma EncodedHeader(bs: seq<Block>)
    ensures var s := Encode(bs);
            |s| >= 8 && GetU32(s[..4]) == OBJECT_MAGIC && GetU16(s[4..6]) == OBJECT_VERSION &&
            GetU16(s[6..8]) == Low16(|bs|) && s[8..] == EncodeBlocks(bs) + Footer(bs)
  {
    hide EncodeBlocks, Footer, PutU32, PutU16;
    var a, b, c := PutU32(OBJECT_MAGIC), PutU16(OBJECT_VERSION), PutU16(Low16(|bs|));
    var body := EncodeBlocks(bs) + Footer(bs);
    var s := Encode(bs);
    assert s == a + b + c + body;
    assert s[..4] == a;
    assert s[4..6] == b;
    assert s[6..8] == c;
    assert s[8..] == body;
  }

  /**
   * Decoding an encoded object gives back its blocks up to their number modulo 2^16: the block
   * count field has 16 bits. So all blocks come back exactly when there are fewer than 65536.
   */
  lemma DecodeOfEncode(bs: seq<Block>)
    requires Sized(bs)
    ensures Decode(Encode(bs)) == Ok(bs[..Low16(|bs|)])
    ensures Decode(Encode(bs)) == Ok(bs) <==> |bs| < 0x1_0000
  {
    hide Encode, EncodeBlocks, Footer, DecodeBlocks;
    EncodedHeader(bs);
    DecodeOfBlocks(bs, Footer(bs), Low16(|bs|));
    assert |bs| < 0x1_0000 ==> bs[..|bs|] == bs;
  }

  /** A change of up to four consecutive bytes in any block's data is reported, whatever surrounds it. */
  lemma {:induction false} CorruptionIsReported(bs: seq<Block>, k: nat, prefix: bytes, x: bytes, y: bytes,
      suffix: bytes, t: bytes, n: nat)
    requires Sized(bs) && k < |bs| && k < n && bs[k].data == prefix + x + suffix && |x| == |y| <= 4 && x != y
    ensures DecodeBlocks(EncodeBlocks(bs[..k]) + (BlockHeader(bs[k]) + (prefix + y + suffix + t)), n)
         == Err("Corrupted record")
    decreases k
  {
    hide BlockHeader, Crc.Checksum, DecodeBlocks;
    var tail := BlockHeader(bs[k]) + (prefix + y + suffix + t);
    if k == 0 {
      Crc.DetectsBursts(prefix, x, y, suffix);
      DecodeFirst(bs[0], prefix + y + suffix, t, n);
      assert EncodeBlocks(bs[..0]) + tail == tail;
    } else {
      var u := EncodeBlocks(bs[1..][..k - 1]) + tail;
      assert bs[..k][1..] == bs[1..][..k - 1];
      EncodeFirst(bs[..k], tail);
      DecodeFirst(bs[0], bs[0].data, u, n);
      CorruptionIsReported(bs[1..], k - 1, prefix, x, y, suffix, t, n - 1);
    }
  }

  // ---------- the footer index ----------

  datatype BlockIndex = BlockIndex(streamId: u64, start: i64, end: i64, count: u32, byteOffset: u64, byteLength: u64)

  function EntryAt(s: bytes): BlockIndex
    requires |s| >= 44
  {
    BlockIndex(GetU64(s[..8]), GetI64(s[8..16]), GetI64(s[16..24]), GetU32(s[24..28]), GetU64(s[28..36]),
               GetU64(s[36..44]))
  }

  /** Reading past the end of a slice is a panic, here the error `panic`. */
  function ReadEntries(s: bytes, n: nat): (r: Result<seq<BlockIndex>>)
    ensures r.Ok? ==> |r.value| == n
  {
    if n == 0 then Ok([])
    else if |s| < 44 then Err("panic")
    else
      var rest :- ReadEntries(s[44..], n - 1);
      Ok([EntryAt(s)] + rest)
  }

  function ReadIndex(s: bytes): Result<seq<BlockIndex>> {
    if |s| < 12 then Err("Object too small for footer index")
    else if GetU32(s[|s| - 4..]) != OBJECT_MAGIC then Err("Invalid footer magic in S3 object")
    else
      var at: int, end := GetU64(s[|s| - 12..|s| - 4]), |s| - 12;
      if at >= |s| then Err("Invalid footer index offset")
      else if at + 2 > end then Err("panic")
      else ReadEntries(s[at + 2..end], GetU16(s[at..at + 2]))
  }

  method ReadFooterIndex(data: bytes) returns (r: Result<seq<BlockIndex>>)
    ensures r == ReadIndex(data)
  {
    hide GetU16, GetU32, GetU64, GetI64, ReadEntries, EntryAt;
    if |data| < 12 { return Err("Object too small for footer index"); }
    var end := |data| - 12;
    if GetU32(data[|data| - 4..]) != OBJECT_MAGIC { return Err("Invalid footer magic in S3 object"); }
    var at: int := GetU64(data[end..|data| - 4]);
    if at >= |data| { return Err("Invalid footer index offset"); }
    if at > end || end - at < 2 { return Err("panic"); }
    var count := GetU16(data[at..at + 2]);
    var cursor, entries := data[at + 2..end], [];
    ghost var whole := ReadEntries(cursor, count);
    if whole.Ok? { assert [] + whole.value == whole.value; }
    for i := 0 to count
      invariant var rest := ReadEntries(cursor, count - i);
                whole == if rest.Ok? then Ok(entries + rest.value) else rest
    {
      EntriesStep(cursor, count - i, entries);
      if |cursor| < 44 { return Err("panic"); }
      entries := entries + [EntryAt(cursor)];
      cursor := cursor[44..];
    }
    EntriesStep(cursor, 0, entries);
    return Ok(entries);
  }

  lemma EntriesStep(s: bytes, n: nat, front: seq<BlockIndex>)
    ensures var r := ReadEntries(s, n);
            if n == 0 then r.Ok? && front + r.value == front
            else if |s| < 44 then r == Err("panic")
            else
              var rest := ReadEntries(s[44..], n - 1);
              if rest.Err? then r == rest else r.Ok? && front + r.value == front + [EntryAt(s)] + rest.value
  {
    hide EntryAt;
    if n > 0 && |s| >= 44 && ReadEntries(s[44..], n - 1).Ok? {
      var rest := ReadEntries(s[44..], n - 1).value;
      assert front + ([EntryAt(s)] + rest) == front + [EntryAt(s)] + rest;
    }
  }

  lemma EntryInFront(b: Block, at: u64, t: bytes)
    requires 36 + |b.data| < 0x1_0000_0000_0000_0000
    ensures var s := IndexEntry(b, at) + t;
            |s| == 44 + |t| && GetU64(s[..8]) == b.streamId && GetI64(s[8..16]) == b.start &&
            GetI64(s[16..24]) == b.end && GetU32(s[24..28]) == b.count && GetU64(s[28..36]) == at &&
            GetU64(s[36..44]) == 36 + |b.data| && s[44..] == t
  {
    hide PutU64, PutI64, PutU32, GetU64, GetI64, GetU32;
    EntryPieces(PutU64(b.streamId), PutI64(b.start), PutI64(b.end), PutU32(b.count), PutU64(at),
                PutU64(36 + |b.data|), t);
  }

  lemma EntryPieces(a: bytes, b: bytes, c: bytes, d: bytes, e: bytes, f: bytes, t: bytes)
    requires |a| == |b| == |c| == |e| == |f| == 8 && |d| == 4
    ensures var s := a + b + c + d + e + f + t;
            s[..8] == a && s[8..16] == b && s[16..24] == c && s[24..28] == d && s[28..36] == e && s[36..44] == f &&
            s[44..] == t
  {
    var s := a + b + c + d + e + f + t;
    assert s[..8] == a && s[8..16] == b && s[16..24] == c;
    assert s[24..28] == d && s[28..36] == e && s[36..44] == f && s[44..] == t;
  }

  /** What the index says of block `k`, and where it lies when the first block is at `at`. */
  ghost predicate Indexes(e: BlockIndex, bs: seq<Block>, k: nat, at: nat)
    requires k < |bs|
  {
    && e.streamId == bs[k].streamId && e.start == bs[k].start && e.end == bs[k].end && e.count == bs[k].count
    && e.byteOffset == at + |EncodeBlocks(bs[..k])| && e.byteLength == 36 + |bs[k].data|
  }

  lemma {:induction false} EntriesOfIndex(bs: seq<Block>, at: nat, t: bytes, n: nat)
    requires n <= |bs| && at + |EncodeBlocks(bs)| < 0x1_0000_0000_0000_0000
    ensures var r := ReadEntries(EncodeIndex(bs, at) + t, n);
            r.Ok? && forall k :: 0 <= k < n ==> Indexes(r.value[k], bs, k, at)
  {
    hide BlockHeader, IndexEntry, GetU64, GetI64, GetU32, Indexes;
    if n > 0 {
      var b, next := bs[0], at + 36 + |bs[0].data|;
      var u := EncodeIndex(bs[1..], next) + t;
      assert EncodeIndex(bs, at) + t == IndexEntry(b, at) + u;
      EntryInFront(b, at, u);
      EntriesOfIndex(bs[1..], next, t, n - 1);
      var rest := ReadEntries(u, n - 1).value;
      var e := BlockIndex(b.streamId, b.start, b.end, b.count, at, 36 + |b.data|);
      assert ReadEntries(EncodeIndex(bs, at) + t, n) == Ok([e] + rest);
      forall k | 0 <= k < n
        ensures Indexes(([e] + rest)[k], bs, k, at)
      {
        if k == 0 { IndexesFirst(e, bs, at); } else { IndexesNext(rest[k - 1], bs, k, at); }
      }
    }
  }

  lemma IndexesFirst(e: BlockIndex, bs: seq<Block>, at: nat)
    requires bs != [] && var b := bs[0];
             e.streamId == b.streamId && e.start == b.start && e.end == b.end && e.count == b.count &&
             e.byteOffset == at && e.byteLength == 36 + |b.data|
    ensures Indexes(e, bs, 0, at)
  {
    assert EncodeBlocks(bs[..0]) == [];
  }

  lemma IndexesNext(e: BlockIndex, bs: seq<Block>, k: nat, at: nat)
    requires 0 < k < |bs| && Indexes(e, bs[1..], k - 1, at + 36 + |bs[0].data|)
    ensures Indexes(e, bs, k, at)
  {
    hide BlockHeader;
    assert bs[..k][1..] == bs[1..][..k - 1] && bs[..k][0] == bs[0];
  }

  lemma {:induction false} BlockAt(bs: seq<Block>, k: nat)
    requires k < |bs|
    ensures EncodeBlocks(bs)
         == EncodeBlocks(bs[..k]) + (BlockHeader(bs[k]) + (bs[k].data + EncodeBlocks(bs[k + 1..])))
  {
    hide BlockHeader;
    if k > 0 {
      BlockAt(bs[1..], k - 1);
      assert bs[..k][1..] == bs[1..][..k - 1] && bs[1..][k..] == bs[k + 1..];
    } else {
      assert bs[..0] == [];
    }
  }

  /** The bytes an index entry points at are its block. */
  lemma IndexedBytes(bs: seq<Block>, k: nat, head: bytes, foot: bytes, e: BlockIndex)
    requires k < |bs| && |bs[k].data| < 0x1_0000_0000 && Indexes(e, bs, k, |head|)
    ensures var s := head + EncodeBlocks(bs) + foot;
            e.byteOffset + e.byteLength <= |s| &&
            DecodeBlocks(s[e.byteOffset..e.byteOffset + e.byteLength], 1) == Ok([bs[k]])
  {
    hide BlockHeader, EncodeBlocks, DecodeBlocks;
    var b, before, after := bs[k], EncodeBlocks(bs[..k]), EncodeBlocks(bs[k + 1..]);
    BlockAt(bs, k);
    var s := head + EncodeBlocks(bs) + foot;
    var block := BlockHeader(b) + (b.data + []);
    assert s == (head + before) + block + (after + foot);
    assert s[e.byteOffset..e.byteOffset + e.byteLength] == block;
    DecodeFirst(b, b.data, [], 1);
    DecodeNone([]);
    var none: seq<Block> := [];
    assert [b.(data := b.data)] + none == [b];
  }

  /**
   * The footer of an encoded object reads back, and its entries, as many as the 16-bit count says, name the blocks in
   * order and point at their bytes: decoding just those bytes gives the block.
   */
  lemma IndexFindsBlocks(bs: seq<Block>)
    requires Sized(bs) && |Encode(bs)| < 0x1_0000_0000_0000_0000
    ensures var s, r := Encode(bs), ReadIndex(Encode(bs));
            r.Ok? && |r.value| == Low16(|bs|) &&
            forall k :: 0 <= k < |r.value| ==>
              var e := r.value[k];
              e.streamId == bs[k].streamId && e.start == bs[k].start && e.end == bs[k].end && e.count == bs[k].count &&
              e.byteOffset + e.byteLength <= |s| &&
              DecodeBlocks(s[e.byteOffset..e.byteOffset + e.byteLength], 1) == Ok([bs[k]])
  {
    hide EncodeBlocks, EncodeIndex, DecodeBlocks, ReadEntries, ReadIndex, Encode, Footer;
    IndexOfEncoded(bs);
    var s, r := Encode(bs), ReadIndex(Encode(bs));
    EncodedHeader(bs);
    assert s == s[..8] + EncodeBlocks(bs) + Footer(bs);
    forall k | 0 <= k < |r.value|
      ensures var e := r.value[k];
              e.byteOffset + e.byteLength <= |s| &&
              DecodeBlocks(s[e.byteOffset..e.byteOffset + e.byteLength], 1) == Ok([bs[k]])
    {
      IndexedBytes(bs, k, s[..8], Footer(bs), r.value[k]);
    }
  }

  lemma IndexOfEncoded(bs: seq<Block>)
    requires |Encode(bs)| < 0x1_0000_0000_0000_0000
    ensures var r := ReadIndex(Encode(bs));
            r.Ok? && |r.value| == Low16(|bs|) && forall k :: 0 <= k < |r.value| ==> Indexes(r.value[k], bs, k, 8)
  {
    hide EncodeBlocks, EncodeIndex, ReadEntries, Encode, GetU16, GetU32, GetU64, PutU16, PutU32, PutU64, Indexes;
    var s, at, n := Encode(bs), 8 + |EncodeBlocks(bs)|, Low16(|bs|);
    EncodedHeader(bs);
    var index := EncodeIndex(bs, 8);
    FooterPieces(s, s[..8] + EncodeBlocks(bs), PutU16(n), index, PutU64(at), PutU32(OBJECT_MAGIC));
    EntriesOfIndex(bs, 8, [], n);
    assert index + [] == index;
  }

  lemma FooterPieces(s: bytes, body: bytes, count: bytes, index: bytes, at: bytes, magic: bytes)
    requires s == body + (count + index + at + magic) && |count| == 2 && |at| == 8 && |magic| == 4
    ensures var n := |body|;
            s[|s| - 4..] == magic && s[|s| - 12..|s| - 4] == at && n + 2 <= |s| - 12 && s[n..n + 2] == count &&
            s[n + 2..|s| - 12] == index
  {
  }
}
