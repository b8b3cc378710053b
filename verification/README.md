# oxideMq: a verified model

oxideMq is a Kafka-compatible broker that keeps its log in object storage. This project models the parts of it whose
correctness is hardest to see from the code and proves what they promise, for all inputs and all runs.

| modules | part of the broker |
|---|---|
| `Bytes`, `BitStrings`, `Names`, `Crc32c`, `Varint`, `Wire` | integers and bits, names, CRC32C, varints, strings on the wire |
| `Records`, `Batches`, `Transcode`, `Patch`, `Pipeline`, `Offsets` | record batches: encode, parse, compress, decompress, patch on append |
| `Layouts` | where the bytes of every format are |
| `PartitionLog`, `PartitionRuns`, `PartitionHistory` | one partition: log, open and aborted transactions, idempotent producers, the Fetch filter |
| `Transactions`, `TransactionRuns`, `TransactionHistory`, `BrokerRuns` | the transaction coordinator over many partitions |
| `ObjectCodec`, `Compaction`, `CompactionRuns` | objects in storage, uploads, the compactor |
| `ColdReads`, `HistoricalReads` | reads of stored objects, and through the block cache |
| `BlockCache` | the LRU cache of blocks, with its two-section lookup |
| `Framing` | length-prefixed frames on a connection |
| `Acl`, `Groups`, `GroupHistory` | access control bindings, consumer groups |
| `Counterexamples` | inputs and runs at which the broker does something unexpected |

Loops and objects of the source are methods and classes proved against functions; the laws are lemmas about those
functions and about every run of them. The `History` modules say what a partition, the transaction coordinator and the
group coordinator hold and answer after a run from nothing but the list of calls made. `dafny verify dfyconfig.toml` checks all files together.

## How the model reads the source

- Integers are unbounded. Where the release build wraps or a cast truncates, the model says so (`WrapI16`, `WrapI32`,
  `WrapI64`, `Low16`, `Low32`).
- The compression libraries are a parameter: deterministic functions that may fail, and that decompress what they
  compressed (`Lossless`). The clock, the write-ahead log's answer, refused markers and the order in which a hash map
  or set is iterated are parameters or free choices.
- The cursor loops do not guard short or negative lengths. `Walkable` is what a buffer must satisfy for the patch not to
  slice out of range. `DecompressReturns`, `CompressReturns` and `ParseReturns` say exactly when those calls return: an
  error in an earlier batch is answered before a bad header is reached, the decompressing loop copies and skips a plain
  batch that announces 1 to 60 bytes, and one that announces none is read for ever.
- An append reserves its offsets and registers its producer before the write-ahead log answers, as
  `crates/oxidemq-s3stream/src/stream.rs:88-99` does.
- A fetch is one atomic step; the code takes the records, the aborted list and the last stable offset one after the
  other.
- Strings are their UTF-8 bytes.

## Where the code does not do what one would expect

Each of these is a theorem with its exact condition; the model follows the code.

- Append and Fetch read the producer id at bytes 39 to 47 of a batch. Section 5.3.1 of the Apache Kafka documentation,
  and this repository's own encoders, put it at 43 to 51. So ending a transaction closes nothing, and read-committed
  consumers see nothing from the first transactional batch on (`KeyIsProducerId`, `CommittedButNeverDelivered`,
  `NoTransactionIsEverDelivered`, `CommittedBatchIsHidden`).
- The aborted filter works by id and for ever: one abort hides earlier committed entries (`DeliveredUntilAbort`,
  `CommittedThenHidden`).
- A retried older sequence number is answered with the latest offset (`RetryAnswer`,
  `OlderRetryGetsLatestOffset`).
- An end that fails half way has already forgotten its partitions (`RetryAppendsNoMarkers`, `MarkerIsNeverWritten`).
- The 16-bit epoch wraps after 32767 (`EpochGrowsUnlessLast`).
- Decompressing does not undo compressing on a plain batch with a wrong checksum or unknown codec bits
  (`DecompressUndoesCompress`).
- A buffer that can be read may compress, or decompress, to one that cannot: bytes behind the last batch that look like a
  header with a negative length stop the loops only near the start of the buffer (`WalkableIffTailStops`,
  `RecodedReturns`, `CompressedBufferIsUnreadable`).
- An object keeps only as many blocks as a 16-bit count can say (`DecodeOfEncode`, `CompactionConserves`).
- A compaction can delete its own product when uploads do not come at increasing offsets (`DeletesItsOwnProduct`,
  `OverlapLosesEverything`).
- After compaction, reads behind the caches reach only the first block of the compacted object (`ReadsBackIffFirst`,
  `SecondUploadIsHidden`).
- A lookup interrupted by a clear or an eviction leaves a stale key in the cache's queue
  (`TouchKeepsExactIffStored`, `WipedLookupLeavesStaleKey`); the byte accounting stays exact all the same.
- A frame over 100 MiB can be written but not read; a string over 32767 bytes loses its length (`DecodeOfEncode`,
  `StringRoundTrip`).
- Access control filters ignore the pattern type of bindings (`PatternTypeIsNotCompared`).

## Model

| member | source | states |
|---|---|---|
| `Crc32c.PolyConstant` | crates/oxidemq-core/src/bytes_util.rs:7 | the bit pattern built from the Castagnoli exponents is the source's constant 0x82F63B78 |
| `Crc32c.BuildTable` | crates/oxidemq-core/src/bytes_util.rs:5-24 | the nested loops fill all 256 entries, entry `i` being the byte `i` after eight bit steps |
| `Crc32c.TableEntry` | crates/oxidemq-core/src/bytes_util.rs:10-20 | the inner loop is eight bit steps |
| `Crc32c.ComputeCrc32c` | crates/oxidemq-core/src/bytes_util.rs:28-35 | the table loop returns the bit-at-a-time checksum of every byte string |
| `Crc32c.TableStep` | crates/oxidemq-core/src/bytes_util.rs:30-33 | one table lookup equals eight bit steps on any register and byte |
| `Crc32c.MatchesRfc3720` | crates/oxidemq-core/src/bytes_util.rs:5-35 | on every byte string the checksum is the polynomial remainder that section 12.1 of RFC 3720 defines (long division, complemented and reflected) |
| `Crc32c.DetectsBursts` | crates/oxidemq-core/src/bytes_util.rs:28-35 | any change confined to four consecutive bytes, hence of any single byte, changes the checksum |
| `Varint.WriteUnsigned` | crates/oxidemq-protocol/src/parser.rs:148-154 | the loop appends the base-128 groups of the value |
| `Varint.WriteAtMostTen` | crates/oxidemq-protocol/src/parser.rs:148-154 | every 64-bit value takes at most ten bytes |
| `Varint.WritePlaces` | crates/oxidemq-protocol/src/parser.rs:148-154 | byte `i` carries the seven bits of place `i`, and exactly the bytes before the last have the high bit set |
| `Varint.WriteSmall` | crates/oxidemq-protocol/src/parser.rs:156-160 | 0, -1, 1, -2, ... up to 63 and -64 are written as the single bytes 0, 1, 2, 3, ... |
| `Varint.ReadUnsigned` | crates/oxidemq-protocol/src/parser.rs:72-87 | the shift-and-or loop, with its overflow and truncation errors, reads the number spelled by the groups up to the first byte without continuation bit |
| `Varint.AddGroup` | crates/oxidemq-protocol/src/parser.rs:77 | or-ing in a shifted group extends the number by that group; of a tenth group one bit fits |
| `Varint.ReadAfterWrite` | crates/oxidemq-protocol/src/parser.rs:72-154 | read after write returns the value and leaves any suffix, for every 64-bit value |
| `Varint.ReadConsumes` | crates/oxidemq-protocol/src/parser.rs:72-87 | reading any input consumes a prefix of at most ten bytes |
| `Varint.ReadWithoutEnd` | crates/oxidemq-protocol/src/parser.rs:72-87 | a byte without continuation bit among the first ten makes the read succeed; without one it is truncated in a shorter input and overflows behind the tenth byte |
| `Varint.ZigzagIsBitwise` | crates/oxidemq-protocol/src/parser.rs:156-160 | the shift-and-xor expression equals arithmetic zigzag for every signed value |
| `Varint.UnzigzagIsBitwise` | crates/oxidemq-protocol/src/parser.rs:89-93 | the decoding expression equals arithmetic un-zigzag for every unsigned value |
| `Varint.ZigzagInverse` | crates/oxidemq-protocol/src/parser.rs:89-160 | zigzag and un-zigzag are inverse both ways |
| `Varint.ReadAfterWriteSigned` | crates/oxidemq-protocol/src/parser.rs:89-160 | signed varints come back in front of any suffix and take at most ten bytes |
| `Wire.StringRoundTrip` | crates/oxidemq-protocol/src/parser.rs:8-110 | a nullable string comes back in front of any suffix if and only if it has at most 32767 bytes; longer ones have their length cut to 16 bits |
| `Wire.BytesRoundTrip` | crates/oxidemq-protocol/src/parser.rs:44-134 | the same for byte strings and 2147483647 bytes |
| `Wire.CompactRoundTrip` | crates/oxidemq-protocol/src/parser.rs:26-146 | the compact forms come back at every length; a compact string that is not UTF-8 is an error |
| `Wire.ReadIsWritten` | crates/oxidemq-protocol/src/parser.rs:8-134 | whatever a reader accepts is what the writer writes followed by the rest, except null lengths other than -1 |
| `Layouts.StringLayout` | crates/oxidemq-protocol/src/parser.rs:100-110 | a nullable string is two length bytes, most significant first, and the string; null is 255, 255 |
| `Layouts.BytesLayout` | crates/oxidemq-protocol/src/parser.rs:124-134 | a nullable byte string is four length bytes and the bytes; null is four times 255 |
| `Layouts.CompactLayout` | crates/oxidemq-protocol/src/parser.rs:112-146 | the compact forms are the length plus one and the bytes; null is 0 |
| `Records.EncodePayload` | crates/oxidemq-protocol/src/messages.rs:683-721 | the record loop writes the deltas against base offset and timestamp and finds the largest timestamp |
| `Records.ParsePayload` | crates/oxidemq-protocol/src/messages.rs:780-846 | the record loop reads up to the announced number of records, with every error it can give, and makes the deltas absolute |
| `Records.BodyRoundTrip` | crates/oxidemq-protocol/src/messages.rs:683-846 | a record body comes back with its deltas, null key or value and headers |
| `Records.HeadersRoundTrip` | crates/oxidemq-protocol/src/messages.rs:683-846 | every list of headers comes back in front of any suffix |
| `Records.RecordsRoundTrip` | crates/oxidemq-protocol/src/messages.rs:683-846 | every list of records written comes back, in deltas |
| `Records.AtOfDeltas` | crates/oxidemq-protocol/src/messages.rs:683-846 | taking wrapped 64-bit deltas and making them absolute again is the identity |
| `Records.EncodesInOrder` | crates/oxidemq-protocol/src/messages.rs:683-721 | records are written one behind the other, in order |
| `Records.EncodesHeadersInOrder` | crates/oxidemq-protocol/src/messages.rs:683-721 | so are headers |
| `Records.ParsesAnnounced` | crates/oxidemq-protocol/src/messages.rs:780-846 | as many records are read as announced, whatever follows them, and all there are if more are announced than present |
| `Records.NullHeaders` | crates/oxidemq-protocol/src/messages.rs:780-846 | a header with a null value reads as an empty one; a null key is an error |
| `Records.OddLengths` | crates/oxidemq-protocol/src/messages.rs:780-846 | a field with a negative length is null, one that runs past the end an error |
| `Layouts.ShortRecord` | crates/oxidemq-protocol/src/messages.rs:683-721 | the bytes of a record with small numbers and fields: 0, timestamp delta, offset delta, key, value, number of headers, headers, behind the length of all that |
| `Layouts.ShortHeader` | crates/oxidemq-protocol/src/messages.rs:683-721 | the bytes of a short header: key and value, each behind its length |
| `Batches.SplitOfJoin` | crates/oxidemq-protocol/src/messages.rs:551-671 | the cursor loop cuts any list of batches followed by a tail into exactly that list and tail |
| `Batches.JoinOfSplit` | crates/oxidemq-protocol/src/messages.rs:551-671 | every buffer is the batches found in it followed by a tail that is no batch: nothing is lost or invented |
| `Batches.WalkableIffTailStops` | crates/oxidemq-protocol/src/messages.rs:561-602 | a loop walks batches followed by a tail without slicing out of range if and only if the tail, taken for a header, announces a whole header's worth of bytes or a length so negative that the sum at that place wraps |
| `Batches.SameSplit` | crates/oxidemq-broker/src/partition.rs:32-61 | the patch loop (21-byte limit) and the other loops (61-byte limit) see the same batches when all headers are complete |
| `Batches.PastEndIsNotFront` | crates/oxidemq-broker/src/partition.rs:36-40 | on buffers the loops can walk, the wrapping 64-bit bound test is the intended comparison |
| `Batches.RebuildLayout` | crates/oxidemq-protocol/src/messages.rs:578-593 | a rebuilt batch has the new attributes, payload, length and a correct checksum, and keeps the other header fields |
| `Batches.RebuildSame` | crates/oxidemq-protocol/src/messages.rs:578-593 | rebuilding a batch with its own attributes and payload is the identity if and only if its checksum was right |
| `Batches.AppendRebuilt` | crates/oxidemq-protocol/src/messages.rs:578-593 | writing the header with a placeholder and patching the checksum afterwards gives the rebuilt batch |
| `Transcode.WithCodec` | crates/oxidemq-core/src/types.rs:52-65 | replacing the codec bits of the attributes sets the codec and no other bit |
| `Transcode.DecompressRecordBatch` | crates/oxidemq-protocol/src/messages.rs:551-613 | wherever the loop returns, early errors and plain batches shorter than a header included, it gives each batch decompressed or copied, then the tail, or the first failing batch's error |
| `Transcode.InflatedIsDecompress` | crates/oxidemq-protocol/src/messages.rs:551-613 | on a readable buffer the loop returns and gives the batches decompressed, joined, then the tail |
| `Transcode.CompressRecordBatch` | crates/oxidemq-protocol/src/messages.rs:616-671 | wherever both loops return: everything decompressed, then each batch compressed with the target codec, or the first error; target codec none only decompresses |
| `Transcode.CompressEach` | crates/oxidemq-protocol/src/messages.rs:627-670 | the loop over the decompressed buffer compresses each batch and keeps the tail, or stops at the first error |
| `Transcode.ParseRecordBatchRecords` | crates/oxidemq-protocol/src/messages.rs:758-855 | wherever both loops return: the records of each decompressed batch in order, or the first error |
| `Transcode.InflatesIff` | crates/oxidemq-protocol/src/messages.rs:561-602 | with a tail that, taken for a header, announces a header's worth of bytes or a negative size, the decompressing loop returns if and only if a batch fails or the tail stops the walk where it lies; and what it then returns |
| `Transcode.DeflatesIff` | crates/oxidemq-protocol/src/messages.rs:630-664 | the compressing loop returns if and only if a batch fails to compress or the tail stops the walk |
| `Transcode.ScansIff` | crates/oxidemq-protocol/src/messages.rs:764-852 | the parsing loop returns if and only if a batch fails to parse or the tail stops the walk |
| `Transcode.RecodedReturns` | crates/oxidemq-protocol/src/messages.rs:551-855 | after a compression, each of decompressing, compressing again and parsing returns if and only if the tail stops a walk behind the new batches |
| `Transcode.CompressForgetsPath` | crates/oxidemq-protocol/src/messages.rs:616-671 | the second of two compressions returns if and only if the tail stops a walk behind the first one's output; then compress(compress(b, c1), c2) = compress(b, c2), for codec none if and only if c1 is none or all plain batches are canonical |
| `Transcode.DecompressUndoesCompress` | crates/oxidemq-protocol/src/messages.rs:551-671 | decompressing the compressed buffer returns if and only if the tail stops a walk at its new place; it then gives decompress(b) if and only if every uncompressed batch carries a correct checksum and codec bits that name a codec |
| `Transcode.CompressKeepsRecords` | crates/oxidemq-protocol/src/messages.rs:551-855 | parsing the compressed buffer returns if and only if the tail stops a walk at its new place, and then gives the same records, or the same error, as before |
| `Transcode.DecompressIdempotent` | crates/oxidemq-protocol/src/messages.rs:551-613 | a second decompression returns if and only if the tail stops a walk at its new place, and then changes nothing |
| `Transcode.CompressByBatch` | crates/oxidemq-protocol/src/messages.rs:616-671 | the compressed buffer has a batch for every batch, in order, with its header, the target codec, a correct checksum and as payload what the library makes of the decompressed payload; the tail is the same |
| `Transcode.DecompressByBatch` | crates/oxidemq-protocol/src/messages.rs:551-613 | the decompressed buffer has a batch for every batch, in order: the same one if it was plain, otherwise one with its header, no codec, a correct checksum and the decompressed payload |
| `Transcode.ParsesInOrder` | crates/oxidemq-protocol/src/messages.rs:758-855 | batches are parsed one after the other: records in the order of the batches, or the first error |
| `Pipeline.UnknownCodecBitsAreLost` | crates/oxidemq-protocol/src/messages.rs:551-671 | a concrete batch (codec bits 5) on which decompress after compress differs from decompress |
| `Counterexamples.CompressedBufferIsUnreadable` | crates/oxidemq-protocol/src/messages.rs:561-602 | an empty plain batch followed by 61 bytes with magic 2 and length -82: every call returns on it; on what compressing it gives, no decompress, compress or parse call returns |
| `Patch.PatchRecordBatches` | crates/oxidemq-broker/src/partition.rs:24-65 | the in-place loop over the buffer gives the patched bytes and the number of offsets taken; `Patch.PatchFrame` and `Patch.PatchAssigns` say which these are |
| `Patch.PatchNext` | crates/oxidemq-broker/src/partition.rs:32-61 | one iteration recognises a batch at the cursor, patches it and moves the offset on by what `Patch.PatchAssigns` reads off the header, or stops |
| `Patch.PatchInPlace` | crates/oxidemq-broker/src/partition.rs:42-47 | the two writes change exactly the base offset and the checksum of one batch in the array |
| `Patch.Overwrite` | crates/oxidemq-broker/src/partition.rs:43-47 | copying into a slice replaces those bytes of the array and no others |
| `Patch.PatchFrame` | crates/oxidemq-broker/src/partition.rs:24-65 | per batch only bytes 0..8 and 17..21 change, every checksum ends up correct, the tail is untouched |
| `Patch.PatchAbsorbs` | crates/oxidemq-broker/src/partition.rs:24-65 | a second patch may be made whenever the first may, and patch(patch(x, a), b) = patch(x, b) |
| `Patch.PatchTiles` | crates/oxidemq-broker/src/partition.rs:24-65 | the patched batches' offset ranges tile [base, base + count) without gap or overlap while offsets fit 63 bits |
| `Patch.PatchAssigns` | crates/oxidemq-broker/src/partition.rs:24-65 | read off the header fields, within 63 bits: the first batch starts at the base, each further one at the previous base plus the previous last offset delta (0 if negative) plus one, and the returned count is the end of the last batch less the base, or 1 without a batch |
| `Offsets.OffsetsIncrease` | crates/oxidemq-broker/src/partition.rs:24-65 | when every batch's record deltas increase and lie between 0 and its last offset delta, the offsets parsed from the patched buffer strictly increase over the whole buffer, across batches and codecs, within the returned range |
| `Patch.PatchedSplit` | crates/oxidemq-broker/src/partition.rs:24-65 | the batches of the patched buffer are the patched batches, in order |
| `Pipeline.EncodeRecordBatchV2` | crates/oxidemq-protocol/src/messages.rs:674-755 | the encoder writes the header fields of section 5.3.1 of the Apache Kafka documentation around the (compressed) payload; a batch length that wraps below -12 is the allocation's panic |
| `Pipeline.AssembleBatch` | crates/oxidemq-protocol/src/messages.rs:726-755 | header, payload and the checksum written last give the assembled batch |
| `Pipeline.BatchRoundTrip` | crates/oxidemq-protocol/src/messages.rs:674-855 | parse(encode(base, records, codec)) returns exactly the records, for every list whose batch length fits 32 bits and every codec |
| `Layouts.EncodedBatchHeader` | crates/oxidemq-protocol/src/messages.rs:674-755 | the encoded header, byte range by byte range: base offset, length, four zeros, version 2, checksum, codec number, records less one, first timestamp, largest timestamp, no producer, epoch or sequence, record count; then the payload |
| `Pipeline.PatchCommutesWithParse` | crates/oxidemq-broker/src/partition.rs:24-65 | a patchable buffer with complete headers is readable before and after; parsing the patched buffer returns exactly when parsing the original does, and then gives the original's records in order, each offset being its batch's assigned base plus the old delta, for any codec mix and tail; failures are the same |
| `Pipeline.BasesMoveOffsetsOnly` | crates/oxidemq-protocol/src/messages.rs:758-855 | changing batch bases changes only the offsets of the parsed records |
| `Pipeline.EndToEnd` | crates/oxidemq-protocol/src/messages.rs:551-855 | records encoded with any codec, patched on append and transcoded to any codec on fetch are read back unchanged except for the moved offsets |
| `Pipeline.BuffersEndToEnd` | crates/oxidemq-protocol/src/messages.rs:551-855 | the same for whole buffers of batches in any codecs with any tail, patched and transcoded: the consumer's parse returns if and only if the tail stops a walk there, and then reads every record in order at its assigned offset |
| `Pipeline.EncodeControlBatch` | crates/oxidemq-protocol/src/messages.rs:2137-2193 | the encoder writes the transaction marker batch, which `Pipeline.ControlBatchReadsBack` spells out |
| `Pipeline.ControlBatchReadsBack` | crates/oxidemq-protocol/src/messages.rs:2137-2193 | a marker is a well-formed batch with correct checksum and attributes 0x30, names its producer and epoch, takes one offset, and parses to one record with key 0,0,0,1 for a commit or 0,0,0,0 for an abort and value 0,0 |
| `PartitionLog.Partition.constructor` | crates/oxidemq-broker/src/partition.rs:68-77 | a new partition is empty |
| `PartitionLog.Partition.AppendRecords` | crates/oxidemq-broker/src/partition.rs:81-101 | the new state is `Append` of the old one: offsets reserved and producer registered even when the write-ahead log refuses |
| `PartitionLog.Partition.AppendIdempotentRecords` | crates/oxidemq-broker/src/partition.rs:106-147 | fencing, duplicate, gap and accept branches with their answers and the new state |
| `PartitionLog.Partition.CompleteTxn` | crates/oxidemq-broker/src/partition.rs:166-168 | the id is closed and nothing else changes |
| `PartitionLog.Partition.RecordAbortedTxn` | crates/oxidemq-broker/src/partition.rs:170-177 | the id is closed and listed as aborted with its first offset or the fallback |
| `PartitionLog.Partition.LastStableOffset` | crates/oxidemq-broker/src/partition.rs:179-187 | the least of the high watermark and the open transactions' first offsets |
| `PartitionLog.LeastOffset` | crates/oxidemq-broker/src/partition.rs:179-187 | the loop over the map finds the least value |
| `PartitionLog.FilterFetched` | crates/oxidemq-broker/src/handler.rs:459-490 | the loop gives the concatenation that `PartitionLog.FetchByPosition` describes |
| `PartitionLog.KeepEntry` | crates/oxidemq-broker/src/handler.rs:460-488 | the chain of tests on one entry equals the delivery rule |
| `PartitionLog.FetchByPosition` | crates/oxidemq-broker/src/handler.rs:459-490 | the answer is the data at an increasing list of places: exactly those entries without a version 2 header, or with the control bit clear and, at level 1, an offset below the last stable offset and no aborted number in bytes 39 to 47 unless the transactional bit is clear |
| `PartitionLog.FilterAppends` | crates/oxidemq-broker/src/handler.rs:459-490 | filtering two lists of entries one behind the other gives both answers one behind the other |
| `PartitionRuns.ReadCommitted` | crates/oxidemq-broker/src/handler.rs:451-491 | in every run a level-1 fetch delivers a v2 entry if and only if it is no control entry, not of an open or aborted transaction, below the last stable offset, and not transactional with an id ever aborted there |
| `PartitionRuns.ControlEntriesHidden` | crates/oxidemq-broker/src/handler.rs:459-490 | at every isolation level a fetch answers as if the control entries among those read were not there |
| `PartitionRuns.WatermarkLaw` | crates/oxidemq-broker/src/partition.rs:81-187 | in every run the last stable offset never decreases and never exceeds the high watermark, also over failed appends, and open ranges start at or below the watermark |
| `PartitionRuns.LogTiles` | crates/oxidemq-broker/src/partition.rs:81-101 | in every run the reserved ranges tile [0, high watermark) and the log holds the stored ones at strictly increasing offsets |
| `PartitionRuns.DeliveredUntilAbort` | crates/oxidemq-broker/src/handler.rs:475-487 | a delivered entry stays delivered over every event except a rollback of its id on the partition, which hides a transactional entry even if its own transaction was committed |
| `Counterexamples.CommittedThenHidden` | crates/oxidemq-broker/src/handler.rs:475-487 | a run for every id: a transactional entry is appended, committed and delivered, and hidden by a later rollback of the id |
| `PartitionRuns.ExactlyOnce` | crates/oxidemq-broker/src/partition.rs:106-147 | over every interleaving a producer's appended (epoch, sequence) pairs strictly increase, are consecutive within an epoch and are never appended twice; each stands for exactly one log entry and no two for the same |
| `PartitionRuns.RetryAnswer` | crates/oxidemq-broker/src/partition.rs:122-130 | a retry in the current epoch appends nothing; it is answered with its own offset if and only if it is the latest batch |
| `PartitionHistory.IdempotentFromHistory` | crates/oxidemq-broker/src/partition.rs:106-147 | in every run the answer follows from the events alone: a new producer or a higher epoch is accepted with any sequence number, in the same epoch the next number is accepted, one up to the last is a duplicate, a later one out of order, a lower epoch is fenced; accepted ones start at the next free offset |
| `PartitionHistory.IdempotentEffect` | crates/oxidemq-broker/src/partition.rs:106-147 | refused appends change nothing; a durable accepted one stores one entry and remembers epoch, sequence and offset for that producer only |
| `PartitionHistory.OpensTransaction` | crates/oxidemq-broker/src/partition.rs:85-94 | an append opens a range at the next free offset if and only if the first header has version 2, the transactional bit set, the control bit clear and bytes 39 to 47 not all 255, and none is open for that number |
| `Counterexamples.OlderRetryGetsLatestOffset` | crates/oxidemq-broker/src/partition.rs:122-130 | a run for every producer: two batches accepted, the first sent again and answered with the second one's offset |
| `PartitionRuns.KeyIsProducerId` | crates/oxidemq-broker/src/partition.rs:85-93 | bytes 39..47, read as the producer id, equal the format's producer id field if and only if three half words coincide |
| `PartitionRuns.KeyIsNeverIssued` | crates/oxidemq-broker/src/partition.rs:85-93 | with an issued producer id in the format's place those bytes are never an issued id |
| `PartitionRuns.CommittedButNeverDelivered` | crates/oxidemq-broker/src/handler.rs:466-487 | in every run of batches laid out as the format says, no end closes anything and no v2 entry from the first transactional one on is ever delivered read-committed |
| `Transactions.TransactionCoordinator.constructor` | crates/oxidemq-broker/src/transaction.rs:47-52 | no transactions, producer ids from 1000 |
| `Transactions.TransactionCoordinator.InitProducerId` | crates/oxidemq-broker/src/transaction.rs:56-105 | new ids, or the old id with the next (16-bit, wrapping) epoch and an emptied partition set |
| `Transactions.TransactionCoordinator.AddPartitionsToTxn` | crates/oxidemq-broker/src/transaction.rs:108-138 | the shared check, then the partitions are added to those registered; on error nothing changes; `TransactionHistory.RunIsRecorded` says what is then registered |
| `Transactions.TransactionCoordinator.AddOffsetsToTxn` | crates/oxidemq-broker/src/transaction.rs:141-164 | the shared check |
| `Transactions.ClusterState.constructor` | crates/oxidemq-broker/src/router.rs:44-67 | a cluster without partitions |
| `Transactions.ClusterState.GetOrCreatePartition` | crates/oxidemq-broker/src/router.rs:70-95 | the partition's object, a new empty one if there was none, shared with no other partition |
| `Transactions.EndPartition` | crates/oxidemq-broker/src/transaction.rs:202-211 | the marker is encoded and appended and, once durable, the producer closed on that partition |
| `Transactions.ClusterState.EndOn` | crates/oxidemq-broker/src/transaction.rs:200-212 | one turn of the loop changes that partition and no other |
| `Transactions.ClusterState.EndOnAll` | crates/oxidemq-broker/src/transaction.rs:200-212 | the loop, in any order: all partitions ended, or some and the first whose marker was refused |
| `Transactions.TransactionCoordinator.EndTxn` | crates/oxidemq-broker/src/transaction.rs:168-223 | whatever the set's iteration order, through the partition objects: on success all registered partitions ended and no other changed; on a refused marker some ended, one failed, and the set is gone |
| `TransactionRuns.PatchedMarker` | crates/oxidemq-broker/src/transaction.rs:199-205 | the marker as stored is a control entry with the right offset, producer id, epoch and checksum, and parses to key 0,0,0,1 (commit) or 0,0,0,0 (abort) and value 0,0 |
| `TransactionRuns.EndedMarksOnce` | crates/oxidemq-broker/src/transaction.rs:199-212 | one partition gains exactly one marker, closes the producer and keeps every other producer's range; a rollback lists the producer with the start of its range, or the marker's offset |
| `TransactionRuns.EndIsCompleteAndFramed` | crates/oxidemq-broker/src/transaction.rs:168-223 | after a successful end every registered partition has exactly one right marker and the producer closed, every other partition is the same, and no other id's range changed |
| `TransactionHistory.RunIsRecorded` | crates/oxidemq-broker/src/transaction.rs:56-223 | after every run the coordinator holds what the list of calls says: ids counted from 1000, epochs counting inits, the first timeout, and as registered partitions the union of those named by the accepted add calls since the last init or end |
| `TransactionHistory.RunIsChecked` | crates/oxidemq-broker/src/transaction.rs:116-189 | in every run a call passes the check if and only if it names the id given at the first init and the epoch of the last; an older epoch is fenced, a newer one invalid, another id no mapping |
| `TransactionHistory.EndMarksWhatWasNamed` | crates/oxidemq-broker/src/transaction.rs:168-223 | in every run a successful end appends exactly one entry, the right marker, to every partition so named and changes no other |
| `TransactionRuns.IdsNeverShared` | crates/oxidemq-broker/src/transaction.rs:56-105 | in every run no two transactional ids hold the same producer id, and all are below the next one to be issued |
| `TransactionRuns.IdsIssuedOnce` | crates/oxidemq-broker/src/transaction.rs:56-105 | in every run each producer id is handed out once, with or without a transactional id, and every transactional id keeps the one handed out to it |
| `TransactionRuns.EndTouchesOwnRangesOnly` | crates/oxidemq-broker/src/transaction.rs:168-223 | in every run an end leaves every other transactional id's open ranges alone |
| `TransactionRuns.EpochCountsInits` | crates/oxidemq-broker/src/transaction.rs:69-79 | over every run with up to 32767 re-initialisations the producer id stays and the epoch counts them |
| `TransactionRuns.EpochGrowsUnlessLast` | crates/oxidemq-broker/src/transaction.rs:71 | re-initialising raises the epoch if and only if it is not 32767, where it wraps |
| `TransactionRuns.OldEpochsAreFenced` | crates/oxidemq-broker/src/transaction.rs:108-223 | after a re-initialisation every later call with an older epoch is fenced and changes neither coordinator nor partitions |
| `TransactionRuns.EndOfNothing` | crates/oxidemq-broker/src/transaction.rs:191-222 | ending with no registered partition succeeds and touches none |
| `TransactionRuns.RetryAppendsNoMarkers` | crates/oxidemq-broker/src/transaction.rs:191-212 | after an end that failed half way, repeating it succeeds without writing the missing markers |
| `Counterexamples.MarkerIsNeverWritten` | crates/oxidemq-broker/src/transaction.rs:191-212 | a run for every transactional id and partition: the end fails, the retry succeeds, the partition has no marker |
| `TransactionRuns.CommittedBatchIsHidden` | crates/oxidemq-broker/src/transaction.rs:199-212 | a concrete run: a transactional batch appended, committed, and still not delivered |
| `BrokerRuns.PartitionsHaveHistories` | crates/oxidemq-broker/src/transaction.rs:56-223 | every partition of a broker run has the history its calls gave it, call by call, and that history ends in its state |
| `BrokerRuns.CallIsARun` | crates/oxidemq-broker/src/transaction.rs:56-223 | a call adds to one partition's history exactly the produce to it, the marker and commit or rollback of an end on it, the refused marker, or nothing |
| `BrokerRuns.ReadCommittedOnBroker` | crates/oxidemq-broker/src/handler.rs:451-491 | read-committed delivery over every run of the whole broker, by the status each entry has in the history the calls gave its partition |
| `BrokerRuns.WatermarkOnBroker` | crates/oxidemq-broker/src/partition.rs:81-187 | over every broker call no partition's last stable offset or high watermark falls |
| `BrokerRuns.RolledBackIsHidden` | crates/oxidemq-broker/src/handler.rs:481-487 | after an end call rolled a transaction back, no transactional entry of its id on a registered partition is delivered read-committed, then or after any later calls |
| `BrokerRuns.NoTransactionIsEverDelivered` | crates/oxidemq-broker/src/handler.rs:466-487 | in every broker run of batches laid out as the format says, no transactional entry of any partition is ever delivered read-committed, nor any v2 entry behind it |
| `ObjectCodec.EncodeObject` | crates/oxidemq-s3stream/src/format.rs:57-107 | header, blocks with checksums, footer index: the loops write the encoded object |
| `ObjectCodec.WriteBlocks` | crates/oxidemq-s3stream/src/format.rs:67-89 | the block loop writes every block and remembers where it starts |
| `ObjectCodec.WriteIndex` | crates/oxidemq-s3stream/src/format.rs:92-101 | the index loop writes one entry per block with its position |
| `ObjectCodec.DecodeAll` | crates/oxidemq-s3stream/src/format.rs:110-177 | the decoding loop with its magic, version, truncation and checksum errors |
| `ObjectCodec.DecodeOfEncode` | crates/oxidemq-s3stream/src/format.rs:57-177 | decoding gives the first `len as u16` blocks; it gives all of them if and only if there are fewer than 65536 |
| `ObjectCodec.ReadFooterIndex` | crates/oxidemq-s3stream/src/format.rs:180-222 | the index reader with its size, magic and offset errors; reading past the end is the panic |
| `ObjectCodec.IndexFindsBlocks` | crates/oxidemq-s3stream/src/format.rs:57-222 | the footer of every encoded object reads back, its entries name the blocks in order, and decoding just the bytes an entry points at gives that block |
| `Layouts.ObjectLayout` | crates/oxidemq-s3stream/src/format.rs:57-107 | an object starts with S3ST, version 1 and its 16-bit block count and ends with S3ST |
| `ObjectCodec.CorruptionIsReported` | crates/oxidemq-s3stream/src/format.rs:149-162 | a change within four bytes of a block's data makes decoding fail |
| `Compaction.KeyInjective` | crates/oxidemq-s3stream/src/compactor.rs:68-73 | two objects of a stream with equal keys have the same range and kind |
| `Layouts.KeyLayout` | crates/oxidemq-s3stream/src/compactor.rs:68-73 | the keys of an uploaded and a compacted object, spelled out for one range |
| `Names.DigitsPlaces` | crates/oxidemq-s3stream/src/compactor.rs:68-73 | a padded number has the digit of every place in its place |
| `Compaction.ObjectStore.constructor` | crates/oxidemq-s3stream/src/client.rs:44-51 | an empty store |
| `Compaction.ObjectStore.PutObject` | crates/oxidemq-s3stream/src/client.rs:73-83 | the key maps to the data, all else stays |
| `Compaction.ObjectStore.GetObject` | crates/oxidemq-s3stream/src/client.rs:85-91 | the stored data or a not-found error |
| `Compaction.ObjectStore.DeleteObjects` | crates/oxidemq-s3stream/src/client.rs:119-128 | exactly the listed keys are gone |
| `Compaction.UploadBatch` | crates/oxidemq-s3stream/src/stream.rs:163-211 | the records' concatenation becomes one block in one object, and its metadata is appended; nothing happens for no records |
| `Compaction.CompactStream` | crates/oxidemq-s3stream/src/compactor.rs:23-107 | storage, metadata and answer after an undisturbed compaction, with both early exits and every read or decode error |
| `Compaction.MergeObjects` | crates/oxidemq-s3stream/src/compactor.rs:38-60 | the loop gathers all blocks in order with their smallest start, largest end and (32-bit) record count |
| `Compaction.MergeBlocks` | crates/oxidemq-s3stream/src/compactor.rs:48-57 | the inner loop keeps the running minimum, maximum and count right |
| `Compaction.SmallObjects` | crates/oxidemq-s3stream/src/compactor.rs:24-32 | the objects below the target size, in order |
| `Compaction.SortedKeeps` | crates/oxidemq-s3stream/src/compactor.rs:88-92 | the stable sort by start offset keeps every entry, block and record |
| `Compaction.SortIsStable` | crates/oxidemq-s3stream/src/compactor.rs:88-92 | entries that start at the same offset keep their order |
| `Compaction.MergesInOrder` | crates/oxidemq-s3stream/src/compactor.rs:38-60 | objects are merged one behind the other, in the order of the list |
| `Compaction.FlattensInOrder` | crates/oxidemq-s3stream/src/stream.rs:163-187 | an upload stores its records one behind the other |
| `Compaction.KeepSplits` | crates/oxidemq-s3stream/src/compactor.rs:89 | retaining splits blocks and records into the kept and the dropped |
| `CompactionRuns.NothingLostNothingTwice` | crates/oxidemq-s3stream/src/compactor.rs:23-107 | however uploads at increasing offsets and the compactor's choose, put, swap and delete interleave, the metadata reaches exactly the blocks uploaded so far, each once, and its counts add up to the records uploaded |
| `CompactionRuns.MetadataIsTrue` | crates/oxidemq-s3stream/src/compactor.rs:76-95 | at every moment each listed key is stored and decodes, its size and count are true of its blocks, its range is the smallest that holds them, and it is never among the keys about to be deleted |
| `CompactionRuns.StepKeepsInv` | crates/oxidemq-s3stream/src/compactor.rs:23-107 | every single step keeps the invariant behind the two laws above |
| `CompactionRuns.StepConserves` | crates/oxidemq-s3stream/src/compactor.rs:76-95 | put, swap and delete conserve reachable blocks and records; an upload adds exactly its own |
| `CompactionRuns.CompactedKeyIsNew` | crates/oxidemq-s3stream/src/compactor.rs:68-76 | the compacted key differs from every listed key, so the put overwrites nothing reachable |
| `CompactionRuns.StepsAreCompaction` | crates/oxidemq-s3stream/src/compactor.rs:23-107 | the four steps in a row are what the compaction method does |
| `CompactionRuns.DeletesItsOwnProduct` | crates/oxidemq-s3stream/src/compactor.rs:68-95 | without increasing uploads: the new object is deleted right after the swap if and only if a chosen compacted object already covers the whole merged range |
| `Counterexamples.OverlapLosesEverything` | crates/oxidemq-s3stream/src/compactor.rs:68-95 | a run for all data: two uploads, a compaction, an upload within their range, a second compaction, and no uploaded block can be reached |
| `CompactionRuns.CompactionConserves` | crates/oxidemq-s3stream/src/compactor.rs:66-95 | for any stored objects, a compaction keeps every block if and only if the merged object has fewer than 65536 blocks, and the record count if and only if it fits 32 bits |
| `HistoricalReads.FetchHistorical` | crates/oxidemq-s3stream/src/stream.rs:111-160 | a historical read and the cache it leaves: nothing outside the stream's offsets, the cached block on a hit, else the object's, with every error |
| `HistoricalReads.CacheBlocks` | crates/oxidemq-s3stream/src/stream.rs:142-149 | the loop puts every decoded block into the cache and ends with the last that matches |
| `HistoricalReads.CacheIsTransparent` | crates/oxidemq-s3stream/src/stream.rs:128-157 | behind a coherent cache a read of a stored object answers as if there were no cache, and the cache stays coherent |
| `HistoricalReads.StorageKeepsCoherent` | crates/oxidemq-s3stream/src/stream.rs:128-157 | deleting objects, and storing one whose name the cache does not hold, keep it coherent |
| `HistoricalReads.ReadsAsStored` | crates/oxidemq-s3stream/src/stream.rs:111-157 | in every run of uploads and compactions, behind a coherent cache, reads answer as the stored objects do |
| `HistoricalReads.SecondReadIsCached` | crates/oxidemq-s3stream/src/stream.rs:128-157 | a read answered by an object's last block leaves it in the cache: a second read gives the same answer whatever became of storage |
| `ColdReads.AnswersFirstBlock` | crates/oxidemq-s3stream/src/stream.rs:128-157 | in every run a read at a covered offset answers with the block that starts the first listed object covering it |
| `ColdReads.FirstObjectAnswers` | crates/oxidemq-s3stream/src/stream.rs:128-130 | of the objects that hold an offset the first listed answers |
| `ColdReads.LastBlockAnswers` | crates/oxidemq-s3stream/src/stream.rs:142-149 | of an object's blocks that start at an offset the last answers |
| `ColdReads.ReadsBackIffFirst` | crates/oxidemq-s3stream/src/stream.rs:128-157 | in every run a read at an uploaded offset gives the block uploaded there if and only if the first listed object covering the offset starts where that block starts |
| `ColdReads.SecondUploadIsHidden` | crates/oxidemq-s3stream/src/stream.rs:128-157 | for any two small uploads: after compaction, reads in the second one's range answer with the first one's data although both are stored |
| `BlockCache.SharedCache.constructor` | crates/oxidemq-s3stream/src/block_cache.rs:36-45 | an empty cache |
| `BlockCache.SharedCache.Find` | crates/oxidemq-s3stream/src/block_cache.rs:49-66 | first locked section of a lookup: the stored data or a miss, counted |
| `BlockCache.SharedCache.MoveToBack` | crates/oxidemq-s3stream/src/block_cache.rs:55-60 | second locked section: the key goes to the back of the queue |
| `BlockCache.SharedCache.GetBlock` | crates/oxidemq-s3stream/src/block_cache.rs:48-67 | an uninterrupted lookup |
| `BlockCache.SharedCache.PutBlock` | crates/oxidemq-s3stream/src/block_cache.rs:70-94 | the eviction loop, replacement and byte counting |
| `BlockCache.SharedCache.Clear` | crates/oxidemq-s3stream/src/block_cache.rs:108-115 | empties the cache |
| `BlockCache.DropFirst` | crates/oxidemq-s3stream/src/block_cache.rs:57-59 | position and remove drop the first occurrence |
| `BlockCache.AccountIsExact` | crates/oxidemq-s3stream/src/block_cache.rs:48-94 | for every interleaving of lookup sections, puts and clears each stored key is queued and the counter is the exact sum of stored lengths |
| `BlockCache.NeverSaturates` | crates/oxidemq-s3stream/src/block_cache.rs:76-92 | in every put of every run no subtraction saturates: not at any entry the loop evicts, not for the value replaced |
| `BlockCache.PutFits` | crates/oxidemq-s3stream/src/block_cache.rs:70-94 | after every put in any such run the total is within capacity or the cache holds only that entry |
| `BlockCache.PutStores` | crates/oxidemq-s3stream/src/block_cache.rs:70-94 | a put stores its value and otherwise only drops entries |
| `BlockCache.TouchKeepsExactIffStored` | crates/oxidemq-s3stream/src/block_cache.rs:55-60 | a lookup's second section keeps the queue free of stale keys and duplicates if and only if the key is still stored |
| `BlockCache.WipedLookupLeavesStaleKey` | crates/oxidemq-s3stream/src/block_cache.rs:48-66 | the run: a block stored, found, wiped before the lookup's second section, and its key queued all the same |
| `BlockCache.IdealLru` | crates/oxidemq-s3stream/src/block_cache.rs:48-115 | over every list of uninterrupted calls the queue lists exactly the stored keys from least to most recently used, and each value is the last one put since the last clear |
| `BlockCache.EvictsShortestPrefix` | crates/oxidemq-s3stream/src/block_cache.rs:76-83 | eviction drops the shortest prefix of the queue that makes room, or everything |
| `BlockCache.PutOfAbsentKey` | crates/oxidemq-s3stream/src/block_cache.rs:70-94 | a put of an absent key evicts the shortest least-recent prefix that makes room and nothing else |
| `Framing.KafkaFrameCodec.constructor` | crates/oxidemq-protocol/src/codec.rs:13-15 | nothing buffered |
| `Framing.KafkaFrameCodec.DecodeFrame` | crates/oxidemq-protocol/src/codec.rs:22-58 | a whole frame is taken off the buffer; an incomplete one or a bad length leaves it |
| `Framing.KafkaFrameCodec.ReceiveChunk` | crates/oxidemq-protocol/src/codec.rs:22-58 | the read loop delivers every complete frame of what is buffered and stops at a wait or an error |
| `Framing.EncodeFrame` | crates/oxidemq-protocol/src/codec.rs:64-70 | a 32-bit length and the payload are appended |
| `Layouts.FrameLayout` | crates/oxidemq-protocol/src/codec.rs:64-70 | a frame is its length in four bytes, most significant first, and the payload |
| `Layouts.FrameRead` | crates/oxidemq-protocol/src/codec.rs:22-58 | the decoder waits for four bytes, refuses a set sign bit and lengths above 104857600, and then waits for the whole frame |
| `Framing.DecodeOfEncode` | crates/oxidemq-protocol/src/codec.rs:22-70 | a frame comes back in front of any bytes if and only if it has at most 100 MiB |
| `Framing.ChunkingIndependence` | crates/oxidemq-protocol/src/codec.rs:22-58 | for every byte stream and every cut of it, the frames delivered, whether decoding fails and, without failure, the buffered rest are those of the whole stream |
| `Framing.FramesArrive` | crates/oxidemq-protocol/src/codec.rs:22-70 | every list of frames within the limit, cut anywhere, arrives as exactly that list with the incomplete tail buffered |
| `Acl.AclAuthorizer.constructor` | crates/oxidemq-broker/src/acl.rs:43-65 | super users are normalised, no bindings |
| `Acl.AclAuthorizer.Authorize` | crates/oxidemq-broker/src/acl.rs:72-164 | the early-exit loop equals the rule: some binding allows and none denies; uncovered resources follow the setting; the laws below say for which fields |
| `Acl.HasRules` | crates/oxidemq-broker/src/acl.rs:98-109 | whether any binding covers the resource |
| `Acl.AppliesStepwise` | crates/oxidemq-broker/src/acl.rs:118-151 | the chain of tests in the loop equals the matching rule, which the laws below pin down field by field |
| `Acl.OrderDoesNotMatter` | crates/oxidemq-broker/src/acl.rs:95-163 | the answer depends only on which bindings exist |
| `Acl.NoFittingAllowRefuses` | crates/oxidemq-broker/src/acl.rs:114-163 | on a resource with a binding, a request of an ordinary principal is refused when every allow binding differs from it in operation (and is not All), host (and is not *), principal (and is no wildcard), resource type or name |
| `Acl.AllowGrants` | crates/oxidemq-broker/src/acl.rs:114-163 | without deny bindings an allow binding grants what it names: prefixed, every name that starts with its own; otherwise its own name, or every name if that is * |
| `Acl.DenyRefuses` | crates/oxidemq-broker/src/acl.rs:153-156 | a deny binding that names the request refuses it, whatever else is bound and wherever it stands |
| `Acl.OtherDenyIsIgnored` | crates/oxidemq-broker/src/acl.rs:114-156 | a deny binding for another operation, host, principal, resource type or name changes no answer on a resource that has a binding |
| `Acl.NoBindingFollowsSetting` | crates/oxidemq-broker/src/acl.rs:98-113 | without a binding of the type whose name fits, the setting answers |
| `Acl.UncheckedPasses` | crates/oxidemq-broker/src/acl.rs:80-93 | a disabled authorizer lets everything pass, an enabled one its super users in either spelling |
| `Acl.AclAuthorizer.CreateAcls` | crates/oxidemq-broker/src/acl.rs:167-229 | bindings and per-entry answers after a create request |
| `Acl.CreatesMissingOnce` | crates/oxidemq-broker/src/acl.rs:171-226 | creation adds exactly the valid missing bindings, each once, behind the old ones |
| `Acl.CreatesWhatItSays` | crates/oxidemq-broker/src/acl.rs:171-226 | a creation is refused if and only if a code is out of range; otherwise it binds its own fields, a principal without colon as a user and an empty host as any |
| `Acl.CreatedAllowGrants` | crates/oxidemq-broker/src/acl.rs:72-229 | after creating an allow binding its principal passes, prefixed for every longer name, as long as nothing is denied |
| `Acl.AclAuthorizer.DescribeAcls` | crates/oxidemq-broker/src/acl.rs:232-318 | each resource with a matching binding, with all of its matching bindings |
| `Acl.AclAuthorizer.DeleteAcls` | crates/oxidemq-broker/src/acl.rs:321-403 | what remains, and what each filter removed |
| `Acl.Retain` | crates/oxidemq-broker/src/acl.rs:326-393 | one pass splits the bindings into kept and removed |
| `Acl.ListsBinding` | crates/oxidemq-broker/src/acl.rs:237-290 | the describe loop's chain of tests, with its own normalisation, equals the filter rule |
| `Acl.KeepsBinding` | crates/oxidemq-broker/src/acl.rs:329-379 | the delete loop's separately written chain keeps a binding exactly when the same rule does not match |
| `Acl.DescribeListsWhatDeleteRemoves` | crates/oxidemq-broker/src/acl.rs:232-403 | describing a filter lists each binding exactly as often as deleting with it removes it |
| `Acl.DeleteConserves` | crates/oxidemq-broker/src/acl.rs:321-403 | what remains and what was reported make up what was there |
| `Acl.DeletedByFirstMatch` | crates/oxidemq-broker/src/acl.rs:325-393 | a binding stays if and only if no filter matches; otherwise exactly the first matching filter reports it |
| `Acl.PatternTypeIsNotCompared` | crates/oxidemq-broker/src/acl.rs:335-349 | a filter never tells apart bindings that differ only in pattern type |
| `Acl.MatchesFieldByField` | crates/oxidemq-broker/src/acl.rs:237-379 | a filter matches exactly what each of its fields alone matches |
| `Acl.NameFilter` | crates/oxidemq-broker/src/acl.rs:243-257 | alone, a name matches bindings whose name it starts with (prefixed), those and the ones on * (any, match), or its own (otherwise) |
| `Acl.CodeFilters` | crates/oxidemq-broker/src/acl.rs:237-290 | alone, a code other than any matches itself; a host itself or, being *, everything |
| `Acl.PrincipalFilter` | crates/oxidemq-broker/src/acl.rs:260-275 | alone, a principal matches as written and as a user, and * everyone |
| `Acl.SelectsInOrder` | crates/oxidemq-broker/src/acl.rs:326-393 | a filter keeps the order of the bindings |
| `Groups.GroupCoordinator.constructor` | crates/oxidemq-broker/src/coordinator.rs:61-66 | no groups, members numbered from 1 |
| `Groups.GroupCoordinator.JoinGroup` | crates/oxidemq-broker/src/coordinator.rs:69-111 | the member's id, the group's new state and the answer |
| `Groups.GroupCoordinator.SyncGroup` | crates/oxidemq-broker/src/coordinator.rs:114-147 | errors leave everything; otherwise assignments of members are stored and the caller's is returned |
| `Groups.GroupCoordinator.Heartbeat` | crates/oxidemq-broker/src/coordinator.rs:150-171 | unknown group, wrong generation and unknown member, in that order; `GroupHistory.HeartbeatFromHistory` says when each holds |
| `Groups.GroupCoordinator.LeaveGroup` | crates/oxidemq-broker/src/coordinator.rs:174-190 | the member is gone; a leaving leader is replaced by some remaining member |
| `Groups.GroupCoordinator.CommitOffset` | crates/oxidemq-broker/src/coordinator.rs:193-199 | one offset of the group changes, the group being created when absent |
| `Groups.GroupCoordinator.DeleteGroups` | crates/oxidemq-broker/src/coordinator.rs:295-318 | the loop's registry and the answer for each listed id, given those before it |
| `Groups.AssignAll` | crates/oxidemq-broker/src/coordinator.rs:132-136 | in any iteration order, members named in the assignments get theirs and others keep theirs |
| `Groups.LeaderAndGeneration` | crates/oxidemq-broker/src/coordinator.rs:69-199 | in every run the leader is a member exactly when members exist, and the generation is the (32-bit) number of joins since the group was created |
| `Groups.DeletesMemberless` | crates/oxidemq-broker/src/coordinator.rs:295-318 | in every run deletion removes exactly the requested groups without members |
| `Groups.StaleGenerationIsRefused` | crates/oxidemq-broker/src/coordinator.rs:114-171 | a generation handed out before later joins is refused by heartbeat and sync for fewer than 2^32 joins, and the sync changes nothing |
| `Groups.OffsetsSurvive` | crates/oxidemq-broker/src/coordinator.rs:69-199 | joins, syncs, leaves and other groups' requests keep a group's committed offsets; a commit changes one entry |
| `GroupHistory.RunIsRecorded` | crates/oxidemq-broker/src/coordinator.rs:69-318 | after every run the registry holds what the list of requests says: a group joined or committed to since it was last deleted, with those who joined and did not leave, each one's client and last assignment, joins as generation, the first member or the one elected as leader, the first one's protocol, the last committed offsets, and the phase |
| `GroupHistory.HeartbeatFromHistory` | crates/oxidemq-broker/src/coordinator.rs:150-171 | in every run a heartbeat is answered without error if and only if the group exists, the generation counts its joins and the member joined and did not leave; otherwise by the first that fails |
| `GroupHistory.DeleteFromHistory` | crates/oxidemq-broker/src/coordinator.rs:295-318 | in every run each listed id is answered: not found if there is no such group or it is listed a second time, not empty if it has members, no error otherwise |
| `GroupHistory.AssignmentReachesMember` | crates/oxidemq-broker/src/coordinator.rs:114-147 | in every run an assignment handed out in the current generation is what the member's own sync is answered with |
| `Layouts.MemberIdLayout` | crates/oxidemq-broker/src/coordinator.rs:80-85 | a generated member id, spelled out |

## Left out

- Request dispatch, sockets, TLS and the other request and response codecs: field copying around the primitives modelled here.
- The compression libraries, SASL and SCRAM, and the S3 client: foreign code, present only through their contracts.
- Pipeline.BatchRoundTrip: assumes batch lengths that fit the format's signed 32-bit field, because a longer batch has no representable length.
- Pipeline.BuffersEndToEnd: assumes batch lengths that fit the format's signed 32-bit field, because a longer batch has no representable length.
- Pipeline.EndToEnd: assumes batch lengths that fit the format's signed 32-bit field, because a longer batch has no representable length.
- Pipeline.PatchCommutesWithParse: assumes batch lengths that fit the format's signed 32-bit field, because a longer batch has no representable length.
- Transcode.CompressForgetsPath: assumes batch lengths that fit the format's signed 32-bit field, because a longer batch has no representable length.
- Transcode.CompressKeepsRecords: assumes batch lengths that fit the format's signed 32-bit field, because a longer batch has no representable length.
- Transcode.DecompressUndoesCompress: assumes batch lengths that fit the format's signed 32-bit field, because a longer batch has no representable length.
- Transcode.DecompressIdempotent: assumes batch lengths that fit the format's signed 32-bit field, because a longer batch has no representable length.
- Transcode.DecompressRecordBatch: says nothing of buffers on which the source slices out of range or does not end.
- Transcode.CompressRecordBatch: says nothing of buffers on which the source slices out of range or does not end.
- Transcode.CompressEach: says nothing of buffers on which the source slices out of range.
- Transcode.ParseRecordBatchRecords: says nothing of buffers on which the source slices out of range or does not end.
- Patch.PatchRecordBatches: requires a `Walkable` buffer, because on others the source slices out of range and stops.
- PartitionLog.Partition.AppendRecords: requires a `Walkable` buffer, because on others the source slices out of range and stops.
- PartitionLog.Partition.AppendIdempotentRecords: requires a `Walkable` buffer, because on others the source slices out of range and stops.
- Patch.PatchFrame: speaks of batches of at least 27 bytes, because the offset delta of a shorter one is read from the bytes behind it.
- Patch.PatchAbsorbs: speaks of batches of at least 27 bytes, because the offset delta of a shorter one is read from the bytes behind it.
- Patch.PatchTiles: speaks of batches of at least 27 bytes, because the offset delta of a shorter one is read from the bytes behind it.
- Patch.PatchAssigns: speaks of batches of at least 27 bytes and of offsets below 2^63, because the offset delta of a shorter one is read from the bytes behind it.
- Offsets.OffsetsIncrease: speaks of batches with complete headers and of offsets below 2^63.
- Patch.PatchedSplit: speaks of batches of at least 27 bytes, because the offset delta of a shorter one is read from the bytes behind it.
- CompactionRuns.NothingLostNothingTwice: covers runs of one compactor and uploads at increasing, non-negative offsets whose merged objects stay below 65536 blocks and 2^32 records; `CompactionRuns.CompactionConserves` and `CompactionRuns.DeletesItsOwnProduct` say what happens otherwise. Storage errors between steps are not part of those runs.
- PartitionRuns.WatermarkLaw: holds while offsets stay below 2^63.
- PartitionRuns.LogTiles: holds while offsets stay below 2^63.
- BrokerRuns.ReadCommittedOnBroker: holds while offsets stay below 2^63, as does `BrokerRuns.WatermarkOnBroker`.
- HistoricalReads.FetchHistorical: starts behind the log cache of recent appends.
- BlockCache.SharedCache.PutBlock: counts bytes in unbounded integers, as sums of lengths in memory stay far below the machine word.
- Framing.KafkaFrameCodec.ReceiveChunk: models the read loop of the framing library around the decoder, which stops at the first error.
- The write-ahead log, the log cache and trimming: only whether the log accepted an append is modelled.
- Broker snapshots, the schema registry, configuration queries and fault injection: table lookups and text handling.
- Group listing and describing, and offset lookups: they read the registry and change nothing.
- Aligned buffers and byte accumulators: raw memory.
