# Verified models from O-Log

O-Log is a log pipeline: a Kafka stream checker with its own copies of a compressor, a
checksum and an XML reader. This project models four of its parts in Dafny and proves what
they promise, for all inputs and all runs.

- **LZ4** (`Lz4*.dfy`). The block format is specified once (`Lz4Block`), with a reference
  reader and a byte-by-byte meaning. Proved against it: the fast compressor with its 16-bit
  and 32-bit position tables, the compressor that works to a given target size, the
  high-compression parser with its hash chains and its lazy choice among three matches, and
  the fast decoder with its eight-byte copies and correction tables. `Lz4RoundTrip` puts them
  together.
- **CRC-32C** (`Crc32c*.dfy`). The checksum is specified bit by bit. The eight-table software
  loop and the three-lane hardware loop, with operators over the field of two elements to
  merge the lanes, both compute it; and it shows every change within 32 consecutive bits.
  `Crc32cGenerator` states which polynomial it divides by, and its check value.
- **TinyXML text** (`Xml*.dfy`). Newline normalisation in place, entities, UTF-8 conversion,
  the printing and parsing of attributes, and numeric references (`XmlReferences`).
  `XmlSpelling` fixes by their spelling the characters and names that the others use.
- **Stream checker** (`Stream*.dfy`). `StreamBuffer` specifies the reordering buffer of one
  feedcode and proves what every run of feeds does; `StreamChecker` has the processor with its
  contexts, queues and reference counts; `StreamLoop` the event loop, the committer and whole
  runs; `StreamQueue` says when the queue drains, grows and reports, and `StreamRun` what a
  whole run reports as missing.

Code that works in place is modelled by classes, arrays and loops, each proved against a
specification function; the theorems are about those functions and about the invariants the
methods keep. A pointer into a text is modelled as a position in a sequence, and reading at or
past the end of a NUL-terminated text gives 0. The queue of a context is the set of its feeds,
with a least one chosen freely; a feed's identity is its address. One turn of the event loop
and one commit are atomic steps. What the log hands out (partition, offset, payload) is a
parameter, and offsets of a partition are taken to increase. The alignment of a checksum
buffer is a parameter too.

## Where the code does less than one might expect

The model follows the code in each case, also where a comment or a header says otherwise.

- `LZ4_compress_destSize`: the header says the destination is filled completely when the input
  does not fit. It is, but for a byte or so; the bound, the exact condition and an input that
  is not filled are in `Lz4DestSize.CompressDestSize` and `Lz4DestSize.FifteenNotFilled`.
- `lz4hc.c`: a comment after the saved match may have been restored takes the first match to
  start where it was saved. `Lz4Hc.StartsWhereSaved` says when it does, `Lz4Hc.MovedMatchStays`
  gives a source with matches for which it does not.
- Attribute values: `Print` and `Parse` are not inverse on values with `&#x`; the exact
  condition is `XmlAttribute.AttributeRoundTrip`, an example `XmlRoundTrip.ReferenceIsReplaced`.
- Stream checker: a late feed is reported but its message is never let go, so commits of its
  partition stop before it for good (`StreamLoop.EventLoop.Run`).
- Stream checker: a feed in order does not drain the queue, which may hold the next feeds until
  a later one arrives (`StreamQueue.SettledAfter`, `StreamQueue.SwappedFeedsStay`).
- Stream checker: a miss passes one timestamp and removes nothing, so the queue has no bound
  (`StreamQueue.GrowsWhen`, `StreamQueue.Crowd`).
- Stream checker: the continuity check compares the incoming feed, not the one leaving the
  queue (`StreamQueue.ReportedWhen`, `StreamQueue.FallUnreported`).

## Model

| member | source | states |
|---|---|---|
| `Lz4Block.ParseEncode` | rdkafka/librdkafka-PrintPoint/src/lz4.c:1132-1181 | Reading the bytes of any list of encodable sequences and a closing run, by the reference reader of the block format, gives back exactly that list: the encoding is unambiguous. |
| `Lz4Block.EncodeIsValid` | rdkafka/librdkafka-PrintPoint/src/lz4.c:1132-1162 | A block that obeys the end-of-block rules (last five bytes literal, no match starting in the last twelve) encodes to a valid block that decodes to its text. |
| `Lz4Block.EndRules` | rdkafka/librdkafka-PrintPoint/src/lz4.c:262-274 | The rules in figures: matches of at least 4 bytes, offsets from 1 to 65535 that reach no further back than the text, at least 5 literals at the end and the last match starting at least 12 bytes before it; a block is well formed if and only if all hold. |
| `Lz4Block.ExampleBytes` | rdkafka/librdkafka-PrintPoint/src/lz4.c:1132-1181 | The bytes of one block, spelled out: a literal, a match of 58 bytes at offset 1 and a run of 5 give 1F 00 01 00 27 50 and five literals; an offset is written low byte first. |
| `Lz4Block.ExampleText` | rdkafka/librdkafka-PrintPoint/src/lz4.c:1207-1236 | That block stands for 64 zero bytes. |
| `Lz4Block.LiteralsAlone` | rdkafka/librdkafka-PrintPoint/src/lz4.c:635-651 | A valid block holds no sequence exactly if its closing run is the whole text. |
| `Lz4Block.ReadTailInverts` | rdkafka/librdkafka-PrintPoint/src/lz4.c:1135-1141 | A length written as bytes of 255 and a smaller last byte is read back, with nothing consumed after it, for every length and every continuation. |
| `Lz4Block.RepeatUnique` | rdkafka/librdkafka-PrintPoint/src/lz4.c:1207-1236 | The byte-by-byte copy from `offset` bytes back is the only continuation in which every byte equals the byte `offset` before it, overlapping copies included. |
| `Lz4Block.RepeatExtends` | rdkafka/librdkafka-PrintPoint/src/lz4.c:569-605 | Copying a match that was found in the source continues the source: the prefix up to the match grows to the prefix past it. |
| `Lz4Words.FirstDifference` | rdkafka/librdkafka-PrintPoint/src/lz4.c:291-347 | The exclusive-or of two words read from the text is zero exactly for equal bytes, and otherwise its trailing zero bits divided by eight give the position of the first byte that differs. |
| `Lz4Common.Count` | rdkafka/librdkafka-PrintPoint/src/lz4.c:350-365 | The number of common bytes at two positions is counted exactly: that many agree, and one more would differ or pass the limit. Words of eight, then four, two and one bytes. |
| `Lz4Common.WildCopy` | rdkafka/librdkafka-PrintPoint/src/lz4.c:249-256 | Copying eight bytes at a time yields exactly the bytes asked for before the end; of the bytes past the end only the next eight may change. |
| `Lz4Common.WriteLiterals` | rdkafka/librdkafka-PrintPoint/src/lz4.c:551-567 | The token, the length bytes and the literals appended are the encoding of that run of literals, whatever the overshoot of the copy left behind them. |
| `Lz4Common.WriteLastLiterals` | rdkafka/librdkafka-PrintPoint/src/lz4.c:635-651 | The closing run of literals is appended exactly, and every byte after it is left as it was. |
| `Lz4Common.SequenceFromHalves` | rdkafka/librdkafka-PrintPoint/src/lz4.c:551-605 | Writing literals and offset first, then adding the match nibble to the token and appending the match length, gives the encoding of the whole sequence. |
| `Lz4Common.BoundIs` | rdkafka/librdkafka-PrintPoint/src/lz4.h:152-153 | The bound is n + n / 255 + 16 up to 0x7E000000 bytes and 0 beyond. |
| `Lz4Encoder.SequenceSize` | rdkafka/librdkafka-PrintPoint/src/lz4.h:152-153 | A sequence takes at most 256/255 of the text it stands for; this is what makes LZ4_COMPRESSBOUND enough. |
| `Lz4Encoder.Extend` | rdkafka/librdkafka-PrintPoint/src/lz4.c:548-605 | Emitting a true match extends the text covered from `anchor` to the end of the match and keeps every sequence placed as the format demands. |
| `Lz4Encoder.Encoder.Finish` | rdkafka/librdkafka-PrintPoint/src/lz4.c:635-655 | Closing a parse gives a valid block, within the bound, that decodes to the whole source and is read back as exactly the sequences emitted and the rest of the source. |
| `Lz4Fast.HashPosition` | rdkafka/librdkafka-PrintPoint/src/lz4.c:401-424 | Every hash is an index of the table, for both table kinds. |
| `Lz4Fast.SameHash` | rdkafka/librdkafka-PrintPoint/src/lz4.c:401-424 | The hash depends on the first five bytes only, for both table kinds. |
| `Lz4Fast.HashOfNumber` | rdkafka/librdkafka-PrintPoint/src/lz4.c:401-424 | With the first five bytes read as one number, the hash is the top 13 bits of its low 32 bits times 2654435761, or the top 12 of its 64-bit product with 889523592379 shifted by 24 bits, whatever the other three bytes are. |
| `Lz4Fast.PositionTable.Put` | rdkafka/librdkafka-PrintPoint/src/lz4.c:426-440 | Storing a position changes that one cell, keeps every entry strictly below the positions to be looked up, and in the 16-bit table the position fits its cell. |
| `Lz4Fast.FindMatch` | rdkafka/librdkafka-PrintPoint/src/lz4.c:519-545 | The skipping search ends at its first probe that hits, with every probe before it a miss, or without a match exactly when the next probe would pass the limit; a probe hits if the position that its table cell holds by then is within 65535 bytes and agrees on four bytes. |
| `Lz4Fast.Strides` | rdkafka/librdkafka-PrintPoint/src/lz4.c:519-525 | The first 65 probes are one byte apart, and the step then grows by one with every 64 probes. |
| `Lz4Fast.FiveEqual` | rdkafka/librdkafka-PrintPoint/src/lz4.c:510-545 | If a source of 13 bytes or more starts with five equal bytes, the first search finds a match if and only if it has 14. |
| `Lz4Fast.CatchUp` | rdkafka/librdkafka-PrintPoint/src/lz4.c:547-548 | Extending a match backwards keeps its distance and its bytes in agreement and stops exactly at the anchor, at the start of the text or at a byte that differs. |
| `Lz4Fast.WriteMatchTail` | rdkafka/librdkafka-PrintPoint/src/lz4.c:596-605 | Writing the match length four bytes of 255 at a time, ahead of the output position, leaves exactly the bytes of the format once the last one is set. |
| `Lz4Fast.Emit` | rdkafka/librdkafka-PrintPoint/src/lz4.c:551-605 | One sequence is emitted for the longest match at the position below the last five bytes; the parse stays valid and the anchor moves to its end. |
| `Lz4Fast.TestNext` | rdkafka/librdkafka-PrintPoint/src/lz4.c:612-629 | The position right after a match is looked up, after the position two before it was stored: a hit is reported if and only if the entry is a true match within reach, and exactly these two cells have changed. |
| `Lz4Fast.EmitChain` | rdkafka/librdkafka-PrintPoint/src/lz4.c:569-632 | A chain of matches without literals between them keeps the parse valid and advances; it ends in the last twelve bytes or with its end stored in the table. |
| `Lz4Fast.CompressGeneric` | rdkafka/librdkafka-PrintPoint/src/lz4.c:458-655 | For every input the table kind suits, the output is a valid block within the bound that decodes to the input; otherwise the result is 0. The block consists of literals alone if and only if the input is at most 12 bytes long or no probe of the first search hits; and after a match, no 14 bytes that start with six equal ones are left as literals. |
| `Lz4Fast.CompressDefault` | rdkafka/librdkafka-PrintPoint/src/lz4.c:658-699 | The same for every input up to the maximum size and a destination of at least the bound, with the table chosen by the size of the input; larger inputs give 0. |
| `Lz4HashChain.HashChain.Insert` | rdkafka/librdkafka-PrintPoint/src/lz4hc.c:97-115 | Inserting up to a position keeps the meaning of both tables: each hash cell holds the newest position with that hash, each chain cell the distance to the one before, capped at 65535. A position before the last one inserted leaves both tables as they are. |
| `Lz4HashChain.HashChain.ChainVisitsAll` | rdkafka/librdkafka-PrintPoint/src/lz4hc.c:134-160 | Following a chain from the hash table visits, newest first and each once, exactly the earlier positions within reach that have the same hash. |
| `Lz4HashChain.HashOfUnit` | rdkafka/librdkafka-PrintPoint/src/lz4hc.c:72-76 | The hashes of the four-byte texts with a single 1, which determine the multiplier: 20251, 7100, 15576 and 22656. |
| `Lz4HashChain.CandidatesCover` | rdkafka/librdkafka-PrintPoint/src/lz4hc.c:118-163 | No match of at least four bytes is missed by looking only at positions with the same hash. |
| `Lz4HashChain.HashChain.InsertAndFindBestMatch` | rdkafka/librdkafka-PrintPoint/src/lz4hc.c:118-163 | The result is a true match within reach that cannot be extended, or none, and, when the attempts suffice for all candidates, no position within reach gives a longer one. |
| `Lz4HashChain.HashChain.InsertAndGetWiderMatch` | rdkafka/librdkafka-PrintPoint/src/lz4hc.c:166-232 | A result longer than asked for is a true match that starts between the low limit and the position and cannot be extended forward and, when the attempts suffice, no match through the position is wider. |
| `Lz4HashChain.ExtendBack` | rdkafka/librdkafka-PrintPoint/src/lz4hc.c:199-205 | Going back stops exactly at the low limit, at the start of the text or at a byte that differs. |
| `Lz4Hc.WriteSequence` | rdkafka/librdkafka-PrintPoint/src/lz4hc.c:250-304 | One sequence is written as the format says, with the match length two bytes of 255 at a time. |
| `Lz4Hc.Arrange2Holds` | rdkafka/librdkafka-PrintPoint/src/lz4hc.c:362-388 | Keeping, restoring or moving past the first match leaves matches that are still true and usable and in order, and the furthest end has grown. |
| `Lz4Hc.StartsWhereSaved` | rdkafka/librdkafka-PrintPoint/src/lz4hc.c:374-388 | At the point where a comment takes the first match to start where it was saved, it starts elsewhere if and only if it has moved and the second match starts at or after the moved start plus the saved length; the parse then goes on with both. |
| `Lz4Hc.MovedMatchStays` | rdkafka/librdkafka-PrintPoint/src/lz4hc.c:362-388 | A source of 64 bytes with three matches, none of which can be extended: the second takes over from the first, and the third then meets the case in which the comment fails. |
| `Lz4Hc.Arrange3Holds` | rdkafka/librdkafka-PrintPoint/src/lz4hc.c:428-455 | Dropping the first match and shortening the second in favour of the third leaves usable matches, and the furthest end has grown. |
| `Lz4Hc.Arrange3Saves` | rdkafka/librdkafka-PrintPoint/src/lz4hc.c:428-455 | When the third match starts within three bytes after the first, it becomes the first one, and what is left of the second after the first is saved if that is at least four bytes, and the third otherwise. |
| `Lz4Hc.SettleHolds` | rdkafka/librdkafka-PrintPoint/src/lz4hc.c:457-487 | The first match, cut so that the second keeps its start, is emitted as a true match, and second and third remain usable and in order. |
| `Lz4Hc.SettleCuts` | rdkafka/librdkafka-PrintPoint/src/lz4hc.c:457-487 | Cutting keeps the start of the first match and the end of the second; nothing is cut if they do not overlap, the second is left whole if it starts 15 bytes after the first, and where the second gives way the first keeps at most 18 bytes. |
| `Lz4Hc.KeptIsLeast` | rdkafka/librdkafka-PrintPoint/src/lz4hc.c:394-404 | What the first match keeps is the least of 18, its length, and what leaves the second four bytes. |
| `Lz4Hc.StepScan` | rdkafka/librdkafka-PrintPoint/src/lz4hc.c:353-360 | A position is passed only if, the attempts sufficing, no earlier text within reach shares four bytes with it; otherwise a longest match there is taken up. |
| `Lz4Hc.StepSearch2` | rdkafka/librdkafka-PrintPoint/src/lz4hc.c:362-388 | One round at the label _Search2 looks for a wider match two bytes before the end of the first, and writes the first match, at its length, only if there is none; otherwise it goes on with the arrangement of the matches that the source makes. Only true matches that cannot be extended are held, and the furthest end grows or the label is left for good. |
| `Lz4Hc.StepSearch3` | rdkafka/librdkafka-PrintPoint/src/lz4hc.c:390-487 | One round at the label _Search3 looks for a wider match three bytes before the end of the corrected second, and writes first and second, cut to fit, only if there is none; otherwise it writes what the third match leaves of them and goes on with the rest. The furthest match end strictly grows unless the parse falls back to scanning past it. |
| `Lz4Hc.CompressHashChain` | rdkafka/librdkafka-PrintPoint/src/lz4hc.c:310-519 | The parse ends for every input and every number of attempts; the output is a valid block within the bound that decodes to the input, and larger inputs give 0. No position of the closing run, but for the last twelve bytes, starts a repeat that the attempts could have found. |
| `Lz4Hc.RepeatIsUsed` | rdkafka/librdkafka-PrintPoint/src/lz4hc.c:310-519 | If four bytes before the last twelve repeat earlier ones within reach and the attempts suffice there, the block holds at least one sequence, and that position is not in the closing run. |
| `Lz4DestSize.FittingCodeFits` | rdkafka/librdkafka-PrintPoint/src/lz4.c:808-826 | A match cut to the room left is no longer than the match found, fits, and uses all the room when it was cut. |
| `Lz4DestSize.WriteShort` | rdkafka/librdkafka-PrintPoint/src/lz4.c:783-826 | Head, offset and as much of the match as fits are written; room for the closing run is always left, and the match was cut only if the room is used up. |
| `Lz4DestSize.RulesKept` | rdkafka/librdkafka-PrintPoint/src/lz4.c:848-868 | Cutting the closing run to the room left still leaves the last five bytes literal and the last match clear of the last twelve. |
| `Lz4DestSize.FinishShort` | rdkafka/librdkafka-PrintPoint/src/lz4.c:848-868 | The closing run, cut exactly if it does not fit, gives a valid block that decodes to the part of the source reported as consumed; when it was cut, the number of literals, the bytes left unused and the exact condition for a full destination are stated. |
| `Lz4DestSize.ShortenedFills` | rdkafka/librdkafka-PrintPoint/src/lz4.c:848-856 | A cut run uses up the room left if and only if (room + 240) / 255 is at most (room + 240) % 255. |
| `Lz4DestSize.ShortenedWaste` | rdkafka/librdkafka-PrintPoint/src/lz4.c:848-856 | A cut run leaves at most one byte of the room unused, and one more for every 65025 bytes. |
| `Lz4DestSize.FifteenNotFilled` | rdkafka/librdkafka-PrintPoint/src/lz4.c:876-888 | Fifteen distinct bytes into a destination of sixteen: the entry point consumes fourteen, writes fifteen, and leaves one byte unused although input is left. |
| `Lz4DestSize.CompressDestSizeGeneric` | rdkafka/librdkafka-PrintPoint/src/lz4.c:720-873 | For every input and every target size from 1 on, the block never exceeds the target and decodes to exactly the prefix reported as consumed. If input is left, at most one byte of the target, and one more for every 65025, stays unused, and the target is filled completely if and only if the arithmetic condition holds of the room from the start of the closing run. For an input in which no four bytes repeat within reach, whether input is left and whether the target is filled are decided by the two sizes alone. The block is literals alone only if each hit of the first search has too many literals before it for the target, and holds a sequence only if there is a hit. |
| `Lz4DestSize.CompressDestSize` | rdkafka/librdkafka-PrintPoint/src/lz4.c:876-888 | The same through the entry point, and the whole input is consumed when the target is at least the bound. |
| `Lz4DestSize.DistinctNoRepeat` | rdkafka/librdkafka-PrintPoint/src/lz4.c:764-780 | An input of distinct bytes has no repeat for the search to find. |
| `Lz4Decoder.TableDistances` | rdkafka/librdkafka-PrintPoint/src/lz4.c:1114-1115 | For offsets below eight the two correction tables move the source pointer to a multiple of the offset, so that four and then eight bytes may be copied at once. |
| `Lz4Decoder.RepeatsMultiple` | rdkafka/librdkafka-PrintPoint/src/lz4.c:1208-1220 | A text that repeats at a distance repeats at every multiple of it, from far enough on. |
| `Lz4Decoder.WildCopyWithin` | rdkafka/librdkafka-PrintPoint/src/lz4.c:1221-1236 | Copying eight bytes at a time inside the output gives the bytes that the byte-by-byte copy would give. |
| `Lz4Decoder.CopyMatch` | rdkafka/librdkafka-PrintPoint/src/lz4.c:1207-1236 | A match is copied, near the end or far from it, to exactly the byte-by-byte result, and is refused exactly when fewer than five bytes would remain; every store is inside the output. |
| `Lz4Decoder.ReadMatchLength` | rdkafka/librdkafka-PrintPoint/src/lz4.c:1168-1181 | The length loop reads the length that was written and stops where it ends. |
| `Lz4Decoder.DecodeOne` | rdkafka/librdkafka-PrintPoint/src/lz4.c:1132-1236 | One round decodes one sequence to what the format says, or fails exactly when the output would leave too little room for it. |
| `Lz4Decoder.DecompressSafe` | rdkafka/librdkafka-PrintPoint/src/lz4.c:1088-1253 | On every valid block and every output size the result is non-negative if and only if the text fits, and is then its length, with exactly the text in the output. |
| `Lz4RoundTrip.DefaultRoundTrip` | rdkafka/librdkafka-PrintPoint/src/lz4.h:126-146 | Compressing any input up to the maximum size and decompressing it into a buffer of its size gives back the input. |
| `Lz4RoundTrip.HcRoundTrip` | rdkafka/librdkafka-PrintPoint/src/lz4hc.c:538-577 | The same for the high-compression parse with any number of attempts. |
| `Lz4RoundTrip.DestSizeRoundTrip` | rdkafka/librdkafka-PrintPoint/src/lz4.c:876-888 | Compressing into any target size and decompressing into a buffer of the size reported as consumed gives exactly that many bytes of the input; the block fits the target, nearly fills it if input is left, and holds all of the input when the target is at least the bound. |
| `Crc32c.SerialIsBitSerial` | rdkafka/librdkafka-PrintPoint/src/crc32c.c:62-82 | Feeding a message byte by byte through eight register steps equals shifting it in bit by bit. |
| `Crc32c.CrcChains` | rdkafka/librdkafka-PrintPoint/src/crc32c.c:355-372 | The checksum of a concatenation is the checksum of the second part started from the checksum of the first. |
| `Crc32c.StepsXor` | rdkafka/librdkafka-PrintPoint/src/crc32c.c:144-156 | The register step is linear: stepping an exclusive-or is the exclusive-or of the steps. |
| `Crc32cGenerator.Generator` | rdkafka/librdkafka-PrintPoint/src/crc32c.c:62-82 | For every register, 32 steps equal the sum over the field of two elements of 28, 27, 26, 25, 23, 22, 20, 19, 18, 14, 13, 11, 10, 9, 8, 6 and 0 steps: the step is multiplication by x modulo the Castagnoli polynomial, written by its exponents. |
| `Crc32cGenerator.CheckValue` | rdkafka/librdkafka-PrintPoint/src/crc32c.c:97-134 | The checksum of the nine digits "123456789" is E3069283. |
| `Crc32cSw.SoftwareCrc.InitSw` | rdkafka/librdkafka-PrintPoint/src/crc32c.c:69-92 | Entry [k][n] of the table is the register n after 8(k+1) steps, for all eight tables. |
| `Crc32cSw.ByteByTable` | rdkafka/librdkafka-PrintPoint/src/crc32c.c:104-108 | One look-up and a shift by eight advance the register by one byte. |
| `Crc32cSw.EightLookUps` | rdkafka/librdkafka-PrintPoint/src/crc32c.c:109-126 | Eight look-ups, one per byte of the word, together advance the register by eight bytes. |
| `Crc32cSw.LanesAgree` | rdkafka/librdkafka-PrintPoint/src/crc32c.c:113-124 | The bytes taken from the 64-bit word after the register was folded in are the bytes that the eight look-ups need. |
| `Crc32cSw.SoftwareCrc.Crc32cSw` | rdkafka/librdkafka-PrintPoint/src/crc32c.c:97-134 | For every start value, message and alignment of the buffer, the table-driven checksum equals the bit-serial one. |
| `Crc32cHw.MatrixTimes` | rdkafka/librdkafka-PrintPoint/src/crc32c.c:144-156 | The loop computes the product of matrix and vector over the field of two elements, stopping at the last bit set. |
| `Crc32cHw.OperatorSteps` | rdkafka/librdkafka-PrintPoint/src/crc32c.c:144-156 | Multiplying by the operator for k zero bits is the same as k register steps. |
| `Crc32cHw.MatrixSquare` | rdkafka/librdkafka-PrintPoint/src/crc32c.c:160-166 | Squaring the operator for k zero bits gives the operator for 2k. |
| `Crc32cHw.FloorPower` | rdkafka/librdkafka-PrintPoint/src/crc32c.c:168-172 | For every length from 1 on the power is at most the length and its double is more; for length 0 it is 1. |
| `Crc32cHw.ZerosOperator` | rdkafka/librdkafka-PrintPoint/src/crc32c.c:173-208 | For every length the operator is the one for as many zero bytes as the largest power of two that is at most the length, and one zero byte for length 0. |
| `Crc32cHw.Zeros` | rdkafka/librdkafka-PrintPoint/src/crc32c.c:212-224 | The four tables hold the operator applied to every byte in every position. |
| `Crc32cHw.Shift` | rdkafka/librdkafka-PrintPoint/src/crc32c.c:227-231 | Four look-ups advance any register by the zeros the tables stand for. |
| `Crc32cHw.Merge` | rdkafka/librdkafka-PrintPoint/src/crc32c.c:278-314 | The checksums of three consecutive blocks, two of them started from zero, combine to the checksum of the whole. |
| `Crc32cHw.ThreeLanes` | rdkafka/librdkafka-PrintPoint/src/crc32c.c:278-314 | Three blocks checked side by side and merged give the register after all three. |
| `Crc32cHw.HardwareCrc.InitHw` | rdkafka/librdkafka-PrintPoint/src/crc32c.c:248-252 | The tables for the long and the short block shift by exactly 8192 and 256 bytes. |
| `Crc32cHw.HardwareCrc.Crc32cHw` | rdkafka/librdkafka-PrintPoint/src/crc32c.c:255-338 | For every start value, message and alignment, the three-lane checksum equals the bit-serial one, and so the software one. |
| `Crc32cDetection.DetectsBurst` | rdkafka/librdkafka-PrintPoint/src/crc32c.c:62-63 | Two messages of the same length that differ, and only within 32 consecutive bits wherever these start, have different checksums, from any start value. |
| `XmlNewlines.NormalizeInPlace` | rdkafka/lib/tinyxml.cpp:1052-1075 | The in-place rewriting leaves the normalised text of the buffer up to its first NUL; reading never falls behind writing. |
| `XmlNewlines.NormalizeIsRenamed` | rdkafka/lib/tinyxml.cpp:1014-1020 | Normalising is the same as writing LF for every CR and dropping every LF that comes right after a CR. |
| `XmlNewlines.NormalizeTwice` | rdkafka/lib/tinyxml.cpp:1014-1020 | Normalising a normalised text changes nothing. |
| `XmlNewlines.NoCarriageReturn` | rdkafka/lib/tinyxml.cpp:1014-1020 | No CR is left in a normalised text. |
| `XmlNewlines.NormalizeInParts` | rdkafka/lib/tinyxml.cpp:1014-1020 | Normalising two parts separately equals normalising the whole if and only if no CR LF is cut in two. |
| `XmlSpelling.LineEnds` | rdkafka/lib/tinyxml.cpp:1014-1020 | CR LF, CR and LF in one text each become LF. |
| `XmlReader.EncodeString` | rdkafka/lib/tinyxml.cpp:52-133 | The writing loop produces the specified encoding, `&#x` references passed through up to their semicolon or the last byte. |
| `XmlSpelling.EntitiesWritten` | rdkafka/lib/tinyxml.cpp:84-123 | Ampersand, less than, greater than, quote and apostrophe are written by their entities, spelled out, and line feed and the byte 31 as `&#x0A;` and `&#x1F;`. |
| `XmlSpelling.WrittenAsItself` | rdkafka/lib/tinyxml.cpp:84-133 | A byte is written as itself if and only if it is none of these five characters and at least 32. |
| `XmlReader.ConvertUtf32ToUtf8` | rdkafka/lib/tinyxmlparser.cpp:88-126 | The bytes written from last to first are the UTF-8 form; nothing is written from 0x200000 on. |
| `XmlRoundTrip.Utf8Inverts` | rdkafka/lib/tinyxmlparser.cpp:88-126 | The bytes of a code point determine it. |
| `XmlRoundTrip.TableKnowsConverter` | rdkafka/lib/tinyxmlparser.cpp:66-126 | The length table gives the length the converter wrote if and only if the code point is below 0x140000; the bytes after the first are always continuation bytes. |
| `XmlSpelling.LeadBytes` | rdkafka/lib/tinyxmlparser.cpp:66-85 | The table gives more than one byte exactly for the bytes that start the UTF-8 form of some code point between 0x80 and 0x13FFFF, and then the length of that form. |
| `XmlReader.GetEntity` | rdkafka/lib/tinyxmlparser.cpp:438-531 | Entities and numeric references are read as specified: digits from right to left, the weight wrapped to 32 bits, the sum to 64, an unknown entity losing its ampersand. |
| `XmlReferences.DecimalReads` | rdkafka/lib/tinyxmlparser.cpp:470-500 | For every string of decimal digits, leading zeros included, whose value in base ten is below 2^32, the reference is read as the character with that value, up to and including its semicolon, whatever follows. |
| `XmlReferences.HexReads` | rdkafka/lib/tinyxmlparser.cpp:447-469 | The same for hexadecimal digits of either case and base sixteen. |
| `XmlReferences.NumberReads` | rdkafka/lib/tinyxmlparser.cpp:438-500 | Every number below 2^32 written in decimal, or in hexadecimal in either case, as a reference is read as its character. |
| `XmlReferences.LetterA` | rdkafka/lib/tinyxmlparser.cpp:470-500 | `&#65;` is read as `A`, whatever follows. |
| `XmlSpelling.EntitiesRead` | rdkafka/lib/tinyxmlparser.cpp:43-50 | The five entities, spelled out, are read as their characters, whatever follows. |
| `XmlSpelling.UnknownEntity` | rdkafka/lib/tinyxmlparser.cpp:511-531 | Any other text that starts with an ampersand not followed by a number sign yields no bytes and goes on after the ampersand. |
| `XmlReader.GetChar` | rdkafka/lib/tinyxml.h:327-361 | One character is read as specified, multi-byte characters by the length of their first byte and padded with zeros at the end of the text. |
| `XmlReader.StringEqual` | rdkafka/lib/tinyxmlparser.cpp:534-572 | True if and only if the text is long enough and agrees with the tag byte for byte, upper and lower case letters taken as equal when case is ignored. |
| `XmlSpelling.SameLetter` | rdkafka/lib/tinyxmlparser.cpp:534-572 | Two bytes are taken as equal exactly if they are equal or the same ASCII letter in upper and lower case. |
| `XmlReader.ReadTextFrom` | rdkafka/lib/tinyxmlparser.cpp:574-637 | The loop returns the text and the position that the specification gives, and no position at the end of the buffer. |
| `XmlReader.CompleteStaysInside` | rdkafka/lib/tinyxml.h:327-361 | If the end of the text cuts off no character that starts in its last three bytes, no step of reading goes past the end, whatever comes before. |
| `XmlReader.ReadableEndsComplete` | rdkafka/lib/tinyxml.h:327-361 | Well-formed text ends in this way. |
| `XmlReader.CutOff` | rdkafka/lib/tinyxml.h:344-351 | A text that ends in the first byte of two does not, and reading it does not stay inside. |
| `XmlRoundTrip.ReadsBack` | rdkafka/lib/tinyxml.cpp:52-133 | A value without `&#x` is read back byte for byte up to its closing quote, in both encodings. |
| `XmlRoundTrip.NeverLonger` | rdkafka/lib/tinyxmlparser.cpp:438-531 | Whatever references a value holds, if reading what was written stops right after the quote, it gives no more bytes than the value had, and strictly fewer if the value holds `&#x`. |
| `XmlRoundTrip.ValueRoundTrip` | rdkafka/lib/tinyxml.cpp:52-133 | A value is read back as itself, with reading stopping right after the quote, if and only if it holds no `&#x` and the text goes on after the quote. |
| `XmlRoundTrip.ReferenceIsReplaced` | rdkafka/lib/tinyxml.cpp:60-83 | The value `&#x41;` is read back as `A`. |
| `XmlAttribute.SkipWhiteSpace` | rdkafka/lib/tinyxmlparser.cpp:314-362 | Skips to the position specified: every byte passed is white space or, in UTF-8, part of the byte order mark or one of two non-characters, and the byte it stops at starts none of these. |
| `XmlAttribute.SkipsBlank` | rdkafka/lib/tinyxmlparser.cpp:314-362 | A stretch of white space and marks in front of anything else is skipped to its end, neither less nor more. |
| `XmlSpelling.Classes` | rdkafka/lib/tinyxmlparser.cpp:129-168 | White space is space, tab, line feed, vertical tab, form feed and carriage return; letters and name bytes below 127 are the ASCII ones with underscore, hyphen, dot and colon, and every byte from 127 on counts as both. |
| `XmlSpelling.Marks` | rdkafka/lib/tinyxmlparser.cpp:52-64 | The three skipped byte sequences are the UTF-8 forms of 0xFEFF, 0xFFFE and 0xFFFF. |
| `XmlAttribute.ReadName` | rdkafka/lib/tinyxmlparser.cpp:401-436 | Reads the longest run of name bytes if the first may start a name, and nothing otherwise. |
| `XmlAttribute.Attribute.Print` | rdkafka/lib/tinyxml.cpp:1210-1233 | Prints the encoded name and value, the value in double quotes unless it holds one. |
| `XmlSpelling.QuoteChosen` | rdkafka/lib/tinyxml.cpp:1210-1233 | The quote is an apostrophe if the value holds a double quote, and a double quote otherwise. |
| `XmlSpelling.PrintedPlainly` | rdkafka/lib/tinyxml.cpp:1210-1233 | A name and a value in which every byte is written as itself are printed as the name, an equals sign and the value between double quotes. |
| `XmlAttribute.Attribute.Parse` | rdkafka/lib/tinyxmlparser.cpp:1392-1463 | Parses name, equals sign and value, with or without quotes, to what the specification gives, and fails exactly where it does. |
| `XmlAttribute.ParsedNameValid` | rdkafka/lib/tinyxmlparser.cpp:1392-1412 | Every name that parsing yields starts with a letter or underscore, holds only name bytes, and in UTF-8 does not start with a skipped mark. |
| `XmlAttribute.QuotedParse` | rdkafka/lib/tinyxmlparser.cpp:1392-1440 | Any blanks, a name, any blanks, an equals sign, any blanks and a value written between either quote parse to that name and value and stop right after the quote, if and only if the value holds no `&#x` and the text goes on. |
| `XmlAttribute.UnquotedParse` | rdkafka/lib/tinyxmlparser.cpp:1441-1463 | The same layout with a value without quotes parses to that name and value and stops at the white space, slash, greater-than sign or end of text after it. |
| `XmlSpelling.Terminators` | rdkafka/lib/tinyxmlparser.cpp:1448-1450 | An unquoted value ends exactly at the end of the text, white space, a slash or a greater-than sign. |
| `XmlAttribute.AttributeRoundTrip` | rdkafka/lib/tinyxml.cpp:1210-1233 | A printed attribute parses to the same name and value, with parsing stopping right after it, if and only if its name is one that the parser can yield, its value holds no `&#x`, and the text goes on. |
| `StreamBuffer.DrainEnd` | rdkafka/DeficiencyProcessor.cpp:71-107 | However ties are broken, a drain that stops has passed exactly the consecutive timestamps present, and has removed exactly the feeds below the first absent one. |
| `StreamBuffer.StepKeeps` | rdkafka/DeficiencyProcessor.cpp:49-120 | No feed at or after the expected timestamp is ever lost from the queue, and the expected timestamp stays on its grid and never falls. |
| `StreamBuffer.StepPasses` | rdkafka/DeficiencyProcessor.cpp:71-120 | A timestamp passed by one feed is reported as missing exactly when no feed so far has it. |
| `StreamBuffer.ConsumedOnce` | rdkafka/DeficiencyProcessor.cpp:37-120 | In every run for a feedcode, each timestamp of the grid below the expected one was passed by exactly one step, and it is reported as missing exactly once if no feed had brought it by then, and never otherwise. |
| `StreamBuffer.MissesOnGrid` | rdkafka/DeficiencyProcessor.cpp:109-120 | Only timestamps of the grid that were passed without any feed having brought them are ever reported as missing. |
| `StreamBuffer.TurnoverGrows` | rdkafka/DeficiencyProcessor.cpp:43-44 | The turnover value and volume kept for comparison never fall in any run. |
| `StreamQueue.FirstTurnover` | rdkafka/DeficiencyProcessor.cpp:37-47 | The first feed sets the turnover kept for comparison, and 0 where its own is negative. |
| `StreamQueue.TurnoverKept` | rdkafka/DeficiencyProcessor.cpp:77-90 | The turnover kept becomes that of the incoming feed exactly if this lies after the expected timestamp, a feed with the expected timestamp is waiting and it is not below the turnover kept; otherwise it stays. |
| `StreamQueue.DelayedWhen` | rdkafka/DeficiencyProcessor.cpp:61-69 | A feed is reported as delayed if and only if it lies before the expected timestamp, once, and by exactly the time that it is behind. |
| `StreamQueue.DueWhenCrowded` | rdkafka/DeficiencyProcessor.cpp:109-120 | With feeds far ahead only, the expected timestamp is 500 ms after the first feed, and 500 ms more for every feed waiting beyond 120. |
| `StreamQueue.SettledAfter` | rdkafka/DeficiencyProcessor.cpp:52-120 | A feed leaves a drained queue drained except exactly in two cases: a feed in order whose successor is waiting already, and a miss whose successor is. |
| `StreamQueue.SwappedFeedsStay` | rdkafka/DeficiencyProcessor.cpp:52-60 | After the timestamps 0, 2 and 1 of the grid the expected feed is in the queue and stays there. |
| `StreamQueue.GrowsWhen` | rdkafka/DeficiencyProcessor.cpp:71-120 | One feed enlarges the queue if and only if it and everything in the queue lie after the expected timestamp. |
| `StreamQueue.KeepsAllAhead` | rdkafka/DeficiencyProcessor.cpp:109-120 | A run whose feeds after the first all lie far ahead leaves every one of them in the queue, misses notwithstanding. |
| `StreamQueue.Crowd` | rdkafka/DeficiencyProcessor.cpp:109-120 | For every number there is a run that leaves that many feeds in the queue. |
| `StreamQueue.ReportedWhen` | rdkafka/DeficiencyProcessor.cpp:77-90 | A falling turnover is reported if and only if the incoming feed lies after the expected timestamp, a feed with that timestamp is in the queue, and the incoming feed is below the turnover kept; only the incoming feed is ever reported. |
| `StreamQueue.FallUnreported` | rdkafka/DeficiencyProcessor.cpp:77-99 | Four feeds of which the third by timestamp falls below the second: it leaves the queue, and no falling turnover is reported at any step. |
| `StreamChecker.Message.Live` | rdkafka/myMessage.cpp:62-64 | Holding a message raises its count by one. |
| `StreamChecker.Message.Kill` | rdkafka/myMessage.cpp:66-69 | Letting go lowers the count; the assertion is the precondition, proved at every call. |
| `StreamChecker.Message.Free` | rdkafka/myMessage.cpp:71-73 | A message is free exactly when nobody holds it. |
| `StreamChecker.Context.Top` | rdkafka/Context.h:11-20 | The queue gives out some feed with the least timestamp; nothing is promised about ties. |
| `StreamChecker.DeficiencyProcessor.Drain` | rdkafka/DeficiencyProcessor.cpp:71-107 | For any queue, off-grid and duplicate timestamps included, the loop ends at the least timestamp of the grid that is absent, removes and releases exactly the feeds below it, and keeps the rest; the continuity check reads the incoming feed. |
| `StreamChecker.DeficiencyProcessor.Reorder` | rdkafka/DeficiencyProcessor.cpp:71-120 | The feed joins the queue, the queue is drained, and a miss is reported and passed if more than 120 feeds still wait. |
| `StreamChecker.DeficiencyProcessor.Check` | rdkafka/DeficiencyProcessor.cpp:49-120 | A feed in order moves the expected timestamp on and is released without a drain; an overdue feed is reported and stays held; any other feed is reordered. What the reports are is the subject of the StreamQueue lemmas. |
| `StreamChecker.DeficiencyProcessor.ContextFor` | rdkafka/DeficiencyProcessor.cpp:37-49 | The first feed of a feedcode sets up a context that expects it; all other contexts stay as they are. |
| `StreamChecker.CheckKeeps` | rdkafka/DeficiencyProcessor.cpp:20-120 | After every feed, buffers hold only feeds of their own feedcode whose messages are held, and each buffer is the one that the feeds received so far for its feedcode explain. |
| `StreamChecker.DeficiencyProcessor.Exec` | rdkafka/DeficiencyProcessor.cpp:7-131 | One message changes only the buffer of its feedcode, holds its message, releases exactly the feeds specified, and reports what is specified; the invariants are kept and no release can fail its assertion. |
| `StreamLoop.EventLoop.StorePartition` | rdkafka/EventLoop.cpp:86-106 | The longest free prefix of the queue is taken off, its last offset committed, and each message of it deleted exactly once, when free. |
| `StreamLoop.EventLoop.StoreOffset` | rdkafka/EventLoop.cpp:86-106 | All partitions are committed: the invariants hold, commits never go back, and the first message left in each queue is still held. |
| `StreamLoop.EventLoop.RunOnce` | rdkafka/EventLoop.cpp:60-84 | One turn queues the message and has it checked; the reports are the ones the history of its feedcode explains. Invalid turnover is reported exactly if value or volume is not positive. The message becomes late exactly if it is overdue, and then there is exactly one delay report, by the time it is behind; late messages stay late. |
| `StreamLoop.Telling` | rdkafka/DeficiencyProcessor.cpp:25-69 | Whatever buffers a history explains, the reports of one message say exactly whether its turnover is positive, whether it is late, and by how much. |
| `StreamLoop.EventLoop.Handle` | rdkafka/EventLoop.cpp:60-106 | A message is taken once, adds its own feed to the history of its own feedcode only, and is answered by the reports that this history explains; a commit reports nothing and leaves no free message at the head of a queue. |
| `StreamLoop.EventLoop.NothingLost` | rdkafka/EventLoop.cpp:60-106 | In every reachable state a message that is buffered or otherwise held has count one, is queued, is not deleted and lies past the committed offset; and a message is deleted exactly if its offset is committed. |
| `StreamLoop.LateStays` | rdkafka/DeficiencyProcessor.cpp:61-69 | No later feed releases a late message, puts it back into a buffer, or makes another held message late. |
| `StreamLoop.EventLoop.Run` | rdkafka/ContextMap.cpp:55-73 | From any reachable state and over any mix of messages and commits, all invariants hold at the end, each message is taken once, the history of every feedcode grows by what the log sent for it, in order, and each message is answered by the reports its history explains. Commits never go back, the last one leaves nothing free at the head of a queue, and the offset of a late message is never committed. |
| `StreamRun.MissedOnce` | rdkafka/DeficiencyProcessor.cpp:7-131 | In any run of messages and commits, each timestamp of the grid of a feedcode below the expected one is settled by exactly one message: its absence is reported once, with that message, if no message so far brought it, and by no other message of the feedcode ever. |

## Left out

- `Lz4Decoder.DecompressSafe`: states nothing about input that is not a valid block; only the
  failures caused by too little room in the output are modelled.
- `StreamChecker.DeficiencyProcessor.Exec`: timestamps and volumes are unbounded integers and
  turnover values real numbers; 64-bit overflow and rounding are not modelled.
- `Lz4Fast.CompressDefault`: takes a destination of at least the bound; the early exits for a
  smaller one are not modelled.
- `Lz4Fast.CompressGeneric`: likewise takes a destination of at least the bound.
- `Lz4Hc.CompressHashChain`: likewise takes a destination of at least the bound.
- `XmlRoundTrip.ValueRoundTrip`: in UTF-8, takes values whose multi-byte characters are complete;
  what becomes of a value that cuts one off is not stated.
- `XmlAttribute.AttributeRoundTrip`: takes the same values.
- `XmlReader.ReadTextFrom`: where the end of the text cuts off a multi-byte character, the source
  moves its pointer past the end and reads on; the model returns no position there.
  `XmlReader.CompleteStaysInside` says of which texts this is never so.
- `XmlAttribute.Attribute.Parse`: stops in the same way in such a quoted value.
- `XmlReader.StringEqual`: case is that of the ASCII letters, not of a locale.
- LZ4 with limited output, dictionaries, streaming, prefix mode, partial decoding and the
  decoder that trusts its input.
- Acceleration other than 1 in the fast compressor; it only changes how far the search skips.
- The optimal parser of the high-compression levels 11 and 12, and its limited-output forms.
- Big-endian machines, the table of addresses for 32-bit machines, and the fallback for counting zero bits.
- Detection of the processor's CRC instruction; its meaning is eight bytes of register steps.
- Condensing of white space in XML text, the document tree, file and stream input, and error
  reporting.
- Mutexes, real interleavings of the two threads, and the unlock inside the drain loop.
- The result code that decides whether reports are sent, the text of reports, and the validity
  processor, which neither holds messages nor keeps state.
- JSON parsing, a message whose type was never set, configuration, the backup text, the
  producer and the Python scripts.
