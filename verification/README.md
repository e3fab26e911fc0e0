# Model of an imaging library's writing side

This project models, in Dafny, the parts of a disk image library that decide whether what was written can be
read again: its erasure coding layer, the sequence that closes an image, the layout a new image gets, the
byte-budget cache, the dump-hardware block, the metadata block and the start of the logger. Everything below is
proved for all inputs; nothing is executed.

* **Erasure coding.** `octet`, `gf256`, `linear`, `polynomial` and `reed_solomon` build GF(256) from its table
  construction and the Reed-Solomon codec from its Vandermonde matrix and Gauss-Jordan elimination, and prove that
  any K of the K+M shards determine the data; `plain_xor` settles when one parity shard is a plain exclusive or.
  `parity`, `erasure_write` and `erasure_finalize` follow blocks of any size through lazily grown parity buffers,
  full and partial stripes, the map and the footer; `erasure_collect`, `erasure_groups` and `erasure_classes` say
  which blocks the other groups take and that each of them is in its group; `erasure_map`, `erasure_read` and
  `erasure_theorem` load the map of a damaged image and rebuild the blocks byte for byte, and `erasure_recovery`
  carries every block the writer accumulated through to the reader. `batch_recovery` does the
  same for secondary tables and metadata, `table_recovery` from the close to the loaded table, and `lone_table` is
  an image that cannot be recovered. The checksum is any function; that damage shows in it, and that every parity
  shard a reader takes is intact, are hypotheses (`ErasureRead.DamageShows`, `ErasureRecovery.DamageReported`).
* **Closing an image.** `block_index`, `file_regions` and `close_tracking` hold the invariant of a close: nothing is
  lost, blocks never overlap, the index is the result of the steps taken, and the two levels of the deduplication
  table agree. `close_write` has the writers, `close_finalize` their sequence, `index_block` and `ddt_table` the
  formats and their readers, `disk_layout` the place of every field on disk, `close_theorem` and `flux_read` what a
  reader finds afterwards, tables and captures, and `protected_close` the close of an image with erasure coding.
  `write_session` has the data blocks and table flushes before it. `create_layout` is the layout of a new image.
* **Cache.** `lru` is the hash table with its insertion list; `lru_runs` proves stack inclusion between budgets and
  single release of every pointer over whole runs.
* **Blocks with a codec of their own.** `dump_hardware` and `metadata`.
* **Logger.** `log_init`, a state machine over any number of threads.

File writes are assumed to succeed. Compression is a pair of functions of which decompression undoes compression
on the table at hand (`DdtTable.Undoes`, met by `DdtTable.LzmaPairExists`), and the `inflate` parameter of
`ErasureRead`.

## Where code and documentation differ

The model follows the code.

* `include/aaruformat/structs/erasure.h` promises a checksum of the padded shard in every group; the data group
  uses the actual block size when writing and reading (src/erasure.c:287, src/erasure.c:1360), the other groups
  write the padded checksum (src/erasure.c:486) and read the unpadded one (src/erasure.c:864), so a short block
  of those groups counts as erased (`ErasureTheorem.UndamagedIsAcceptedIff`, with a witness in
  `ErasureTheorem.ShortBlockIsErased`), and a stripe with more than M of them is not recovered even undamaged
  (`BatchRecovery.UndamagedBatchIff`).
* The secondary tables get a group of their own, but a reader makes recovery available for data and metadata stripes
  only (src/erasure.c:1288). An image with protected secondary tables, without data blocks and without a metadata
  group, gives nothing back: `BatchRecovery.AvailableExactlyWhen` has the exact condition and
  `LoneTable.LoneTableIsLost` an image.
* A flushed secondary table is appended at the aligned end of the file even when that lies in the reserved region
  of the primary table (src/close_write.c:84-101). That is so in a new two-level image without data blocks, whose
  sectors are all generated when read (src/write.c:315-329); the table is lost
  (`CloseTheorem.FlushNeedsRoom`, `CloseTheorem.TableWithoutRoomIsLost`).
* After a flush between data blocks the next block is placed behind the uncompressed size of the table
  (src/ddt/ddt_v2.c:1666-1669), which its properties can exceed (`WriteSession.NextBlockIsClearIff`,
  `WriteSession.RoomyAlignment`, `WriteSession.CrampedTable`).
* src/lib/reed_solomon.h says that with one parity shard every coefficient is 1. That is so exactly
  when K+1 is a power of two. For K = 2 the coefficients are 3 and 2
  (`PlainXor.PlainXorExactlyWhen`, `PlainXor.TwoShardsAreWeighted`).
* The recovery footer has 179 bytes, not 160 (include/aaruformat/structs/erasure.h:105), and the dump-hardware
  header 18, not 16 (src/dump.c:116).
* src/create.c:248 gives 138,412,552 sectors as the limit for a single table; the code uses 8,388,608.
* A map of more than 256 MiB is written but not accepted when read (`ErasureTheorem.MapFound`).
* Only the title setter marks the metadata block dirty (src/metadata_write.c:670), so in an image opened again
  other changes alone are not written: `Metadata.SetAndClose` has the exact condition and
  `Metadata.CreatorAloneIsLost` an input. A new image starts dirty (src/create.c:631).
* A clearer that empties the metadata block takes it away, but an empty value of another field brings it back,
  where `malloc(0)` gives a buffer (`Metadata.EmptyBufferBringsBlockBack`).
* Flux blocks do not mark the index dirty (src/close_write.c:5066-5079, 5408-5411): an image opened again and
  closed with nothing but new captures keeps its old index (`CloseFinalize.CloseWithCaptures`). What does mark it
  is `CloseFinalize.Marks`, and `CloseFinalize.FinalizeWrite` proves that nothing else does.
* A reader takes the first flux block of the index (src/blocks/flux.c:416-445), and a close appends its own behind
  those already there: captures added to an image that had some are not found (`FluxRead.EarlierFluxIsRead`).
* The fallback of the logger for compilers without atomics starts it once exactly when there is at most one thread
  (`LogInit.PlainClaimOnceIff`).

## Model

| member | source | states |
|---|---|---|
| GF256.OrderOfGenerator | src/lib/gf256.c:51-71 | the generator 2 with reduction polynomial 0x11D has order exactly 255 |
| GF256.EveryByteIsAPower | src/lib/gf256.c:51-71 | every nonzero byte is a power of the generator, so the logarithm table is total on nonzero bytes |
| GF256.PowersAreDistinct | src/lib/gf256.c:51-71 | the first 255 powers of the generator are distinct |
| GF256.InitTables | src/lib/gf256.c:51-71 | the table-building loop fills the exponent table, with its wrap-around copy, and the logarithm table |
| GF256.Multiply | src/lib/gf256.c:77-82 | the product read from the tables, with its zero case, is the field product |
| GF256.Inverse | src/lib/gf256.c:92-97 | the inverse read from the tables times its argument is 1 |
| GF256.MulRegion | src/lib/gf256.c:114-133 | the nibble-table path adds the coefficient times each source byte to the destination, in place, and touches nothing past the length |
| GF256.AddLaws | src/lib/gf256.c:135-151 | exclusive or is a commutative group of exponent two |
| GF256.MulAssoc | src/lib/gf256.c:77-82 | the table product is associative |
| GF256.MulComm | src/lib/gf256.c:77-82 | the table product is commutative |
| GF256.MulAdd | src/lib/gf256.c:77-82 | the table product distributes over exclusive or on both sides |
| GF256.MulInv | src/lib/gf256.c:92-97 | every nonzero byte times its inverse is 1, on both sides |
| Linear.NoPivotMeansSingular | src/lib/reed_solomon.c:99-103 | when the pivot search of a column fails, the matrix given was singular |
| Linear.LeftInverseIsRightInverse | src/lib/reed_solomon.c:84-148 | the inverse the elimination produces is two-sided |
| Polynomial.RootsBound | src/lib/reed_solomon.c:58-74 | a polynomial with as many distinct roots as coefficients is zero |
| Polynomial.ValuesDeterminePolynomial | src/lib/reed_solomon.c:58-74 | a polynomial with K coefficients is determined by its values at any K distinct points |
| ReedSolomon.ClearColumn | src/lib/reed_solomon.c:97-144 | one pass of the elimination either clears a column in both matrices or shows that the matrix is singular |
| ReedSolomon.InvertMatrix | src/lib/reed_solomon.c:84-148 | in-place Gauss-Jordan elimination succeeds exactly on nonsingular matrices and then holds the inverse |
| ReedSolomon.BuildVandermonde | src/lib/reed_solomon.c:58-74 | row i, column j of the matrix is point i to the power j, zero to the zero being one |
| ReedSolomon.VandermondeNonsingular | src/lib/reed_solomon.c:58-74 | the top square of the Vandermonde matrix always inverts |
| ReedSolomon.ExtrapolationMatrix | src/lib/reed_solomon.c:164-197 | the Vandermonde matrix times the inverse of its top is a coding matrix: row i extrapolates a polynomial from points 0 to K-1 to point i |
| ReedSolomon.RsCreate | src/lib/reed_solomon.c:150-199 | a codec is built for exactly the parameters with K, M at least one and K+M at most 255 |
| ReedSolomon.Systematic | src/lib/reed_solomon.c:181-197 | data shards pass through the coding matrix unchanged |
| ReedSolomon.MaximumDistanceSeparable | src/lib/reed_solomon.c:232-266 | any K rows of the coding matrix are independent, so any K of the K+M shards determine the data |
| ReedSolomon.CodecIsUnique | src/lib/reed_solomon.c:150-199 | the parameters determine the coding matrix: a codec rebuilt by a reader is the codec of the writer |
| ReedSolomon.PickSurvivors | src/lib/reed_solomon.c:236-246 | the first K shards that are present, in order, all distinct |
| ReedSolomon.RsDecode | src/lib/reed_solomon.c:218-300 | decoding fails exactly with more than M erasures, leaves surviving shards alone, and fills every erased shard with the codeword the survivors determine |
| PlainXor.Proportional | src/lib/reed_solomon.c:164-197 | a polynomial that vanishes at all the given points but one is proportional to their product, so coding coefficients are ratios of such products |
| PlainXor.CoefficientIsRatio | src/lib/reed_solomon.c:208-216 | with one parity shard the coefficient of shard j times the product of its differences to the other points is that product at the parity point |
| PlainXor.PlainXorExactlyWhen | src/lib/reed_solomon.h:72 | with one parity shard every coefficient is 1 exactly when K+1 is a power of two; the header promises it for every K |
| PlainXor.TwoShardsAreWeighted | src/lib/reed_solomon.h:72 | the promise fails for K = 2: the coefficients are 3 and 2 |
| Parity.ParityOfOneMore | src/erasure.c:295-303 | one more block adds its coefficient times its byte to each parity byte, and nothing past its own end |
| Parity.ParityTailIsZero | src/erasure.c:358-370 | parity past the largest block of the stripe is zero, so cutting it there loses nothing |
| Parity.StripeIsCodeword | src/erasure.c:1322-1394 | data blocks, zero-filled unused positions and parity, all padded to any shard size, form a codeword of the K+M code |
| ErasureWrite.SetErasureCoding | src/erasure.c:82-146 | erasure coding is switched on for exactly K, M at least one, K+M at most 255 and, in the XOR mode, M equal to one |
| ErasureWrite.HeadroomCoversBlock | src/erasure.c:239-254 | the 25% headroom, computed in 32 bits, covers the block exactly when the sum does not wrap |
| ErasureWrite.FirstBuffers | src/erasure.c:236-248 | freshly allocated parity buffers are the parity of no blocks |
| ErasureWrite.LargerBuffers | src/erasure.c:249-264 | growing the parity buffers in mid-stripe with zeros keeps them the parity of the open blocks at the larger size |
| ErasureWrite.AccumulateParity | src/erasure.c:266-305 | accumulating only the bytes of the block turns the parity of the open blocks into the parity of one more |
| ErasureWrite.LargestBlock | src/erasure.c:363-370 | the loop over the recorded sizes finds the size of the largest open block |
| ErasureWrite.WriteParityBlocks | src/erasure.c:372-414 | the M parity blocks are appended at aligned positions behind the end, cut at the largest block, and hold the parity of the open blocks |
| ErasureWrite.CloseStripe | src/erasure.c:323-431 | flushing records a descriptor of the open blocks and their parity, all on disk, and resets the buffers; earlier stripes stay as they were |
| ErasureWrite.Writer.constructor | src/erasure.c:122-138 | a writer starts with no stripe, no buffer and an empty history |
| ErasureWrite.Writer.PrepareBuffers | src/erasure.c:233-264 | before a block is accumulated the buffers exist and are large enough, and still hold the parity of the open blocks |
| ErasureWrite.Writer.FlushStripe | src/erasure.c:323-431 | flushing closes exactly the open stripe, keeps the history, only appends to the file, indexes exactly the parity blocks of the stripe, in order, and does nothing when no block is open |
| ErasureWrite.Writer.AccumulateBlock | src/erasure.c:209-315 | a block joins the open stripe; the stripe is flushed when it has K blocks, so the completed ones are always full |
| ErasureWrite.Writer.WriteBlock | src/write.c:1684-1766 | closing a data block writes it at the next position, indexes it and, when it fills a stripe, exactly the parity of that stripe, accounts for it in write order and keeps everything accounted for before |
| WriteSession.FlushBetween | src/ddt/ddt_v2.c:1498-1692 | a table that was never written is flushed between two data blocks: appended at the aligned end, its primary entry set to exactly that position and indexed, the next block placed behind its uncompressed size, and every block stays accounted for |
| WriteSession.RunSession | src/ddt/ddt_v2.c:1498-1692 | data blocks and table flushes in any order and number: the blocks are accounted for in the order written; the index gains exactly these data blocks and the parity of the stripes they fill, each in order, and one table for each flush; the last table flushed for each primary entry is on disk where the entry points, behind the old end of the file, and indexed, up to what a later data block may take; all other primary entries are unchanged |
| WriteSession.WriteAndClose | src/close_write.c:5555-5702 | a session and then the close: the finalized image has every block of the session, in the order written, and the open one, and unless a task of the close discards data blocks the index has exactly their entries behind those of before; each table flushed last for its primary entry is still on disk and indexed, unless the close flushes that entry anew |
| WriteSession.NextBlockIsClearIff | src/ddt/ddt_v2.c:1666-1669 | the next data block leaves what a flushed table declares alone exactly when that does not exceed the uncompressed size by more than aligning leaves |
| WriteSession.RoomyAlignment | src/ddt/ddt_v2.c:1666-1669 | aligning to 256 bytes or more always leaves enough |
| WriteSession.CrampedTable | src/ddt/ddt_v2.c:1666-1669 | with an alignment of two bytes, a table of two entries that shrinks by one byte loses its end to the next data block |
| ErasureFinalize.PaddingKeepsPayload | src/erasure.c:439-532 | the parity of blocks padded to the shard size, cut at the largest block, is the parity of the blocks |
| ErasureCollect.GatherEntries | src/erasure.c:540-579 | counting and then gathering yields the selected index entries in index order |
| ErasureCollect.SelectionStays | src/erasure.c:646-690 | parity blocks indexed while groups are written change no later selection |
| ErasureCollect.NextIsLeast | src/erasure.c:706-715 | the scan finds the least offset above that of the block |
| ErasureCollect.CollectSelected | src/erasure.c:537-727 | the entries of one kind with the sizes their headers declare, or the gap to the next block |
| ErasureCollect.Collect | src/erasure.c:618-749 | what each batch group collects: tables by level, metadata only up to 255-M blocks, the index only when the header points at one |
| ErasureCollect.CollectedIsReadable | src/erasure.c:618-749 | in a sound image every collected block can be read whole, whatever parity has been appended since |
| ErasureFinalize.WriteBatchParity | src/erasure.c:439-532 | a batch of collected blocks, at most 255-M of them, gets one stripe with parity of the blocks as read; when they can be read whole the stripe is stored with checksums of the padded blocks |
| ErasureFinalize.ProtectBatches | src/erasure.c:618-749 | secondary tables, primary table, metadata and index are collected and protected in turn, each from the file and index the previous one left |
| ErasureFinalize.CountStripes | src/erasure.c:597-609 | walking the flat descriptor bytes counts the completed stripes |
| ErasureFinalize.StripeConservation | src/erasure.c:592-609 | N accumulated blocks end in ceil(N/K) stripes |
| ErasureFinalize.CloseDataGroup | src/erasure.c:592-618 | the serialized data group describes stripes that hold every accumulated block once, in write order, all full but the last |
| ErasureFinalize.WriteMap | src/erasure.c:768-820 | the map, its aligned duplicate behind it and a footer at the very end that points at the map |
| ErasureFinalize.Finalize | src/erasure.c:585-821 | the file only grows, the data group is stored with its parity, the batch groups are those the index leads to, each stored when its own blocks can be read whole, and the last bytes lead to the map of all groups |
| ErasureFormat.BlockHeaderRoundTrip | include/aaruformat/structs/data.h:70-80 | a serialized block header reads back |
| ErasureFormat.FooterRoundTrip | src/erasure.c:808-817 | the recovery footer, with the image header inside it, reads back |
| ErasureMap.ParseMap | src/erasure.c:1136-1281 | the cursor loop over groups, stripes and offsets computes the parse of the payload and stops, whatever the bytes are |
| ErasureMap.MapRoundTrip | src/erasure.c:1136-1281 | parsing the serialized groups restores every descriptor, stripe, data entry and parity offset and consumes the payload exactly |
| ErasureMap.StripesLookup | src/erasure.c:1190-1202 | an offset is in the lookup exactly when some block has it, and then leads to such a block |
| ErasureMap.LookupIsLinearSearch | src/erasure.c:1190-1260 | with distinct offsets the lookup of the data, secondary table and metadata groups agrees with a linear search |
| ErasureRead.ReadShards | src/erasure.c:1345-1428 | the shard buffers hold what was read, zero-padded, and the present flags say which reads succeeded: data with a matching checksum, parity as each of the two paths reads it |
| ErasureRead.CompressedShardExactlyWhen | src/erasure.c:1385-1426 | a compressed parity block gives a shard exactly when its method is known and it is longer than the properties, or not empty for Zstandard |
| ErasureRead.UsedShardsAreCodeword | src/erasure.c:1345-1428 | under the damage hypotheses every shard that is used is its part of the codeword of the written blocks |
| ErasureRead.RebuildShard | src/erasure.c:1326-1453 | rebuilding succeeds exactly with at most M erased shards and then returns the written block, zero-padded |
| ErasureRead.SectorOfPadded | src/erasure.c:1455-1512 | zero padding behind a recovered block does not change its sectors |
| ErasureRead.SectorIsChecked | src/erasure.c:1490-1503 | the sector cut from a recovered block is the one at its place, and there is one exactly when the place lies within the block |
| ErasureRead.Reader.LoadMap | src/erasure.c:1046-1297 | loading replaces the tables exactly when the footer leads to an acceptable map, compressed or not |
| ErasureRead.Reader.RecoverRawBlock | src/erasure.c:827-907 | recovery answers exactly when it is available, the block is known and at most M shards are erased, whatever compression a parity header declares, and then returns the written bytes |
| ErasureRead.Reader.RecoverDataBlock | src/erasure.c:1303-1538 | a recovered data block yields, byte for byte, the sector at the place its number says of the data behind its header; parity that declares LZMA or Zstandard is decompressed and used |
| ErasureTheorem.MapFound | src/erasure.c:1050-1132 | the footer leads to the written map, which is accepted exactly when its payload is at most 256 MiB |
| ErasureTheorem.MapFoundExactlyWhen | src/erasure.c:1046-1134 | a map is accepted, whoever wrote it, exactly when it is stored or compressed by LZMA or Zstandard, has between one byte and 256 MiB, and has the length and the checksum its header declares |
| ErasureTheorem.AvailableIff | src/erasure.c:1287-1289 | a loaded map makes recovery available exactly when a data or metadata group in it, not replaced by a later one, has stripes; the secondary table group does not count |
| ErasureTheorem.UndamagedIsAcceptedIff | src/erasure.c:486 | an undamaged block passes the reader's checksum exactly when the checksum does not tell it from its padded form: always in the data group, where nothing is padded |
| ErasureTheorem.ShortBlockIsErased | src/erasure.c:864 | an undamaged block of a batch group, shorter than its padding, that the reader refuses |
| ErasureTheorem.ErasedAreDamaged | src/erasure.c:1345-1362 | the shards a reader counts as erased are exactly those that are damaged or, in a batch group, shorter than the padding their checksum was computed with |
| ErasureTheorem.BlockIsRecoverable | src/erasure.c:1046-1297 | loading a damaged image gives tables under which the block is found and recoverable, and its erased shards are exactly the lost ones |
| ErasureTheorem.LoadAndRecover | src/erasure.c:827-907 | end to end for any group: a block comes back, byte for byte, exactly when some data or metadata group of the map has stripes and at most M shards of its stripe are lost, that is damaged or, in a batch group, shorter than their padding |
| ErasureTheorem.LoadAndReadSector | src/erasure.c:1303-1538 | end to end through the data path, with parity decompressed when it says so: the sector of the block as it was written, exactly when at most M shards are lost |
| ErasureTheorem.WrittenSector | src/erasure.c:1455-1512 | a written block yields a sector exactly when its sector size is positive and the sector lies within its data, and then byte i of it is byte sector times size plus i of the data |
| ErasureRecovery.DataOffsetsAreDistinct | src/erasure.c:1190-1202 | the writer puts every data block behind the ones before it, so no two entries of the data group share an offset |
| ErasureRecovery.BlockPosition | src/erasure.c:217-225 | block number s K + p of those accumulated is entry p of stripe s, with its bytes and its offset |
| ErasureRecovery.FinalizeImage | src/erasure.c:585-821 | finalizing leaves an image whose data group holds every block accumulated, where it was written, and whose footer leads to the map |
| ErasureRecovery.FinalizedIsRecoverable | src/erasure.c:1046-1297 | a finalized image meets what recovery needs: group stored, only one of its type, distinct offsets, descriptors that fit |
| ErasureRecovery.UndamagedIsReported | src/erasure.c:1046-1297 | an image as finalized meets these conditions in every stripe, with no shard lost |
| ErasureRecovery.RecoverBlock | src/erasure.c:827-907 | from writer to reader: block j of all those accumulated comes back byte for byte from the damaged file exactly when at most M shards of its stripe are lost |
| ErasureRecovery.RecoverSector | src/erasure.c:1303-1538 | from writer to reader through the data path: a sector is found exactly when enough shards survive and it lies within the data of the block, and byte i of it is byte sector times size plus i of the data the block was made from |
| BatchRecovery.AvailableExactlyWhen | src/erasure.c:1287-1289 | recovery of a finalized image is available exactly when a data block was accumulated or there are between 1 and 255-M metadata blocks |
| BatchRecovery.CollectedIsRecoverable | src/erasure.c:1046-1297 | a block of a batch that was read whole is entry p of the only stripe of its group, which meets what recovery needs |
| BatchRecovery.RecoverCollected | src/erasure.c:827-907 | from writer to reader for secondary tables and metadata: a collected block comes back byte for byte exactly when recovery is available and at most M shards of its stripe are lost |
| BatchRecovery.UndamagedBatchIff | src/erasure.c:864 | nothing damaged: the blocks of a batch group are recoverable exactly when at most M of them are shorter than the longest, under a checksum that tells blocks from their padded forms |
| LoneTable.LoneTableIsLost | src/erasure.c:1287-1289 | an image whose only block is a secondary table: its group is stored and nothing is damaged, but recovery gives nothing |
| Lru.EvictIsShortest | src/lru.c:94-107 | eviction drops exactly the shortest oldest-first prefix that restores the budget or leaves one entry, and never the newest entry |
| Lru.LinkedCount | src/lru.c:96 | the hash table has as many nodes as the insertion list |
| Lru.Cache.Find | src/lru.c:41-53 | a hit returns the value and moves the entry to the recent end; a miss changes nothing |
| Lru.Cache.Add | src/lru.c:68-108 | insertion or replacement, then eviction, is the operation on the recency list, with the byte count kept and the callback given the replaced value, unless it is the same pointer, and the evicted ones |
| Lru.Cache.EvictWhileOver | src/lru.c:94-107 | the eviction loop leaves the list that evicting in one go leaves, and releases the dropped values in order |
| Lru.Cache.DropOldest | src/lru.c:20-29 | dropping unlinks the oldest entry, lowers the byte count and releases its value once |
| Lru.Cache.Free | src/lru.c:118-128 | freeing drops every entry and releases every value left |
| LruRuns.StackInclusion | src/lru.c:41-108 | for budgets B1 and B2 with B2 unlimited or not below B1, over every trace of read-through accesses the small list is a suffix of the large one and every hit of the small cache is a hit of the large one |
| LruRuns.RunTrace | src/lru.c:41-108 | a trace on the real table is a run of the recency list, hit for hit |
| LruRuns.EveryPointerFreedOnce | src/lru.c:20-128 | whatever a disciplined caller does, each non-null pointer handed over is freed exactly once by the time the cache is freed |
| LruRuns.RunKeepsOwned | src/lru.c:68-108 | at every moment each pointer handed over is held once or has been released once, never both |
| LruRuns.Lifetime | src/lru.c:20-128 | the same on the real table, from creation to the freed cache |
| BlockIndex.EraseKind | src/close_write.c:533-541 | the backward loop erases exactly the entries of one kind |
| BlockIndex.ErasingKeepsOrder | src/close_write.c:533-541 | what is left are exactly the entries of other kinds, in their old order |
| BlockIndex.ErasingKeepsOtherKinds | src/close_write.c:854-864 | the entries of every other kind are untouched, and none of the erased kind is left |
| BlockIndex.EraseTable | src/close_write.c:222-234 | the forward loop erases the first secondary table entry at the cached offset and stops |
| BlockIndex.NewestBlockOnly | src/close_write.c:854-874 | over a whole series of index steps, a kind written once more and not touched later ends with exactly one entry, at that block |
| BlockIndex.StillIndexedIff | src/close_write.c:3187-3207 | a written block is still indexed at the end exactly when no later step discards its kind, so of two media tags with one data type only the later survives |
| BlockIndex.FlushKeepsCoherent | src/close_write.c:207-245 | a flush keeps primary entries and indexed secondary tables in agreement, the new primary entry shifted left is exactly the new offset, and the superseded entry stays only when the cached offset was zero |
| BlockIndex.OtherStepsKeepCoherent | src/close_write.c:4657-4721 | steps for blocks of other types leave the two levels in agreement |
| BlockIndex.ShiftIsExact | src/close_write.c:208-211 | shifting an aligned offset right and left again loses nothing |
| FileRegions.LaidAppend | src/close_write.c:84-101 | aligning to the end and appending keeps earlier blocks in place and apart, and puts the new one behind them |
| FileRegions.LaidPatch | src/close_write.c:247-262 | rewriting below the first appended block leaves the appended blocks alone |
| FileRegions.WriteKeeps | src/close_write.c:498-507 | a write at the end, in the image header or in the reserved region keeps every other byte |
| CloseTracking.TrackedPlace | src/close_write.c:84-101 | the shared append step keeps the whole invariant of a close |
| CloseTracking.TrackedFlush | src/close_write.c:70-279 | placing a secondary table and pointing its primary entry at it keeps the whole invariant |
| IndexBlock.HeaderRoundTrip | include/aaruformat/structs/header.h:106-124 | the image header of 147 bytes reads back |
| IndexBlock.ProcessIndex | src/index/index_v3.c:98-175 | the reader returns the entries at the position, or nothing when header, entry or length is wrong |
| IndexBlock.VerifyIndex | src/index/index_v3.c:408-553 | verification accepts exactly a whole index whose checksum matches |
| IndexBlock.IndexReadsBack | src/close_write.c:5462-5510 | the index that was written is the index that is read, and it verifies |
| DdtTable.DdtHeaderRoundTrip | include/aaruformat/structs/ddt.h:141-163 | the table header of 85 bytes reads back |
| DiskLayout.BlockHeaderLayout | include/aaruformat/structs/data.h:70-80 | every field of a block header lies, little-endian and packed, at its place |
| DiskLayout.TableHeaderLayout | include/aaruformat/structs/ddt.h:141-163 | the same of the 85 bytes of a table header |
| DiskLayout.ImageHeaderLayout | include/aaruformat/structs/header.h:106-124 | the index offset and the feature words lie at their places in the image header |
| DiskLayout.IndexHeaderLayout | include/aaruformat/structs/index.h:92-98 | identifier, count, checksum and previous index of an index block lie at their places |
| DiskLayout.IndexEntryLayout | include/aaruformat/structs/index.h:108-113 | the fields of an index entry lie at their places |
| DiskLayout.MapHeaderLayout | include/aaruformat/structs/erasure.h:49-59 | the fields of the erasure coding map header lie at their places |
| DiskLayout.GroupDescriptorLayout | include/aaruformat/structs/erasure.h:68-76 | the fields of a group descriptor lie at their places |
| DiskLayout.DataEntryLayout | include/aaruformat/structs/erasure.h:87-92 | the fields of a data entry of a stripe lie at their places |
| DiskLayout.StripeLayout | include/aaruformat/structs/erasure.h:78-101 | a stripe is its count, its data entries 20 bytes apart, and its parity offsets 8 bytes apart |
| DiskLayout.FooterLayout | include/aaruformat/structs/erasure.h:116-123 | map position, checksum, header copy and magic lie at their places in the 179 bytes of the footer |
| DiskLayout.FluxHeaderLayout | include/aaruformat/structs/flux.h:116-122 | the fields of the flux header lie at their places |
| DiskLayout.FluxEntryLayout | include/aaruformat/structs/flux.h:155-165 | the fields of a flux entry lie at their places |
| DiskLayout.CaptureLayout | include/aaruformat/structs/flux.h:242-251 | a capture block is a header whose stored length is that of the bytes behind it |
| DiskLayout.DumpHeaderLayout | include/aaruformat/structs/dump.h:90-96 | the fields of the dump-hardware header lie at their places |
| DdtTable.TableReadsBack | src/close_write.c:176-206 | a table loads again although five bytes too many follow an LZMA payload: the declared length covers exactly properties and payload |
| DdtTable.LzmaPairExists | src/close_write.c:196-205 | what is assumed of LZMA can be met by a pair that really shortens a table, so that the surplus bytes occur |
| DdtTable.StoredReadsBack | src/close_write.c:338-353 | a table stored without compression loads again |
| DdtTable.LoadedExactlyWhen | src/ddt/ddt_v2.c:985-1259 | a table block loads, whoever wrote it, exactly when it is user data of the level asked for, stored or compressed, LZMA behind five bytes of properties, and of the length and checksum declared |
| CloseWrite.BuildTapeTable | src/close_write.c:677-708 | the dense tape table has every entry of the sparse one in its slot, zeros elsewhere, and no slot past the largest key |
| CloseWrite.ImageWriter.Place | src/close_write.c:775-785 | a block goes to the aligned end of the file and everything in the file stays |
| CloseWrite.ImageWriter.WriteJob | src/close_write.c:888-952 | a block of a kind that exists once is appended, its older entries leave the index and it is indexed, unless its payload is empty |
| CloseWrite.ImageWriter.ClearKind | src/close_write.c:4657-4670 | clearing a block removes its entries and marks the index only if there were any |
| CloseWrite.ImageWriter.FlushSecondary | src/close_write.c:70-279 | the cached table is appended, its primary entry set to its position, its index entry moved and the primary table rewritten in place, with nothing else changed |
| CloseWrite.ImageWriter.WritePrimary | src/close_write.c:300-387 | the primary header and table are rewritten in their reserved place and indexed once |
| CloseWrite.ImageWriter.WriteSingleLevel | src/close_write.c:405-559 | the single-level table is appended, compressed when that helps, and indexed once |
| CloseWrite.ImageWriter.WriteTape | src/close_write.c:669-712 | the tape table is made dense and written as a single-level one |
| CloseWrite.ImageWriter.WriteCapture | src/close_write.c:4907-5087 | a capture of less than 4 GiB is appended and indexed, and its entry records its position shifted right and where its index buffer starts |
| CloseWrite.ImageWriter.WriteFlux | src/close_write.c:5322-5426 | flux is written exactly when there are at most 65535 captures, each below 4 GiB: every entry, shifted left, is where its payload block is, and payloads and metadata are indexed |
| CloseWrite.CapturesPush | src/close_write.c:5066-5079 | the shift between a flux entry and its payload position loses nothing |
| FluxRead.PayloadReadsBack | src/blocks/flux.c:851-1143 | the payload block of a capture, compressed or not, is read back to the bytes it was made from, past all length and checksum checks |
| FluxRead.PayloadReadExactlyWhen | src/blocks/flux.c:851-1143 | a payload block is read, whoever wrote it, exactly when identifier, type and compression are known and lengths and both checksums are right |
| FluxRead.FluxReadsBack | src/blocks/flux.c:308-405 | the flux metadata block reads back to the shift and the entries written |
| FluxRead.LastOfKey | src/blocks/flux.c:172-196 | of several captures with one key, the last one is found |
| FluxRead.EarlierFluxIsRead | src/blocks/flux.c:416-445 | the flux block read is the first of the index, so captures added to an image that had some are not found |
| FluxRead.CapturesReadBack | src/blocks/flux.c:1258-1391 | from the closing writer to the reader: looking a capture up by its key in an image whose only flux block is the one written gives exactly its data and its index buffer |
| CloseWrite.ImageWriter.WriteIndex | src/close_write.c:5443-5541 | the index is appended at an aligned position, and a non-empty one makes the header on disk point at it |
| CloseFinalize.TaskSettles | src/close_write.c:5624-5681 | after one more block writer, every block that no later one discarded is still the only one of its kind and still where its entry points |
| CloseFinalize.WriteTasks | src/close_write.c:5634-5681 | after all block writers the same holds of all of them, flux entries and the table entry are still there and the file has only grown |
| CloseFinalize.WriteTables | src/close_write.c:5586-5617 | tape, secondary, primary or single-level table: each that is pending ends on disk where primary entry and index say |
| CloseFinalize.FinalizeWrite | src/close_write.c:5555-5702 | the whole sequence: tables, every surviving block, flux, and a header on disk equal to the one in memory, of which only the index offset and the BLAKE3 bit may differ from before; index entries of kinds no task discards are the same ones in order; the index is written anew exactly when it was marked before, a table is pending, or a task indexes a block or clears one that is there, and the header then leads to it, else the header keeps its old position |
| CloseFinalize.CloseWithCaptures | src/close_write.c:5066-5079 | an image opened again and closed with nothing but captures: they are indexed in memory, while header and index on disk stay those of before |
| CloseTheorem.CloseImage | src/close_write.c:5555-5702 | a close from the header rewrite and the current data block to the index, which is written exactly when something known before the call marks it |
| CloseTheorem.NothingIsLost | src/close_write.c:5555-5702 | every byte in the file before the close is there after it, but for the image header, the reserved table region and what lay under the current block |
| CloseTheorem.CurrentBlockIsKept | src/close_write.c:5574-5581 | the data block that was open is on disk after the close |
| CloseTheorem.BlocksNeverOverlap | src/close_write.c:84-101 | blocks written by a close are aligned, start at or behind the old end, do not overlap and are intact at the end |
| CloseTheorem.IndexIsFound | src/close_write.c:5462-5518 | the header read from the file leads to an aligned position at which exactly the index as it stood is read and verified |
| CloseTheorem.AppendingKeepsTheImage | src/close_write.c:5691-5692 | whatever is appended afterwards leaves header, index and blocks as they are |
| CloseTheorem.PrimaryReadsBack | src/close_write.c:338-353 | the primary table on disk loads to the table in memory |
| CloseTheorem.LookUpAfterClose | src/ddt/ddt_v2.c:985-1259 | a sector looked up through both tables on disk after the close finds the entry that was set in the cached table |
| CloseTheorem.SingleLookUpAfterClose | src/ddt/ddt_v2.c:805-859 | after the close the only primary index entry leads to the single-level table, and any slot looked up there gives the entry that was in memory |
| CloseTheorem.FlushedHeader | src/close_write.c:118-160 | the header of a flushed table on disk: level, back pointer, size and checksum of its contents, and the sectors it covers |
| CloseTheorem.SingleHeaderOnDisk | src/close_write.c:405-520 | the header of a single-level table on disk: level, counts, size and checksum of its contents |
| CloseTheorem.TapeHeaderOnDisk | src/close_write.c:669-712 | the header of a tape table on disk counts the slots of the dense table and covers nothing before or behind them |
| CloseTheorem.PrimaryHeaderOnDisk | src/close_write.c:300-353 | the header of the primary table on disk: uncompressed, with size and checksum of the table behind it |
| CloseTheorem.FlushNeedsRoom | src/close_write.c:84-101 | an appended secondary table and the rewritten primary table stay clear of each other exactly when the aligned end of the file lies behind the reserved region |
| CloseTheorem.TableWithoutRoomIsLost | src/close_write.c:84-101 | a new two-level image without data blocks: the cached table is put where the primary table goes and is overwritten, so none of its sectors can be looked up afterwards |
| ProtectedClose.BookedAfterClose | src/close_write.c:5443-5541 | rewriting header and primary table leaves everything the erasure coding layer has accounted for in place |
| ErasureGroups.OneGroupOfEachType | src/erasure.c:610-780 | no two groups of the written map have the same type, so a reader loads each of them |
| ErasureGroups.SoundImageIsReadable | src/erasure.c:618-749 | when the index leads to whole blocks, every collected block can be read, so the image is protected as a whole |
| ErasureGroups.PackedTableIsWhole | src/erasure.c:540-579 | a compressed table declares header, properties and payload, and all of that is in the file |
| ErasureGroups.StoredTableIsWhole | src/erasure.c:540-579 | a table stored without compression declares exactly itself |
| ErasureGroups.EveryTableIsProtected | src/erasure.c:618-634 | every secondary and primary table the index leads to, up to 255-M of each, is in its group byte for byte |
| ErasureGroups.EveryMetadataBlockIsProtected | src/erasure.c:636-734 | every metadata block, when there are at most 255-M, is in its group with everything up to the next block |
| ErasureClasses.SelectsIff | src/erasure.c:646-690 | a group selects an index entry exactly when its block and data types say so: 0x53544444 and 0x32544444 for the table levels, and for metadata everything but data blocks of type 1 and 104 to 108, tables and index blocks |
| ErasureClasses.EveryBlockIsCollected | src/erasure.c:618-749 | an offset is in the batch of a group exactly when the index has an entry of the class of that group there, the metadata group up to 255-M entries |
| ErasureClasses.MetadataIsProtected | src/erasure.c:636-734 | a metadata block, media tags included, is in its group from its first byte on; a data block that declares its length, and any other block with nothing inside it, with all of its bytes |
| ErasureGroups.GapCoversBlock | src/erasure.c:704-726 | the gap taken for the size of a metadata block is never shorter than the block |
| ErasureGroups.IndexIsProtected | src/erasure.c:736-749 | the index the header points at is a group of its own, byte for byte |
| ErasureGroups.DeclaredTableLoads | src/close_write.c:196-205 | a secondary table cut to its declared size, without the surplus bytes of an LZMA payload, still loads |
| ProtectedClose.CloseProtected | src/close_write.c:5684-5692 | a whole close of a protected image: header, open data block, closing writer, erasure coding; header, index and blocks stay, and what is left is a finalized image of every block accumulated, the open one included |
| ProtectedClose.StartClose | src/close_write.c:5559-5581 | the header is rewritten and the open data block written, indexed and accounted for like the ones before it |
| ProtectedClose.ClosedIsCollectable | src/erasure.c:618-749 | what a close writes can be collected whole: secondary, primary, single and tape tables and the index, and flux whose following block is less than 4 GiB away |
| ProtectedClose.ClosedBlockIsProtected | src/close_write.c:5684-5692 | every block the close leaves indexed that is metadata by its types is in the metadata group from its offset on |
| ProtectedClose.FlushedTableIsProtected | src/close_write.c:5684-5692 | the secondary table flushed by the close is in its group, and what the group restores loads as the table |
| TableRecovery.RecoverFlushedTable | src/erasure.c:918-926 | from the closing writer to a damaged image: the block rebuilt at the place the primary entry names loads as the table that was in memory, exactly when recovery is available and at most M shards are lost |
| ProtectedClose.FooterHoldsTheHeader | src/erasure.c:808-817 | the header copy in the recovery footer is the header at the start of the file, and its checksum is right |
| CreateLayout.Context.LayOut | src/create.c:427-533 | the layout of flux-only, block and tape images: table shift, number of entries, table offset, first block position and whether there is a user table, in 64-bit arithmetic |
| CreateLayout.CountEntries | src/create.c:484-488 | the number of entries is the least, at least one, whose groups cover the blocks |
| CreateLayout.EverySectorHasASlot | src/create.c:484-488 | every sector has its slot in the primary table and the last sector uses the last slot |
| CreateLayout.RegionIsEnough | src/create.c:504-520 | header and entries of the primary table fit between its offset and the first data block, and any end of file at or behind the first block keeps appended blocks clear of it |
| DumpHardware.ParseEntries | src/dump.c:587-679 | the parser accepts exactly the declared number of entries filling the block; every string keeps its length and its bytes but the last, which becomes zero, and the extents are sorted |
| DumpHardware.EntryReadBack | src/dump.c:607-647 | an entry that was serialized is read back, wherever it lies |
| DumpHardware.EntriesBack | src/dump.c:607-671 | what the parser read is what the bytes serialize: parsing loses nothing |
| DumpHardware.SortExtents | src/helpers.c:513-521 | extents sorted by start, none lost |
| DumpHardware.CanonicalKeepsSizes | src/dump.c:647-671 | canonicalizing changes no size, so the declared length still holds |
| DumpHardware.CanonicalMeans | src/dump.c:607-671 | a canonical entry has its strings with the last byte zero and all others as they were, and the same extents by start |
| DumpHardware.CanonicalTwice | src/dump.c:647-671 | canonicalizing again changes nothing up to extents with equal starts, and nothing at all without them |
| DumpHardware.PrintEntries | src/dump.c:260-357 | the printer fills the buffer exactly when the declared length has room |
| DumpHardware.DumpContext.SetDumpHardware | src/dump.c:531-687 | a block is accepted exactly when identifier, length, checksum and entries are right, and its strings are kept with their last byte zero and all others as given; a refused one changes nothing |
| DumpHardware.DumpContext.GetDumpHardware | src/dump.c:186-369 | the block of the entries with its checksum recomputed; the only refusals are no entries and a buffer that is too small |
| DumpHardware.DumpContext.WriteDumpHardware | src/close_write.c:4210-4317 | the closing writer emits the same bytes as the getter |
| DumpHardware.BlockIsAccepted | src/dump.c:531-687 | a printed block is accepted and holds exactly its entries |
| DumpHardware.SetGetSet | src/dump.c:186-687 | get after set returns a block of the same length whose entries are those given, every string ending in zero and otherwise unchanged, and setting it again changes nothing up to ties |
| LogInit.Compare | src/log.c:74-85 | the comparison is zero exactly for strings that differ in case only |
| LogInit.ConfiguredIsResolved | src/log.c:107-130 | the level and the stream follow from the two settings: none, off and fatal in any case name their levels, anything else logs everything, and the file is used when it is named, opens and logging is on |
| LogInit.StepKeepsInvariant | src/log.c:93-127 | every step of every thread keeps the invariant of the start-up protocol |
| LogInit.RunKeepsInvariant | src/log.c:93-127 | the invariant holds in every world any number of threads can reach |
| LogInit.ClaimedOnce | src/log.c:54-60 | no run has two winning claims: at most one thread ever initializes |
| LogInit.NobodyLeavesEarly | src/log.c:98-106 | whoever leaves the function leaves with final stream and level in place, those the settings spell |
| LogInit.ReadyIsFinal | src/log.c:93-127 | once ready, nothing changes the variables |
| LogInit.SpinnersAreReleased | src/log.c:102-106 | while a thread spins, some thread is initializing and at most four of its steps release it |
| LogInit.PlainClaimOnceIff | src/log.c:64-69 | with the plain test and store of compilers without atomics, some run claims twice exactly when there is more than one thread |
| LogInit.AtomicClaimOnce | src/log.c:54-60 | with the compare-and-swap no run claims twice, however many threads there are |
| Metadata.MetadataContext.SetField | src/metadata_write.c:394-446 | a setter stores its field and marks the block present; only the title setter marks it dirty |
| Metadata.MetadataContext.ClearField | src/metadata_write.c:2109-2166 | a clearer empties its field, does nothing without a block, and takes the block away with the last thing in it |
| Metadata.MetadataContext.SetMediaSequence | src/metadata_write.c:263-305 | the sequence numbers are stored and the block marked present |
| Metadata.MetadataContext.ClearMediaSequence | src/metadata_write.c:1978-2030 | the sequence numbers are cleared under the same rules |
| Metadata.LastValueIsKept | src/metadata_write.c:394-446 | over any series of calls on a new image a field holds the last value set and not cleared since, and anything set marks the block present |
| Metadata.LastSequenceIsKept | src/metadata_write.c:263-305 | the sequence numbers are the last ones set and not cleared since |
| Metadata.PresentExactlyWhen | src/metadata_write.c:1978-2030 | a new image has a metadata block after a series of calls exactly when the last call set something or something set earlier is left |
| Metadata.MetadataContext.WriteMetadata | src/close_write.c:3912-4015 | nothing is written exactly when there is no block, no sequence number and no buffer for any field; else the header with offsets and lengths, and the fields behind it in order |
| Metadata.RangesFillTheBlock | src/close_write.c:3923-4015 | field ranges follow each other without overlap from the end of the header to the block size |
| Metadata.FieldsReadBack | src/close_write.c:3937-4015 | slicing the block at the stored offset and length of a non-empty field returns the field |
| Metadata.MetadataContext.CloseMetadata | src/close_write.c:5669-5670 | the close writes the block exactly when it is marked as changed and there is something in it |
| Metadata.SetAndClose | src/close_write.c:5669-5670 | over any series of calls and then the close, the block is written exactly when it was marked at the start or a title was set, and something is in it; its slices are the values set and its numbers the last ones |
| Metadata.SetAndCloseNew | src/metadata_write.c:394-446 | over any series of calls on a new image and then the close, slicing the block gives the last value set for every field, and its two numbers are the last ones set |
| Metadata.CreatorAloneIsLost | src/metadata_write.c:394-446 | in an image opened again, setting the creator alone leaves a block that the close does not write |
| Metadata.EmptyBufferBringsBlockBack | src/close_write.c:3912-3921 | after a clearer took the block away, an empty value of another field still makes the writer emit one |

## Left out

- Real file input and output, failing writes, allocation failures and the threads inside compressors.
- Compression codecs, checksums and hashes: functions given as parameters.
- SIMD paths of the field arithmetic; the portable nibble path is modelled.
- Slots 1 to K-1 of the stripe tracking arrays: the source always uses slot 0.
- A map that declares no compression and a stored length other than its length, one that decompresses to another length, or an unknown method: the source reads into a buffer it then leaves partly unset or writes past; the model refuses the map.
- ErasureFinalize.Finalize: a collected block that cannot be read whole is accumulated with zeros for its missing bytes, as in the source, and no recovery of its group is claimed.
- ErasureRead.Reader.RecoverRawBlock: takes loaded tables whose stripes were parsed whole; the source does not check that of a truncated map with a matching checksum.
- ErasureWrite.Writer.AccumulateBlock: takes blocks whose size plus headroom fits 32 bits; `HeadroomCoversBlock` says exactly when that is so.
- Lru.Cache.Add: takes sizes whose sum stays below 2^64; beyond, the counter of the source wraps.
- Caching of recovered blocks (src/erasure.c:1516-1524).
- CloseTheorem.CloseImage: the end of the file must have passed the reserved table region, which the source does not check; `FlushNeedsRoom` says what that condition is.
- ErasureRecovery.RecoverSector: sector numbers whose product with the sector size reaches 2^64, which wraps in the source.
- FluxRead.CapturesReadBack: captures whose stored length, with the properties of the compressor, reaches 4 GiB, and images with more than one flux block.
- CloseWrite.ImageWriter.WriteJob: takes the contents of the simple blocks as given; only tables, flux, index, metadata and dump hardware are modelled down to their bytes.
- Tables of 4 GiB or more, whose compressed length the source cuts to 32 bits.
- Table shifts of 31 or more, for which the shift of an `int` in src/close_write.c:117 is undefined.
- WriteSession.FlushBetween: the flush of a table that was never written (src/ddt/ddt_v2.c:1498-1692), after a first data block; not the one of a table loaded from an image opened again (src/ddt/ddt_v2.c:1695-1904), nor the choice of the table for a sector.
- BatchRecovery.RecoverCollected: for metadata blocks takes an index that has each of them at a place of its own; for secondary tables that is derived.
- IndexBlock.ProcessIndex: refuses an index with subindexes, which the reader would follow; this writer never writes one.
- Metadata.MetadataContext.WriteMetadata: takes fields of less than 2 GiB in all; beyond, sizes and positions of the source wrap.
- DumpHardware.SortExtents: any sort by start, where the source calls `qsort`; the order of equal starts is left open.
- Sector write path, deduplication, media tags other than as blocks, sector read and open paths other than those named above.
- Messages of the logger, their formatting, and the reset used by tests.
- `aaruf_set_erasure_coding_auto`, which computes K and M from a percentage and calls the setter; the LISA tag conversions, fixed bit-field copies; the tables from image formats and media types to numbers; getters that copy a stored field.
- Whether the Zstandard feature bit matches the file: it is computed before the closing blocks are written.
