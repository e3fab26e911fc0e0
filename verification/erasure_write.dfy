/** The write path of src/erasure.c: parity accumulated one block at a time, stripes flushed when
    full, and the map and recovery footer written when the image is closed.
 */
module ErasureWrite {
  import opened Wrappers
  import opened Octet
  import opened GF256
  import opened Linear
  import opened ReedSolomon
  import opened ImageFile
  import opened ErasureFormat
  import opened Parity

  const TYPE_ERASURE_PARITY: nat := 104
  const TYPE_PARITY_INDEX: nat := 108
  const ALGORITHM_XOR: nat := 0

  // ---- What is on disk ----

  function ParityHeader(crc: Crc64, kind: nat, payload: Bytes): BlockHeader {
    BlockHeader(DATA_BLOCK, kind, COMPRESSION_NONE, 0, |payload|, |payload|, crc(payload), crc(payload))
  }

  function ParityBlock(crc: Crc64, kind: nat, payload: Bytes): Bytes {
    ParityHeader(crc, kind, payload).Encoded() + payload
  }

  /** A stripe together with the bytes of the blocks it protects. */
  datatype StripeRecord = StripeRecord(stripe: Stripe, contents: seq<Bytes>)

  /** `disk` holds a block where its entry says, and the entry records its size and the checksum of
      its bytes padded to `pad` (no padding in the data group). */
  ghost predicate EntryStored(disk: Bytes, crc: Crc64, pad: nat, e: DataEntry, content: Bytes) {
    && e.onDiskSize == |content| && e.shardCrc64 == crc(Padded(content, pad))
    && 0 < |content| < 0x1_0000_0000 && Holds(disk, e.offset, content)
  }

  /** `disk` holds the blocks of a stripe and their parity, cut at the largest block. */
  ghost predicate StripeStored(disk: Bytes, c: Codec, crc: Crc64, pad: nat, kind: nat, r: StripeRecord) {
    && Shaped(c) && 0 < |r.contents| == |r.stripe.entries| <= c.k && |r.stripe.parity| == c.m
    && (forall j :: 0 <= j < |r.contents| ==> EntryStored(disk, crc, pad, r.stripe.entries[j], r.contents[j]))
    && (forall m :: 0 <= m < c.m ==>
          Holds(disk, r.stripe.parity[m], ParityBlock(crc, kind, ParityPayload(c, r.contents, m, MaxSize(r.contents)))))
  }

  /** What is settled stays: a longer disk holds the same stripe. */
  lemma StripeStaysStored(disk: Bytes, longer: Bytes, c: Codec, crc: Crc64, pad: nat, kind: nat, r: StripeRecord)
    requires StripeStored(disk, c, crc, pad, kind, r) && disk <= longer
    ensures StripeStored(longer, c, crc, pad, kind, r)
  {
    hide ParityBlock, ParityPayload, Holds;
    forall j | 0 <= j < |r.contents|
      ensures EntryStored(longer, crc, pad, r.stripe.entries[j], r.contents[j])
    {
      HoldsInLonger(disk, longer, r.stripe.entries[j].offset, r.contents[j]);
    }
    forall m | 0 <= m < c.m
      ensures Holds(longer, r.stripe.parity[m],
                    ParityBlock(crc, kind, ParityPayload(c, r.contents, m, MaxSize(r.contents))))
    {
      HoldsInLonger(disk, longer, r.stripe.parity[m],
                    ParityBlock(crc, kind, ParityPayload(c, r.contents, m, MaxSize(r.contents))));
    }
  }

  function Descriptors(done: seq<StripeRecord>): (r: seq<Stripe>)
    ensures |r| == |done| && forall i :: 0 <= i < |done| ==> r[i] == done[i].stripe
  {
    seq(|done|, i requires 0 <= i < |done| => done[i].stripe)
  }

  /** All blocks of the stripes, in order. */
  function Flatten(done: seq<StripeRecord>): seq<Bytes> {
    if |done| == 0 then [] else Flatten(done[..|done| - 1]) + done[|done| - 1].contents
  }

  // ---- Data blocks ----

  /** The bytes of a data block on disk: header, LZMA properties if any, payload. */
  function BlockBytes(header: BlockHeader, props: Option<Bytes>, payload: Bytes): Bytes {
    header.Encoded() + PropertyBytes(header, props) + payload
  }

  function PropertyBytes(header: BlockHeader, props: Option<Bytes>): Bytes {
    if header.compression == COMPRESSION_LZMA && props.Some? then props.value else []
  }

  /** The size recorded and protected: `sizeof(BlockHeader)`, plus the properties, plus the payload. */
  function ActualSize(header: BlockHeader, props: Option<Bytes>, payload: Bytes): nat {
    BLOCK_HEADER_SIZE + (if header.compression == COMPRESSION_LZMA && props.Some? then LZMA_PROPERTIES_LENGTH else 0)
    + |payload|
  }

  /** The parity buffers cover a block when its size plus 25% headroom does not wrap in 32 bits. */
  predicate FitsShard(actual: nat) {
    actual + actual / 4 < 0x1_0000_0000
  }

  /** The headroom computed in 32-bit arithmetic covers the block exactly when it does not wrap. */
  lemma HeadroomCoversBlock(actual: nat)
    requires actual < 0x1_0000_0000
    ensures (actual + actual / 4) % 0x1_0000_0000 >= actual <==> FitsShard(actual)
  {
    if !FitsShard(actual) {
      assert (actual + actual / 4) % 0x1_0000_0000 == actual + actual / 4 - 0x1_0000_0000;
    }
  }

  // ---- The tracking state, as values ----

  /** The open stripe: its blocks are on disk where the tracking slots say, and fit the parity
      buffers; the slots after them are zero. */
  ghost predicate OpenStored(disk: Bytes, crc: Crc64, k: nat, open: seq<Bytes>, slots: Slots, shardSize: nat) {
    && |open| <= k && |slots.offsets| == |slots.sizes| == |slots.crcs| == k
    && (forall j :: 0 <= j < |open| ==>
          |open[j]| <= shardSize && EntryStored(disk, crc, 0, SlotEntry(slots, j), open[j]))
    && (forall j :: |open| <= j < k ==> SlotEntry(slots, j) == DataEntry(0, 0, 0))
  }

  /** The tracking arrays of the stripe slot: offset, size and checksum of each block. */
  datatype Slots = Slots(offsets: seq<nat>, sizes: seq<nat>, crcs: seq<nat>)

  function SlotEntry(slots: Slots, j: nat): DataEntry
    requires j < |slots.offsets| && j < |slots.sizes| && j < |slots.crcs|
  {
    DataEntry(slots.offsets[j], slots.sizes[j], slots.crcs[j])
  }

  function EmptySlots(k: nat): Slots {
    Slots(seq(k, _ => 0), seq(k, _ => 0), seq(k, _ => 0))
  }

  function SetSlot(slots: Slots, j: nat, e: DataEntry): Slots
    requires j < |slots.offsets| && j < |slots.sizes| && j < |slots.crcs|
  {
    Slots(slots.offsets[j := e.offset], slots.sizes[j := e.onDiskSize], slots.crcs[j := e.shardCrc64])
  }

  lemma OpenPush(disk: Bytes, crc: Crc64, k: nat, open: seq<Bytes>, slots: Slots, shardSize: nat, e: DataEntry,
                 block: Bytes)
    requires OpenStored(disk, crc, k, open, slots, shardSize) && |open| < k
    requires |block| <= shardSize && EntryStored(disk, crc, 0, e, block)
    ensures OpenStored(disk, crc, k, open + [block], SetSlot(slots, |open|, e), shardSize)
  {
    hide EntryStored;
    var after := SetSlot(slots, |open|, e);
    forall j | 0 <= j < k
      ensures SlotEntry(after, j) == if j == |open| then e else SlotEntry(slots, j)
    {
    }
  }

  lemma OpenMaxSize(disk: Bytes, crc: Crc64, k: nat, open: seq<Bytes>, slots: Slots, shardSize: nat)
    requires OpenStored(disk, crc, k, open, slots, shardSize)
    ensures MaxSize(open) <= shardSize
  {
  }

  ghost predicate AllStored(disk: Bytes, c: Codec, crc: Crc64, done: seq<StripeRecord>, shardSize: nat) {
    forall i :: 0 <= i < |done| ==>
      StripeStored(disk, c, crc, 0, TYPE_ERASURE_PARITY, done[i]) && MaxSize(done[i].contents) <= shardSize
  }

  lemma AllStayStored(disk: Bytes, longer: Bytes, c: Codec, crc: Crc64, done: seq<StripeRecord>, shardSize: nat)
    requires AllStored(disk, c, crc, done, shardSize) && disk <= longer
    ensures AllStored(longer, c, crc, done, shardSize)
  {
    hide StripeStored;
    forall i | 0 <= i < |done|
      ensures StripeStored(longer, c, crc, 0, TYPE_ERASURE_PARITY, done[i])
    {
      StripeStaysStored(disk, longer, c, crc, 0, TYPE_ERASURE_PARITY, done[i]);
    }
  }

  /** The parity blocks of `open` are on disk. */
  ghost predicate ParityOnDisk(disk: Bytes, c: Codec, crc: Crc64, kind: nat, open: seq<Bytes>, size: nat,
                               parity: seq<nat>) {
    && Shaped(c) && |parity| <= c.m
    && forall m :: 0 <= m < |parity| ==> Holds(disk, parity[m], ParityBlock(crc, kind, ParityPayload(c, open, m, size)))
  }

  /** A flushed stripe is stored. */
  lemma OpenBecomesStripe(disk: Bytes, longer: Bytes, c: Codec, crc: Crc64, open: seq<Bytes>, slots: Slots,
                          shardSize: nat, stripe: Stripe)
    requires OpenStored(disk, crc, c.k, open, slots, shardSize) && disk <= longer && |open| > 0
    requires |stripe.entries| == |open| && forall j :: 0 <= j < |open| ==> stripe.entries[j] == SlotEntry(slots, j)
    requires ParityOnDisk(longer, c, crc, TYPE_ERASURE_PARITY, open, MaxSize(open), stripe.parity)
    requires |stripe.parity| == c.m
    ensures StripeStored(longer, c, crc, 0, TYPE_ERASURE_PARITY, StripeRecord(stripe, open))
  {
    hide ParityBlock, ParityPayload, Holds, SlotEntry;
    forall j | 0 <= j < |open|
      ensures EntryStored(longer, crc, 0, stripe.entries[j], open[j])
    {
      assert EntryStored(disk, crc, 0, SlotEntry(slots, j), open[j]);
      HoldsInLonger(disk, longer, stripe.entries[j].offset, open[j]);
    }
  }

  lemma LargerShards(disk: Bytes, c: Codec, crc: Crc64, open: seq<Bytes>, slots: Slots, done: seq<StripeRecord>,
                     shardSize: nat, larger: nat)
    requires OpenStored(disk, crc, c.k, open, slots, shardSize) && AllStored(disk, c, crc, done, shardSize)
    requires shardSize <= larger
    ensures OpenStored(disk, crc, c.k, open, slots, larger) && AllStored(disk, c, crc, done, larger)
  {
    hide EntryStored, StripeStored, SlotEntry, MaxSize;
  }

  lemma AllStoredPush(disk: Bytes, c: Codec, crc: Crc64, done: seq<StripeRecord>, r: StripeRecord, shardSize: nat)
    requires AllStored(disk, c, crc, done, shardSize)
    requires StripeStored(disk, c, crc, 0, TYPE_ERASURE_PARITY, r) && MaxSize(r.contents) <= shardSize
    ensures AllStored(disk, c, crc, done + [r], shardSize)
  {
    hide StripeStored, MaxSize;
  }

  lemma OpenSizes(disk: Bytes, crc: Crc64, k: nat, open: seq<Bytes>, slots: Slots, shardSize: nat)
    requires OpenStored(disk, crc, k, open, slots, shardSize)
    ensures |open| <= |slots.offsets| == |slots.sizes| == |slots.crcs|
    ensures forall j :: 0 <= j < |open| ==> slots.sizes[j] == |open[j]|
    ensures |open| > 0 ==> MaxSize(open) > 0
  {
    hide MaxSize;
    forall j | 0 <= j < |open|
      ensures slots.sizes[j] == |open[j]| && |open[j]| > 0
    {
      assert EntryStored(disk, crc, 0, SlotEntry(slots, j), open[j]);
    }
  }

  lemma NothingOpen(disk: Bytes, crc: Crc64, k: nat, shardSize: nat)
    ensures OpenStored(disk, crc, k, [], EmptySlots(k), shardSize)
  {
  }

  lemma OpenStaysStored(disk: Bytes, longer: Bytes, crc: Crc64, k: nat, open: seq<Bytes>, slots: Slots, shardSize: nat)
    requires OpenStored(disk, crc, k, open, slots, shardSize) && disk <= longer
    ensures OpenStored(longer, crc, k, open, slots, shardSize)
  {
    hide Holds, SlotEntry;
    forall j | 0 <= j < |open|
      ensures EntryStored(longer, crc, 0, SlotEntry(slots, j), open[j])
    {
      HoldsInLonger(disk, longer, SlotEntry(slots, j).offset, open[j]);
    }
  }

  lemma AppendRecord(done: seq<StripeRecord>, r: StripeRecord)
    ensures EncodeStripes(Descriptors(done + [r])) == EncodeStripes(Descriptors(done)) + EncodeStripe(r.stripe)
    ensures Flatten(done + [r]) == Flatten(done) + r.contents
  {
    hide EncodeStripe;
    assert Descriptors(done + [r])[..|done|] == Descriptors(done);
    assert (done + [r])[..|done|] == done;
  }

  lemma BlockSizeIs(header: BlockHeader, props: Option<Bytes>, payload: Bytes)
    requires props.Some? ==> |props.value| == LZMA_PROPERTIES_LENGTH
    ensures |BlockBytes(header, props, payload)| == ActualSize(header, props, payload)
  {
  }

  lemma WrittenBlock(file: Bytes, offset: nat, block: Bytes, surplus: Bytes)
    requires |block| > 0
    ensures offset + |block| <= |WriteAt(file, offset, block + surplus)|
    ensures Holds(WriteAt(file, offset, block + surplus)[..offset + |block|], offset, block)
  {
    var r := WriteAt(file, offset, block + surplus);
    assert r[offset..offset + |block + surplus|] == block + surplus;
    forall i | 0 <= i < |block|
      ensures r[offset + i] == block[i]
    {
      assert r[offset..offset + |block + surplus|][i] == (block + surplus)[i];
    }
  }

  function Least(a: nat, b: nat): nat {
    if a < b then a else b
  }

  /** The block is at `next`, and what lay below it is still there. */
  ghost predicate WrittenOver(before: Bytes, next: nat, block: Bytes, after: Bytes) {
    |before| <= |after| && before[..Least(next, |before|)] <= after && Holds(after, next, block)
  }

  lemma BlockIsOver(file: Bytes, offset: nat, block: Bytes, surplus: Bytes)
    requires |block| > 0
    ensures WrittenOver(file, offset, block, WriteAt(file, offset, block + surplus))
  {
    hide WriteAt;
    WriteKeepsPrefix(file, offset, block + surplus, Least(offset, |file|));
    WrittenBlock(file, offset, block, surplus);
    HoldsInLonger(WriteAt(file, offset, block + surplus)[..offset + |block|], WriteAt(file, offset, block + surplus),
                  offset, block);
  }

  lemma OverInLonger(before: Bytes, next: nat, block: Bytes, after: Bytes, longer: Bytes)
    requires WrittenOver(before, next, block, after) && after <= longer
    ensures WrittenOver(before, next, block, longer)
  {
    HoldsInLonger(after, longer, next, block);
  }

  // ---- The parity buffers ----

  /** Every buffer byte is the sum over the open stripe of coefficient times byte. */
  ghost predicate ParityInvariant(parity: seq<array<byte>>, c: Codec, open: seq<Bytes>, shardSize: nat)
    reads parity
  {
    && Shaped(c) && |parity| == c.m
    && (forall m :: 0 <= m < |parity| ==> parity[m].Length == shardSize)
    && (forall m, n :: 0 <= m < n < |parity| ==> parity[m] != parity[n])
    && (forall m, i :: 0 <= m < |parity| && 0 <= i < shardSize ==> parity[m][i] == ParityByte(c, open, m, i))
  }

  lemma ParityCount(parity: seq<array<byte>>, c: Codec, open: seq<Bytes>, shardSize: nat)
    requires ParityInvariant(parity, c, open, shardSize)
    ensures |parity| == c.m > 0
  {
  }

  /** Multiply and accumulate one block into every parity buffer; only its own bytes, for the rest of
      the shard is zero. */
  method AccumulateParity(parity: seq<array<byte>>, c: Codec, shard: array<byte>, actual: nat, pos: nat,
                          ghost open: seq<Bytes>, ghost block: Bytes)
    requires ParityInvariant(parity, c, open, shard.Length) && pos == |open| < c.k
    requires shard !in parity && |block| == actual <= shard.Length
    requires forall i :: 0 <= i < actual ==> shard[i] == block[i]
    modifies parity
    ensures ParityInvariant(parity, c, open + [block], shard.Length)
  {
    hide ParityByte, Mul, Add;
    for m := 0 to c.m
      invariant forall i :: 0 <= i < actual ==> shard[i] == block[i]
      invariant forall j, i :: 0 <= j < m && 0 <= i < shard.Length ==>
                  parity[j][i] == ParityByte(c, open + [block], j, i)
      invariant forall j, i :: m <= j < c.m && 0 <= i < shard.Length ==> parity[j][i] == ParityByte(c, open, j, i)
    {
      var coeff := Coefficient(c, m, pos);
      forall i | 0 <= i < shard.Length
        ensures ParityByte(c, open + [block], m, i)
                == if i < actual then Add(parity[m][i], Mul(coeff, shard[i])) else parity[m][i]
      {
        ParityOfOneMore(c, open, block, m, i);
      }
      MulRegion(parity[m], shard, coeff, actual);
    }
  }

  /** Buffers for the first block of an image. */
  method FirstBuffers(c: Codec, size: nat) returns (buffers: seq<array<byte>>)
    requires Shaped(c)
    ensures ParityInvariant(buffers, c, [], size) && forall m :: 0 <= m < |buffers| ==> fresh(buffers[m])
  {
    buffers := NewBuffers(c.m, size);
    forall m, i | 0 <= m < |buffers| && 0 <= i < size
      ensures buffers[m][i] == ParityByte(c, [], m, i)
    {
      ParityOfNothing(c, m, i);
    }
  }

  /** Growing in mid-stripe keeps the parity of the blocks so far: they end before the new zeros. */
  method LargerBuffers(parity: seq<array<byte>>, c: Codec, ghost open: seq<Bytes>, oldSize: nat, size: nat)
    returns (buffers: seq<array<byte>>)
    requires ParityInvariant(parity, c, open, oldSize) && MaxSize(open) <= oldSize <= size
    ensures ParityInvariant(buffers, c, open, size) && forall m :: 0 <= m < |buffers| ==> fresh(buffers[m])
  {
    hide ParityByte, MaxSize;
    buffers := GrowBuffers(parity, oldSize, size);
    forall m, i | 0 <= m < |buffers| && oldSize <= i < size
      ensures ParityByte(c, open, m, i) == 0
    {
      ParityTailIsZero(c, open, m, i);
    }
  }

  method NewBuffers(m: nat, size: nat) returns (buffers: seq<array<byte>>)
    ensures |buffers| == m
    ensures forall i :: 0 <= i < m ==> fresh(buffers[i]) && buffers[i].Length == size
    ensures forall i, j :: 0 <= i < j < m ==> buffers[i] != buffers[j]
    ensures forall i, b :: 0 <= i < m && 0 <= b < size ==> buffers[i][b] == 0
  {
    buffers := [];
    for i := 0 to m
      invariant |buffers| == i
      invariant forall j :: 0 <= j < i ==> fresh(buffers[j]) && buffers[j].Length == size
      invariant forall j, l :: 0 <= j < l < i ==> buffers[j] != buffers[l]
      invariant forall j, b :: 0 <= j < i && 0 <= b < size ==> buffers[j][b] == 0
    {
      var buffer := new byte[size](_ => 0);
      buffers := buffers + [buffer];
    }
  }

  method GrowBuffers(previous: seq<array<byte>>, oldSize: nat, size: nat) returns (buffers: seq<array<byte>>)
    requires oldSize <= size && forall i :: 0 <= i < |previous| ==> previous[i].Length == oldSize
    ensures |buffers| == |previous|
    ensures forall i :: 0 <= i < |previous| ==> fresh(buffers[i]) && buffers[i].Length == size
    ensures forall i, j :: 0 <= i < j < |previous| ==> buffers[i] != buffers[j]
    ensures forall i, b :: 0 <= i < |previous| && 0 <= b < size ==>
              buffers[i][b] == if b < oldSize then previous[i][b] else 0
  {
    buffers := [];
    for i := 0 to |previous|
      invariant |buffers| == i
      invariant forall j :: 0 <= j < i ==> fresh(buffers[j]) && buffers[j].Length == size
      invariant forall j, l :: 0 <= j < l < i ==> buffers[j] != buffers[l]
      invariant forall j, b :: 0 <= j < i && 0 <= b < size ==>
                  buffers[j][b] == if b < oldSize then previous[j][b] else 0
    {
      var buffer := new byte[size](b requires 0 <= b < size reads previous requires previous[i].Length == oldSize =>
        if b < oldSize then previous[i][b] else 0);
      buffers := buffers + [buffer];
    }
  }

  /** The zero-padded on-disk shard of a block. */
  method ShardBuffer(block: Bytes, size: nat) returns (shard: array<byte>)
    requires |block| <= size
    ensures fresh(shard) && shard.Length == size && shard[..|block|] == block
    ensures shard[..] == Padded(block, size)
  {
    shard := new byte[size](i => if 0 <= i < |block| then block[i] else 0);
  }

  /** Zero the buffers for the next stripe. */
  method ResetBuffers(parity: seq<array<byte>>, c: Codec, shardSize: nat, ghost open: seq<Bytes>)
    requires ParityInvariant(parity, c, open, shardSize)
    modifies parity
    ensures ParityInvariant(parity, c, [], shardSize)
  {
    hide ParityByte;
    for m := 0 to |parity|
      invariant forall j, i :: 0 <= j < m && 0 <= i < shardSize ==> parity[j][i] == 0
    {
      forall i | 0 <= i < shardSize {
        parity[m][i] := 0;
      }
    }
    forall m, i | 0 <= m < |parity| && 0 <= i < shardSize
      ensures parity[m][i] == ParityByte(c, [], m, i)
    {
      ParityOfNothing(c, m, i);
    }
  }

  /** Serialize the entries of the open stripe. */
  method EncodeSlots(slots: Slots, count: nat) returns (entries: seq<DataEntry>, descriptor: Bytes)
    requires count <= |slots.offsets| == |slots.sizes| == |slots.crcs|
    ensures |entries| == count && forall j :: 0 <= j < count ==> entries[j] == SlotEntry(slots, j)
    ensures descriptor == LittleEndian(count, 2) + EncodeEntries(entries)
  {
    hide LittleEndian, DataEntry.Encoded;
    entries := [];
    descriptor := LittleEndian(count, 2);
    for k := 0 to count
      invariant |entries| == k && forall j :: 0 <= j < k ==> entries[j] == SlotEntry(slots, j)
      invariant descriptor == LittleEndian(count, 2) + EncodeEntries(entries)
    {
      var entry := SlotEntry(slots, k);
      assert (entries + [entry])[..k] == entries;
      descriptor := descriptor + entry.Encoded();
      entries := entries + [entry];
    }
  }

  /** The largest block of the open stripe. */
  method LargestBlock(sizes: seq<nat>, count: nat, ghost open: seq<Bytes>) returns (maxBlock: nat)
    requires |open| == count <= |sizes| && forall j :: 0 <= j < count ==> sizes[j] == |open[j]|
    ensures maxBlock == MaxSize(open)
  {
    maxBlock := 0;
    for k := 0 to count
      invariant maxBlock == MaxSize(open[..k])
    {
      assert open[..k + 1][..k] == open[..k];
      if sizes[k] > maxBlock {
        maxBlock := sizes[k];
      }
    }
    assert open[..count] == open;
  }

  predicate IsParityType(dataType: nat) {
    TYPE_ERASURE_PARITY <= dataType <= TYPE_PARITY_INDEX
  }

  /** The index only gained parity blocks, which lie between `from` and `to`. */
  ghost predicate OnlyParityAdded(index: seq<IndexEntry>, index': seq<IndexEntry>, from: nat, to: nat) {
    && index <= index'
    && forall i :: |index| <= i < |index'| ==>
         index'[i].blockType == DATA_BLOCK && IsParityType(index'[i].dataType) && from <= index'[i].offset < to
  }

  /** The index entries of data blocks of one type. */
  function BlockEntries(kind: nat, offsets: seq<nat>): (r: seq<IndexEntry>)
    ensures |r| == |offsets| && forall m :: 0 <= m < |r| ==> r[m] == IndexEntry(DATA_BLOCK, kind, offsets[m])
  {
    seq(|offsets|, m requires 0 <= m < |offsets| => IndexEntry(DATA_BLOCK, kind, offsets[m]))
  }

  /** At most one stripe was completed, and the index gained exactly its parity blocks. */
  ghost predicate StripeIndexed(index: seq<IndexEntry>, index': seq<IndexEntry>, done: seq<StripeRecord>,
                                done': seq<StripeRecord>) {
    if done' == done then index' == index
    else
      && |done'| == |done| + 1 && done'[..|done|] == done
      && index' == index + BlockEntries(TYPE_ERASURE_PARITY, done'[|done|].stripe.parity)
  }

  /** Append a parity block at the aligned end of the file and index it. */
  method AppendParity(file: Bytes, index: seq<IndexEntry>, crc: Crc64, shift: nat, kind: nat, payload: Bytes)
    returns (file': Bytes, index': seq<IndexEntry>, offset: nat)
    ensures file <= file' && |file| <= offset && offset % Pow2(shift) == 0
    ensures |file'| == offset + BLOCK_HEADER_SIZE + |payload|
    ensures Holds(file', offset, ParityBlock(crc, kind, payload))
    ensures index' == index + [IndexEntry(DATA_BLOCK, kind, offset)]
  {
    hide ParityHeader, Pow2;
    var header := ParityHeader(crc, kind, payload).Encoded();
    offset := Align(|file|, shift);
    WriteKeepsPrefix(file, offset, header, |file|);
    var withHeader := WriteAt(file, offset, header);
    WriteKeepsPrefix(withHeader, offset + BLOCK_HEADER_SIZE, payload, |withHeader|);
    HoldsAppended(file, withHeader, offset, header, payload);
    file' := WriteAt(withHeader, offset + BLOCK_HEADER_SIZE, payload);
    index' := index + [IndexEntry(DATA_BLOCK, kind, offset)];
  }

  /** Write the `m` parity blocks of a stripe: the first `size` bytes of each buffer. */
  method WriteParityBlocks(file: Bytes, index: seq<IndexEntry>, crc: Crc64, shift: nat, kind: nat, c: Codec,
                           parity: seq<array<byte>>, size: nat, ghost open: seq<Bytes>, ghost shardSize: nat)
    returns (file': Bytes, index': seq<IndexEntry>, offsets: seq<nat>)
    requires ParityInvariant(parity, c, open, shardSize) && size <= shardSize && IsParityType(kind)
    ensures file <= file' && OnlyParityAdded(index, index', |file|, |file'|) && |file| < |file'|
    ensures index' == index + BlockEntries(kind, offsets)
    ensures |offsets| == c.m && ParityOnDisk(file', c, crc, kind, open, size, offsets)
    ensures offsets[c.m - 1] + BLOCK_HEADER_SIZE + size == |file'|
    ensures forall m :: 0 <= m < c.m ==> |file| <= offsets[m]
  {
    hide ParityByte, ParityBlock, Holds;
    file', index', offsets := file, index, [];
    for m := 0 to c.m
      invariant file <= file' && OnlyParityAdded(index, index', |file|, |file'|) && |offsets| == m
      invariant index' == index + BlockEntries(kind, offsets)
      invariant ParityOnDisk(file', c, crc, kind, open, size, offsets)
      invariant forall j :: 0 <= j < m ==> |file| <= offsets[j]
      invariant m > 0 ==> |file| < |file'| && offsets[m - 1] + BLOCK_HEADER_SIZE + size == |file'|
    {
      var payload := parity[m][..size];
      assert payload == ParityPayload(c, open, m, size);
      ghost var before := file';
      var offset;
      file', index', offset := AppendParity(file', index', crc, shift, kind, payload);
      forall j | 0 <= j < m
        ensures Holds(file', offsets[j], ParityBlock(crc, kind, ParityPayload(c, open, j, size)))
      {
        HoldsInLonger(before, file', offsets[j], ParityBlock(crc, kind, ParityPayload(c, open, j, size)));
      }
      offsets := offsets + [offset];
    }
  }

  /** Write out the open stripe: its parity, its descriptor, and buffers reset for the next one. */
  method CloseStripe(file: Bytes, index: seq<IndexEntry>, crc: Crc64, shift: nat, c: Codec, parity: seq<array<byte>>,
                     slots: Slots, count: nat, shardSize: nat,
                     ghost open: seq<Bytes>, ghost done: seq<StripeRecord>, ghost settled: nat)
    returns (file': Bytes, index': seq<IndexEntry>, descriptor: Bytes, ghost record: StripeRecord)
    requires ParityInvariant(parity, c, open, shardSize) && count == |open| > 0 && settled <= |file|
    requires OpenStored(file[..settled], crc, c.k, open, slots, shardSize)
    requires AllStored(file[..settled], c, crc, done, shardSize)
    modifies parity
    ensures ParityInvariant(parity, c, [], shardSize)
    ensures file <= file' && OnlyParityAdded(index, index', |file|, |file'|) && |file| < |file'|
    ensures index' == index + BlockEntries(TYPE_ERASURE_PARITY, record.stripe.parity)
    ensures record.contents == open && descriptor == EncodeStripe(record.stripe)
    ensures |slots.offsets| == |slots.sizes| == |slots.crcs| && count == |record.stripe.entries| <= |slots.offsets|
    ensures forall j :: 0 <= j < count ==> record.stripe.entries[j] == SlotEntry(slots, j)
    ensures forall m :: 0 <= m < |record.stripe.parity| ==> |file| <= record.stripe.parity[m]
    ensures AllStored(file', c, crc, done + [record], shardSize)
  {
    hide MaxSize, AllStored, OpenStored, ParityInvariant, ParityOnDisk, StripeStored;
    hide LittleEndian, EncodeEntries, EncodeOffsets;
    OpenMaxSize(file[..settled], crc, c.k, open, slots, shardSize);
    OpenSizes(file[..settled], crc, c.k, open, slots, shardSize);
    ParityCount(parity, c, open, shardSize);
    var entries;
    entries, descriptor := EncodeSlots(slots, count);
    var maxBlock := LargestBlock(slots.sizes, count, open);
    if maxBlock == 0 {
      maxBlock := shardSize;
    }
    var offsets;
    file', index', offsets :=
      WriteParityBlocks(file, index, crc, shift, TYPE_ERASURE_PARITY, c, parity, maxBlock, open, shardSize);
    ResetBuffers(parity, c, shardSize, open);
    descriptor := descriptor + EncodeOffsets(offsets);
    record := StripeRecord(Stripe(entries, offsets), open);
    ghost var disk := file[..settled];
    assert disk <= file';
    OpenBecomesStripe(disk, file', c, crc, open, slots, shardSize, record.stripe);
    AllStayStored(disk, file', c, crc, done, shardSize);
    AllStoredPush(file', c, crc, done, record, shardSize);
  }

  // ---- The books of the writer, as values ----

  /** What the writer has accounted for: the blocks of the open stripe, the completed stripes, the
      position below which they all lie, every block accumulated, in order, with where it was written, and
      the position at or above which all of them lie, behind the image header and the reserved table
      region. */
  datatype Ledger = Ledger(open: seq<Bytes>, done: seq<StripeRecord>, settled: nat, history: seq<Bytes>, floor: nat,
                           offsets: seq<nat>)

  /** Where the blocks of a stripe are. */
  function EntryOffsets(s: Stripe): (r: seq<nat>)
    ensures |r| == |s.entries| && forall j :: 0 <= j < |r| ==> r[j] == s.entries[j].offset
  {
    seq(|s.entries|, j requires 0 <= j < |s.entries| => s.entries[j].offset)
  }

  /** Where the blocks of the stripes are, in order. */
  function BlockOffsets(done: seq<StripeRecord>): seq<nat> {
    if |done| == 0 then [] else BlockOffsets(done[..|done| - 1]) + EntryOffsets(done[|done| - 1].stripe)
  }

  ghost predicate Rising(offsets: seq<nat>, bound: nat) {
    && (forall i, j :: 0 <= i < j < |offsets| ==> offsets[i] < offsets[j])
    && (forall i :: 0 <= i < |offsets| ==> offsets[i] < bound)
  }

  lemma RisingPush(offsets: seq<nat>, offset: nat, bound: nat)
    requires Rising(offsets, offset) && offset < bound
    ensures Rising(offsets + [offset], bound)
  {
  }

  /** Every block lies behind the ones written before it, in its stripe or in its slot. */
  ghost predicate InOrder(g: Ledger, slots: Slots, count: nat) {
    && count <= |slots.offsets| && |g.offsets| == |g.history| && Rising(g.offsets, g.settled)
    && g.offsets == BlockOffsets(g.done) + slots.offsets[..count]
  }

  lemma InOrderFlush(g: Ledger, slots: Slots, count: nat, s: Stripe, contents: seq<Bytes>, k: nat, settled: nat)
    requires InOrder(g, slots, count) && g.settled <= settled
    requires count == |s.entries| <= |slots.sizes| && count <= |slots.crcs|
    requires forall j :: 0 <= j < count ==> s.entries[j] == SlotEntry(slots, j)
    ensures InOrder(Ledger([], g.done + [StripeRecord(s, contents)], settled, g.history, g.floor, g.offsets),
                    EmptySlots(k), 0)
  {
    var done := g.done + [StripeRecord(s, contents)];
    assert done[..|g.done|] == g.done;
    assert EntryOffsets(s) == slots.offsets[..count];
    assert EmptySlots(k).offsets[..0] == [];
  }

  lemma InOrderPush(g: Ledger, slots: Slots, count: nat, e: DataEntry, block: Bytes)
    requires InOrder(g, slots, count) && Rising(g.offsets, e.offset) && e.offset < g.settled
    requires count < |slots.offsets| && count < |slots.sizes| && count < |slots.crcs|
    ensures InOrder(Ledger(g.open + [block], g.done, g.settled, g.history + [block], g.floor, g.offsets + [e.offset]),
                    SetSlot(slots, count, e), count + 1)
  {
    hide Rising;
    RisingPush(g.offsets, e.offset, g.settled);
    var after := SetSlot(slots, count, e);
    assert after.offsets[..count + 1] == slots.offsets[..count] + [e.offset];
    assert BlockOffsets(g.done) + (slots.offsets[..count] + [e.offset]) == g.offsets + [e.offset];
  }

  /** The blocks and the parity of a stripe lie at or above `floor`. */
  ghost predicate RecordAbove(floor: nat, s: Stripe) {
    && (forall j :: 0 <= j < |s.entries| ==> floor <= s.entries[j].offset)
    && (forall m :: 0 <= m < |s.parity| ==> floor <= s.parity[m])
  }

  ghost predicate Above(floor: nat, slots: Slots, n: nat, done: seq<StripeRecord>) {
    && (forall j :: 0 <= j < n && j < |slots.offsets| ==> floor <= slots.offsets[j])
    && (forall i :: 0 <= i < |done| ==> RecordAbove(floor, done[i].stripe))
  }

  lemma AbovePush(floor: nat, slots: Slots, n: nat, done: seq<StripeRecord>, r: StripeRecord, k: nat)
    requires Above(floor, slots, n, done) && RecordAbove(floor, r.stripe)
    ensures Above(floor, EmptySlots(k), 0, done + [r])
  {
    hide RecordAbove;
  }

  lemma AboveSet(floor: nat, slots: Slots, n: nat, done: seq<StripeRecord>, e: DataEntry)
    requires Above(floor, slots, n, done) && floor <= e.offset
    requires n < |slots.offsets| && n < |slots.sizes| && n < |slots.crcs|
    ensures Above(floor, SetSlot(slots, n, e), n + 1, done)
  {
    hide RecordAbove;
  }

  /** The record of the open stripe lies above the floor when its blocks do and its parity is new. */
  lemma FlushedAbove(floor: nat, slots: Slots, n: nat, done: seq<StripeRecord>, s: Stripe, disk: Bytes, end: nat,
                     crc: Crc64, k: nat, open: seq<Bytes>, shardSize: nat)
    requires Above(floor, slots, n, done) && OpenStored(disk, crc, k, open, slots, shardSize) && n == |open| > 0
    requires |s.entries| == n && forall j :: 0 <= j < n ==> s.entries[j] == SlotEntry(slots, j)
    requires forall m :: 0 <= m < |s.parity| ==> end <= s.parity[m]
    requires |disk| <= end
    ensures RecordAbove(floor, s)
  {
    assert EntryStored(disk, crc, 0, SlotEntry(slots, 0), open[0]);
    assert floor <= slots.offsets[0];
  }

  /** The fields agree with the ledger and the file: every block is in exactly one stripe, in write
      order, and every completed stripe is on disk with its parity. */
  ghost predicate Booked(c: Codec, crc: Crc64, file: Bytes, slots: Slots, count: nat, total: nat, stripes: Bytes,
                         shardSize: nat, g: Ledger) {
    && count == |g.open| && g.settled <= |file|
    && OpenStored(file[..g.settled], crc, c.k, g.open, slots, shardSize)
    && stripes == EncodeStripes(Descriptors(g.done))
    && AllStored(file[..g.settled], c, crc, g.done, shardSize)
    && g.history == Flatten(g.done) + g.open && total == |g.history|
    && Above(g.floor, slots, count, g.done) && InOrder(g, slots, count)
  }

  lemma BookedStart(c: Codec, crc: Crc64, file: Bytes, floor: nat)
    ensures Booked(c, crc, file, EmptySlots(c.k), 0, 0, [], 0, Ledger([], [], 0, [], floor, []))
  {
  }

  lemma BookedAbove(c: Codec, crc: Crc64, file: Bytes, slots: Slots, count: nat, total: nat, stripes: Bytes,
                    shardSize: nat, g: Ledger, s: Stripe)
    requires Booked(c, crc, file, slots, count, total, stripes, shardSize, g) && count > 0
    requires |slots.offsets| == |slots.sizes| == |slots.crcs| && |s.entries| == count <= |slots.offsets|
    requires forall j :: 0 <= j < count ==> s.entries[j] == SlotEntry(slots, j)
    requires forall m :: 0 <= m < |s.parity| ==> |file| <= s.parity[m]
    ensures RecordAbove(g.floor, s)
  {
    hide OpenStored, AllStored, Above, RecordAbove, EncodeStripes, Flatten, SlotEntry;
    FlushedAbove(g.floor, slots, count, g.done, s, file[..g.settled], |file|, crc, c.k, g.open, shardSize);
  }

  lemma BookedCount(c: Codec, crc: Crc64, file: Bytes, slots: Slots, count: nat, total: nat, stripes: Bytes,
                    shardSize: nat, g: Ledger)
    requires Booked(c, crc, file, slots, count, total, stripes, shardSize, g)
    ensures count == |g.open| <= c.k && g.settled <= |file| && MaxSize(g.open) <= shardSize
    ensures |slots.offsets| == |slots.sizes| == |slots.crcs| == c.k
    ensures OpenStored(file[..g.settled], crc, c.k, g.open, slots, shardSize)
    ensures AllStored(file[..g.settled], c, crc, g.done, shardSize)
  {
    OpenMaxSize(file[..g.settled], crc, c.k, g.open, slots, shardSize);
  }

  lemma BookedRising(c: Codec, crc: Crc64, file: Bytes, slots: Slots, count: nat, total: nat, stripes: Bytes,
                     shardSize: nat, g: Ledger, bound: nat)
    requires Booked(c, crc, file, slots, count, total, stripes, shardSize, g) && g.settled <= bound
    ensures Rising(g.offsets, bound)
  {
    hide OpenStored, AllStored, EncodeStripes, Flatten, BlockOffsets, Above;
  }

  lemma BookedLarger(c: Codec, crc: Crc64, file: Bytes, slots: Slots, count: nat, total: nat, stripes: Bytes,
                     shardSize: nat, g: Ledger, larger: nat)
    requires Booked(c, crc, file, slots, count, total, stripes, shardSize, g) && shardSize <= larger
    ensures Booked(c, crc, file, slots, count, total, stripes, larger, g)
  {
    LargerShards(file[..g.settled], c, crc, g.open, slots, g.done, shardSize, larger);
  }

  lemma BookedFlush(c: Codec, crc: Crc64, file: Bytes, slots: Slots, count: nat, total: nat, stripes: Bytes,
                    shardSize: nat, g: Ledger, newFile: Bytes, r: StripeRecord)
    requires Booked(c, crc, file, slots, count, total, stripes, shardSize, g)
    requires r.contents == g.open && AllStored(newFile, c, crc, g.done + [r], shardSize)
    requires RecordAbove(g.floor, r.stripe) && |file| <= |newFile|
    requires |slots.offsets| == |slots.sizes| == |slots.crcs| && |r.stripe.entries| == count <= |slots.offsets|
    requires forall j :: 0 <= j < count ==> r.stripe.entries[j] == SlotEntry(slots, j)
    ensures Booked(c, crc, newFile, EmptySlots(c.k), 0, total, stripes + EncodeStripe(r.stripe), shardSize,
                   Ledger([], g.done + [r], |newFile|, g.history, g.floor, g.offsets))
  {
    hide AllStored, OpenStored, EncodeStripes, EncodeStripe, Descriptors, Flatten, EmptySlots, Above, RecordAbove;
    hide InOrder, SlotEntry;
    InOrderFlush(g, slots, count, r.stripe, r.contents, c.k, |newFile|);
    AppendRecord(g.done, r);
    AbovePush(g.floor, slots, count, g.done, r, c.k);
    NothingOpen(newFile, crc, c.k, shardSize);
    assert newFile[..|newFile|] == newFile;
    assert g.history == Flatten(g.done + [r]) + [];
  }

  lemma BookedPush(c: Codec, crc: Crc64, file: Bytes, slots: Slots, count: nat, total: nat, stripes: Bytes,
                   shardSize: nat, g: Ledger, fileOffset: nat, block: Bytes)
    requires Booked(c, crc, file, slots, count, total, stripes, shardSize, g) && count < c.k
    requires 0 < |block| <= shardSize < 0x1_0000_0000 && Holds(file[..g.settled], fileOffset, block)
    requires |slots.offsets| == |slots.sizes| == |slots.crcs| == c.k && g.floor <= fileOffset
    requires Rising(g.offsets, fileOffset)
    ensures Booked(c, crc, file, SetSlot(slots, count, DataEntry(fileOffset, |block|, crc(block))), count + 1,
                   total + 1, stripes, shardSize,
                   Ledger(g.open + [block], g.done, g.settled, g.history + [block], g.floor, g.offsets + [fileOffset]))
  {
    hide AllStored, OpenStored, EncodeStripes, Descriptors, Flatten, Holds, SetSlot, Above, InOrder, Rising;
    HeldBelow(file[..g.settled], fileOffset, block);
    InOrderPush(g, slots, count, DataEntry(fileOffset, |block|, crc(block)), block);
    AboveSet(g.floor, slots, count, g.done, DataEntry(fileOffset, |block|, crc(block)));
    assert Padded(block, 0) == block;
    OpenPush(file[..g.settled], crc, c.k, g.open, slots, shardSize, DataEntry(fileOffset, |block|, crc(block)), block);
    assert g.history + [block] == Flatten(g.done) + (g.open + [block]);
  }

  lemma HeldBelow(file: Bytes, offset: nat, block: Bytes)
    requires Holds(file, offset, block) && |block| > 0
    ensures offset < |file|
  {
  }

  lemma BookedLonger(c: Codec, crc: Crc64, file: Bytes, slots: Slots, count: nat, total: nat, stripes: Bytes,
                     shardSize: nat, g: Ledger, newFile: Bytes, settled: nat)
    requires Booked(c, crc, file, slots, count, total, stripes, shardSize, g)
    requires settled <= |newFile| && file[..g.settled] <= newFile[..settled]
    ensures Booked(c, crc, newFile, slots, count, total, stripes, shardSize, g.(settled := settled))
  {
    hide AllStored, OpenStored, EncodeStripes, Descriptors, Flatten, Above, BlockOffsets;
    AllStayStored(file[..g.settled], newFile[..settled], c, crc, g.done, shardSize);
    OpenStaysStored(file[..g.settled], newFile[..settled], crc, c.k, g.open, slots, shardSize);
  }

  // ---- The writer ----

  class Writer {
    const algorithm: nat
    const codec: Codec
    const crc: Crc64
    const shift: nat

    var shardSize: nat               // size of the parity buffers
    var parity: seq<array<byte>>     // the M parity buffers; empty until the first block
    var slots: Slots                 // tracking of the open stripe
    var count: nat                   // blocks in the open stripe
    var total: nat
    var stripes: Bytes               // flat array of completed stripe descriptors
    var file: Bytes
    var index: seq<IndexEntry>
    var next: nat                    // next_block_position
    ghost var ledger: Ledger

    ghost predicate Consistent()
      reads this, parity
    {
      && IsCodec(codec) && shardSize < 0x1_0000_0000
      && (if parity == [] then shardSize == 0 && ledger.open == [] && ledger.done == []
          else ParityInvariant(parity, codec, ledger.open, shardSize))
      && Booked(codec, crc, file, slots, count, total, stripes, shardSize, ledger)
    }

    /** Between blocks, the open stripe has room and the completed ones are full. */
    ghost predicate Valid()
      reads this, parity
    {
      Consistent() && count < codec.k && AllFull(ledger.done, codec.k)
    }

    constructor (algorithm: nat, codec: Codec, crc: Crc64, shift: nat, file: Bytes, index: seq<IndexEntry>, next: nat,
                 ghost floor: nat)
      requires IsCodec(codec)
      ensures Valid() && parity == [] && ledger == Ledger([], [], 0, [], floor, [])
      ensures this.codec == codec && this.crc == crc && this.shift == shift && this.algorithm == algorithm
      ensures this.file == file && this.index == index && this.next == next
    {
      this.algorithm := algorithm;
      this.codec := codec;
      this.crc := crc;
      this.shift := shift;
      this.file := file;
      this.index := index;
      this.next := next;
      shardSize, parity, count, total, stripes := 0, [], 0, 0, [];
      slots := EmptySlots(codec.k);
      ledger := Ledger([], [], 0, [], floor, []);
      new;
      hide IsCodec, Booked;
      CodecShape(codec);
      BookedStart(codec, crc, file, floor);
    }

    /** Allocate the parity buffers for the first block, or grow them for a larger one, with 25%
        headroom; growth keeps their bytes and appends zeros. */
    method PrepareBuffers(actual: nat)
      requires Valid() && 0 < actual && FitsShard(actual)
      modifies this`parity, this`shardSize
      ensures Valid() && actual <= shardSize && parity != []
      ensures parity == old(parity) || forall m :: 0 <= m < |parity| ==> fresh(parity[m])
    {
      hide IsCodec, MaxSize, Booked, ParityInvariant, AllFull;
      CodecShape(codec);
      BookedCount(codec, crc, file, slots, count, total, stripes, shardSize, ledger);
      if parity == [] {
        var size := actual + actual / 4;
        BookedLarger(codec, crc, file, slots, count, total, stripes, shardSize, ledger, size);
        parity := FirstBuffers(codec, size);
        ParityCount(parity, codec, ledger.open, size);
        shardSize := size;
      } else if actual > shardSize {
        var size := actual + actual / 4;
        BookedLarger(codec, crc, file, slots, count, total, stripes, shardSize, ledger, size);
        parity := LargerBuffers(parity, codec, ledger.open, shardSize, size);
        ParityCount(parity, codec, ledger.open, size);
        shardSize := size;
      }
    }

    /** Write the parity of the open stripe, record its descriptor and reset its slot. */
    method FlushStripe()
      requires Consistent()
      modifies this, parity
      ensures Consistent() && shardSize == old(shardSize) && parity == old(parity) && count == 0
      ensures old(file) <= file && OnlyParityAdded(old(index), index, |old(file)|, |file|)
      ensures StripeIndexed(old(index), index, old(ledger.done), ledger.done)
      ensures ledger.history == old(ledger.history)
      ensures ledger.floor == old(ledger.floor) && ledger.offsets == old(ledger.offsets)
      ensures old(count) == 0 ==> ledger == old(ledger) && next == old(next) && file == old(file)
      ensures old(count) > 0 ==>
                && |ledger.done| == |old(ledger.done)| + 1 && ledger.done[..|old(ledger.done)|] == old(ledger.done)
                && ledger.done[|old(ledger.done)|].contents == old(ledger.open)
                && ledger.settled == |file| <= next
    {
      hide IsCodec, MaxSize, Booked, ParityInvariant, AllStored, OpenStored, EncodeStripe, Align, EmptySlots;
      BookedCount(codec, crc, file, slots, count, total, stripes, shardSize, ledger);
      if count == 0 {
        return;
      }
      var newFile, newIndex, descriptor;
      ghost var record;
      newFile, newIndex, descriptor, record := CloseStripe(file, index, crc, shift, codec, parity, slots, count,
                                                           shardSize, ledger.open, ledger.done, ledger.settled);
      BookedAbove(codec, crc, file, slots, count, total, stripes, shardSize, ledger, record.stripe);
      BookedFlush(codec, crc, file, slots, count, total, stripes, shardSize, ledger, newFile, record);
      file := newFile;
      index := newIndex;
      next := Align(|newFile|, shift);
      stripes := stripes + descriptor;
      slots := EmptySlots(codec.k);
      count := 0;
      ledger := Ledger([], ledger.done + [record], |newFile|, ledger.history, ledger.floor, ledger.offsets);
    }

    /** Multiply and accumulate the shard of a block into the parity buffers. */
    method AddToParity(block: Bytes)
      requires Valid() && 0 < |block| && FitsShard(|block|)
      modifies this`parity, this`shardSize, parity
      ensures parity != [] && |block| <= shardSize < 0x1_0000_0000
      ensures ParityInvariant(parity, codec, ledger.open + [block], shardSize)
      ensures Booked(codec, crc, file, slots, count, total, stripes, shardSize, ledger)
      ensures parity == old(parity) || forall m :: 0 <= m < |parity| ==> fresh(parity[m])
    {
      hide IsCodec, MaxSize, Booked, ParityInvariant, AllFull;
      PrepareBuffers(|block|);
      BookedCount(codec, crc, file, slots, count, total, stripes, shardSize, ledger);
      var shard := ShardBuffer(block, shardSize);
      AccumulateParity(parity, codec, shard, |block|, count, ledger.open, block);
    }

    /** Record where the block lies, its size and its checksum. */
    method TrackBlock(block: Bytes, fileOffset: nat)
      requires IsCodec(codec) && count < codec.k && 0 < |block| <= shardSize < 0x1_0000_0000
      requires parity != [] && ParityInvariant(parity, codec, ledger.open + [block], shardSize)
      requires Booked(codec, crc, file, slots, count, total, stripes, shardSize, ledger)
      requires Holds(file[..ledger.settled], fileOffset, block) && ledger.floor <= fileOffset
      requires Rising(ledger.offsets, fileOffset)
      modifies this`slots, this`ledger, this`count, this`total
      ensures Consistent() && count == old(count) + 1
      ensures ledger == Ledger(old(ledger).open + [block], old(ledger).done, old(ledger).settled,
                               old(ledger).history + [block], old(ledger).floor, old(ledger).offsets + [fileOffset])
    {
      hide IsCodec, Booked, ParityInvariant, SetSlot, Holds, Rising;
      BookedCount(codec, crc, file, slots, count, total, stripes, shardSize, ledger);
      BookedPush(codec, crc, file, slots, count, total, stripes, shardSize, ledger, fileOffset, block);
      slots := SetSlot(slots, count, DataEntry(fileOffset, |block|, crc(block)));
      ledger := Ledger(ledger.open + [block], ledger.done, ledger.settled, ledger.history + [block], ledger.floor,
                       ledger.offsets + [fileOffset]);
      count := count + 1;
      total := total + 1;
    }

    /** Account for a block just written at `fileOffset`; flush the stripe when it is full. */
    method AccumulateBlock(header: BlockHeader, props: Option<Bytes>, payload: Bytes, fileOffset: nat)
      requires Valid() && FitsShard(ActualSize(header, props, payload))
      requires props.Some? ==> |props.value| == LZMA_PROPERTIES_LENGTH
      requires Holds(file[..ledger.settled], fileOffset, BlockBytes(header, props, payload))
      requires ledger.floor <= fileOffset
      requires Rising(ledger.offsets, fileOffset)
      modifies this, parity
      ensures ledger.floor == old(ledger.floor) && ledger.offsets == old(ledger.offsets) + [fileOffset]
      ensures Valid() && ledger.history == old(ledger.history) + [BlockBytes(header, props, payload)]
      ensures old(file) <= file && OnlyParityAdded(old(index), index, 0, |file|)
      ensures StripeIndexed(old(index), index, old(ledger.done), ledger.done)
      ensures (ledger.settled == old(ledger.settled) && next == old(next) && file == old(file))
              || ledger.settled == |file| <= next
      ensures parity == old(parity) || forall m :: 0 <= m < |parity| ==> fresh(parity[m])
    {
      hide IsCodec, MaxSize, Booked, ParityInvariant, BlockBytes, AllFull, Holds, Rising;
      BlockSizeIs(header, props, payload);
      var block := BlockBytes(header, props, payload);
      BookedCount(codec, crc, file, slots, count, total, stripes, shardSize, ledger);
      AddToParity(block);
      TrackBlock(block, fileOffset);
      if count == codec.k {
        ghost var before := ledger;
        FlushStripe();
        FullPush(before.done, ledger.done, codec.k);
      }
    }

    /** Close the current block: write it at the next block position, account for it and advance.
        `surplus` is what the source writes past the payload of an LZMA block. */
    method WriteBlock(header: BlockHeader, props: Option<Bytes>, payload: Bytes, surplus: Bytes)
      requires Valid() && ledger.settled <= next && ledger.floor <= next
      requires FitsShard(ActualSize(header, props, payload))
      requires props.Some? ==> |props.value| == LZMA_PROPERTIES_LENGTH
      requires BLOCK_HEADER_SIZE + header.cmpLength == ActualSize(header, props, payload)
      modifies this, parity
      ensures Valid() && ledger.settled <= next && ledger.floor == old(ledger.floor) <= next && old(next) <= next
      ensures ledger.history == old(ledger.history) + [BlockBytes(header, props, payload)]
      ensures ledger.offsets == old(ledger.offsets) + [old(next)]
      ensures OnlyParityAdded(old(index) + [IndexEntry(DATA_BLOCK, TYPE_USER_DATA, old(next))], index, 0, |file|)
      ensures StripeIndexed(old(index) + [IndexEntry(DATA_BLOCK, TYPE_USER_DATA, old(next))], index,
                            old(ledger.done), ledger.done)
      ensures WrittenOver(old(file), old(next), BlockBytes(header, props, payload), file)
      ensures parity == old(parity) || forall m :: 0 <= m < |parity| ==> fresh(parity[m])
    {
      hide IsCodec, MaxSize, BlockBytes, Booked, ParityInvariant, Pow2, AllFull, WriteAt, Rising, WrittenOver;
      hide OnlyParityAdded, StripeIndexed;
      BookedRising(codec, crc, file, slots, count, total, stripes, shardSize, ledger, next);
      var block := BlockBytes(header, props, payload);
      BlockSizeIs(header, props, payload);
      BookedCount(codec, crc, file, slots, count, total, stripes, shardSize, ledger);
      var offset := next;
      index := index + [IndexEntry(DATA_BLOCK, TYPE_USER_DATA, offset)];
      var newFile := WriteAt(file, offset, block + surplus);
      WriteKeepsPrefix(file, offset, block + surplus, ledger.settled);
      WrittenBlock(file, offset, block, surplus);
      BlockIsOver(file, offset, block, surplus);
      ghost var before := file;
      BookedLonger(codec, crc, file, slots, count, total, stripes, shardSize, ledger, newFile, offset + |block|);
      file := newFile;
      ledger := ledger.(settled := offset + |block|);
      AccumulateBlock(header, props, payload, offset);
      OverInLonger(before, offset, block, newFile, file);
      next := Align(next + BLOCK_HEADER_SIZE + header.cmpLength, shift);
    }
  }

  ghost predicate AllFull(done: seq<StripeRecord>, k: nat) {
    forall i :: 0 <= i < |done| ==> |done[i].contents| == k
  }

  lemma FullPush(done: seq<StripeRecord>, done': seq<StripeRecord>, k: nat)
    requires AllFull(done, k) && |done'| == |done| + 1 && done'[..|done|] == done && |done'[|done|].contents| == k
    ensures AllFull(done', k)
  {
    forall i | 0 <= i < |done'|
      ensures |done'[i].contents| == k
    {
      if i < |done| { assert done'[..|done|][i] == done[i]; }
    }
  }

  /** `aaruf_set_erasure_coding`: the parameters are checked, and the XOR mode takes one parity shard. */
  method SetErasureCoding(algorithm: nat, k: nat, m: nat, crc: Crc64, shift: nat, file: Bytes, index: seq<IndexEntry>,
                          next: nat, ghost floor: nat)
    returns (w: Option<Writer>)
    ensures w.Some? <==> k > 0 && m > 0 && k + m <= 255 && (algorithm == ALGORITHM_XOR ==> m == 1)
    ensures w.Some? ==>
              && fresh(w.value) && w.value.Valid() && w.value.codec.k == k && w.value.codec.m == m
              && w.value.algorithm == algorithm && w.value.ledger == Ledger([], [], 0, [], floor, [])
              && w.value.file == file && w.value.index == index && w.value.next == next
  {
    hide IsCodec, Booked;
    if k == 0 || m == 0 || k + m > 255 || (algorithm == ALGORITHM_XOR && m != 1) {
      return None;
    }
    var codec := RsCreate(k, m);
    if codec.None? {
      return None;
    }
    var writer := new Writer(algorithm, codec.value, crc, shift, file, index, next, floor);
    w := Some(writer);
  }
}
