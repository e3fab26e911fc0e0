/** Closing a protected image: the last partial stripe, the batch groups, the map of all groups with
    its duplicate, and the recovery footer (`ec_finalize` in src/erasure.c).
 */
module ErasureFinalize {
  import opened Wrappers
  import opened Octet
  import opened GF256
  import opened Linear
  import opened ReedSolomon
  import opened ImageFile
  import opened ErasureFormat
  import opened ErasureMap
  import opened Parity
  import opened ErasureWrite
  import opened ErasureCollect
  import opened BlockIndex
  import opened IndexBlock

  /** A protection group with what it protects: its codec, the padding its checksums were computed
      with, the data type of its parity blocks, and its stripes. */
  datatype GroupRecord = GroupRecord(group: Group, codec: Codec, pad: nat, kind: nat, records: seq<StripeRecord>)

  /** `disk` holds every stripe of the group, and the descriptor tells how to decode them. */
  ghost predicate GroupStored(disk: Bytes, crc: Crc64, r: GroupRecord) {
    && IsCodec(r.codec) && r.group.desc.k == r.codec.k && r.group.desc.m == r.codec.m
    && r.group.desc.stripeCount == |r.records| && r.group.stripes == Descriptors(r.records)
    && r.group.desc.groupType <= GROUP_INDEX && r.group.desc.interleaveDepth < 0x1_0000
    && r.group.desc.shardSize < 0x1_0000_0000
    && (r.pad == 0 || r.pad == r.group.desc.shardSize)
    && (forall i :: 0 <= i < |r.records| ==>
          StripeStored(disk, r.codec, crc, r.pad, r.kind, r.records[i])
          && MaxSize(r.records[i].contents) <= r.group.desc.shardSize)
  }

  lemma GroupStaysStored(disk: Bytes, longer: Bytes, crc: Crc64, r: GroupRecord)
    requires GroupStored(disk, crc, r) && disk <= longer
    ensures GroupStored(longer, crc, r)
  {
    hide StripeStored, MaxSize, IsCodec;
    forall i | 0 <= i < |r.records|
      ensures StripeStored(longer, r.codec, crc, r.pad, r.kind, r.records[i])
    {
      StripeStaysStored(disk, longer, r.codec, crc, r.pad, r.kind, r.records[i]);
    }
  }

  ghost predicate GroupsStored(disk: Bytes, crc: Crc64, groups: seq<GroupRecord>) {
    forall i :: 0 <= i < |groups| ==> GroupStored(disk, crc, groups[i])
  }

  // ---- Batch groups ----

  /** A shard read for a batch: the block, with zeros for what lies past the end of the file. */
  function ShardAt(file: Bytes, offset: nat, size: nat): (r: Bytes)
    ensures |r| == size
    ensures offset + size <= |file| ==> r == file[offset..offset + size]
  {
    if offset + size <= |file| then file[offset..offset + size]
    else Padded(if offset <= |file| then file[offset..] else [], size)
  }

  /** The first `n` requested blocks, as they are read. */
  function BatchContents(file: Bytes, req: BatchRequest, n: nat): (r: seq<Bytes>)
    requires n <= |req.offsets| == |req.sizes|
    ensures |r| == n && forall i :: 0 <= i < n ==> r[i] == ShardAt(file, req.offsets[i], req.sizes[i])
  {
    seq(n, i requires 0 <= i < n => ShardAt(file, req.offsets[i], req.sizes[i]))
  }

  ghost predicate OffsetsFit(offsets: seq<nat>) {
    forall i :: 0 <= i < |offsets| ==> offsets[i] < 0x1_0000_0000_0000_0000
  }

  function PaddedAll(blocks: seq<Bytes>, size: nat): (r: seq<Bytes>)
    ensures |r| == |blocks| && forall i :: 0 <= i < |r| ==> r[i] == Padded(blocks[i], size)
  {
    seq(|blocks|, i requires 0 <= i < |blocks| => Padded(blocks[i], size))
  }

  /** Padding the blocks does not change their parity. */
  lemma PaddingKeepsParity(c: Codec, blocks: seq<Bytes>, size: nat, m: nat, i: nat)
    requires Shaped(c) && m < c.m
    ensures ParityByte(c, PaddedAll(blocks, size), m, i) == ParityByte(c, blocks, m, i)
  {
    hide Dot;
    var padded := PaddedAll(blocks, size);
    forall j | 0 <= j < c.k
      ensures BlockColumn(padded, c.k, i)[j] == BlockColumn(blocks, c.k, i)[j]
    {
      if j < |blocks| { assert padded[j] == Padded(blocks[j], size); }
    }
    assert BlockColumn(padded, c.k, i) == BlockColumn(blocks, c.k, i);
  }

  lemma PaddingKeepsPayload(c: Codec, blocks: seq<Bytes>, size: nat, m: nat)
    requires Shaped(c) && m < c.m
    ensures ParityPayload(c, PaddedAll(blocks, size), m, size) == ParityPayload(c, blocks, m, size)
  {
    hide ParityByte;
    forall i | 0 <= i < size
      ensures ParityPayload(c, PaddedAll(blocks, size), m, size)[i] == ParityPayload(c, blocks, m, size)[i]
    {
      PaddingKeepsParity(c, blocks, size, m, i);
    }
  }

  /** Read one block, zero-padded to the shard size; checksum it padded, and accumulate it. */
  method AccumulateOne(file: Bytes, offset: nat, onDisk: nat, crc: Crc64, c: Codec, parity: seq<array<byte>>, size: nat,
                       pos: nat, ghost open: seq<Bytes>)
    returns (entry: DataEntry)
    requires onDisk <= size && ParityInvariant(parity, c, open, size) && pos == |open| < c.k
    modifies parity
    ensures ParityInvariant(parity, c, open + [Padded(ShardAt(file, offset, onDisk), size)], size)
    ensures entry == BatchEntry(crc, size, offset, ShardAt(file, offset, onDisk))
  {
    hide ParityInvariant;
    var content := ShardAt(file, offset, onDisk);
    var block := Padded(content, size);
    var shard := ShardBuffer(block, size);
    entry := DataEntry(offset, onDisk, crc(block));
    AccumulateParity(parity, c, shard, size, pos, open, block);
  }

  /** The entry of a batch block: its checksum is that of the padded shard. */
  function BatchEntry(crc: Crc64, size: nat, offset: nat, content: Bytes): DataEntry {
    DataEntry(offset, |content|, crc(Padded(content, size)))
  }

  /** The entries of the first blocks of a batch. */
  ghost predicate EntriesFor(crc: Crc64, size: nat, offsets: seq<nat>, entries: seq<DataEntry>, contents: seq<Bytes>) {
    && |entries| <= |contents| <= |offsets|
    && forall j :: 0 <= j < |entries| ==> entries[j] == BatchEntry(crc, size, offsets[j], contents[j])
  }

  lemma EncodePush(entries: seq<DataEntry>, e: DataEntry)
    ensures EncodeEntries(entries + [e]) == EncodeEntries(entries) + e.Encoded()
  {
    hide DataEntry.Encoded;
    assert (entries + [e])[..|entries|] == entries;
  }

  /** Block `k` of a batch, and the same block padded to the shard size. */
  lemma BatchBlock(file: Bytes, req: BatchRequest, n: nat, contents: seq<Bytes>, size: nat, k: nat)
    requires req.WellFormed() && k < n <= |req.offsets| && contents == BatchContents(file, req, n)
    requires MaxSize(contents) == size
    ensures |contents| == n && |req.offsets| == |req.sizes|
    ensures contents[k] == ShardAt(file, req.offsets[k], req.sizes[k])
    ensures |contents[k]| == req.sizes[k] <= size
    ensures |PaddedAll(contents[..k], size)| == k
    ensures PaddedAll(contents[..k + 1], size) == PaddedAll(contents[..k], size) + [Padded(contents[k], size)]
  {
    hide MaxSize, Padded;
    assert |contents[k]| <= size by { SizeIsBound(contents, k); }
  }

  lemma SizeIsBound(blocks: seq<Bytes>, k: nat)
    requires k < |blocks|
    ensures |blocks[k]| <= MaxSize(blocks)
  {
  }

  lemma NothingPadded(contents: seq<Bytes>, size: nat)
    ensures PaddedAll(contents[..0], size) == []
  {
  }

  method AccumulateBatch(file: Bytes, req: BatchRequest, crc: Crc64, c: Codec, parity: seq<array<byte>>, size: nat,
                         ghost contents: seq<Bytes>)
    returns (entries: seq<DataEntry>, descriptor: Bytes)
    requires req.WellFormed() && c.k <= |req.offsets| && contents == BatchContents(file, req, c.k)
    requires MaxSize(contents) == size
    requires ParityInvariant(parity, c, [], size)
    modifies parity
    ensures ParityInvariant(parity, c, PaddedAll(contents, size), size)
    ensures |entries| == c.k && EntriesFor(crc, size, req.offsets, entries, contents)
    ensures descriptor == LittleEndian(c.k, 2) + EncodeEntries(entries)
  {
    hide ParityInvariant, MaxSize, LittleEndian, EncodeEntries, DataEntry.Encoded, BatchEntry, BatchContents, PaddedAll;
    hide ShardAt;
    assert EncodeEntries([]) == [] by { NoEntries(); }
    NothingPadded(contents, size);
    entries := [];
    descriptor := LittleEndian(c.k, 2);
    for k := 0 to c.k
      invariant ParityInvariant(parity, c, PaddedAll(contents[..k], size), size)
      invariant |entries| == k && descriptor == LittleEndian(c.k, 2) + EncodeEntries(entries)
      invariant EntriesFor(crc, size, req.offsets, entries, contents)
    {
      BatchBlock(file, req, c.k, contents, size, k);
      var entry := AccumulateOne(file, req.offsets[k], req.sizes[k], crc, c, parity, size, k,
                                 PaddedAll(contents[..k], size));
      EncodePush(entries, entry);
      descriptor := descriptor + entry.Encoded();
      entries := entries + [entry];
    }
    assert contents[..c.k] == contents;
  }

  lemma NoEntries()
    ensures EncodeEntries([]) == []
  {
  }

  /** The largest of the first `n` sizes. */
  method LargestSize(sizes: seq<nat>, n: nat, ghost blocks: seq<Bytes>) returns (size: nat)
    requires n <= |sizes| && |blocks| == n && forall i :: 0 <= i < n ==> |blocks[i]| == sizes[i]
    ensures size == MaxSize(blocks)
  {
    size := LargestBlock(sizes, n, blocks);
  }

  /** Protect a nonempty batch with one stripe of all its blocks. */
  method ProtectBatch(file: Bytes, index: seq<IndexEntry>, crc: Crc64, shift: nat, c: Codec, req: BatchRequest,
                      ghost contents: seq<Bytes>)
    returns (file': Bytes, index': seq<IndexEntry>, stripe: Stripe, size: nat)
    requires req.WellFormed() && Shaped(c) && c.k <= |req.offsets| && contents == BatchContents(file, req, c.k)
    ensures file <= file' && OnlyParityAdded(index, index', |file|, |file'|)
    ensures size == MaxSize(contents) < 0x1_0000_0000 && EntryOffsets(stripe) == req.offsets[..c.k]
    ensures BatchReadable(file, req) ==>
              StripeStored(file', c, crc, size, req.parityType, StripeRecord(stripe, contents))
    ensures OffsetsFit(req.offsets) && |file'| < 0x1_0000_0000_0000_0000 ==> stripe.Valid(c.m)
  {
    hide ParityInvariant, ParityOnDisk, MaxSize, EntriesFor, StripeStored, EntryStored, PaddedAll, ShardAt;
    size := LargestSize(req.sizes, c.k, contents);
    LargestIsSmall(contents);
    var parity := FirstBuffers(c, size);
    var entries, descriptor := AccumulateBatch(file, req, crc, c, parity, size, contents);
    var offsets;
    file', index', offsets :=
      WriteParityBlocks(file, index, crc, shift, req.parityType, c, parity, size, PaddedAll(contents, size), size);
    stripe := Stripe(entries, offsets);
    OffsetsOfBatch(crc, size, req.offsets, stripe, contents);
    BatchFits(file', req, c, crc, size, contents, entries, offsets);
    if BatchReadable(file, req) {
      ReadableEntries(file, req, crc, size, entries, contents);
      BatchStored(file, file', c, crc, req.parityType, StripeRecord(stripe, contents), size);
    }
  }

  lemma OffsetsOfBatch(crc: Crc64, size: nat, offsets: seq<nat>, stripe: Stripe, contents: seq<Bytes>)
    requires EntriesFor(crc, size, offsets, stripe.entries, contents)
    ensures EntryOffsets(stripe) == offsets[..|stripe.entries|]
  {
  }

  lemma BatchFits(disk: Bytes, req: BatchRequest, c: Codec, crc: Crc64, size: nat, contents: seq<Bytes>,
                  entries: seq<DataEntry>, parity: seq<nat>)
    requires Shaped(c) && req.WellFormed() && EntriesFor(crc, size, req.offsets, entries, contents) && |entries| == c.k
    requires |contents| == c.k && forall j :: 0 <= j < c.k ==> |contents[j]| == req.sizes[j]
    requires ParityOnDisk(disk, c, crc, req.parityType, PaddedAll(contents, size), size, parity) && |parity| == c.m
    ensures OffsetsFit(req.offsets) && |disk| < 0x1_0000_0000_0000_0000 ==> Stripe(entries, parity).Valid(c.m)
  {
    hide ParityBlock, ParityPayload;
  }

  lemma ReadableEntries(file: Bytes, req: BatchRequest, crc: Crc64, size: nat, entries: seq<DataEntry>,
                        contents: seq<Bytes>)
    requires BatchReadable(file, req) && EntriesFor(crc, size, req.offsets, entries, contents)
    requires contents == BatchContents(file, req, |contents|)
    ensures forall j :: 0 <= j < |entries| ==> EntryStored(file, crc, size, entries[j], contents[j])
  {
  }

  /** Protect a batch of blocks already on disk; at most 255 - M of them. */
  method WriteBatchParity(file: Bytes, index: seq<IndexEntry>, crc: Crc64, shift: nat, m: nat, req: BatchRequest)
    returns (file': Bytes, index': seq<IndexEntry>, group: Option<Group>, ghost record: GroupRecord)
    requires 0 < m < 255 && req.WellFormed()
    ensures file <= file' && OnlyParityAdded(index, index', |file|, |file'|)
    ensures group.None? <==> |req.offsets| == 0
    ensures group.None? ==> file' == file && index' == index
    ensures group.Some? ==> group.value == record.group && BatchRecord(file, m, req, record)
    ensures group.Some? && BatchReadable(file, req) ==> GroupStored(file', crc, record)
    ensures group.Some? && OffsetsFit(req.offsets) && |file'| < 0x1_0000_0000_0000_0000 ==> group.value.Valid()
  {
    file', index', group := file, index, None;
    if |req.offsets| == 0 {
      record := GroupRecord(Group(GroupDescriptor(0, 0, 0, 0, 0, 0), []), Codec(0, 0, []), 0, 0, []);
      return;
    }
    hide IsCodec, MaxSize, StripeStored, ShardAt, GroupStored, BatchContents, BatchReadable, Stripe.Valid, OffsetsFit;
    hide Group.Valid;
    var actualK := if |req.offsets| > 255 - m then 255 - m else |req.offsets|;
    ghost var contents := BatchContents(file, req, actualK);
    var rs := RsCreate(actualK, m);
    var c := rs.value;
    CodecShape(c);
    var stripe, size;
    file', index', stripe, size := ProtectBatch(file, index, crc, shift, c, req, contents);
    var g := Group(GroupDescriptor(req.groupType, actualK, m, size, 1, 1), [stripe]);
    group := Some(g);
    record := GroupRecord(g, c, size, req.parityType, [StripeRecord(stripe, contents)]);
    assert Descriptors(record.records) == [stripe];
    if OffsetsFit(req.offsets) && |file'| < 0x1_0000_0000_0000_0000 {
      BatchGroupFits(g, stripe);
    }
    if BatchReadable(file, req) {
      BatchGroupIsStored(file', crc, record, stripe, contents, req);
    }
  }

  lemma BatchGroupFits(g: Group, stripe: Stripe)
    requires g.desc.Valid() && g.desc.stripeCount == 1 && g.stripes == [stripe] && stripe.Valid(g.desc.m)
    ensures g.Valid()
  {
  }

  lemma BatchGroupIsStored(file: Bytes, crc: Crc64, r: GroupRecord, stripe: Stripe, contents: seq<Bytes>,
                           req: BatchRequest)
    requires req.WellFormed() && IsCodec(r.codec) && r.records == [StripeRecord(stripe, contents)]
    requires r.pad == MaxSize(contents) < 0x1_0000_0000 && StripeStored(file, r.codec, crc, r.pad, r.kind, r.records[0])
    requires r.group == Group(GroupDescriptor(req.groupType, r.codec.k, r.codec.m, r.pad, 1, 1), [stripe])
    ensures GroupStored(file, crc, r)
  {
    hide IsCodec, MaxSize, StripeStored;
    assert Descriptors(r.records) == [stripe];
  }

  /** A batch record protects the requested blocks, up to 255 - M of them, in one stripe. */
  ghost predicate BatchRecord(file: Bytes, m: nat, req: BatchRequest, r: GroupRecord)
    requires req.WellFormed() && m < 255
  {
    && r.group.desc.groupType == req.groupType && r.kind == req.parityType && r.pad == r.group.desc.shardSize
    && r.codec.k == (if |req.offsets| > 255 - m then 255 - m else |req.offsets|) && r.codec.m == m
    && |r.records| == 1 && r.records[0].contents == BatchContents(file, req, r.codec.k)
    && DescribesBatch(r, req.offsets)
  }

  /** The only stripe of a batch record names the places of its blocks; they were padded to the longest. */
  ghost predicate DescribesBatch(r: GroupRecord, offsets: seq<nat>)
    requires |r.records| == 1 && r.codec.k <= |offsets|
  {
    && r.group.stripes == Descriptors(r.records) && EntryOffsets(r.records[0].stripe) == offsets[..r.codec.k]
    && r.pad == MaxSize(r.records[0].contents)
  }

  lemma {:induction false} LargestIsSmall(blocks: seq<Bytes>)
    requires forall i :: 0 <= i < |blocks| ==> |blocks[i]| < 0x1_0000_0000
    ensures MaxSize(blocks) < 0x1_0000_0000
  {
    if |blocks| > 0 {
      LargestIsSmall(blocks[..|blocks| - 1]);
    }
  }

  lemma BatchStored(file: Bytes, file': Bytes, c: Codec, crc: Crc64, kind: nat, r: StripeRecord, size: nat)
    requires file <= file' && Shaped(c) && |r.contents| == |r.stripe.entries| == c.k && size == MaxSize(r.contents)
    requires forall j :: 0 <= j < c.k ==> EntryStored(file, crc, size, r.stripe.entries[j], r.contents[j])
    requires ParityOnDisk(file', c, crc, kind, PaddedAll(r.contents, size), size, r.stripe.parity)
    requires |r.stripe.parity| == c.m
    ensures StripeStored(file', c, crc, size, kind, r)
  {
    hide ParityBlock, ParityPayload, Holds, MaxSize;
    forall j | 0 <= j < c.k
      ensures EntryStored(file', crc, size, r.stripe.entries[j], r.contents[j])
    {
      assert EntryStored(file, crc, size, r.stripe.entries[j], r.contents[j]);
      HoldsInLonger(file, file', r.stripe.entries[j].offset, r.contents[j]);
    }
    forall m | 0 <= m < c.m
      ensures Holds(file', r.stripe.parity[m], ParityBlock(crc, kind, ParityPayload(c, r.contents, m, size)))
    {
      PaddingKeepsPayload(c, r.contents, size, m);
    }
  }

  // ---- The map and the footer ----

  /** The map's checksum covers its length cut to 32 bits. */
  function MapChecksum(crc: Crc64, payload: Bytes): u64 {
    crc(payload[..|payload| % 0x1_0000_0000])
  }

  function MapBlock(crc: Crc64, algorithm: nat, groups: seq<Group>): Bytes {
    var payload := EncodeGroups(groups);
    MapHeader(ERASURE_MAP_BLOCK, algorithm, |groups|, COMPRESSION_NONE, |payload|, |payload|,
              MapChecksum(crc, payload), MapChecksum(crc, payload)).Encoded() + payload
  }

  function FooterFor(crc: Crc64, mapOffset: nat, mapLength: nat, header: Bytes): Footer {
    Footer(mapOffset, mapLength, crc(header), header, FOOTER_MAGIC)
  }

  function GroupsOf(records: seq<GroupRecord>): (r: seq<Group>)
    ensures |r| == |records| && forall i :: 0 <= i < |r| ==> r[i] == records[i].group
  {
    seq(|records|, i requires 0 <= i < |records| => records[i].group)
  }

  /** A protected image: every group is stored, and the last bytes lead to the map of all groups. */
  ghost predicate Protected(file: Bytes, crc: Crc64, algorithm: nat, header: Bytes, records: seq<GroupRecord>,
                            mapOffset: nat, copyOffset: nat) {
    && GroupsStored(file, crc, records)
    && MapOnDisk(file, crc, algorithm, header, GroupsOf(records), mapOffset)
    && Holds(file, copyOffset, MapBlock(crc, algorithm, GroupsOf(records)))
    && mapOffset + |MapBlock(crc, algorithm, GroupsOf(records))| <= copyOffset
  }

  /** The last bytes of the file are a footer that leads to the map of these groups. */
  ghost predicate MapOnDisk(file: Bytes, crc: Crc64, algorithm: nat, header: Bytes, groups: seq<Group>,
                            mapOffset: nat) {
    && |header| == IMAGE_HEADER_SIZE && FOOTER_SIZE <= |file|
    && Holds(file, mapOffset, MapBlock(crc, algorithm, groups))
    && Holds(file, |file| - FOOTER_SIZE,
             FooterFor(crc, mapOffset, |MapBlock(crc, algorithm, groups)|, header).Encoded())
  }

  /** Count the completed stripes by walking the flat array of descriptors. */
  method CountStripes(bytes: Bytes, m: nat, ghost stripes: seq<Stripe>) returns (n: nat)
    requires bytes == EncodeStripes(stripes)
    requires forall i :: 0 <= i < |stripes| ==> |stripes[i].entries| < 0x1_0000 && |stripes[i].parity| == m
    ensures n == |stripes|
  {
    hide EncodeStripes, LittleEndian, Number, EncodeEntries, EncodeOffsets;
    n := 0;
    var pos := 0;
    EmptyStripes(stripes);
    while pos + 2 <= |bytes|
      invariant n <= |stripes| && pos == |EncodeStripes(stripes[..n])| <= |bytes|
      decreases |bytes| - pos
    {
      StripesLeft(stripes, n);
      NextStripe(stripes, n);
      StripesPrefix(stripes, n);
      StripesPrefix(stripes, n + 1);
      ghost var s := stripes[n];
      CountField(bytes, EncodeStripes(stripes[..n]), s);
      var ak := Number(bytes[pos..pos + 2]);
      pos := pos + 2 + ak * DATA_ENTRY_SIZE + m * 8;
      n := n + 1;
    }
    if n < |stripes| {
      NextStripe(stripes, n);
      StripesPrefix(stripes, n + 1);
    }
  }

  lemma StripesLeft(stripes: seq<Stripe>, n: nat)
    requires n <= |stripes|
    ensures |EncodeStripes(stripes[..n])| < |EncodeStripes(stripes)| ==> n < |stripes|
  {
    if n == |stripes| {
      assert stripes[..n] == stripes;
    }
  }

  lemma CountField(bytes: Bytes, before: Bytes, s: Stripe)
    requires before + EncodeStripe(s) <= bytes && |s.entries| < 0x1_0000
    ensures Number(bytes[|before|..|before| + 2]) == |s.entries|
  {
    hide LittleEndian, Number, EncodeEntries, EncodeOffsets;
    var count := LittleEndian(|s.entries|, 2);
    forall i | 0 <= i < 2
      ensures bytes[|before|..|before| + 2][i] == count[i]
    {
      assert bytes[|before| + i] == (before + EncodeStripe(s))[|before| + i];
    }
    assert bytes[|before|..|before| + 2] == count;
    Powers();
    NumberRoundTrip(|s.entries|, 2);
  }

  /** A batch as it was collected: the file and index at that time, and what was asked for. */
  datatype Batch = Batch(file: Bytes, index: seq<IndexEntry>, request: BatchRequest)

  /** The records made for the nonempty batches, in order. */
  ghost predicate BatchRecords(m: nat, batches: seq<Batch>, records: seq<GroupRecord>)
    requires m < 255 && forall i :: 0 <= i < |batches| ==> batches[i].request.WellFormed()
  {
    if |batches| == 0 then records == [] else
      var last := batches[|batches| - 1];
      if |last.request.offsets| == 0 then BatchRecords(m, batches[..|batches| - 1], records) else
        |records| > 0 && BatchRecord(last.file, m, last.request, records[|records| - 1])
        && BatchRecords(m, batches[..|batches| - 1], records[..|records| - 1])
  }

  ghost predicate AllReadable(batches: seq<Batch>) {
    forall i :: 0 <= i < |batches| ==> BatchReadable(batches[i].file, batches[i].request)
  }

  /** Every record is that of the batch of its type, and is stored when that batch could be read whole. */
  ghost predicate StoredWhenReadable(disk: Bytes, crc: Crc64, batches: seq<Batch>, records: seq<GroupRecord>) {
    forall k :: 0 <= k < |records| ==>
      0 < records[k].group.desc.groupType <= |batches|
      && (var b := batches[records[k].group.desc.groupType - 1];
          BatchReadable(b.file, b.request) ==> GroupStored(disk, crc, records[k]))
  }

  lemma StoredInLonger(disk: Bytes, longer: Bytes, crc: Crc64, batches: seq<Batch>, records: seq<GroupRecord>)
    requires StoredWhenReadable(disk, crc, batches, records) && disk <= longer
    ensures StoredWhenReadable(longer, crc, batches, records)
  {
    hide GroupStored, BatchReadable;
    forall k | 0 <= k < |records| && GroupStored(disk, crc, records[k])
      ensures GroupStored(longer, crc, records[k])
    {
      GroupStaysStored(disk, longer, crc, records[k]);
    }
  }

  /** When every batch could be read whole, every group is stored. */
  lemma AllAreStored(disk: Bytes, crc: Crc64, batches: seq<Batch>, records: seq<GroupRecord>)
    requires StoredWhenReadable(disk, crc, batches, records) && AllReadable(batches)
    ensures GroupsStored(disk, crc, records)
  {
    hide GroupStored, BatchReadable;
  }

  lemma StoredPush(disk: Bytes, crc: Crc64, batches: seq<Batch>, records: seq<GroupRecord>, b: Batch,
                   group: Option<Group>, record: GroupRecord)
    requires StoredWhenReadable(disk, crc, batches, records)
    requires group.Some? ==> record.group.desc.groupType == |batches| + 1
    requires group.Some? && BatchReadable(b.file, b.request) ==> GroupStored(disk, crc, record)
    ensures StoredWhenReadable(disk, crc, batches + [b], if group.Some? then records + [record] else records)
  {
    hide GroupStored, BatchReadable;
    var all, longer := batches + [b], if group.Some? then records + [record] else records;
    forall k | 0 <= k < |longer|
      ensures 0 < longer[k].group.desc.groupType <= |all|
      ensures var b := all[longer[k].group.desc.groupType - 1];
              BatchReadable(b.file, b.request) ==> GroupStored(disk, crc, longer[k])
    {
      if k < |records| {
        assert longer[k] == records[k];
        assert all[records[k].group.desc.groupType - 1] == batches[records[k].group.desc.groupType - 1];
      }
    }
  }

  /** A batch was collected from the file `start` or a longer one, with nothing but parity indexed since. */
  ghost predicate CollectedSince(start: Bytes, startIndex: seq<IndexEntry>, indexOffset: nat, m: nat, groupType: nat,
                                 b: Batch) {
    && start <= b.file && OnlyParityAdded(startIndex, b.index, |start|, |b.file|)
    && GROUP_DATA < groupType <= GROUP_INDEX && b.request == CollectRequest(b.file, b.index, indexOffset, m, groupType)
    && b.request.WellFormed() && b.request.groupType == groupType
  }

  /** The state between two batch groups: the first groups have been collected and protected. */
  ghost predicate Batched(start: Bytes, startIndex: seq<IndexEntry>, file: Bytes, index: seq<IndexEntry>, crc: Crc64,
                          indexOffset: nat, m: nat, batches: seq<Batch>, groups: seq<Group>,
                          records: seq<GroupRecord>) {
    && start <= file && OnlyParityAdded(startIndex, index, |start|, |file|)
    && groups == GroupsOf(records) && |groups| <= |batches|
    && (forall i :: 0 <= i < |batches| ==>
          CollectedSince(start, startIndex, indexOffset, m, i + 1, batches[i]) && batches[i].file <= file)
    && m < 255 && BatchRecords(m, batches, records)
    && StoredWhenReadable(file, crc, batches, records)
    && (Fits64(startIndex, indexOffset) && |file| < 0x1_0000_0000_0000_0000 ==> GroupsFit(groups))
  }

  /** The offsets in the index, and that of the index itself, fit 64 bits. */
  ghost predicate Fits64(index: seq<IndexEntry>, indexOffset: nat) {
    indexOffset < 0x1_0000_0000_0000_0000 && forall i :: 0 <= i < |index| ==> index[i].offset < 0x1_0000_0000_0000_0000
  }

  ghost predicate GroupsFit(groups: seq<Group>) {
    forall i :: 0 <= i < |groups| ==> groups[i].Valid()
  }

  lemma GroupsFitPush(groups: seq<Group>, g: Group)
    requires GroupsFit(groups) && g.Valid()
    ensures GroupsFit(groups + [g])
  {
    hide Group.Valid;
  }

  lemma ParityFits(index: seq<IndexEntry>, index': seq<IndexEntry>, indexOffset: nat, from: nat, to: nat)
    requires OnlyParityAdded(index, index', from, to) && to < 0x1_0000_0000_0000_0000
    ensures Fits64(index, indexOffset) ==> Fits64(index', indexOffset)
  {
    forall i | 0 <= i < |index'|
      ensures Fits64(index, indexOffset) ==> index'[i].offset < 0x1_0000_0000_0000_0000
    {
      if i < |index| { assert index'[i] == index[i]; }
    }
  }

  lemma CollectedFits(file: Bytes, index: seq<IndexEntry>, indexOffset: nat, m: nat, groupType: nat)
    requires Fits64(index, indexOffset) && GROUP_DATA < groupType <= GROUP_INDEX
    ensures OffsetsFit(CollectRequest(file, index, indexOffset, m, groupType).offsets)
  {
    hide Sizes, Selected, DecodeIndexHeader, Selects;
    var s := if groupType == GROUP_DDT_SECONDARY then OfType(DDT_SECONDARY)
             else if groupType == GROUP_DDT_PRIMARY then OfType(DDT_PRIMARY) else Metadata;
    forall i | 0 <= i < |Selected(index, s)|
      ensures Selected(index, s)[i].offset < 0x1_0000_0000_0000_0000
    {
      SelectedMembers(index, s, Selected(index, s)[i]);
    }
  }

  lemma AddedTrans(a: seq<IndexEntry>, b: seq<IndexEntry>, c: seq<IndexEntry>, x: nat, y: nat, z: nat)
    requires OnlyParityAdded(a, b, x, y) && OnlyParityAdded(b, c, y, z) && x <= y <= z
    ensures OnlyParityAdded(a, c, x, z)
  {
    forall i | |a| <= i < |c|
      ensures c[i].blockType == DATA_BLOCK && IsParityType(c[i].dataType) && x <= c[i].offset < z
    {
      if i < |b| { assert c[i] == b[i]; }
    }
  }

  lemma NothingBatched(file: Bytes, index: seq<IndexEntry>, crc: Crc64, indexOffset: nat, m: nat)
    requires m < 255
    ensures Batched(file, index, file, index, crc, indexOffset, m, [], [], [])
  {
  }

  lemma BatchedPush(start: Bytes, startIndex: seq<IndexEntry>, file: Bytes, index: seq<IndexEntry>, crc: Crc64,
                    indexOffset: nat, m: nat, batches: seq<Batch>, groups: seq<Group>, records: seq<GroupRecord>,
                    req: BatchRequest, file': Bytes, index': seq<IndexEntry>, group: Option<Group>, record: GroupRecord)
    requires Batched(start, startIndex, file, index, crc, indexOffset, m, batches, groups, records)
    requires |batches| < GROUP_INDEX
    requires file <= file' && OnlyParityAdded(index, index', |file|, |file'|)
    requires req == CollectRequest(file, index, indexOffset, m, |batches| + 1) && req.WellFormed()
    requires req.groupType == |batches| + 1
    requires group.None? <==> |req.offsets| == 0
    requires group.Some? ==> group.value == record.group && BatchRecord(file, m, req, record)
    requires group.Some? && BatchReadable(file, req) ==> GroupStored(file', crc, record)
    requires group.Some? && Fits64(startIndex, indexOffset) && |file'| < 0x1_0000_0000_0000_0000 ==> group.value.Valid()
    ensures Batched(start, startIndex, file', index', crc, indexOffset, m, batches + [Batch(file, index, req)],
                    if group.Some? then groups + [group.value] else groups,
                    if group.Some? then records + [record] else records)
  {
    hide GroupStored, BatchRecord, CollectRequest, OnlyParityAdded, BatchReadable, BatchRecords, StoredWhenReadable;
    hide CollectedSince, Fits64, GroupsFit, Group.Valid;
    if group.Some? && Fits64(startIndex, indexOffset) && |file'| < 0x1_0000_0000_0000_0000 {
      GroupsFitPush(groups, group.value);
    }
    AddedTrans(startIndex, index, index', |start|, |file|, |file'|);
    var b := Batch(file, index, req);
    BatchesWellFormed(start, startIndex, file, index, crc, indexOffset, m, batches, groups, records);
    RecordsPush(m, batches, records, b, group, record);
    NewlyCollected(start, startIndex, file, index, indexOffset, m, |batches| + 1, b);
    StoredInLonger(file, file', crc, batches, records);
    if group.Some? { TypeOfRecord(file, m, req, record); }
    StoredPush(file', crc, batches, records, b, group, record);
  }

  lemma TypeOfRecord(file: Bytes, m: nat, req: BatchRequest, r: GroupRecord)
    requires req.WellFormed() && m < 255 && BatchRecord(file, m, req, r)
    ensures r.group.desc.groupType == req.groupType
  {
  }

  lemma BatchesWellFormed(start: Bytes, startIndex: seq<IndexEntry>, file: Bytes, index: seq<IndexEntry>, crc: Crc64,
                          indexOffset: nat, m: nat, batches: seq<Batch>, groups: seq<Group>, records: seq<GroupRecord>)
    requires Batched(start, startIndex, file, index, crc, indexOffset, m, batches, groups, records)
    ensures forall i :: 0 <= i < |batches| ==> batches[i].request.WellFormed()
  {
    hide BatchRecords, CollectRequest, BatchRequest.WellFormed, StoredWhenReadable;
  }

  lemma NewlyCollected(start: Bytes, startIndex: seq<IndexEntry>, file: Bytes, index: seq<IndexEntry>, indexOffset: nat,
                       m: nat, groupType: nat, b: Batch)
    requires start <= file && OnlyParityAdded(startIndex, index, |start|, |file|)
    requires GROUP_DATA < groupType <= GROUP_INDEX
    requires b == Batch(file, index, CollectRequest(file, index, indexOffset, m, groupType))
    ensures CollectedSince(start, startIndex, indexOffset, m, groupType, b)
  {
    hide CollectRequest, OnlyParityAdded;
    CollectedIsWellFormed(file, index, indexOffset, m, groupType);
  }

  lemma RecordsPush(m: nat, batches: seq<Batch>, records: seq<GroupRecord>, b: Batch, group: Option<Group>,
                    record: GroupRecord)
    requires m < 255 && (forall i :: 0 <= i < |batches| ==> batches[i].request.WellFormed()) && b.request.WellFormed()
    requires BatchRecords(m, batches, records) && (group.None? <==> |b.request.offsets| == 0)
    requires group.Some? ==> BatchRecord(b.file, m, b.request, record)
    ensures BatchRecords(m, batches + [b], if group.Some? then records + [record] else records)
  {
    hide BatchRecord;
    assert (batches + [b])[..|batches|] == batches;
    if group.Some? { assert (records + [record])[..|records|] == records; }
  }

  /** Collect and protect one batch group. */
  method ProtectNext(file: Bytes, index: seq<IndexEntry>, crc: Crc64, shift: nat, m: nat, indexOffset: nat,
                     groupType: nat, groups: seq<Group>, ghost start: Bytes, ghost startIndex: seq<IndexEntry>,
                     ghost records: seq<GroupRecord>, ghost batches: seq<Batch>)
    returns (file': Bytes, index': seq<IndexEntry>, groups': seq<Group>, ghost records': seq<GroupRecord>,
             ghost batches': seq<Batch>)
    requires 0 < m < 255 && |batches| + 1 == groupType <= GROUP_INDEX
    requires Batched(start, startIndex, file, index, crc, indexOffset, m, batches, groups, records)
    ensures Batched(start, startIndex, file', index', crc, indexOffset, m, batches', groups', records')
    ensures |batches'| == groupType
  {
    hide Batched, BatchRecord, CollectRequest, OnlyParityAdded, GroupStored, BatchReadable, Fits64, Group.Valid;
    var req := Collect(file, index, indexOffset, m, groupType);
    CollectedIsWellFormed(file, index, indexOffset, m, groupType);
    var group;
    ghost var record;
    file', index', group, record := WriteBatchParity(file, index, crc, shift, m, req);
    if Fits64(startIndex, indexOffset) && |file'| < 0x1_0000_0000_0000_0000 {
      BatchedFits(start, startIndex, file, index, crc, indexOffset, m, batches, groups, records);
      CollectedFits(file, index, indexOffset, m, groupType);
    }
    BatchedPush(start, startIndex, file, index, crc, indexOffset, m, batches, groups, records, req, file', index',
                group, record);
    batches' := batches + [Batch(file, index, req)];
    groups', records' := groups, records;
    if group.Some? {
      groups' := groups + [group.value];
      records' := records + [record];
    }
  }

  /** The batch groups in turn: secondary tables, primary table, metadata, index. */
  method ProtectBatches(file: Bytes, index: seq<IndexEntry>, crc: Crc64, shift: nat, m: nat, indexOffset: nat)
    returns (file': Bytes, index': seq<IndexEntry>, groups: seq<Group>, ghost records: seq<GroupRecord>,
             ghost batches: seq<Batch>)
    requires 0 < m < 255
    ensures file <= file' && index <= index' && |groups| <= GROUP_INDEX
    ensures Batched(file, index, file', index', crc, indexOffset, m, batches, groups, records)
    ensures |batches| == GROUP_INDEX
  {
    hide Batched;
    NothingBatched(file, index, crc, indexOffset, m);
    file', index', groups, records, batches :=
      ProtectNext(file, index, crc, shift, m, indexOffset, GROUP_DDT_SECONDARY, [], file, index, [], []);
    file', index', groups, records, batches :=
      ProtectNext(file', index', crc, shift, m, indexOffset, GROUP_DDT_PRIMARY, groups, file, index, records, batches);
    file', index', groups, records, batches :=
      ProtectNext(file', index', crc, shift, m, indexOffset, GROUP_METADATA, groups, file, index, records, batches);
    file', index', groups, records, batches :=
      ProtectNext(file', index', crc, shift, m, indexOffset, GROUP_INDEX, groups, file, index, records, batches);
    BatchedBounds(file, index, file', index', crc, indexOffset, m, batches, groups, records);
  }

  lemma BatchedFits(start: Bytes, startIndex: seq<IndexEntry>, file: Bytes, index: seq<IndexEntry>, crc: Crc64,
                    indexOffset: nat, m: nat, batches: seq<Batch>, groups: seq<Group>, records: seq<GroupRecord>)
    requires Batched(start, startIndex, file, index, crc, indexOffset, m, batches, groups, records)
    requires Fits64(startIndex, indexOffset) && |file| < 0x1_0000_0000_0000_0000
    ensures Fits64(index, indexOffset)
  {
    hide BatchRecords, CollectedSince, StoredWhenReadable, GroupsFit;
    ParityFits(startIndex, index, indexOffset, |start|, |file|);
  }

  lemma BatchedBounds(start: Bytes, startIndex: seq<IndexEntry>, file: Bytes, index: seq<IndexEntry>, crc: Crc64,
                      indexOffset: nat, m: nat, batches: seq<Batch>, groups: seq<Group>, records: seq<GroupRecord>)
    requires Batched(start, startIndex, file, index, crc, indexOffset, m, batches, groups, records)
    ensures start <= file && startIndex <= index && |groups| <= |batches|
  {
    hide BatchRecords, CollectedSince, StoredWhenReadable;
  }

  /** Write the map, its duplicate and the recovery footer. */
  method WriteMap(file: Bytes, crc: Crc64, algorithm: nat, shift: nat, payload: Bytes, groupCount: nat, header: Bytes,
                  ghost groups: seq<Group>)
    returns (file': Bytes, mapOffset: nat, copyOffset: nat)
    requires |header| == IMAGE_HEADER_SIZE && payload == EncodeGroups(groups) && groupCount == |groups|
    ensures file <= file' && |file| <= mapOffset && mapOffset % Pow2(shift) == 0
    ensures MapOnDisk(file', crc, algorithm, header, groups, mapOffset)
    ensures Holds(file', copyOffset, MapBlock(crc, algorithm, groups))
    ensures mapOffset + |MapBlock(crc, algorithm, groups)| <= copyOffset && copyOffset % Pow2(shift) == 0
  {
    hide EncodeGroups, Pow2, Footer.Encoded, MapHeader.Encoded;
    var checksum := MapChecksum(crc, payload);
    var head := MapHeader(ERASURE_MAP_BLOCK, algorithm, groupCount, COMPRESSION_NONE, |payload|, |payload|, checksum,
                          checksum);
    var block := head.Encoded() + payload;
    assert block == MapBlock(crc, algorithm, groups);
    mapOffset := Align(|file|, shift);
    WriteKeepsPrefix(file, mapOffset, block, |file|);
    var one := WriteAt(file, mapOffset, block);
    copyOffset := Align(mapOffset + |block|, shift);
    WriteKeepsPrefix(one, copyOffset, block, |one|);
    var two := WriteAt(one, copyOffset, block);
    var footer := FooterFor(crc, mapOffset, |block|, header).Encoded();
    WriteKeepsPrefix(two, |two|, footer, |two|);
    file' := WriteAt(two, |two|, footer);
    assert one[..|one|] == one && two[..|two|] == two && file[..|file|] == file;
    assert Holds(one, mapOffset, block);
    HoldsInLonger(one, file', mapOffset, block);
    HoldsInLonger(two, file', copyOffset, block);
  }

  // ---- The whole finalization ----

  /** The data group's record: every block ever accumulated, in order, K to a stripe but for the last, and
      where each was written. */
  ghost predicate DataRecord(r: GroupRecord, k: nat, history: seq<Bytes>, offsets: seq<nat>) {
    && r.group.desc.groupType == GROUP_DATA && r.pad == 0 && r.codec.k == k > 0
    && Flatten(r.records) == history && |offsets| == |history|
    && BlockOffsets(r.records) == offsets && Rising(offsets, if |offsets| == 0 then 0 else offsets[|offsets| - 1] + 1)
    && (forall i :: 0 <= i < |r.records| ==> 0 < |r.records[i].contents| <= k)
    && (forall i :: 0 <= i < |r.records| - 1 ==> |r.records[i].contents| == k)
  }

  lemma {:induction false} FullCount(done: seq<StripeRecord>, k: nat)
    requires AllFull(done, k)
    ensures |Flatten(done)| == |done| * k
  {
    if |done| > 0 {
      var n := |done| - 1;
      assert done[n] in done;
      FullCount(done[..n], k);
      assert (n + 1) * k == n * k + k;
    }
  }

  /** Stripe conservation: N blocks end in ceil(N / K) stripes. */
  lemma StripeConservation(r: GroupRecord, k: nat, history: seq<Bytes>, offsets: seq<nat>)
    requires DataRecord(r, k, history, offsets)
    ensures |r.records| == (|history| + k - 1) / k
  {
    var n := |r.records|;
    if n == 0 {
      DivideBetween(k - 1, k, 0);
    } else {
      var full, last := r.records[..n - 1], r.records[n - 1];
      FullCount(full, k);
      CountStep(|history|, n, k, |last.contents|);
    }
  }

  lemma CountStep(total: int, n: int, k: int, last: int)
    requires 0 < last <= k && total == (n - 1) * k + last
    ensures (total + k - 1) / k == n
  {
    assert n * k == (n - 1) * k + k;
    DivideBetween(total + k - 1, k, n);
  }

  lemma DivideBetween(x: int, k: int, q: int)
    requires k > 0 && q * k <= x < q * k + k
    ensures x / k == q
  {
    var d, r := x / k, x % k;
    assert x == k * d + r;
    assert k * (d - q) == k * d - k * q;
    MulAtLeast(k, d - q);
  }

  lemma DescriptorsFit(disk: Bytes, c: Codec, crc: Crc64, done: seq<StripeRecord>, shardSize: nat)
    requires AllStored(disk, c, crc, done, shardSize)
    ensures forall i :: 0 <= i < |done| ==>
              |Descriptors(done)[i].entries| < 0x1_0000 && |Descriptors(done)[i].parity| == c.m
  {
    hide MaxSize, EntryStored, Holds;
    forall i | 0 <= i < |done|
      ensures |Descriptors(done)[i].entries| < 0x1_0000 && |Descriptors(done)[i].parity| == c.m
    {
      assert StripeStored(disk, c, crc, 0, TYPE_ERASURE_PARITY, done[i]);
    }
  }

  lemma BookedStripes(c: Codec, crc: Crc64, file: Bytes, slots: Slots, count: nat, total: nat, stripes: Bytes,
                      shardSize: nat, g: Ledger)
    requires Booked(c, crc, file, slots, count, total, stripes, shardSize, g)
    ensures stripes == EncodeStripes(Descriptors(g.done)) && g.history == Flatten(g.done) + g.open
    ensures g.settled <= |file| && AllStored(file, c, crc, g.done, shardSize)
    ensures |g.offsets| == |g.history| && (count == 0 ==> g.offsets == BlockOffsets(g.done))
    ensures Rising(g.offsets, if |g.offsets| == 0 then 0 else g.offsets[|g.offsets| - 1] + 1)
  {
    hide AllStored, OpenStored, BlockOffsets;
    if count == 0 { assert slots.offsets[..0] == []; }
    AllStayStored(file[..g.settled], file, c, crc, g.done, shardSize);
  }

  lemma DataGroupIsStored(disk: Bytes, crc: Crc64, r: GroupRecord, c: Codec, shardSize: nat)
    requires IsCodec(c) && shardSize < 0x1_0000_0000 && AllStored(disk, c, crc, r.records, shardSize)
    requires r.codec == c && r.pad == 0 && r.kind == TYPE_ERASURE_PARITY
    requires r.group == Group(GroupDescriptor(GROUP_DATA, c.k, c.m, shardSize, |r.records|, c.k),
                              Descriptors(r.records))
    ensures GroupStored(disk, crc, r)
  {
    hide StripeStored, MaxSize;
  }

  /** Only the stripe flushed last can be partial. */
  lemma LastStripeOnly(before: Ledger, after: Ledger, c: Codec, crc: Crc64, disk: Bytes, shardSize: nat)
    requires AllFull(before.done, c.k) && before.history == after.history == Flatten(after.done) + after.open
    requires |before.open| < c.k && after.open == [] && AllStored(disk, c, crc, after.done, shardSize)
    requires if |before.open| == 0 then after.done == before.done
             else |after.done| == |before.done| + 1 && after.done[..|before.done|] == before.done
                  && after.done[|before.done|].contents == before.open
    ensures Flatten(after.done) == before.history
    ensures forall i :: 0 <= i < |after.done| ==> 0 < |after.done[i].contents| <= c.k
    ensures forall i :: 0 <= i < |after.done| - 1 ==> |after.done[i].contents| == c.k
  {
    hide Flatten, EntryStored, Holds, ParityBlock, ParityPayload, MaxSize;
    assert Flatten(after.done) + [] == Flatten(after.done);
    forall i | 0 <= i < |after.done|
      ensures 0 < |after.done[i].contents| <= c.k
      ensures i < |after.done| - 1 ==> |after.done[i].contents| == c.k
    {
      assert StripeStored(disk, c, crc, 0, TYPE_ERASURE_PARITY, after.done[i]);
      if i < |before.done| {
        assert after.done[i] == after.done[..|before.done|][i];
      }
    }
  }

  /** Flush the last partial stripe and serialize the data group. */
  method CloseDataGroup(w: Writer) returns (bytes: Bytes, ghost record: GroupRecord)
    requires w.Valid()
    modifies w, w.parity
    ensures old(w.file) <= w.file && OnlyParityAdded(old(w.index), w.index, |old(w.file)|, |w.file|)
    ensures bytes == EncodeGroup(record.group) && GroupStored(w.file, w.crc, record)
    ensures DataRecord(record, w.codec.k, old(w.ledger.history), old(w.ledger.offsets)) && record.codec == w.codec
    ensures record.kind == TYPE_ERASURE_PARITY
  {
    hide IsCodec, Booked, ParityInvariant, AllFull, AllStored, GroupStored, EncodeStripes, Flatten, BlockOffsets;
    hide Rising, DataRecord;
    hide Descriptors, MaxSize;
    ghost var before := w.ledger;
    BookedCount(w.codec, w.crc, w.file, w.slots, w.count, w.total, w.stripes, w.shardSize, before);
    w.FlushStripe();
    ghost var after := w.ledger;
    BookedCount(w.codec, w.crc, w.file, w.slots, w.count, w.total, w.stripes, w.shardSize, after);
    BookedStripes(w.codec, w.crc, w.file, w.slots, w.count, w.total, w.stripes, w.shardSize, after);
    DescriptorsFit(w.file, w.codec, w.crc, after.done, w.shardSize);
    CodecShape(w.codec);
    var stripeCount := CountStripes(w.stripes, w.codec.m, Descriptors(after.done));
    var desc := GroupDescriptor(GROUP_DATA, w.codec.k, w.codec.m, w.shardSize, stripeCount, w.codec.k);
    bytes := desc.Encoded() + w.stripes;
    record := GroupRecord(Group(desc, Descriptors(after.done)), w.codec, 0, TYPE_ERASURE_PARITY, after.done);
    DataGroupIsStored(w.file, w.crc, record, w.codec, w.shardSize);
    LastStripeOnly(before, after, w.codec, w.crc, w.file, w.shardSize);
    RecordIsMade(record, w.codec.k, before.history, before.offsets);
  }

  lemma RecordIsMade(r: GroupRecord, k: nat, history: seq<Bytes>, offsets: seq<nat>)
    requires r.group.desc.groupType == GROUP_DATA && r.pad == 0 && r.codec.k == k > 0
    requires Flatten(r.records) == history && |offsets| == |history| && BlockOffsets(r.records) == offsets
    requires Rising(offsets, if |offsets| == 0 then 0 else offsets[|offsets| - 1] + 1)
    requires forall i :: 0 <= i < |r.records| ==> 0 < |r.records[i].contents| <= k
    requires forall i :: 0 <= i < |r.records| - 1 ==> |r.records[i].contents| == k
    ensures DataRecord(r, k, history, offsets)
  {
  }

  /** `ec_finalize`: protect everything accumulated and everything the index leads to, and end the image
      with the map and the recovery footer.  `header` is the image header, `indexOffset` its pointer to
      the index. */
  method Finalize(w: Writer, header: Bytes, indexOffset: nat)
    returns (ghost records: seq<GroupRecord>, ghost batches: seq<Batch>, ghost mapOffset: nat, ghost copyOffset: nat)
    requires w.Valid() && |header| == IMAGE_HEADER_SIZE
    modifies w, w.parity
    ensures old(w.file) <= w.file && old(w.index) <= w.index
    ensures |records| > 0 && records[0].codec == w.codec && records[0].kind == TYPE_ERASURE_PARITY
    ensures DataRecord(records[0], w.codec.k, old(w.ledger.history), old(w.ledger.offsets))
    ensures GroupStored(w.file, w.crc, records[0])
    ensures MapOnDisk(w.file, w.crc, w.algorithm, header, GroupsOf(records), mapOffset)
    ensures BatchesDone(old(w.file), old(w.index), w.file, indexOffset, w.codec.m, batches, records)
    ensures AllReadable(batches) ==> Protected(w.file, w.crc, w.algorithm, header, records, mapOffset, copyOffset)
    ensures |records| <= 5 && StoredWhenReadable(w.file, w.crc, batches, records[1..])
    ensures Fits64(old(w.index), indexOffset) && |w.file| < 0x1_0000_0000_0000_0000 ==>
              GroupsFit(GroupsOf(records)[1..])
  {
    hide Fits64, GroupsFit;
    hide IsCodec, Booked, ParityInvariant, AllFull, GroupStored, DataRecord, GroupsStored, MapBlock, Batched;
    hide AllReadable, StoredWhenReadable;
    hide EncodeGroup, EncodeGroups, MapOnDisk, BatchesDone, OnlyParityAdded;
    CodecShape(w.codec);
    ghost var start, startIndex := w.file, w.index;
    var dataBytes;
    ghost var dataRecord;
    dataBytes, dataRecord := CloseDataGroup(w);
    var file, index, groups;
    ghost var batchRecords;
    file, index, groups, batchRecords, batches :=
      ProtectBatches(w.file, w.index, w.crc, w.shift, w.codec.m, indexOffset);
    records := [dataRecord] + batchRecords;
    BatchedFacts(start, startIndex, w.file, w.index, file, index, w.crc, indexOffset, w.codec.m, batches, groups,
                 batchRecords, dataRecord);
    assert GroupsOf(records)[1..] == groups;
    var payload := SerializeGroups(dataBytes, groups, dataRecord.group);
    ghost var all := [dataRecord.group] + groups;
    assert all == GroupsOf(records);
    var final, at, copy := WriteMap(file, w.crc, w.algorithm, w.shift, payload, |groups| + 1, header, all);
    mapOffset, copyOffset := at, copy;
    GroupStaysStored(file, final, w.crc, dataRecord);
    StoredInLonger(file, final, w.crc, batches, batchRecords);
    assert records[1..] == batchRecords;
    if AllReadable(batches) {
      AllAreStored(final, w.crc, batches, batchRecords);
      AllGroups(final, w.crc, dataRecord, batchRecords);
    }
    DoneInLonger(start, startIndex, file, final, indexOffset, w.codec.m, batches, records);
    w.file := final;
    w.index := index;
  }

  /** The four batch groups: what each collected, and the records of those that are not empty. */
  ghost predicate BatchesDone(start: Bytes, startIndex: seq<IndexEntry>, file: Bytes, indexOffset: nat, m: nat,
                              batches: seq<Batch>, records: seq<GroupRecord>) {
    && |batches| == GROUP_INDEX && m < 255 && |records| > 0
    && (forall i :: 0 <= i < |batches| ==>
          CollectedSince(start, startIndex, indexOffset, m, i + 1, batches[i]) && batches[i].file <= file)
    && BatchRecords(m, batches, records[1..])
  }

  lemma BatchedFacts(start: Bytes, startIndex: seq<IndexEntry>, middle: Bytes, middleIndex: seq<IndexEntry>,
                     file: Bytes, index: seq<IndexEntry>, crc: Crc64, indexOffset: nat, m: nat, batches: seq<Batch>,
                     groups: seq<Group>, batchRecords: seq<GroupRecord>, dataRecord: GroupRecord)
    requires start <= middle && OnlyParityAdded(startIndex, middleIndex, |start|, |middle|)
    requires Batched(middle, middleIndex, file, index, crc, indexOffset, m, batches, groups, batchRecords)
    requires |batches| == GROUP_INDEX && GroupStored(middle, crc, dataRecord)
    ensures middle <= file && middleIndex <= index && startIndex <= index && groups == GroupsOf(batchRecords)
    ensures GroupStored(file, crc, dataRecord)
    ensures BatchesDone(start, startIndex, file, indexOffset, m, batches, [dataRecord] + batchRecords)
    ensures StoredWhenReadable(file, crc, batches, batchRecords)
    ensures Fits64(startIndex, indexOffset) && |file| < 0x1_0000_0000_0000_0000 ==> GroupsFit(groups)
  {
    hide GroupStored, BatchRecords, CollectRequest, StoredWhenReadable, GroupsFit;
    if |middle| < 0x1_0000_0000_0000_0000 {
      ParityFits(startIndex, middleIndex, indexOffset, |start|, |middle|);
    }
    assert ([dataRecord] + batchRecords)[1..] == batchRecords;
    GroupStaysStored(middle, file, crc, dataRecord);
    forall i | 0 <= i < |batches|
      ensures CollectedSince(start, startIndex, indexOffset, m, i + 1, batches[i])
    {
      assert CollectedSince(middle, middleIndex, indexOffset, m, i + 1, batches[i]);
      AddedTrans(startIndex, middleIndex, batches[i].index, |start|, |middle|, |batches[i].file|);
    }
  }

  lemma DoneInLonger(start: Bytes, startIndex: seq<IndexEntry>, file: Bytes, longer: Bytes, indexOffset: nat, m: nat,
                     batches: seq<Batch>, records: seq<GroupRecord>)
    requires BatchesDone(start, startIndex, file, indexOffset, m, batches, records) && file <= longer
    ensures BatchesDone(start, startIndex, longer, indexOffset, m, batches, records)
  {
    hide CollectedSince, BatchRecords;
    forall i | 0 <= i < |batches|
      ensures batches[i].file <= longer
    {
      assert CollectedSince(start, startIndex, indexOffset, m, i + 1, batches[i]) && batches[i].file <= file;
    }
  }

  lemma AllGroups(disk: Bytes, crc: Crc64, first: GroupRecord, rest: seq<GroupRecord>)
    requires GroupStored(disk, crc, first) && GroupsStored(disk, crc, rest)
    ensures GroupsStored(disk, crc, [first] + rest)
  {
    hide GroupStored;
  }

  /** The payload of the map: the data group, then the batch groups present. */
  method SerializeGroups(dataBytes: Bytes, groups: seq<Group>, ghost data: Group) returns (payload: Bytes)
    requires dataBytes == EncodeGroup(data)
    ensures payload == EncodeGroups([data] + groups)
  {
    hide EncodeGroup;
    payload := dataBytes;
    ghost var all := [data] + groups;
    NextGroup(all, 0);
    assert all[..1] == [data] && all[..0] == [];
    for i := 0 to |groups|
      invariant payload == EncodeGroups(all[..i + 1])
    {
      NextGroup(all, i + 1);
      payload := payload + EncodeGroup(groups[i]);
    }
    assert all[..|groups| + 1] == all;
  }
}
