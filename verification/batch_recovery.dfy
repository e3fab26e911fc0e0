/** Recovering what the batch groups protect: the secondary tables and metadata blocks of a finalized image,
    from the damaged file, and when that is possible at all.
 */
module BatchRecovery {
  import opened Wrappers
  import opened Octet
  import opened Linear
  import opened ReedSolomon
  import opened ImageFile
  import opened Parity
  import opened ErasureFormat
  import opened ErasureMap
  import opened ErasureWrite
  import opened ErasureCollect
  import opened ErasureFinalize
  import opened ErasureRead
  import opened ErasureTheorem
  import opened ErasureGroups
  import opened ErasureClasses
  import opened ErasureRecovery
  import opened BlockIndex

  // ---- When recovery is available ----

  /** A reader of the image can recover blocks: a data block was accumulated, or the index leads to blocks
      that are neither user data nor parity nor tables nor an index, and to no more of them than one stripe
      holds. */
  ghost predicate Recovers(f: FinalImage) {
    f.history != [] || 0 < |PlacesOf(f.startIndex, OtherBlock)| <= 255 - f.codec.m
  }

  /** Every batch record was made for a batch that is not empty. */
  lemma {:induction false} BatchOfRecord(m: nat, batches: seq<Batch>, records: seq<GroupRecord>,
                                         k: nat) returns (i: nat)
    requires m < 255 && forall j :: 0 <= j < |batches| ==> batches[j].request.WellFormed()
    requires BatchRecords(m, batches, records) && k < |records|
    ensures i < |batches| && |batches[i].request.offsets| > 0
    ensures BatchRecord(batches[i].file, m, batches[i].request, records[k])
    decreases |batches|
  {
    hide BatchRecord, BatchRequest.WellFormed;
    var n := |batches| - 1;
    if |batches[n].request.offsets| > 0 && k == |records| - 1 {
      i := n;
    } else {
      var rest := if |batches[n].request.offsets| == 0 then records else records[..|records| - 1];
      i := BatchOfRecord(m, batches[..n], rest, k);
    }
  }

  /** The group of a type is there exactly when its batch collected something. */
  lemma GroupIsThereIff(f: FinalImage, groupType: nat)
    requires f.Valid() && GROUP_DATA < groupType <= GROUP_INDEX
    ensures (exists g :: 0 <= g < |f.records| && f.records[g].group.desc.groupType == groupType)
            <==> |f.batches[groupType - 1].request.offsets| > 0
    ensures forall g :: 0 <= g < |f.records| && f.records[g].group.desc.groupType == groupType ==>
              |f.records[g].group.stripes| == 1
  {
    hide GroupStored, MapOnDisk, BatchRecords, BatchRecord, CollectRequest, BatchRequest.WellFormed, GroupsFit;
    hide StoredWhenReadable, OnlyParityAdded, Flatten, BlockOffsets, Rising;
    var start, startIndex, m := f.start, f.startIndex, f.codec.m;
    var request := f.batches[groupType - 1].request;
    if |request.offsets| > 0 {
      var g := GroupOfBatch(start, startIndex, f.written, f.indexOffset, m, f.batches, f.records, groupType);
    }
    forall g | 0 <= g < |f.records| && f.records[g].group.desc.groupType == groupType
      ensures |request.offsets| > 0 && |f.records[g].group.stripes| == 1
    {
      var i := BatchOfRecord(m, f.batches, f.records[1..], g - 1);
      assert f.records[1..][g - 1] == f.records[g];
      assert CollectedSince(start, startIndex, f.indexOffset, m, i + 1, f.batches[i]);
      RecordShape(f.batches[i].file, m, f.batches[i].request, f.records[g]);
    }
  }

  lemma RecordShape(file: Bytes, m: nat, req: BatchRequest, r: GroupRecord)
    requires req.WellFormed() && m < 255 && BatchRecord(file, m, req, r)
    ensures r.group.desc.groupType == req.groupType && |r.group.stripes| == |r.records| == 1
  {
  }

  /** Recovery is available exactly when a data block was accumulated or the metadata group was made, both
      known before anything is read: the protected secondary tables do not count. */
  lemma AvailableExactlyWhen(f: FinalImage)
    requires f.Valid()
    ensures Usable(GroupsOf(f.records)) <==> Recovers(f)
  {
    hide GroupStored, MapOnDisk, BatchesDone, GroupsFit, StoredWhenReadable, Selected, BlockOffsets, Rising, Flatten;
    var groups := GroupsOf(f.records);
    DataStripes(f);
    MetadataRequested(f);
    SelectedCount(f.startIndex, OtherBlock);
    GroupIsThereIff(f, GROUP_METADATA);
    if Recovers(f) {
      var g: nat := 0;
      if f.history == [] {
        g :| 0 <= g < |f.records| && f.records[g].group.desc.groupType == GROUP_METADATA;
      }
      OneGroupOfEachType(f.start, f.startIndex, f.written, f.indexOffset, f.codec.m, f.batches, f.records, g);
      assert UsableAt(groups, |groups|, g);
    }
    if g: nat :| UsableAt(groups, |groups|, g) {
      OneGroupOfEachType(f.start, f.startIndex, f.written, f.indexOffset, f.codec.m, f.batches, f.records, g);
    }
  }

  lemma DataStripes(f: FinalImage)
    requires f.Valid()
    ensures |f.records[0].group.stripes| > 0 <==> f.history != []
    ensures f.records[0].group.desc.groupType == GROUP_DATA
  {
    hide MapOnDisk, BatchesDone, GroupsFit, StoredWhenReadable, StripeStored, MaxSize, BlockOffsets, Rising;
    var r := f.records[0];
    assert Descriptors(r.records) == r.group.stripes;
    if |r.records| > 0 { assert |r.records[|r.records| - 1].contents| > 0; }
  }

  lemma MetadataRequested(f: FinalImage)
    requires f.Valid()
    ensures |f.batches| == GROUP_INDEX
    ensures |f.batches[GROUP_METADATA - 1].request.offsets| > 0
            <==> 0 < |Selected(f.startIndex, Metadata)| <= 255 - f.codec.m
  {
    hide GroupStored, MapOnDisk, BatchRecords, GroupsFit, StoredWhenReadable, Selected, OnlyParityAdded, Sizes;
    hide DataRecord;
    var b := f.batches[GROUP_METADATA - 1];
    assert CollectedSince(f.start, f.startIndex, f.indexOffset, f.codec.m, GROUP_METADATA, b);
    SelectionStays(f.startIndex, b.index, Metadata, |f.start|, |b.file|);
  }

  // ---- One collected block ----

  ghost predicate DistinctPlaces(offsets: seq<nat>) {
    forall i, j :: 0 <= i < j < |offsets| ==> offsets[i] != offsets[j]
  }

  /** The group that a batch made, on disk when the batch could be read whole. */
  lemma GroupFor(f: FinalImage, groupType: nat) returns (g: nat)
    requires f.Valid() && GROUP_DATA < groupType <= GROUP_INDEX
    requires var b := f.batches[groupType - 1]; |b.request.offsets| > 0 && BatchReadable(b.file, b.request)
    ensures var b := f.batches[groupType - 1];
            && 0 < g < |f.records| && f.records[g].group.desc.groupType == groupType
            && f.codec.m < 255 && BatchRecord(b.file, f.codec.m, b.request, f.records[g])
            && b.request.groupType == groupType && b.file <= f.written
            && GroupStored(f.written, f.crc, f.records[g])
  {
    hide GroupStored, MapOnDisk, BatchRecords, BatchRecord, CollectRequest, BatchRequest.WellFormed, GroupsFit;
    hide OnlyParityAdded, Flatten, BlockOffsets, Rising;
    var b := f.batches[groupType - 1];
    g := GroupOfBatch(f.start, f.startIndex, f.written, f.indexOffset, f.codec.m, f.batches, f.records, groupType);
    assert CollectedSince(f.start, f.startIndex, f.indexOffset, f.codec.m, groupType, b) && b.file <= f.written;
    assert f.records[1..][g - 1] == f.records[g];
  }

  /** Block `p` of a batch that was read whole is entry `p` of the only stripe of its group. */
  lemma CollectedPosition(file: Bytes, written: Bytes, crc: Crc64, m: nat, req: BatchRequest,
                          records: seq<GroupRecord>, g: nat, p: nat)
    requires g < |records| && m < 255 && BatchReadable(file, req) && BatchRecord(file, m, req, records[g])
    requires file <= written && GroupStored(written, crc, records[g]) && records[g].kind < 0x1_0000
    requires p < |req.offsets| && p + m < 255 && DistinctPlaces(req.offsets)
    ensures IsBlock(records, g, 0, p, req.offsets[p])
    ensures DistinctOffsets(AllAsRead(records[g].group.stripes))
    ensures req.offsets[p] + req.sizes[p] <= |written|
    ensures Recorded(records[g], 0, p, written[req.offsets[p]..req.offsets[p] + req.sizes[p]])
  {
    hide IsCodec, StripeStored, MaxSize;
    var r := records[g];
    StoredCounts(written, crc, r);
    OneStripe(r, req.offsets);
    var from, to := req.offsets[p], req.offsets[p] + req.sizes[p];
    assert written[..|file|] == file;
    assert file[from..to] == written[from..to];
  }

  lemma OneStripe(r: GroupRecord, offsets: seq<nat>)
    requires |r.records| == 1 && r.group.stripes == Descriptors(r.records) && r.codec.k <= |offsets|
    requires EntryOffsets(r.records[0].stripe) == offsets[..r.codec.k] && DistinctPlaces(offsets)
    ensures |r.records[0].stripe.entries| == r.codec.k
    ensures forall p :: 0 <= p < r.codec.k ==> r.records[0].stripe.entries[p].offset == offsets[p]
    ensures DistinctOffsets(AllAsRead(r.group.stripes))
  {
    var s := r.records[0].stripe;
    assert |EntryOffsets(s)| == r.codec.k;
    assert forall p :: 0 <= p < r.codec.k ==> EntryOffsets(s)[p] == offsets[p];
  }

  /** Nothing else about the image has to be assumed to recover a collected block. */
  lemma CollectedIsRecoverable(f: FinalImage, disk: Bytes, decode: Decode, groupType: nat, g: nat, p: nat)
    requires f.Valid() && f.Addressable() && groupType in {GROUP_DDT_SECONDARY, GROUP_METADATA}
    requires var b := f.batches[groupType - 1];
             && p < |b.request.offsets| && p + f.codec.m < 255 && DistinctPlaces(b.request.offsets)
             && BatchReadable(b.file, b.request)
    requires g < |f.records| && f.records[g].group.desc.groupType == groupType
    requires DamageReported(f, disk, decode, g, 0)
    ensures var req := f.batches[groupType - 1].request;
            && |req.offsets| == |req.sizes| && req.offsets[p] + req.sizes[p] <= |f.written|
            && Recorded(f.records[g], 0, p, f.written[req.offsets[p]..req.offsets[p] + req.sizes[p]])
            && DamagedImage(disk, f.written, f.crc, decode, f.algorithm, f.header, f.records, f.mapOffset, g, 0, p,
                            req.offsets[p])
  {
    hide GroupStored, MapOnDisk, BatchesDone, Fits64, GroupsFit, EncodeGroups, DamageShows, DataRecord, BatchRecord;
    hide StoredWhenReadable, OnlyGroupOfType, DistinctOffsets, DistinctPlaces, Recorded;
    MetadataRequested(f);
    var b := f.batches[groupType - 1];
    var g' := GroupFor(f, groupType);
    DataStripes(f);
    OneGroupOfEachType(f.start, f.startIndex, f.written, f.indexOffset, f.codec.m, f.batches, f.records, g);
    SameGroup(GroupsOf(f.records), g, g', groupType);
    KindOfRecord(b.file, f.codec.m, b.request, f.records[g]);
    CollectedPosition(b.file, f.written, f.crc, f.codec.m, b.request, f.records, g, p);
    AllGroupsFit(f.written, f.crc, f.records);
  }

  lemma SameGroup(groups: seq<Group>, g: nat, g': nat, groupType: nat)
    requires OnlyGroupOfType(groups, g, groupType) && g' < |groups| && groups[g'].desc.groupType == groupType
    ensures g == g'
  {
  }

  lemma KindOfRecord(file: Bytes, m: nat, req: BatchRequest, r: GroupRecord)
    requires req.WellFormed() && m < 255 && BatchRecord(file, m, req, r)
    ensures r.kind < 0x1_0000
  {
  }

  /** Rebuild a collected block of a secondary table or metadata group from a damaged disk: it comes back
      byte for byte exactly when recovery is available and at most M shards of its stripe are lost. */
  method RecoverCollected(disk: Bytes, crc: Crc64, inflate: Inflate, offset: nat, groupType: nat, ghost f: FinalImage,
                          ghost g: nat, ghost p: nat)
    returns (bytes: Option<Bytes>)
    requires f.Valid() && f.Addressable() && crc == f.crc && groupType in {GROUP_DDT_SECONDARY, GROUP_METADATA}
    requires var b := f.batches[groupType - 1];
             && p < |b.request.offsets| && p + f.codec.m < 255 && DistinctPlaces(b.request.offsets)
             && BatchReadable(b.file, b.request) && offset == b.request.offsets[p]
    requires g < |f.records| && f.records[g].group.desc.groupType == groupType
    requires DamageReported(f, disk, None, g, 0)
    ensures bytes.Some? <==> Recovers(f) && EnoughSurvive(disk, crc, f.records[g], 0)
    ensures var req := f.batches[groupType - 1].request;
            && |req.sizes| == |req.offsets| && offset + req.sizes[p] <= |f.written|
            && (bytes.Some? ==> bytes.value == f.written[offset..offset + req.sizes[p]])
  {
    hide FinalImage.Valid, FinalImage.Addressable, DamagedImage, DamageReported, EnoughSurvive, Recovers, Usable;
    CollectedIsRecoverable(f, disk, None, groupType, g, p);
    AvailableExactlyWhen(f);
    BlockOfImage(disk, f.written, crc, None, f.algorithm, f.header, f.records, f.mapOffset, g, 0, p, offset);
    var reader := new Reader(crc, inflate, disk);
    bytes := LoadAndRecover(reader, offset, f.written, f.algorithm, f.header, f.records, f.mapOffset, g, 0, p,
                            groupType);
  }

  // ---- Short blocks ----

  /** How many of the blocks are shorter than `size`. */
  function ShortBlocks(blocks: seq<Bytes>, size: nat): nat {
    if |blocks| == 0 then 0 else
      ShortBlocks(blocks[..|blocks| - 1], size) + if |blocks[|blocks| - 1]| < size then 1 else 0
  }

  /** The checksum tells every block of the stripe from its padded form. */
  ghost predicate TellsPadding(crc: Crc64, blocks: seq<Bytes>, pad: nat) {
    forall j :: 0 <= j < |blocks| && |blocks[j]| < pad ==> crc(blocks[j]) != crc(Padded(blocks[j], pad))
  }

  lemma {:induction false} ShortAreErased(flags: seq<bool>, blocks: seq<Bytes>, size: nat)
    requires |blocks| <= |flags| && forall i :: 0 <= i < |blocks| ==> (flags[i] <==> size <= |blocks[i]|)
    requires forall i :: |blocks| <= i < |flags| ==> flags[i]
    ensures Erased(flags) == ShortBlocks(blocks, size)
    decreases |flags|
  {
    if |flags| > 0 {
      var n := |flags| - 1;
      ShortAreErased(flags[..n], if |blocks| == |flags| then blocks[..n] else blocks, size);
    }
  }

  lemma FlagCount(disk: Bytes, crc: Crc64, c: Codec, pad: nat, kind: nat, r: StripeRecord)
    requires StripeStored(disk, c, crc, pad, kind, r) && |r.contents| == c.k && TellsPadding(crc, r.contents, pad)
    ensures Erased(SurvivingFlags(disk, crc, c, pad, kind, r)) == ShortBlocks(r.contents, pad)
  {
    hide ParityBlock, ParityPayload, MaxSize, Holds, Erased;
    var flags := SurvivingFlags(disk, crc, c, pad, kind, r);
    forall i | 0 <= i < |r.contents|
      ensures flags[i] <==> pad <= |r.contents[i]|
    {
      assert EntryStored(disk, crc, pad, r.stripe.entries[i], r.contents[i]);
    }
    ShortAreErased(flags, r.contents, pad);
  }

  /** An image as finalized, nothing damaged: the blocks of a batch group are recoverable exactly when at most
      M of them are shorter than the longest, under a checksum that tells blocks from their padded forms. */
  lemma UndamagedBatchIff(f: FinalImage, decode: Decode, groupType: nat, g: nat)
    requires f.Valid() && |f.written| < 0x1_0000_0000_0000_0000
    requires |EncodeGroups(GroupsOf(f.records))| <= MAP_SIZE_LIMIT
    requires groupType in {GROUP_DDT_SECONDARY, GROUP_METADATA}
    requires var b := f.batches[groupType - 1]; |b.request.offsets| > 0 && BatchReadable(b.file, b.request)
    requires g < |f.records| && f.records[g].group.desc.groupType == groupType && |f.records[g].records| == 1
    requires TellsPadding(f.crc, f.records[g].records[0].contents, f.records[g].pad)
    ensures DamageReported(f, f.written, decode, g, 0)
    ensures var contents := f.records[g].records[0].contents;
            EnoughSurvive(f.written, f.crc, f.records[g], 0) <==> ShortBlocks(contents, MaxSize(contents)) <= f.codec.m
  {
    hide GroupStored, MapOnDisk, BatchesDone, GroupsFit, EncodeGroups, DamageShows, DataRecord, BatchRecord;
    hide StoredWhenReadable, OnlyGroupOfType, SurvivingFlags, Erased, TellsPadding, MaxSize;
    MetadataRequested(f);
    var b := f.batches[groupType - 1];
    var g' := GroupFor(f, groupType);
    DataStripes(f);
    OneGroupOfEachType(f.start, f.startIndex, f.written, f.indexOffset, f.codec.m, f.batches, f.records, g);
    SameGroup(GroupsOf(f.records), g, g', groupType);
    var r := f.records[g];
    StoredStripe(f.written, f.crc, r);
    RecordIsFull(b.file, f.codec.m, b.request, r);
    NoDamageShows(f.written, f.crc, decode, r.codec, r.pad, r.kind, r.records[0], r.group.desc.shardSize);
    FlagCount(f.written, f.crc, r.codec, r.pad, r.kind, r.records[0]);
  }

  lemma StoredStripe(disk: Bytes, crc: Crc64, r: GroupRecord)
    requires GroupStored(disk, crc, r) && |r.records| > 0
    ensures StripeStored(disk, r.codec, crc, r.pad, r.kind, r.records[0]) && Shaped(r.codec)
    ensures |r.records[0].contents| == |r.records[0].stripe.entries| && |r.records[0].stripe.parity| == r.codec.m
  {
    hide EntryStored, Holds, MaxSize;
    CodecShape(r.codec);
  }

  lemma RecordIsFull(file: Bytes, m: nat, req: BatchRequest, r: GroupRecord)
    requires req.WellFormed() && m < 255 && BatchRecord(file, m, req, r)
    ensures |r.records| == 1 && |r.records[0].contents| == r.codec.k && r.codec.m == m
    ensures r.pad == MaxSize(r.records[0].contents)
  {
    hide MaxSize;
  }
}
