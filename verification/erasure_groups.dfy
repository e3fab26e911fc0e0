/** What the batch groups of a finalized image protect: every table and metadata block the index leads to,
    and the index itself (`ec_finalize`, src/erasure.c).
 */
module ErasureGroups {
  import opened Wrappers
  import opened Octet
  import opened ReedSolomon
  import opened ImageFile
  import opened ErasureFormat
  import opened ErasureMap
  import opened ErasureWrite
  import opened ErasureCollect
  import opened ErasureFinalize
  import opened ErasureTheorem
  import opened BlockIndex
  import opened IndexBlock
  import opened DdtTable

  /** The record of a batch that is not empty. */
  lemma {:induction false} RecordOfBatch(m: nat, batches: seq<Batch>, records: seq<GroupRecord>,
                                         i: nat) returns (k: nat)
    requires m < 255 && forall j :: 0 <= j < |batches| ==> batches[j].request.WellFormed()
    requires BatchRecords(m, batches, records) && i < |batches| && |batches[i].request.offsets| > 0
    ensures k < |records| && BatchRecord(batches[i].file, m, batches[i].request, records[k])
    decreases |batches|
  {
    hide BatchRecord, BatchRequest.WellFormed;
    var n := |batches| - 1;
    if i == n {
      k := |records| - 1;
    } else {
      var rest := if |batches[n].request.offsets| == 0 then records else records[..|records| - 1];
      k := RecordOfBatch(m, batches[..n], rest, i);
    }
  }

  lemma {:induction false} TypesIncrease(m: nat, batches: seq<Batch>, records: seq<GroupRecord>)
    requires m < 255 && forall j :: 0 <= j < |batches| ==>
              batches[j].request.WellFormed() && batches[j].request.groupType == j + 1
    requires BatchRecords(m, batches, records)
    ensures forall k :: 0 <= k < |records| ==> 0 < records[k].group.desc.groupType <= |batches|
    ensures forall k, l :: 0 <= k < l < |records| ==> records[k].group.desc.groupType < records[l].group.desc.groupType
  {
    hide BatchRequest.WellFormed, BatchRecord;
    if |batches| > 0 {
      var n := |batches| - 1;
      if |batches[n].request.offsets| == 0 {
        TypesIncrease(m, batches[..n], records);
      } else {
        var last := |records| - 1;
        TypeOfRecord(batches[n].file, m, batches[n].request, records[last]);
        TypesIncrease(m, batches[..n], records[..last]);
        forall k | 0 <= k < last
          ensures 0 < records[k].group.desc.groupType <= n
        {
          assert records[..last][k] == records[k];
        }
        forall k, l | 0 <= k < l < |records|
          ensures records[k].group.desc.groupType < records[l].group.desc.groupType
        {
          if l < last { assert records[..last][k] == records[k] && records[..last][l] == records[l]; }
        }
      }
    }
  }

  /** No two groups of a map have the same type, so a reader loads each of them. */
  lemma OneGroupOfEachType(start: Bytes, startIndex: seq<IndexEntry>, file: Bytes, indexOffset: nat, m: nat,
                           batches: seq<Batch>, records: seq<GroupRecord>, g: nat)
    requires BatchesDone(start, startIndex, file, indexOffset, m, batches, records)
    requires records[0].group.desc.groupType == GROUP_DATA && g < |records|
    requires records[g].group.desc.groupType in {GROUP_DATA, GROUP_DDT_SECONDARY, GROUP_METADATA}
    ensures OnlyGroupOfType(GroupsOf(records), g, records[g].group.desc.groupType)
  {
    hide BatchRecords, CollectRequest, BatchRequest.WellFormed, OnlyParityAdded;
    TypesIncrease(m, batches, records[1..]);
    forall j | 0 <= j < |records|
      ensures records[j].group.desc.groupType == records[g].group.desc.groupType <==> j == g
    {
      if j > 0 { assert records[j] == records[1..][j - 1]; }
      if g > 0 { assert records[g] == records[1..][g - 1]; }
    }
  }

  /** A sound image is protected as a whole: every collected block can be read. */
  lemma SoundImageIsReadable(start: Bytes, startIndex: seq<IndexEntry>, file: Bytes, indexOffset: nat, m: nat,
                             batches: seq<Batch>, records: seq<GroupRecord>)
    requires BatchesDone(start, startIndex, file, indexOffset, m, batches, records)
    requires Collectable(start, startIndex, indexOffset, |file|)
    ensures AllReadable(batches)
  {
    hide BatchRecords, CollectRequest, OnlyParityAdded, BatchReadable, Collectable;
    forall i | 0 <= i < |batches|
      ensures BatchReadable(batches[i].file, batches[i].request)
    {
      var b := batches[i];
      assert CollectedSince(start, startIndex, indexOffset, m, i + 1, b) && b.file <= file;
      CollectedIsReadable(start, startIndex, indexOffset, |file|, b.file, b.index, m, i + 1);
    }
  }

  /** The group's record, for a group that collected something. */
  lemma GroupOfBatch(start: Bytes, startIndex: seq<IndexEntry>, file: Bytes, indexOffset: nat, m: nat,
                     batches: seq<Batch>, records: seq<GroupRecord>, groupType: nat) returns (g: nat)
    requires BatchesDone(start, startIndex, file, indexOffset, m, batches, records)
    requires GROUP_DATA < groupType <= GROUP_INDEX && |batches[groupType - 1].request.offsets| > 0
    ensures g < |records| && batches[groupType - 1].request.WellFormed()
    ensures BatchRecord(batches[groupType - 1].file, m, batches[groupType - 1].request, records[g])
    ensures records[g].group.desc.groupType == groupType
    ensures CollectedSince(start, startIndex, indexOffset, m, groupType, batches[groupType - 1])
  {
    hide BatchRecords, CollectRequest, BatchRequest.WellFormed, OnlyParityAdded;
    assert CollectedSince(start, startIndex, indexOffset, m, groupType, batches[groupType - 1]);
    var k := RecordOfBatch(m, batches, records[1..], groupType - 1);
    g := k + 1;
  }

  /** Block number `p` of the group is exactly these bytes. */
  ghost predicate Protects(records: seq<GroupRecord>, groupType: nat, p: nat, bytes: Bytes) {
    exists g :: 0 <= g < |records| && records[g].group.desc.groupType == groupType && |records[g].records| == 1
                && p < |records[g].records[0].contents| && records[g].records[0].contents[p] == bytes
  }

  /** A block of the batch that was read whole is in the group as it is in the file. */
  lemma ProtectedBlock(records: seq<GroupRecord>, g: nat, read: Bytes, m: nat, req: BatchRequest, p: nat, file: Bytes)
    requires g < |records| && m < 255 && req.WellFormed() && BatchRecord(read, m, req, records[g]) && read <= file
    requires p < |req.offsets| && p + m < 255 && req.offsets[p] + req.sizes[p] <= |read|
    ensures Protects(records, req.groupType, p, file[req.offsets[p]..req.offsets[p] + req.sizes[p]])
  {
    hide DescribesBatch;
    var from, to := req.offsets[p], req.offsets[p] + req.sizes[p];
    assert file[..|read|] == read;
    assert read[from..to] == file[from..to];
    assert records[g].records[0].contents[p] == file[from..to];
  }

  /** Every table the index leads to, up to 255 - M of each level, is in its group, byte for byte. */
  lemma EveryTableIsProtected(start: Bytes, startIndex: seq<IndexEntry>, file: Bytes, indexOffset: nat, m: nat,
                              batches: seq<Batch>, records: seq<GroupRecord>, groupType: nat, p: nat)
    requires BatchesDone(start, startIndex, file, indexOffset, m, batches, records)
    requires groupType == GROUP_DDT_SECONDARY || groupType == GROUP_DDT_PRIMARY
    requires var tables := Selected(startIndex, OfType(TableType(groupType)));
             p < |tables| && p + m < 255 && Whole(start, tables[p])
    ensures var e := Selected(startIndex, OfType(TableType(groupType)))[p];
            Protects(records, groupType, p, start[e.offset..e.offset + DeclaredSize(start, e.blockType, e.offset)])
  {
    hide BatchRecords, DeclaredSize, Selected, CollectRequest, Protects, BatchRecord, BatchesDone, OnlyParityAdded;
    BatchIsCollected(start, startIndex, file, indexOffset, m, batches, records, groupType);
    var b := batches[groupType - 1];
    var e := Selected(startIndex, OfType(TableType(groupType)))[p];
    var size := DeclaredSize(start, e.blockType, e.offset);
    TableIsRequested(start, startIndex, indexOffset, m, b, groupType, p);
    var g := GroupOfBatch(start, startIndex, file, indexOffset, m, batches, records, groupType);
    assert b.file[..|start|] == start;
    assert b.file[e.offset..e.offset + size] == start[e.offset..e.offset + size];
    ProtectedBlock(records, g, b.file, m, b.request, p, b.file);
  }

  lemma BatchIsCollected(start: Bytes, startIndex: seq<IndexEntry>, file: Bytes, indexOffset: nat, m: nat,
                         batches: seq<Batch>, records: seq<GroupRecord>, groupType: nat)
    requires BatchesDone(start, startIndex, file, indexOffset, m, batches, records)
    requires GROUP_DATA < groupType <= GROUP_INDEX
    ensures |batches| == GROUP_INDEX
    ensures CollectedSince(start, startIndex, indexOffset, m, groupType, batches[groupType - 1])
    ensures batches[groupType - 1].file <= file && m < 255
  {
    hide BatchRecords, CollectRequest, OnlyParityAdded, BatchRequest.WellFormed;
    var i := groupType - 1;
    assert CollectedSince(start, startIndex, indexOffset, m, i + 1, batches[i]) && batches[i].file <= file;
  }

  lemma TableIsRequested(start: Bytes, startIndex: seq<IndexEntry>, indexOffset: nat, m: nat, b: Batch, groupType: nat,
                         p: nat)
    requires CollectedSince(start, startIndex, indexOffset, m, groupType, b)
    requires groupType == GROUP_DDT_SECONDARY || groupType == GROUP_DDT_PRIMARY
    requires var tables := Selected(startIndex, OfType(TableType(groupType))); p < |tables| && Whole(start, tables[p])
    ensures var e := Selected(startIndex, OfType(TableType(groupType)))[p];
            var size := DeclaredSize(start, e.blockType, e.offset);
            && start <= b.file && p < |b.request.offsets| == |b.request.sizes| && b.request.offsets[p] == e.offset
            && b.request.sizes[p] == size && e.offset + size <= |start| && b.request.groupType == groupType
  {
    hide DeclaredSize, Selected, OnlyParityAdded;
    var s := OfType(TableType(groupType));
    SelectionStays(startIndex, b.index, s, |start|, |b.file|);
    DeclaredSizeStays(start, b.file, Selected(startIndex, s)[p]);
  }

  function TableType(groupType: nat): nat {
    if groupType == GROUP_DDT_SECONDARY then DDT_SECONDARY else DDT_PRIMARY
  }

  /** A metadata block, when there are at most 255 - M of them, is in its group with everything up to the
      next block the index leads to. */
  lemma EveryMetadataBlockIsProtected(start: Bytes, startIndex: seq<IndexEntry>, file: Bytes, indexOffset: nat, m: nat,
                                      batches: seq<Batch>, records: seq<GroupRecord>, p: nat)
    requires BatchesDone(start, startIndex, file, indexOffset, m, batches, records)
    requires Collectable(start, startIndex, indexOffset, |file|)
    requires p < |Selected(startIndex, Metadata)| <= 255 - m
    ensures var e := Selected(startIndex, Metadata)[p]; var b := batches[GROUP_METADATA - 1];
            var size := SizeOf(b.file, b.index, indexOffset, Metadata, e);
            && 0 < size && e.offset + size <= |file|
            && Protects(records, GROUP_METADATA, p, file[e.offset..e.offset + size])
  {
    hide BatchRecords, SizeOf, Selected, CollectRequest, Protects, BatchRecord, BatchesDone, OnlyParityAdded;
    hide Collectable;
    BatchIsCollected(start, startIndex, file, indexOffset, m, batches, records, GROUP_METADATA);
    var b := batches[GROUP_METADATA - 1];
    MetadataIsRequested(start, startIndex, indexOffset, m, b, |file|, p);
    var g := GroupOfBatch(start, startIndex, file, indexOffset, m, batches, records, GROUP_METADATA);
    ProtectedBlock(records, g, b.file, m, b.request, p, file);
  }

  lemma MetadataIsRequested(start: Bytes, startIndex: seq<IndexEntry>, indexOffset: nat, m: nat, b: Batch, end: nat,
                            p: nat)
    requires CollectedSince(start, startIndex, indexOffset, m, GROUP_METADATA, b)
    requires Collectable(start, startIndex, indexOffset, end) && |b.file| <= end
    requires m < 255 && p < |Selected(startIndex, Metadata)| <= 255 - m
    ensures var e := Selected(startIndex, Metadata)[p]; var size := SizeOf(b.file, b.index, indexOffset, Metadata, e);
            && p < |b.request.offsets| == |b.request.sizes| && b.request.offsets[p] == e.offset
            && b.request.sizes[p] == size > 0 && e.offset + size <= |b.file| && b.request.groupType == GROUP_METADATA
  {
    hide SizeOf, Selected, OnlyParityAdded, Collectable;
    SelectionStays(startIndex, b.index, Metadata, |start|, |b.file|);
    SelectionIsReadable(start, startIndex, indexOffset, end, b.file, b.index, Metadata);
  }

  /** Nothing the index leads to, nor the index itself, begins inside the block. */
  ghost predicate NothingInside(index: seq<IndexEntry>, indexOffset: nat, offset: nat, length: nat) {
    && (forall i :: 0 <= i < |index| && index[i].offset > offset ==> offset + length <= index[i].offset)
    && (indexOffset > offset ==> offset + length <= indexOffset)
  }

  /** The gap that stands for the size of a metadata block is never too short for it. */
  lemma GapCoversBlock(start: Bytes, startIndex: seq<IndexEntry>, indexOffset: nat, end: nat, b: Batch, m: nat,
                       e: IndexEntry, block: Bytes)
    requires CollectedSince(start, startIndex, indexOffset, m, GROUP_METADATA, b) && |b.file| <= end
    requires Collectable(start, startIndex, indexOffset, end)
    requires e in startIndex && Selects(Metadata, e) && e.blockType != DATA_BLOCK
    requires Holds(start, e.offset, block) && NothingInside(startIndex, indexOffset, e.offset, |block|)
    ensures var size := SizeOf(b.file, b.index, indexOffset, Metadata, e);
            |block| <= size && e.offset + size <= |b.file| && block <= b.file[e.offset..e.offset + size]
  {
    hide NextOffset, Selects, Whole, IndexWhole, CollectRequest;
    GapFits(start, startIndex, indexOffset, e, end, b.file, b.index);
    NextIsLeast(b.index, e.offset);
    var next := NextOffset(b.index, e.offset);
    if next != NO_OFFSET {
      var i :| 0 <= i < |b.index| && b.index[i].offset == next > e.offset;
      if i < |startIndex| { assert b.index[i] == startIndex[i]; }
    }
    var size := SizeOf(b.file, b.index, indexOffset, Metadata, e);
    assert b.file[..|start|] == start;
    assert b.file[e.offset..e.offset + |block|] == start[e.offset..e.offset + |block|];
    assert b.file[e.offset..e.offset + size][..|block|] == b.file[e.offset..e.offset + |block|];
  }

  lemma IndexIsWhole(file: Bytes, indexOffset: nat, crc: Crc64, index: seq<IndexEntry>)
    requires Holds(file, indexOffset, IndexBytes(crc, index)) && |IndexBytes(crc, index)| < 0x1_0000_0000
    ensures IndexWhole(file, indexOffset)
  {
    hide IndexHeader, EncodeIndex, DecodeIndexHeader;
    HoldsSplit(file, indexOffset, IndexHeader(crc, index), EncodeIndex(index));
    IndexHeaderRoundTrip(crc, index);
  }

  /** The index that the header points at is a group of its own, byte for byte. */
  lemma IndexIsProtected(start: Bytes, startIndex: seq<IndexEntry>, file: Bytes, indexOffset: nat, crc: Crc64,
                         index: seq<IndexEntry>, m: nat, batches: seq<Batch>, records: seq<GroupRecord>)
    requires BatchesDone(start, startIndex, file, indexOffset, m, batches, records)
    requires Holds(start, indexOffset, IndexBytes(crc, index)) && indexOffset > 0
    requires |IndexBytes(crc, index)| < 0x1_0000_0000
    ensures Protects(records, GROUP_INDEX, 0, IndexBytes(crc, index))
  {
    hide BatchRecords, OnlyParityAdded, IsParityType, IndexHeader, EncodeIndex, DecodeIndexHeader;
    var b := batches[GROUP_INDEX - 1];
    assert CollectedSince(start, startIndex, indexOffset, m, GROUP_INDEX, b);
    var bytes := IndexBytes(crc, index);
    HoldsInLonger(start, b.file, indexOffset, bytes);
    HoldsSplit(start, indexOffset, IndexHeader(crc, index), EncodeIndex(index));
    HoldsSplit(b.file, indexOffset, IndexHeader(crc, index), EncodeIndex(index));
    IndexHeaderRoundTrip(crc, index);
    var g := GroupOfBatch(start, startIndex, file, indexOffset, m, batches, records, GROUP_INDEX);
    assert b.request.sizes[0] == |bytes|;
    assert records[g].records[0].contents[0] == bytes;
  }

  /** A compressed table on disk declares its header, properties and payload, and all of that is there. */
  lemma PackedTableIsWhole(file: Bytes, at: nat, blockType: nat, h: DdtHeader, crc: Crc64, c: Compressor, data: Bytes)
    requires |data| < 0x8000_0000 && c.Valid() && DescribedFits(h, crc, c, data)
    requires Holds(file, at, TableBlock(h, crc, c, data)) && blockType in {DDT_PRIMARY, DDT_SECONDARY}
    ensures DeclaredSize(file, blockType, at) == DDT_HEADER_SIZE + PackTable(c, data).CmpLength() < 0x1_0000_0000
    ensures at + DeclaredSize(file, blockType, at) <= |file|
  {
    hide Holds, DdtHeader.Encoded, DecodeDdtHeader, DdtHeader.Valid, PackTable, Compressor.Valid;
    var p := PackTable(c, data);
    var full := Described(h, crc, p, data);
    HeaderSize(full);
    DdtHeaderRoundTrip(full);
    BlockParts(file, at, full.Encoded(), p);
    HoldsExactly(file, at, full.Encoded(), DDT_HEADER_SIZE);
    PackedIsSmall(c, data);
    EndOf(file, at + DDT_HEADER_SIZE + |p.properties|, p.payload);
  }

  /** A table stored as it is declares exactly itself. */
  lemma StoredTableIsWhole(file: Bytes, at: nat, blockType: nat, h: DdtHeader, data: Bytes)
    requires |data| < 0x8000_0000 && h.Valid() && h.cmpLength == |data| && blockType in {DDT_PRIMARY, DDT_SECONDARY}
    requires Holds(file, at, h.Encoded() + data)
    ensures DeclaredSize(file, blockType, at) == DDT_HEADER_SIZE + |data| && at + DDT_HEADER_SIZE + |data| <= |file|
  {
    hide Holds, DdtHeader.Encoded, DecodeDdtHeader, DdtHeader.Valid;
    HeaderSize(h);
    DdtHeaderRoundTrip(h);
    HoldsSplit(file, at, h.Encoded(), data);
    HoldsExactly(file, at, h.Encoded(), DDT_HEADER_SIZE);
    EndOf(file, at + DDT_HEADER_SIZE, data);
  }

  /** A secondary table cut to what it declares, without the bytes emitted past the payload, still loads. */
  lemma DeclaredTableLoads(file: Bytes, at: nat, h: DdtHeader, crc: Crc64, c: Compressor, d: Decompressor, data: Bytes,
                           types: set<nat>)
    requires 0 < |data| < 0x8000_0000 && c.Valid() && Undoes(d, c, data) && DescribedFits(h, crc, c, data)
    requires Holds(file, at, TableBlock(h, crc, c, data)) && h.identifier in types && h.kind == TYPE_USER_DATA
    ensures var size := DeclaredSize(file, DDT_SECONDARY, at);
            && DDT_HEADER_SIZE <= size < 0x1_0000_0000 && at + size <= |file|
            && LoadTable(file[at..at + size], 0, types, d, crc) == Some(data)
  {
    hide Holds, DdtHeader.Encoded, DdtHeader.Valid, Undoes, PackTable, LoadTable, Compressor.Valid, DescribedFits;
    hide DeclaredSize;
    var p := PackTable(c, data);
    var full := Described(h, crc, p, data);
    PackedTableIsWhole(file, at, DDT_SECONDARY, h, crc, c, data);
    HeaderSize(full);
    BlockParts(file, at, full.Encoded(), p);
    var size := DDT_HEADER_SIZE + p.CmpLength();
    var cut := file[at..at + size];
    HoldsInCut(file, at, size, 0, full.Encoded());
    HoldsInCut(file, at, size, DDT_HEADER_SIZE, p.properties);
    HoldsInCut(file, at, size, DDT_HEADER_SIZE + |p.properties|, p.payload);
    PartsReadBack(cut, 0, h, crc, c, d, data, types);
  }

  lemma PackedIsSmall(c: Compressor, data: Bytes)
    requires |data| < 0x8000_0000 && c.Valid()
    ensures PackTable(c, data).CmpLength() <= |data| + LZMA_PROPERTIES_LENGTH
  {
  }

  lemma HoldsInCut(file: Bytes, at: nat, size: nat, position: nat, bytes: Bytes)
    requires at + size <= |file| && Holds(file, at + position, bytes) && position + |bytes| <= size
    ensures Holds(file[at..at + size], position, bytes)
  {
    var cut, from := file[at..at + size], at + position;
    forall i | 0 <= i < |bytes|
      ensures cut[position..position + |bytes|][i] == bytes[i]
    {
      assert file[from..from + |bytes|][i] == bytes[i];
      assert cut[position + i] == file[from + i];
    }
  }
}
