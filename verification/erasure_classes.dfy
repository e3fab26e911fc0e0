/** Which batch group takes which block, by its block type and data type alone (`ec_finalize`,
    src/erasure.c): user data and parity have been dealt with, tables and the index have groups of their own,
    and whatever else the index leads to is metadata.
 */
module ErasureClasses {
  import opened Wrappers
  import opened Octet
  import opened ImageFile
  import opened ErasureFormat
  import opened ErasureMap
  import opened ErasureWrite
  import opened ErasureCollect
  import opened ErasureFinalize
  import opened ErasureGroups
  import opened BlockIndex
  import opened IndexBlock
  import opened DdtTable

  datatype Class = UserData | ParityShard | SecondaryTable | PrimaryTable | OldTable | IndexOfImage | OtherBlock

  /** The class of an index entry: data type 1 of a data block is user data, 104 to 108 are parity; a data
      block of any other type, such as a media tag, is neither. */
  function ClassOf(e: IndexEntry): Class {
    if e.blockType == DATA_BLOCK then
      if e.dataType == 1 then UserData
      else if 104 <= e.dataType && e.dataType <= 108 then ParityShard
      else OtherBlock
    else if e.blockType == 0x53544444 then SecondaryTable
    else if e.blockType == 0x32544444 then PrimaryTable
    else if e.blockType == 0x2A544444 then OldTable
    else if e.blockType == 0x58444E49 || e.blockType == 0x32584449 || e.blockType == 0x33584449 then IndexOfImage
    else OtherBlock
  }

  /** The entries of a class, by their places in the index. */
  ghost function PlacesOf(index: seq<IndexEntry>, class_: Class): set<nat> {
    set i: nat | i < |index| && ClassOf(index[i]) == class_
  }

  lemma SelectsIff(e: IndexEntry)
    ensures Selects(Metadata, e) <==> ClassOf(e) == OtherBlock
    ensures Selects(OfType(DDT_SECONDARY), e) <==> ClassOf(e) == SecondaryTable
    ensures Selects(OfType(DDT_PRIMARY), e) <==> ClassOf(e) == PrimaryTable
  {
  }

  function SelectionOf(class_: Class): Selection
    requires class_ in {SecondaryTable, PrimaryTable, OtherBlock}
  {
    match class_
    case SecondaryTable => OfType(DDT_SECONDARY)
    case PrimaryTable => OfType(DDT_PRIMARY)
    case _ => Metadata
  }

  function GroupOf(class_: Class): nat
    requires class_ in {SecondaryTable, PrimaryTable, OtherBlock}
  {
    match class_
    case SecondaryTable => GROUP_DDT_SECONDARY
    case PrimaryTable => GROUP_DDT_PRIMARY
    case _ => GROUP_METADATA
  }

  lemma {:induction false} SelectedCount(index: seq<IndexEntry>, class_: Class)
    requires class_ in {SecondaryTable, PrimaryTable, OtherBlock}
    ensures |Selected(index, SelectionOf(class_))| == |PlacesOf(index, class_)|
  {
    hide ClassOf, Selects;
    if |index| == 0 {
      assert PlacesOf(index, class_) == {};
    } else {
      SelectedCount(index[..|index| - 1], class_);
      SelectsIff(index[|index| - 1]);
      LastPlace(index, class_);
    }
  }

  lemma LastPlace(index: seq<IndexEntry>, class_: Class)
    requires |index| > 0
    ensures var n := |index| - 1;
            |PlacesOf(index, class_)| == |PlacesOf(index[..n], class_)| + if ClassOf(index[n]) == class_ then 1 else 0
  {
    hide ClassOf;
    var n := |index| - 1;
    assert PlacesOf(index, class_) == PlacesOf(index[..n], class_) + if ClassOf(index[n]) == class_ then {n} else {};
  }

  /** What a batch group collects: exactly the places of the blocks of its class, in index order, unless it is
      the metadata group and there are more than 255 - M of them. */
  lemma BatchTakesClass(start: Bytes, startIndex: seq<IndexEntry>, file: Bytes, indexOffset: nat, m: nat,
                        batches: seq<Batch>, records: seq<GroupRecord>, class_: Class)
    requires BatchesDone(start, startIndex, file, indexOffset, m, batches, records)
    requires class_ in {SecondaryTable, PrimaryTable, OtherBlock}
    ensures |batches| == GROUP_INDEX
    ensures var taken := class_ != OtherBlock || |PlacesOf(startIndex, class_)| + m <= 255;
            batches[GroupOf(class_) - 1].request.offsets
            == if taken then Offsets(Selected(startIndex, SelectionOf(class_))) else []
  {
    hide BatchRecords, Selected, OnlyParityAdded, Sizes, ClassOf, Selects;
    var s, b := SelectionOf(class_), batches[GroupOf(class_) - 1];
    assert CollectedSince(start, startIndex, indexOffset, m, GroupOf(class_), b);
    SelectionStays(startIndex, b.index, s, |start|, |b.file|);
    SelectedCount(startIndex, class_);
  }

  /** Every block the index leads to is user data, parity, an old table or an index, or is collected for the
      group of its class; and a group collects nothing else. */
  lemma EveryBlockIsCollected(start: Bytes, startIndex: seq<IndexEntry>, file: Bytes, indexOffset: nat, m: nat,
                              batches: seq<Batch>, records: seq<GroupRecord>, class_: Class, offset: nat)
    requires BatchesDone(start, startIndex, file, indexOffset, m, batches, records)
    requires class_ in {SecondaryTable, PrimaryTable, OtherBlock}
    requires class_ == OtherBlock ==> |PlacesOf(startIndex, OtherBlock)| + m <= 255
    ensures |batches| == GROUP_INDEX
    ensures offset in batches[GroupOf(class_) - 1].request.offsets
            <==> exists e :: e in startIndex && ClassOf(e) == class_ && e.offset == offset
  {
    hide BatchesDone, Selected, ClassOf;
    BatchTakesClass(start, startIndex, file, indexOffset, m, batches, records, class_);
    var s := SelectionOf(class_);
    var entries := Selected(startIndex, s);
    forall e
      ensures e in entries <==> e in startIndex && ClassOf(e) == class_
    {
      SelectedMembers(startIndex, s, e);
      SelectsIff(e);
    }
    if e :| e in startIndex && ClassOf(e) == class_ && e.offset == offset {
      var i :| 0 <= i < |entries| && entries[i] == e;
      assert Offsets(entries)[i] == offset;
    }
    if i :| 0 <= i < |entries| && Offsets(entries)[i] == offset {
      assert entries[i] in entries;
    }
  }

  /** A metadata block is in its group from its first byte on; when nothing else begins inside it and it is no
      data block, or when it is a data block that declares its length, all of it. */
  lemma MetadataIsProtected(start: Bytes, startIndex: seq<IndexEntry>, file: Bytes, indexOffset: nat, m: nat,
                            batches: seq<Batch>, records: seq<GroupRecord>, e: IndexEntry, block: Bytes)
    returns (p: nat, size: nat)
    requires BatchesDone(start, startIndex, file, indexOffset, m, batches, records)
    requires Collectable(start, startIndex, indexOffset, |file|)
    requires |PlacesOf(startIndex, OtherBlock)| + m <= 255
    requires e in startIndex && ClassOf(e) == OtherBlock && Holds(start, e.offset, block)
    ensures 0 < size && e.offset + size <= |file|
    ensures Protects(records, GROUP_METADATA, p, file[e.offset..e.offset + size])
    ensures Covered(startIndex, indexOffset, e, block) ==> |block| <= size && block <= file[e.offset..e.offset + size]
  {
    hide Selected, ClassOf, SizeOf, BatchesDone, Collectable, Protects, Covered, Selects;
    SelectedMembers(startIndex, Metadata, e);
    SelectsIff(e);
    SelectedCount(startIndex, OtherBlock);
    p :| 0 <= p < |Selected(startIndex, Metadata)| && Selected(startIndex, Metadata)[p] == e;
    Bounds(start, startIndex, file, indexOffset, m, batches, records);
    EveryMetadataBlockIsProtected(start, startIndex, file, indexOffset, m, batches, records, p);
    var b := batches[GROUP_METADATA - 1];
    size := SizeOf(b.file, b.index, indexOffset, Metadata, e);
    if Covered(startIndex, indexOffset, e, block) {
      SizeCovers(start, startIndex, file, indexOffset, m, batches, records, e, block);
      assert file[..|b.file|] == b.file;
      assert file[e.offset..e.offset + size] == b.file[e.offset..e.offset + size];
    }
  }

  /** The size taken for the block reaches its end. */
  ghost predicate Covered(index: seq<IndexEntry>, indexOffset: nat, e: IndexEntry, block: Bytes) {
    if e.blockType == DATA_BLOCK then
      exists h: BlockHeader :: h.Valid() && h.Encoded() <= block && |block| == BLOCK_HEADER_SIZE + h.cmpLength
                               && |block| < 0x1_0000_0000
    else NothingInside(index, indexOffset, e.offset, |block|)
  }

  lemma Bounds(start: Bytes, startIndex: seq<IndexEntry>, file: Bytes, indexOffset: nat, m: nat,
               batches: seq<Batch>, records: seq<GroupRecord>)
    requires BatchesDone(start, startIndex, file, indexOffset, m, batches, records)
    ensures |batches| == GROUP_INDEX && m < 255
    ensures batches[GROUP_METADATA - 1].file <= file
    ensures CollectedSince(start, startIndex, indexOffset, m, GROUP_METADATA, batches[GROUP_METADATA - 1])
  {
    hide BatchRecords, OnlyParityAdded, CollectRequest;
    var b := batches[GROUP_METADATA - 1];
    assert CollectedSince(start, startIndex, indexOffset, m, GROUP_METADATA, b) && b.file <= file;
  }

  lemma SizeCovers(start: Bytes, startIndex: seq<IndexEntry>, file: Bytes, indexOffset: nat, m: nat,
                   batches: seq<Batch>, records: seq<GroupRecord>, e: IndexEntry, block: Bytes)
    requires BatchesDone(start, startIndex, file, indexOffset, m, batches, records)
    requires Collectable(start, startIndex, indexOffset, |file|)
    requires e in startIndex && ClassOf(e) == OtherBlock && Holds(start, e.offset, block)
    requires Covered(startIndex, indexOffset, e, block)
    ensures |batches| == GROUP_INDEX
    ensures var b := batches[GROUP_METADATA - 1]; var size := SizeOf(b.file, b.index, indexOffset, Metadata, e);
            |block| <= size && e.offset + size <= |b.file| && block <= b.file[e.offset..e.offset + size]
  {
    hide ClassOf, BatchesDone, Collectable, Selects, SizeOf, CollectedSince;
    Bounds(start, startIndex, file, indexOffset, m, batches, records);
    SelectsIff(e);
    var b := batches[GROUP_METADATA - 1];
    if e.blockType == DATA_BLOCK {
      BatchIsLonger(start, startIndex, indexOffset, m, b);
      DeclaredCovers(start, b.file, e, block);
      SizeIsDeclared(b.file, b.index, indexOffset, e);
    } else {
      GapCoversBlock(start, startIndex, indexOffset, |file|, b, m, e, block);
    }
  }

  lemma SizeIsDeclared(file: Bytes, index: seq<IndexEntry>, indexOffset: nat, e: IndexEntry)
    requires e.blockType == DATA_BLOCK
    ensures SizeOf(file, index, indexOffset, Metadata, e) == U32(DeclaredSize(file, e.blockType, e.offset))
  {
    hide DeclaredSize, GapSize;
  }

  lemma BatchIsLonger(start: Bytes, startIndex: seq<IndexEntry>, indexOffset: nat, m: nat, b: Batch)
    requires CollectedSince(start, startIndex, indexOffset, m, GROUP_METADATA, b)
    ensures start <= b.file
  {
    hide CollectRequest;
  }

  lemma DeclaredCovers(start: Bytes, file: Bytes, e: IndexEntry, block: Bytes)
    requires start <= file && Holds(start, e.offset, block) && e.blockType == DATA_BLOCK
    requires exists h: BlockHeader :: h.Valid() && h.Encoded() <= block && |block| == BLOCK_HEADER_SIZE + h.cmpLength
                                      && |block| < 0x1_0000_0000
    ensures U32(DeclaredSize(file, e.blockType, e.offset)) == |block|
    ensures e.offset + |block| <= |file| && file[e.offset..e.offset + |block|] == block
  {
    hide DecodeBlockHeader, BlockHeader.Encoded;
    var h: BlockHeader :| h.Valid() && h.Encoded() <= block && |block| == BLOCK_HEADER_SIZE + h.cmpLength
                          && |block| < 0x1_0000_0000;
    EncodedSize(h);
    HoldsInLonger(start, file, e.offset, block);
    assert block[..BLOCK_HEADER_SIZE] == h.Encoded();
    assert file[e.offset..e.offset + BLOCK_HEADER_SIZE] == block[..BLOCK_HEADER_SIZE];
    BlockHeaderRoundTrip(h);
  }

  lemma EncodedSize(h: BlockHeader)
    ensures |h.Encoded()| == BLOCK_HEADER_SIZE
  {
  }
}
