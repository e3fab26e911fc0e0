/** From the writer to the reader: every block accumulated before an image is finalized comes back byte for
    byte from the damaged file, whatever the damage, exactly when at most M shards of its stripe are lost.
 */
module ErasureRecovery {
  import opened Wrappers
  import opened Octet
  import opened Linear
  import opened ReedSolomon
  import opened ImageFile
  import opened Parity
  import opened ErasureFormat
  import opened ErasureMap
  import opened ErasureWrite
  import opened ErasureFinalize
  import opened ErasureRead
  import opened ErasureTheorem
  import opened ErasureGroups

  // ---- Where block number j is ----

  lemma {:induction false} OffsetsInStripes(done: seq<StripeRecord>, i: nat, j: nat)
    requires i < |done| && j < |done[i].stripe.entries|
    ensures done[i].stripe.entries[j].offset in BlockOffsets(done)
    decreases |done|
  {
    var n := |done| - 1;
    if i < n {
      OffsetsInStripes(done[..n], i, j);
    } else {
      assert EntryOffsets(done[n].stripe)[j] in EntryOffsets(done[n].stripe);
    }
  }

  /** Rising offsets put every entry behind all the entries before it. */
  lemma {:induction false} EntriesRise(done: seq<StripeRecord>, bound: nat, i: nat, j: nat, i': nat, j': nat)
    requires Rising(BlockOffsets(done), bound)
    requires i < |done| && j < |done[i].stripe.entries| && i' < |done| && j' < |done[i'].stripe.entries|
    requires i < i' || (i == i' && j < j')
    ensures done[i].stripe.entries[j].offset < done[i'].stripe.entries[j'].offset
    decreases |done|
  {
    var n := |done| - 1;
    var front, last := BlockOffsets(done[..n]), EntryOffsets(done[n].stripe);
    assert BlockOffsets(done) == front + last;
    if i' < n {
      RisingPrefix(front, last, bound);
      EntriesRise(done[..n], bound, i, j, i', j');
    } else if i < n {
      OffsetsInStripes(done[..n], i, j);
      var p :| 0 <= p < |front| && front[p] == done[i].stripe.entries[j].offset;
      assert (front + last)[p] == front[p] && (front + last)[|front| + j'] == last[j'];
    } else {
      assert (front + last)[|front| + j] == last[j] && (front + last)[|front| + j'] == last[j'];
    }
  }

  lemma RisingPrefix(a: seq<nat>, b: seq<nat>, bound: nat)
    requires Rising(a + b, bound)
    ensures Rising(a, bound)
  {
    assert forall i :: 0 <= i < |a| ==> (a + b)[i] == a[i];
  }

  /** The blocks of the data group are at distinct places. */
  lemma DataOffsetsAreDistinct(done: seq<StripeRecord>, bound: nat)
    requires Rising(BlockOffsets(done), bound)
    ensures DistinctOffsets(AllAsRead(Descriptors(done)))
  {
    hide BlockOffsets, Rising;
    var stripes := AllAsRead(Descriptors(done));
    forall s, k, s', k', offset {:trigger BlockAt(stripes, s, k, offset), BlockAt(stripes, s', k', offset)} |
      BlockAt(stripes, s, k, offset) && BlockAt(stripes, s', k', offset)
      ensures s == s' && k == k'
    {
      if s < s' || (s == s' && k < k') {
        EntriesRise(done, bound, s, k, s', k');
      } else if s' < s || (s == s' && k' < k) {
        EntriesRise(done, bound, s', k', s, k);
      }
    }
  }

  /** Full stripes put block number `si * k + pos` in stripe `si`, at position `pos`. */
  lemma {:induction false} BlockPosition(done: seq<StripeRecord>, k: nat, si: nat, pos: nat, j: nat)
    requires k > 0 && pos < k && j == si * k + pos < |Flatten(done)| && |BlockOffsets(done)| == |Flatten(done)|
    requires forall i :: 0 <= i < |done| ==> |done[i].contents| == |done[i].stripe.entries| <= k
    requires forall i :: 0 <= i < |done| - 1 ==> |done[i].contents| == k
    ensures si < |done| && pos < |done[si].contents| && done[si].contents[pos] == Flatten(done)[j]
    ensures done[si].stripe.entries[pos].offset == BlockOffsets(done)[j]
    decreases |done|
  {
    var n := |done| - 1;
    var front := done[..n];
    assert AllFull(front, k);
    FullCount(front, k);
    SameCount(front);
    if si < n {
      EarlierStripe(si, n, k, pos);
      BlockPosition(front, k, si, pos, j);
    } else {
      LaterStripe(si, n, k, pos, |done[n].contents|);
    }
  }

  lemma EarlierStripe(si: nat, n: nat, k: nat, pos: nat)
    requires si < n && pos < k
    ensures si * k + pos < n * k
  {
    MulAtLeast(k, n - si);
    assert n * k - si * k == k * (n - si);
  }

  lemma LaterStripe(si: nat, n: nat, k: nat, pos: nat, last: nat)
    requires n <= si && si * k + pos < n * k + last && last <= k
    ensures si == n && pos < last
  {
    MulAtLeast(k, si - n);
    assert si * k - n * k == k * (si - n);
  }

  lemma {:induction false} SameCount(done: seq<StripeRecord>)
    requires forall i :: 0 <= i < |done| ==> |done[i].contents| == |done[i].stripe.entries|
    ensures |BlockOffsets(done)| == |Flatten(done)|
  {
    if |done| > 0 {
      SameCount(done[..|done| - 1]);
    }
  }

  lemma StoredCounts(disk: Bytes, crc: Crc64, r: GroupRecord)
    requires GroupStored(disk, crc, r)
    ensures forall i :: 0 <= i < |r.records| ==>
              |r.records[i].contents| == |r.records[i].stripe.entries| && |r.records[i].stripe.parity| == r.codec.m
    ensures Shaped(r.codec) && r.group.stripes == Descriptors(r.records)
  {
    hide EntryStored, Holds, MaxSize;
    CodecShape(r.codec);
    forall i | 0 <= i < |r.records|
      ensures |r.records[i].contents| == |r.records[i].stripe.entries| && |r.records[i].stripe.parity| == r.codec.m
    {
      assert StripeStored(disk, r.codec, crc, r.pad, r.kind, r.records[i]);
    }
  }

  /** Block `si * k + pos` of those ever accumulated is where it was written, in its stripe of the data
      group. */
  lemma BlockIsInDataGroup(disk: Bytes, crc: Crc64, records: seq<GroupRecord>, k: nat, history: seq<Bytes>,
                           offsets: seq<nat>, si: nat, pos: nat, j: nat)
    requires |records| > 0 && GroupStored(disk, crc, records[0]) && records[0].kind < 0x1_0000
    requires DataRecord(records[0], k, history, offsets) && pos < k && j == si * k + pos < |history|
    ensures |offsets| == |history| && IsBlock(records, 0, si, pos, offsets[j])
    ensures Recorded(records[0], si, pos, history[j])
    ensures DistinctOffsets(AllAsRead(records[0].group.stripes))
  {
    hide GroupStored, Flatten, BlockOffsets, Rising, DistinctOffsets;
    StoredCounts(disk, crc, records[0]);
    DataOffsetsAreDistinct(records[0].records, if |offsets| == 0 then 0 else offsets[|offsets| - 1] + 1);
    BlockPosition(records[0].records, k, si, pos, j);
  }

  ghost predicate Recorded(r: GroupRecord, si: nat, pos: nat, block: Bytes) {
    si < |r.records| && pos < |r.records[si].contents| && r.records[si].contents[pos] == block
  }

  // ---- The finalized image ----

  /** A finalized image: the file and index it started from, the file written, every block accumulated and
      where, and the groups and batches that its map describes. */
  datatype FinalImage = FinalImage(start: Bytes, startIndex: seq<IndexEntry>, written: Bytes, crc: Crc64,
                                   algorithm: nat, header: Bytes, indexOffset: nat, codec: Codec, history: seq<Bytes>,
                                   offsets: seq<nat>, records: seq<GroupRecord>, batches: seq<Batch>, mapOffset: nat)
  {
    /** The data group is stored with every block accumulated, the batch groups are those the index leads
        to, each stored too when its own blocks could be read whole, and the footer leads to the map of all
        groups. */
    ghost predicate Valid() {
      && 0 < |records| <= 5 && records[0].codec == codec && records[0].kind == TYPE_ERASURE_PARITY
      && DataRecord(records[0], codec.k, history, offsets) && GroupStored(written, crc, records[0])
      && MapOnDisk(written, crc, algorithm, header, GroupsOf(records), mapOffset) && algorithm < 0x100
      && BatchesDone(start, startIndex, written, indexOffset, codec.m, batches, records)
      && (Addressable() ==> GroupsFit(GroupsOf(records)[1..]))
      && StoredWhenReadable(written, crc, batches, records[1..])
    }

    /** All positions fit 64 bits. */
    ghost predicate Addressable() {
      Fits64(startIndex, indexOffset) && |written| < 0x1_0000_0000_0000_0000
    }
  }

  /** `ec_finalize` leaves a finalized image with every block that was accumulated. */
  method FinalizeImage(w: Writer, header: Bytes, indexOffset: nat) returns (ghost f: FinalImage)
    requires w.Valid() && |header| == IMAGE_HEADER_SIZE && w.algorithm < 0x100
    modifies w, w.parity
    ensures f.Valid() && f.start == old(w.file) && f.startIndex == old(w.index) && f.written == w.file
    ensures f.crc == w.crc && f.codec == w.codec && f.algorithm == w.algorithm && f.header == header
    ensures f.indexOffset == indexOffset && f.history == old(w.ledger.history) && f.offsets == old(w.ledger.offsets)
    ensures old(w.file) <= w.file && old(w.index) <= w.index
  {
    hide DataRecord, GroupStored, MapOnDisk, BatchesDone, Fits64, GroupsFit, IsCodec, Booked, ParityInvariant;
    hide StoredWhenReadable, MapBlock, AllReadable;
    ghost var start, startIndex, history, offsets := w.file, w.index, w.ledger.history, w.ledger.offsets;
    ghost var records, batches, mapOffset, copyOffset := Finalize(w, header, indexOffset);
    f := FinalImage(start, startIndex, w.file, w.crc, w.algorithm, header, indexOffset, w.codec, history, offsets,
                    records, batches, mapOffset);
  }

  /** The damage a recovery copes with: the map and the footer survive and are no larger than a reader
      accepts, and a shard of stripe `si` of group `g` that is taken for good is good. */
  ghost predicate DamageReported(f: FinalImage, disk: Bytes, decode: Decode, g: nat, si: nat) {
    && g < |f.records| && si < |f.records[g].records| && Shaped(f.records[g].codec)
    && |f.records[g].records[si].stripe.entries| == |f.records[g].records[si].contents|
    && |f.records[g].records[si].stripe.parity| == f.records[g].codec.m
    && MapOnDisk(disk, f.crc, f.algorithm, f.header, GroupsOf(f.records), f.mapOffset)
    && |disk| < 0x1_0000_0000_0000_0000
    && |EncodeGroups(GroupsOf(f.records))| <= MAP_SIZE_LIMIT
    && DamageShows(disk, f.crc, decode, f.records[g].codec, f.records[g].kind, f.records[g].records[si],
                   f.records[g].group.desc.shardSize)
  }

  lemma {:induction false} AllPresent(p: seq<bool>)
    requires forall i :: 0 <= i < |p| ==> p[i]
    ensures Erased(p) == 0
  {
    if |p| > 0 {
      AllPresent(p[..|p| - 1]);
    }
  }

  /** In an undamaged data group no shard is lost. */
  lemma AllSurvive(disk: Bytes, crc: Crc64, c: Codec, kind: nat, r: StripeRecord)
    requires StripeStored(disk, c, crc, 0, kind, r)
    ensures Erased(SurvivingFlags(disk, crc, c, 0, kind, r)) == 0
  {
    hide ParityBlock, ParityPayload, MaxSize, Holds;
    forall i | 0 <= i < c.k + c.m
      ensures ShardSurvives(disk, crc, c, 0, kind, r, i)
    {
      if i < |r.contents| {
        assert EntryStored(disk, crc, 0, r.stripe.entries[i], r.contents[i]);
        assert Padded(r.contents[i], 0) == r.contents[i];
      }
    }
    AllPresent(SurvivingFlags(disk, crc, c, 0, kind, r));
  }

  lemma NoDamageShows(disk: Bytes, crc: Crc64, decode: Decode, c: Codec, pad: nat, kind: nat, r: StripeRecord,
                      shardSize: nat)
    requires StripeStored(disk, c, crc, pad, kind, r)
    ensures DamageShows(disk, crc, decode, c, kind, r, shardSize)
  {
    hide ParityBlock, ParityPayload, MaxSize, Holds, Accepted, ParityShard;
    forall j | 0 <= j < |r.contents|
      ensures Holds(disk, r.stripe.entries[j].offset, r.contents[j])
    {
      assert EntryStored(disk, crc, pad, r.stripe.entries[j], r.contents[j]);
    }
  }

  /** The finalized image itself, undamaged, meets all of that, in every stripe. */
  lemma UndamagedIsReported(f: FinalImage, decode: Decode, si: nat)
    requires f.Valid() && |f.written| < 0x1_0000_0000_0000_0000 && si < |f.records[0].records|
    requires |EncodeGroups(GroupsOf(f.records))| <= MAP_SIZE_LIMIT
    ensures DamageReported(f, f.written, decode, 0, si) && EnoughSurvive(f.written, f.crc, f.records[0], si)
  {
    hide IsCodec, MapOnDisk, BatchesDone, GroupsFit, EncodeGroups, EntryStored, ParityBlock, ParityPayload, MaxSize;
    hide StoredWhenReadable, Flatten, BlockOffsets, Rising, DamageShows, SurvivingFlags, Erased;
    var r := f.records[0];
    StoredCounts(f.written, f.crc, r);
    assert StripeStored(f.written, r.codec, f.crc, r.pad, r.kind, r.records[si]);
    NoDamageShows(f.written, f.crc, decode, r.codec, r.pad, r.kind, r.records[si], r.group.desc.shardSize);
    AllSurvive(f.written, f.crc, r.codec, r.kind, r.records[si]);
  }

  /** Nothing else about the image has to be assumed to recover a block. */
  lemma FinalizedIsRecoverable(f: FinalImage, disk: Bytes, decode: Decode, si: nat, pos: nat, j: nat)
    requires f.Valid() && f.Addressable() && pos < f.codec.k && j == si * f.codec.k + pos < |f.history|
    requires DamageReported(f, disk, decode, 0, si)
    ensures |f.records| > 0 && |f.offsets| == |f.history| && f.records[0].group.desc.groupType == GROUP_DATA
    ensures DamagedImage(disk, f.written, f.crc, decode, f.algorithm, f.header, f.records, f.mapOffset, 0, si, pos,
                         f.offsets[j])
    ensures Recorded(f.records[0], si, pos, f.history[j])
  {
    hide GroupStored, MapOnDisk, BatchesDone, Fits64, GroupsFit, EncodeGroups, DamageShows, Flatten, BlockOffsets;
    hide Rising;
    hide StoredWhenReadable, OnlyGroupOfType, DistinctOffsets;
    BlockIsInDataGroup(f.written, f.crc, f.records, f.codec.k, f.history, f.offsets, si, pos, j);
    OneGroupOfEachType(f.start, f.startIndex, f.written, f.indexOffset, f.codec.m, f.batches, f.records, 0);
    AllGroupsFit(f.written, f.crc, f.records);
  }

  /** Rebuild block number `j = si * K + pos` of those ever accumulated from a damaged disk, by the place it
      was written at: it comes back byte for byte exactly when at most M shards of its stripe are lost. */
  method RecoverBlock(disk: Bytes, crc: Crc64, inflate: Inflate, offset: nat, ghost f: FinalImage, ghost si: nat,
                      ghost pos: nat, ghost j: nat)
    returns (bytes: Option<Bytes>)
    requires f.Valid() && f.Addressable() && crc == f.crc && DamageReported(f, disk, None, 0, si)
    requires pos < f.codec.k && j == si * f.codec.k + pos < |f.history| && j < |f.offsets| && offset == f.offsets[j]
    ensures |f.records| > 0 && (bytes.Some? <==> EnoughSurvive(disk, crc, f.records[0], si))
    ensures bytes.Some? ==> bytes.value == f.history[j]
  {
    hide FinalImage.Valid, FinalImage.Addressable, DamagedImage, DamageReported, EnoughSurvive;
    FinalizedIsRecoverable(f, disk, None, si, pos, j);
    BlockOfImage(disk, f.written, crc, None, f.algorithm, f.header, f.records, f.mapOffset, 0, si, pos, offset);
    var reader := new Reader(crc, inflate, disk);
    bytes := LoadAndRecover(reader, offset, f.written, f.algorithm, f.header, f.records, f.mapOffset, 0, si, pos,
                            GROUP_DATA);
  }

  lemma BlockOfImage(disk: Bytes, written: Bytes, crc: Crc64, decode: Decode, algorithm: nat, header: Bytes,
                     records: seq<GroupRecord>, mapOffset: nat, g: nat, si: nat, pos: nat, offset: nat)
    requires DamagedImage(disk, written, crc, decode, algorithm, header, records, mapOffset, g, si, pos, offset)
    ensures IsBlock(records, g, si, pos, offset)
  {
  }

  /** Read a sector of a data block written from `data`, through recovery, from a damaged disk: the sector of
      the data comes back, as long as at most M shards of the block's stripe are lost. */
  method RecoverSector(disk: Bytes, crc: Crc64, inflate: Inflate, offset: nat, sector: nat, ghost f: FinalImage,
                       ghost si: nat, ghost pos: nat, ghost j: nat, ghost block: BlockHeader,
                       ghost props: Option<Bytes>, ghost payload: Bytes, ghost data: Bytes)
    returns (found: Option<Bytes>)
    requires f.Valid() && f.Addressable() && crc == f.crc && DamageReported(f, disk, Some(inflate), 0, si)
    requires pos < f.codec.k && j == si * f.codec.k + pos < |f.history| && j < |f.offsets| && offset == f.offsets[j]
    requires f.history[j] == BlockBytes(block, props, payload) && MadeFrom(inflate, crc, block, props, payload, data)
    ensures |f.records| > 0
    ensures found.Some? <==> && EnoughSurvive(disk, crc, f.records[0], si)
                             && block.sectorSize > 0 && sector * block.sectorSize + block.sectorSize <= |data|
    ensures found.Some? ==>
              && |found.value| == block.sectorSize
              && forall i {:trigger found.value[i]} :: 0 <= i < block.sectorSize ==>
                   0 <= sector * block.sectorSize + i < |data|
                   && found.value[i] == data[sector * block.sectorSize + i]
  {
    hide FinalImage.Valid, FinalImage.Addressable, DamagedImage, DamageReported, EnoughSurvive, SectorOf;
    hide SelfContained;
    hide BlockBytes, MadeFrom;
    FinalizedIsRecoverable(f, disk, Some(inflate), si, pos, j);
    BlockOfImage(disk, f.written, crc, Some(inflate), f.algorithm, f.header, f.records, f.mapOffset, 0, si, pos,
                 offset);
    WrittenSector(inflate, crc, block, props, payload, data, sector);
    var reader := new Reader(crc, inflate, disk);
    found := LoadAndReadSector(reader, offset, sector, f.written, f.algorithm, f.header, f.records, f.mapOffset, 0, si,
                               pos);
  }
}
