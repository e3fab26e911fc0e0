/** From the closing writer to the reader of a damaged image: the secondary table that was in memory when an
    erasure-coded image was closed.
 */
module TableRecovery {
  import opened Wrappers
  import opened Octet
  import opened ImageFile
  import opened ErasureFormat
  import opened ErasureMap
  import opened ErasureWrite
  import opened ErasureCollect
  import opened ErasureFinalize
  import opened ErasureRead
  import opened ErasureTheorem
  import opened ErasureGroups
  import opened ErasureRecovery
  import opened BatchRecovery
  import opened FileRegions
  import opened BlockIndex
  import opened IndexBlock
  import opened DdtTable
  import opened CloseTracking
  import opened CloseWrite
  import opened CloseFinalize
  import opened CloseTheorem
  import opened ProtectedClose

  // ---- The requested places are distinct ----

  lemma {:induction false} TablesAreApart(index: seq<IndexEntry>)
    requires TablesApart(index)
    ensures DistinctPlaces(Offsets(Selected(index, OfType(DDT_SECONDARY))))
  {
    if |index| > 0 {
      var n := |index| - 1;
      var front := Selected(index[..n], OfType(DDT_SECONDARY));
      TablesAreApart(index[..n]);
      forall i | 0 <= i < |front|
        ensures IsTable(index[n]) ==> front[i].offset != index[n].offset
      {
        SelectedMembers(index[..n], OfType(DDT_SECONDARY), front[i]);
        var k :| 0 <= k < n && index[..n][k] == front[i];
        assert index[k] == front[i];
      }
    }
  }

  /** What the batch of secondary tables collected, in an image all of whose tables can be read whole. */
  lemma TablesAreRequested(f: FinalImage)
    requires f.Valid() && TablesApart(f.startIndex)
    requires forall e :: e in Selected(f.startIndex, OfType(DDT_SECONDARY)) ==> Whole(f.start, e)
    ensures |f.batches| == GROUP_INDEX
    ensures var b, tables := f.batches[0], Selected(f.startIndex, OfType(DDT_SECONDARY));
            && BatchReadable(b.file, b.request) && DistinctPlaces(b.request.offsets)
            && |b.request.offsets| == |b.request.sizes| == |tables|
            && forall p :: 0 <= p < |tables| ==>
                 b.request.offsets[p] == tables[p].offset
                 && b.request.sizes[p] == DeclaredSize(f.start, DDT_SECONDARY, tables[p].offset)
                 && tables[p].offset + b.request.sizes[p] <= |f.start|
  {
    hide GroupStored, MapOnDisk, BatchRecords, GroupsFit, StoredWhenReadable, DataRecord, DeclaredSize, Selected;
    hide OnlyParityAdded, Selects;
    var b, s := f.batches[0], OfType(DDT_SECONDARY);
    var tables := Selected(f.startIndex, s);
    assert CollectedSince(f.start, f.startIndex, f.indexOffset, f.codec.m, GROUP_DDT_SECONDARY, b);
    SelectionStays(f.startIndex, b.index, s, |f.start|, |b.file|);
    TablesAreApart(f.startIndex);
    forall p | 0 <= p < |tables|
      ensures tables[p].blockType == DDT_SECONDARY && Whole(f.start, tables[p])
      ensures b.request.sizes[p] == DeclaredSize(f.start, DDT_SECONDARY, tables[p].offset) > 0
    {
      TableOfType(f.startIndex, tables[p]);
      DeclaredSizeStays(f.start, b.file, tables[p]);
    }
  }

  lemma TableOfType(index: seq<IndexEntry>, e: IndexEntry)
    requires e in Selected(index, OfType(DDT_SECONDARY))
    ensures e.blockType == DDT_SECONDARY
  {
    SelectedMembers(index, OfType(DDT_SECONDARY), e);
  }

  // ---- Recovery ----

  /** The image was closed with the cached table `s` pending, and then finalized. */
  ghost predicate ClosedWithTable(f: FinalImage, table: seq<nat>, layout: Layout, h: History, header: ImageHeader,
                                  ddt: DdtHeader, p: Pending, primaryOffset: nat, c: Compressor, s: Secondary) {
    && p.tape.None? && ddt.tableShift > 0 && p.secondary == Some(s) && h.twoLevel && c.Valid()
    && Tracked(f.start, f.startIndex, table, layout, h)
    && (exists entries, placed, added ::
          Closed(f.start, f.startIndex, table, h.log, header, ddt, p, entries, placed, added, primaryOffset, f.crc, c,
                 layout.shift))
    && 0 < |s.entries| < 0x1000_0000 && SecondaryFits(ddt, primaryOffset, f.crc, c, s)
    && s.position < |table| && table[s.position] != 0
  }

  /** The secondary tables of the image can be read whole, and there are no more of them than one stripe
      holds. */
  ghost predicate TablesWhole(f: FinalImage) {
    && (forall e :: e in Selected(f.startIndex, OfType(DDT_SECONDARY)) ==> Whole(f.start, e))
    && |Selected(f.startIndex, OfType(DDT_SECONDARY))| + f.codec.m <= 255
  }

  /** The flushed table is number `i` of those collected: where its primary entry says, and what was
      collected loads as the table. */
  lemma FlushedIsCollected(f: FinalImage, table: seq<nat>, layout: Layout, h: History, header: ImageHeader,
                           ddt: DdtHeader, p: Pending, primaryOffset: nat, c: Compressor, s: Secondary,
                           d: Decompressor) returns (i: nat)
    requires f.Valid() && TablesWhole(f) && Undoes(d, c, EncodeTable(s.entries))
    requires ClosedWithTable(f, table, layout, h, header, ddt, p, primaryOffset, c, s)
    ensures |f.batches| == GROUP_INDEX && f.codec.m < 255
    ensures var b := f.batches[0];
            && i < |b.request.offsets| == |b.request.sizes| && i + f.codec.m < 255
            && DistinctPlaces(b.request.offsets) && BatchReadable(b.file, b.request)
            && b.request.offsets[i] == table[s.position] * Pow2(layout.shift)
            && b.request.offsets[i] + b.request.sizes[i] <= |f.written|
            && LoadTable(f.written[b.request.offsets[i]..b.request.offsets[i] + b.request.sizes[i]], 0,
                         {DDT_SECONDARY, DDT_SECONDARY_ALPHA}, d, f.crc) == Some(EncodeTable(s.entries))
  {
    hide FinalImage.Valid, LoadTable, Selected, Tracked, Closed, SecondaryDone, Laid, Coherent, TablesApart;
    hide Compressor.Valid, Undoes, EncodeTable, Pow2, DeclaredSize, SecondaryFits, Whole, BatchReadable;
    hide DistinctPlaces, SecondaryBlock, TableBlock, DescribedFits, Holds;
    var entries, placed, added :|
      Closed(f.start, f.startIndex, table, h.log, header, ddt, p, entries, placed, added, primaryOffset, f.crc, c,
             layout.shift);
    ClosedHasTable(f.start, f.startIndex, table, h.log, header, ddt, p, entries, placed, added, primaryOffset, f.crc,
                   c, layout.shift);
    TrackedParts(f.start, f.startIndex, table, layout, h);
    var size;
    i, size := FlushedTable(f.start, f.startIndex, table, h.log, h.floor, layout.shift, |f.start|, ddt, s,
                            primaryOffset, f.crc, c, d);
    TablesAreRequested(f);
    StartIsKept(f);
    var from, to := f.batches[0].request.offsets[i], f.batches[0].request.offsets[i] + f.batches[0].request.sizes[i];
    assert f.written[..|f.start|] == f.start;
    assert f.written[from..to] == f.start[from..to];
  }

  /** A closed image whose cached secondary table was flushed, then finalized and damaged.  Rebuilding the
      block at the place that the primary entry of the table names gives a block that loads as the table that
      was in memory, exactly when recovery is available and at most M shards are lost. */
  method RecoverFlushedTable(disk: Bytes, crc: Crc64, inflate: Inflate, offset: nat, ghost f: FinalImage, ghost g: nat,
                             ghost table: seq<nat>, ghost layout: Layout, ghost h: History, ghost header: ImageHeader,
                             ghost ddt: DdtHeader, ghost p: Pending, ghost primaryOffset: nat, ghost c: Compressor,
                             ghost s: Secondary, ghost d: Decompressor)
    returns (bytes: Option<Bytes>)
    requires f.Valid() && f.Addressable() && crc == f.crc && TablesWhole(f) && Undoes(d, c, EncodeTable(s.entries))
    requires ClosedWithTable(f, table, layout, h, header, ddt, p, primaryOffset, c, s)
    requires offset == table[s.position] * Pow2(layout.shift)
    requires g < |f.records| && f.records[g].group.desc.groupType == GROUP_DDT_SECONDARY
    requires DamageReported(f, disk, None, g, 0)
    ensures bytes.Some? <==> Recovers(f) && EnoughSurvive(disk, crc, f.records[g], 0)
    ensures bytes.Some? ==>
              LoadTable(bytes.value, 0, {DDT_SECONDARY, DDT_SECONDARY_ALPHA}, d, crc) == Some(EncodeTable(s.entries))
  {
    hide FinalImage.Valid, FinalImage.Addressable, DamageReported, EnoughSurvive, Recovers, LoadTable, EncodeTable;
    hide ClosedWithTable, TablesWhole, Undoes, Pow2, BatchReadable, DistinctPlaces;
    ghost var i := FlushedIsCollected(f, table, layout, h, header, ddt, p, primaryOffset, c, s, d);
    bytes := RecoverCollected(disk, crc, inflate, offset, GROUP_DDT_SECONDARY, f, g, i);
  }

  lemma ClosedHasTable(closed: Bytes, index: seq<IndexEntry>, table: seq<nat>, log: seq<Placed>, header: ImageHeader,
                       ddt: DdtHeader, p: Pending, entries: seq<FluxEntry>, placed: seq<Placed>,
                       added: seq<IndexEntry>, primaryOffset: nat, crc: Crc64, c: Compressor, shift: nat)
    requires Closed(closed, index, table, log, header, ddt, p, entries, placed, added, primaryOffset, crc, c, shift)
    requires p.tape.None? && ddt.tableShift > 0 && p.secondary.Some? && |p.secondary.value.entries| < 0x1000_0000
    ensures SecondaryDone(table, log, p.secondary.value.position,
                          SecondaryBlock(ddt, primaryOffset, crc, c, p.secondary.value), shift)
  {
    hide TasksSettled, FluxDone, HeaderOnDisk, SecondaryDone, PrimaryDone;
  }

  lemma TrackedParts(file: Bytes, index: seq<IndexEntry>, table: seq<nat>, l: Layout, h: History)
    requires Tracked(file, index, table, l, h) && h.twoLevel
    ensures Laid(file, h.log, h.floor, l.shift) && Coherent(table, index, l.shift, |file|) && TablesApart(index)
  {
    hide Laid, Kept, Align;
  }

  lemma StartIsKept(f: FinalImage)
    requires f.Valid()
    ensures f.start <= f.written
  {
    hide GroupStored, MapOnDisk, BatchRecords, GroupsFit, StoredWhenReadable, DataRecord, OnlyParityAdded;
    hide CollectRequest;
    assert CollectedSince(f.start, f.startIndex, f.indexOffset, f.codec.m, 1, f.batches[0]);
  }
}
