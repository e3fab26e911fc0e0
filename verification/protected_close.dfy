/** Closing an erasure-coded image: the closing writer finishes the image, rewriting its header and its
    primary table in place, and the erasure coding layer then protects the result
    (src/close_write.c and src/erasure.c).
 */
module ProtectedClose {
  import opened Wrappers
  import opened Octet
  import opened Linear
  import opened ReedSolomon
  import opened ImageFile
  import opened Parity
  import opened ErasureFormat
  import opened ErasureWrite
  import opened ErasureMap
  import opened ErasureCollect
  import opened ErasureFinalize
  import opened ErasureGroups
  import opened ErasureClasses
  import opened ErasureRecovery
  import opened FileRegions
  import opened BlockIndex
  import opened IndexBlock
  import opened DdtTable
  import opened CloseTracking
  import opened CloseWrite
  import opened CloseFinalize
  import opened CloseTheorem

  /** Behind `floor` the two files agree as far as the first one goes. */
  ghost predicate SameAbove(file: Bytes, file': Bytes, floor: nat) {
    |file| <= |file'| && forall i :: floor <= i < |file| ==> file'[i] == file[i]
  }

  lemma HoldsAbove(file: Bytes, file': Bytes, floor: nat, settled: nat, position: nat, bytes: Bytes)
    requires SameAbove(file, file', floor) && settled <= |file| && floor <= position
    requires Holds(file[..settled], position, bytes)
    ensures Holds(file'[..settled], position, bytes)
  {
    var a, b := file[..settled][position..position + |bytes|], file'[..settled][position..position + |bytes|];
    assert forall i :: 0 <= i < |bytes| ==> a[i] == b[i];
  }

  lemma StripeAbove(file: Bytes, file': Bytes, floor: nat, settled: nat, c: Codec, crc: Crc64, kind: nat,
                    r: StripeRecord)
    requires SameAbove(file, file', floor) && settled <= |file| && RecordAbove(floor, r.stripe)
    requires StripeStored(file[..settled], c, crc, 0, kind, r)
    ensures StripeStored(file'[..settled], c, crc, 0, kind, r)
  {
    hide ParityBlock, ParityPayload, Holds, SameAbove, MaxSize;
    WholeAbove(file, file', floor);
    forall j | 0 <= j < |r.contents|
      ensures EntryStored(file'[..settled], crc, 0, r.stripe.entries[j], r.contents[j])
    {
      assert EntryStored(file[..settled], crc, 0, r.stripe.entries[j], r.contents[j]);
      HoldsAbove(file, file', floor, settled, r.stripe.entries[j].offset, r.contents[j]);
    }
    forall m | 0 <= m < c.m
      ensures Holds(file'[..settled], r.stripe.parity[m],
                    ParityBlock(crc, kind, ParityPayload(c, r.contents, m, MaxSize(r.contents))))
    {
      HoldsAbove(file, file', floor, settled, r.stripe.parity[m],
                 ParityBlock(crc, kind, ParityPayload(c, r.contents, m, MaxSize(r.contents))));
    }
  }

  lemma WholeAbove(file: Bytes, file': Bytes, floor: nat)
    requires SameAbove(file, file', floor)
    ensures |file| <= |file'|
  {
  }

  lemma OpenAbove(file: Bytes, file': Bytes, floor: nat, settled: nat, crc: Crc64, k: nat, open: seq<Bytes>,
                  slots: Slots, shardSize: nat, done: seq<StripeRecord>)
    requires SameAbove(file, file', floor) && settled <= |file| && Above(floor, slots, |open|, done)
    requires OpenStored(file[..settled], crc, k, open, slots, shardSize)
    ensures settled <= |file'| && OpenStored(file'[..settled], crc, k, open, slots, shardSize)
  {
    hide Holds, SameAbove, RecordAbove;
    WholeAbove(file, file', floor);
    forall j | 0 <= j < |open|
      ensures EntryStored(file'[..settled], crc, 0, SlotEntry(slots, j), open[j])
    {
      assert EntryStored(file[..settled], crc, 0, SlotEntry(slots, j), open[j]);
      HoldsAbove(file, file', floor, settled, slots.offsets[j], open[j]);
    }
  }

  /** What has been accumulated stays accounted for when only bytes below its floor are rewritten. */
  lemma BookedAfterClose(c: Codec, crc: Crc64, file: Bytes, slots: Slots, count: nat, total: nat, stripes: Bytes,
                         shardSize: nat, g: Ledger, file': Bytes)
    requires Booked(c, crc, file, slots, count, total, stripes, shardSize, g) && SameAbove(file, file', g.floor)
    ensures Booked(c, crc, file', slots, count, total, stripes, shardSize, g)
  {
    hide OpenStored, StripeStored, EncodeStripes, Flatten, RecordAbove, SameAbove, MaxSize;
    WholeAbove(file, file', g.floor);
    OpenAbove(file, file', g.floor, g.settled, crc, c.k, g.open, slots, shardSize, g.done);
    forall i | 0 <= i < |g.done|
      ensures StripeStored(file'[..g.settled], c, crc, 0, TYPE_ERASURE_PARITY, g.done[i])
    {
      StripeAbove(file, file', g.floor, g.settled, c, crc, TYPE_ERASURE_PARITY, g.done[i]);
    }
  }

  lemma ClosedAbove(after: Bytes, index: seq<IndexEntry>, table: seq<nat>, l: Layout, h: History, floor: nat)
    requires Tracked(after, index, table, l, h) && IMAGE_HEADER_SIZE <= floor && l.hi <= floor
    ensures SameAbove(h.base, after, floor)
  {
    hide Laid, Align, Coherent;
  }

  /** The erasure coding writer goes on with the file and the index of the closed image. */
  method AdoptClosed(w: Writer, iw: ImageWriter)
    requires w.Valid() && iw.Valid() && iw.history.base == w.file
    requires IMAGE_HEADER_SIZE <= w.ledger.floor && iw.layout.hi <= w.ledger.floor
    modifies w`file, w`index
    ensures w.Valid() && w.file == iw.file && w.index == iw.index
  {
    hide IsCodec, Booked, ParityInvariant, AllFull, Tracked, SameAbove;
    ClosedAbove(iw.file, iw.index, iw.table[..], iw.layout, iw.history, w.ledger.floor);
    BookedAfterClose(w.codec, w.crc, w.file, w.slots, w.count, w.total, w.stripes, w.shardSize, w.ledger, iw.file);
    w.file := iw.file;
    w.index := iw.index;
  }

  /** The data block being filled when the image is closed. */
  datatype OpenBlock = OpenBlock(header: BlockHeader, props: Option<Bytes>, payload: Bytes, surplus: Bytes)
  {
    ghost predicate Valid() {
      && FitsShard(ActualSize(header, props, payload)) && (props.Some? ==> |props.value| == LZMA_PROPERTIES_LENGTH)
      && BLOCK_HEADER_SIZE + header.cmpLength == ActualSize(header, props, payload)
    }

    function Bytes(): seq<byte> {
      BlockBytes(header, props, payload)
    }
  }

  /** The blocks accumulated once the open one, if any, is closed. */
  function WithOpen(history: seq<Bytes>, current: Option<OpenBlock>): seq<Bytes> {
    if current.Some? then history + [current.value.Bytes()] else history
  }

  /** What the header and the open block leave: the header at the start, everything below the place of the
      open block, and that block. */
  ghost predicate Opened(before: Bytes, index: seq<IndexEntry>, next: nat, header: ImageHeader,
                         current: Option<OpenBlock>,
                         after: Bytes, index': seq<IndexEntry>) {
    && HeaderOnDisk(after, header) && |before| <= |after|
    && (forall i :: IMAGE_HEADER_SIZE <= i < |before| && (current.Some? ==> i < next) ==> after[i] == before[i])
    && (current.Some? ==>
          Holds(after, next, current.value.Bytes())
          && OnlyParityAdded(index + [IndexEntry(DATA_BLOCK, TYPE_USER_DATA, next)], index', 0, |after|))
    && (current.None? ==> index' == index)
  }

  /** Write the image header and close the open data block, which is protected like the ones before. */
  method StartClose(w: Writer, header: ImageHeader, current: Option<OpenBlock>)
    requires w.Valid() && IMAGE_HEADER_SIZE <= w.ledger.floor && |header.identity| == 80 && |header.times| == 35
    requires current.Some? ==> current.value.Valid() && w.ledger.settled <= w.next && w.ledger.floor <= w.next
    modifies w, w.parity
    ensures w.Valid() && w.ledger.floor == old(w.ledger.floor)
    ensures w.ledger.history == WithOpen(old(w.ledger.history), current)
    ensures w.ledger.offsets == old(w.ledger.offsets) + if current.Some? then [old(w.next)] else []
    ensures Opened(old(w.file), old(w.index), old(w.next), header, current, w.file, w.index)
    ensures w.parity == old(w.parity) || forall m :: 0 <= m < |w.parity| ==> fresh(w.parity[m])
  {
    hide IsCodec, Booked, ParityInvariant, AllFull, SameAbove, BlockBytes, ActualSize, FitsShard, WriteAt;
    hide ImageHeader.Encoded;
    hide HeaderOnDisk, Rising, WrittenOver, OnlyParityAdded;
    HeaderLength(header);
    HeaderWritten(w.file, header);
    HeaderStamped(w.file, header, w.ledger.floor);
    var stamped := WriteAt(w.file, 0, header.Encoded());
    BookedAfterClose(w.codec, w.crc, w.file, w.slots, w.count, w.total, w.stripes, w.shardSize, w.ledger, stamped);
    w.file := stamped;
    if current.Some? {
      var b := current.value;
      ghost var next := w.next;
      w.WriteBlock(b.header, b.props, b.payload, b.surplus);
      HeaderBelow(stamped, next, b.Bytes(), w.file, header);
    }
  }

  lemma HeaderStamped(file: Bytes, header: ImageHeader, floor: nat)
    requires |header.identity| == 80 && |header.times| == 35 && IMAGE_HEADER_SIZE <= floor
    ensures var stamped := WriteAt(file, 0, header.Encoded());
            && SameAbove(file, stamped, floor) && |file| <= |stamped|
            && forall i :: IMAGE_HEADER_SIZE <= i < |file| ==> stamped[i] == file[i]
  {
    hide ImageHeader.Encoded;
    HeaderLength(header);
  }

  lemma HeaderBelow(file: Bytes, next: nat, block: Bytes, file': Bytes, header: ImageHeader)
    requires HeaderOnDisk(file, header) && IMAGE_HEADER_SIZE <= next && WrittenOver(file, next, block, file')
    ensures HeaderOnDisk(file', header) && |file| <= |file'| && Holds(file', next, block)
    ensures forall i :: 0 <= i < |file| && i < next ==> file'[i] == file[i]
  {
    hide ImageHeader.Encoded;
    var n := Least(next, |file|);
    forall i | 0 <= i < n
      ensures file'[i] == file[i]
    {
      assert file[..n][i] == file[i];
    }
    assert file'[..IMAGE_HEADER_SIZE] == file[..IMAGE_HEADER_SIZE];
  }

  /** A table that agrees with the index goes on to, when only data blocks are indexed. */
  lemma {:induction false} CoherentWithBlocks(table: seq<nat>, index: seq<IndexEntry>, index': seq<IndexEntry>,
                                              shift: nat, bound: nat)
    requires Coherent(table, index, shift, bound) && index <= index'
    requires forall i :: |index| <= i < |index'| ==> index'[i].blockType == DATA_BLOCK
    ensures Coherent(table, index', shift, bound)
    decreases |index'|
  {
    hide Coherent;
    if |index'| > |index| {
      var n := |index'| - 1;
      assert index <= index'[..n];
      CoherentWithBlocks(table, index, index'[..n], shift, bound);
      OtherStepsKeepCoherent(table, index'[..n], shift, bound, Add(KindOf(index'[n]), index'[n].offset));
      assert index' == index'[..n] + [index'[n]];
    } else {
      assert index' == index;
    }
  }

  lemma OpenedCoherent(before: Bytes, index: seq<IndexEntry>, next: nat, header: ImageHeader,
                       current: Option<OpenBlock>, after: Bytes, index': seq<IndexEntry>, table: seq<nat>, l: Layout)
    requires Opened(before, index, next, header, current, after, index') && l.hi <= Align(|before|, l.shift)
    ensures IMAGE_HEADER_SIZE <= |after| && HeaderOnDisk(after, header) && l.hi <= Align(|after|, l.shift)
    ensures Coherent(table, index, l.shift, |before|) ==> Coherent(table, index', l.shift, |after|)
  {
    hide Coherent, Align, Holds, ImageHeader.Encoded;
    AlignIsMonotone(|before|, |after|, l.shift);
    if Coherent(table, index, l.shift, |before|) {
      CoherentGrows(table, index, l.shift, |before|, |after|);
      CoherentWithBlocks(table, index, index', l.shift, |after|);
    }
  }

  /** A whole close of an erasure-coded image: the header, the open data block, the closing writer, then the
      erasure coding layer, which collects its batch groups from the closed image. */
  method CloseProtected(w: Writer, layout: Layout, primaryOffset: nat, compressor: Compressor, header: ImageHeader,
                        current: Option<OpenBlock>, dirtyIndex: bool, ddt: DdtHeader, table: array<nat>, p: Pending,
                        ghost twoLevel: bool)
    returns (iw: ImageWriter, ok: bool, ghost closed: Bytes, ghost closedTable: seq<nat>, ghost f: FinalImage)
    requires w.Valid() && IMAGE_HEADER_SIZE <= w.ledger.floor && layout.hi <= w.ledger.floor && w.algorithm < 0x100
    requires forall m :: 0 <= m < |w.parity| ==> (w.parity[m] as object) != (table as object)
    requires |header.identity| == 80 && |header.times| == 35 && compressor.Valid()
    requires current.Some? ==> current.value.Valid() && w.ledger.settled <= w.next && w.ledger.floor <= w.next
    requires layout.hi <= Align(|w.file|, layout.shift)
    requires ddt.tableShift > 0 ==> Reserved(layout, primaryOffset, table.Length)
    requires twoLevel ==> ddt.tableShift > 0 && Coherent(table[..], w.index, layout.shift, |w.file|)
    requires Closable(p, ddt.tableShift, table[..], layout.shift, twoLevel)
    modifies w, w.parity, table
    ensures fresh(iw) && (ok <==> CapturesFit(p.captures)) && Tracked(closed, iw.index, closedTable, layout, iw.history)
    ensures Opened(old(w.file), old(w.index), old(w.next), header, current, iw.history.base, iw.history.start)
    ensures iw.history.twoLevel == twoLevel && (ok ==> OnlyMarked(header, iw.header, HasBlake3(p)))
    ensures ok ==> UntouchedKept(iw.history.start, iw.index, AllTasks(p))
    ensures p.tape.None? ==> OtherEntriesKept(old(table[..]), closedTable, p.secondary)
    ensures ok ==>
              exists entries, placed, added ::
                Closed(closed, iw.index, closedTable, iw.history.log, iw.header, ddt, p, entries, placed, added,
                       primaryOffset, w.crc, compressor, layout.shift)
    ensures ok ==> closed <= w.file
                   && IndexKept(w.file, iw.header, w.crc, iw.index, iw.history, layout.shift,
                                dirtyIndex || current.Some? || Marks(p, ddt.tableShift, table.Length, iw.history.start))
    ensures ok ==> f.Valid() && f.start == closed && f.startIndex == iw.index && f.written == w.file && f.crc == w.crc
                   && f.codec == w.codec && f.indexOffset == iw.header.indexOffset && f.header == iw.header.Encoded()
                   && f.history == WithOpen(old(w.ledger.history), current)
                   && f.offsets == old(w.ledger.offsets) + if current.Some? then [old(w.next)] else []
  {
    hide IsCodec, Booked, ParityInvariant, AllFull, Tracked, Closed, Closable, Coherent, Reserved, Align, Opened;
    hide OpenBlock.Valid, Compressor.Valid, IndexKept, HeaderOnDisk, ImageHeader.Encoded, FinalImage.Valid, Marks;
    hide OtherEntriesKept, OnlyMarked, UntouchedKept, AllTasks;
    StartClose(w, header, current);
    OpenedCoherent(old(w.file), old(w.index), old(w.next), header, current, w.file, w.index, table[..], layout);
    iw := new ImageWriter(layout, primaryOffset, w.crc, compressor, w.file, w.index, header,
                          dirtyIndex || current.Some?, ddt, table, twoLevel);
    ok, closed, closedTable, f := CloseStarted(w, iw, p);
  }

  /** The rest of the close, once header and open block are written. */
  method CloseStarted(w: Writer, iw: ImageWriter, p: Pending)
    returns (ok: bool, ghost closed: Bytes, ghost closedTable: seq<nat>, ghost f: FinalImage)
    requires w.Valid() && iw.Valid() && iw.history.base == w.file && iw.crc == w.crc && HeaderOnDisk(iw.file, iw.header)
    requires IMAGE_HEADER_SIZE <= w.ledger.floor && iw.layout.hi <= w.ledger.floor && w.algorithm < 0x100
    requires forall m :: 0 <= m < |w.parity| ==> (w.parity[m] as object) != (iw.table as object)
    requires Closable(p, iw.ddt.tableShift, iw.table[..], iw.layout.shift, iw.history.twoLevel)
    modifies w, w.parity, iw, iw.table
    ensures SameRun(old(iw.history), iw.history) && (ok <==> CapturesFit(p.captures))
    ensures ok ==> OnlyMarked(old(iw.header), iw.header, HasBlake3(p))
    ensures ok ==> UntouchedKept(old(iw.index), iw.index, AllTasks(p))
    ensures p.tape.None? ==> OtherEntriesKept(old(iw.table[..]), closedTable, p.secondary)
    ensures Tracked(closed, iw.index, closedTable, iw.layout, iw.history)
    ensures ok ==>
              exists entries, placed, added ::
                Closed(closed, iw.index, closedTable, iw.history.log, iw.header, old(iw.ddt), p, entries, placed, added,
                       iw.primaryOffset, w.crc, iw.compressor, iw.layout.shift)
    ensures ok ==> closed <= w.file
                   && IndexKept(w.file, iw.header, w.crc, iw.index, iw.history, iw.layout.shift,
                                old(iw.dirtyIndex)
                                || Marks(p, old(iw.ddt.tableShift), old(iw.table.Length), old(iw.index)))
    ensures ok ==> f.Valid() && f.start == closed && f.startIndex == iw.index && f.written == w.file && f.crc == w.crc
                   && f.codec == w.codec && f.indexOffset == iw.header.indexOffset && f.header == iw.header.Encoded()
                   && f.history == old(w.ledger.history) && f.offsets == old(w.ledger.offsets)
  {
    hide IsCodec, Booked, ParityInvariant, AllFull, Tracked, Closed, Closable, Coherent, Reserved, Align;
    hide Compressor.Valid, IndexOnDisk, IndexKept, HeaderOnDisk, ImageHeader.Encoded, FinalImage.Valid, Marks;
    hide OtherEntriesKept, OnlyMarked, UntouchedKept, AllTasks;
    ghost var ddt := iw.ddt;
    ghost var entries, placed, added;
    ok, entries, placed, added := FinalizeWrite(iw, p);
    closed, closedTable := iw.file, iw.table[..];
    f := FinalImage([], [], [], w.crc, 0, [], 0, w.codec, [], [], [], [], 0);
    if ok {
      ClosedHeader(closed, iw.index, closedTable, iw.history.log, iw.header, ddt, p, entries, placed, added,
                   iw.primaryOffset, w.crc, iw.compressor, iw.layout.shift);
      f := ProtectClosed(w, iw);
    }
  }

  /** Hand the closed image to the erasure coding layer. */
  method ProtectClosed(w: Writer, iw: ImageWriter) returns (ghost f: FinalImage)
    requires w.Valid() && iw.Valid() && iw.history.base == w.file && HeaderOnDisk(iw.file, iw.header)
    requires IMAGE_HEADER_SIZE <= w.ledger.floor && iw.layout.hi <= w.ledger.floor && w.algorithm < 0x100
    requires iw.dirtyIndex && |iw.index| > 0 ==>
              IndexOnDisk(iw.file, w.crc, iw.index, iw.header.indexOffset, iw.layout.shift)
    modifies w, w.parity
    ensures iw.file <= w.file
    ensures IndexKept(w.file, iw.header, w.crc, iw.index, iw.history, iw.layout.shift, iw.dirtyIndex)
    ensures f.Valid() && f.start == iw.file && f.startIndex == iw.index && f.written == w.file && f.crc == w.crc
    ensures f.codec == w.codec && f.indexOffset == iw.header.indexOffset && f.header == iw.header.Encoded()
    ensures f.history == old(w.ledger.history) && f.offsets == old(w.ledger.offsets)
  {
    hide IsCodec, Booked, ParityInvariant, AllFull, Tracked, Reserved, Align, Compressor.Valid, IndexOnDisk, IndexKept;
    hide HeaderOnDisk;
    hide ImageHeader.Encoded, FinalImage.Valid;
    ghost var file, table := iw.file, iw.table[..];
    assert Tracked(file, iw.index, table, iw.layout, iw.history);
    AdoptClosed(w, iw);
    HeaderBytes(iw.file, iw.header);
    f := FinalizeImage(w, iw.header.Encoded(), iw.header.indexOffset);
    KeptBehind(iw.file, w.file, iw.header, w.crc, iw.index, table, iw.layout, iw.history, iw.dirtyIndex);
  }

  /** Header, index and blocks of the closed image are still what they were. */
  ghost predicate IndexKept(file: Bytes, header: ImageHeader, crc: Crc64, index: seq<IndexEntry>, h: History,
                            shift: nat, dirtyIndex: bool) {
    && HeaderOnDisk(file, header) && Laid(file, h.log, h.floor, shift)
    && (dirtyIndex && |index| > 0 ==> IndexOnDisk(file, crc, index, header.indexOffset, shift))
  }

  lemma HeaderBytes(file: Bytes, header: ImageHeader)
    requires HeaderOnDisk(file, header)
    ensures |header.Encoded()| == IMAGE_HEADER_SIZE
  {
    hide ImageHeader.Encoded;
  }

  lemma KeptBehind(file: Bytes, longer: Bytes, header: ImageHeader, crc: Crc64, index: seq<IndexEntry>, table: seq<nat>,
                   layout: Layout, h: History, dirtyIndex: bool)
    requires file <= longer && HeaderOnDisk(file, header) && Tracked(file, index, table, layout, h)
    requires dirtyIndex && |index| > 0 ==> IndexOnDisk(file, crc, index, header.indexOffset, layout.shift)
    ensures IndexKept(longer, header, crc, index, h, layout.shift, dirtyIndex)
  {
    hide HeaderOnDisk, Laid, Kept, Coherent, IndexBytes, Pow2, Align;
    PrefixIsKept(file, longer);
    LaidLonger(file, longer, h.log, h.floor, layout.shift);
    if dirtyIndex && |index| > 0 {
      HoldsInLonger(file, longer, header.indexOffset, IndexBytes(crc, index));
    }
  }

  /** The secondary table flushed by the close is among those collected, and what it declares loads as the
      table, although the bytes emitted past its payload are not declared. */
  lemma FlushedTable(closed: Bytes, index: seq<IndexEntry>, table: seq<nat>, log: seq<Placed>, floor: nat, shift: nat,
                     bound: nat, ddt: DdtHeader, s: Secondary, primaryOffset: nat, crc: Crc64, c: Compressor,
                     d: Decompressor) returns (p: nat, size: nat)
    requires 0 < |s.entries| < 0x1000_0000 && SecondaryFits(ddt, primaryOffset, crc, c, s) && c.Valid()
    requires Undoes(d, c, EncodeTable(s.entries))
    requires SecondaryDone(table, log, s.position, SecondaryBlock(ddt, primaryOffset, crc, c, s), shift)
    requires Laid(closed, log, floor, shift) && Coherent(table, index, shift, bound) && table[s.position] != 0
    ensures var tables := Selected(index, OfType(DDT_SECONDARY)); var e := TableEntry(table[s.position], shift);
            && p < |tables| && tables[p] == e && Whole(closed, e)
            && size == DeclaredSize(closed, DDT_SECONDARY, e.offset) && e.offset + size <= |closed|
            && LoadTable(closed[e.offset..e.offset + size], 0, {DDT_SECONDARY, DDT_SECONDARY_ALPHA}, d, crc)
               == Some(EncodeTable(s.entries))
  {
    hide DescribedFits, Compressor.Valid, Undoes, LoadTable, EncodeTable, Pow2, DeclaredSize, Selected, Holds;
    hide TableBlock;
    TableSize(s.entries);
    var at := table[s.position] * Pow2(shift);
    var e := TableEntry(table[s.position], shift);
    var k :| 0 <= k < |log| && log[k] == Placed(at, SecondaryBlock(ddt, primaryOffset, crc, c, s));
    assert Holds(closed, at, log[k].bytes);
    DeclaredTableLoads(closed, at, SecondaryHeader(ddt, primaryOffset, s.position), crc, c, d, EncodeTable(s.entries),
                       {DDT_SECONDARY, DDT_SECONDARY_ALPHA});
    SelectedMembers(index, OfType(DDT_SECONDARY), e);
    p :| 0 <= p < |Selected(index, OfType(DDT_SECONDARY))| && Selected(index, OfType(DDT_SECONDARY))[p] == e;
    size := DeclaredSize(closed, DDT_SECONDARY, at);
  }

  /** The flushed secondary table is in its group, and what the group restores loads as the table. */
  lemma FlushedTableIsProtected(closed: Bytes, index: seq<IndexEntry>, table: seq<nat>, log: seq<Placed>, floor: nat,
                                shift: nat, bound: nat, ddt: DdtHeader, s: Secondary, primaryOffset: nat, crc: Crc64,
                                c: Compressor, d: Decompressor, indexOffset: nat, file: Bytes, m: nat,
                                batches: seq<Batch>, records: seq<GroupRecord>) returns (p: nat, bytes: Bytes)
    requires BatchesDone(closed, index, file, indexOffset, m, batches, records)
    requires 0 < |s.entries| < 0x1000_0000 && SecondaryFits(ddt, primaryOffset, crc, c, s) && c.Valid()
    requires Undoes(d, c, EncodeTable(s.entries))
    requires SecondaryDone(table, log, s.position, SecondaryBlock(ddt, primaryOffset, crc, c, s), shift)
    requires Laid(closed, log, floor, shift) && Coherent(table, index, shift, bound) && table[s.position] != 0
    requires |Selected(index, OfType(DDT_SECONDARY))| + m <= 255
    ensures Protects(records, GROUP_DDT_SECONDARY, p, bytes)
    ensures LoadTable(bytes, 0, {DDT_SECONDARY, DDT_SECONDARY_ALPHA}, d, crc) == Some(EncodeTable(s.entries))
  {
    hide BatchesDone, Compressor.Valid, Undoes, LoadTable, EncodeTable, Pow2, DeclaredSize, Selected, Protects;
    hide SecondaryFits, SecondaryDone, Laid, Coherent, Whole, SecondaryBlock, TableBlock, DescribedFits, Holds;
    var size;
    p, size := FlushedTable(closed, index, table, log, floor, shift, bound, ddt, s, primaryOffset, crc, c, d);
    DoneBounds(closed, index, file, indexOffset, m, batches, records);
    EveryTableIsProtected(closed, index, file, indexOffset, m, batches, records, GROUP_DDT_SECONDARY, p);
    var e := Selected(index, OfType(DDT_SECONDARY))[p];
    bytes := closed[e.offset..e.offset + size];
  }

  lemma DoneBounds(start: Bytes, startIndex: seq<IndexEntry>, file: Bytes, indexOffset: nat, m: nat,
                   batches: seq<Batch>, records: seq<GroupRecord>)
    requires BatchesDone(start, startIndex, file, indexOffset, m, batches, records)
    ensures m < 255
  {
  }

  /** What a close writes can be collected and read whole: the flushed table, the primary table rewritten in
      place, a single table or a tape's, the index, and, when the file ends less than 4 GiB behind them, the
      flux blocks, whose size is taken from what follows. */
  lemma ClosedIsCollectable(closed: Bytes, index: seq<IndexEntry>, table: seq<nat>, log: seq<Placed>, floor: nat,
                            shift: nat, header: ImageHeader, ddt: DdtHeader, p: Pending, entries: seq<FluxEntry>,
                            placed: seq<Placed>, added: seq<IndexEntry>, primaryOffset: nat, crc: Crc64, c: Compressor)
    requires Closed(closed, index, table, log, header, ddt, p, entries, placed, added, primaryOffset, crc, c, shift)
    requires Laid(closed, log, floor, shift) && c.Valid() && 0 < |table| < 0x1000_0000
    ensures p.tape.None? && ddt.tableShift > 0 && p.secondary.Some? && |p.secondary.value.entries| < 0x1000_0000
            && SecondaryFits(ddt, primaryOffset, crc, c, p.secondary.value)
            && p.secondary.value.position < |table| ==>
              Whole(closed, TableEntry(table[p.secondary.value.position], shift))
    ensures p.tape.None? && ddt.tableShift > 0 && p.primary && PrimaryHeader(ddt, crc, table).Valid() ==>
              Whole(closed, EntryAt(PrimaryKind(), primaryOffset))
    ensures var single := if p.tape.Some? then TapeHeader(ddt, |table|) else ddt;
            && (p.tape.Some? || (ddt.tableShift == 0 && p.single))
            && DescribedFits(SingleHeader(single), crc, c, EncodeTable(table))
            ==> exists e :: OfKind(index, PrimaryKind()) == [e] && Whole(closed, e)
    ensures IndexOnDisk(closed, crc, index, header.indexOffset, shift) && |IndexBytes(crc, index)| < 0x1_0000_0000 ==>
              IndexWhole(closed, header.indexOffset)
    ensures p.captures != [] && EndBefore(placed, header.indexOffset) && header.indexOffset <= |closed| ==>
              forall i, end: nat :: 0 <= i < |added| && end < added[i].offset + 0x1_0000_0000 ==>
                Spanned(closed, index, header.indexOffset, added[i], end)
  {
    hide Closed, Laid, SecondaryFits, Whole, DescribedFits, Compressor.Valid, PrimaryHeader, TapeHeader, SingleHeader;
    hide EncodeTable, IndexBytes, Spanned, EndBefore, IndexWhole, IndexOnDisk;
    ClosedTablesAreWhole(closed, index, table, log, floor, shift, header, ddt, p, entries, placed, added,
                         primaryOffset, crc, c);
    ClosedEndIsWhole(closed, index, table, log, floor, shift, header, ddt, p, entries, placed, added, primaryOffset,
                     crc, c);
  }

  lemma ClosedTablesAreWhole(closed: Bytes, index: seq<IndexEntry>, table: seq<nat>, log: seq<Placed>, floor: nat,
                             shift: nat, header: ImageHeader, ddt: DdtHeader, p: Pending, entries: seq<FluxEntry>,
                             placed: seq<Placed>, added: seq<IndexEntry>, primaryOffset: nat, crc: Crc64, c: Compressor)
    requires Closed(closed, index, table, log, header, ddt, p, entries, placed, added, primaryOffset, crc, c, shift)
    requires Laid(closed, log, floor, shift) && c.Valid() && 0 < |table| < 0x1000_0000
    ensures p.tape.None? && ddt.tableShift > 0 && p.secondary.Some? && |p.secondary.value.entries| < 0x1000_0000
            && SecondaryFits(ddt, primaryOffset, crc, c, p.secondary.value)
            && p.secondary.value.position < |table| ==>
              Whole(closed, TableEntry(table[p.secondary.value.position], shift))
    ensures p.tape.None? && ddt.tableShift > 0 && p.primary && PrimaryHeader(ddt, crc, table).Valid() ==>
              Whole(closed, EntryAt(PrimaryKind(), primaryOffset))
    ensures var single := if p.tape.Some? then TapeHeader(ddt, |table|) else ddt;
            && (p.tape.Some? || (ddt.tableShift == 0 && p.single))
            && DescribedFits(SingleHeader(single), crc, c, EncodeTable(table))
            ==> exists e :: OfKind(index, PrimaryKind()) == [e] && Whole(closed, e)
  {
    hide TasksSettled, FluxDone, HeaderOnDisk, Laid, SecondaryFits, Whole, DescribedFits, SecondaryDone, PrimaryDone;
    hide Settled, Compressor.Valid, PrimaryHeader, TapeHeader, SingleHeader, EncodeTable;
    if p.tape.Some? {
      SingleIsWhole(closed, index, log, floor, shift, TapeHeader(ddt, |table|), crc, c, table);
    } else if ddt.tableShift == 0 {
      if p.single { SingleIsWhole(closed, index, log, floor, shift, ddt, crc, c, table); }
    } else {
      if p.secondary.Some? && |p.secondary.value.entries| < 0x1000_0000 {
        FlushedIsWhole(closed, table, log, floor, shift, ddt, primaryOffset, crc, c, p.secondary.value);
      }
      if p.primary && PrimaryHeader(ddt, crc, table).Valid() {
        PrimaryIsWhole(closed, index, primaryOffset, ddt, crc, table);
      }
    }
  }

  lemma ClosedEndIsWhole(closed: Bytes, index: seq<IndexEntry>, table: seq<nat>, log: seq<Placed>, floor: nat,
                         shift: nat, header: ImageHeader, ddt: DdtHeader, p: Pending, entries: seq<FluxEntry>,
                         placed: seq<Placed>, added: seq<IndexEntry>, primaryOffset: nat, crc: Crc64, c: Compressor)
    requires Closed(closed, index, table, log, header, ddt, p, entries, placed, added, primaryOffset, crc, c, shift)
    requires Laid(closed, log, floor, shift) && c.Valid() && 0 < |table| < 0x1000_0000
    ensures IndexOnDisk(closed, crc, index, header.indexOffset, shift) && |IndexBytes(crc, index)| < 0x1_0000_0000 ==>
              IndexWhole(closed, header.indexOffset)
    ensures p.captures != [] && EndBefore(placed, header.indexOffset) && header.indexOffset <= |closed| ==>
              forall i, end: nat :: 0 <= i < |added| && end < added[i].offset + 0x1_0000_0000 ==>
                Spanned(closed, index, header.indexOffset, added[i], end)
  {
    hide TasksSettled, FluxDone, HeaderOnDisk, Laid, TablesDone, Compressor.Valid, IndexBytes, Spanned, EndBefore;
    hide IndexWhole;
    if IndexOnDisk(closed, crc, index, header.indexOffset, shift) && |IndexBytes(crc, index)| < 0x1_0000_0000 {
      IndexIsWhole(closed, header.indexOffset, crc, index);
    }
    if p.captures != [] && EndBefore(placed, header.indexOffset) && header.indexOffset <= |closed| {
      FluxIsSpanned(closed, index, log, header.indexOffset, p.captures, entries, placed, added, crc, c, shift);
    }
  }

  lemma FlushedIsWhole(closed: Bytes, table: seq<nat>, log: seq<Placed>, floor: nat, shift: nat, ddt: DdtHeader,
                       primaryOffset: nat, crc: Crc64, c: Compressor, s: Secondary)
    requires |s.entries| < 0x1000_0000
    requires SecondaryDone(table, log, s.position, SecondaryBlock(ddt, primaryOffset, crc, c, s), shift)
    requires Laid(closed, log, floor, shift) && c.Valid()
    ensures SecondaryFits(ddt, primaryOffset, crc, c, s) && s.position < |table| ==>
              Whole(closed, TableEntry(table[s.position], shift))
  {
    hide Compressor.Valid, EncodeTable, Pow2, DeclaredSize, Holds, TableBlock, DescribedFits;
    TableSize(s.entries);
    var at := table[s.position] * Pow2(shift);
    var k :| 0 <= k < |log| && log[k] == Placed(at, SecondaryBlock(ddt, primaryOffset, crc, c, s));
    assert Holds(closed, at, log[k].bytes);
    if SecondaryFits(ddt, primaryOffset, crc, c, s) {
      PackedTableIsWhole(closed, at, DDT_SECONDARY, SecondaryHeader(ddt, primaryOffset, s.position), crc, c,
                         EncodeTable(s.entries));
    }
  }

  lemma PrimaryIsWhole(closed: Bytes, index: seq<IndexEntry>, primaryOffset: nat, ddt: DdtHeader, crc: Crc64,
                       table: seq<nat>)
    requires PrimaryDone(closed, index, primaryOffset, PrimaryHeader(ddt, crc, table), table)
    requires PrimaryHeader(ddt, crc, table).Valid() && |table| < 0x1000_0000
    ensures Whole(closed, EntryAt(PrimaryKind(), primaryOffset))
  {
    hide EncodeTable, DdtHeader.Encoded, DdtHeader.Valid, Holds, DeclaredSize, OfKind;
    TableSize(table);
    StoredTableIsWhole(closed, primaryOffset, DDT_PRIMARY, PrimaryHeader(ddt, crc, table), EncodeTable(table));
  }

  lemma SingleIsWhole(closed: Bytes, index: seq<IndexEntry>, log: seq<Placed>, floor: nat, shift: nat, ddt: DdtHeader,
                      crc: Crc64, c: Compressor, table: seq<nat>)
    requires |table| < 0x1000_0000 && Settled(index, log, TableJob(SingleBlock(ddt, crc, c, table)))
    requires Laid(closed, log, floor, shift) && c.Valid()
    ensures |EncodeTable(table)| < 0x1_0000_0000
    ensures DescribedFits(SingleHeader(ddt), crc, c, EncodeTable(table)) ==>
              exists e :: OfKind(index, PrimaryKind()) == [e] && Whole(closed, e)
  {
    hide Compressor.Valid, EncodeTable, Pow2, DeclaredSize, Holds, TableBlock, DescribedFits, OfKind;
    TableSize(table);
    var m :| 0 <= m < |log| && log[m].bytes == TableJob(SingleBlock(ddt, crc, c, table)).Contents()
             && OfKind(index, PrimaryKind()) == [EntryAt(PrimaryKind(), log[m].offset)];
    assert SingleBlock(ddt, crc, c, table) + [] == SingleBlock(ddt, crc, c, table);
    assert Holds(closed, log[m].offset, log[m].bytes);
    if DescribedFits(SingleHeader(ddt), crc, c, EncodeTable(table)) {
      PackedTableIsWhole(closed, log[m].offset, DDT_PRIMARY, SingleHeader(ddt), crc, c, EncodeTable(table));
      assert Whole(closed, EntryAt(PrimaryKind(), log[m].offset));
    }
  }

  lemma FluxIsSpanned(closed: Bytes, index: seq<IndexEntry>, log: seq<Placed>, indexOffset: nat, captures: seq<Capture>,
                      entries: seq<FluxEntry>, placed: seq<Placed>, added: seq<IndexEntry>, crc: Crc64, c: Compressor,
                      shift: nat)
    requires FluxDone(index, log, captures, entries, placed, added, crc, c, shift) && captures != []
    requires EndBefore(placed, indexOffset) && indexOffset <= |closed|
    ensures forall i, end: nat :: 0 <= i < |added| && end < added[i].offset + 0x1_0000_0000 ==>
              Spanned(closed, index, indexOffset, added[i], end)
  {
    hide CaptureBlock, FluxMetadata, Pow2;
    forall i, end: nat | 0 <= i < |added| && end < added[i].offset + 0x1_0000_0000
      ensures Spanned(closed, index, indexOffset, added[i], end)
    {
      if i < |captures| {
        assert placed[..|captures|][i] == placed[i] && added[..|captures|][i] == added[i];
        CaptureBlockSize(crc, c, captures[i].data + captures[i].index);
      } else {
        FluxMetadataSize(crc, shift, entries);
      }
    }
  }

  /** The copy of the header in the recovery footer is the header at the start of the file. */
  lemma FooterHoldsTheHeader(file: Bytes, crc: Crc64, algorithm: nat, header: ImageHeader, records: seq<GroupRecord>,
                             mapOffset: nat)
    requires MapOnDisk(file, crc, algorithm, header.Encoded(), GroupsOf(records), mapOffset)
    requires HeaderOnDisk(file, header)
    requires mapOffset < 0x1_0000_0000_0000_0000
    requires |MapBlock(crc, algorithm, GroupsOf(records))| < 0x1_0000_0000_0000_0000
    ensures FOOTER_SIZE <= |file| && IMAGE_HEADER_SIZE <= |file|
    ensures DecodeFooter(file[|file| - FOOTER_SIZE..]).backup == file[..IMAGE_HEADER_SIZE]
    ensures DecodeFooter(file[|file| - FOOTER_SIZE..]).headerCrc64 == crc(file[..IMAGE_HEADER_SIZE])
  {
    hide ImageHeader.Encoded, MapBlock, DecodeFooter, Footer.Encoded, GroupStored;
    var footer := FooterFor(crc, mapOffset, |MapBlock(crc, algorithm, GroupsOf(records))|, header.Encoded());
    FooterBytes(footer);
    FooterRoundTrip(footer);
    assert file[|file| - FOOTER_SIZE..] == file[|file| - FOOTER_SIZE..|file| - FOOTER_SIZE + FOOTER_SIZE];
  }

  lemma FooterBytes(f: Footer)
    requires |f.backup| == IMAGE_HEADER_SIZE
    ensures |f.Encoded()| == FOOTER_SIZE
  {
  }

  /** Every block that a close wrote and left indexed, and that is neither user data nor parity nor a table nor
      an index, is in the metadata group: from its first byte on, and whole when the size taken for it reaches
      its end. */
  lemma ClosedBlockIsProtected(closed: Bytes, index: seq<IndexEntry>, table: seq<nat>, log: seq<Placed>, floor: nat,
                               shift: nat, header: ImageHeader, ddt: DdtHeader, p: Pending, entries: seq<FluxEntry>,
                               placed: seq<Placed>, added: seq<IndexEntry>, primaryOffset: nat, crc: Crc64,
                               c: Compressor, file: Bytes, indexOffset: nat, m: nat, batches: seq<Batch>,
                               records: seq<GroupRecord>, i: nat) returns (place: nat, q: nat, size: nat)
    requires Closed(closed, index, table, log, header, ddt, p, entries, placed, added, primaryOffset, crc, c, shift)
    requires Laid(closed, log, floor, shift) && BatchesDone(closed, index, file, indexOffset, m, batches, records)
    requires Collectable(closed, index, indexOffset, |file|) && |PlacesOf(index, OtherBlock)| + m <= 255
    requires i < |AllTasks(p)| && Newest(AllTasks(p), i)
    requires ClassOf(EntryAt(AllTasks(p)[i].job.kind, 0)) == OtherBlock
    ensures var job := AllTasks(p)[i].job; var e := EntryAt(job.kind, place);
            && e in index && Holds(closed, place, job.Contents())
            && 0 < size && place + size <= |file| && Protects(records, GROUP_METADATA, q, file[place..place + size])
            && (Covered(index, indexOffset, e, job.Contents()) ==> job.Contents() <= file[place..place + size])
  {
    hide TablesDone, FluxDone, HeaderOnDisk, BatchesDone, Collectable, Protects, Covered, OfKind, AllTasks;
    var job := AllTasks(p)[i].job;
    place := SettledPlace(closed, index, log, floor, shift, job);
    var e := EntryAt(job.kind, place);
    q, size := MetadataIsProtected(closed, index, file, indexOffset, m, batches, records, e, job.Contents());
  }

  lemma SettledPlace(file: Bytes, index: seq<IndexEntry>, log: seq<Placed>, floor: nat, shift: nat, job: Job)
    returns (place: nat)
    requires Settled(index, log, job) && Laid(file, log, floor, shift)
    ensures EntryAt(job.kind, place) in index && Holds(file, place, job.Contents())
  {
    hide OfKind, Pow2;
    var k :| 0 <= k < |log| && log[k].bytes == job.Contents()
             && OfKind(index, job.kind) == [EntryAt(job.kind, log[k].offset)];
    place := log[k].offset;
    InOfKind(index, EntryAt(job.kind, place));
  }
}
