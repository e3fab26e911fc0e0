/** Closing an image as a whole, and what a reader finds in it afterwards. */
module CloseTheorem {
  import opened Wrappers
  import opened Octet
  import opened ImageFile
  import opened FileRegions
  import opened BlockIndex
  import opened IndexBlock
  import opened DdtTable
  import opened CloseTracking
  import opened CloseWrite
  import opened CloseFinalize

  /** The file once the image header and the current block are written. */
  function Started(file: Bytes, header: ImageHeader, current: Option<CurrentBlock>): Bytes {
    var f := WriteAt(file, 0, header.Encoded());
    if current.Some? then WriteAt(f, current.value.position, current.value.bytes) else f
  }

  function StartedIndex(index: seq<IndexEntry>, current: Option<CurrentBlock>): seq<IndexEntry> {
    if current.Some? then index + [IndexEntry(DATA_BLOCK, TYPE_USER_DATA, current.value.position)] else index
  }

  /** The current block lies behind the image header and the reserved table region, where the blocks
      written before it lie too. */
  ghost predicate Startable(file: Bytes, header: ImageHeader, current: Option<CurrentBlock>, layout: Layout) {
    && |header.identity| == 80 && |header.times| == 35
    && (current.Some? ==> IMAGE_HEADER_SIZE <= current.value.position && layout.hi <= current.value.position
                          && |current.value.bytes| > 0)
  }

  lemma StartedKeeps(file: Bytes, header: ImageHeader, current: Option<CurrentBlock>, layout: Layout)
    requires Startable(file, header, current, layout)
    ensures var f := Started(file, header, current);
            && HeaderOnDisk(f, header) && |file| <= |f|
            && (current.Some? ==> Holds(f, current.value.position, current.value.bytes))
            && forall i :: IMAGE_HEADER_SIZE <= i < |file|
                           && (current.Some? ==>
                                 !(current.value.position <= i < current.value.position + |current.value.bytes|)) ==>
                 f[i] == file[i]
  {
    hide WriteAt, ImageHeader.Encoded, HeaderOnDisk, Holds;
    HeaderLength(header);
    HeaderWritten(file, header);
    var f := WriteAt(file, 0, header.Encoded());
    WriteKeeps(file, 0, header.Encoded(), 0, 0);
    if current.Some? {
      WroteHeader(f, header);
      HeaderUntouched(f, current.value.position, current.value.bytes, header);
      Written(f, current.value.position, current.value.bytes);
      WriteKeeps(f, current.value.position, current.value.bytes, current.value.position,
                 current.value.position + |current.value.bytes|);
    }
  }

  lemma WroteHeader(file: Bytes, header: ImageHeader)
    requires HeaderOnDisk(file, header)
    ensures IMAGE_HEADER_SIZE <= |file|
  {
  }

  /** A whole close.  `header` already carries the Zstandard bit when the image needs it.  Room for the
      primary table must have been passed by the end of the file, so that nothing appended lands in it. */
  method CloseImage(layout: Layout, primaryOffset: nat, crc: Crc64, compressor: Compressor, file: Bytes,
                    index: seq<IndexEntry>, header: ImageHeader, dirtyIndex: bool, ddt: DdtHeader, table: array<nat>,
                    current: Option<CurrentBlock>, p: Pending, ghost twoLevel: bool)
    returns (w: ImageWriter, ok: bool, ghost entries: seq<FluxEntry>, ghost placed: seq<Placed>,
             ghost added: seq<IndexEntry>)
    requires Startable(file, header, current, layout) && compressor.Valid()
    requires layout.hi <= Align(|Started(file, header, current)|, layout.shift)
    requires ddt.tableShift > 0 ==> Reserved(layout, primaryOffset, table.Length)
    requires twoLevel ==> ddt.tableShift > 0 && Coherent(table[..], index, layout.shift, |file|)
    requires Closable(p, ddt.tableShift, table[..], layout.shift, twoLevel)
    modifies table
    ensures fresh(w) && w.layout == layout && w.crc == crc && w.compressor == compressor
    ensures w.primaryOffset == primaryOffset
    ensures w.Valid() && (ok <==> CapturesFit(p.captures))
    ensures w.history.base == Started(file, header, current) && w.history.start == StartedIndex(index, current)
    ensures w.history.floor == Align(|w.history.base|, layout.shift) && w.history.twoLevel == twoLevel
    ensures ok ==>
              Closed(w.file, w.index, w.table[..], w.history.log, w.header, ddt, p, entries, placed, added,
                     primaryOffset, crc, compressor, layout.shift)
    ensures ok ==> w.dirtyIndex == (dirtyIndex || current.Some?
                                    || Marks(p, ddt.tableShift, table.Length, StartedIndex(index, current)))
    ensures ok && w.dirtyIndex && |w.index| > 0 ==>
              && IndexOnDisk(w.file, crc, w.index, w.header.indexOffset, layout.shift)
              && |w.history.base| <= w.header.indexOffset
    ensures ok && !w.dirtyIndex ==> w.header.indexOffset == header.indexOffset
    ensures ok ==> OnlyMarked(header, w.header, HasBlake3(p))
    ensures ok ==> UntouchedKept(StartedIndex(index, current), w.index, AllTasks(p))
  {
    hide Closed, Tracked, Compressor.Valid, HeaderOnDisk, WriteAt, Coherent, Align, Closable, Reserved, IndexOnDisk;
    hide Marks, OnlyMarked, UntouchedKept, AllTasks;
    StartedKeeps(file, header, current, layout);
    WroteHeader(Started(file, header, current), header);
    StartedCoherent(file, header, index, current, table[..], layout, twoLevel);
    var f := WriteAt(file, 0, header.Encoded());
    var entriesNow := index;
    var dirty := dirtyIndex;
    if current.Some? {
      entriesNow := index + [IndexEntry(DATA_BLOCK, TYPE_USER_DATA, current.value.position)];
      dirty := true;
      f := WriteAt(f, current.value.position, current.value.bytes);
    }
    w := new ImageWriter(layout, primaryOffset, crc, compressor, f, entriesNow, header, dirty, ddt, table, twoLevel);
    ok, entries, placed, added := FinalizeWrite(w, p);
  }

  lemma StartedCoherent(file: Bytes, header: ImageHeader, index: seq<IndexEntry>, current: Option<CurrentBlock>,
                        table: seq<nat>, layout: Layout, twoLevel: bool)
    requires Startable(file, header, current, layout)
    requires twoLevel ==> Coherent(table, index, layout.shift, |file|)
    ensures twoLevel ==> Coherent(table, StartedIndex(index, current), layout.shift, |Started(file, header, current)|)
  {
    hide Coherent, Started;
    StartedKeeps(file, header, current, layout);
    if twoLevel {
      CoherentGrows(table, index, layout.shift, |file|, |Started(file, header, current)|);
      if current.Some? {
        OtherStepsKeepCoherent(table, index, layout.shift, |Started(file, header, current)|,
                               Add(Kind(DATA_BLOCK, TYPE_USER_DATA), current.value.position));
      }
    }
  }

  /** Nothing that was in the file before the close is lost, but the image header, the reserved table
      region and what lay under the current block. */
  lemma NothingIsLost(file: Bytes, header: ImageHeader, current: Option<CurrentBlock>, layout: Layout,
                      after: Bytes, index: seq<IndexEntry>, table: seq<nat>, h: History, i: nat)
    requires Startable(file, header, current, layout) && h.base == Started(file, header, current)
    requires Tracked(after, index, table, layout, h)
    requires IMAGE_HEADER_SIZE <= i < |file| && !(layout.lo <= i < layout.hi)
    requires !(current.Some? && current.value.position <= i < current.value.position + |current.value.bytes|)
    ensures i < |after| && after[i] == file[i]
  {
    hide Started, Laid, Align, Coherent;
    StartedKeeps(file, header, current, layout);
  }

  /** The data block that was open when the image was closed is on disk. */
  lemma CurrentBlockIsKept(file: Bytes, header: ImageHeader, current: CurrentBlock, layout: Layout,
                           after: Bytes, index: seq<IndexEntry>, table: seq<nat>, h: History)
    requires Startable(file, header, Some(current), layout) && h.base == Started(file, header, Some(current))
    requires Tracked(after, index, table, layout, h)
    ensures Holds(after, current.position, current.bytes)
  {
    hide Started, Laid, Align, Coherent;
    StartedKeeps(file, header, Some(current), layout);
    var a, b := h.base[current.position..current.position + |current.bytes|],
                after[current.position..current.position + |current.bytes|];
    assert forall i :: 0 <= i < |current.bytes| ==> a[i] == b[i];
  }

  /** No two blocks written by the close overlap, none overlaps what was in the file, and each is there. */
  lemma BlocksNeverOverlap(file: Bytes, index: seq<IndexEntry>, table: seq<nat>, layout: Layout, h: History, i: nat,
                           j: nat)
    requires Tracked(file, index, table, layout, h) && i < j < |h.log| && h.floor == Align(|h.base|, layout.shift)
    ensures |h.base| <= h.log[i].offset && h.log[i].offset + |h.log[i].bytes| <= h.log[j].offset
    ensures h.log[i].offset % Pow2(layout.shift) == 0 && h.log[j].offset % Pow2(layout.shift) == 0
    ensures Holds(file, h.log[i].offset, h.log[i].bytes) && Holds(file, h.log[j].offset, h.log[j].bytes)
  {
    hide Pow2, Align, Coherent, Kept;
    AlignAtLeast(|h.base|, layout.shift);
  }

  // ---- What a reader finds ----

  /** The header leads to the index, and the index reads back as it stood when it was written. */
  lemma IndexIsFound(file: Bytes, header: ImageHeader, crc: Crc64, index: seq<IndexEntry>, shift: nat)
    requires HeaderOnDisk(file, header) && header.Valid() && IndexOnDisk(file, crc, index, header.indexOffset, shift)
    requires IndexFits(index) && |index| > 0 && forall i :: 0 <= i < |index| ==> index[i].blockType != INDEX_BLOCK_3
    ensures IMAGE_HEADER_SIZE <= |file|
    ensures var found := DecodeHeader(file[..IMAGE_HEADER_SIZE]).indexOffset;
            found % Pow2(shift) == 0 && IndexAt(file, found) == Some(index) && IndexIntact(file, found, crc)
  {
    hide ImageHeader.Encoded, DecodeHeader, IndexAt, IndexBytes, Pow2, Holds, IndexFits, IndexIntact, ImageHeader.Valid;
    HeaderRoundTrip(header);
    IndexReadsBack(file, header.indexOffset, crc, index);
  }

  /** Whatever is appended afterwards, the parity, the map and the footer of the erasure coding layer for
      instance, leaves header, index and blocks as they are. */
  lemma AppendingKeepsTheImage(file: Bytes, longer: Bytes, header: ImageHeader, crc: Crc64, index: seq<IndexEntry>,
                               log: seq<Placed>, floor: nat, shift: nat)
    requires file <= longer && HeaderOnDisk(file, header) && Laid(file, log, floor, shift)
    requires IndexOnDisk(file, crc, index, header.indexOffset, shift)
    ensures HeaderOnDisk(longer, header) && Laid(longer, log, floor, shift)
    ensures IndexOnDisk(longer, crc, index, header.indexOffset, shift)
  {
    hide HeaderOnDisk, Laid, Kept, IndexBytes, Pow2, Holds;
    PrefixIsKept(file, longer);
    LaidLonger(file, longer, log, floor, shift);
    HoldsInLonger(file, longer, header.indexOffset, IndexBytes(crc, index));
  }

  /** The primary table, as the reader of the deduplication tables loads it. */
  lemma PrimaryReadsBack(file: Bytes, index: seq<IndexEntry>, primaryOffset: nat, ddt: DdtHeader, crc: Crc64,
                         table: seq<nat>, d: Decompressor)
    requires PrimaryDone(file, index, primaryOffset, PrimaryHeader(ddt, crc, table), table)
    requires PrimaryHeader(ddt, crc, table).Valid() && |table| > 0
    ensures LoadTable(file, primaryOffset, {DDT_PRIMARY}, d, crc) == Some(EncodeTable(table))
  {
    hide DdtHeader.Encoded, EncodeTable, DdtHeader.Valid, Holds, LoadTable;
    TableSize(table);
    StoredReadsBack(file, primaryOffset, PrimaryHeader(ddt, crc, table), crc, d, EncodeTable(table), {DDT_PRIMARY});
  }

  lemma TableSize(table: seq<nat>)
    ensures |EncodeTable(table)| == 8 * |table|
  {
  }

  /** A sector looked up through the two tables on disk: the primary entry of its group, shifted left,
      leads to the secondary table that holds its entry. */
  function LookUp(file: Bytes, primaryOffset: nat, tableShift: nat, shift: nat, sector: nat, d: Decompressor,
                  crc: Crc64): Option<nat> {
    hide Pow2, LoadTable, Number;
    var group, slot := ShiftRight(sector, tableShift), LowBits(sector, tableShift);
    var primary := LoadTable(file, primaryOffset, {DDT_PRIMARY}, d, crc);
    if primary.None? || 8 * group + 8 > |primary.value| then None else
      var at := ShiftLeft(Number(primary.value[8 * group..8 * group + 8]), shift);
      var secondary := LoadTable(file, at, {DDT_SECONDARY, DDT_SECONDARY_ALPHA}, d, crc);
      if secondary.None? || 8 * slot + 8 > |secondary.value| then None
      else Some(Number(secondary.value[8 * slot..8 * slot + 8]))
  }

  /** The entry set for a sector in the cached secondary table is the entry a reader finds after the close. */
  lemma LookUpAfterClose(file: Bytes, index: seq<IndexEntry>, table: seq<nat>, log: seq<Placed>, floor: nat,
                         ddt: DdtHeader, s: Secondary, primaryOffset: nat, crc: Crc64, c: Compressor, d: Decompressor,
                         shift: nat, sector: nat)
    requires |s.entries| == Pow2(ddt.tableShift) < 0x2000_0000
    requires SecondaryDone(table, log, s.position, SecondaryBlock(ddt, primaryOffset, crc, c, s), shift)
    requires PrimaryDone(file, index, primaryOffset, PrimaryHeader(ddt, crc, table), table)
    requires Laid(file, log, floor, shift) && c.Valid() && Undoes(d, c, EncodeTable(s.entries))
    requires PrimaryHeader(ddt, crc, table).Valid() && SecondaryFits(ddt, primaryOffset, crc, c, s)
    requires ShiftRight(sector, ddt.tableShift) == s.position
    requires forall i :: 0 <= i < |table| ==> table[i] < 0x1_0000_0000_0000_0000
    requires forall i :: 0 <= i < |s.entries| ==> s.entries[i] < 0x1_0000_0000_0000_0000
    ensures LowBits(sector, ddt.tableShift) < |s.entries|
    ensures LookUp(file, primaryOffset, ddt.tableShift, shift, sector, d, crc)
            == Some(s.entries[LowBits(sector, ddt.tableShift)])
  {
    hide PrimaryDone, Laid, LoadTable, EncodeTable, Number, SecondaryBlock, PrimaryHeader, Pow2, ShiftRight;
    hide DdtHeader.Valid, Undoes;
    hide Compressor.Valid, SecondaryFits, ShiftLeft, LowBits;
    var p := s.position;
    LowBitsFit(sector, ddt.tableShift);
    ShiftLeftIs(table[p], shift);
    PrimaryReadsBack(file, index, primaryOffset, ddt, crc, table, d);
    TableSize(table);
    SlotReadsBack(table, p);
    SecondaryReadsBack(file, log, floor, shift, table[p] * Pow2(shift), ddt, s, primaryOffset, crc, c, d);
    TableSize(s.entries);
    SlotReadsBack(s.entries, LowBits(sector, ddt.tableShift));
  }

  lemma LowBitsFit(n: nat, shift: nat)
    ensures LowBits(n, shift) < Pow2(shift)
  {
  }

  lemma ShiftLeftIs(n: nat, shift: nat)
    ensures ShiftLeft(n, shift) == n * Pow2(shift)
  {
  }

  /** The header of the flushed table fits its fields. */
  ghost predicate SecondaryFits(ddt: DdtHeader, primaryOffset: nat, crc: Crc64, c: Compressor, s: Secondary)
    requires |s.entries| < 0x2000_0000
  {
    TableSize(s.entries);
    DescribedFits(SecondaryHeader(ddt, primaryOffset, s.position), crc, c, EncodeTable(s.entries))
  }

  lemma SecondaryReadsBack(file: Bytes, log: seq<Placed>, floor: nat, shift: nat, at: nat, ddt: DdtHeader, s: Secondary,
                           primaryOffset: nat, crc: Crc64, c: Compressor, d: Decompressor)
    requires 0 < |s.entries| < 0x2000_0000 && SecondaryFits(ddt, primaryOffset, crc, c, s)
    requires Laid(file, log, floor, shift) && Placed(at, SecondaryBlock(ddt, primaryOffset, crc, c, s)) in log
    requires c.Valid() && Undoes(d, c, EncodeTable(s.entries))
    ensures LoadTable(file, at, {DDT_SECONDARY, DDT_SECONDARY_ALPHA}, d, crc) == Some(EncodeTable(s.entries))
  {
    hide TableBlock, LoadTable, EncodeTable, Holds, DescribedFits, Undoes, Compressor.Valid, Pow2;
    TableSize(s.entries);
    var h := SecondaryHeader(ddt, primaryOffset, s.position);
    var m :| 0 <= m < |log| && log[m] == Placed(at, SecondaryBlock(ddt, primaryOffset, crc, c, s));
    TableReadsBack(file, at, h, crc, c, d, EncodeTable(s.entries), {DDT_SECONDARY, DDT_SECONDARY_ALPHA});
  }

  // ---- What the table headers say ----

  function TableHeaderAt(file: Bytes, at: nat): Option<DdtHeader> {
    var b := ReadAt(file, at, DDT_HEADER_SIZE);
    if b.Some? then Some(DecodeDdtHeader(b.value)) else None
  }

  lemma HeaderOfBlock(file: Bytes, at: nat, h: DdtHeader, crc: Crc64, c: Compressor, data: Bytes)
    requires |data| < 0x1_0000_0000 && DescribedFits(h, crc, c, data) && Holds(file, at, TableBlock(h, crc, c, data))
    ensures TableHeaderAt(file, at) == Some(Described(h, crc, PackTable(c, data), data))
  {
    hide Holds, DdtHeader.Encoded, DecodeDdtHeader, DdtHeader.Valid, PackTable;
    var full := Described(h, crc, PackTable(c, data), data);
    HeaderSize(full);
    DdtHeaderRoundTrip(full);
    HoldsSplit(file, at, full.Encoded(), PackTable(c, data).Body());
    HoldsExactly(file, at, full.Encoded(), DDT_HEADER_SIZE);
  }

  /** What every table header says of the contents. */
  ghost predicate Describes(h: DdtHeader, crc: Crc64, data: Bytes, entries: nat) {
    && h.kind == TYPE_USER_DATA && h.length == |data| && h.crc64 == crc(data) && h.entries == entries
    && (h.compression == COMPRESSION_NONE ==> h.cmpLength == h.length && h.cmpCrc64 == h.crc64)
  }

  /** The header of a flushed secondary table: one level below, under the primary table, of the sectors that
      its primary entry stands for. */
  lemma FlushedHeader(file: Bytes, at: nat, ddt: DdtHeader, primaryOffset: nat, crc: Crc64, c: Compressor, s: Secondary)
    requires |s.entries| == Pow2(ddt.tableShift) < 0x2000_0000 && SecondaryFits(ddt, primaryOffset, crc, c, s)
    requires Holds(file, at, SecondaryBlock(ddt, primaryOffset, crc, c, s))
    ensures TableHeaderAt(file, at).Some?
    ensures var h := TableHeaderAt(file, at).value;
            && Describes(h, crc, EncodeTable(s.entries), |s.entries|)
            && h.identifier == DDT_SECONDARY && h.levels == ddt.levels && h.tableLevel == ddt.tableLevel + 1
            && h.previousLevelOffset == primaryOffset && h.tableShift == 0 && h.blocks == |s.entries|
            && h.start == s.position * |s.entries| && h.negative == ddt.negative && h.overflow == ddt.overflow
            && h.blockAlignmentShift == ddt.blockAlignmentShift && h.dataShift == ddt.dataShift
  {
    hide Holds, TableHeaderAt, DdtHeader.Encoded, DescribedFits, Pow2, EncodeTable, TableBlock;
    TableSize(s.entries);
    HeaderOfBlock(file, at, SecondaryHeader(ddt, primaryOffset, s.position), crc, c, EncodeTable(s.entries));
  }

  /** The header of a single-level table. */
  lemma SingleHeaderOnDisk(file: Bytes, at: nat, ddt: DdtHeader, crc: Crc64, c: Compressor, table: seq<nat>)
    requires |table| < 0x2000_0000 && |EncodeTable(table)| < 0x1_0000_0000
    requires DescribedFits(SingleHeader(ddt), crc, c, EncodeTable(table))
    requires Holds(file, at, SingleBlock(ddt, crc, c, table))
    ensures TableHeaderAt(file, at).Some?
    ensures var h := TableHeaderAt(file, at).value;
            && Describes(h, crc, EncodeTable(table), ddt.entries)
            && h.identifier == DDT_PRIMARY && h.levels == 1 && h.tableLevel == 0 && h.previousLevelOffset == 0
            && h.tableShift == ddt.tableShift && h.blocks == ddt.blocks && h.start == ddt.start
            && h.negative == ddt.negative && h.overflow == ddt.overflow
            && h.blockAlignmentShift == ddt.blockAlignmentShift && h.dataShift == ddt.dataShift
  {
    hide Holds, TableHeaderAt, DdtHeader.Encoded, DescribedFits, EncodeTable, TableBlock;
    TableSize(table);
    HeaderOfBlock(file, at, SingleHeader(ddt), crc, c, EncodeTable(table));
  }

  /** The header of a tape's table: one level, as many blocks as slots, nothing before or behind them. */
  lemma TapeHeaderOnDisk(file: Bytes, at: nat, ddt: DdtHeader, crc: Crc64, c: Compressor, table: seq<nat>)
    requires |table| < 0x2000_0000 && |EncodeTable(table)| < 0x1_0000_0000
    requires DescribedFits(SingleHeader(TapeHeader(ddt, |table|)), crc, c, EncodeTable(table))
    requires Holds(file, at, SingleBlock(TapeHeader(ddt, |table|), crc, c, table))
    ensures TableHeaderAt(file, at).Some?
    ensures var h := TableHeaderAt(file, at).value;
            && Describes(h, crc, EncodeTable(table), |table|)
            && h.identifier == DDT_PRIMARY && h.levels == 1 && h.tableLevel == 0 && h.tableShift == 0
            && h.blocks == |table| && h.start == 0 && h.negative == 0 && h.overflow == 0
            && h.blockAlignmentShift == ddt.blockAlignmentShift && h.dataShift == ddt.dataShift
  {
    hide Holds, TableHeaderAt, DescribedFits, EncodeTable, SingleBlock;
    SingleHeaderOnDisk(file, at, TapeHeader(ddt, |table|), crc, c, table);
  }

  /** The header of the primary table of a two-level image. */
  lemma PrimaryHeaderOnDisk(file: Bytes, index: seq<IndexEntry>, primaryOffset: nat, ddt: DdtHeader, crc: Crc64,
                            table: seq<nat>)
    requires PrimaryDone(file, index, primaryOffset, PrimaryHeader(ddt, crc, table), table)
    requires PrimaryHeader(ddt, crc, table).Valid()
    ensures TableHeaderAt(file, primaryOffset).Some?
    ensures var h := TableHeaderAt(file, primaryOffset).value;
            && Describes(h, crc, EncodeTable(table), ddt.entries) && h.compression == COMPRESSION_NONE
            && h.identifier == DDT_PRIMARY && h.levels == ddt.levels && h.tableLevel == ddt.tableLevel
            && h.tableShift == ddt.tableShift && h.blocks == ddt.blocks && h.start == ddt.start
            && h.negative == ddt.negative && h.overflow == ddt.overflow
            && h.blockAlignmentShift == ddt.blockAlignmentShift && h.dataShift == ddt.dataShift
  {
    hide Holds, DecodeDdtHeader, DdtHeader.Encoded, DdtHeader.Valid, EncodeTable, OfKind;
    var h := PrimaryHeader(ddt, crc, table);
    TableSize(table);
    HeaderSize(h);
    DdtHeaderRoundTrip(h);
    HoldsSplit(file, primaryOffset, h.Encoded(), EncodeTable(table));
    HoldsExactly(file, primaryOffset, h.Encoded(), DDT_HEADER_SIZE);
  }

  // ---- Tables of one level ----

  /** A slot looked up in a table of one level, or of a tape. */
  function SingleLookUp(file: Bytes, at: nat, slot: nat, d: Decompressor, crc: Crc64): Option<nat> {
    hide LoadTable, Number;
    var table := LoadTable(file, at, {DDT_PRIMARY}, d, crc);
    if table.None? || 8 * slot + 8 > |table.value| then None
    else Some(Number(table.value[8 * slot..8 * slot + 8]))
  }

  /** After the close the index has one primary table, and every slot looked up in it is the one in memory. */
  lemma SingleLookUpAfterClose(file: Bytes, index: seq<IndexEntry>, log: seq<Placed>, floor: nat, shift: nat,
                               ddt: DdtHeader, crc: Crc64, c: Compressor, d: Decompressor, table: seq<nat>, slot: nat)
    returns (at: nat)
    requires 0 < |table| < 0x2000_0000 && Settled(index, log, TableJob(SingleBlock(ddt, crc, c, table)))
    requires Laid(file, log, floor, shift) && c.Valid() && Undoes(d, c, EncodeTable(table))
    requires |EncodeTable(table)| < 0x1_0000_0000 && DescribedFits(SingleHeader(ddt), crc, c, EncodeTable(table))
    requires slot < |table| && forall i :: 0 <= i < |table| ==> table[i] < 0x1_0000_0000_0000_0000
    ensures OfKind(index, PrimaryKind()) == [EntryAt(PrimaryKind(), at)]
    ensures SingleLookUp(file, at, slot, d, crc) == Some(table[slot])
  {
    hide Compressor.Valid, EncodeTable, Pow2, Holds, TableBlock, DescribedFits, OfKind, LoadTable, Undoes, Number;
    TableSize(table);
    var m :| 0 <= m < |log| && log[m].bytes == TableJob(SingleBlock(ddt, crc, c, table)).Contents()
             && OfKind(index, PrimaryKind()) == [EntryAt(PrimaryKind(), log[m].offset)];
    at := log[m].offset;
    assert SingleBlock(ddt, crc, c, table) + [] == SingleBlock(ddt, crc, c, table);
    assert Holds(file, at, log[m].bytes);
    TableReadsBack(file, at, SingleHeader(ddt), crc, c, d, EncodeTable(table), {DDT_PRIMARY});
    SlotReadsBack(table, slot);
  }

  // ---- When the reserved region is in the way ----

  /** A secondary table appended to the file and the primary table rewritten after it stay clear of each
      other exactly when the aligned end of the file lies behind the reserved region. */
  lemma FlushNeedsRoom(file: Bytes, layout: Layout, primaryOffset: nat, entries: nat, block: Bytes)
    requires Reserved(layout, primaryOffset, entries) && entries > 0 && |block| > DDT_HEADER_SIZE
    requires IMAGE_HEADER_SIZE <= |file| && primaryOffset == Align(IMAGE_HEADER_SIZE, layout.shift)
    ensures var position := Align(|file|, layout.shift);
            var patch := primaryOffset + DDT_HEADER_SIZE;
            (position + |block| <= patch || patch + 8 * entries <= position) <==> layout.hi <= position
  {
    hide Pow2, Align;
    AlignIsMonotone(IMAGE_HEADER_SIZE, |file|, layout.shift);
  }

  /** What a close makes of the file when the cached table and the primary one are pending: the cached table
      at the aligned end, the primary table behind its header, then the header with the table. */
  function TablesWritten(file: Bytes, shift: nat, primaryOffset: nat, ddt: DdtHeader, s: Secondary, crc: Crc64,
                         c: Compressor, table: seq<nat>): Bytes
    requires s.position < |table| && |s.entries| < 0x2000_0000
  {
    var position := Align(|file|, shift);
    var pointed := Pointed(table, s.position, position, shift);
    var one := WriteAt(file, position, SecondaryBlock(ddt, primaryOffset, crc, c, s));
    var two := WriteAt(one, primaryOffset + DDT_HEADER_SIZE, EncodeTable(pointed));
    WriteAt(two, primaryOffset, PrimaryHeader(ddt, crc, pointed).Encoded() + EncodeTable(pointed))
  }

  /** A new two-level image into which no block was written, only sectors that are generated when they are
      read: the file ends with its header, so the cached table is put where the primary one goes and is
      overwritten by it.  From then on, whatever is appended, none of its sectors can be looked up. */
  lemma TableWithoutRoomIsLost(file: Bytes, layout: Layout, primaryOffset: nat, ddt: DdtHeader, s: Secondary,
                               crc: Crc64, c: Compressor, table: seq<nat>, d: Decompressor, sector: nat, after: Bytes)
    requires |file| == IMAGE_HEADER_SIZE && primaryOffset == Align(IMAGE_HEADER_SIZE, layout.shift)
    requires Reserved(layout, primaryOffset, |table|) && s.position < |table| && |s.entries| < 0x2000_0000
    requires PrimaryHeader(ddt, crc, Pointed(table, s.position, primaryOffset, layout.shift)).Valid()
    requires (forall i :: 0 <= i < |table| ==> table[i] < 0x1_0000_0000_0000_0000)
    requires primaryOffset < 0x1_0000_0000_0000_0000 && ShiftRight(sector, ddt.tableShift) == s.position
    requires Kept(TablesWritten(file, layout.shift, primaryOffset, ddt, s, crc, c, table), after, 0, IMAGE_HEADER_SIZE)
    ensures Align(|file|, layout.shift) < layout.hi
    ensures LookUp(after, primaryOffset, ddt.tableShift, layout.shift, sector, d, crc) == None
  {
    hide Pow2, Align, WriteAt, SecondaryBlock, EncodeTable, LoadTable, Number, ShiftLeft, LowBits, PrimaryHeader;
    hide DdtHeader.Encoded, DdtHeader.Valid, ShiftRight, Holds;
    var pointed := Pointed(table, s.position, primaryOffset, layout.shift);
    var header := PrimaryHeader(ddt, crc, pointed);
    PrimaryIsLast(file, layout.shift, primaryOffset, ddt, s, crc, c, table, after);
    PrimaryFields(ddt, crc, pointed);
    TableSize(pointed);
    StoredReadsBack(after, primaryOffset, header, crc, d, EncodeTable(pointed), {DDT_PRIMARY});
    AlignAtLeast(IMAGE_HEADER_SIZE, layout.shift);
    ShiftIsExact(primaryOffset, layout.shift);
    ShiftIsLess(primaryOffset, layout.shift);
    SlotReadsBack(pointed, s.position);
    ShiftLeftIs(pointed[s.position], layout.shift);
    PrimaryIsNoSecondary(after, primaryOffset, header, EncodeTable(pointed), d, crc);
  }

  lemma PrimaryIsLast(file: Bytes, shift: nat, primaryOffset: nat, ddt: DdtHeader, s: Secondary, crc: Crc64,
                      c: Compressor, table: seq<nat>, after: Bytes)
    requires |file| == IMAGE_HEADER_SIZE && primaryOffset == Align(IMAGE_HEADER_SIZE, shift)
    requires s.position < |table| && |s.entries| < 0x2000_0000
    requires Kept(TablesWritten(file, shift, primaryOffset, ddt, s, crc, c, table), after, 0, IMAGE_HEADER_SIZE)
    ensures var pointed := Pointed(table, s.position, primaryOffset, shift);
            Holds(after, primaryOffset, PrimaryHeader(ddt, crc, pointed).Encoded() + EncodeTable(pointed))
  {
    hide Pow2, Align, WriteAt, SecondaryBlock, EncodeTable, PrimaryHeader, DdtHeader.Encoded, ShiftRight;
    AlignAtLeast(IMAGE_HEADER_SIZE, shift);
    var pointed := Pointed(table, s.position, primaryOffset, shift);
    var bytes := PrimaryHeader(ddt, crc, pointed).Encoded() + EncodeTable(pointed);
    HeaderSize(PrimaryHeader(ddt, crc, pointed));
    var one := WriteAt(file, primaryOffset, SecondaryBlock(ddt, primaryOffset, crc, c, s));
    var two := WriteAt(one, primaryOffset + DDT_HEADER_SIZE, EncodeTable(pointed));
    var written := WriteAt(two, primaryOffset, bytes);
    Written(two, primaryOffset, bytes);
    forall i | 0 <= i < |bytes|
      ensures after[primaryOffset..primaryOffset + |bytes|][i] == bytes[i]
    {
      assert written[primaryOffset..primaryOffset + |bytes|][i] == bytes[i];
    }
  }

  lemma PrimaryFields(ddt: DdtHeader, crc: Crc64, table: seq<nat>)
    ensures var h := PrimaryHeader(ddt, crc, table);
            && h.identifier == DDT_PRIMARY && h.kind == TYPE_USER_DATA && h.compression == COMPRESSION_NONE
            && h.length == 8 * |table| && h.crc64 == crc(EncodeTable(table))
  {
  }

  lemma ShiftIsLess(n: nat, shift: nat)
    ensures ShiftRight(n, shift) <= n
  {
    hide Pow2;
    TimesAtLeast(ShiftRight(n, shift), Pow2(shift));
  }

  /** A primary table is not taken for a secondary one. */
  lemma PrimaryIsNoSecondary(file: Bytes, at: nat, h: DdtHeader, data: Bytes, d: Decompressor, crc: Crc64)
    requires Holds(file, at, h.Encoded() + data) && h.Valid() && h.identifier == DDT_PRIMARY
    ensures LoadTable(file, at, {DDT_SECONDARY, DDT_SECONDARY_ALPHA}, d, crc) == None
  {
    hide Holds, DdtHeader.Encoded, DecodeDdtHeader, DdtHeader.Valid, ReadBody;
    HeaderSize(h);
    DdtHeaderRoundTrip(h);
    HoldsSplit(file, at, h.Encoded(), data);
    HoldsExactly(file, at, h.Encoded(), DDT_HEADER_SIZE);
  }
}
