/** The closing writer (src/close_write.c): it appends the pending blocks at the aligned end of the
    file, keeps the index in step, patches the primary table in place, and ends with the index block
    and the header that points at it.
 */
module CloseWrite {
  import opened Wrappers
  import opened Octet
  import opened ImageFile
  import opened FileRegions
  import opened BlockIndex
  import opened IndexBlock
  import opened DdtTable
  import opened CloseTracking

  const FLUX_BLOCK: nat := 0x58554C46
  const STREAM_BLOCK: nat := 0x4C505344
  const TYPE_FLUX: nat := 89
  const FLUX_ENTRY_LAYOUT: seq<nat> := [4, 2, 1, 4, 8, 8, 8, 8]
  const FLUX_HEADER_LAYOUT: seq<nat> := [4, 2, 1, 8]
  const PAYLOAD_HEADER_LAYOUT: seq<nat> := [4, 2, 2, 4, 4, 8, 8]

  /** A block of a kind that exists once: its header, and its payload when that is written by a call of
      its own, which reports success only if the payload is not empty. */
  datatype Job = Job(kind: Kind, head: Bytes, payload: Option<Bytes>)
  {
    function Contents(): (b: Bytes)
      ensures |b| == |head| + if payload.Some? then |payload.value| else 0
      ensures head <= b && (payload.Some? ==> b[|head|..] == payload.value)
    {
      head + if payload.Some? then payload.value else []
    }

    /** Only a payload that is written, and empty, leaves the block out of the index. */
    predicate Indexed()
      ensures Indexed() <==> payload != Some([])
    {
      payload.Some? ==> |payload.value| > 0
    }

    ghost predicate Valid() {
      |head| > 0 && kind.blockType != DDT_SECONDARY && kind.blockType != DDT_SECONDARY_ALPHA
    }
  }

  /** The cached secondary table: the primary entry it belongs to, where it was loaded from (zero when
      it is new), and its entries. */
  datatype Secondary = Secondary(position: nat, cached: nat, entries: seq<nat>)

  datatype Capture = Capture(head: nat, track: nat, subtrack: nat, captureIndex: nat,
                             indexResolution: nat, dataResolution: nat, data: Bytes, index: Bytes)

  datatype FluxEntry = FluxEntry(head: nat, track: nat, subtrack: nat, captureIndex: nat,
                                 indexResolution: nat, dataResolution: nat, indexOffset: nat, payloadOffset: nat)

  /** The header of the secondary table of a two-level image. */
  function SecondaryHeader(ddt: DdtHeader, primaryOffset: nat, position: nat): DdtHeader {
    var items := Pow2(ddt.tableShift);
    ddt.(identifier := DDT_SECONDARY, kind := TYPE_USER_DATA, tableLevel := ddt.tableLevel + 1,
         previousLevelOffset := primaryOffset, tableShift := 0, blocks := items, entries := items,
         start := position * items)
  }

  /** The cached table as it goes to disk. */
  function SecondaryBlock(ddt: DdtHeader, primaryOffset: nat, crc: Crc64, c: Compressor, s: Secondary): (b: Bytes)
    requires |s.entries| < 0x2000_0000
    ensures |b| >= DDT_HEADER_SIZE
  {
    hide PackTable;
    TableBlockSize(SecondaryHeader(ddt, primaryOffset, s.position), crc, c, EncodeTable(s.entries));
    TableBlock(SecondaryHeader(ddt, primaryOffset, s.position), crc, c, EncodeTable(s.entries))
  }

  /** A single-level table as it goes to disk. */
  function SingleBlock(ddt: DdtHeader, crc: Crc64, c: Compressor, table: seq<nat>): (b: Bytes)
    requires |table| < 0x2000_0000
    ensures |b| >= DDT_HEADER_SIZE
  {
    hide PackTable;
    TableBlockSize(SingleHeader(ddt), crc, c, EncodeTable(table));
    TableBlock(SingleHeader(ddt), crc, c, EncodeTable(table))
  }

  /** The header that the single-level writer leaves in the context. */
  function SingleHeaderAfter(ddt: DdtHeader, crc: Crc64, c: Compressor, table: seq<nat>): DdtHeader
    requires |table| < 0x2000_0000
  {
    Described(SingleHeader(ddt), crc, PackTable(c, EncodeTable(table)), EncodeTable(table))
  }

  /** The primary table with the entry of a flushed table set. */
  function Pointed(table: seq<nat>, p: nat, offset: nat, shift: nat): seq<nat>
    requires p < |table|
  {
    table[p := ShiftRight(offset, shift)]
  }

  /** What the source asks of a flush: the cached table is whole and belongs to an entry of the primary
      table, and it was loaded from where that entry points, or it is new. */
  ghost predicate MayFlush(s: Secondary, tableShift: nat, table: seq<nat>, shift: nat, twoLevel: bool) {
    && s.position < |table| && 0 < |s.entries| == Pow2(tableShift) && |s.entries| < 0x2000_0000
    && (twoLevel ==> s.cached == 0 || s.cached == table[s.position] * Pow2(shift))
  }

  /** The state after a flush: the block at the aligned end of the file, its primary entry set to exactly
      that position, the index entry moved, and the primary table rewritten in place. */
  ghost predicate FlushedTo(file: Bytes, index: seq<IndexEntry>, table: seq<nat>, h: History,
                            file': Bytes, index': seq<IndexEntry>, table': seq<nat>, h': History,
                            shift: nat, primaryOffset: nat, s: Secondary, block: Bytes) {
    var position := Align(|file|, shift);
    && s.position < |table| && table' == Pointed(table, s.position, position, shift)
    && table'[s.position] * Pow2(shift) == position
    && file' == WriteAt(WriteAt(file, position, block), primaryOffset + DDT_HEADER_SIZE, EncodeTable(table'))
    && index' == Apply(index, Supersede(s.cached, position))
    && h' == AfterFlush(h, position, block, s.cached)
  }

  /** Take the superseded table out of the index, if there was one, and add the new one. */
  method MoveTable(index: seq<IndexEntry>, cached: nat, position: nat) returns (r: seq<IndexEntry>)
    ensures r == Apply(index, Supersede(cached, position))
  {
    hide WithoutTable;
    r := index;
    if cached != 0 {
      r := EraseTable(index, cached);
    }
    r := r + [EntryAt(Kind(DDT_SECONDARY, TYPE_USER_DATA), position)];
  }

  lemma TableFitsReserved(l: Layout, primaryOffset: nat, table: seq<nat>)
    requires Reserved(l, primaryOffset, |table|)
    ensures l.lo <= primaryOffset && primaryOffset + DDT_HEADER_SIZE + |EncodeTable(table)| <= l.hi
  {
  }

  function AfterFlush(h: History, position: nat, block: Bytes, cached: nat): History {
    h.(log := h.log + [Placed(position, block)], steps := h.steps + [Supersede(cached, position)])
  }

  function PrimaryKind(): Kind {
    Kind(DDT_PRIMARY, TYPE_USER_DATA)
  }

  /** `write_tape_ddt`: the sparse table of a tape as a dense one; slots without an entry stay zero. */
  method BuildTapeTable(tape: map<nat, nat>) returns (table: array<nat>)
    ensures fresh(table) && table.Length > 0
    ensures forall k :: k in tape ==> k < table.Length && table[k] == tape[k]
    ensures forall k :: 0 <= k < table.Length && k !in tape ==> table[k] == 0
    ensures table.Length == 1 || table.Length - 1 in tape
  {
    var maxKey := 0;
    var left := tape.Keys;
    while left != {}
      invariant left <= tape.Keys
      invariant forall k :: k in tape && k !in left ==> k <= maxKey
      invariant maxKey == 0 || maxKey in tape
      decreases left
    {
      var key :| key in left;
      if key > maxKey {
        maxKey := key;
      }
      left := left - {key};
    }
    table := new nat[maxKey + 1](_ => 0);
    left := tape.Keys;
    while left != {}
      invariant left <= tape.Keys
      invariant forall k :: k in tape && k !in left ==> table[k] == tape[k]
      invariant forall k :: 0 <= k < table.Length && (k !in tape || k in left) ==> table[k] == 0
      decreases left
    {
      var key :| key in left;
      table[key] := tape[key];
      left := left - {key};
    }
  }

  // ---- Flux captures ----

  /** The payload block of a capture: its data and index buffers, compressed when that helps. */
  function CaptureBlock(crc: Crc64, c: Compressor, raw: Bytes): Bytes
    requires |raw| < 0x1_0000_0000
  {
    var p := PackTable(c, raw);
    Pack(PAYLOAD_HEADER_LAYOUT, PayloadFields(crc, p, raw)) + p.properties + p.payload
  }

  /** The checksum of a flux buffer: zero for an empty one. */
  function SumOf(crc: Crc64, b: Bytes): nat {
    if b == [] then 0 else crc(b)
  }

  /** The header of a capture: what it is, how it is compressed, and the two lengths and checksums. */
  function PayloadFields(crc: Crc64, p: Packed, raw: Bytes): (f: seq<nat>)
    ensures |f| == |PAYLOAD_HEADER_LAYOUT|
  {
    [STREAM_BLOCK, TYPE_FLUX, p.compression, p.CmpLength(), |raw|, SumOf(crc, p.properties + p.payload),
     SumOf(crc, raw)]
  }

  lemma CaptureBlockSize(crc: Crc64, c: Compressor, raw: Bytes)
    requires |raw| < 0x1_0000_0000
    ensures |CaptureBlock(crc, c, raw)| >= 4
  {
    hide PackTable, LittleEndian;
    WidthCons(4, [2, 2, 4, 4, 8, 8]);
    assert [4] + [2, 2, 4, 4, 8, 8] == [4, 2, 2, 4, 4, 8, 8];
  }

  function EntryOf(c: Capture, payloadOffset: nat): FluxEntry {
    FluxEntry(c.head, c.track, c.subtrack, c.captureIndex, c.indexResolution, c.dataResolution, |c.data|, payloadOffset)
  }

  function FluxFields(e: FluxEntry): (f: seq<nat>)
    ensures |f| == |FLUX_ENTRY_LAYOUT|
  {
    [e.head, e.track, e.subtrack, e.captureIndex, e.indexResolution, e.dataResolution, e.indexOffset, e.payloadOffset]
  }

  function EncodeFluxEntry(e: FluxEntry): Bytes {
    Pack(FLUX_ENTRY_LAYOUT, FluxFields(e))
  }

  function EncodeFluxEntries(entries: seq<FluxEntry>): Bytes {
    if |entries| == 0 then [] else EncodeFluxEntries(entries[..|entries| - 1]) + EncodeFluxEntry(entries[|entries| - 1])
  }

  function FluxHeader(crc: Crc64, shift: nat, entries: seq<FluxEntry>): (b: Bytes)
    ensures |b| >= 4
  {
    WidthCons(4, [2, 1, 8]);
    assert [4] + [2, 1, 8] == [4, 2, 1, 8];
    Pack(FLUX_HEADER_LAYOUT, [FLUX_BLOCK, |entries|, shift, crc(EncodeFluxEntries(entries))])
  }

  function FluxMetadata(crc: Crc64, shift: nat, entries: seq<FluxEntry>): Bytes {
    FluxHeader(crc, shift, entries) + EncodeFluxEntries(entries)
  }

  lemma FluxMetadataSize(crc: Crc64, shift: nat, entries: seq<FluxEntry>)
    ensures |FluxMetadata(crc, shift, entries)| > 0
  {
  }

  /** Each capture written so far has its entry, its payload block and its index entry, and the entry,
      shifted left, is exactly where the block is. */
  ghost predicate CapturesPlaced(captures: seq<Capture>, entries: seq<FluxEntry>, placed: seq<Placed>,
                                 added: seq<IndexEntry>,
                                 crc: Crc64, c: Compressor, shift: nat) {
    && |captures| == |entries| == |placed| == |added|
    && forall i :: 0 <= i < |captures| ==>
         && |captures[i].data + captures[i].index| < 0x1_0000_0000
         && placed[i].bytes == CaptureBlock(crc, c, captures[i].data + captures[i].index)
         && entries[i] == EntryOf(captures[i], entries[i].payloadOffset)
         && entries[i].payloadOffset * Pow2(shift) == placed[i].offset
         && added[i] == IndexEntry(STREAM_BLOCK, TYPE_FLUX, placed[i].offset)
  }

  lemma CapturesPush(captures: seq<Capture>, n: nat, entries: seq<FluxEntry>, placed: seq<Placed>,
                     added: seq<IndexEntry>, crc: Crc64, c: Compressor, shift: nat, position: nat)
    requires n < |captures| && CapturesPlaced(captures[..n], entries, placed, added, crc, c, shift)
    requires position % Pow2(shift) == 0 && 0 < position
    requires |captures[n].data + captures[n].index| < 0x1_0000_0000
    ensures CapturesPlaced(captures[..n + 1], entries + [EntryOf(captures[n], ShiftRight(position, shift))],
                           placed + [Placed(position, CaptureBlock(crc, c, captures[n].data + captures[n].index))],
                           added + [IndexEntry(STREAM_BLOCK, TYPE_FLUX, position)], crc, c, shift)
  {
    hide Pow2, ShiftRight, CaptureBlock;
    ShiftIsExact(position, shift);
    assert captures[..n + 1] == captures[..n] + [captures[n]];
  }

  lemma NoCaptures(captures: seq<Capture>, crc: Crc64, c: Compressor, shift: nat)
    ensures CapturesPlaced(captures[..0], [], [], [], crc, c, shift)
  {
  }

  /** The index entries of flux blocks, as steps. */
  function Adds(added: seq<IndexEntry>): seq<Step> {
    seq(|added|, i requires 0 <= i < |added| => Add(KindOf(added[i]), added[i].offset))
  }

  class ImageWriter {
    const layout: Layout
    const primaryOffset: nat
    const crc: Crc64
    const compressor: Compressor
    var file: Bytes
    var index: seq<IndexEntry>
    var header: ImageHeader
    var dirtyIndex: bool
    var ddt: DdtHeader
    var table: array<nat>            // user_data_ddt2
    ghost var history: History

    ghost predicate Valid()
      reads this, table
    {
      && Tracked(file, index, table[..], layout, history)
      && compressor.Valid()
      && (ddt.tableShift > 0 ==> Reserved(layout, primaryOffset, table.Length))
      && (history.twoLevel ==> ddt.tableShift > 0)
      && |header.identity| == 80 && |header.times| == 35
    }

    /** The writer as it is once the image header and the current block have been written. */
    constructor (layout: Layout, primaryOffset: nat, crc: Crc64, compressor: Compressor, file: Bytes,
                 index: seq<IndexEntry>, header: ImageHeader, dirtyIndex: bool, ddt: DdtHeader, table: array<nat>,
                 ghost twoLevel: bool)
      requires IMAGE_HEADER_SIZE <= |file| && layout.hi <= Align(|file|, layout.shift) && compressor.Valid()
      requires ddt.tableShift > 0 ==> Reserved(layout, primaryOffset, table.Length)
      requires twoLevel ==> ddt.tableShift > 0 && Coherent(table[..], index, layout.shift, |file|)
      requires |header.identity| == 80 && |header.times| == 35
      ensures Valid() && history == History(file, index, Align(|file|, layout.shift), [], [], twoLevel)
      ensures this.layout == layout && this.primaryOffset == primaryOffset && this.crc == crc
      ensures this.compressor == compressor
      ensures this.file == file && this.index == index && this.header == header && this.dirtyIndex == dirtyIndex
      ensures this.ddt == ddt && this.table == table
    {
      hide Align, Coherent;
      TrackedStart(file, index, table[..], layout, twoLevel);
      this.layout := layout;
      this.primaryOffset := primaryOffset;
      this.crc := crc;
      this.compressor := compressor;
      this.file := file;
      this.index := index;
      this.header := header;
      this.dirtyIndex := dirtyIndex;
      this.ddt := ddt;
      this.table := table;
      this.history := History(file, index, Align(|file|, layout.shift), [], [], twoLevel);
    }

    /** The step shared by every block writer: align to the end of the file and append. */
    method Place(bytes: Bytes) returns (position: nat)
      requires Valid() && |bytes| > 0
      modifies this`file, this`history
      ensures Valid() && position == Align(|old(file)|, layout.shift)
      ensures file == WriteAt(old(file), position, bytes)
      ensures history == old(history).(log := old(history).log + [Placed(position, bytes)])
    {
      hide Tracked, Align, WriteAt, Compressor.Valid;
      TrackedPlace(file, index, table[..], layout, history, bytes);
      position := Align(|file|, layout.shift);
      file := WriteAt(file, position, bytes);
      history := history.(log := history.log + [Placed(position, bytes)]);
    }

    /** Drop the entries of a kind and add the new one. */
    method Reindex(kind: Kind, position: nat)
      requires Valid() && kind.blockType != DDT_SECONDARY && kind.blockType != DDT_SECONDARY_ALPHA
      modifies this`index, this`dirtyIndex, this`history
      ensures Valid() && dirtyIndex && index == Replaced(old(index), kind, position)
      ensures history == old(history).(steps := old(history).steps + [Replace(kind, position)])
    {
      hide Tracked, Compressor.Valid, WithoutKind;
      TrackedStep(file, index, table[..], layout, history, Replace(kind, position));
      var kept, erased := EraseKind(index, kind);
      index := kept + [EntryAt(kind, position)];
      dirtyIndex := true;
      history := history.(steps := history.steps + [Replace(kind, position)]);
    }

    /** Add an entry and leave the others alone; the caller's dirty flag is not touched. */
    method AddEntry(kind: Kind, position: nat)
      requires Valid() && kind.blockType != DDT_SECONDARY && kind.blockType != DDT_SECONDARY_ALPHA
      modifies this`index, this`history
      ensures Valid() && index == old(index) + [EntryAt(kind, position)]
      ensures history == old(history).(steps := old(history).steps + [Add(kind, position)])
    {
      hide Tracked, Compressor.Valid;
      TrackedStep(file, index, table[..], layout, history, Add(kind, position));
      index := index + [EntryAt(kind, position)];
      history := history.(steps := history.steps + [Add(kind, position)]);
    }

    /** A block of a kind that exists once. */
    method WriteJob(job: Job)
      requires Valid() && job.Valid()
      modifies this`file, this`index, this`dirtyIndex, this`history
      ensures Valid()
      ensures var position := Align(|old(file)|, layout.shift);
              && file == WriteAt(old(file), position, job.Contents())
              && index == (if job.Indexed() then Replaced(old(index), job.kind, position) else old(index))
              && dirtyIndex == (old(dirtyIndex) || job.Indexed())
              && history == old(history).(log := old(history).log + [Placed(position, job.Contents())],
                   steps := old(history).steps + if job.Indexed() then [Replace(job.kind, position)] else [])
    {
      hide Tracked, Align, WriteAt, Compressor.Valid, WithoutKind, Reserved;
      var position := Place(job.Contents());
      if job.Indexed() {
        Reindex(job.kind, position);
      }
    }

    /** A block that was cleared only loses its entries. */
    method ClearKind(kind: Kind)
      requires Valid() && kind.blockType != DDT_SECONDARY && kind.blockType != DDT_SECONDARY_ALPHA
      modifies this`index, this`dirtyIndex, this`history
      ensures Valid() && index == WithoutKind(old(index), kind)
      ensures dirtyIndex == (old(dirtyIndex) || index != old(index))
      ensures history == old(history).(steps := old(history).steps + [Erase(kind)])
    {
      hide Tracked, Compressor.Valid, WithoutKind;
      TrackedStep(file, index, table[..], layout, history, Erase(kind));
      var kept, erased := EraseKind(index, kind);
      index := kept;
      dirtyIndex := dirtyIndex || erased;
      history := history.(steps := history.steps + [Erase(kind)]);
    }

    /** `write_cached_secondary_ddt`: append the cached table, point its primary entry at it, replace its
        index entry, and rewrite the primary table in place. */
    method FlushSecondary(s: Secondary)
      requires Valid() && ddt.tableShift > 0 && MayFlush(s, ddt.tableShift, table[..], layout.shift, history.twoLevel)
      modifies this`file, this`index, this`dirtyIndex, this`history, table
      ensures Valid() && dirtyIndex
      ensures FlushedTo(old(file), old(index), old(table[..]), old(history), file, index, table[..], history,
                        layout.shift, primaryOffset, s, SecondaryBlock(ddt, primaryOffset, crc, compressor, s))
    {
      hide Tracked, Align, WriteAt, Pow2, Compressor.Valid, EncodeTable, Apply, SecondaryBlock, ShiftRight, Reserved;
      SecondarySize(ddt, primaryOffset, crc, compressor, s);
      var block := SecondaryBlock(ddt, primaryOffset, crc, compressor, s);
      TrackedFlush(file, index, table[..], layout, history, block, s.position, s.cached);
      var position := Align(|file|, layout.shift);
      file := WriteAt(file, position, block);
      table[s.position] := ShiftRight(position, layout.shift);
      assert table[..] == old(table[..])[s.position := ShiftRight(position, layout.shift)];
      index := MoveTable(index, s.cached, position);
      dirtyIndex := true;
      history := AfterFlush(history, position, block, s.cached);
      PatchTable();
    }

    /** Rewrite the primary table behind its header. */
    method PatchTable()
      requires Valid() && ddt.tableShift > 0
      modifies this`file
      ensures Valid() && file == WriteAt(old(file), primaryOffset + DDT_HEADER_SIZE, EncodeTable(table[..]))
    {
      hide Tracked, Align, WriteAt, Compressor.Valid, EncodeTable, Reserved;
      TableFitsReserved(layout, primaryOffset, table[..]);
      TrackedPatch(file, index, table[..], layout, history, primaryOffset + DDT_HEADER_SIZE, EncodeTable(table[..]));
      file := WriteAt(file, primaryOffset + DDT_HEADER_SIZE, EncodeTable(table[..]));
    }

    /** `write_primary_ddt`: rewrite the header and the primary table in their reserved place. */
    method WritePrimary()
      requires Valid() && ddt.tableShift > 0
      modifies this`file, this`index, this`dirtyIndex, this`ddt, this`history
      ensures Valid() && dirtyIndex && ddt.tableShift == old(ddt.tableShift)
      ensures ddt == PrimaryHeader(old(ddt), crc, table[..])
      ensures file == WriteAt(old(file), primaryOffset, ddt.Encoded() + EncodeTable(table[..]))
      ensures index == Replaced(old(index), PrimaryKind(), primaryOffset)
      ensures history == old(history).(steps := old(history).steps + [Replace(PrimaryKind(), primaryOffset)])
    {
      hide Tracked, Align, WriteAt, Compressor.Valid, WithoutKind, DdtHeader.Encoded, EncodeTable, Reserved;
      TableFitsReserved(layout, primaryOffset, table[..]);
      ddt := PrimaryHeader(ddt, crc, table[..]);
      HeaderSize(ddt);
      TrackedPatch(file, index, table[..], layout, history, primaryOffset, ddt.Encoded() + EncodeTable(table[..]));
      file := WriteAt(file, primaryOffset, ddt.Encoded() + EncodeTable(table[..]));
      Reindex(PrimaryKind(), primaryOffset);
    }

    /** `write_single_level_ddt`: append the whole table. */
    method WriteSingleLevel()
      requires Valid() && ddt.tableShift == 0 && 0 < table.Length < 0x2000_0000
      modifies this`file, this`index, this`dirtyIndex, this`ddt, this`history
      ensures Valid() && dirtyIndex && ddt == SingleHeaderAfter(old(ddt), crc, compressor, table[..])
      ensures var position := Align(|old(file)|, layout.shift);
              var block := SingleBlock(old(ddt), crc, compressor, table[..]);
              && file == WriteAt(old(file), position, block)
              && index == Replaced(old(index), PrimaryKind(), position)
              && history == old(history).(log := old(history).log + [Placed(position, block)],
                                          steps := old(history).steps + [Replace(PrimaryKind(), position)])
    {
      hide Tracked, Align, WriteAt, Compressor.Valid, WithoutKind, Reserved, EncodeTable, SingleBlock;
      hide SingleHeaderAfter;
      SingleSize(ddt, crc, compressor, table[..]);
      var block := SingleBlock(ddt, crc, compressor, table[..]);
      var position := Place(block);
      ddt := SingleHeaderAfter(ddt, crc, compressor, table[..]);
      Reindex(PrimaryKind(), position);
    }

    /** `write_tape_ddt`: make the table dense and write it as a single-level one. */
    method WriteTape(tape: map<nat, nat>)
      requires Valid() && !history.twoLevel && forall k :: k in tape ==> k < 0x1FFF_FFFF
      modifies this
      ensures Valid() && dirtyIndex && fresh(table) && header == old(header) && ddt.tableShift == 0
      ensures forall k :: k in tape ==> k < table.Length && table[k] == tape[k]
      ensures forall k :: 0 <= k < table.Length && k !in tape ==> table[k] == 0
      ensures 0 < table.Length < 0x2000_0000
      ensures var position := Align(|old(file)|, layout.shift);
              var block := SingleBlock(TapeHeader(old(ddt), table.Length), crc, compressor, table[..]);
              && file == WriteAt(old(file), position, block)
              && index == Replaced(old(index), PrimaryKind(), position)
              && history == old(history).(log := old(history).log + [Placed(position, block)],
                                          steps := old(history).steps + [Replace(PrimaryKind(), position)])
    {
      hide Tracked, Align, WriteAt, Compressor.Valid, WithoutKind, Reserved, EncodeTable, SingleBlock;
      hide SingleHeaderAfter;
      var dense := BuildTapeTable(tape);
      TrackedOtherTable(file, index, table[..], dense[..], layout, history);
      ddt := TapeHeader(ddt, dense.Length);
      table := dense;
      SingleSize(ddt, crc, compressor, table[..]);
      WriteSingleLevel();
    }

    /** `write_flux_capture_payload`: fails when the two buffers together reach 4 GiB. */
    method WriteCapture(capture: Capture) returns (entry: Option<FluxEntry>)
      requires Valid()
      modifies this`file, this`index, this`history
      ensures Valid() && (entry.None? <==> |capture.data + capture.index| >= 0x1_0000_0000)
      ensures entry.None? ==> file == old(file) && index == old(index) && history == old(history)
      ensures entry.Some? ==>
                var position := Align(|old(file)|, layout.shift);
                var block := CaptureBlock(crc, compressor, capture.data + capture.index);
                && entry == Some(EntryOf(capture, ShiftRight(position, layout.shift)))
                && file == WriteAt(old(file), position, block)
                && index == old(index) + [IndexEntry(STREAM_BLOCK, TYPE_FLUX, position)]
                && history == old(history).(log := old(history).log + [Placed(position, block)],
                                            steps := old(history).steps
                                                     + [Add(Kind(STREAM_BLOCK, TYPE_FLUX), position)])
    {
      hide Tracked, Align, WriteAt, Compressor.Valid, CaptureBlock, ShiftRight, Reserved;
      var raw := capture.data + capture.index;
      if |raw| > 0xFFFF_FFFF {
        return None;
      }
      CaptureBlockSize(crc, compressor, raw);
      var position := Place(CaptureBlock(crc, compressor, raw));
      AddEntry(Kind(STREAM_BLOCK, TYPE_FLUX), position);
      entry := Some(EntryOf(capture, ShiftRight(position, layout.shift)));
    }

    /** `write_flux_blocks`: every payload, then the metadata block that lists them. */
    method WriteFlux(captures: seq<Capture>)
      returns (ok: bool, entries: seq<FluxEntry>, ghost placed: seq<Placed>, ghost added: seq<IndexEntry>)
      requires Valid()
      modifies this`file, this`index, this`history
      ensures Valid()
      ensures index == old(index) + added && |added| == |placed|
      ensures history == old(history).(log := old(history).log + placed, steps := old(history).steps + Adds(added))
      ensures |captures| == 0 ==> ok && added == [] && file == old(file)
      ensures ok <==> |captures| <= 0xFFFF && forall i :: 0 <= i < |captures| ==>
                |captures[i].data + captures[i].index| < 0x1_0000_0000
      ensures ok && |captures| > 0 ==>
                && |added| == |captures| + 1
                && CapturesPlaced(captures, entries, placed[..|captures|], added[..|captures|], crc, compressor,
                                  layout.shift)
                && placed[|captures|].bytes == FluxMetadata(crc, layout.shift, entries)
                && added[|captures|] == IndexEntry(FLUX_BLOCK, 0, placed[|captures|].offset)
      ensures forall i :: 0 <= i < |added| ==> IsFlux(added[i])
      ensures old(file) <= file
    {
      hide Tracked, Align, WriteAt, Compressor.Valid, CaptureBlock, ShiftRight, Reserved, CapturesPlaced, Adds;
      hide FluxMetadata, Pow2;
      entries, placed, added := [], [], [];
      NoSteps(history);
      if |captures| == 0 {
        return true, [], [], [];
      }
      if |captures| > 0xFFFF {
        return false, [], [], [];
      }
      NoCaptures(captures, crc, compressor, layout.shift);
      for i := 0 to |captures|
        invariant Valid() && index == old(index) + added && |added| == |placed| == i
        invariant history == old(history).(log := old(history).log + placed, steps := old(history).steps + Adds(added))
        invariant forall j :: 0 <= j < i ==> |captures[j].data + captures[j].index| < 0x1_0000_0000
        invariant CapturesPlaced(captures[..i], entries, placed, added, crc, compressor, layout.shift)
        invariant forall j :: 0 <= j < i ==> IsFlux(added[j])
        invariant old(file) <= file
      {
        NewPosition(file, index, table[..], layout, history);
        ghost var position := Align(|file|, layout.shift);
        OnlyAppended(file, position, captures[i].data + captures[i].index, crc, compressor);
        var entry := WriteCapture(captures[i]);
        if entry.None? {
          return false, entries, placed, added;
        }
        CapturesPush(captures, i, entries, placed, added, crc, compressor, layout.shift, position);
        AddsPush(added, IndexEntry(STREAM_BLOCK, TYPE_FLUX, position));
        entries := entries + [entry.value];
        placed := placed + [Placed(position, CaptureBlock(crc, compressor, captures[i].data + captures[i].index))];
        added := added + [IndexEntry(STREAM_BLOCK, TYPE_FLUX, position)];
      }
      assert captures[..|captures|] == captures;
      FluxMetadataSize(crc, layout.shift, entries);
      NewPosition(file, index, table[..], layout, history);
      Appended(file, Align(|file|, layout.shift), FluxMetadata(crc, layout.shift, entries));
      var at := Place(FluxMetadata(crc, layout.shift, entries));
      AddEntry(Kind(FLUX_BLOCK, 0), at);
      AddsPush(added, IndexEntry(FLUX_BLOCK, 0, at));
      ghost var n := |captures|;
      assert (placed + [Placed(at, FluxMetadata(crc, layout.shift, entries))])[..n] == placed;
      assert (added + [IndexEntry(FLUX_BLOCK, 0, at)])[..n] == added;
      placed := placed + [Placed(at, FluxMetadata(crc, layout.shift, entries))];
      added := added + [IndexEntry(FLUX_BLOCK, 0, at)];
      ok := true;
    }

    /** `write_index_block`: append the index, and point the image header at it unless it is empty. */
    method WriteIndex()
      requires Valid() && |header.identity| == 80
      modifies this`file, this`header, this`history
      ensures Valid() && header == PointedHeader(old(header), index, Align(|old(file)|, layout.shift))
      ensures history == WithPlaced(old(history), Align(|old(file)|, layout.shift), IndexBytes(crc, index))
      ensures IndexOnDisk(file, crc, index, Align(|old(file)|, layout.shift), layout.shift)
      ensures |index| > 0 || HeaderOnDisk(old(file), old(header)) ==> HeaderOnDisk(file, header)
      ensures Kept(old(file), file, 0, 0)
    {
      hide Tracked, Align, WriteAt, Compressor.Valid, Reserved, IndexBytes, Pow2, ImageHeader.Encoded, HeaderOnDisk;
      hide IndexOnDisk, Kept;
      IndexBytesSize(crc, index);
      NewPosition(file, index, table[..], layout, history);
      HeaderPresent(file, index, table[..], layout, history);
      HeaderUntouched(file, Align(|file|, layout.shift), IndexBytes(crc, index), header);
      WriteKeeps(file, Align(|file|, layout.shift), IndexBytes(crc, index), 0, 0);
      var position := Place(IndexBytes(crc, index));
      LastPlaced(file, index, table[..], layout, history, |history.log| - 1);
      if |index| > 0 {
        header := header.(indexOffset := position);
        HeaderLength(header);
        TrackedPatch(file, index, table[..], layout, history, 0, header.Encoded());
        HeaderWritten(file, header);
        WriteKeeps(file, 0, header.Encoded(), 0, 0);
        KeptTrans(old(file), file, WriteAt(file, 0, header.Encoded()), 0, 0);
        file := WriteAt(file, 0, header.Encoded());
        LastPlaced(file, index, table[..], layout, history, |history.log| - 1);
      }
      IndexFound(file, crc, index, position, layout.shift);
    }
  }

  function PointedHeader(h: ImageHeader, index: seq<IndexEntry>, position: nat): ImageHeader {
    if |index| > 0 then h.(indexOffset := position) else h
  }

  function WithPlaced(h: History, position: nat, bytes: Bytes): History {
    h.(log := h.log + [Placed(position, bytes)])
  }

  /** The image header is what the file starts with. */
  ghost predicate HeaderOnDisk(file: Bytes, h: ImageHeader) {
    IMAGE_HEADER_SIZE <= |file| && file[..IMAGE_HEADER_SIZE] == h.Encoded()
  }

  /** The index block lies at an aligned position. */
  ghost predicate IndexOnDisk(file: Bytes, crc: Crc64, index: seq<IndexEntry>, position: nat, shift: nat) {
    Holds(file, position, IndexBytes(crc, index)) && position % Pow2(shift) == 0
  }

  lemma IndexFound(file: Bytes, crc: Crc64, index: seq<IndexEntry>, position: nat, shift: nat)
    requires Holds(file, position, IndexBytes(crc, index)) && position % Pow2(shift) == 0
    ensures IndexOnDisk(file, crc, index, position, shift)
  {
  }

  /** Writing at or behind the end keeps the file as a prefix. */
  lemma Appended(file: Bytes, position: nat, bytes: Bytes)
    requires |file| <= position
    ensures file <= WriteAt(file, position, bytes)
  {
    hide WriteAt;
    WriteKeepsPrefix(file, position, bytes, |file|);
    assert file[..|file|] == file;
  }

  lemma OnlyAppended(file: Bytes, position: nat, raw: Bytes, crc: Crc64, c: Compressor)
    requires |file| <= position
    ensures |raw| < 0x1_0000_0000 ==> file <= WriteAt(file, position, CaptureBlock(crc, c, raw))
  {
    hide WriteAt, CaptureBlock;
    if |raw| < 0x1_0000_0000 {
      Appended(file, position, CaptureBlock(crc, c, raw));
    }
  }

  predicate IsFlux(e: IndexEntry) {
    e.blockType == STREAM_BLOCK || e.blockType == FLUX_BLOCK
  }

  lemma NoSteps(h: History)
    ensures Adds([]) == [] && h == h.(log := h.log + [], steps := h.steps + Adds([]))
  {
  }

  lemma AddsPush(added: seq<IndexEntry>, e: IndexEntry)
    ensures Adds(added + [e]) == Adds(added) + [Add(KindOf(e), e.offset)]
  {
  }

  /** Where the next block goes. */
  lemma NewPosition(file: Bytes, index: seq<IndexEntry>, table: seq<nat>, l: Layout, h: History)
    requires Tracked(file, index, table, l, h)
    ensures var position := Align(|file|, l.shift);
            position % Pow2(l.shift) == 0 && IMAGE_HEADER_SIZE <= position && |file| <= position
  {
    hide Align, Pow2;
    AlignAtLeast(|file|, l.shift);
  }

  lemma LastPlaced(file: Bytes, index: seq<IndexEntry>, table: seq<nat>, l: Layout, h: History, i: nat)
    requires Tracked(file, index, table, l, h) && i < |h.log|
    ensures Holds(file, h.log[i].offset, h.log[i].bytes) && h.log[i].offset % Pow2(l.shift) == 0
  {
    hide Pow2, Align;
  }

  lemma IndexBytesSize(crc: Crc64, index: seq<IndexEntry>)
    ensures |IndexBytes(crc, index)| >= INDEX_HEADER_SIZE
  {
    hide IndexHeader, EncodeIndex;
    IndexSizes(crc, index);
  }

  lemma HeaderUntouched(file: Bytes, position: nat, bytes: Bytes, h: ImageHeader)
    requires IMAGE_HEADER_SIZE <= position && IMAGE_HEADER_SIZE <= |file|
    ensures HeaderOnDisk(file, h) ==> HeaderOnDisk(WriteAt(file, position, bytes), h)
  {
    hide Padded;
    var r := WriteAt(file, position, bytes);
    assert |r| >= |file|;
    assert r[..IMAGE_HEADER_SIZE] == file[..IMAGE_HEADER_SIZE];
  }

  lemma HeaderLength(h: ImageHeader)
    requires |h.identity| == 80 && |h.times| == 35
    ensures |h.Encoded()| == IMAGE_HEADER_SIZE
  {
    hide LittleEndian;
    SizeOfNumber(h.indexOffset, 8);
    SizeOfNumber(h.compatible, 8);
    SizeOfNumber(h.compatibleRo, 8);
    SizeOfNumber(h.incompatible, 8);
  }

  lemma HeaderWritten(file: Bytes, h: ImageHeader)
    requires |h.Encoded()| == IMAGE_HEADER_SIZE
    ensures HeaderOnDisk(WriteAt(file, 0, h.Encoded()), h)
  {
    hide Padded, ImageHeader.Encoded;
    var r := WriteAt(file, 0, h.Encoded());
    assert r[0..IMAGE_HEADER_SIZE] == r[..IMAGE_HEADER_SIZE];
  }

  function TapeHeader(ddt: DdtHeader, entries: nat): DdtHeader {
    ddt.(identifier := DDT_PRIMARY, kind := TYPE_USER_DATA, levels := 1, tableLevel := 0, previousLevelOffset := 0,
         negative := 0, overflow := 0, tableShift := 0, entries := entries, blocks := entries, start := 0)
  }

  lemma SecondarySize(ddt: DdtHeader, primaryOffset: nat, crc: Crc64, c: Compressor, s: Secondary)
    requires |s.entries| < 0x2000_0000
    ensures |SecondaryBlock(ddt, primaryOffset, crc, c, s)| >= DDT_HEADER_SIZE
  {
  }

  lemma SingleSize(ddt: DdtHeader, crc: Crc64, c: Compressor, table: seq<nat>)
    requires |table| < 0x2000_0000
    ensures |SingleBlock(ddt, crc, c, table)| >= DDT_HEADER_SIZE
    ensures SingleHeaderAfter(ddt, crc, c, table).tableShift == ddt.tableShift
  {
  }

  /** The region reserved at creation holds the primary header and table, behind the image header. */
  predicate Reserved(l: Layout, primaryOffset: nat, entries: nat) {
    && IMAGE_HEADER_SIZE <= primaryOffset && l.lo == primaryOffset
    && l.hi == primaryOffset + DDT_HEADER_SIZE + 8 * entries
  }

  function PrimaryHeader(ddt: DdtHeader, crc: Crc64, table: seq<nat>): DdtHeader {
    var sum := crc(EncodeTable(table));
    ddt.(identifier := DDT_PRIMARY, kind := TYPE_USER_DATA, compression := COMPRESSION_NONE,
         crc64 := sum, cmpCrc64 := sum, length := 8 * |table|, cmpLength := 8 * |table|)
  }

  function SingleHeader(ddt: DdtHeader): DdtHeader {
    ddt.(identifier := DDT_PRIMARY, kind := TYPE_USER_DATA, levels := 1, tableLevel := 0, previousLevelOffset := 0)
  }

  lemma TableBlockSize(h: DdtHeader, crc: Crc64, c: Compressor, data: Bytes)
    requires |data| < 0x1_0000_0000
    ensures |TableBlock(h, crc, c, data)| >= DDT_HEADER_SIZE
  {
  }
}
