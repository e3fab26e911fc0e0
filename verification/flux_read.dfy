/** Reading flux captures back (src/blocks/flux.c): the flux block that the index leads to, the entry of a
    capture in it, and the payload block of that entry, cut into data and index.
 */
module FluxRead {
  import opened Wrappers
  import opened Octet
  import opened ImageFile
  import opened FileRegions
  import opened BlockIndex
  import opened IndexBlock
  import opened DdtTable
  import opened CloseWrite
  import opened CloseFinalize

  const PAYLOAD_HEADER_SIZE: nat := 32
  const FLUX_HEADER_SIZE: nat := 15
  const FLUX_ENTRY_SIZE: nat := 43

  lemma FluxWidths()
    ensures Width(PAYLOAD_HEADER_LAYOUT) == PAYLOAD_HEADER_SIZE
    ensures Width(FLUX_HEADER_LAYOUT) == FLUX_HEADER_SIZE
    ensures Width(FLUX_ENTRY_LAYOUT) == FLUX_ENTRY_SIZE
  {
    hide Width;
    assert SumTo(PAYLOAD_HEADER_LAYOUT, 4) == 12;
    WidthOf(PAYLOAD_HEADER_LAYOUT, 7, 32);
    WidthOf(FLUX_HEADER_LAYOUT, 4, 15);
    assert SumTo(FLUX_ENTRY_LAYOUT, 4) == 11;
    WidthOf(FLUX_ENTRY_LAYOUT, 8, 43);
    assert PAYLOAD_HEADER_LAYOUT[..7] == PAYLOAD_HEADER_LAYOUT && FLUX_HEADER_LAYOUT[..4] == FLUX_HEADER_LAYOUT;
    assert FLUX_ENTRY_LAYOUT[..8] == FLUX_ENTRY_LAYOUT;
  }

  // ---- A payload block ----

  /** What a stored payload holds, decompressed. */
  function Inflated(compression: nat, stored: Bytes, length: nat, d: Decompressor): Option<Bytes> {
    if compression == COMPRESSION_NONE then if |stored| == length then Some(stored) else None
    else if compression == COMPRESSION_LZMA then
      if |stored| <= LZMA_PROPERTIES_LENGTH then None
      else Whole(d(stored[LZMA_PROPERTIES_LENGTH..], stored[..LZMA_PROPERTIES_LENGTH]), length)
    else if compression == COMPRESSION_ZSTD then if |stored| == 0 then None else Whole(d(stored, []), length)
    else None
  }

  /** Decompression must give the declared length; nothing is decompressed when that is zero. */
  function Whole(out: Option<Bytes>, length: nat): Option<Bytes> {
    if length == 0 then Some([]) else if out.Some? && |out.value| == length then out else None
  }

  function ReadPayload(file: Bytes, at: nat, d: Decompressor, crc: Crc64): Option<Bytes> {
    FluxWidths();
    var hb := ReadAt(file, at, PAYLOAD_HEADER_SIZE);
    if hb.None? then None else
      var h := Unpack(PAYLOAD_HEADER_LAYOUT, hb.value);
      var stored := if h[3] == 0 then Some([]) else ReadAt(file, at + PAYLOAD_HEADER_SIZE, h[3]);
      if h[0] != STREAM_BLOCK || h[1] != TYPE_FLUX || stored.None? then None else
        var raw := Inflated(h[2], stored.value, h[4], d);
        if raw.None? || SumOf(crc, stored.value) != h[5] || SumOf(crc, raw.value) != h[6] then None else raw
  }

  /** The stored length of a capture fits its field. */
  ghost predicate CaptureFits(c: Compressor, raw: Bytes) {
    |raw| < 0x1_0000_0000 && PackTable(c, raw).CmpLength() < 0x1_0000_0000
  }

  lemma PackedIsInflated(c: Compressor, d: Decompressor, raw: Bytes)
    requires CaptureFits(c, raw) && c.Valid() && (|raw| > 0 ==> Undoes(d, c, raw))
    ensures var p := PackTable(c, raw);
            && p.compression < 0x1_0000 && |p.properties + p.payload| == p.CmpLength()
            && Inflated(p.compression, p.properties + p.payload, |raw|, d) == Some(raw)
  {
    hide Undoes;
    var p := PackTable(c, raw);
    if |raw| > 0 {
      PackedUndone(c, d, raw);
      hide PackTable;
      if p.compression == COMPRESSION_LZMA {
        assert (p.properties + p.payload)[..LZMA_PROPERTIES_LENGTH] == p.properties;
        assert (p.properties + p.payload)[LZMA_PROPERTIES_LENGTH..] == p.payload;
      } else {
        assert p.properties + p.payload == p.payload;
      }
    } else {
      assert p.compression == COMPRESSION_NONE && p.properties + p.payload == raw;
    }
  }

  /** A capture reads back: its header is found, its stored bytes are there, and decompressed they are data
      and index. */
  lemma PayloadReadsBack(file: Bytes, at: nat, crc: Crc64, c: Compressor, d: Decompressor, raw: Bytes)
    requires CaptureFits(c, raw) && c.Valid() && (|raw| > 0 ==> Undoes(d, c, raw))
    requires Holds(file, at, CaptureBlock(crc, c, raw))
    ensures ReadPayload(file, at, d, crc) == Some(raw)
  {
    hide Pack, Unpack, Width, PackTable, Undoes, Inflated, Holds, Pow256;
    FluxWidths();
    Powers();
    var p := PackTable(c, raw);
    PackedIsInflated(c, d, raw);
    var fields := PayloadFields(crc, p, raw);
    var head, stored := Pack(PAYLOAD_HEADER_LAYOUT, fields), p.properties + p.payload;
    assert CaptureBlock(crc, c, raw) == head + stored;
    HoldsSplit(file, at, head, stored);
    PackSize(PAYLOAD_HEADER_LAYOUT, fields);
    HoldsExactly(file, at, head, PAYLOAD_HEADER_SIZE);
    HoldsExactly(file, at + PAYLOAD_HEADER_SIZE, stored, p.CmpLength());
    UnpackPack(PAYLOAD_HEADER_LAYOUT, fields);
  }

  /** Exactly which payload blocks are read, whoever wrote them: `f` are the fields of the header, `stored` the
      bytes behind it. */
  lemma PayloadReadExactlyWhen(file: Bytes, at: nat, f: seq<nat>, stored: Bytes, d: Decompressor, crc: Crc64)
    requires Fits(PAYLOAD_HEADER_LAYOUT, f) && |stored| == f[3]
    requires Holds(file, at, Pack(PAYLOAD_HEADER_LAYOUT, f) + stored)
    ensures var out := if f[2] == 1 && |stored| > 5 then d(stored[5..], stored[..5])
                       else if f[2] == 4 && |stored| > 0 then d(stored, [])
                       else None;
            var raw := if f[2] == 0 then Some(stored) else if f[4] == 0 then Some([]) else out;
            var known := f[0] == 0x4C505344 && f[1] == 89
                         && (f[2] == 0 || (f[2] == 1 && |stored| > 5) || (f[2] == 4 && |stored| > 0));
            var sound := raw.Some? && |raw.value| == f[4] && (if |stored| == 0 then f[5] == 0 else f[5] == crc(stored))
                         && (if raw.value == [] then f[6] == 0 else f[6] == crc(raw.value));
            ReadPayload(file, at, d, crc) == if known && sound then raw else None
  {
    hide Pack, Unpack, Width, Holds, Pow256;
    FluxWidths();
    var head := Pack(PAYLOAD_HEADER_LAYOUT, f);
    HoldsSplit(file, at, head, stored);
    PackSize(PAYLOAD_HEADER_LAYOUT, f);
    HoldsExactly(file, at, head, PAYLOAD_HEADER_SIZE);
    HoldsExactly(file, at + PAYLOAD_HEADER_SIZE, stored, f[3]);
    UnpackPack(PAYLOAD_HEADER_LAYOUT, f);
  }

  lemma PackSize(layout: seq<nat>, fields: seq<nat>)
    requires |layout| == |fields|
    ensures |Pack(layout, fields)| == Width(layout)
  {
  }

  // ---- The flux block ----

  function DecodeFluxEntry(b: Bytes): FluxEntry
    requires |b| == FLUX_ENTRY_SIZE
  {
    FluxWidths();
    var f := Unpack(FLUX_ENTRY_LAYOUT, b);
    FluxEntry(f[0], f[1], f[2], f[3], f[4], f[5], f[6], f[7])
  }

  function DecodeFluxEntries(b: Bytes, n: nat): (r: seq<FluxEntry>)
    requires |b| == n * FLUX_ENTRY_SIZE
    ensures |r| == n
  {
    if n == 0 then [] else
      DecodeFluxEntries(b[..(n - 1) * FLUX_ENTRY_SIZE], n - 1) + [DecodeFluxEntry(b[(n - 1) * FLUX_ENTRY_SIZE..])]
  }

  ghost predicate EntryFits(e: FluxEntry) {
    && e.head < 0x1_0000_0000 && e.track < 0x1_0000 && e.subtrack < 0x100 && e.captureIndex < 0x1_0000_0000
    && e.indexResolution < 0x1_0000_0000_0000_0000 && e.dataResolution < 0x1_0000_0000_0000_0000
    && e.indexOffset < 0x1_0000_0000_0000_0000 && e.payloadOffset < 0x1_0000_0000_0000_0000
  }

  lemma EntryReadsBack(e: FluxEntry)
    requires EntryFits(e)
    ensures |EncodeFluxEntry(e)| == FLUX_ENTRY_SIZE && DecodeFluxEntry(EncodeFluxEntry(e)) == e
  {
    hide Pack, Unpack, Width, Pow256;
    FluxWidths();
    Powers();
    PackSize(FLUX_ENTRY_LAYOUT, FluxFields(e));
    UnpackPack(FLUX_ENTRY_LAYOUT, FluxFields(e));
  }

  lemma {:induction false} EntriesReadBack(entries: seq<FluxEntry>)
    requires forall i :: 0 <= i < |entries| ==> EntryFits(entries[i])
    ensures |EncodeFluxEntries(entries)| == |entries| * FLUX_ENTRY_SIZE
    ensures DecodeFluxEntries(EncodeFluxEntries(entries), |entries|) == entries
  {
    hide EncodeFluxEntry, DecodeFluxEntry, EntryFits;
    if |entries| > 0 {
      var n := |entries| - 1;
      EntriesReadBack(entries[..n]);
      EntryReadsBack(entries[n]);
      var b := EncodeFluxEntries(entries);
      assert b[..n * FLUX_ENTRY_SIZE] == EncodeFluxEntries(entries[..n]);
      assert b[n * FLUX_ENTRY_SIZE..] == EncodeFluxEntry(entries[n]);
      assert entries == entries[..n] + [entries[n]];
    }
  }

  /** The alignment shift and the entries of the flux block at `at`; one without entries is none. */
  function LoadFlux(file: Bytes, at: nat, crc: Crc64): Option<(nat, seq<FluxEntry>)> {
    FluxWidths();
    var hb := ReadAt(file, at, FLUX_HEADER_SIZE);
    if hb.None? then None else
      var h := Unpack(FLUX_HEADER_LAYOUT, hb.value);
      var body := ReadAt(file, at + FLUX_HEADER_SIZE, h[1] * FLUX_ENTRY_SIZE);
      if h[0] != FLUX_BLOCK || body.None? || crc(body.value) != h[3] then None
      else Some((h[2], DecodeFluxEntries(body.value, h[1])))
  }

  lemma FluxReadsBack(file: Bytes, at: nat, crc: Crc64, shift: nat, entries: seq<FluxEntry>)
    requires Holds(file, at, FluxMetadata(crc, shift, entries)) && 0 < |entries| < 0x1_0000 && shift < 0x100
    requires forall i :: 0 <= i < |entries| ==> EntryFits(entries[i])
    ensures LoadFlux(file, at, crc) == Some((shift, entries))
  {
    hide Pack, Unpack, Width, Holds, Pow256, EncodeFluxEntries, DecodeFluxEntries, EntryFits;
    FluxWidths();
    Powers();
    EntriesReadBack(entries);
    var body := EncodeFluxEntries(entries);
    var fields := [FLUX_BLOCK, |entries|, shift, crc(body)];
    var head := Pack(FLUX_HEADER_LAYOUT, fields);
    assert FluxMetadata(crc, shift, entries) == head + body;
    assert Fits(FLUX_HEADER_LAYOUT, fields);
    HoldsSplit(file, at, head, body);
    PackSize(FLUX_HEADER_LAYOUT, fields);
    HoldsExactly(file, at, head, FLUX_HEADER_SIZE);
    HoldsExactly(file, at + FLUX_HEADER_SIZE, body, |entries| * FLUX_ENTRY_SIZE);
    UnpackPack(FLUX_HEADER_LAYOUT, fields);
  }

  // ---- Finding a capture ----

  datatype Key = Key(head: nat, track: nat, subtrack: nat, captureIndex: nat)

  function KeyOf(e: FluxEntry): Key {
    Key(e.head, e.track, e.subtrack, e.captureIndex)
  }

  /** The map holds the last entry of each key. */
  function FindEntry(entries: seq<FluxEntry>, key: Key): Option<FluxEntry> {
    if |entries| == 0 then None
    else if KeyOf(entries[|entries| - 1]) == key then Some(entries[|entries| - 1])
    else FindEntry(entries[..|entries| - 1], key)
  }

  lemma {:induction false} LastOfKey(entries: seq<FluxEntry>, i: nat)
    requires i < |entries| && forall j :: i < j < |entries| ==> KeyOf(entries[j]) != KeyOf(entries[i])
    ensures FindEntry(entries, KeyOf(entries[i])) == Some(entries[i])
  {
    if i < |entries| - 1 {
      LastOfKey(entries[..|entries| - 1], i);
    }
  }

  /** The first flux block in the index. */
  function FirstFlux(index: seq<IndexEntry>): Option<nat> {
    if |index| == 0 then None
    else if index[0].blockType == FLUX_BLOCK then Some(index[0].offset)
    else FirstFlux(index[1..])
  }

  lemma {:induction false} OnlyFlux(index: seq<IndexEntry>, at: nat)
    requires exists e :: e in index && e.blockType == FLUX_BLOCK
    requires forall e :: e in index && e.blockType == FLUX_BLOCK ==> e.offset == at
    ensures FirstFlux(index) == Some(at)
  {
    if index[0].blockType != FLUX_BLOCK {
      OnlyFlux(index[1..], at);
    }
  }

  /** A flux block that was in the index before is the one that is read, whatever is indexed behind it. */
  lemma {:induction false} EarlierFluxIsRead(before: seq<IndexEntry>, rest: seq<IndexEntry>)
    ensures FirstFlux(before).Some? <==> exists e :: e in before && e.blockType == FLUX_BLOCK
    ensures FirstFlux(before + rest) == if FirstFlux(before).Some? then FirstFlux(before) else FirstFlux(rest)
  {
    if |before| == 0 {
      assert before + rest == rest;
    } else {
      EarlierFluxIsRead(before[1..], rest);
      assert (before + rest)[1..] == before[1..] + rest;
      assert before == [before[0]] + before[1..];
    }
  }

  /** `aaruf_read_flux_capture`: the data and the index of a capture. */
  function ReadCapture(file: Bytes, index: seq<IndexEntry>, key: Key, d: Decompressor, crc: Crc64)
    : Option<(Bytes, Bytes)>
  {
    var at := FirstFlux(index);
    if at.None? then None else
      var flux := LoadFlux(file, at.value, crc);
      if flux.None? then None else
        var entry := FindEntry(flux.value.1, key);
        if entry.None? then None else
          var raw := ReadPayload(file, ShiftLeft(entry.value.payloadOffset, flux.value.0), d, crc);
          if raw.None? || entry.value.indexOffset > |raw.value| then None
          else Some((raw.value[..entry.value.indexOffset], raw.value[entry.value.indexOffset..]))
  }

  // ---- From the close to the reader ----

  ghost predicate CaptureSound(capture: Capture, c: Compressor, d: Decompressor) {
    && CaptureFits(c, capture.data + capture.index)
    && (|capture.data + capture.index| > 0 ==> Undoes(d, c, capture.data + capture.index))
    && capture.head < 0x1_0000_0000 && capture.track < 0x1_0000 && capture.subtrack < 0x100
    && capture.captureIndex < 0x1_0000_0000
    && capture.indexResolution < 0x1_0000_0000_0000_0000 && capture.dataResolution < 0x1_0000_0000_0000_0000
  }

  function CaptureKey(capture: Capture): Key {
    Key(capture.head, capture.track, capture.subtrack, capture.captureIndex)
  }

  /** Whatever a close wrote of the captures, each is read back by its key, data and index, unless a later one
      has the same key, in the image and in anything appended to it. */
  lemma CapturesReadBack(file: Bytes, index: seq<IndexEntry>, log: seq<Placed>, floor: nat, shift: nat,
                         captures: seq<Capture>, entries: seq<FluxEntry>, placed: seq<Placed>, added: seq<IndexEntry>,
                         crc: Crc64, c: Compressor, d: Decompressor, i: nat)
    requires FluxDone(index, log, captures, entries, placed, added, crc, c, shift) && Laid(file, log, floor, shift)
    requires |file| < 0x1_0000_0000_0000_0000 && |captures| < 0x1_0000 && shift < 0x100 && c.Valid()
    requires forall j :: 0 <= j < |captures| ==> CaptureSound(captures[j], c, d)
    requires i < |captures| && forall j :: i < j < |captures| ==> CaptureKey(captures[j]) != CaptureKey(captures[i])
    requires forall e :: e in index && e.blockType == FLUX_BLOCK ==> e.offset == placed[|captures|].offset
    ensures ReadCapture(file, index, CaptureKey(captures[i]), d, crc) == Some((captures[i].data, captures[i].index))
  {
    hide Laid, CaptureBlock, FluxMetadata, LoadFlux, ReadPayload, Pow2, FirstFlux, FindEntry, EntryFits, CaptureSound;
    var n := |captures|;
    assert added[n] in index;
    OnlyFlux(index, placed[n].offset);
    forall j | 0 <= j < n
      ensures EntryFits(entries[j]) && KeyOf(entries[j]) == CaptureKey(captures[j])
    {
      PlacedCapture(file, log, floor, shift, placed, j);
      EntryOfCapture(captures[j], entries[j], c, d, |file|, placed[j].offset, shift);
    }
    PlacedCapture(file, log, floor, shift, placed, n);
    FluxReadsBack(file, placed[n].offset, crc, shift, entries);
    LastOfKey(entries, i);
    PlacedCapture(file, log, floor, shift, placed, i);
    RawReadsBack(file, placed[i].offset, crc, c, d, captures[i]);
    ShiftLeftBy(entries[i].payloadOffset, shift);
    var raw := captures[i].data + captures[i].index;
    assert raw[..|captures[i].data|] == captures[i].data && raw[|captures[i].data|..] == captures[i].index;
  }

  lemma ShiftLeftBy(n: nat, shift: nat)
    ensures ShiftLeft(n, shift) == n * Pow2(shift)
  {
    hide Pow2;
  }

  lemma RawReadsBack(file: Bytes, at: nat, crc: Crc64, c: Compressor, d: Decompressor, capture: Capture)
    requires CaptureSound(capture, c, d) && c.Valid()
    requires |capture.data + capture.index| < 0x1_0000_0000
    requires Holds(file, at, CaptureBlock(crc, c, capture.data + capture.index))
    ensures ReadPayload(file, at, d, crc) == Some(capture.data + capture.index)
  {
    hide CaptureFits, CaptureBlock, ReadPayload, Holds, Undoes;
    PayloadReadsBack(file, at, crc, c, d, capture.data + capture.index);
  }

  lemma PlacedCapture(file: Bytes, log: seq<Placed>, floor: nat, shift: nat, placed: seq<Placed>, i: nat)
    requires Laid(file, log, floor, shift) && i < |placed| && placed[i] in log
    ensures Holds(file, placed[i].offset, placed[i].bytes) && placed[i].offset <= |file|
  {
    hide Pow2;
    var k :| 0 <= k < |log| && log[k] == placed[i];
  }

  lemma EntryOfCapture(capture: Capture, e: FluxEntry, c: Compressor, d: Decompressor, size: nat, offset: nat,
                       shift: nat)
    requires e == EntryOf(capture, e.payloadOffset) && e.payloadOffset * Pow2(shift) == offset <= size
    requires CaptureSound(capture, c, d) && size < 0x1_0000_0000_0000_0000
    ensures EntryFits(e) && KeyOf(e) == CaptureKey(capture)
  {
    hide Pow2, Undoes, PackTable;
    TimesAtLeast(e.payloadOffset, Pow2(shift));
  }
}
