/** Where each field of the on-disk structures lies: the packed, little-endian structures of
    include/aaruformat/structs, byte for byte. The round trips elsewhere say that reader and writer agree
    with each other; the lemmas here say that the writer agrees with the format.
 */
module DiskLayout {
  import opened Wrappers
  import opened Octet
  import opened ImageFile
  import opened ErasureFormat
  import opened IndexBlock
  import opened DdtTable
  import opened CloseWrite
  import opened DumpHardware

  /** Number `v` lies at byte `at` of `b`, little-endian, in `w` bytes. */
  ghost predicate FieldAt(b: Bytes, at: nat, w: nat, v: nat) {
    at + w <= |b| && b[at..at + w] == LittleEndian(v, w)
  }

  /** The `offsets` follow each other without padding. */
  ghost predicate Packed(layout: seq<nat>, offsets: seq<nat>) {
    && |offsets| == |layout| && (|offsets| > 0 ==> offsets[0] == 0)
    && forall i :: 0 < i < |offsets| ==> offsets[i] == offsets[i - 1] + layout[i - 1]
  }

  /** Field `i` of a packed record lies behind the widths of the fields before it. */
  lemma {:induction false} FieldOfRecord(layout: seq<nat>, fields: seq<nat>, i: nat)
    requires |layout| == |fields| && i < |layout|
    ensures FieldAt(Pack(layout, fields), Width(layout[..i]), layout[i], fields[i])
  {
    hide LittleEndian, FieldAt;
    var head, tail := LittleEndian(fields[0], layout[0]), Pack(layout[1..], fields[1..]);
    assert Pack(layout, fields) == head + tail;
    if i == 0 {
      NumberAt(head + tail, 0, layout[0], fields[0], [], tail);
    } else {
      FieldOfRecord(layout[1..], fields[1..], i - 1);
      assert layout[..i][1..] == layout[1..][..i - 1];
      FieldKept(tail, head, Width(layout[1..][..i - 1]), layout[i], fields[i]);
    }
  }

  lemma NumberAt(b: Bytes, at: nat, w: nat, v: nat, before: Bytes, behind: Bytes)
    requires |before| == at && b == before + LittleEndian(v, w) + behind
    ensures FieldAt(b, at, w, v)
  {
    hide LittleEndian;
    SizeOfNumber(v, w);
    assert b[at..at + w] == LittleEndian(v, w);
  }

  lemma FieldKept(a: Bytes, b: Bytes, at: nat, w: nat, v: nat)
    requires FieldAt(a, at, w, v)
    ensures FieldAt(a + b, at, w, v) && FieldAt(b + a, |b| + at, w, v)
  {
    hide LittleEndian;
    assert (a + b)[at..at + w] == a[at..at + w];
    assert (b + a)[|b| + at..|b| + at + w] == a[at..at + w];
  }

  lemma {:induction false} OffsetIsWidth(layout: seq<nat>, offsets: seq<nat>, i: nat)
    requires Packed(layout, offsets) && i < |layout|
    ensures Width(layout[..i]) == offsets[i]
    decreases i
  {
    if i > 0 {
      OffsetIsWidth(layout, offsets, i - 1);
      assert layout[..i] == layout[..i - 1] + [layout[i - 1]];
      WidthPush(layout[..i - 1], layout[i - 1]);
    }
  }

  lemma Field(layout: seq<nat>, fields: seq<nat>, offsets: seq<nat>, i: nat)
    requires |layout| == |fields| && Packed(layout, offsets) && i < |layout|
    ensures FieldAt(Pack(layout, fields), offsets[i], layout[i], fields[i])
  {
    hide Pack, Width, FieldAt;
    FieldOfRecord(layout, fields, i);
    OffsetIsWidth(layout, offsets, i);
  }

  lemma BlockHeaderLayout(h: BlockHeader)
    ensures var b := h.Encoded();
            && |b| == 36
            && FieldAt(b, 0, 4, h.identifier) && FieldAt(b, 4, 2, h.kind) && FieldAt(b, 6, 2, h.compression)
            && FieldAt(b, 8, 4, h.sectorSize) && FieldAt(b, 12, 4, h.cmpLength) && FieldAt(b, 16, 4, h.length)
            && FieldAt(b, 20, 8, h.cmpCrc64) && FieldAt(b, 28, 8, h.crc64)
  {
    hide Pack, FieldAt, Width;
    var l, f, at := BLOCK_HEADER_LAYOUT, h.Fields(), [0, 4, 6, 8, 12, 16, 20, 28];
    Field(l, f, at, 0);
    Field(l, f, at, 1);
    Field(l, f, at, 2);
    Field(l, f, at, 3);
    Field(l, f, at, 4);
    Field(l, f, at, 5);
    Field(l, f, at, 6);
    Field(l, f, at, 7);
  }

  lemma TableHeaderLayout(h: DdtHeader)
    ensures var b := h.Encoded();
            && |b| == 85
            && FieldAt(b, 0, 4, h.identifier) && FieldAt(b, 4, 2, h.kind) && FieldAt(b, 6, 2, h.compression)
            && FieldAt(b, 8, 1, h.levels) && FieldAt(b, 9, 1, h.tableLevel)
            && FieldAt(b, 10, 8, h.previousLevelOffset) && FieldAt(b, 18, 4, h.negative)
            && FieldAt(b, 22, 8, h.blocks) && FieldAt(b, 30, 4, h.overflow) && FieldAt(b, 34, 8, h.start)
            && FieldAt(b, 42, 1, h.blockAlignmentShift) && FieldAt(b, 43, 1, h.dataShift)
            && FieldAt(b, 44, 1, h.tableShift) && FieldAt(b, 45, 8, h.entries) && FieldAt(b, 53, 8, h.cmpLength)
            && FieldAt(b, 61, 8, h.length) && FieldAt(b, 69, 8, h.cmpCrc64) && FieldAt(b, 77, 8, h.crc64)
  {
    hide Pack, FieldAt, Width;
    var l, f, at := DDT_HEADER_LAYOUT, h.Fields(), [0, 4, 6, 8, 9, 10, 18, 22, 30, 34, 42, 43, 44, 45, 53, 61, 69, 77];
    Field(l, f, at, 0);
    Field(l, f, at, 1);
    Field(l, f, at, 2);
    Field(l, f, at, 3);
    Field(l, f, at, 4);
    Field(l, f, at, 5);
    Field(l, f, at, 6);
    Field(l, f, at, 7);
    Field(l, f, at, 8);
    Field(l, f, at, 9);
    Field(l, f, at, 10);
    Field(l, f, at, 11);
    Field(l, f, at, 12);
    Field(l, f, at, 13);
    Field(l, f, at, 14);
    Field(l, f, at, 15);
    Field(l, f, at, 16);
    Field(l, f, at, 17);
  }

  lemma ImageHeaderLayout(h: ImageHeader)
    requires h.Valid()
    ensures var b := h.Encoded();
            && |b| == 147 && b[..80] == h.identity && b[88..123] == h.times
            && FieldAt(b, 80, 8, h.indexOffset) && FieldAt(b, 123, 8, h.compatible)
            && FieldAt(b, 131, 8, h.compatibleRo) && FieldAt(b, 139, 8, h.incompatible)
  {
    hide LittleEndian, Pow256;
    var b := h.Encoded();
    var offset, ends := LittleEndian(h.indexOffset, 8), LittleEndian(h.compatible, 8);
    var ro, incompatible := LittleEndian(h.compatibleRo, 8), LittleEndian(h.incompatible, 8);
    SizeOfNumber(h.indexOffset, 8);
    SizeOfNumber(h.compatible, 8);
    SizeOfNumber(h.compatibleRo, 8);
    SizeOfNumber(h.incompatible, 8);
    assert b == h.identity + offset + h.times + ends + ro + incompatible;
    assert b[80..88] == offset;
    assert b[123..131] == ends;
    assert b[131..139] == ro;
    assert b[139..147] == incompatible;
  }

  lemma IndexHeaderLayout(crc: Crc64, index: seq<IndexEntry>)
    ensures var b := IndexHeader(crc, index);
            && |b| == 28
            && FieldAt(b, 0, 4, 0x33584449) && FieldAt(b, 4, 8, |index|)
            && FieldAt(b, 12, 8, if |index| > 0 then crc(EncodeIndex(index)) else 0) && FieldAt(b, 20, 8, 0)
  {
    hide Pack, FieldAt, EncodeIndex, Width;
    var l, at := INDEX_HEADER_LAYOUT, [0, 4, 12, 20];
    var f := [INDEX_BLOCK_3, |index|, if |index| > 0 then crc(EncodeIndex(index)) else 0, 0];
    Field(l, f, at, 0);
    Field(l, f, at, 1);
    Field(l, f, at, 2);
    Field(l, f, at, 3);
  }

  lemma IndexEntryLayout(e: IndexEntry)
    ensures var b := IndexBlock.EncodeEntry(e);
            && |b| == 14
            && FieldAt(b, 0, 4, e.blockType) && FieldAt(b, 4, 2, e.dataType) && FieldAt(b, 6, 8, e.offset)
  {
    hide Pack, FieldAt, Width;
    var l, f, at := INDEX_ENTRY_LAYOUT, [e.blockType, e.dataType, e.offset], [0, 4, 6];
    Field(l, f, at, 0);
    Field(l, f, at, 1);
    Field(l, f, at, 2);
  }

  lemma MapHeaderLayout(h: MapHeader)
    ensures var b := h.Encoded();
            && |b| == 40
            && FieldAt(b, 0, 4, h.identifier) && FieldAt(b, 4, 1, h.algorithm)
            && FieldAt(b, 5, 1, h.stripeGroupCount) && FieldAt(b, 6, 2, h.compression)
            && FieldAt(b, 8, 8, h.cmpLength) && FieldAt(b, 16, 8, h.length)
            && FieldAt(b, 24, 8, h.cmpCrc64) && FieldAt(b, 32, 8, h.crc64)
  {
    hide Pack, FieldAt, Width;
    var l, at := MAP_HEADER_LAYOUT, [0, 4, 5, 6, 8, 16, 24, 32];
    var f := [h.identifier, h.algorithm, h.stripeGroupCount, h.compression, h.cmpLength, h.length, h.cmpCrc64,
              h.crc64];
    Field(l, f, at, 0);
    Field(l, f, at, 1);
    Field(l, f, at, 2);
    Field(l, f, at, 3);
    Field(l, f, at, 4);
    Field(l, f, at, 5);
    Field(l, f, at, 6);
    Field(l, f, at, 7);
  }

  lemma GroupDescriptorLayout(g: GroupDescriptor)
    ensures var b := g.Encoded();
            && |b| == 15
            && FieldAt(b, 0, 1, g.groupType) && FieldAt(b, 1, 2, g.k) && FieldAt(b, 3, 2, g.m)
            && FieldAt(b, 5, 4, g.shardSize) && FieldAt(b, 9, 4, g.stripeCount)
            && FieldAt(b, 13, 2, g.interleaveDepth)
  {
    hide Pack, FieldAt, Width;
    var l, at := GROUP_LAYOUT, [0, 1, 3, 5, 9, 13];
    var f := [g.groupType, g.k, g.m, g.shardSize, g.stripeCount, g.interleaveDepth];
    Field(l, f, at, 0);
    Field(l, f, at, 1);
    Field(l, f, at, 2);
    Field(l, f, at, 3);
    Field(l, f, at, 4);
    Field(l, f, at, 5);
  }

  lemma DataEntryLayout(e: DataEntry)
    ensures var b := e.Encoded();
            && |b| == 20
            && FieldAt(b, 0, 8, e.offset) && FieldAt(b, 8, 4, e.onDiskSize) && FieldAt(b, 12, 8, e.shardCrc64)
  {
    hide Pack, FieldAt, Width;
    var l, f, at := DATA_ENTRY_LAYOUT, [e.offset, e.onDiskSize, e.shardCrc64], [0, 8, 12];
    Field(l, f, at, 0);
    Field(l, f, at, 1);
    Field(l, f, at, 2);
  }

  lemma FooterLayout(footer: Footer)
    requires |footer.backup| == IMAGE_HEADER_SIZE
    ensures var b := footer.Encoded();
            && |b| == 179 && b[24..171] == footer.backup
            && FieldAt(b, 0, 8, footer.mapOffset) && FieldAt(b, 8, 8, footer.mapLength)
            && FieldAt(b, 16, 8, footer.headerCrc64) && FieldAt(b, 171, 8, footer.magic)
  {
    hide Pack, FieldAt, LittleEndian, Width;
    ErasureFormat.Widths();
    var front := Pack(FOOTER_LAYOUT, [footer.mapOffset, footer.mapLength, footer.headerCrc64]);
    var rest := footer.backup + LittleEndian(footer.magic, 8);
    var l, f, at := FOOTER_LAYOUT, [footer.mapOffset, footer.mapLength, footer.headerCrc64], [0, 8, 16];
    Field(l, f, at, 0);
    Field(l, f, at, 1);
    Field(l, f, at, 2);
    FieldKept(front, rest, 0, 8, footer.mapOffset);
    FieldKept(front, rest, 8, 8, footer.mapLength);
    FieldKept(front, rest, 16, 8, footer.headerCrc64);
    assert footer.Encoded() == front + rest;
    assert rest == footer.backup + LittleEndian(footer.magic, 8) + [];
    assert footer.Encoded() == (front + footer.backup) + LittleEndian(footer.magic, 8) + [];
    NumberAt(footer.Encoded(), 171, 8, footer.magic, front + footer.backup, []);
  }

  /** A stripe: its two counts lead to the entries, and those to the offsets of its parity blocks. */
  lemma StripeLayout(s: Stripe)
    ensures var b := EncodeStripe(s);
            && |b| == 2 + 20 * |s.entries| + 8 * |s.parity| && FieldAt(b, 0, 2, |s.entries|)
            && (forall i :: 0 <= i < |s.entries| ==> b[2 + 20 * i..22 + 20 * i] == s.entries[i].Encoded())
            && (forall i :: 0 <= i < |s.parity| ==> FieldAt(b, 2 + 20 * |s.entries| + 8 * i, 8, s.parity[i]))
  {
    hide FieldAt, LittleEndian, ErasureFormat.EncodeEntries, EncodeOffsets, Width;
    var b := EncodeStripe(s);
    var count, parity := LittleEndian(|s.entries|, 2), EncodeOffsets(s.parity);
    var entries := ErasureFormat.EncodeEntries(s.entries);
    assert |count| == 2 by { SizeOfNumber(|s.entries|, 2); }
    assert b == [] + count + (entries + parity);
    NumberAt(b, 0, 2, |s.entries|, [], entries + parity);
    forall i | 0 <= i < |s.entries| ensures b[2 + 20 * i..22 + 20 * i] == s.entries[i].Encoded() {
      EntryOfStripe(s.entries, i);
      assert b[2 + 20 * i..22 + 20 * i] == entries[20 * i..20 * i + 20];
    }
    forall i | 0 <= i < |s.parity| ensures FieldAt(b, 2 + 20 * |s.entries| + 8 * i, 8, s.parity[i]) {
      OffsetOfStripe(s.parity, i);
      FieldKept(parity, count + entries, 8 * i, 8, s.parity[i]);
      assert b == (count + entries) + parity;
    }
  }

  lemma {:induction false} EntryOfStripe(entries: seq<DataEntry>, i: nat)
    requires i < |entries|
    ensures ErasureFormat.EncodeEntries(entries)[20 * i..20 * i + 20] == entries[i].Encoded()
    decreases |entries|
  {
    hide Pack, Width;
    var n := |entries| - 1;
    var front := ErasureFormat.EncodeEntries(entries[..n]);
    assert ErasureFormat.EncodeEntries(entries) == front + entries[n].Encoded();
    if i < n {
      EntryOfStripe(entries[..n], i);
      assert ErasureFormat.EncodeEntries(entries)[20 * i..20 * i + 20] == front[20 * i..20 * i + 20];
    }
  }

  lemma {:induction false} OffsetOfStripe(offsets: seq<nat>, i: nat)
    requires i < |offsets|
    ensures FieldAt(EncodeOffsets(offsets), 8 * i, 8, offsets[i])
    decreases |offsets|
  {
    hide FieldAt, LittleEndian, Width;
    var n := |offsets| - 1;
    var front, last := EncodeOffsets(offsets[..n]), LittleEndian(offsets[n], 8);
    assert EncodeOffsets(offsets) == front + last;
    if i < n {
      OffsetOfStripe(offsets[..n], i);
      FieldKept(front, last, 8 * i, 8, offsets[i]);
    } else {
      assert front + last == front + last + [];
      NumberAt(front + last, 8 * n, 8, offsets[n], front, []);
    }
  }

  lemma FluxHeaderLayout(crc: Crc64, shift: nat, entries: seq<FluxEntry>)
    ensures var b := FluxHeader(crc, shift, entries);
            && |b| == 15
            && FieldAt(b, 0, 4, 0x58554C46) && FieldAt(b, 4, 2, |entries|) && FieldAt(b, 6, 1, shift)
            && FieldAt(b, 7, 8, crc(EncodeFluxEntries(entries)))
  {
    hide Pack, FieldAt, EncodeFluxEntries, Width;
    var fields := [FLUX_BLOCK, |entries|, shift, crc(EncodeFluxEntries(entries))];
    var l, f, at := FLUX_HEADER_LAYOUT, fields, [0, 4, 6, 7];
    Field(l, f, at, 0);
    Field(l, f, at, 1);
    Field(l, f, at, 2);
    Field(l, f, at, 3);
    WidthAll(FLUX_HEADER_LAYOUT, [0, 4, 6, 7]);
  }

  lemma WidthAll(layout: seq<nat>, offsets: seq<nat>)
    requires Packed(layout, offsets) && |layout| > 0
    ensures Width(layout) == offsets[|layout| - 1] + layout[|layout| - 1]
  {
    hide Width;
    var n := |layout| - 1;
    OffsetIsWidth(layout, offsets, n);
    assert layout == layout[..n] + [layout[n]];
    WidthPush(layout[..n], layout[n]);
  }

  lemma FluxEntryLayout(e: FluxEntry)
    ensures var b := EncodeFluxEntry(e);
            && |b| == 43
            && FieldAt(b, 0, 4, e.head) && FieldAt(b, 4, 2, e.track) && FieldAt(b, 6, 1, e.subtrack)
            && FieldAt(b, 7, 4, e.captureIndex) && FieldAt(b, 11, 8, e.indexResolution)
            && FieldAt(b, 19, 8, e.dataResolution) && FieldAt(b, 27, 8, e.indexOffset)
            && FieldAt(b, 35, 8, e.payloadOffset)
  {
    hide Pack, FieldAt, Width;
    var l, f, at := FLUX_ENTRY_LAYOUT, FluxFields(e), [0, 4, 6, 7, 11, 19, 27, 35];
    Field(l, f, at, 0);
    Field(l, f, at, 1);
    Field(l, f, at, 2);
    Field(l, f, at, 3);
    Field(l, f, at, 4);
    Field(l, f, at, 5);
    Field(l, f, at, 6);
    Field(l, f, at, 7);
    WidthAll(FLUX_ENTRY_LAYOUT, [0, 4, 6, 7, 11, 19, 27, 35]);
  }

  /** A capture: the header of its data stream, then the stored bytes. */
  lemma CaptureLayout(crc: Crc64, c: Compressor, raw: Bytes)
    requires |raw| < 0x1_0000_0000
    ensures var b := CaptureBlock(crc, c, raw);
            var p := PackTable(c, raw);
            && |b| >= 32 && b[32..] == p.properties + p.payload
            && FieldAt(b, 0, 4, 0x4C505344) && FieldAt(b, 4, 2, 89) && FieldAt(b, 6, 2, p.compression)
            && FieldAt(b, 8, 4, |b| - 32) && FieldAt(b, 12, 4, |raw|)
            && FieldAt(b, 16, 8, if |b| == 32 then 0 else crc(b[32..]))
            && FieldAt(b, 24, 8, if raw == [] then 0 else crc(raw))
  {
    hide Pack, FieldAt, PackTable, Width;
    var b, p := CaptureBlock(crc, c, raw), PackTable(c, raw);
    var offsets, fields := [0, 4, 6, 8, 12, 16, 24], PayloadFields(crc, p, raw);
    var head, stored := Pack(PAYLOAD_HEADER_LAYOUT, fields), p.properties + p.payload;
    var l, f, at := PAYLOAD_HEADER_LAYOUT, fields, [0, 4, 6, 8, 12, 16, 24];
    Field(l, f, at, 0);
    Field(l, f, at, 1);
    Field(l, f, at, 2);
    Field(l, f, at, 3);
    Field(l, f, at, 4);
    Field(l, f, at, 5);
    Field(l, f, at, 6);
    WidthAll(PAYLOAD_HEADER_LAYOUT, offsets);
    assert b == head + stored;
    assert b[32..] == stored;
    forall i | 0 <= i < 7 ensures FieldAt(b, offsets[i], PAYLOAD_HEADER_LAYOUT[i], fields[i]) {
      FieldKept(head, stored, offsets[i], PAYLOAD_HEADER_LAYOUT[i], fields[i]);
    }
  }

  lemma DumpHeaderLayout(h: DumpHeader)
    ensures var b := EncodeDumpHeader(h);
            && |b| == 18
            && FieldAt(b, 0, 4, h.identifier) && FieldAt(b, 4, 2, h.entries) && FieldAt(b, 6, 4, h.length)
            && FieldAt(b, 10, 8, h.crc64)
  {
    hide Pack, FieldAt, Width;
    var l, f, at := DUMP_HEADER_LAYOUT, [h.identifier, h.entries, h.length, h.crc64], [0, 4, 6, 10];
    Field(l, f, at, 0);
    Field(l, f, at, 1);
    Field(l, f, at, 2);
    Field(l, f, at, 3);
  }
}
