/** Deduplication tables on disk: their header, how `write_cached_secondary_ddt` and
    `write_single_level_ddt` (src/close_write.c) compress and lay them out, and how the reader
    (src/ddt/ddt_v2.c) loads a secondary table and looks a sector up in it.
 */
module DdtTable {
  import opened Wrappers
  import opened Octet
  import opened ImageFile
  import opened IndexBlock

  const DDT_HEADER_SIZE: nat := 85
  const DDT_HEADER_LAYOUT: seq<nat> := [4, 2, 2, 1, 1, 8, 4, 8, 4, 8, 1, 1, 1, 8, 8, 8, 8, 8]

  lemma {:induction false} WidthOf(layout: seq<nat>, i: nat, total: nat)
    requires i <= |layout| && total == SumTo(layout, i)
    ensures Width(layout[..i]) == total
    decreases i
  {
    if i > 0 {
      WidthOf(layout, i - 1, SumTo(layout, i - 1));
      assert layout[..i] == layout[..i - 1] + [layout[i - 1]];
      WidthPush(layout[..i - 1], layout[i - 1]);
    }
  }

  function SumTo(layout: seq<nat>, i: nat): nat
    requires i <= |layout|
  {
    if i == 0 then 0 else SumTo(layout, i - 1) + layout[i - 1]
  }

  lemma {:induction false} WidthPush(layout: seq<nat>, w: nat)
    ensures Width(layout + [w]) == Width(layout) + w
  {
    if |layout| == 0 {
      assert [w][1..] == [];
      assert layout + [w] == [w];
    } else {
      assert (layout + [w])[1..] == layout[1..] + [w];
      WidthPush(layout[1..], w);
    }
  }

  lemma DdtHeaderWidth()
    ensures Width(DDT_HEADER_LAYOUT) == DDT_HEADER_SIZE
  {
    hide Width;
    var l := DDT_HEADER_LAYOUT;
    assert SumTo(l, 6) == 18;
    assert SumTo(l, 12) == 44;
    assert SumTo(l, 18) == 85;
    WidthOf(l, 18, 85);
    assert l[..18] == l;
  }

  datatype DdtHeader = DdtHeader(identifier: nat, kind: nat, compression: nat, levels: nat, tableLevel: nat,
                                 previousLevelOffset: nat, negative: nat, blocks: nat, overflow: nat, start: nat,
                                 blockAlignmentShift: nat, dataShift: nat, tableShift: nat, entries: nat,
                                 cmpLength: nat, length: nat, cmpCrc64: nat, crc64: nat)
  {
    function Fields(): (f: seq<nat>)
      ensures |f| == |DDT_HEADER_LAYOUT|
    {
      [identifier, kind, compression, levels, tableLevel, previousLevelOffset, negative, blocks, overflow, start,
       blockAlignmentShift, dataShift, tableShift, entries, cmpLength, length, cmpCrc64, crc64]
    }

    function Encoded(): (b: Bytes)
      ensures |b| == DDT_HEADER_SIZE
    {
      DdtHeaderWidth();
      Pack(DDT_HEADER_LAYOUT, Fields())
    }

    ghost predicate Valid() {
      Fits(DDT_HEADER_LAYOUT, Fields())
    }
  }

  function DecodeDdtHeader(b: Bytes): DdtHeader
    requires |b| == DDT_HEADER_SIZE
  {
    DdtHeaderWidth();
    var f := Unpack(DDT_HEADER_LAYOUT, b);
    DdtHeader(f[0], f[1], f[2], f[3], f[4], f[5], f[6], f[7], f[8], f[9], f[10], f[11], f[12], f[13], f[14], f[15],
              f[16], f[17])
  }

  lemma DdtHeaderRoundTrip(h: DdtHeader)
    requires h.Valid()
    ensures DecodeDdtHeader(h.Encoded()) == h
  {
    hide Pack, Unpack, Width, Fits;
    DdtHeaderWidth();
    UnpackPack(DDT_HEADER_LAYOUT, h.Fields());
  }

  // ---- Table contents ----

  function EncodeTable(table: seq<nat>): (b: Bytes)
    ensures |b| == 8 * |table|
  {
    if |table| == 0 then [] else EncodeTable(table[..|table| - 1]) + LittleEndian(table[|table| - 1], 8)
  }

  lemma {:induction false} SlotOfTable(table: seq<nat>, i: nat)
    requires i < |table|
    ensures EncodeTable(table)[8 * i..8 * i + 8] == LittleEndian(table[i], 8)
    decreases |table|
  {
    hide LittleEndian;
    var n := |table| - 1;
    SizeOfNumber(table[n], 8);
    SliceOfConcat(EncodeTable(table[..n]), LittleEndian(table[n], 8), 8 * i, 8 * i + 8);
    if i < n {
      SlotOfTable(table[..n], i);
    }
  }

  lemma SizeOfNumber(n: nat, w: nat)
    ensures |LittleEndian(n, w)| == w
  {
  }

  lemma SlotReadsBack(table: seq<nat>, i: nat)
    requires i < |table| && table[i] < 0x1_0000_0000_0000_0000
    ensures Number(EncodeTable(table)[8 * i..8 * i + 8]) == table[i]
  {
    hide EncodeTable, LittleEndian, Number, Pow256;
    SlotOfTable(table, i);
    Powers();
    NumberRoundTrip(table[i], 8);
  }

  // ---- Compression ----

  /** The compressor as the writer uses it: what it makes of a buffer (nothing when it fails), the
      properties it reports, and the bytes the writer emits past an LZMA payload. */
  datatype Compressor = Compressor(enabled: bool, zstd: bool, encode: Bytes -> Bytes, properties: Bytes -> Bytes,
                                   surplus: Bytes -> Bytes)
  {
    ghost predicate Valid() {
      && (forall b :: |properties(b)| == LZMA_PROPERTIES_LENGTH)
      && (forall b :: |surplus(b)| == LZMA_PROPERTIES_LENGTH)
    }
  }

  /** What the reader calls: payload and properties to the original bytes. */
  type Decompressor = (Bytes, Bytes) -> Option<Bytes>

  /** The compressor's output for this buffer counts its size in 32 bits, and where it is smaller than the
      buffer the decompressor undoes it. */
  ghost predicate Undoes(d: Decompressor, c: Compressor, b: Bytes) {
    && |c.encode(b)| < 0x1_0000_0000
    && (0 < |c.encode(b)| < |b| ==> d(c.encode(b), if c.zstd then [] else c.properties(b)) == Some(b))
    && (|c.encode(b)| == 0 < |b| ==> c.zstd)
  }

  /** Sixteen zeros, which `Toy` stores in one byte. */
  const ZEROS: Bytes := [0, 0, 0, 0, 0, 0, 0, 0, 0, 0, 0, 0, 0, 0, 0, 0]

  /** A compressor of the LZMA kind, with properties and surplus, that shortens one buffer. */
  function Toy(): Compressor {
    var five: Bytes := [0, 0, 0, 0, 0];
    Compressor(true, false, (b: Bytes) => if b == ZEROS then [7] else b, (b: Bytes) => five, (b: Bytes) => five)
  }

  function UndoToy(): Decompressor {
    (payload: Bytes, properties: Bytes) => if payload == [7] then Some(ZEROS) else None
  }

  /** What is assumed of LZMA can be met: by this pair, which really compresses. */
  lemma LzmaPairExists()
    ensures Toy().Valid() && !Toy().zstd
    ensures forall b :: |b| < 0x1_0000_0000 ==> Undoes(UndoToy(), Toy(), b)
    ensures PackTable(Toy(), ZEROS).compression == COMPRESSION_LZMA && |PackTable(Toy(), ZEROS).payload| == 1
  {
    ToyUndone();
    assert |ZEROS| == 16;
    hide ZEROS, Undoes, UndoToy;
    PacksShorter(Toy(), ZEROS);
  }

  lemma PacksShorter(c: Compressor, data: Bytes)
    requires c.enabled && !c.zstd && |c.encode(data)| < |data| < 0x1_0000_0000
    ensures PackTable(c, data).compression == COMPRESSION_LZMA && PackTable(c, data).payload == c.encode(data)
  {
  }

  lemma ToyUndone()
    ensures forall b :: |b| < 0x1_0000_0000 ==> Undoes(UndoToy(), Toy(), b)
    ensures Toy().encode(ZEROS) == [7]
  {
    forall b: Bytes | |b| < 0x1_0000_0000
      ensures Undoes(UndoToy(), Toy(), b)
    {
      if b != ZEROS { assert Toy().encode(b) == b; }
    }
  }

  /** How a table is stored: `payload` is covered by the checksum, `cmpLength` is what the header says,
      and `surplus` follows without being counted. */
  datatype Packed = Packed(compression: nat, properties: Bytes, payload: Bytes, surplus: Bytes)
  {
    function CmpLength(): nat {
      |properties| + |payload|
    }

    function Body(): Bytes {
      properties + payload + surplus
    }
  }

  /** Compress a table of less than 4 GiB, falling back to storing it. */
  function PackTable(c: Compressor, data: Bytes): (p: Packed)
    requires |data| < 0x1_0000_0000
    ensures p.compression == COMPRESSION_NONE ==> p == Packed(COMPRESSION_NONE, [], data, [])
    ensures p.CmpLength() <= |p.Body()|
  {
    var out := c.encode(data);
    var size := if c.zstd && |out| == 0 then |data| else |out| % 0x1_0000_0000;
    if !c.enabled || size >= |data| then Packed(COMPRESSION_NONE, [], data, [])
    else if c.zstd then Packed(COMPRESSION_ZSTD, [], out[..size], [])
    else Packed(COMPRESSION_LZMA, c.properties(data), out[..size], c.surplus(data))
  }

  /** The header fields that depend on the contents. */
  function Described(h: DdtHeader, crc: Crc64, p: Packed, data: Bytes): DdtHeader {
    h.(compression := p.compression, cmpLength := p.CmpLength(), length := |data|, cmpCrc64 := crc(p.payload),
       crc64 := crc(data))
  }

  function TableBlock(h: DdtHeader, crc: Crc64, c: Compressor, data: Bytes): Bytes
    requires |data| < 0x1_0000_0000
  {
    var p := PackTable(c, data);
    Described(h, crc, p, data).Encoded() + p.Body()
  }

  // ---- The reader ----

  /** The contents that follow a table header, decompressed. */
  function ReadBody(file: Bytes, from: nat, compression: nat, cmpLength: nat, length: nat,
                    d: Decompressor): Option<Bytes> {
    if compression == COMPRESSION_LZMA then
      if cmpLength <= LZMA_PROPERTIES_LENGTH then None else
        var props := ReadAt(file, from, LZMA_PROPERTIES_LENGTH);
        var payload := ReadAt(file, from + LZMA_PROPERTIES_LENGTH, cmpLength - LZMA_PROPERTIES_LENGTH);
        if props.None? || payload.None? then None else d(payload.value, props.value)
    else if compression == COMPRESSION_ZSTD then
      var payload := ReadAt(file, from, cmpLength);
      if payload.None? then None else d(payload.value, [])
    else if compression == COMPRESSION_NONE then ReadAt(file, from, length)
    else None
  }

  /** The table block at `at`: its header must be of one of the `types` and its contents must match the
      checksum. */
  function LoadTable(file: Bytes, at: nat, types: set<nat>, d: Decompressor, crc: Crc64): Option<Bytes> {
    var hb := ReadAt(file, at, DDT_HEADER_SIZE);
    if hb.None? then None else
      var h := DecodeDdtHeader(hb.value);
      if h.identifier !in types || h.kind != TYPE_USER_DATA then None else
        var data := ReadBody(file, at + DDT_HEADER_SIZE, h.compression, h.cmpLength, h.length, d);
        if data.None? || |data.value| != h.length || crc(data.value) != h.crc64 then None else data
  }

  lemma BlockParts(file: Bytes, at: nat, h: Bytes, p: Packed)
    requires Holds(file, at, h + p.Body()) && |h| == DDT_HEADER_SIZE
    ensures Holds(file, at, h) && Holds(file, at + DDT_HEADER_SIZE, p.properties)
    ensures Holds(file, at + DDT_HEADER_SIZE + |p.properties|, p.payload)
  {
    hide Holds;
    HoldsSplit(file, at, h, p.Body());
    assert p.Body() == p.properties + (p.payload + p.surplus);
    HoldsSplit(file, at + DDT_HEADER_SIZE, p.properties, p.payload + p.surplus);
    HoldsSplit(file, at + DDT_HEADER_SIZE + |p.properties|, p.payload, p.surplus);
  }

  /** The fields that the packing fills in fit their widths. */
  ghost predicate DescribedFits(h: DdtHeader, crc: Crc64, c: Compressor, data: Bytes)
    requires |data| < 0x1_0000_0000
  {
    Described(h, crc, PackTable(c, data), data).Valid()
  }

  lemma BodyReadsBack(file: Bytes, from: nat, c: Compressor, d: Decompressor, data: Bytes)
    requires 0 < |data| < 0x1_0000_0000 && c.Valid() && Undoes(d, c, data)
    requires var p := PackTable(c, data);
             Holds(file, from, p.properties) && Holds(file, from + |p.properties|, p.payload)
    ensures var p := PackTable(c, data); ReadBody(file, from, p.compression, p.CmpLength(), |data|, d) == Some(data)
  {
    hide Undoes, PackTable, Holds;
    var p := PackTable(c, data);
    PackedUndone(c, d, data);
    HoldsExactly(file, from, p.properties, |p.properties|);
    HoldsExactly(file, from + |p.properties|, p.payload, |p.payload|);
  }

  /** A table that was written loads again, whatever was emitted after it: the declared length covers
      exactly the properties and the payload. */
  lemma TableReadsBack(file: Bytes, at: nat, h: DdtHeader, crc: Crc64, c: Compressor, d: Decompressor, data: Bytes,
                       types: set<nat>)
    requires 0 < |data| < 0x1_0000_0000 && c.Valid() && Undoes(d, c, data) && DescribedFits(h, crc, c, data)
    requires Holds(file, at, TableBlock(h, crc, c, data)) && h.identifier in types && h.kind == TYPE_USER_DATA
    ensures LoadTable(file, at, types, d, crc) == Some(data)
  {
    hide Holds, DdtHeader.Encoded, DdtHeader.Valid, Undoes, PackTable, LoadTable, Compressor.Valid, DescribedFits;
    var p := PackTable(c, data);
    var full := Described(h, crc, p, data);
    HeaderSize(full);
    BlockParts(file, at, full.Encoded(), p);
    PartsReadBack(file, at, h, crc, c, d, data, types);
  }

  /** Header, properties and payload are all a reader needs. */
  lemma PartsReadBack(file: Bytes, at: nat, h: DdtHeader, crc: Crc64, c: Compressor, d: Decompressor, data: Bytes,
                      types: set<nat>)
    requires 0 < |data| < 0x1_0000_0000 && c.Valid() && Undoes(d, c, data) && DescribedFits(h, crc, c, data)
    requires var p := PackTable(c, data);
             Holds(file, at, Described(h, crc, p, data).Encoded()) && Holds(file, at + DDT_HEADER_SIZE, p.properties)
             && Holds(file, at + DDT_HEADER_SIZE + |p.properties|, p.payload)
    requires h.identifier in types && h.kind == TYPE_USER_DATA
    ensures LoadTable(file, at, types, d, crc) == Some(data)
  {
    hide Holds, DdtHeader.Encoded, DecodeDdtHeader, DdtHeader.Valid, Undoes, PackTable, ReadBody, Compressor.Valid;
    var full := Described(h, crc, PackTable(c, data), data);
    HeaderSize(full);
    DdtHeaderRoundTrip(full);
    HoldsExactly(file, at, full.Encoded(), DDT_HEADER_SIZE);
    BodyReadsBack(file, at + DDT_HEADER_SIZE, c, d, data);
  }

  /** Exactly which table blocks load, whoever wrote them: user data of one of the types, stored, or compressed by
      either method, LZMA behind its five bytes of properties, and of the length and with the checksum declared. */
  lemma LoadedExactlyWhen(file: Bytes, at: nat, h: DdtHeader, stored: Bytes, types: set<nat>, d: Decompressor,
                          crc: Crc64)
    requires h.Valid() && Holds(file, at, h.Encoded() + stored)
    requires |stored| == if h.compression == 0 then h.length else h.cmpLength
    ensures var data := if |stored| == 0 then None
                        else if h.compression == 0 then Some(stored)
                        else if h.compression == 1 && |stored| > 5 then d(stored[5..], stored[..5])
                        else if h.compression == 4 then d(stored, [])
                        else None;
            var accepted := h.identifier in types && h.kind == 1 && data.Some? && |data.value| == h.length
                            && crc(data.value) == h.crc64;
            LoadTable(file, at, types, d, crc) == if accepted then data else None
  {
    hide Holds, DdtHeader.Encoded, DecodeDdtHeader, DdtHeader.Valid;
    HeaderSize(h);
    DdtHeaderRoundTrip(h);
    HoldsSplit(file, at, h.Encoded(), stored);
    HoldsExactly(file, at, h.Encoded(), DDT_HEADER_SIZE);
    var from := at + DDT_HEADER_SIZE;
    HoldsExactly(file, from, stored, |stored|);
    if h.compression == 1 && |stored| > 5 {
      assert stored == stored[..5] + stored[5..];
      HoldsSplit(file, from, stored[..5], stored[5..]);
      HoldsExactly(file, from, stored[..5], 5);
      HoldsExactly(file, from + 5, stored[5..], |stored| - 5);
    }
  }

  lemma StoredBody(file: Bytes, from: nat, cmpLength: nat, d: Decompressor, data: Bytes)
    requires Holds(file, from, data) && |data| > 0
    ensures ReadBody(file, from, COMPRESSION_NONE, cmpLength, |data|, d) == Some(data)
  {
    HoldsExactly(file, from, data, |data|);
  }

  /** A table that was stored without compression loads again. */
  lemma StoredReadsBack(file: Bytes, at: nat, h: DdtHeader, crc: Crc64, d: Decompressor, data: Bytes, types: set<nat>)
    requires Holds(file, at, h.Encoded() + data) && |data| > 0 && h.Valid()
    requires h.identifier in types && h.kind == TYPE_USER_DATA && h.compression == COMPRESSION_NONE
    requires h.length == |data| && h.crc64 == crc(data)
    ensures LoadTable(file, at, types, d, crc) == Some(data)
  {
    hide Holds, DdtHeader.Encoded, DecodeDdtHeader, DdtHeader.Valid, ReadBody;
    HeaderSize(h);
    DdtHeaderRoundTrip(h);
    HoldsSplit(file, at, h.Encoded(), data);
    HoldsExactly(file, at, h.Encoded(), DDT_HEADER_SIZE);
    StoredBody(file, at + DDT_HEADER_SIZE, h.cmpLength, d, data);
  }

  lemma HeaderSize(h: DdtHeader)
    ensures |h.Encoded()| == DDT_HEADER_SIZE
  {
  }

  lemma PackedUndone(c: Compressor, d: Decompressor, data: Bytes)
    requires 0 < |data| < 0x1_0000_0000 && c.Valid() && Undoes(d, c, data)
    ensures var p := PackTable(c, data);
            && (p.compression == COMPRESSION_LZMA ==>
                  |p.properties| == LZMA_PROPERTIES_LENGTH && d(p.payload, p.properties) == Some(data))
            && (p.compression == COMPRESSION_ZSTD ==> p.properties == [] && d(p.payload, []) == Some(data))
            && (p.compression == COMPRESSION_NONE ==> p.properties == [] && p.payload == data)
            && (p.compression == COMPRESSION_LZMA || p.compression == COMPRESSION_ZSTD
                || p.compression == COMPRESSION_NONE)
            && |p.payload| > 0
  {
    var out := c.encode(data);
    assert out[..|out|] == out;
  }
}
