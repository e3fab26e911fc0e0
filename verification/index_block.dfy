/** The image header and the index block as they are on disk: what `write_index_block`
    (src/close_write.c) leaves there, and what `process_index_v3` and `verify_index_v3`
    (src/index/index_v3.c) read back.
 */
module IndexBlock {
  import opened Wrappers
  import opened Octet
  import opened ImageFile

  const INDEX_BLOCK_3: nat := 0x33584449
  const INDEX_HEADER_LAYOUT: seq<nat> := [4, 8, 8, 8]
  const INDEX_ENTRY_LAYOUT: seq<nat> := [4, 2, 8]
  const INDEX_HEADER_SIZE: nat := 28
  const INDEX_ENTRY_SIZE: nat := 14

  lemma Widths()
    ensures Width(INDEX_HEADER_LAYOUT) == INDEX_HEADER_SIZE && Width(INDEX_ENTRY_LAYOUT) == INDEX_ENTRY_SIZE
  {
    hide Width;
    WidthCons(8, []);
    WidthCons(8, [8]);
    WidthCons(8, [8, 8]);
    WidthCons(2, [8]);
    WidthCons(4, [2, 8]);
    WidthCons(4, [8, 8, 8]);
    WidthNone();
    assert [8] + [] == [8];
    assert [4] + ([8] + ([8] + [8])) == INDEX_HEADER_LAYOUT;
    assert [4] + ([2] + [8]) == INDEX_ENTRY_LAYOUT;
    assert [8] + [8] == [8, 8] && [8] + [8, 8] == [8, 8, 8] && [2] + [8] == [2, 8];
  }

  // ---- The image header ----

  /** `AaruHeaderV2`, of which the closing writer changes the index offset and the feature bits. */
  datatype ImageHeader = ImageHeader(identity: Bytes, indexOffset: nat, times: Bytes,
                                     compatible: nat, compatibleRo: nat, incompatible: nat)
  {
    ghost predicate Valid() {
      && |identity| == 80 && |times| == 35 && indexOffset < 0x1_0000_0000_0000_0000
      && compatible < 0x1_0000_0000_0000_0000 && compatibleRo < 0x1_0000_0000_0000_0000
      && incompatible < 0x1_0000_0000_0000_0000
    }

    function Encoded(): Bytes {
      identity + LittleEndian(indexOffset, 8) + times
      + LittleEndian(compatible, 8) + LittleEndian(compatibleRo, 8) + LittleEndian(incompatible, 8)
    }
  }

  function DecodeHeader(b: Bytes): ImageHeader
    requires |b| == IMAGE_HEADER_SIZE
  {
    ImageHeader(b[..80], Number(b[80..88]), b[88..123], Number(b[123..131]), Number(b[131..139]), Number(b[139..147]))
  }

  lemma HeaderRoundTrip(h: ImageHeader)
    requires h.Valid()
    ensures |h.Encoded()| == IMAGE_HEADER_SIZE && DecodeHeader(h.Encoded()) == h
  {
    hide LittleEndian, Number, Pow256;
    Powers();
    NumberRoundTrip(h.indexOffset, 8);
    NumberRoundTrip(h.compatible, 8);
    NumberRoundTrip(h.compatibleRo, 8);
    NumberRoundTrip(h.incompatible, 8);
    var b := h.Encoded();
    assert b[..80] == h.identity;
    assert b[80..88] == LittleEndian(h.indexOffset, 8);
    assert b[88..123] == h.times;
    assert b[123..131] == LittleEndian(h.compatible, 8);
    assert b[131..139] == LittleEndian(h.compatibleRo, 8);
    assert b[139..147] == LittleEndian(h.incompatible, 8);
  }

  /** Bit 0 of a feature word set. */
  function WithBit0(features: nat): nat {
    if features % 2 == 0 then features + 1 else features
  }

  // ---- The index block ----

  function EncodeEntry(e: IndexEntry): (b: Bytes)
    ensures |b| == INDEX_ENTRY_SIZE
  {
    Widths();
    Pack(INDEX_ENTRY_LAYOUT, [e.blockType, e.dataType, e.offset])
  }

  function DecodeEntry(b: Bytes): IndexEntry
    requires |b| == INDEX_ENTRY_SIZE
  {
    Widths();
    var f := Unpack(INDEX_ENTRY_LAYOUT, b);
    IndexEntry(f[0], f[1], f[2])
  }

  ghost predicate EntryFits(e: IndexEntry) {
    e.blockType < 0x1_0000_0000 && e.dataType < 0x1_0000 && e.offset < 0x1_0000_0000_0000_0000
  }

  ghost predicate IndexFits(index: seq<IndexEntry>) {
    |index| < 0x1_0000_0000_0000_0000 && forall i :: 0 <= i < |index| ==> EntryFits(index[i])
  }

  lemma EntryRoundTrip(e: IndexEntry)
    requires EntryFits(e)
    ensures DecodeEntry(EncodeEntry(e)) == e
  {
    hide Pack, Unpack, Width, Pow256;
    Powers();
    Widths();
    UnpackPack(INDEX_ENTRY_LAYOUT, [e.blockType, e.dataType, e.offset]);
  }

  function EncodeIndex(index: seq<IndexEntry>): (b: Bytes)
    ensures |b| == INDEX_ENTRY_SIZE * |index|
  {
    if |index| == 0 then [] else EncodeIndex(index[..|index| - 1]) + EncodeEntry(index[|index| - 1])
  }

  function IndexHeader(crc: Crc64, index: seq<IndexEntry>): (b: Bytes)
    ensures |b| == INDEX_HEADER_SIZE
  {
    Widths();
    Pack(INDEX_HEADER_LAYOUT, [INDEX_BLOCK_3, |index|, if |index| > 0 then crc(EncodeIndex(index)) else 0, 0])
  }

  function DecodeIndexHeader(b: Bytes): (f: seq<nat>)
    requires |b| == INDEX_HEADER_SIZE
    ensures |f| == 4
  {
    Widths();
    Unpack(INDEX_HEADER_LAYOUT, b)
  }

  function IndexBytes(crc: Crc64, index: seq<IndexEntry>): Bytes {
    IndexHeader(crc, index) + EncodeIndex(index)
  }

  lemma IndexHeaderRoundTrip(crc: Crc64, index: seq<IndexEntry>)
    requires |index| < 0x1_0000_0000_0000_0000
    ensures DecodeIndexHeader(IndexHeader(crc, index))
            == [INDEX_BLOCK_3, |index|, if |index| > 0 then crc(EncodeIndex(index)) else 0, 0]
  {
    hide Pack, Unpack, Width, Pow256, EncodeIndex;
    Powers();
    Widths();
    UnpackPack(INDEX_HEADER_LAYOUT, [INDEX_BLOCK_3, |index|, if |index| > 0 then crc(EncodeIndex(index)) else 0, 0]);
  }

  lemma {:induction false} EntryOfIndex(index: seq<IndexEntry>, i: nat)
    requires i < |index|
    ensures EncodeIndex(index)[INDEX_ENTRY_SIZE * i..INDEX_ENTRY_SIZE * i + INDEX_ENTRY_SIZE] == EncodeEntry(index[i])
    decreases |index|
  {
    hide Pack;
    var n := |index| - 1;
    var from, to := INDEX_ENTRY_SIZE * i, INDEX_ENTRY_SIZE * i + INDEX_ENTRY_SIZE;
    SliceOfConcat(EncodeIndex(index[..n]), EncodeEntry(index[n]), from, to);
    if i < n {
      EntryOfIndex(index[..n], i);
    }
  }

  // ---- The reader ----

  /** `process_index_v3`: the entries of the index at `at`, or nothing when the header is not one, an
      entry is missing, or an entry leads to a subindex (which this writer never produces). */
  method ProcessIndex(file: Bytes, at: nat) returns (index: Option<seq<IndexEntry>>)
    ensures index.Some? ==>
              && at + INDEX_HEADER_SIZE + INDEX_ENTRY_SIZE * |index.value| <= |file|
              && DecodeIndexHeader(file[at..at + INDEX_HEADER_SIZE])[..2] == [INDEX_BLOCK_3, |index.value|]
    ensures IndexAt(file, at) == index
  {
    hide DecodeIndexHeader, DecodeEntry;
    var h := ReadAt(file, at, INDEX_HEADER_SIZE);
    if h.None? {
      return None;
    }
    var header := DecodeIndexHeader(h.value);
    if header[0] != INDEX_BLOCK_3 {
      return None;
    }
    var entries: seq<IndexEntry> := [];
    var position := at + INDEX_HEADER_SIZE;
    var i := 0;
    while i < header[1]
      invariant 0 <= i <= header[1] && |entries| == i && position == at + INDEX_HEADER_SIZE + INDEX_ENTRY_SIZE * i
      invariant i > 0 ==> position <= |file|
      invariant EntriesAt(file, at + INDEX_HEADER_SIZE, i) == Some(entries)
    {
      var b := ReadAt(file, position, INDEX_ENTRY_SIZE);
      if b.None? || DecodeEntry(b.value).blockType == INDEX_BLOCK_3 {
        EntriesStop(file, at + INDEX_HEADER_SIZE, i, header[1]);
        return None;
      }
      entries := entries + [DecodeEntry(b.value)];
      position := position + INDEX_ENTRY_SIZE;
      i := i + 1;
    }
    index := Some(entries);
  }

  /** The first `n` entries at `position`. */
  function EntriesAt(file: Bytes, position: nat, n: nat): (r: Option<seq<IndexEntry>>)
    ensures r.Some? ==> |r.value| == n
  {
    if n == 0 then Some([]) else
      var rest := EntriesAt(file, position, n - 1);
      var b := ReadAt(file, position + INDEX_ENTRY_SIZE * (n - 1), INDEX_ENTRY_SIZE);
      if rest.None? || b.None? || DecodeEntry(b.value).blockType == INDEX_BLOCK_3 then None
      else Some(rest.value + [DecodeEntry(b.value)])
  }

  function IndexAt(file: Bytes, at: nat): Option<seq<IndexEntry>> {
    var h := ReadAt(file, at, INDEX_HEADER_SIZE);
    if h.None? || DecodeIndexHeader(h.value)[0] != INDEX_BLOCK_3 then None
    else EntriesAt(file, at + INDEX_HEADER_SIZE, DecodeIndexHeader(h.value)[1])
  }

  lemma {:induction false} EntriesStop(file: Bytes, position: nat, i: nat, n: nat)
    requires i < n && EntriesAt(file, position, i + 1).None?
    ensures EntriesAt(file, position, n).None?
    decreases n
  {
    if i + 1 < n {
      EntriesStop(file, position, i, n - 1);
    }
  }

  /** `verify_index_v3`: the index is whole and its checksum matches. */
  method VerifyIndex(file: Bytes, at: nat, crc: Crc64) returns (ok: bool)
    ensures ok <==> IndexIntact(file, at, crc)
  {
    hide DecodeIndexHeader;
    var h := ReadAt(file, at, INDEX_HEADER_SIZE);
    if h.None? {
      return false;
    }
    var header := DecodeIndexHeader(h.value);
    if header[0] != INDEX_BLOCK_3 {
      return false;
    }
    var entries: Bytes := [];
    if header[1] > 0 {
      var b := ReadAt(file, at + INDEX_HEADER_SIZE, INDEX_ENTRY_SIZE * header[1]);
      if b.None? {
        return false;
      }
      entries := b.value;
    }
    ok := crc(entries) == header[2];
  }

  ghost predicate IndexIntact(file: Bytes, at: nat, crc: Crc64) {
    && at + INDEX_HEADER_SIZE <= |file|
    && var h := DecodeIndexHeader(file[at..at + INDEX_HEADER_SIZE]);
       && h[0] == INDEX_BLOCK_3
       && at + INDEX_HEADER_SIZE + INDEX_ENTRY_SIZE * h[1] <= |file|
       && crc(file[at + INDEX_HEADER_SIZE..at + INDEX_HEADER_SIZE + INDEX_ENTRY_SIZE * h[1]]) == h[2]
  }

  // ---- What was written reads back ----

  lemma IndexParts(file: Bytes, at: nat, crc: Crc64, index: seq<IndexEntry>)
    requires Holds(file, at, IndexBytes(crc, index))
    ensures Holds(file, at, IndexHeader(crc, index))
    ensures Holds(file, at + INDEX_HEADER_SIZE, EncodeIndex(index))
  {
    hide *;
    IndexSizes(crc, index);
    IndexBytesAre(crc, index);
    HoldsSplit(file, at, IndexHeader(crc, index), EncodeIndex(index));
  }

  lemma IndexBytesAre(crc: Crc64, index: seq<IndexEntry>)
    ensures IndexBytes(crc, index) == IndexHeader(crc, index) + EncodeIndex(index)
  {
  }

  lemma IndexSizes(crc: Crc64, index: seq<IndexEntry>)
    ensures |IndexHeader(crc, index)| == INDEX_HEADER_SIZE && |EncodeIndex(index)| == INDEX_ENTRY_SIZE * |index|
  {
  }

  lemma {:induction false} EntriesReadBack(file: Bytes, position: nat, index: seq<IndexEntry>, n: nat)
    requires n <= |index| && position + INDEX_ENTRY_SIZE * |index| <= |file| && IndexFits(index)
    requires file[position..position + INDEX_ENTRY_SIZE * |index|] == EncodeIndex(index)
    requires forall i :: 0 <= i < |index| ==> index[i].blockType != INDEX_BLOCK_3
    ensures EntriesAt(file, position, n) == Some(index[..n])
    decreases n
  {
    hide EncodeEntry, DecodeEntry, EncodeIndex;
    if n > 0 {
      var i := n - 1;
      EntriesReadBack(file, position, index, i);
      EntryOfIndex(index, i);
      EntryRoundTrip(index[i]);
      SliceOfSlice(file, position, INDEX_ENTRY_SIZE * |index|, INDEX_ENTRY_SIZE * i,
                   INDEX_ENTRY_SIZE * i + INDEX_ENTRY_SIZE);
      assert index[..n] == index[..i] + [index[i]];
    }
  }

  /** The index that was written is the index that is read, and it passes its checksum. */
  lemma IndexReadsBack(file: Bytes, at: nat, crc: Crc64, index: seq<IndexEntry>)
    requires Holds(file, at, IndexBytes(crc, index)) && IndexFits(index)
    requires forall i :: 0 <= i < |index| ==> index[i].blockType != INDEX_BLOCK_3
    ensures IndexAt(file, at) == Some(index)
    ensures |index| > 0 ==> IndexIntact(file, at, crc)
  {
    hide IndexHeader, EncodeIndex, IndexBytes, DecodeIndexHeader, EntriesAt, Holds;
    IndexParts(file, at, crc, index);
    IndexSizes(crc, index);
    HoldsExactly(file, at, IndexHeader(crc, index), INDEX_HEADER_SIZE);
    HoldsExactly(file, at + INDEX_HEADER_SIZE, EncodeIndex(index), INDEX_ENTRY_SIZE * |index|);
    IndexHeaderRoundTrip(crc, index);
    EntriesReadBack(file, at + INDEX_HEADER_SIZE, index, |index|);
    assert index[..|index|] == index;
  }
}
