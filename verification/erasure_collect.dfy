/** Which blocks of a closed image the batch groups protect, and how many bytes of each
    (`ec_collect_blocks_by_type` and the metadata and index sections of `ec_finalize`, src/erasure.c).
 */
module ErasureCollect {
  import opened Wrappers
  import opened Octet
  import opened ImageFile
  import opened ErasureFormat
  import opened ErasureMap
  import opened ErasureWrite
  import opened BlockIndex
  import opened IndexBlock
  import opened DdtTable

  const DDT_VERSION_1: nat := 0x2A544444
  const INDEX_BLOCK_1: nat := 0x58444E49
  const INDEX_BLOCK_2: nat := 0x32584449
  const TYPE_PARITY_DDT: nat := 105
  const TYPE_PARITY_DDT_PRIMARY: nat := 106
  const TYPE_PARITY_METADATA: nat := 107
  const SIZE_WHEN_LAST: nat := 4096

  /** The blocks collected for one batch group. */
  datatype BatchRequest = BatchRequest(groupType: nat, parityType: nat, offsets: seq<nat>, sizes: seq<nat>)
  {
    ghost predicate WellFormed() {
      && |offsets| == |sizes| && GROUP_DATA < groupType <= GROUP_INDEX && IsParityType(parityType)
      && forall i :: 0 <= i < |sizes| ==> sizes[i] < 0x1_0000_0000
    }
  }

  /** The requested blocks are in the file, whole. */
  ghost predicate BatchReadable(file: Bytes, req: BatchRequest) {
    && req.WellFormed()
    && forall i :: 0 <= i < |req.sizes| ==> 0 < req.sizes[i] && req.offsets[i] + req.sizes[i] <= |file|
  }

  /** Which index entries a group takes: those of a block type, or whatever no other group takes. */
  datatype Selection = OfType(blockType: nat) | Metadata

  predicate Selects(s: Selection, e: IndexEntry) {
    match s
    case OfType(blockType) => e.blockType == blockType
    case Metadata =>
      && !(e.blockType == DATA_BLOCK && (e.dataType == TYPE_USER_DATA || IsParityType(e.dataType)))
      && e.blockType !in {DDT_PRIMARY, DDT_SECONDARY, DDT_VERSION_1}
      && e.blockType !in {INDEX_BLOCK_1, INDEX_BLOCK_2, INDEX_BLOCK_3}
  }

  /** The selected entries, in index order. */
  function Selected(index: seq<IndexEntry>, s: Selection): (r: seq<IndexEntry>) {
    if |index| == 0 then [] else
      var n := |index| - 1;
      Selected(index[..n], s) + (if Selects(s, index[n]) then [index[n]] else [])
  }

  lemma {:induction false} SelectedMembers(index: seq<IndexEntry>, s: Selection, e: IndexEntry)
    ensures e in Selected(index, s) <==> e in index && Selects(s, e)
  {
    if |index| > 0 {
      var n := |index| - 1;
      SelectedMembers(index[..n], s, e);
      assert index == index[..n] + [index[n]];
    }
  }

  lemma {:induction false} SelectedPrefix(index: seq<IndexEntry>, s: Selection, i: nat)
    requires i <= |index|
    ensures Selected(index[..i], s) <= Selected(index, s)
    decreases |index|
  {
    if i < |index| {
      var n := |index| - 1;
      SelectedPrefix(index[..n], s, i);
      assert index[..n][..i] == index[..i];
    } else {
      assert index[..i] == index;
    }
  }

  /** Parity blocks indexed in the meantime change no selection. */
  lemma {:induction false} SelectionStays(index: seq<IndexEntry>, index': seq<IndexEntry>, s: Selection, from: nat,
                                          to: nat)
    requires OnlyParityAdded(index, index', from, to) && s != OfType(DATA_BLOCK)
    ensures Selected(index', s) == Selected(index, s)
    decreases |index'|
  {
    if |index'| == |index| {
      assert index' == index;
    } else {
      var n := |index'| - 1;
      assert index'[..n][..|index|] == index'[..|index|];
      SelectionStays(index, index'[..n], s, from, to);
    }
  }

  /** The two passes over the index: count, then gather. */
  method GatherEntries(index: seq<IndexEntry>, s: Selection) returns (entries: seq<IndexEntry>)
    ensures entries == Selected(index, s)
  {
    hide Selects;
    var n := |index|;
    var count := 0;
    assert index[..n] == index;
    for i := 0 to n
      invariant count == |Selected(index[..i], s)|
    {
      assert index[..i + 1][..i] == index[..i];
      if Selects(s, index[i]) { count := count + 1; }
    }
    entries := [];
    var i := 0;
    while i < n && |entries| < count
      invariant i <= n && entries == Selected(index[..i], s)
    {
      assert index[..i + 1][..i] == index[..i];
      if Selects(s, index[i]) { entries := entries + [index[i]]; }
      i := i + 1;
    }
    SelectedPrefix(index, s, i);
  }

  // ---- Sizes ----

  function U32(n: nat): (r: nat)
    ensures r < 0x1_0000_0000
    ensures n < 0x1_0000_0000 ==> r == n
  {
    n % 0x1_0000_0000
  }

  /** Header size plus the payload length in the header; the header size alone when it cannot be read. */
  function DeclaredSize(file: Bytes, blockType: nat, offset: nat): nat {
    if blockType == DDT_PRIMARY || blockType == DDT_SECONDARY then
      var h := ReadAt(file, offset, DDT_HEADER_SIZE);
      if h.Some? then DDT_HEADER_SIZE + DecodeDdtHeader(h.value).cmpLength else DDT_HEADER_SIZE
    else
      var h := ReadAt(file, offset, BLOCK_HEADER_SIZE);
      if h.Some? then BLOCK_HEADER_SIZE + DecodeBlockHeader(h.value).cmpLength else BLOCK_HEADER_SIZE
  }

  const NO_OFFSET: nat := 0xFFFF_FFFF_FFFF_FFFF

  /** The least offset above `offset` in the index, or the largest number when there is none. */
  function NextOffset(index: seq<IndexEntry>, offset: nat): nat {
    if |index| == 0 then NO_OFFSET else
      var rest, last := NextOffset(index[..|index| - 1], offset), index[|index| - 1].offset;
      if last > offset && last < rest then last else rest
  }

  lemma {:induction false} NextIsLeast(index: seq<IndexEntry>, offset: nat)
    ensures forall i :: 0 <= i < |index| && index[i].offset > offset ==>
              NextOffset(index, offset) <= index[i].offset || index[i].offset > NO_OFFSET
    ensures NextOffset(index, offset) <= NO_OFFSET
    ensures NextOffset(index, offset) == NO_OFFSET
            || exists i :: 0 <= i < |index| && index[i].offset == NextOffset(index, offset) > offset
  {
    if |index| > 0 {
      var n := |index| - 1;
      NextIsLeast(index[..n], offset);
      assert forall i :: 0 <= i < n ==> index[..n][i] == index[i];
      var rest := NextOffset(index[..n], offset);
      if NextOffset(index, offset) == rest && rest != NO_OFFSET {
        var k :| 0 <= k < n && index[..n][k].offset == rest > offset;
        assert index[k].offset == rest;
      }
    }
  }

  /** The gap to the next block, which covers the block. */
  function GapSize(index: seq<IndexEntry>, indexOffset: nat, offset: nat): nat {
    var next := NextOffset(index, offset);
    if next != NO_OFFSET && next > offset then next - offset
    else if indexOffset > offset then indexOffset - offset
    else SIZE_WHEN_LAST
  }

  function SizeOf(file: Bytes, index: seq<IndexEntry>, indexOffset: nat, s: Selection, e: IndexEntry): nat {
    if s.OfType? || e.blockType == DATA_BLOCK then U32(DeclaredSize(file, e.blockType, e.offset))
    else U32(GapSize(index, indexOffset, e.offset))
  }

  /** The loop that looks for the next block. */
  method FindNext(index: seq<IndexEntry>, offset: nat) returns (next: nat)
    ensures next == NextOffset(index, offset)
  {
    next := NO_OFFSET;
    for j := 0 to |index|
      invariant next == NextOffset(index[..j], offset)
    {
      assert index[..j + 1][..j] == index[..j];
      if index[j].offset > offset && index[j].offset < next {
        next := index[j].offset;
      }
    }
    assert index[..|index|] == index;
  }

  // ---- Requests ----

  function Offsets(entries: seq<IndexEntry>): (r: seq<nat>)
    ensures |r| == |entries| && forall i :: 0 <= i < |r| ==> r[i] == entries[i].offset
  {
    seq(|entries|, i requires 0 <= i < |entries| => entries[i].offset)
  }

  function Sizes(file: Bytes, index: seq<IndexEntry>, indexOffset: nat, s: Selection,
                 entries: seq<IndexEntry>): (r: seq<nat>)
    ensures |r| == |entries| && forall i :: 0 <= i < |r| ==> r[i] == SizeOf(file, index, indexOffset, s, entries[i])
  {
    seq(|entries|, i requires 0 <= i < |entries| => SizeOf(file, index, indexOffset, s, entries[i]))
  }

  function Request(file: Bytes, index: seq<IndexEntry>, indexOffset: nat, s: Selection, groupType: nat,
                   parityType: nat): BatchRequest {
    var entries := Selected(index, s);
    BatchRequest(groupType, parityType, Offsets(entries), Sizes(file, index, indexOffset, s, entries))
  }

  /** What is collected for a group.  The metadata group is left out when it has more than 255 - M
      blocks, the index group when there is no index to read. */
  function CollectRequest(file: Bytes, index: seq<IndexEntry>, indexOffset: nat, m: nat, groupType: nat): BatchRequest {
    if groupType == GROUP_DDT_SECONDARY then Request(file, index, indexOffset, OfType(DDT_SECONDARY), groupType,
                                                     TYPE_PARITY_DDT)
    else if groupType == GROUP_DDT_PRIMARY then Request(file, index, indexOffset, OfType(DDT_PRIMARY), groupType,
                                                        TYPE_PARITY_DDT_PRIMARY)
    else if groupType == GROUP_METADATA then
      var r := Request(file, index, indexOffset, Metadata, groupType, TYPE_PARITY_METADATA);
      if |r.offsets| + m <= 255 then r else r.(offsets := [], sizes := [])
    else
      var h := ReadAt(file, indexOffset, INDEX_HEADER_SIZE);
      if indexOffset > 0 && h.Some? then
        BatchRequest(GROUP_INDEX, TYPE_PARITY_INDEX, [indexOffset],
                     [U32(INDEX_HEADER_SIZE + INDEX_ENTRY_SIZE * DecodeIndexHeader(h.value)[1])])
      else BatchRequest(GROUP_INDEX, TYPE_PARITY_INDEX, [], [])
  }

  lemma CollectedIsWellFormed(file: Bytes, index: seq<IndexEntry>, indexOffset: nat, m: nat, groupType: nat)
    requires GROUP_DATA < groupType <= GROUP_INDEX
    ensures CollectRequest(file, index, indexOffset, m, groupType).WellFormed()
    ensures CollectRequest(file, index, indexOffset, m, groupType).groupType == groupType
  {
    hide DeclaredSize, GapSize, DecodeIndexHeader, Selected;
  }

  /** Gather the entries of a selection and measure each. */
  method CollectSelected(file: Bytes, index: seq<IndexEntry>, indexOffset: nat, s: Selection, groupType: nat,
                         parityType: nat)
    returns (req: BatchRequest)
    ensures req == Request(file, index, indexOffset, s, groupType, parityType)
  {
    hide DeclaredSize, NextOffset, Selected;
    var entries := GatherEntries(index, s);
    var offsets: seq<nat>, sizes: seq<nat> := [], [];
    for i := 0 to |entries|
      invariant offsets == Offsets(entries)[..i] && sizes == Sizes(file, index, indexOffset, s, entries)[..i]
    {
      var e := entries[i];
      var size;
      if s.OfType? || e.blockType == DATA_BLOCK {
        size := DeclaredSize(file, e.blockType, e.offset);
      } else {
        var next := FindNext(index, e.offset);
        if next != NO_OFFSET && next > e.offset {
          size := next - e.offset;
        } else if indexOffset > e.offset {
          size := indexOffset - e.offset;
        } else {
          size := SIZE_WHEN_LAST;
        }
      }
      offsets := offsets + [e.offset];
      sizes := sizes + [U32(size)];
    }
    req := BatchRequest(groupType, parityType, offsets, sizes);
  }

  /** The four collections, in the order of the group types. */
  method Collect(file: Bytes, index: seq<IndexEntry>, indexOffset: nat, m: nat,
                 groupType: nat) returns (req: BatchRequest)
    ensures req == CollectRequest(file, index, indexOffset, m, groupType)
  {
    hide Request, DecodeIndexHeader, U32;
    match groupType {
      case 1 => req := CollectSelected(file, index, indexOffset, OfType(DDT_SECONDARY), groupType, TYPE_PARITY_DDT);
      case 2 => req := CollectSelected(file, index, indexOffset, OfType(DDT_PRIMARY), groupType,
                                       TYPE_PARITY_DDT_PRIMARY);
      case 3 =>
        req := CollectSelected(file, index, indexOffset, Metadata, groupType, TYPE_PARITY_METADATA);
        if |req.offsets| + m > 255 {
          req := req.(offsets := [], sizes := []);
        }
      case _ =>
        req := BatchRequest(GROUP_INDEX, TYPE_PARITY_INDEX, [], []);
        if indexOffset > 0 {
          var h := ReadAt(file, indexOffset, INDEX_HEADER_SIZE);
          if h.Some? {
            var entries := DecodeIndexHeader(h.value)[1];
            req := req.(offsets := [indexOffset], sizes := [U32(INDEX_HEADER_SIZE + INDEX_ENTRY_SIZE * entries)]);
          }
        }
    }
  }

  // ---- Which blocks are read whole ----

  /** The header of the block can be read and the block it declares is in the file. */
  ghost predicate Whole(file: Bytes, e: IndexEntry) {
    && DeclaredSize(file, e.blockType, e.offset) < 0x1_0000_0000
    && e.offset + DeclaredSize(file, e.blockType, e.offset) <= |file|
  }

  lemma DeclaredSizeStays(file: Bytes, longer: Bytes, e: IndexEntry)
    requires Whole(file, e) && file <= longer
    ensures DeclaredSize(longer, e.blockType, e.offset) == DeclaredSize(file, e.blockType, e.offset) > 0
    ensures Whole(longer, e)
  {
    hide DecodeDdtHeader, DecodeBlockHeader;
    assert longer[..|file|] == file;
    if e.offset + DDT_HEADER_SIZE <= |file| {
      assert longer[e.offset..e.offset + DDT_HEADER_SIZE] == file[e.offset..e.offset + DDT_HEADER_SIZE];
    }
    if e.offset + BLOCK_HEADER_SIZE <= |file| {
      assert longer[e.offset..e.offset + BLOCK_HEADER_SIZE] == file[e.offset..e.offset + BLOCK_HEADER_SIZE];
    }
  }

  /** Some later block, or the end of the file, is less than 4 GiB away. */
  ghost predicate Spanned(file: Bytes, index: seq<IndexEntry>, indexOffset: nat, e: IndexEntry, end: nat) {
    || (exists j :: 0 <= j < |index| && e.offset < index[j].offset < e.offset + 0x1_0000_0000)
    || (e.offset < indexOffset <= |file| && end < e.offset + 0x1_0000_0000)
  }

  /** Everything the index leads to can be collected from the file and read, up to file size `end`. */
  ghost predicate Collectable(file: Bytes, index: seq<IndexEntry>, indexOffset: nat, end: nat) {
    && |file| <= end < NO_OFFSET
    && (forall i :: 0 <= i < |index| ==> index[i].offset <= |file|)
    && (forall i :: 0 <= i < |index| && (index[i].blockType in {DDT_PRIMARY, DDT_SECONDARY}
                                         || (Selects(Metadata, index[i]) && index[i].blockType == DATA_BLOCK)) ==>
          Whole(file, index[i]))
    && (forall i :: 0 <= i < |index| && Selects(Metadata, index[i]) && index[i].blockType != DATA_BLOCK ==>
          Spanned(file, index, indexOffset, index[i], end))
    && (indexOffset > 0 ==> IndexWhole(file, indexOffset))
  }

  ghost predicate IndexWhole(file: Bytes, indexOffset: nat) {
    && indexOffset + INDEX_HEADER_SIZE <= |file|
    && var header := DecodeIndexHeader(file[indexOffset..indexOffset + INDEX_HEADER_SIZE]);
       var size := INDEX_HEADER_SIZE + INDEX_ENTRY_SIZE * header[1];
       size < 0x1_0000_0000 && indexOffset + size <= |file|
  }

  /** The gap that stands for the size of a metadata block ends inside the file. */
  lemma GapFits(start: Bytes, startIndex: seq<IndexEntry>, indexOffset: nat, e: IndexEntry, end: nat,
                file: Bytes, index: seq<IndexEntry>)
    requires Spanned(start, startIndex, indexOffset, e, end) && start <= file && |file| <= end < NO_OFFSET
    requires forall i :: 0 <= i < |startIndex| ==> startIndex[i].offset <= |start|
    requires OnlyParityAdded(startIndex, index, |start|, |file|)
    ensures 0 < GapSize(index, indexOffset, e.offset) < 0x1_0000_0000
    ensures e.offset + GapSize(index, indexOffset, e.offset) <= |file|
  {
    hide NextOffset;
    NextIsLeast(index, e.offset);
    var next := NextOffset(index, e.offset);
    forall i | 0 <= i < |index|
      ensures index[i].offset <= |file|
    {
      if i < |startIndex| { assert index[i] == startIndex[i]; }
    }
    if j :| 0 <= j < |startIndex| && e.offset < startIndex[j].offset < e.offset + 0x1_0000_0000 {
      assert index[j] == startIndex[j];
    }
  }

  /** What the batch groups collect from a sound image can be read whole. */
  lemma CollectedIsReadable(start: Bytes, startIndex: seq<IndexEntry>, indexOffset: nat, end: nat,
                            file: Bytes, index: seq<IndexEntry>, m: nat, groupType: nat)
    requires Collectable(start, startIndex, indexOffset, end) && start <= file && |file| <= end
    requires OnlyParityAdded(startIndex, index, |start|, |file|) && GROUP_DATA < groupType <= GROUP_INDEX
    ensures BatchReadable(file, CollectRequest(file, index, indexOffset, m, groupType))
  {
    hide DeclaredSize, GapSize, Selected, Spanned, Whole, DecodeIndexHeader;
    CollectedIsWellFormed(file, index, indexOffset, m, groupType);
    if groupType == GROUP_DDT_SECONDARY {
      SelectionIsReadable(start, startIndex, indexOffset, end, file, index, OfType(DDT_SECONDARY));
    } else if groupType == GROUP_DDT_PRIMARY {
      SelectionIsReadable(start, startIndex, indexOffset, end, file, index, OfType(DDT_PRIMARY));
    } else if groupType == GROUP_METADATA {
      SelectionIsReadable(start, startIndex, indexOffset, end, file, index, Metadata);
    } else if indexOffset > 0 {
      assert file[..|start|] == start;
      assert file[indexOffset..indexOffset + INDEX_HEADER_SIZE] == start[indexOffset..indexOffset + INDEX_HEADER_SIZE];
    }
  }

  lemma SelectionIsReadable(start: Bytes, startIndex: seq<IndexEntry>, indexOffset: nat, end: nat,
                            file: Bytes, index: seq<IndexEntry>, s: Selection)
    requires Collectable(start, startIndex, indexOffset, end) && start <= file && |file| <= end
    requires OnlyParityAdded(startIndex, index, |start|, |file|)
    requires s == Metadata || s == OfType(DDT_SECONDARY) || s == OfType(DDT_PRIMARY)
    ensures forall i :: 0 <= i < |Selected(index, s)| ==>
              var e := Selected(index, s)[i]; var size := SizeOf(file, index, indexOffset, s, e);
              0 < size && e.offset + size <= |file|
  {
    hide DeclaredSize, GapSize, Selected, Spanned, IndexWhole;
    SelectionStays(startIndex, index, s, |start|, |file|);
    forall i | 0 <= i < |Selected(index, s)|
      ensures var e := Selected(index, s)[i]; var size := SizeOf(file, index, indexOffset, s, e);
              0 < size && e.offset + size <= |file|
    {
      var e := Selected(index, s)[i];
      SelectedMembers(startIndex, s, e);
      if s.OfType? || e.blockType == DATA_BLOCK {
        assert Whole(start, e);
        DeclaredSizeStays(start, file, e);
      } else {
        GapFits(start, startIndex, indexOffset, e, end, file, index);
      }
    }
  }
}
