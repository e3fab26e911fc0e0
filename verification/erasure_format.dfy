/** The packed records of the erasure-coding layer (include/aaruformat/structs/erasure.h, data.h):
    block headers, stripe descriptors, the map of stripe groups and the recovery footer, as they are
    serialized and as they are parsed.
 */
module ErasureFormat {
  import opened Wrappers
  import opened Octet
  import opened ImageFile

  const ERASURE_MAP_BLOCK: nat := 0x424D4345
  const FOOTER_MAGIC: nat := 0x52464D4345525641

  const BLOCK_HEADER_LAYOUT: seq<nat> := [4, 2, 2, 4, 4, 4, 8, 8]
  const DATA_ENTRY_LAYOUT: seq<nat> := [8, 4, 8]
  const GROUP_LAYOUT: seq<nat> := [1, 2, 2, 4, 4, 2]
  const MAP_HEADER_LAYOUT: seq<nat> := [4, 1, 1, 2, 8, 8, 8, 8]
  const FOOTER_LAYOUT: seq<nat> := [8, 8, 8]
  const BLOCK_HEADER_SIZE: nat := 36
  const DATA_ENTRY_SIZE: nat := 20
  const GROUP_SIZE: nat := 15
  const MAP_HEADER_SIZE: nat := 40
  const FOOTER_SIZE: nat := 179

  lemma {:induction false} WidthFrom(layout: seq<nat>, i: nat)
    requires i < |layout|
    ensures Width(layout[i..]) == layout[i] + Width(layout[i + 1..])
  {
    assert layout[i..][1..] == layout[i + 1..];
  }

  lemma Widths()
    ensures Width(BLOCK_HEADER_LAYOUT) == BLOCK_HEADER_SIZE
    ensures Width(DATA_ENTRY_LAYOUT) == DATA_ENTRY_SIZE
    ensures Width(GROUP_LAYOUT) == GROUP_SIZE
    ensures Width(MAP_HEADER_LAYOUT) == MAP_HEADER_SIZE
    ensures Width(FOOTER_LAYOUT) == 24
  {
    hide Width;
    WidthOfEight(BLOCK_HEADER_LAYOUT);
    WidthOfEight(MAP_HEADER_LAYOUT);
    WidthOfThree(DATA_ENTRY_LAYOUT);
    WidthOfThree(FOOTER_LAYOUT);
    WidthOfThree(GROUP_LAYOUT[3..]);
    WidthFrom(GROUP_LAYOUT, 0);
    WidthFrom(GROUP_LAYOUT, 1);
    WidthFrom(GROUP_LAYOUT, 2);
    assert GROUP_LAYOUT[0..] == GROUP_LAYOUT;
  }

  lemma WidthOfThree(l: seq<nat>)
    requires |l| == 3
    ensures Width(l) == l[0] + l[1] + l[2]
  {
    WidthFrom(l, 0);
    WidthFrom(l, 1);
    WidthFrom(l, 2);
    assert l[0..] == l;
    assert l[3..] == [];
  }

  lemma WidthOfEight(l: seq<nat>)
    requires |l| == 8
    ensures Width(l) == l[0] + l[1] + l[2] + l[3] + l[4] + l[5] + l[6] + l[7]
  {
    WidthOfThree(l[5..]);
    WidthFrom(l, 0);
    WidthFrom(l, 1);
    WidthFrom(l, 2);
    WidthFrom(l, 3);
    WidthFrom(l, 4);
    assert l[0..] == l;
  }

  // ---- Block headers ----

  datatype BlockHeader = BlockHeader(identifier: nat, kind: nat, compression: nat, sectorSize: nat,
                                     cmpLength: nat, length: nat, cmpCrc64: nat, crc64: nat)
  {
    function Fields(): (f: seq<nat>)
      ensures |f| == |BLOCK_HEADER_LAYOUT|
    {
      [identifier, kind, compression, sectorSize, cmpLength, length, cmpCrc64, crc64]
    }

    function Encoded(): (b: Bytes)
      ensures |b| == BLOCK_HEADER_SIZE
    {
      Widths();
      Pack(BLOCK_HEADER_LAYOUT, Fields())
    }

    /** Every field fits its width. */
    ghost predicate Valid() {
      && identifier < 0x1_0000_0000 && kind < 0x1_0000 && compression < 0x1_0000 && sectorSize < 0x1_0000_0000
      && cmpLength < 0x1_0000_0000 && length < 0x1_0000_0000
      && cmpCrc64 < 0x1_0000_0000_0000_0000 && crc64 < 0x1_0000_0000_0000_0000
    }
  }

  function DecodeBlockHeader(b: Bytes): BlockHeader
    requires BLOCK_HEADER_SIZE == |b|
  {
    Widths();
    var f := Unpack(BLOCK_HEADER_LAYOUT, b);
    BlockHeader(f[0], f[1], f[2], f[3], f[4], f[5], f[6], f[7])
  }

  lemma BlockHeaderRoundTrip(h: BlockHeader)
    requires h.Valid()
    ensures DecodeBlockHeader(h.Encoded()) == h
  {
    hide Pack, Unpack, Width, Pow256;
    Powers();
    Widths();
    UnpackPack(BLOCK_HEADER_LAYOUT, h.Fields());
  }

  // ---- Stripe descriptors ----

  datatype DataEntry = DataEntry(offset: nat, onDiskSize: nat, shardCrc64: nat)
  {
    function Encoded(): (b: Bytes)
      ensures |b| == DATA_ENTRY_SIZE
    {
      Widths();
      Pack(DATA_ENTRY_LAYOUT, [offset, onDiskSize, shardCrc64])
    }

    ghost predicate Valid() {
      offset < 0x1_0000_0000_0000_0000 && onDiskSize < 0x1_0000_0000 && shardCrc64 < 0x1_0000_0000_0000_0000
    }
  }

  function DecodeDataEntry(b: Bytes): DataEntry
    requires DATA_ENTRY_SIZE == |b|
  {
    Widths();
    var f := Unpack(DATA_ENTRY_LAYOUT, b);
    DataEntry(f[0], f[1], f[2])
  }

  lemma DataEntryRoundTrip(e: DataEntry)
    requires e.Valid()
    ensures DecodeDataEntry(e.Encoded()) == e
  {
    hide Pack, Unpack, Width, Pow256;
    Powers();
    Widths();
    UnpackPack(DATA_ENTRY_LAYOUT, [e.offset, e.onDiskSize, e.shardCrc64]);
  }

  /** One stripe: its data blocks in order and the offsets of its parity blocks. */
  datatype Stripe = Stripe(entries: seq<DataEntry>, parity: seq<nat>)
  {
    ghost predicate Valid(m: nat) {
      && |entries| < 0x1_0000 && |parity| == m
      && (forall i :: 0 <= i < |entries| ==> entries[i].Valid())
      && (forall i :: 0 <= i < m ==> parity[i] < 0x1_0000_0000_0000_0000)
    }
  }

  function EncodeEntries(entries: seq<DataEntry>): (b: Bytes)
    ensures |b| == |entries| * DATA_ENTRY_SIZE
  {
    if |entries| == 0 then [] else EncodeEntries(entries[..|entries| - 1]) + entries[|entries| - 1].Encoded()
  }

  function EncodeOffsets(offsets: seq<nat>): (b: Bytes)
    ensures |b| == |offsets| * 8
  {
    if |offsets| == 0 then [] else EncodeOffsets(offsets[..|offsets| - 1]) + LittleEndian(offsets[|offsets| - 1], 8)
  }

  function EncodeStripe(s: Stripe): (b: Bytes)
    ensures |b| == 2 + |s.entries| * DATA_ENTRY_SIZE + |s.parity| * 8
  {
    LittleEndian(|s.entries|, 2) + EncodeEntries(s.entries) + EncodeOffsets(s.parity)
  }

  function EncodeStripes(stripes: seq<Stripe>): Bytes {
    if |stripes| == 0 then [] else EncodeStripes(stripes[..|stripes| - 1]) + EncodeStripe(stripes[|stripes| - 1])
  }

  lemma {:induction false} StripesPrefix(stripes: seq<Stripe>, i: nat)
    requires i <= |stripes|
    ensures EncodeStripes(stripes[..i]) <= EncodeStripes(stripes)
    decreases |stripes|
  {
    if i == |stripes| {
      assert stripes[..i] == stripes;
    } else {
      var shorter := stripes[..|stripes| - 1];
      assert shorter[..i] == stripes[..i];
      StripesPrefix(shorter, i);
    }
  }

  lemma NextStripe(stripes: seq<Stripe>, i: nat)
    requires i < |stripes|
    ensures EncodeStripes(stripes[..i + 1]) == EncodeStripes(stripes[..i]) + EncodeStripe(stripes[i])
  {
    assert stripes[..i + 1][..i] == stripes[..i];
  }

  // ---- Stripe groups ----

  datatype GroupDescriptor = GroupDescriptor(groupType: nat, k: nat, m: nat, shardSize: nat, stripeCount: nat,
                                             interleaveDepth: nat)
  {
    function Encoded(): (b: Bytes)
      ensures |b| == GROUP_SIZE
    {
      Widths();
      Pack(GROUP_LAYOUT, [groupType, k, m, shardSize, stripeCount, interleaveDepth])
    }

    ghost predicate Valid() {
      && groupType < 0x100 && k < 0x1_0000 && m < 0x1_0000 && shardSize < 0x1_0000_0000
      && stripeCount < 0x1_0000_0000 && interleaveDepth < 0x1_0000
    }
  }

  function DecodeGroupDescriptor(b: Bytes): GroupDescriptor
    requires GROUP_SIZE == |b|
  {
    Widths();
    var f := Unpack(GROUP_LAYOUT, b);
    GroupDescriptor(f[0], f[1], f[2], f[3], f[4], f[5])
  }

  lemma GroupRoundTrip(g: GroupDescriptor)
    requires g.Valid()
    ensures DecodeGroupDescriptor(g.Encoded()) == g
  {
    hide Pack, Unpack, Width, Pow256;
    Powers();
    Widths();
    UnpackPack(GROUP_LAYOUT, [g.groupType, g.k, g.m, g.shardSize, g.stripeCount, g.interleaveDepth]);
  }

  /** A protection group: its descriptor and its stripes. */
  datatype Group = Group(desc: GroupDescriptor, stripes: seq<Stripe>)
  {
    ghost predicate Valid() {
      && desc.Valid() && desc.stripeCount == |stripes|
      && forall i :: 0 <= i < |stripes| ==> stripes[i].Valid(desc.m)
    }
  }

  function EncodeGroup(g: Group): Bytes {
    g.desc.Encoded() + EncodeStripes(g.stripes)
  }

  function EncodeGroups(groups: seq<Group>): Bytes {
    if |groups| == 0 then [] else EncodeGroups(groups[..|groups| - 1]) + EncodeGroup(groups[|groups| - 1])
  }

  lemma {:induction false} GroupsPrefix(groups: seq<Group>, i: nat)
    requires i <= |groups|
    ensures EncodeGroups(groups[..i]) <= EncodeGroups(groups)
    decreases |groups|
  {
    if i == |groups| {
      assert groups[..i] == groups;
    } else {
      var shorter := groups[..|groups| - 1];
      assert shorter[..i] == groups[..i];
      GroupsPrefix(shorter, i);
    }
  }

  lemma NextGroup(groups: seq<Group>, i: nat)
    requires i < |groups|
    ensures EncodeGroups(groups[..i + 1]) == EncodeGroups(groups[..i]) + EncodeGroup(groups[i])
  {
    assert groups[..i + 1][..i] == groups[..i];
  }

  // ---- The map header and the recovery footer ----

  datatype MapHeader = MapHeader(identifier: nat, algorithm: nat, stripeGroupCount: nat, compression: nat,
                                 cmpLength: nat, length: nat, cmpCrc64: nat, crc64: nat)
  {
    function Encoded(): (b: Bytes)
      ensures |b| == MAP_HEADER_SIZE
    {
      Widths();
      Pack(MAP_HEADER_LAYOUT,
           [identifier, algorithm, stripeGroupCount, compression, cmpLength, length, cmpCrc64, crc64])
    }

    ghost predicate Valid() {
      && identifier < 0x1_0000_0000 && algorithm < 0x100 && stripeGroupCount < 0x100 && compression < 0x1_0000
      && cmpLength < 0x1_0000_0000_0000_0000 && length < 0x1_0000_0000_0000_0000
      && cmpCrc64 < 0x1_0000_0000_0000_0000 && crc64 < 0x1_0000_0000_0000_0000
    }
  }

  function DecodeMapHeader(b: Bytes): MapHeader
    requires MAP_HEADER_SIZE == |b|
  {
    Widths();
    var f := Unpack(MAP_HEADER_LAYOUT, b);
    MapHeader(f[0], f[1], f[2], f[3], f[4], f[5], f[6], f[7])
  }

  lemma MapHeaderRoundTrip(h: MapHeader)
    requires h.Valid()
    ensures DecodeMapHeader(h.Encoded()) == h
  {
    hide Pack, Unpack, Width, Pow256;
    Powers();
    Widths();
    UnpackPack(MAP_HEADER_LAYOUT,
               [h.identifier, h.algorithm, h.stripeGroupCount, h.compression, h.cmpLength, h.length, h.cmpCrc64,
                h.crc64]);
  }

  /** The footer that ends a protected image; `backup` is a copy of the image header. */
  datatype Footer = Footer(mapOffset: nat, mapLength: nat, headerCrc64: nat, backup: Bytes, magic: nat)
  {
    function Encoded(): (b: Bytes)
      requires |backup| == IMAGE_HEADER_SIZE
      ensures |b| == FOOTER_SIZE
    {
      Widths();
      Pack(FOOTER_LAYOUT, [mapOffset, mapLength, headerCrc64]) + backup + LittleEndian(magic, 8)
    }

    ghost predicate Valid() {
      && |backup| == IMAGE_HEADER_SIZE && mapOffset < 0x1_0000_0000_0000_0000
      && mapLength < 0x1_0000_0000_0000_0000 && headerCrc64 < 0x1_0000_0000_0000_0000
      && magic < 0x1_0000_0000_0000_0000
    }
  }

  function DecodeFooter(b: Bytes): Footer
    requires FOOTER_SIZE == |b|
  {
    Widths();
    var f := Unpack(FOOTER_LAYOUT, b[..24]);
    Footer(f[0], f[1], f[2], b[24..24 + IMAGE_HEADER_SIZE], Number(b[24 + IMAGE_HEADER_SIZE..]))
  }

  lemma FooterRoundTrip(f: Footer)
    requires f.Valid()
    ensures DecodeFooter(f.Encoded()) == f
  {
    hide Pack, Unpack, Width, Pow256, LittleEndian, Number;
    Powers();
    Widths();
    var head := Pack(FOOTER_LAYOUT, [f.mapOffset, f.mapLength, f.headerCrc64]);
    var b := f.Encoded();
    UnpackPack(FOOTER_LAYOUT, [f.mapOffset, f.mapLength, f.headerCrc64]);
    assert b[..24] == head;
    assert b[24..24 + IMAGE_HEADER_SIZE] == f.backup;
    assert b[24 + IMAGE_HEADER_SIZE..] == LittleEndian(f.magic, 8);
    NumberRoundTrip(f.magic, 8);
  }
}
