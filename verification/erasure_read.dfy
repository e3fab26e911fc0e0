/** The read path of src/erasure.c: loading the map from the end of a possibly damaged image and
    rebuilding damaged blocks from the surviving shards of their stripe.
 */
module ErasureRead {
  import opened Wrappers
  import opened Octet
  import opened Linear
  import opened ReedSolomon
  import opened ImageFile
  import opened ErasureFormat
  import opened ErasureMap
  import opened Parity
  import opened ErasureWrite
  import opened ErasureFinalize

  // ---- Finding the map ----

  /** Decompression: any function of the method, the compressed bytes and the length asked for. */
  type Inflate = (nat, Bytes, nat) -> Bytes

  /** The payload of a map: as it is, or decompressed.  With no compression and a declared stored length
      that differs from the length, the source leaves its buffer partly unset or writes past it, and with
      an unknown method leaves it unset; here such a map has no payload. */
  function MapPayload(disk: Bytes, inflate: Inflate, at: nat, h: MapHeader): Option<Bytes> {
    var stored := ReadAt(disk, at, h.cmpLength);
    if stored.None? then None
    else if h.compression == COMPRESSION_NONE then if h.cmpLength == h.length then stored else None
    else if h.compression == COMPRESSION_LZMA || h.compression == COMPRESSION_ZSTD then
      var out := inflate(h.compression, stored.value, h.length);
      if |out| == h.length then Some(out) else None
    else None
  }

  /** The payload of the map that the footer leads to, and its header; nothing when any check fails. */
  function FindMap(disk: Bytes, crc: Crc64, inflate: Inflate): Option<(MapHeader, Bytes)> {
    if |disk| < FOOTER_SIZE then None else
      var footer := DecodeFooter(disk[|disk| - FOOTER_SIZE..]);
      if footer.magic != FOOTER_MAGIC then None else
        var head := ReadAt(disk, footer.mapOffset, MAP_HEADER_SIZE);
        if head.None? then None else
          var h := DecodeMapHeader(head.value);
          if h.identifier != ERASURE_MAP_BLOCK || h.length == 0 || h.length > MAP_SIZE_LIMIT then None else
            var payload := MapPayload(disk, inflate, footer.mapOffset + MAP_HEADER_SIZE, h);
            if payload.None? || MapChecksum(crc, payload.value) != h.crc64 then None else
              Some((h, payload.value))
  }

  /** Recovery is available when data or metadata stripes were loaded. */
  function Available(t: Tables): bool {
    |t.data.stripes| > 0 || |t.meta.stripes| > 0
  }

  // ---- Which shards are used ----

  /** A data shard is used when it can be read and the checksum of its on-disk bytes matches. */
  function Accepted(disk: Bytes, crc: Crc64, e: DataEntry): bool {
    var b := ReadAt(disk, e.offset, e.onDiskSize);
    b.Some? && crc(b.value) == e.shardCrc64
  }

  /** How parity is read: raw block recovery takes the payload as it is, data block recovery decompresses
      it when the header says so. */
  type Decode = Option<Inflate>

  /** What follows a header that declares LZMA: the properties, then what is left of the declared length,
      counted in 32 bits; or one that declares Zstandard: the declared length.  The source uses whatever
      the decoder makes of them, up to the shard size. */
  function CompressedShard(disk: Bytes, inflate: Inflate, at: nat, h: BlockHeader, shardSize: nat): Option<Bytes> {
    if h.compression != COMPRESSION_LZMA && h.compression != COMPRESSION_ZSTD then None else
      var props := ReadAt(disk, at, LZMA_PROPERTIES_LENGTH);
      var rest := if h.compression == COMPRESSION_LZMA
                  then ReadAt(disk, at + LZMA_PROPERTIES_LENGTH, (h.cmpLength - LZMA_PROPERTIES_LENGTH) % 0x1_0000_0000)
                  else ReadAt(disk, at, h.cmpLength);
      if rest.None? || (h.compression == COMPRESSION_LZMA && props.None?) then None else
        var stored := if h.compression == COMPRESSION_LZMA then props.value + rest.value else rest.value;
        var out := inflate(h.compression, stored, shardSize);
        Some(if |out| > shardSize then out[..shardSize] else out)
  }

  /** A parity shard is used when its header and payload can be read; it is not checksummed.  Raw block
      recovery never looks at the compression field. */
  function ParityShard(disk: Bytes, decode: Decode, offset: nat, shardSize: nat): Option<Bytes> {
    var head := ReadAt(disk, offset, BLOCK_HEADER_SIZE);
    if head.None? then None else
      var h := DecodeBlockHeader(head.value);
      var at := offset + BLOCK_HEADER_SIZE;
      if decode.None? || h.compression == COMPRESSION_NONE
      then ReadAt(disk, at, if h.length > shardSize then shardSize else h.length)
      else CompressedShard(disk, decode.value, at, h, shardSize)
  }

  /** Exactly which compressed parity blocks give a shard on the data path: of either method, LZMA behind its five
      bytes of properties; the shard is what the decoder makes of them, cut at the shard size. */
  lemma CompressedShardExactlyWhen(disk: Bytes, inflate: Inflate, offset: nat, shardSize: nat, h: BlockHeader,
                                   stored: Bytes)
    requires h.Valid() && h.compression != 0 && |stored| == h.cmpLength && Holds(disk, offset, h.Encoded() + stored)
    requires h.compression == 1 && |stored| < 5 ==> |disk| < 0xFFFF_FFFB
    ensures var out := inflate(h.compression, stored, shardSize);
            var used := (h.compression == 1 && |stored| > 5) || (h.compression == 4 && |stored| > 0);
            ParityShard(disk, Some(inflate), offset, shardSize)
            == if used then Some(if |out| > shardSize then out[..shardSize] else out) else None
  {
    hide BlockHeader.Encoded, DecodeBlockHeader, Holds;
    BlockHeaderRoundTrip(h);
    BlockHeaderSize(h);
    HoldsSplit(disk, offset, h.Encoded(), stored);
    HoldsExactly(disk, offset, h.Encoded(), BLOCK_HEADER_SIZE);
    var at := offset + BLOCK_HEADER_SIZE;
    HoldsExactly(disk, at, stored, |stored|);
    if h.compression == 1 && |stored| > 5 {
      assert stored == stored[..5] + stored[5..];
      HoldsSplit(disk, at, stored[..5], stored[5..]);
      HoldsExactly(disk, at, stored[..5], 5);
      HoldsExactly(disk, at + 5, stored[5..], |stored| - 5);
    }
  }

  lemma BlockHeaderSize(h: BlockHeader)
    ensures |h.Encoded()| == BLOCK_HEADER_SIZE
  {
  }

  /** A stripe as loaded, fit for its group: the source relies on it without checking. */
  predicate UsableStripe(s: ReadStripe, t: GroupTable) {
    && s.entries.Some? && |s.entries.value| == s.actualK <= t.k && |s.parity| == t.m
    && forall j :: 0 <= j < s.actualK ==> s.entries.value[j].onDiskSize <= t.shardSize
  }

  function ShardPresent(disk: Bytes, crc: Crc64, decode: Decode, t: GroupTable, s: ReadStripe, i: nat): bool
    requires UsableStripe(s, t) && i < t.k + t.m
  {
    if i < s.actualK then Accepted(disk, crc, s.entries.value[i])
    else if i < t.k then true
    else ParityShard(disk, decode, s.parity[i - t.k], t.shardSize).Some?
  }

  /** The present flags of the K + M shards. */
  function PresentFlags(disk: Bytes, crc: Crc64, decode: Decode, t: GroupTable, s: ReadStripe): (r: seq<bool>)
    requires UsableStripe(s, t)
    ensures |r| == t.k + t.m && forall i :: 0 <= i < |r| ==> r[i] == ShardPresent(disk, crc, decode, t, s, i)
  {
    seq(t.k + t.m, i requires 0 <= i < t.k + t.m => ShardPresent(disk, crc, decode, t, s, i))
  }

  /** The bytes read into a shard that is used, before padding. */
  function ShardContent(disk: Bytes, crc: Crc64, decode: Decode, t: GroupTable, s: ReadStripe, i: nat): Bytes
    requires UsableStripe(s, t) && i < t.k + t.m && ShardPresent(disk, crc, decode, t, s, i)
  {
    if i < s.actualK then ReadAt(disk, s.entries.value[i].offset, s.entries.value[i].onDiskSize).value
    else if i < t.k then []
    else ParityShard(disk, decode, s.parity[i - t.k], t.shardSize).value
  }

  lemma ContentFits(disk: Bytes, crc: Crc64, decode: Decode, t: GroupTable, s: ReadStripe, i: nat)
    requires UsableStripe(s, t) && i < t.k + t.m && ShardPresent(disk, crc, decode, t, s, i)
    ensures |ShardContent(disk, crc, decode, t, s, i)| <= t.shardSize
  {
    hide DecodeBlockHeader;
  }

  /** Read every shard of a stripe. */
  method ReadShards(disk: Bytes, crc: Crc64, decode: Decode, t: GroupTable, s: ReadStripe)
    returns (shards: seq<array<byte>>, present: seq<bool>)
    requires UsableStripe(s, t)
    ensures Buffers(shards, t.k + t.m, t.shardSize) && forall i :: 0 <= i < t.k + t.m ==> fresh(shards[i])
    ensures present == PresentFlags(disk, crc, decode, t, s)
    ensures forall i :: 0 <= i < t.k + t.m && present[i] ==>
              shards[i][..] == Padded(ShardContent(disk, crc, decode, t, s, i), t.shardSize)
  {
    hide Accepted, ParityShard, Padded, ShardContent, ShardPresent, UsableStripe;
    shards, present := [], [];
    for i := 0 to t.k + t.m
      invariant |shards| == |present| == i
      invariant forall j :: 0 <= j < i ==> fresh(shards[j]) && shards[j].Length == t.shardSize
      invariant forall j, l :: 0 <= j < l < i ==> shards[j] != shards[l]
      invariant forall j :: 0 <= j < i ==> present[j] == ShardPresent(disk, crc, decode, t, s, j)
      invariant forall j :: 0 <= j < i && present[j] ==>
                  shards[j][..] == Padded(ShardContent(disk, crc, decode, t, s, j), t.shardSize)
    {
      var used := ShardPresent(disk, crc, decode, t, s, i);
      var shard;
      if used {
        ContentFits(disk, crc, decode, t, s, i);
        shard := ShardBuffer(ShardContent(disk, crc, decode, t, s, i), t.shardSize);
      } else {
        shard := ShardBuffer([], t.shardSize);
      }
      shards := shards + [shard];
      present := present + [used];
    }
  }

  // ---- Damage ----

  /** What recovery needs of a damaged disk: a data shard that passes its check is undamaged, and a
      parity block that can be read is undamaged. */
  ghost predicate DamageShows(disk: Bytes, crc: Crc64, decode: Decode, c: Codec, kind: nat, r: StripeRecord,
                              shardSize: nat)
    requires Shaped(c) && |r.stripe.entries| == |r.contents| && |r.stripe.parity| == c.m
  {
    && (forall j :: 0 <= j < |r.contents| && Accepted(disk, crc, r.stripe.entries[j]) ==>
          Holds(disk, r.stripe.entries[j].offset, r.contents[j]))
    && (forall m :: 0 <= m < c.m && ParityShard(disk, decode, r.stripe.parity[m], shardSize).Some? ==>
          Holds(disk, r.stripe.parity[m], ParityBlock(crc, kind, ParityPayload(c, r.contents, m, MaxSize(r.contents)))))
  }

  /** The table describes the group that the record belongs to. */
  ghost predicate Describes(t: GroupTable, s: ReadStripe, c: Codec, crc: Crc64, pad: nat, kind: nat, r: StripeRecord,
                            written: Bytes) {
    && IsCodec(c) && t.k == c.k && t.m == c.m && s == AsRead(r.stripe)
    && MaxSize(r.contents) <= t.shardSize < 0x1_0000_0000
    && StripeStored(written, c, crc, pad, kind, r) && kind < 0x1_0000
  }

  /** The stripe is a written one, and the damage it suffered shows. */
  ghost predicate Recoverable(disk: Bytes, crc: Crc64, decode: Decode, t: GroupTable, s: ReadStripe, c: Codec, pad: nat,
                              kind: nat,
                              r: StripeRecord, written: Bytes) {
    && Describes(t, s, c, crc, pad, kind, r, written)
    && |r.stripe.entries| == |r.contents| == s.actualK && |r.stripe.parity| == c.m && Shaped(c)
    && DamageShows(disk, crc, decode, c, kind, r, t.shardSize)
  }

  lemma DescribedIsUsable(t: GroupTable, s: ReadStripe, c: Codec, crc: Crc64, pad: nat, kind: nat, r: StripeRecord,
                          written: Bytes)
    requires Describes(t, s, c, crc, pad, kind, r, written)
    ensures UsableStripe(s, t) && Shaped(c)
    ensures |r.stripe.entries| == |r.contents| == s.actualK && |r.stripe.parity| == c.m
  {
    hide ParityBlock, ParityPayload, Holds;
    forall j | 0 <= j < s.actualK
      ensures s.entries.value[j].onDiskSize <= t.shardSize
    {
      assert EntryStored(written, crc, pad, r.stripe.entries[j], r.contents[j]);
    }
  }

  /** A parity block that can be read from an intact place is read as written. */
  lemma IntactParityShard(disk: Bytes, crc: Crc64, decode: Decode, kind: nat, offset: nat, payload: Bytes,
                          shardSize: nat)
    requires 0 < |payload| <= shardSize < 0x1_0000_0000 && kind < 0x1_0000
    requires Holds(disk, offset, ParityBlock(crc, kind, payload))
    ensures ParityShard(disk, decode, offset, shardSize) == Some(payload)
  {
    hide DecodeBlockHeader, BlockHeader.Encoded;
    var h := ParityHeader(crc, kind, payload);
    HoldsSplit(disk, offset, h.Encoded(), payload);
    BlockHeaderRoundTrip(h);
  }

  /** Every shard that is used holds its part of the codeword of the written blocks. */
  lemma UsedShardsAreCodeword(disk: Bytes, crc: Crc64, decode: Decode, t: GroupTable, s: ReadStripe, c: Codec, pad: nat,
                              kind: nat, r: StripeRecord, written: Bytes, i: nat, b: nat)
    requires UsableStripe(s, t) && Recoverable(disk, crc, decode, t, s, c, pad, kind, r, written)
    requires i < t.k + t.m && ShardPresent(disk, crc, decode, t, s, i) && b < t.shardSize
    ensures b < |Padded(ShardContent(disk, crc, decode, t, s, i), t.shardSize)|
    ensures Padded(ShardContent(disk, crc, decode, t, s, i), t.shardSize)[b]
            == CodeByte(c, DataShards(r.contents, c.k, t.shardSize), i, b)
  {
    hide IsCodec, MaxSize, ParityByte, ParityBlock, DecodeBlockHeader, CodeByte, Holds;
    StripeIsCodeword(c, r.contents, t.shardSize, i, b);
    ContentFits(disk, crc, decode, t, s, i);
    var content := ShardContent(disk, crc, decode, t, s, i);
    if i < s.actualK {
      assert EntryStored(written, crc, pad, r.stripe.entries[i], r.contents[i]);
      HeldBytes(disk, r.stripe.entries[i].offset, r.contents[i]);
      assert content == r.contents[i];
    } else if t.k <= i {
      var payload := ParityPayload(c, r.contents, i - t.k, MaxSize(r.contents));
      SomeBlockHasBytes(written, c, crc, pad, kind, r);
      IntactParityShard(disk, crc, decode, kind, s.parity[i - t.k], payload, t.shardSize);
      assert content == payload;
    }
  }

  lemma HeldBytes(disk: Bytes, offset: nat, content: Bytes)
    requires Holds(disk, offset, content)
    ensures offset + |content| <= |disk| && disk[offset..offset + |content|] == content
  {
  }

  lemma SomeBlockHasBytes(written: Bytes, c: Codec, crc: Crc64, pad: nat, kind: nat, r: StripeRecord)
    requires StripeStored(written, c, crc, pad, kind, r)
    ensures 0 < MaxSize(r.contents)
  {
    hide ParityBlock, ParityPayload, Holds;
    assert EntryStored(written, crc, pad, r.stripe.entries[0], r.contents[0]);
  }

  lemma SurvivorsAreCodeword(disk: Bytes, crc: Crc64, decode: Decode, t: GroupTable, s: ReadStripe, c: Codec, pad: nat,
                             kind: nat, r: StripeRecord, written: Bytes, shards: seq<array<byte>>, present: seq<bool>)
    requires UsableStripe(s, t) && Recoverable(disk, crc, decode, t, s, c, pad, kind, r, written)
    requires Buffers(shards, t.k + t.m, t.shardSize) && present == PresentFlags(disk, crc, decode, t, s)
    requires forall i :: 0 <= i < t.k + t.m && present[i] ==>
               shards[i][..] == Padded(ShardContent(disk, crc, decode, t, s, i), t.shardSize)
    ensures t.k == c.k && t.m == c.m && Shaped(c)
    ensures SurvivorsHold(c, DataShards(r.contents, c.k, t.shardSize), shards, present)
  {
    hide IsCodec, CodeByte, UsableStripe, PresentFlags, ShardContent, ShardPresent, Padded, StripeStored, DamageShows;
    hide MaxSize;
    forall i, b | 0 <= i < t.k + t.m && present[i] && 0 <= b < t.shardSize
      ensures shards[i][b] == CodeByte(c, DataShards(r.contents, c.k, t.shardSize), i, b)
    {
      UsedShardsAreCodeword(disk, crc, decode, t, s, c, pad, kind, r, written, i, b);
      assert shards[i][b] == shards[i][..][b];
    }
  }

  // ---- Rebuilding a block ----

  /** Read the shards of a stripe, decode them, and return shard number `position`, zero-padded. */
  method RebuildShard(disk: Bytes, crc: Crc64, decode: Decode, codec: Codec, t: GroupTable, s: ReadStripe,
                      position: nat, ghost c: Codec, ghost pad: nat, ghost kind: nat, ghost r: StripeRecord,
                      ghost written: Bytes)
    returns (shard: Option<Bytes>)
    requires IsCodec(codec) && codec.k == t.k && codec.m == t.m && UsableStripe(s, t) && position < s.actualK
    ensures shard.Some? <==> Erased(PresentFlags(disk, crc, decode, t, s)) <= t.m
    ensures shard.Some? && Recoverable(disk, crc, decode, t, s, c, pad, kind, r, written) ==>
              position < |r.contents| && shard.value == Padded(r.contents[position], t.shardSize)
    ensures shard.Some? ==> |shard.value| == t.shardSize
  {
    assert position < t.k && codec.k == t.k;
    hide IsCodec, CodeByte, UsableStripe, PresentFlags, ShardContent, Padded, MaxSize, Recoverable, SurvivorsHold;
    CodecShape(codec);
    var shards, present := ReadShards(disk, crc, decode, t, s);
    ghost var known := Recoverable(disk, crc, decode, t, s, c, pad, kind, r, written);
    ghost var data := DataShards(r.contents, codec.k, t.shardSize);
    if known {
      RecoverableCodec(disk, crc, decode, codec, t, s, c, pad, kind, r, written, position);
      SurvivorsAreCodeword(disk, crc, decode, t, s, c, pad, kind, r, written, shards, present);
    }
    var rc := RsDecode(codec, shards, present, t.shardSize, data);
    if rc != 0 {
      return None;
    }
    shard := Some(shards[position][..]);
    if known {
      RebuiltIsWritten(c, r.contents, t.shardSize, position, shard.value);
    }
  }

  lemma RecoverableCodec(disk: Bytes, crc: Crc64, decode: Decode, codec: Codec, t: GroupTable, s: ReadStripe, c: Codec,
                         pad: nat, kind: nat, r: StripeRecord, written: Bytes, position: nat)
    requires Recoverable(disk, crc, decode, t, s, c, pad, kind, r, written) && position < s.actualK
    requires IsCodec(codec) && codec.k == t.k && codec.m == t.m
    ensures codec == c && Shaped(c) && position < |r.contents| <= c.k && |r.contents[position]| <= t.shardSize
  {
    hide IsCodec, EntryStored, ParityBlock, ParityPayload, Holds;
    CodecIsUnique(codec, c);
  }

  lemma RebuiltIsWritten(c: Codec, contents: seq<Bytes>, size: nat, position: nat, shard: Bytes)
    requires IsCodec(c) && Shaped(c) && position < |contents| <= c.k && |contents[position]| <= size == |shard|
    requires forall b :: 0 <= b < size ==> shard[b] == CodeByte(c, DataShards(contents, c.k, size), position, b)
    ensures shard == Padded(contents[position], size)
  {
    hide IsCodec, CodeByte;
    forall b | 0 <= b < size
      ensures shard[b] == Padded(contents[position], size)[b]
    {
      StripeIsCodeword(c, contents, size, position, b);
    }
  }

  // ---- From the rebuilt block to the sector asked for ----

  /** The sector that the on-disk bytes of a block contain: parse its header, decompress its payload,
      check the checksum, cut the sector out.  The source does not check that the declared lengths lie
      inside the shard; here such a block has no sectors. */
  function SectorOf(inflate: Inflate, crc: Crc64, bytes: Bytes, sector: nat): Option<Bytes> {
    if |bytes| < BLOCK_HEADER_SIZE then None else
      var h := DecodeBlockHeader(bytes[..BLOCK_HEADER_SIZE]);
      var stored := if h.compression == COMPRESSION_NONE then h.length else h.cmpLength;
      if BLOCK_HEADER_SIZE + stored > |bytes| || h.compression !in {0, 1, 2, 4} then None else
        var payload := bytes[BLOCK_HEADER_SIZE..BLOCK_HEADER_SIZE + stored];
        var block := if h.compression == COMPRESSION_NONE then payload else inflate(h.compression, payload, h.length);
        if |block| != h.length || crc(block) != h.crc64 then None else
        CutSector(block, sector, h.sectorSize)
  }

  /** Sector number `sector` of an uncompressed block. */
  function CutSector(block: Bytes, sector: nat, size: nat): Option<Bytes> {
    var start: nat := sector * size;
    if size > 0 && start + size <= |block| then Some(block[start..start + size]) else None
  }

  /** The answer is sector number `sector` of the data, byte for byte, or nothing when the data ends before
      the end of that sector. */
  ghost predicate IsSector(found: Option<Bytes>, data: Bytes, sector: nat, size: nat) {
    && (found.Some? <==> size > 0 && sector * size + size <= |data|)
    && (found.Some? ==> |found.value| == size
                        && forall i {:trigger found.value[i]} :: 0 <= i < size ==>
                             0 <= sector * size + i < |data| && found.value[i] == data[sector * size + i])
  }

  lemma CutIsSlice(block: Bytes, sector: nat, size: nat)
    ensures IsSector(CutSector(block, sector, size), block, sector, size)
  {
    var start: nat := sector * size;
  }

  /** Whatever the bytes are, a sector comes only out of a block whose checksum is the one its header
      records, from the place its number says. */
  lemma SectorIsChecked(inflate: Inflate, crc: Crc64, bytes: Bytes, sector: nat)
    requires BLOCK_HEADER_SIZE <= |bytes| && SectorOf(inflate, crc, bytes, sector).Some?
    ensures var h := DecodeBlockHeader(bytes[..BLOCK_HEADER_SIZE]);
            exists block: Bytes :: |block| == h.length && crc(block) == h.crc64
                            && IsSector(SectorOf(inflate, crc, bytes, sector), block, sector, h.sectorSize)
  {
    hide DecodeBlockHeader, CutSector, IsSector;
    var h := DecodeBlockHeader(bytes[..BLOCK_HEADER_SIZE]);
    var stored := if h.compression == COMPRESSION_NONE then h.length else h.cmpLength;
    var payload := bytes[BLOCK_HEADER_SIZE..BLOCK_HEADER_SIZE + stored];
    var block := if h.compression == COMPRESSION_NONE then payload else inflate(h.compression, payload, h.length);
    CutIsSlice(block, sector, h.sectorSize);
  }

  /** The declared lengths of a block lie inside its on-disk bytes. */
  ghost predicate SelfContained(bytes: Bytes) {
    && BLOCK_HEADER_SIZE <= |bytes|
    && var h := DecodeBlockHeader(bytes[..BLOCK_HEADER_SIZE]);
       BLOCK_HEADER_SIZE + (if h.compression == COMPRESSION_NONE then h.length else h.cmpLength) <= |bytes|
  }

  /** Zero padding does not change the sectors of a block. */
  lemma SectorOfPadded(inflate: Inflate, crc: Crc64, bytes: Bytes, size: nat, sector: nat)
    requires SelfContained(bytes)
    ensures SectorOf(inflate, crc, Padded(bytes, size), sector) == SectorOf(inflate, crc, bytes, sector)
  {
    hide DecodeBlockHeader;
    var padded := Padded(bytes, size);
    assert padded[..BLOCK_HEADER_SIZE] == bytes[..BLOCK_HEADER_SIZE];
    var h := DecodeBlockHeader(bytes[..BLOCK_HEADER_SIZE]);
    var stored := if h.compression == COMPRESSION_NONE then h.length else h.cmpLength;
    var end := BLOCK_HEADER_SIZE + stored;
    assert padded[BLOCK_HEADER_SIZE..end] == bytes[BLOCK_HEADER_SIZE..end];
  }

  // ---- The reader ----

  /** Lookups lead to stripes that can be read. */
  ghost predicate UsableTable(t: GroupTable) {
    forall offset {:trigger t.lookup[offset]} :: offset in t.lookup ==>
      && t.lookup[offset].stripe < |t.stripes| && UsableStripe(t.stripes[t.lookup[offset].stripe], t)
      && t.lookup[offset].position < t.stripes[t.lookup[offset].stripe].actualK
  }

  class Reader {
    const crc: Crc64
    const inflate: Inflate

    var disk: Bytes
    var tables: Tables
    var available: bool
    var inProgress: bool
    var codec: Option<Codec>

    ghost predicate Valid()
      reads this
    {
      codec.Some? ==> IsCodec(codec.value) && codec.value.k == tables.data.k && codec.value.m == tables.data.m
    }

    constructor (crc: Crc64, inflate: Inflate, disk: Bytes)
      ensures Valid() && !available && !inProgress && codec.None? && tables == NO_TABLES
      ensures this.crc == crc && this.inflate == inflate && this.disk == disk
    {
      this.crc := crc;
      this.inflate := inflate;
      this.disk := disk;
      tables := NO_TABLES;
      available, inProgress, codec := false, false, None;
    }

    /** Load the map, when the image ends with a valid footer. */
    method LoadMap()
      requires codec.None?
      modifies this`tables, this`available, this`codec
      ensures Valid()
      ensures FindMap(disk, crc, inflate).None? ==> tables == old(tables) && available == old(available) && codec.None?
      ensures FindMap(disk, crc, inflate).Some? ==>
                && tables == ParseGroups(FindMap(disk, crc, inflate).value.1, 0,
                                         FindMap(disk, crc, inflate).value.0.stripeGroupCount, old(tables)).0
                && available == Available(tables)
                && (codec.Some? <==> available && ValidParameters(tables.data.k, tables.data.m))
    {
      hide FindMap, ParseGroups, IsCodec;
      var found := FindMap(disk, crc, inflate);
      if found.None? {
        return;
      }
      var (head, payload) := found.value;
      var parsed, end := ParseMap(payload, head.stripeGroupCount, tables);
      tables := parsed;
      available := Available(tables);
      if available {
        codec := RsCreate(tables.data.k, tables.data.m);
      }
    }

    /** Rebuild the on-disk bytes of a block of any group. */
    method RecoverRawBlock(t: GroupTable, blockOffset: nat,
                           ghost c: Codec, ghost pad: nat, ghost kind: nat, ghost r: StripeRecord, ghost written: Bytes)
      returns (bytes: Option<Bytes>)
      requires UsableTable(t)
      modifies this`inProgress
      ensures inProgress == old(inProgress)
      ensures bytes.Some? <==>
                && available && !inProgress && blockOffset in t.lookup && ValidParameters(t.k, t.m)
                && Erased(PresentFlags(disk, crc, None, t, t.stripes[t.lookup[blockOffset].stripe])) <= t.m
      ensures bytes.Some? && Recoverable(disk, crc, None, t, t.stripes[t.lookup[blockOffset].stripe], c, pad, kind, r,
                                         written) ==>
                && t.lookup[blockOffset].position < |r.contents|
                && bytes.value == r.contents[t.lookup[blockOffset].position]
    {
      hide IsCodec, PresentFlags, Erased, UsableStripe;
      if !available || inProgress || blockOffset !in t.lookup {
        return None;
      }
      inProgress := true;
      var at := t.lookup[blockOffset];
      var stripe := t.stripes[at.stripe];
      var rs := RsCreate(t.k, t.m);
      if rs.None? {
        inProgress := false;
        return None;
      }
      var shard := RebuildShard(disk, crc, None, rs.value, t, stripe, at.position, c, pad, kind, r, written);
      bytes := None;
      if shard.Some? {
        UsableSize(t, stripe, at.position);
        var size := stripe.entries.value[at.position].onDiskSize;
        bytes := Some(shard.value[..size]);
        if Recoverable(disk, crc, None, t, stripe, c, pad, kind, r, written) {
          CutIsWritten(disk, crc, None, t, stripe, c, pad, kind, r, written, at.position);
        }
      }
      inProgress := false;
    }

    /** Rebuild a damaged data block and return one of its sectors. */
    method RecoverDataBlock(blockOffset: nat, sector: nat, ghost c: Codec, ghost pad: nat, ghost kind: nat,
                            ghost r: StripeRecord, ghost written: Bytes)
      returns (data: Option<Bytes>)
      requires Valid() && UsableTable(tables.data)
      modifies this`inProgress
      ensures inProgress == old(inProgress)
      ensures data.Some? ==>
                && available && !inProgress && blockOffset in tables.data.lookup && codec.Some?
                && Erased(PresentFlags(disk, crc, Some(inflate), tables.data,
                                       tables.data.stripes[tables.data.lookup[blockOffset].stripe])) <= tables.data.m
      ensures available && !inProgress && blockOffset in tables.data.lookup && codec.Some?
              && Erased(PresentFlags(disk, crc, Some(inflate), tables.data,
                                     tables.data.stripes[tables.data.lookup[blockOffset].stripe])) <= tables.data.m
              && Recoverable(disk, crc, Some(inflate), tables.data,
                             tables.data.stripes[tables.data.lookup[blockOffset].stripe], c, pad, kind, r, written)
              ==> && tables.data.lookup[blockOffset].position < |r.contents|
                  && (SelfContained(r.contents[tables.data.lookup[blockOffset].position]) ==>
                        data == SectorOf(inflate, crc, r.contents[tables.data.lookup[blockOffset].position], sector))
    {
      hide IsCodec, PresentFlags, Erased, UsableStripe, Recoverable, SectorOf;
      if !available || inProgress || blockOffset !in tables.data.lookup || codec.None? {
        return None;
      }
      inProgress := true;
      var at := tables.data.lookup[blockOffset];
      var stripe := tables.data.stripes[at.stripe];
      var shard := RebuildShard(disk, crc, Some(inflate), codec.value, tables.data, stripe, at.position, c, pad, kind,
                                r, written);
      data := None;
      if shard.Some? {
        data := SectorOf(inflate, crc, shard.value, sector);
        if && Recoverable(disk, crc, Some(inflate), tables.data, stripe, c, pad, kind, r, written)
           && SelfContained(r.contents[at.position]) {
          SectorOfPadded(inflate, crc, r.contents[at.position], tables.data.shardSize, sector);
        }
      }
      inProgress := false;
    }
  }

  lemma UsableSize(t: GroupTable, s: ReadStripe, position: nat)
    requires UsableStripe(s, t) && position < s.actualK
    ensures s.entries.Some? && position < |s.entries.value| && s.entries.value[position].onDiskSize <= t.shardSize
  {
  }

  lemma CutIsWritten(disk: Bytes, crc: Crc64, decode: Decode, t: GroupTable, s: ReadStripe, c: Codec, pad: nat,
                     kind: nat, r: StripeRecord, written: Bytes, position: nat)
    requires Recoverable(disk, crc, decode, t, s, c, pad, kind, r, written) && position < s.actualK
    ensures position < |r.contents| && s.entries.Some? && position < |s.entries.value|
    ensures s.entries.value[position].onDiskSize == |r.contents[position]| <= t.shardSize
    ensures Padded(r.contents[position], t.shardSize)[..|r.contents[position]|] == r.contents[position]
  {
    hide IsCodec, Holds, ParityBlock, ParityPayload;
    assert EntryStored(written, crc, pad, r.stripe.entries[position], r.contents[position]);
  }
}
