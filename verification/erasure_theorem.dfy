/** End-to-end recovery: what the writer leaves on disk, damaged in at most M shards of a stripe, is
    rebuilt byte for byte by the reader.
 */
module ErasureTheorem {
  import opened Wrappers
  import opened Octet
  import opened Linear
  import opened ReedSolomon
  import opened ImageFile
  import opened ErasureFormat
  import opened ErasureMap
  import opened Parity
  import opened ErasureWrite
  import opened ErasureFinalize
  import opened ErasureRead

  // ---- The map is found and read back ----

  lemma {:induction false} StripesAreLong(stripes: seq<Stripe>)
    ensures |EncodeStripes(stripes)| >= 2 * |stripes|
  {
    if |stripes| > 0 {
      StripesAreLong(stripes[..|stripes| - 1]);
    }
  }

  lemma {:induction false} GroupIsShorter(groups: seq<Group>, i: nat)
    requires i < |groups|
    ensures |EncodeStripes(groups[i].stripes)| <= |EncodeGroups(groups)|
    decreases |groups|
  {
    hide EncodeStripes;
    var n := |groups| - 1;
    if i < n {
      GroupIsShorter(groups[..n], i);
    }
  }

  lemma StripeIsValid(disk: Bytes, c: Codec, crc: Crc64, pad: nat, kind: nat, r: StripeRecord)
    requires StripeStored(disk, c, crc, pad, kind, r) && |disk| < 0x1_0000_0000_0000_0000
    ensures r.stripe.Valid(c.m)
  {
    hide ParityBlock, ParityPayload, MaxSize;
    forall i | 0 <= i < |r.stripe.entries|
      ensures r.stripe.entries[i].Valid()
    {
      assert EntryStored(disk, crc, pad, r.stripe.entries[i], r.contents[i]);
    }
  }

  /** A stored group fits its serialized form. */
  lemma GroupIsValid(disk: Bytes, crc: Crc64, r: GroupRecord)
    requires GroupStored(disk, crc, r) && |disk| < 0x1_0000_0000_0000_0000
    requires |EncodeStripes(r.group.stripes)| <= MAP_SIZE_LIMIT
    ensures r.group.Valid()
  {
    hide StripeStored, EncodeStripes, MaxSize;
    CodecShape(r.codec);
    forall j | 0 <= j < |r.records|
      ensures r.group.stripes[j].Valid(r.group.desc.m)
    {
      StripeIsValid(disk, r.codec, crc, r.pad, r.kind, r.records[j]);
    }
    StripesAreLong(r.group.stripes);
  }

  /** The groups of a finalized image fit their serialized form: the data group, which is stored, and the
      batch groups, stored or not. */
  lemma AllGroupsFit(disk: Bytes, crc: Crc64, records: seq<GroupRecord>)
    requires |records| > 0 && GroupStored(disk, crc, records[0]) && |disk| < 0x1_0000_0000_0000_0000
    requires GroupsFit(GroupsOf(records)[1..]) && |EncodeGroups(GroupsOf(records))| <= MAP_SIZE_LIMIT
    ensures GroupsFit(GroupsOf(records))
  {
    hide GroupStored, EncodeGroups, EncodeStripes, Group.Valid;
    var groups := GroupsOf(records);
    GroupIsShorter(groups, 0);
    GroupIsValid(disk, crc, records[0]);
    forall i | 0 <= i < |groups|
      ensures groups[i].Valid()
    {
      if i > 0 { assert groups[i] == groups[1..][i - 1]; }
    }
  }

  /** The footer leads to the map, which is accepted exactly when it is no larger than 256 MiB. */
  lemma MapFound(disk: Bytes, crc: Crc64, inflate: Inflate, algorithm: nat, header: Bytes, groups: seq<Group>,
                 mapOffset: nat)
    requires MapOnDisk(disk, crc, algorithm, header, groups, mapOffset)
    requires |disk| < 0x1_0000_0000_0000_0000 && algorithm < 0x100 && 0 < |groups| < 0x100
    ensures FindMap(disk, crc, inflate).Some? <==> |EncodeGroups(groups)| <= MAP_SIZE_LIMIT
    ensures var found := FindMap(disk, crc, inflate);
            found.Some? ==> found.value.0.stripeGroupCount == |groups| && found.value.1 == EncodeGroups(groups)
  {
    hide DecodeFooter, DecodeMapHeader, EncodeGroups, Footer.Encoded, MapHeader.Encoded;
    var payload := EncodeGroups(groups);
    var checksum := MapChecksum(crc, payload);
    var h := MapHeader(ERASURE_MAP_BLOCK, algorithm, |groups|, COMPRESSION_NONE, |payload|, |payload|, checksum,
                       checksum);
    var footer := FooterFor(crc, mapOffset, |MapBlock(crc, algorithm, groups)|, header);
    assert disk[|disk| - FOOTER_SIZE..] == disk[|disk| - FOOTER_SIZE..|disk| - FOOTER_SIZE + FOOTER_SIZE];
    FooterRoundTrip(footer);
    HoldsSplit(disk, mapOffset, h.Encoded(), payload);
    MapHeaderRoundTrip(h);
    SomePayload(groups);
  }

  /** Exactly which maps a reader accepts, whoever wrote them: stored, or compressed by either method, between
      one byte and 256 MiB, of the length and with the checksum declared. */
  lemma MapFoundExactlyWhen(disk: Bytes, crc: Crc64, inflate: Inflate, footer: Footer, h: MapHeader, stored: Bytes)
    requires footer.Valid() && footer.magic == FOOTER_MAGIC && h.Valid() && |stored| == h.cmpLength
    requires FOOTER_SIZE <= |disk| && disk[|disk| - FOOTER_SIZE..] == footer.Encoded()
    requires Holds(disk, footer.mapOffset, h.Encoded() + stored)
    ensures var payload := if h.compression == 0 then stored else inflate(h.compression, stored, h.length);
            var accepted := h.identifier == 0x424D4345 && h.compression in {0, 1, 4} && 0 < |stored|
                            && 0 < h.length == |payload| <= 0x1000_0000 && crc(payload) == h.crc64;
            FindMap(disk, crc, inflate) == if accepted then Some((h, payload)) else None
  {
    hide DecodeFooter, DecodeMapHeader, Footer.Encoded, MapHeader.Encoded, Holds;
    FooterRoundTrip(footer);
    MapHeaderRoundTrip(h);
    HoldsSplit(disk, footer.mapOffset, h.Encoded(), stored);
    MapHeaderSize(h);
    HoldsExactly(disk, footer.mapOffset, h.Encoded(), MAP_HEADER_SIZE);
    HoldsExactly(disk, footer.mapOffset + MAP_HEADER_SIZE, stored, h.cmpLength);
    var payload := if h.compression == 0 then stored else inflate(h.compression, stored, h.length);
    assert payload[..|payload|] == payload;
  }

  lemma MapHeaderSize(h: MapHeader)
    ensures |h.Encoded()| == MAP_HEADER_SIZE
  {
  }

  lemma SomePayload(groups: seq<Group>)
    requires |groups| > 0
    ensures |EncodeGroups(groups)| > 0
  {
  }

  /** The table that a group of the given type loads into. */
  function Select(t: Tables, groupType: nat): GroupTable {
    if groupType == GROUP_DATA then t.data else if groupType == GROUP_DDT_SECONDARY then t.ddt else t.meta
  }

  ghost predicate OnlyGroupOfType(groups: seq<Group>, i: nat, groupType: nat) {
    && i < |groups| && groupType in {GROUP_DATA, GROUP_DDT_SECONDARY, GROUP_METADATA}
    && forall j :: 0 <= j < |groups| ==> (groups[j].desc.groupType == groupType <==> i == j)
  }

  lemma {:induction false} SelectLoaded(groups: seq<Group>, n: nat, i: nat, groupType: nat)
    requires OnlyGroupOfType(groups, i, groupType) && n <= |groups|
    ensures Select(Loaded(groups, n, NO_TABLES), groupType)
            == if i < n then Fill(NO_TABLE, groups[i].desc, AllAsRead(groups[i].stripes)) else NO_TABLE
  {
    hide Fill, AllAsRead;
    if n > 0 {
      SelectLoaded(groups, n - 1, i, groupType);
      assert groups[n - 1].desc.groupType == groupType <==> i == n - 1;
      InstallSelect(Loaded(groups, n - 1, NO_TABLES), groups[n - 1].desc, AllAsRead(groups[n - 1].stripes), groupType);
    }
  }

  // ---- When recovery is available ----

  /** The last group of a type whose stripes make recovery available, and it has some. */
  ghost predicate UsableAt(groups: seq<Group>, n: nat, j: nat)
    requires n <= |groups|
  {
    && j < n && groups[j].desc.groupType in {GROUP_DATA, GROUP_METADATA} && |groups[j].stripes| > 0
    && forall l :: j < l < n ==> groups[l].desc.groupType != groups[j].desc.groupType
  }

  /** Some data or metadata group has stripes, and no later group of its type takes its place. */
  ghost predicate Usable(groups: seq<Group>) {
    exists j: nat :: UsableAt(groups, |groups|, j)
  }

  lemma {:induction false} StripesOfType(groups: seq<Group>, n: nat, groupType: nat)
    requires n <= |groups| && groupType in {GROUP_DATA, GROUP_METADATA}
    ensures |Select(Loaded(groups, n, NO_TABLES), groupType).stripes| > 0
            <==> exists j: nat :: UsableAt(groups, n, j) && groups[j].desc.groupType == groupType
  {
    hide Fill, Install, Select;
    if n == 0 {
      NoTables(groupType);
    } else {
      var last := groups[n - 1];
      StripesOfType(groups, n - 1, groupType);
      InstallSelect(Loaded(groups, n - 1, NO_TABLES), last.desc, AllAsRead(last.stripes), groupType);
      FilledStripes(Select(Loaded(groups, n - 1, NO_TABLES), groupType), last.desc, AllAsRead(last.stripes));
      if last.desc.groupType == groupType {
        if |last.stripes| > 0 { assert UsableAt(groups, n, n - 1); }
      } else {
        if j: nat :| UsableAt(groups, n - 1, j) && groups[j].desc.groupType == groupType {
          assert UsableAt(groups, n, j);
        }
        if j: nat :| UsableAt(groups, n, j) && groups[j].desc.groupType == groupType {
          assert UsableAt(groups, n - 1, j);
        }
      }
    }
  }

  lemma NoTables(groupType: nat)
    ensures |Select(NO_TABLES, groupType).stripes| == 0
  {
  }

  lemma FilledStripes(t: GroupTable, g: GroupDescriptor, stripes: seq<ReadStripe>)
    ensures Fill(t, g, stripes).stripes == stripes
  {
  }

  /** Loading a map makes recovery available exactly when a data or metadata group in it has stripes; the
      secondary table group does not count. */
  lemma AvailableIff(groups: seq<Group>)
    ensures Available(Loaded(groups, |groups|, NO_TABLES)) <==> Usable(groups)
  {
    hide Loaded;
    StripesOfType(groups, |groups|, GROUP_DATA);
    StripesOfType(groups, |groups|, GROUP_METADATA);
    if j: nat :| UsableAt(groups, |groups|, j) {
      var groupType := groups[j].desc.groupType;
      assert groupType == GROUP_DATA || groupType == GROUP_METADATA;
    }
  }

  lemma InstallSelect(t: Tables, g: GroupDescriptor, stripes: seq<ReadStripe>, groupType: nat)
    requires groupType in {GROUP_DATA, GROUP_DDT_SECONDARY, GROUP_METADATA}
    ensures Select(Install(t, g, stripes), groupType)
            == if g.groupType == groupType then Fill(Select(t, groupType), g, stripes) else Select(t, groupType)
  {
    hide Fill;
  }

  /** A written group, loaded, can be used: every lookup leads to a readable stripe. */
  lemma LoadedTableIsUsable(written: Bytes, crc: Crc64, r: GroupRecord)
    requires GroupStored(written, crc, r)
    ensures UsableTable(Fill(NO_TABLE, r.group.desc, AllAsRead(r.group.stripes)))
  {
    hide IsCodec, StripeStored, MaxSize, UsableStripe, AddStripes;
    var stripes := AllAsRead(r.group.stripes);
    var t := Fill(NO_TABLE, r.group.desc, stripes);
    forall offset {:trigger t.lookup[offset]} | offset in t.lookup
      ensures t.lookup[offset].stripe < |t.stripes| && UsableStripe(t.stripes[t.lookup[offset].stripe], t)
      ensures t.lookup[offset].position < t.stripes[t.lookup[offset].stripe].actualK
    {
      StripesLookup(stripes, |stripes|, offset);
      StoredIsUsable(written, crc, r, t, t.lookup[offset].stripe);
    }
  }

  lemma StoredIsUsable(written: Bytes, crc: Crc64, r: GroupRecord, t: GroupTable, s: nat)
    requires GroupStored(written, crc, r) && s < |r.records|
    requires t.k == r.codec.k && t.m == r.codec.m && t.shardSize == r.group.desc.shardSize
    ensures UsableStripe(AsRead(r.group.stripes[s]), t)
  {
    hide IsCodec, ParityBlock, ParityPayload, Holds;
    var record := r.records[s];
    assert StripeStored(written, r.codec, crc, r.pad, r.kind, record);
    forall j | 0 <= j < |record.contents|
      ensures record.stripe.entries[j].onDiskSize <= t.shardSize
    {
      assert EntryStored(written, crc, r.pad, record.stripe.entries[j], record.contents[j]);
    }
  }

  // ---- Damaged shards and erased shards ----

  /** Shard `i` of a written stripe survives: its bytes are undamaged on disk (unused positions have none
      to damage) and its recorded checksum is that of those bytes, which fails of blocks that are shorter
      than the padding of their group. */
  ghost predicate ShardSurvives(disk: Bytes, crc: Crc64, c: Codec, pad: nat, kind: nat, r: StripeRecord, i: nat)
    requires Shaped(c) && i < c.k + c.m && |r.stripe.entries| == |r.contents| && |r.stripe.parity| == c.m
  {
    if i < c.k then
      i < |r.contents| ==> Holds(disk, r.stripe.entries[i].offset, r.contents[i])
                           && crc(r.contents[i]) == crc(Padded(r.contents[i], pad))
    else Holds(disk, r.stripe.parity[i - c.k],
               ParityBlock(crc, kind, ParityPayload(c, r.contents, i - c.k, MaxSize(r.contents))))
  }

  ghost function SurvivingFlags(disk: Bytes, crc: Crc64, c: Codec, pad: nat, kind: nat, r: StripeRecord): (f: seq<bool>)
    requires Shaped(c) && |r.stripe.entries| == |r.contents| && |r.stripe.parity| == c.m
    ensures |f| == c.k + c.m && forall i :: 0 <= i < |f| ==> f[i] == ShardSurvives(disk, crc, c, pad, kind, r, i)
  {
    seq(c.k + c.m, i requires 0 <= i < c.k + c.m => ShardSurvives(disk, crc, c, pad, kind, r, i))
  }

  /** An undamaged block is used exactly when its recorded checksum equals that of its on-disk bytes:
      always in the data group; in a batch group, which records the checksum of the padded shard, when
      the checksum does not tell the block from its padded form. */
  lemma UndamagedIsAcceptedIff(written: Bytes, disk: Bytes, crc: Crc64, pad: nat, e: DataEntry, content: Bytes)
    requires EntryStored(written, crc, pad, e, content) && Holds(disk, e.offset, content)
    ensures Accepted(disk, crc, e) <==> crc(content) == crc(Padded(content, pad))
    ensures pad <= |content| ==> Accepted(disk, crc, e)
  {
  }

  /** A block shorter than the padding of its group, under a checksum that tells them apart, is refused
      although it is undamaged. */
  lemma ShortBlockIsErased()
    ensures var crc: Crc64 := (b: Bytes) => if |b| < 2 then |b| else 2; var content: Bytes := [7];
            && EntryStored(content, crc, 2, DataEntry(0, 1, 2), content) && Holds(content, 0, content)
            && !Accepted(content, crc, DataEntry(0, 1, 2))
  {
    var content: Bytes := [7];
    assert content[0..1] == content;
    assert |Padded(content, 2)| == 2;
  }

  lemma {:induction false} ErasedMonotone(p: seq<bool>, q: seq<bool>)
    requires |p| == |q| && forall i :: 0 <= i < |p| ==> p[i] ==> q[i]
    ensures Erased(q) <= Erased(p)
  {
    if |p| > 0 {
      ErasedMonotone(p[..|p| - 1], q[..|q| - 1]);
    }
  }

  /** When damage shows, the shards that are erased are exactly those that do not survive. */
  lemma ErasedAreDamaged(disk: Bytes, crc: Crc64, decode: Decode, t: GroupTable, s: ReadStripe, c: Codec, pad: nat,
                         kind: nat, r: StripeRecord, written: Bytes)
    requires Recoverable(disk, crc, decode, t, s, c, pad, kind, r, written) && UsableStripe(s, t)
    ensures Erased(PresentFlags(disk, crc, decode, t, s)) == Erased(SurvivingFlags(disk, crc, c, pad, kind, r))
  {
    hide IsCodec, Accepted, ParityShard, Holds, ParityBlock, ParityPayload, MaxSize;
    forall i | 0 <= i < c.k + c.m
      ensures ShardSurvives(disk, crc, c, pad, kind, r, i) <==> ShardPresent(disk, crc, decode, t, s, i)
    {
      if i < s.actualK {
        assert EntryStored(written, crc, pad, r.stripe.entries[i], r.contents[i]);
        if Holds(disk, r.stripe.entries[i].offset, r.contents[i]) {
          UndamagedIsAcceptedIff(written, disk, crc, pad, r.stripe.entries[i], r.contents[i]);
        }
      } else if t.k <= i {
        SomeBlockHasBytes(written, c, crc, pad, kind, r);
        var payload := ParityPayload(c, r.contents, i - c.k, MaxSize(r.contents));
        if Holds(disk, s.parity[i - t.k], ParityBlock(crc, kind, payload)) {
          IntactParityShard(disk, crc, decode, kind, s.parity[i - t.k], payload, t.shardSize);
        }
      }
    }
    ErasedMonotone(SurvivingFlags(disk, crc, c, pad, kind, r), PresentFlags(disk, crc, decode, t, s));
    ErasedMonotone(PresentFlags(disk, crc, decode, t, s), SurvivingFlags(disk, crc, c, pad, kind, r));
  }

  // ---- The theorem ----

  /** Block number `pos` of stripe number `si` of group number `g` of a protected image. */
  ghost predicate IsBlock(records: seq<GroupRecord>, g: nat, si: nat, pos: nat, offset: nat) {
    && g < |records| && si < |records[g].records|
    && |records[g].records[si].stripe.entries| == |records[g].records[si].contents|
    && pos < |records[g].records[si].contents| && records[g].records[si].stripe.entries[pos].offset == offset
    && |records[g].records[si].stripe.parity| == records[g].codec.m && Shaped(records[g].codec)
    && records[g].kind < 0x1_0000
  }

  /** The stripe of the group as the reader has it. */
  lemma StripeIsDescribed(written: Bytes, crc: Crc64, r: GroupRecord, si: nat)
    requires GroupStored(written, crc, r) && si < |r.records| && r.kind < 0x1_0000
    ensures var t := Fill(NO_TABLE, r.group.desc, AllAsRead(r.group.stripes));
            si < |t.stripes|
            && Describes(t, t.stripes[si], r.codec, crc, r.pad, r.kind, r.records[si], written)
            && UsableStripe(t.stripes[si], t)
            && |r.records[si].stripe.entries| == |r.records[si].contents| == t.stripes[si].actualK
            && |r.records[si].stripe.parity| == r.codec.m && Shaped(r.codec)
  {
    hide IsCodec, StripeStored, MaxSize, AddStripes;
    var t := Fill(NO_TABLE, r.group.desc, AllAsRead(r.group.stripes));
    assert StripeStored(written, r.codec, crc, r.pad, r.kind, r.records[si]);
    DescribedIsUsable(t, t.stripes[si], r.codec, crc, r.pad, r.kind, r.records[si], written);
  }

  /** The map and the footer of the image survive, and the map is no larger than a reader accepts. */
  ghost predicate MapIntact(disk: Bytes, crc: Crc64, algorithm: nat, header: Bytes, records: seq<GroupRecord>,
                            mapOffset: nat) {
    && MapOnDisk(disk, crc, algorithm, header, GroupsOf(records), mapOffset) && |disk| < 0x1_0000_0000_0000_0000
    && algorithm < 0x100 && |records| < 0x100
    && |EncodeGroups(GroupsOf(records))| <= MAP_SIZE_LIMIT && GroupsFit(GroupsOf(records))
  }

  /** The loaded table of the only group of its type. */
  lemma LoadedGroup(disk: Bytes, crc: Crc64, inflate: Inflate, algorithm: nat, header: Bytes, records: seq<GroupRecord>,
                    mapOffset: nat, g: nat)
    requires MapIntact(disk, crc, algorithm, header, records, mapOffset)
    requires g < |records| && OnlyGroupOfType(GroupsOf(records), g, records[g].group.desc.groupType)
    ensures LoadedTables(disk, crc, inflate, records, g)
  {
    hide FindMap, GroupStored, EncodeGroups, MapOnDisk, Fill, Select, ParseGroups, OnlyGroupOfType, Group.Valid;
    hide Usable, Available;
    var groups := GroupsOf(records);
    MapFound(disk, crc, inflate, algorithm, header, groups, mapOffset);
    MapRoundTrip(groups, NO_TABLES);
    SelectLoaded(groups, |groups|, g, records[g].group.desc.groupType);
    TypeIsLoaded(groups, g, records[g].group.desc.groupType);
    AvailableIff(groups);
  }

  lemma TypeIsLoaded(groups: seq<Group>, g: nat, groupType: nat)
    requires OnlyGroupOfType(groups, g, groupType)
    ensures groupType in {GROUP_DATA, GROUP_DDT_SECONDARY, GROUP_METADATA}
  {
  }

  /** Loading finds the map; it gives the table of group `g`, and recovery if some group allows it. */
  ghost predicate LoadedTables(disk: Bytes, crc: Crc64, inflate: Inflate, records: seq<GroupRecord>, g: nat)
    requires g < |records|
  {
    var found := FindMap(disk, crc, inflate);
    var group := records[g].group;
    && found.Some? && group.desc.groupType in {GROUP_DATA, GROUP_DDT_SECONDARY, GROUP_METADATA}
    && var tables := ParseGroups(found.value.1, 0, found.value.0.stripeGroupCount, NO_TABLES).0;
       && Select(tables, group.desc.groupType) == Fill(NO_TABLE, group.desc, AllAsRead(group.stripes))
       && (Available(tables) <==> Usable(GroupsOf(records)))
  }

  /** Everything assumed of the image, the damage and the block to recover: its group is stored in what was
      written, the map survives, and the damage shows. */
  ghost predicate DamagedImage(disk: Bytes, written: Bytes, crc: Crc64, decode: Decode, algorithm: nat, header: Bytes,
                               records: seq<GroupRecord>, mapOffset: nat, g: nat, si: nat, pos: nat, offset: nat) {
    && MapIntact(disk, crc, algorithm, header, records, mapOffset)
    && IsBlock(records, g, si, pos, offset) && OnlyGroupOfType(GroupsOf(records), g, records[g].group.desc.groupType)
    && GroupStored(written, crc, records[g]) && DistinctOffsets(AllAsRead(records[g].group.stripes))
    && DamageShows(disk, crc, decode, records[g].codec, records[g].kind, records[g].records[si],
                   records[g].group.desc.shardSize)
  }

  /** At most M shards of the stripe are lost. */
  ghost predicate EnoughSurvive(disk: Bytes, crc: Crc64, r: GroupRecord, si: nat) {
    && si < |r.records| && Shaped(r.codec) && |r.records[si].stripe.entries| == |r.records[si].contents|
    && |r.records[si].stripe.parity| == r.codec.m
    && Erased(SurvivingFlags(disk, crc, r.codec, r.pad, r.kind, r.records[si])) <= r.codec.m
  }

  /** What loading a damaged image establishes about the block. */
  lemma BlockIsRecoverable(disk: Bytes, written: Bytes, crc: Crc64, decode: Decode, algorithm: nat, header: Bytes,
                           records: seq<GroupRecord>, mapOffset: nat, g: nat, si: nat, pos: nat, offset: nat)
    requires DamagedImage(disk, written, crc, decode, algorithm, header, records, mapOffset, g, si, pos, offset)
    ensures var r := records[g]; var t := Fill(NO_TABLE, r.group.desc, AllAsRead(r.group.stripes));
            && UsableTable(t) && offset in t.lookup && t.lookup[offset] == Position(si, pos)
            && ValidParameters(t.k, t.m)
            && si < |t.stripes| && UsableStripe(t.stripes[si], t) && t.m == r.codec.m
            && Erased(PresentFlags(disk, crc, decode, t, t.stripes[si]))
               == Erased(SurvivingFlags(disk, crc, r.codec, r.pad, r.kind, r.records[si]))
            && (EnoughSurvive(disk, crc, r, si) <==> Erased(PresentFlags(disk, crc, decode, t, t.stripes[si])) <= t.m)
            && Recoverable(disk, crc, decode, t, t.stripes[si], r.codec, r.pad, r.kind, r.records[si], written)
  {
    hide IsCodec, PresentFlags, SurvivingFlags, Erased, UsableStripe, UsableTable, MapIntact, AddStripes;
    hide DamageShows, Describes, OnlyGroupOfType, DistinctOffsets, ParityBlock;
    var r := records[g];
    CodecShape(r.codec);
    var stripes := AllAsRead(r.group.stripes);
    var t := Fill(NO_TABLE, r.group.desc, stripes);
    LoadedTableIsUsable(written, crc, r);
    StripeIsDescribed(written, crc, r, si);
    LookupIsLinearSearch(stripes, si, pos, offset);
    ErasedAreDamaged(disk, crc, decode, t, t.stripes[si], r.codec, r.pad, r.kind, r.records[si], written);
  }

  /** Load the map of a damaged image and rebuild a block: exactly the bytes written come back, and they do
      exactly when at most M shards of its stripe are lost. */
  method LoadAndRecover(reader: Reader, offset: nat, ghost written: Bytes, ghost algorithm: nat, ghost header: Bytes,
                        ghost records: seq<GroupRecord>, ghost mapOffset: nat, ghost g: nat, ghost si: nat,
                        ghost pos: nat, groupType: nat)
    returns (bytes: Option<Bytes>)
    requires reader.Valid() && reader.codec.None? && !reader.available && !reader.inProgress
    requires reader.tables == NO_TABLES
    requires DamagedImage(reader.disk, written, reader.crc, None, algorithm, header, records, mapOffset, g, si, pos,
                          offset)
    requires groupType == records[g].group.desc.groupType
    modifies reader
    ensures bytes.Some? <==> Usable(GroupsOf(records)) && EnoughSurvive(reader.disk, reader.crc, records[g], si)
    ensures bytes.Some? ==> bytes.value == records[g].records[si].contents[pos]
    ensures reader.available <==> Usable(GroupsOf(records))
    ensures groupType != GROUP_DDT_SECONDARY ==> reader.available
    ensures reader.disk == old(reader.disk)
  {
    hide FindMap, ParseGroups, DamagedImage, Recoverable, UsableTable, PresentFlags, Erased, UsableStripe, Fill;
    hide SurvivingFlags, LoadedTables, EnoughSurvive, Usable;
    LoadedFromDamaged(reader.disk, written, reader.crc, None, reader.inflate, algorithm, header, records, mapOffset, g,
                      si, pos, offset);
    BlockIsRecoverable(reader.disk, written, reader.crc, None, algorithm, header, records, mapOffset, g, si, pos,
                       offset);
    reader.LoadMap();
    TablesLoaded(reader.disk, reader.crc, reader.inflate, records, g, si, reader.tables);
    var table := Select(reader.tables, groupType);
    bytes := reader.RecoverRawBlock(table, offset, records[g].codec, records[g].pad, records[g].kind,
                                    records[g].records[si], written);
  }

  /** The parsed map has the group's table, and with stripes of its own a data or metadata group makes
      recovery available. */
  lemma TablesLoaded(disk: Bytes, crc: Crc64, inflate: Inflate, records: seq<GroupRecord>, g: nat, si: nat,
                     tables: Tables)
    requires g < |records| && LoadedTables(disk, crc, inflate, records, g) && si < |records[g].group.stripes|
    ensures FindMap(disk, crc, inflate).Some?
    ensures var found := FindMap(disk, crc, inflate); var group := records[g].group;
            tables == ParseGroups(found.value.1, 0, found.value.0.stripeGroupCount, NO_TABLES).0 ==>
              && Select(tables, group.desc.groupType) == Fill(NO_TABLE, group.desc, AllAsRead(group.stripes))
              && (Available(tables) <==> Usable(GroupsOf(records)))
              && (group.desc.groupType != GROUP_DDT_SECONDARY ==> Available(tables))
  {
    hide FindMap, ParseGroups, Usable;
  }

  lemma LoadedFromDamaged(disk: Bytes, written: Bytes, crc: Crc64, decode: Decode, inflate: Inflate, algorithm: nat,
                          header: Bytes, records: seq<GroupRecord>, mapOffset: nat, g: nat, si: nat, pos: nat,
                          offset: nat)
    requires DamagedImage(disk, written, crc, decode, algorithm, header, records, mapOffset, g, si, pos, offset)
    ensures g < |records| && LoadedTables(disk, crc, inflate, records, g)
    ensures si < |records[g].records| && |records[g].group.stripes| == |records[g].records|
  {
    hide FindMap, ParseGroups, GroupStored, MapOnDisk, EncodeGroups, Fill, SurvivingFlags, Erased, DamageShows;
    hide DistinctOffsets;
    hide LoadedTables;
    GroupSizes(written, crc, records[g]);
    LoadedGroup(disk, crc, inflate, algorithm, header, records, mapOffset, g);
  }

  lemma GroupSizes(written: Bytes, crc: Crc64, r: GroupRecord)
    requires GroupStored(written, crc, r)
    ensures |r.group.stripes| == |r.records|
  {
  }

  /** Load the map of a damaged image and read a sector of a data block through recovery: the answer is
      the one the written bytes of the block give, as long as at most M shards of its stripe are lost. */
  method LoadAndReadSector(reader: Reader, offset: nat, sector: nat, ghost written: Bytes, ghost algorithm: nat,
                           ghost header: Bytes, ghost records: seq<GroupRecord>, ghost mapOffset: nat, ghost g: nat,
                           ghost si: nat, ghost pos: nat)
    returns (data: Option<Bytes>)
    requires reader.Valid() && reader.codec.None? && !reader.available && !reader.inProgress
    requires reader.tables == NO_TABLES
    requires DamagedImage(reader.disk, written, reader.crc, Some(reader.inflate), algorithm, header, records, mapOffset,
                          g, si, pos, offset)
    requires records[g].group.desc.groupType == GROUP_DATA && SelfContained(records[g].records[si].contents[pos])
    modifies reader
    ensures data == if EnoughSurvive(reader.disk, reader.crc, records[g], si)
                    then SectorOf(reader.inflate, reader.crc, records[g].records[si].contents[pos], sector) else None
    ensures reader.disk == old(reader.disk)
  {
    hide FindMap, ParseGroups, DamagedImage, Recoverable, UsableTable, PresentFlags, Erased, UsableStripe, Fill;
    hide SectorOf, SelfContained, SurvivingFlags, LoadedTables, EnoughSurvive, Usable;
    var decode := Some(reader.inflate);
    LoadedFromDamaged(reader.disk, written, reader.crc, decode, reader.inflate, algorithm, header, records, mapOffset,
                      g, si, pos, offset);
    BlockIsRecoverable(reader.disk, written, reader.crc, decode, algorithm, header, records, mapOffset, g, si, pos,
                       offset);
    reader.LoadMap();
    TablesLoaded(reader.disk, reader.crc, reader.inflate, records, g, si, reader.tables);
    data := reader.RecoverDataBlock(offset, sector, records[g].codec, records[g].pad, records[g].kind,
                                    records[g].records[si], written);
  }

  /** A data block made from `data`: its header says so, and decompression undoes its compression. */
  ghost predicate MadeFrom(inflate: Inflate, crc: Crc64, header: BlockHeader, props: Option<Bytes>, payload: Bytes,
                           data: Bytes) {
    && header.Valid() && header.compression in {0, 1, 2, 4}
    && BLOCK_HEADER_SIZE + header.cmpLength == |BlockBytes(header, props, payload)|
    && (if header.compression == COMPRESSION_NONE then data == payload
        else inflate(header.compression, PropertyBytes(header, props) + payload, header.length) == data)
    && |data| == header.length && header.crc64 == crc(data)
  }

  /** What a written data block contains: with decompression undoing compression, its sectors are the
      sectors of the data it was made from. */
  lemma WrittenSector(inflate: Inflate, crc: Crc64, header: BlockHeader, props: Option<Bytes>, payload: Bytes,
                      data: Bytes, sector: nat)
    requires MadeFrom(inflate, crc, header, props, payload, data)
    ensures SelfContained(BlockBytes(header, props, payload))
    ensures IsSector(SectorOf(inflate, crc, BlockBytes(header, props, payload), sector), data, sector,
                     header.sectorSize)
  {
    hide DecodeBlockHeader, BlockHeader.Encoded, CutSector, IsSector;
    CutIsSlice(data, sector, header.sectorSize);
    var bytes := BlockBytes(header, props, payload);
    var body := PropertyBytes(header, props) + payload;
    assert bytes == header.Encoded() + body;
    assert bytes[..BLOCK_HEADER_SIZE] == header.Encoded();
    BlockHeaderRoundTrip(header);
    assert bytes[BLOCK_HEADER_SIZE..BLOCK_HEADER_SIZE + header.cmpLength] == body;
  }
}
