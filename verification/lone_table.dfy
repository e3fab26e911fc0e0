/** A protected image whose only block is a secondary table: a group with its parity is there, nothing is
    damaged, and recovery gives nothing, since neither data nor metadata stripes were loaded.
 */
module LoneTable {
  import opened Wrappers
  import opened Octet
  import opened ReedSolomon
  import opened ImageFile
  import opened Parity
  import opened ErasureFormat
  import opened ErasureMap
  import opened ErasureWrite
  import opened ErasureCollect
  import opened ErasureFinalize
  import opened ErasureRead
  import opened ErasureTheorem
  import opened ErasureGroups
  import opened ErasureRecovery
  import opened BatchRecovery
  import opened BlockIndex
  import opened DdtTable

  const AT: nat := IMAGE_HEADER_SIZE
  const SIZE: nat := DDT_HEADER_SIZE + 8
  const INDEX: seq<IndexEntry> := [IndexEntry(DDT_SECONDARY, TYPE_USER_DATA, AT)]

  function Header(crc: Crc64): DdtHeader {
    DdtHeader(DDT_SECONDARY, TYPE_USER_DATA, COMPRESSION_NONE, 2, 1, 0, 0, 1, 0, 0, 0, 0, 0, 1, 8, 8,
              crc(Zeros(8)), crc(Zeros(8)))
  }

  /** A table of one entry, which is zero. */
  function Table(crc: Crc64): (b: Bytes)
    ensures |b| == SIZE
  {
    Header(crc).Encoded() + Zeros(8)
  }

  /** The image before it is finalized: a header and the table. */
  function Start(crc: Crc64): (b: Bytes)
    ensures |b| == AT + SIZE
  {
    Zeros(IMAGE_HEADER_SIZE) + Table(crc)
  }

  lemma TableIsCollected(crc: Crc64)
    ensures CollectRequest(Start(crc), INDEX, 0, 1, GROUP_DDT_SECONDARY)
            == BatchRequest(GROUP_DDT_SECONDARY, TYPE_PARITY_DDT, [AT], [SIZE])
    ensures Holds(Start(crc), AT, Table(crc))
  {
    hide DdtHeader.Encoded, DeclaredSize;
    assert Holds(Start(crc), AT, Header(crc).Encoded() + Zeros(8));
    HeaderIsValid(crc);
    StoredTableIsWhole(Start(crc), AT, DDT_SECONDARY, Header(crc), Zeros(8));
    assert INDEX[..0] == [];
    assert Selected(INDEX, OfType(DDT_SECONDARY)) == INDEX;
  }

  lemma HeaderIsValid(crc: Crc64)
    ensures Header(crc).Valid()
  {
    Powers();
  }

  // ---- The groups ----

  function ParityOf(c: Codec, crc: Crc64): (b: Bytes)
    requires Shaped(c) && c.m == 1
  {
    ParityBlock(crc, TYPE_PARITY_DDT, ParityPayload(c, [Table(crc)], 0, SIZE))
  }

  function TableStripe(crc: Crc64): Stripe {
    Stripe([DataEntry(AT, SIZE, crc(Table(crc)))], [AT + SIZE])
  }

  function TableRecord(c: Codec, crc: Crc64): GroupRecord {
    GroupRecord(Group(GroupDescriptor(GROUP_DDT_SECONDARY, 1, 1, SIZE, 1, 1), [TableStripe(crc)]), c, SIZE,
                TYPE_PARITY_DDT, [StripeRecord(TableStripe(crc), [Table(crc)])])
  }

  function DataRecordOf(c: Codec): GroupRecord {
    GroupRecord(Group(GroupDescriptor(GROUP_DATA, 1, 1, 0, 0, 1), []), c, 0, TYPE_ERASURE_PARITY, [])
  }

  /** The table group is stored behind the image, with a parity block. */
  lemma TableIsStored(c: Codec, crc: Crc64)
    requires IsCodec(c) && c.k == 1 && c.m == 1 && Shaped(c)
    ensures GroupStored(Start(crc) + ParityOf(c, crc), crc, TableRecord(c, crc))
    ensures |ParityOf(c, crc)| == BLOCK_HEADER_SIZE + SIZE && TableRecord(c, crc).group.Valid()
  {
    hide IsCodec, Table, Start, BlockHeader.Encoded;
    TableIsCollected(crc);
    var r := TableRecord(c, crc);
    var s := r.records[0];
    var file := Start(crc) + ParityOf(c, crc);
    assert MaxSize(s.contents) == SIZE;
    HoldsInLonger(Start(crc), file, AT, Table(crc));
    assert Holds(file, AT + SIZE, ParityOf(c, crc));
    assert EntryStored(file, crc, SIZE, s.stripe.entries[0], s.contents[0]);
    assert Descriptors(r.records) == r.group.stripes;
  }

  // ---- The batches ----

  const LATER: seq<IndexEntry> := INDEX + [IndexEntry(DATA_BLOCK, TYPE_PARITY_DDT, AT + SIZE)]

  lemma NothingElse(file: Bytes, groupType: nat)
    requires GROUP_DDT_SECONDARY < groupType <= GROUP_INDEX
    ensures CollectRequest(file, LATER, 0, 1, groupType).offsets == []
  {
    hide DeclaredSize;
    assert INDEX[..0] == [];
    assert Selected(INDEX, OfType(DDT_PRIMARY)) == [];
    assert Selected(INDEX, Metadata) == [];
    hide Selected;
    SelectionStays(INDEX, LATER, OfType(DDT_PRIMARY), AT + SIZE, AT + SIZE + 1);
    SelectionStays(INDEX, LATER, Metadata, AT + SIZE, AT + SIZE + 1);
  }

  function Batches(c: Codec, crc: Crc64): seq<Batch>
    requires Shaped(c) && c.m == 1
  {
    var file := Start(crc) + ParityOf(c, crc);
    [Batch(Start(crc), INDEX, CollectRequest(Start(crc), INDEX, 0, 1, 1)),
     Batch(file, LATER, CollectRequest(file, LATER, 0, 1, 2)),
     Batch(file, LATER, CollectRequest(file, LATER, 0, 1, 3)),
     Batch(file, LATER, CollectRequest(file, LATER, 0, 1, 4))]
  }

  lemma FirstBatch(c: Codec, crc: Crc64)
    requires IsCodec(c) && c.k == 1 && c.m == 1 && Shaped(c)
    ensures Batched(Start(crc), INDEX, Start(crc) + ParityOf(c, crc), LATER, crc, 0, 1,
                    [Batch(Start(crc), INDEX, CollectRequest(Start(crc), INDEX, 0, 1, 1))],
                    [TableRecord(c, crc).group], [TableRecord(c, crc)])
  {
    hide Batched, BatchRecord, GroupStored, CollectRequest, Table, Start, ParityOf, IsCodec, Group.Valid;
    var start, file, r := Start(crc), Start(crc) + ParityOf(c, crc), TableRecord(c, crc);
    var req := CollectRequest(start, INDEX, 0, 1, GROUP_DDT_SECONDARY);
    NothingBatched(start, INDEX, crc, 0, 1);
    TableIsCollected(crc);
    TableIsStored(c, crc);
    RecordOfTable(c, crc);
    CollectedIsWellFormed(start, INDEX, 0, 1, GROUP_DDT_SECONDARY);
    BatchedPush(start, INDEX, start, INDEX, crc, 0, 1, [], [], [], req, file, LATER, Some(r.group), r);
    assert [] + [Batch(start, INDEX, req)] == [Batch(start, INDEX, req)];
    assert [] + [r] == [r] && [] + [r.group] == [r.group];
  }

  lemma RecordOfTable(c: Codec, crc: Crc64)
    requires c.k == 1 && c.m == 1
    ensures BatchRecord(Start(crc), 1, BatchRequest(GROUP_DDT_SECONDARY, TYPE_PARITY_DDT, [AT], [SIZE]),
                        TableRecord(c, crc))
  {
    hide Table, Start;
    TableIsCollected(crc);
    var req := BatchRequest(GROUP_DDT_SECONDARY, TYPE_PARITY_DDT, [AT], [SIZE]);
    var r := TableRecord(c, crc);
    assert BatchContents(Start(crc), req, 1) == [Table(crc)];
    assert Descriptors(r.records) == r.group.stripes;
    assert EntryOffsets(TableStripe(crc)) == [AT];
  }

  lemma EmptyBatch(start: Bytes, startIndex: seq<IndexEntry>, file: Bytes, crc: Crc64, batches: seq<Batch>,
                   groups: seq<Group>, records: seq<GroupRecord>)
    requires Batched(start, startIndex, file, LATER, crc, 0, 1, batches, groups, records)
    requires 0 < |batches| < GROUP_INDEX
    ensures Batched(start, startIndex, file, LATER, crc, 0, 1,
                    batches + [Batch(file, LATER, CollectRequest(file, LATER, 0, 1, |batches| + 1))], groups, records)
  {
    hide Batched, BatchRecord, GroupStored, CollectRequest, Group.Valid;
    var groupType := |batches| + 1;
    NothingElse(file, groupType);
    CollectedIsWellFormed(file, LATER, 0, 1, groupType);
    BatchedPush(start, startIndex, file, LATER, crc, 0, 1, batches, groups, records,
                CollectRequest(file, LATER, 0, 1, groupType), file, LATER, None,
                GroupRecord(Group(GroupDescriptor(0, 0, 0, 0, 0, 0), []), Codec(0, 0, []), 0, 0, []));
  }

  lemma AllBatches(c: Codec, crc: Crc64)
    requires IsCodec(c) && c.k == 1 && c.m == 1 && Shaped(c)
    ensures Batched(Start(crc), INDEX, Start(crc) + ParityOf(c, crc), LATER, crc, 0, 1, Batches(c, crc),
                    [TableRecord(c, crc).group], [TableRecord(c, crc)])
  {
    hide Batched, CollectRequest, Start, ParityOf, IsCodec, TableRecord;
    var start, file, r := Start(crc), Start(crc) + ParityOf(c, crc), TableRecord(c, crc);
    var all := Batches(c, crc);
    FirstBatch(c, crc);
    assert all[..1] == [all[0]];
    EmptyBatch(start, INDEX, file, crc, all[..1], [r.group], [r]);
    assert all[..1] + [all[1]] == all[..2];
    EmptyBatch(start, INDEX, file, crc, all[..2], [r.group], [r]);
    assert all[..2] + [all[2]] == all[..3];
    EmptyBatch(start, INDEX, file, crc, all[..3], [r.group], [r]);
    assert all[..3] + [all[3]] == all;
  }

  // ---- The image ----

  function Written(c: Codec, crc: Crc64): Bytes
    requires Shaped(c) && c.m == 1
  {
    var file := Start(crc) + ParityOf(c, crc);
    var block := MapBlock(crc, 1, Groups(c, crc));
    file + block + FooterFor(crc, |file|, |block|, Zeros(IMAGE_HEADER_SIZE)).Encoded()
  }

  function Groups(c: Codec, crc: Crc64): seq<Group> {
    [DataRecordOf(c).group, TableRecord(c, crc).group]
  }

  /** The finalized image. */
  function Image(c: Codec, crc: Crc64): FinalImage
    requires Shaped(c) && c.m == 1
  {
    FinalImage(Start(crc), INDEX, Written(c, crc), crc, 1, Zeros(IMAGE_HEADER_SIZE), 0, c, [], [],
               Records(c, crc), Batches(c, crc), |Start(crc) + ParityOf(c, crc)|)
  }

  lemma MapIsSmall(c: Codec, crc: Crc64)
    ensures |EncodeGroups(Groups(c, crc))| == 2 * GROUP_SIZE + 2 + DATA_ENTRY_SIZE + 8
  {
    hide EncodeGroups, EncodeGroup, Table;
    TwoGroups(DataRecordOf(c).group, TableRecord(c, crc).group);
    NoStripes(DataRecordOf(c).group);
    OneStripeSize(TableRecord(c, crc).group);
  }

  lemma TwoGroups(a: Group, b: Group)
    ensures EncodeGroups([a, b]) == EncodeGroup(a) + EncodeGroup(b)
  {
    hide EncodeGroup;
    var both := [a, b];
    NextGroup(both, 0);
    NextGroup(both, 1);
    assert both[..0] == [] && both[..2] == both;
  }

  lemma NoStripes(g: Group)
    requires g.stripes == []
    ensures |EncodeGroup(g)| == GROUP_SIZE
  {
    hide GroupDescriptor.Encoded;
  }

  lemma OneStripeSize(g: Group)
    requires |g.stripes| == 1
    ensures |EncodeGroup(g)| == GROUP_SIZE + 2 + |g.stripes[0].entries| * DATA_ENTRY_SIZE + |g.stripes[0].parity| * 8
  {
    hide GroupDescriptor.Encoded, EncodeStripe;
    OnlyStripe(g.stripes);
    StripeSize(g.stripes[0]);
  }

  lemma OnlyStripe(stripes: seq<Stripe>)
    requires |stripes| == 1
    ensures EncodeStripes(stripes) == EncodeStripe(stripes[0])
  {
    hide EncodeStripe;
    NextStripe(stripes, 0);
    assert stripes[..1] == stripes && stripes[..0] == [];
  }

  lemma StripeSize(s: Stripe)
    ensures |EncodeStripe(s)| == 2 + |s.entries| * DATA_ENTRY_SIZE + |s.parity| * 8
  {
  }

  lemma MapIsWritten(c: Codec, crc: Crc64)
    requires Shaped(c) && c.m == 1 && |ParityOf(c, crc)| == BLOCK_HEADER_SIZE + SIZE
    ensures MapOnDisk(Written(c, crc), crc, 1, Zeros(IMAGE_HEADER_SIZE), Groups(c, crc),
                      |Start(crc) + ParityOf(c, crc)|)
    ensures Start(crc) + ParityOf(c, crc) <= Written(c, crc) && |Written(c, crc)| < 1000
  {
    hide Start, ParityOf, MapHeader.Encoded, Footer.Encoded, EncodeGroups, Groups;
    MapIsSmall(c, crc);
    var file := Start(crc) + ParityOf(c, crc);
    var block := MapBlock(crc, 1, Groups(c, crc));
    assert Holds(file + block, |file|, block);
    HoldsInLonger(file + block, Written(c, crc), |file|, block);
  }

  lemma BatchesAreDone(c: Codec, crc: Crc64)
    requires IsCodec(c) && c.k == 1 && c.m == 1 && Shaped(c)
    ensures BatchesDone(Start(crc), INDEX, Written(c, crc), 0, 1, Batches(c, crc), Records(c, crc))
    ensures StoredWhenReadable(Written(c, crc), crc, Batches(c, crc), Records(c, crc)[1..])
    ensures GroupsFit(GroupsOf(Records(c, crc))[1..])
  {
    hide Start, ParityOf, Written, IsCodec, Batched, BatchesDone, GroupStored, MapOnDisk, StoredWhenReadable;
    hide CollectRequest, GroupsFit, TableRecord, DataRecordOf, Batches;
    var file, records, batches := Start(crc) + ParityOf(c, crc), Records(c, crc), Batches(c, crc);
    var data, table := records[0], records[1];
    TableIsStored(c, crc);
    MapIsWritten(c, crc);
    AllBatches(c, crc);
    DataIsStored(Start(crc), c, crc);
    FourBatches(c, crc);
    BatchedFacts(Start(crc), INDEX, Start(crc), INDEX, file, LATER, crc, 0, 1, batches, [table.group], [table], data);
    assert [data] + [table] == records && records[1..] == [table];
    DoneInLonger(Start(crc), INDEX, file, Written(c, crc), 0, 1, batches, records);
    StoredInLonger(file, Written(c, crc), crc, batches, [table]);
    assert GroupsOf(records)[1..] == [table.group];
    SmallOffsets();
  }

  lemma SmallOffsets()
    ensures Fits64(INDEX, 0) && OnlyParityAdded(INDEX, INDEX, |INDEX|, |INDEX|)
  {
  }

  lemma FourBatches(c: Codec, crc: Crc64)
    requires Shaped(c) && c.m == 1
    ensures |Batches(c, crc)| == GROUP_INDEX
  {
    hide CollectRequest;
  }

  function Records(c: Codec, crc: Crc64): (r: seq<GroupRecord>)
    ensures |r| == 2
  {
    [DataRecordOf(c), TableRecord(c, crc)]
  }

  lemma ImageIsValid(c: Codec, crc: Crc64)
    requires IsCodec(c) && c.k == 1 && c.m == 1 && Shaped(c)
    ensures Image(c, crc).Valid() && Image(c, crc).Addressable()
  {
    hide Start, ParityOf, Written, IsCodec, BatchesDone, GroupStored, MapOnDisk, StoredWhenReadable, GroupsFit;
    hide DataRecord, Fits64, Batches, TableRecord, DataRecordOf, FinalImage.Valid;
    BatchesAreDone(c, crc);
    TableIsStored(c, crc);
    MapIsWritten(c, crc);
    DataIsStored(Written(c, crc), c, crc);
    SmallOffsets();
    assert GroupsOf(Records(c, crc)) == Groups(c, crc);
    MeetsAll(Image(c, crc));
  }

  lemma MeetsAll(f: FinalImage)
    requires 0 < |f.records| <= 5 && f.records[0].codec == f.codec && f.records[0].kind == TYPE_ERASURE_PARITY
    requires DataRecord(f.records[0], f.codec.k, f.history, f.offsets) && f.algorithm < 0x100
    requires GroupStored(f.written, f.crc, f.records[0])
    requires MapOnDisk(f.written, f.crc, f.algorithm, f.header, GroupsOf(f.records), f.mapOffset)
    requires BatchesDone(f.start, f.startIndex, f.written, f.indexOffset, f.codec.m, f.batches, f.records)
    requires GroupsFit(GroupsOf(f.records)[1..])
    requires StoredWhenReadable(f.written, f.crc, f.batches, f.records[1..])
    ensures f.Valid()
  {
  }

  lemma DataIsStored(file: Bytes, c: Codec, crc: Crc64)
    requires IsCodec(c) && c.k == 1 && c.m == 1
    ensures GroupStored(file, crc, DataRecordOf(c)) && DataRecord(DataRecordOf(c), 1, [], [])
    ensures DataRecordOf(c).codec == c && DataRecordOf(c).kind == TYPE_ERASURE_PARITY
  {
    hide IsCodec;
    assert Descriptors(DataRecordOf(c).records) == [];
  }

  /** Nothing is damaged, the table is in the file and in its group, and its only shard survives, but a
      reader cannot recover it: it answers with nothing. */
  method LoneTableIsLost(crc: Crc64, inflate: Inflate) returns (bytes: Option<Bytes>, ghost f: FinalImage)
    ensures f.Valid() && f.Addressable() && f.crc == crc
    ensures |f.records| == 2 && f.records[1].group.desc.groupType == GROUP_DDT_SECONDARY
    ensures Recorded(f.records[1], 0, 0, Table(crc)) && Holds(f.written, AT, Table(crc))
    ensures DamageReported(f, f.written, None, 1, 0) && EnoughSurvive(f.written, crc, f.records[1], 0)
    ensures !Recovers(f) && bytes.None?
  {
    hide Image, FinalImage.Valid, FinalImage.Addressable, DamageReported, EnoughSurvive, Recorded, Table, IsCodec;
    hide Recovers, BatchReadable;
    var rs := RsCreate(1, 1);
    var c := rs.value;
    CodecShape(c);
    f := Image(c, crc);
    ImageIsValid(c, crc);
    ImageFacts(c, crc);
    var disk := Written(c, crc);
    bytes := RecoverCollected(disk, crc, inflate, AT, GROUP_DDT_SECONDARY, f, 1, 0);
  }

  lemma ImageFacts(c: Codec, crc: Crc64)
    requires IsCodec(c) && c.k == 1 && c.m == 1 && Shaped(c)
    ensures var f := Image(c, crc);
            && f.crc == crc && f.codec == c && f.written == Written(c, crc) && |f.records| == 2
            && !Recovers(f) && |f.batches| == GROUP_INDEX
            && f.records[1].group.desc.groupType == GROUP_DDT_SECONDARY
            && f.batches[0].request == BatchRequest(GROUP_DDT_SECONDARY, TYPE_PARITY_DDT, [AT], [SIZE])
            && BatchReadable(f.batches[0].file, f.batches[0].request)
            && Recorded(f.records[1], 0, 0, Table(crc)) && Holds(f.written, AT, Table(crc))
            && DamageReported(f, f.written, None, 1, 0) && EnoughSurvive(f.written, crc, f.records[1], 0)
  {
    hide Start, ParityOf, Written, IsCodec, CollectRequest, GroupStored, MapOnDisk, EncodeGroups, Table, DamageShows;
    hide SurvivingFlags, Erased, StripeStored;
    var f, file := Image(c, crc), Start(crc) + ParityOf(c, crc);
    TableIsCollected(crc);
    TableIsStored(c, crc);
    MapIsWritten(c, crc);
    MapIsSmall(c, crc);
    HoldsInLonger(Start(crc), f.written, AT, Table(crc));
    GroupStaysStored(file, f.written, crc, f.records[1]);
    TableSurvives(f.written, c, crc);
    assert GroupsOf(f.records) == Groups(c, crc);
    assert INDEX[..0] == [];
    assert Selected(INDEX, Metadata) == [];
  }

  lemma TableSurvives(disk: Bytes, c: Codec, crc: Crc64)
    requires Shaped(c) && c.k == 1 && c.m == 1 && GroupStored(disk, crc, TableRecord(c, crc))
    ensures var r := TableRecord(c, crc);
            && DamageShows(disk, crc, None, c, r.kind, r.records[0], SIZE)
            && Erased(SurvivingFlags(disk, crc, c, SIZE, r.kind, r.records[0])) == 0
  {
    hide IsCodec, ParityBlock, ParityPayload, Holds, Accepted, ParityShard, Table;
    var r := TableRecord(c, crc);
    var s := r.records[0];
    assert StripeStored(disk, c, crc, SIZE, r.kind, s);
    assert EntryStored(disk, crc, SIZE, s.stripe.entries[0], s.contents[0]);
    forall i | 0 <= i < 2
      ensures ShardSurvives(disk, crc, c, SIZE, r.kind, s, i)
    {
    }
    AllPresent(SurvivingFlags(disk, crc, c, SIZE, r.kind, s));
  }
}
