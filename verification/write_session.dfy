/** Writing an image: data blocks are closed and, between them, secondary tables that were never written are
    flushed (`set_ddt_multi_level_v2`, src/ddt/ddt_v2.c), in any order and number.
 */
module WriteSession {
  import opened Wrappers
  import opened Octet
  import opened ImageFile
  import opened ReedSolomon
  import opened ErasureFormat
  import opened ErasureWrite
  import opened FileRegions
  import opened BlockIndex
  import opened IndexBlock
  import opened DdtTable
  import opened CloseTracking
  import opened CloseWrite
  import opened CloseFinalize
  import opened CloseTheorem
  import opened ProtectedClose
  import opened ErasureRecovery

  datatype SessionStep = CloseBlock(block: OpenBlock) | FlushTable(secondary: Secondary)

  /** The data blocks of the steps, in order. */
  function BlocksOf(steps: seq<SessionStep>): seq<Bytes> {
    if |steps| == 0 then [] else
      var last := steps[|steps| - 1];
      BlocksOf(steps[..|steps| - 1]) + if last.CloseBlock? then [last.block.Bytes()] else []
  }

  /** What the source relies on in each step. */
  ghost predicate StepsAllowed(steps: seq<SessionStep>, tableShift: nat, length: nat) {
    forall i :: 0 <= i < |steps| ==>
      match steps[i]
      case CloseBlock(block) => block.Valid()
      case FlushTable(s) =>
        s.cached == 0 && s.position < length && 0 < |s.entries| == Pow2(tableShift) && |s.entries| < 0x2000_0000
  }

  /** What holds between two steps: the writer is ready for the next one, and table and index agree. */
  ghost predicate Ready(w: Writer, layout: Layout, primaryOffset: nat, table: array<nat>)
    reads w, w.parity, table
  {
    && w.Valid() && IMAGE_HEADER_SIZE <= w.ledger.floor && layout.hi <= w.ledger.floor && layout.shift == w.shift
    && w.ledger.settled <= w.next && w.ledger.floor <= w.next && Reserved(layout, primaryOffset, table.Length)
    && (forall m :: 0 <= m < |w.parity| ==> (w.parity[m] as object) != (table as object))
    && Coherent(table[..], w.index, layout.shift, |w.file|)
  }

  // ---- What a session leaves of the tables ----

  /** The first `n` bytes, or all when there are fewer. */
  function Front(b: Bytes, n: nat): (r: Bytes)
    ensures r <= b && (r == b || |r| == n)
  {
    if n < |b| then b[..n] else b
  }

  /** How a table goes to disk. */
  datatype TableForm = TableForm(ddt: DdtHeader, primaryOffset: nat, crc: Crc64, compressor: Compressor, shift: nat)
  {
    ghost function Block(s: Secondary): Bytes
      requires |s.entries| < 0x2000_0000
    {
      SecondaryBlock(ddt, primaryOffset, crc, compressor, s)
    }

    /** The part of a flushed table that no later data block can take. */
    ghost function Kept(s: Secondary): (kept: Bytes)
      requires |s.entries| < 0x2000_0000
      ensures kept <= Block(s)
      ensures kept == Block(s) || |kept| == Align(DDT_HEADER_SIZE + 8 * |s.entries|, shift)
    {
      hide Pow2, Align, SecondaryBlock;
      Front(Block(s), Align(DDT_HEADER_SIZE + 8 * |s.entries|, shift))
    }
  }

  /** The table last flushed for primary entry `p`, if any. */
  function LastFlush(steps: seq<SessionStep>, p: nat): Option<Secondary> {
    if |steps| == 0 then None else
      var last := steps[|steps| - 1];
      if last.FlushTable? && last.secondary.position == p then Some(last.secondary)
      else LastFlush(steps[..|steps| - 1], p)
  }

  function FlushCount(steps: seq<SessionStep>): nat {
    if |steps| == 0 then 0 else
      FlushCount(steps[..|steps| - 1]) + if steps[|steps| - 1].FlushTable? then 1 else 0
  }

  const TABLE_KIND: Kind := Kind(DDT_SECONDARY, TYPE_USER_DATA)

  /** The table lies at `place`, is indexed there, and no later data block reaches it. */
  ghost predicate TableAt(form: TableForm, s: Secondary, place: nat, file: Bytes, index: seq<IndexEntry>, next: nat,
                          bound: nat) {
    && |s.entries| < 0x2000_0000 && bound <= place && EntryAt(TABLE_KIND, place) in index
    && Holds(file, place, form.Kept(s)) && place + |form.Kept(s)| <= next
  }

  /** Every primary entry leads to the table last flushed for it, or is what it was before. */
  ghost predicate TablesFollow(form: TableForm, steps: seq<SessionStep>, before: seq<nat>, table: seq<nat>,
                               file: Bytes, index: seq<IndexEntry>, next: nat, bound: nat) {
    && |table| == |before|
    && forall p :: 0 <= p < |table| ==>
         match LastFlush(steps, p)
         case None => table[p] == before[p]
         case Some(s) => TableAt(form, s, table[p] * Pow2(form.shift), file, index, next, bound)
  }

  /** What one step does to table, file, index and next block position. */
  ghost predicate StepDone(form: TableForm, step: SessionStep, table: seq<nat>, table': seq<nat>, file: Bytes,
                           file': Bytes, index: seq<IndexEntry>, index': seq<IndexEntry>, next: nat, next': nat,
                           floor: nat) {
    match step
    case CloseBlock(b) =>
      && table' == table && WrittenOver(file, next, b.Bytes(), file') && next <= next'
      && OnlyParityAdded(index + [IndexEntry(DATA_BLOCK, TYPE_USER_DATA, next)], index', 0, |file'|)
    case FlushTable(s) =>
      var place := Align(|file|, form.shift);
      && |s.entries| < 0x2000_0000 && s.position < |table| == |table'|
      && table'[s.position] * Pow2(form.shift) == place
      && (forall i :: 0 <= i < |table| && i != s.position ==> table'[i] == table[i])
      && Holds(file', place, form.Block(s)) && SameAbove(file, file', floor)
      && index' == index + [EntryAt(TABLE_KIND, place)]
      && next' == Align(place + DDT_HEADER_SIZE + 8 * |s.entries|, form.shift)
  }

  // ---- What a session leaves in the index ----

  const DATA_KIND: Kind := Kind(DATA_BLOCK, TYPE_USER_DATA)
  const PARITY_KIND: Kind := Kind(DATA_BLOCK, TYPE_ERASURE_PARITY)

  /** Where the parity of the stripes lies, in order. */
  function ParityPlaces(done: seq<StripeRecord>): seq<nat> {
    if |done| == 0 then [] else ParityPlaces(done[..|done| - 1]) + done[|done| - 1].stripe.parity
  }

  /** Since `start` the index gained exactly the data blocks accounted for, in order, and the parity blocks of
      the stripes completed, in order. */
  ghost predicate BlocksIndexed(startIndex: seq<IndexEntry>, start: Ledger, index: seq<IndexEntry>, g: Ledger) {
    && start.offsets <= g.offsets && start.done <= g.done
    && OfKind(index, DATA_KIND)
       == OfKind(startIndex, DATA_KIND) + BlockEntries(TYPE_USER_DATA, g.offsets[|start.offsets|..])
    && OfKind(index, PARITY_KIND)
       == OfKind(startIndex, PARITY_KIND) + BlockEntries(TYPE_ERASURE_PARITY, ParityPlaces(g.done[|start.done|..]))
  }

  /** What one step does to the index and to the books. */
  ghost predicate StepIndexed(step: SessionStep, index: seq<IndexEntry>, index': seq<IndexEntry>, g: Ledger,
                              g': Ledger, next: nat) {
    match step
    case CloseBlock(_) =>
      && g'.offsets == g.offsets + [next]
      && StripeIndexed(index + [IndexEntry(DATA_BLOCK, TYPE_USER_DATA, next)], index', g.done, g'.done)
    case FlushTable(_) =>
      g' == g && |index'| == |index| + 1 && index'[..|index|] == index && KindOf(index'[|index|]) == TABLE_KIND
  }

  lemma {:induction false} OfOneKind(index: seq<IndexEntry>, kind: Kind, other: Kind)
    requires forall i :: 0 <= i < |index| ==> KindOf(index[i]) == kind
    ensures OfKind(index, other) == if other == kind then index else []
  {
    if |index| > 0 {
      OfOneKind(index[1..], kind, other);
      assert index == [index[0]] + index[1..];
    }
  }

  lemma EntriesOfKind(dataType: nat, offsets: seq<nat>, other: Kind)
    ensures OfKind(BlockEntries(dataType, offsets), other)
            == if other == Kind(DATA_BLOCK, dataType) then BlockEntries(dataType, offsets) else []
  {
    hide OfKind;
    OfOneKind(BlockEntries(dataType, offsets), Kind(DATA_BLOCK, dataType), other);
  }

  lemma EntriesConcat(dataType: nat, a: seq<nat>, b: seq<nat>)
    ensures BlockEntries(dataType, a + b) == BlockEntries(dataType, a) + BlockEntries(dataType, b)
  {
  }

  lemma OneEntry(dataType: nat, offset: nat)
    ensures BlockEntries(dataType, [offset]) == [IndexEntry(DATA_BLOCK, dataType, offset)]
  {
  }

  lemma OneMoreBlock(startIndex: seq<IndexEntry>, start: Ledger, index: seq<IndexEntry>, g: Ledger, next: nat)
    requires BlocksIndexed(startIndex, start, index, g)
    ensures BlocksIndexed(startIndex, start, index + [IndexEntry(DATA_BLOCK, TYPE_USER_DATA, next)],
                          g.(offsets := g.offsets + [next]))
  {
    hide OfKind, BlockEntries, ParityPlaces;
    OneEntry(TYPE_USER_DATA, next);
    var added, since := BlockEntries(TYPE_USER_DATA, [next]), g.offsets[|start.offsets|..];
    WithoutKindConcat(index, added, DATA_KIND);
    WithoutKindConcat(index, added, PARITY_KIND);
    EntriesOfKind(TYPE_USER_DATA, [next], DATA_KIND);
    EntriesOfKind(TYPE_USER_DATA, [next], PARITY_KIND);
    assert (g.offsets + [next])[|start.offsets|..] == since + [next];
    EntriesConcat(TYPE_USER_DATA, since, [next]);
  }

  lemma OneMoreStripe(startIndex: seq<IndexEntry>, start: Ledger, index: seq<IndexEntry>, g: Ledger, r: StripeRecord)
    requires BlocksIndexed(startIndex, start, index, g)
    ensures BlocksIndexed(startIndex, start, index + BlockEntries(TYPE_ERASURE_PARITY, r.stripe.parity),
                          g.(done := g.done + [r]))
  {
    hide OfKind, BlockEntries, ParityPlaces;
    var added := BlockEntries(TYPE_ERASURE_PARITY, r.stripe.parity);
    WithoutKindConcat(index, added, DATA_KIND);
    WithoutKindConcat(index, added, PARITY_KIND);
    EntriesOfKind(TYPE_ERASURE_PARITY, r.stripe.parity, DATA_KIND);
    EntriesOfKind(TYPE_ERASURE_PARITY, r.stripe.parity, PARITY_KIND);
    var since := g.done[|start.done|..];
    assert (g.done + [r])[|start.done|..] == since + [r];
    ParityPlacesPush(since, r);
    EntriesConcat(TYPE_ERASURE_PARITY, ParityPlaces(since), r.stripe.parity);
  }

  lemma ParityPlacesPush(done: seq<StripeRecord>, r: StripeRecord)
    ensures ParityPlaces(done + [r]) == ParityPlaces(done) + r.stripe.parity
  {
    assert (done + [r])[..|done|] == done;
  }

  lemma IndexedPush(startIndex: seq<IndexEntry>, start: Ledger, step: SessionStep, index: seq<IndexEntry>,
                    index': seq<IndexEntry>, g: Ledger, g': Ledger, next: nat)
    requires BlocksIndexed(startIndex, start, index, g) && StepIndexed(step, index, index', g, g', next)
    ensures BlocksIndexed(startIndex, start, index', g')
  {
    hide OfKind, BlocksIndexed, BlockEntries;
    match step {
      case CloseBlock(_) =>
        OneMoreBlock(startIndex, start, index, g, next);
        var middle := g.(offsets := g.offsets + [next]);
        if g'.done == g.done {
          SameBooks(startIndex, start, index', middle, g');
        } else {
          var r := g'.done[|g.done|];
          assert g'.done == g.done + [r];
          OneMoreStripe(startIndex, start, index + [IndexEntry(DATA_BLOCK, TYPE_USER_DATA, next)], middle, r);
          SameBooks(startIndex, start, index', middle.(done := g'.done), g');
        }
      case FlushTable(_) =>
        TableIsNoBlock(startIndex, start, index, g, index'[|index|]);
        assert index' == index + [index'[|index|]];
    }
  }

  lemma SameBooks(startIndex: seq<IndexEntry>, start: Ledger, index: seq<IndexEntry>, g: Ledger, g': Ledger)
    requires BlocksIndexed(startIndex, start, index, g) && g'.offsets == g.offsets && g'.done == g.done
    ensures BlocksIndexed(startIndex, start, index, g')
  {
  }

  lemma TableIsNoBlock(startIndex: seq<IndexEntry>, start: Ledger, index: seq<IndexEntry>, g: Ledger, e: IndexEntry)
    requires BlocksIndexed(startIndex, start, index, g) && KindOf(e) == TABLE_KIND
    ensures BlocksIndexed(startIndex, start, index + [e], g)
  {
    hide OfKind;
    WithoutKindConcat(index, [e], DATA_KIND);
    WithoutKindConcat(index, [e], PARITY_KIND);
    OfOneKind([e], TABLE_KIND, DATA_KIND);
    OfOneKind([e], TABLE_KIND, PARITY_KIND);
  }

  // ---- Tables through a step ----

  /** A table stays where it is through a step. */
  lemma TableStays(form: TableForm, s: Secondary, place: nat, bound: nat, step: SessionStep, table: seq<nat>,
                   table': seq<nat>, file: Bytes, file': Bytes, index: seq<IndexEntry>, index': seq<IndexEntry>,
                   next: nat, next': nat, floor: nat)
    requires TableAt(form, s, place, file, index, next, bound) && floor <= bound
    requires StepDone(form, step, table, table', file, file', index, index', next, next', floor)
    ensures TableAt(form, s, place, file', index', next', bound)
  {
    hide SecondaryBlock, Align, Pow2, IsParityType, Holds, SameAbove, WrittenOver;
    match step {
      case CloseBlock(b) =>
        KeptBelow(file, next, b.Bytes(), file', place, form.Kept(s));
        assert EntryAt(TABLE_KIND, place) in index + [IndexEntry(DATA_BLOCK, TYPE_USER_DATA, next)];
      case FlushTable(s') =>
        AlignAtLeast(|file|, form.shift);
        AlignAtLeast(Align(|file|, form.shift) + DDT_HEADER_SIZE + 8 * |s'.entries|, form.shift);
        KeptAbove(file, file', floor, place, form.Kept(s));
    }
  }

  lemma KeptBelow(file: Bytes, next: nat, block: Bytes, file': Bytes, place: nat, kept: Bytes)
    requires WrittenOver(file, next, block, file') && Holds(file, place, kept) && place + |kept| <= next
    ensures Holds(file', place, kept)
  {
    var n := Least(next, |file|);
    assert file'[..n] == file[..n];
    assert file'[place..place + |kept|] == file'[..n][place..place + |kept|];
    assert file[place..place + |kept|] == file[..n][place..place + |kept|];
  }

  lemma KeptAbove(file: Bytes, file': Bytes, floor: nat, place: nat, kept: Bytes)
    requires SameAbove(file, file', floor) && Holds(file, place, kept) && floor <= place
    ensures Holds(file', place, kept) && place + |kept| <= |file|
  {
    assert file'[place..place + |kept|] == file[place..place + |kept|];
  }

  /** The table that a step has just flushed. */
  lemma TableIsPlaced(form: TableForm, step: SessionStep, table: seq<nat>, table': seq<nat>, file: Bytes, file': Bytes,
                      index: seq<IndexEntry>, index': seq<IndexEntry>, next: nat, next': nat, floor: nat, bound: nat)
    requires StepDone(form, step, table, table', file, file', index, index', next, next', floor) && step.FlushTable?
    requires bound <= |file|
    ensures var s := step.secondary;
            TableAt(form, s, table'[s.position] * Pow2(form.shift), file', index', next', bound)
  {
    hide SecondaryBlock, Align, Pow2, SameAbove;
    var s := step.secondary;
    var place := Align(|file|, form.shift);
    AlignAtLeast(|file|, form.shift);
    AlignBase(place, DDT_HEADER_SIZE + 8 * |s.entries|, form.shift);
    var block := form.Block(s);
    assert file'[place..place + |form.Kept(s)|] == file'[place..place + |block|][..|form.Kept(s)|];
  }

  lemma OtherEntriesStay(form: TableForm, step: SessionStep, table: seq<nat>, table': seq<nat>, file: Bytes,
                         file': Bytes, index: seq<IndexEntry>, index': seq<IndexEntry>, next: nat, next': nat,
                         floor: nat)
    requires StepDone(form, step, table, table', file, file', index, index', next, next', floor)
    ensures |table'| == |table|
    ensures forall i :: 0 <= i < |table| && !(step.FlushTable? && step.secondary.position == i) ==>
              table'[i] == table[i]
  {
    hide SecondaryBlock, Align, Pow2, SameAbove, OnlyParityAdded, WrittenOver, Holds;
  }

  lemma TablesPush(form: TableForm, steps: seq<SessionStep>, before: seq<nat>, bound: nat, step: SessionStep,
                   table: seq<nat>, table': seq<nat>, file: Bytes, file': Bytes, index: seq<IndexEntry>,
                   index': seq<IndexEntry>, next: nat, next': nat, floor: nat)
    requires TablesFollow(form, steps, before, table, file, index, next, bound) && floor <= bound
    requires StepDone(form, step, table, table', file, file', index, index', next, next', floor)
    requires step.FlushTable? ==> bound <= |file|
    ensures TablesFollow(form, steps + [step], before, table', file', index', next', bound)
  {
    hide TableAt, Pow2, StepDone;
    assert (steps + [step])[..|steps|] == steps;
    OtherEntriesStay(form, step, table, table', file, file', index, index', next, next', floor);
    forall p | 0 <= p < |table'|
      ensures match LastFlush(steps + [step], p)
              case None => table'[p] == before[p]
              case Some(s) => TableAt(form, s, table'[p] * Pow2(form.shift), file', index', next', bound)
    {
      if step.FlushTable? && step.secondary.position == p {
        TableIsPlaced(form, step, table, table', file, file', index, index', next, next', floor, bound);
      } else if LastFlush(steps, p).Some? {
        TableStays(form, LastFlush(steps, p).value, table[p] * Pow2(form.shift), bound, step, table, table', file,
                   file', index, index', next, next', floor);
      }
    }
  }

  /** A flush indexes one more table, a data block none. */
  lemma CountPush(form: TableForm, steps: seq<SessionStep>, step: SessionStep, table: seq<nat>, table': seq<nat>,
                  file: Bytes, file': Bytes, index: seq<IndexEntry>, index': seq<IndexEntry>, next: nat, next': nat,
                  floor: nat)
    requires StepDone(form, step, table, table', file, file', index, index', next, next', floor)
    ensures |OfKind(index', TABLE_KIND)| + FlushCount(steps)
            == |OfKind(index, TABLE_KIND)| + FlushCount(steps + [step])
  {
    hide OfKind, Pow2, Align, Holds, WrittenOver, SameAbove, SecondaryBlock;
    assert (steps + [step])[..|steps|] == steps;
    if step.FlushTable? {
      OneMoreTable(index, EntryAt(TABLE_KIND, Align(|file|, form.shift)));
    } else {
      NoMoreTables(index, index + [IndexEntry(DATA_BLOCK, TYPE_USER_DATA, next)], index', 0, |file'|);
    }
  }

  lemma OneMoreTable(index: seq<IndexEntry>, e: IndexEntry)
    requires KindOf(e) == TABLE_KIND
    ensures |OfKind(index + [e], TABLE_KIND)| == |OfKind(index, TABLE_KIND)| + 1
  {
    WithoutKindConcat(index, [e], TABLE_KIND);
    assert [e][1..] == [];
  }

  /** Data and parity blocks are no tables. */
  lemma {:induction false} NoMoreTables(index: seq<IndexEntry>, middle: seq<IndexEntry>, index': seq<IndexEntry>,
                                        from: nat, to: nat)
    requires OnlyParityAdded(middle, index', from, to) && index <= middle
    requires forall i :: |index| <= i < |middle| ==> middle[i].blockType == DATA_BLOCK
    ensures OfKind(index', TABLE_KIND) == OfKind(index, TABLE_KIND)
    decreases |index'|
  {
    if |index'| > |index| {
      var n := |index'| - 1;
      if n < |middle| {
        assert middle == index';
        NoMoreTables(index, middle[..n], index'[..n], from, to);
      } else {
        NoMoreTables(index, middle, index'[..n], from, to);
      }
      assert index' == index'[..n] + [index'[n]];
      WithoutKindConcat(index'[..n], [index'[n]], TABLE_KIND);
      assert [index'[n]][1..] == [];
    } else {
      assert index' == index;
    }
  }

  // ---- One flush ----

  /** Write a table that was never written, between two data blocks: it goes to the aligned end of the file,
      its primary entry is set to exactly that position, and the next data block is placed behind its
      uncompressed size.  Every block accumulated stays accounted for. */
  method FlushBetween(w: Writer, layout: Layout, primaryOffset: nat, compressor: Compressor, header: ImageHeader,
                      ddt: DdtHeader, table: array<nat>, s: Secondary)
    requires Ready(w, layout, primaryOffset, table) && compressor.Valid() && ddt.tableShift > 0
    requires |header.identity| == 80 && |header.times| == 35 && w.ledger.floor <= |w.file|
    requires s.cached == 0 && s.position < table.Length && 0 < |s.entries| == Pow2(ddt.tableShift)
    requires |s.entries| < 0x2000_0000
    modifies w`file, w`index, w`next, table
    ensures Ready(w, layout, primaryOffset, table) && |old(w.file)| <= |w.file|
    ensures StepDone(TableForm(ddt, primaryOffset, w.crc, compressor, layout.shift), FlushTable(s), old(table[..]),
                     table[..], old(w.file), w.file, old(w.index), w.index, old(w.next), w.next, w.ledger.floor)
  {
    hide Tracked, Coherent, Align, Pow2, Compressor.Valid, SecondaryBlock, Reserved, Holds, AllFull, Booked, IsCodec;
    hide ParityInvariant, SameAbove;
    ReservedIsHigh(layout, primaryOffset, table.Length);
    SettledInFile(w.codec, w.crc, w.file, w.slots, w.count, w.total, w.stripes, w.shardSize, w.ledger);
    var iw := FlushedWriter(layout, primaryOffset, w.crc, compressor, w.file, w.index, header, ddt, table, s);
    var end := Align(|w.file|, layout.shift) + DDT_HEADER_SIZE + 8 * |s.entries|;
    AlignAtLeast(|w.file|, layout.shift);
    AlignAtLeast(end, layout.shift);
    ClosedAbove(iw.file, iw.index, iw.table[..], iw.layout, iw.history, w.ledger.floor);
    AdoptFlush(w, iw, Align(end, layout.shift));
  }

  /** The closing writer's flush, on the file and the index as they are. */
  method FlushedWriter(layout: Layout, primaryOffset: nat, crc: Crc64, compressor: Compressor, file: Bytes,
                       index: seq<IndexEntry>, header: ImageHeader, ddt: DdtHeader, table: array<nat>, s: Secondary)
    returns (iw: ImageWriter)
    requires layout.hi <= |file| && IMAGE_HEADER_SIZE <= |file| && compressor.Valid() && ddt.tableShift > 0
    requires |header.identity| == 80 && |header.times| == 35 && Reserved(layout, primaryOffset, table.Length)
    requires Coherent(table[..], index, layout.shift, |file|)
    requires s.cached == 0 && s.position < table.Length && 0 < |s.entries| == Pow2(ddt.tableShift)
    requires |s.entries| < 0x2000_0000
    modifies table
    ensures fresh(iw) && iw.table == table && iw.layout == layout && iw.Valid() && iw.history.base == file
    ensures Coherent(table[..], iw.index, layout.shift, |iw.file|) && |file| <= |iw.file|
    ensures var position := Align(|file|, layout.shift);
            && table[s.position] * Pow2(layout.shift) == position
            && (forall i :: 0 <= i < table.Length && i != s.position ==> table[i] == old(table[i]))
            && Holds(iw.file, position, SecondaryBlock(ddt, primaryOffset, crc, compressor, s))
            && iw.index == index + [EntryAt(Kind(DDT_SECONDARY, TYPE_USER_DATA), position)]
  {
    hide Tracked, Coherent, Align, Pow2, Compressor.Valid, SecondaryBlock, Reserved, FlushedTo, Holds, MayFlush;
    ghost var before := table[..];
    AlignAtLeast(|file|, layout.shift);
    NewTableMayFlush(s, ddt.tableShift, table[..], layout.shift);
    iw := new ImageWriter(layout, primaryOffset, crc, compressor, file, index, header, true, ddt, table, true);
    ghost var start := iw.history;
    iw.FlushSecondary(s);
    FlushedFacts(file, index, before, start, iw.file, iw.index, iw.table[..], layout, iw.history, primaryOffset, s,
                 SecondaryBlock(ddt, primaryOffset, crc, compressor, s));
  }

  /** The erasure coding writer goes on behind the flushed table. */
  method AdoptFlush(w: Writer, iw: ImageWriter, next: nat)
    requires w.Valid() && iw.Valid() && iw.history.base == w.file
    requires IMAGE_HEADER_SIZE <= w.ledger.floor && iw.layout.hi <= w.ledger.floor
    modifies w`file, w`index, w`next
    ensures w.Valid() && w.file == iw.file && w.index == iw.index && w.next == next
  {
    hide IsCodec, Booked, ParityInvariant, AllFull, Tracked, Compressor.Valid, Reserved;
    w.next := next;
    AdoptClosed(w, iw);
  }

  lemma NewTableMayFlush(s: Secondary, tableShift: nat, table: seq<nat>, shift: nat)
    requires s.cached == 0 && s.position < |table| && 0 < |s.entries| == Pow2(tableShift) && |s.entries| < 0x2000_0000
    ensures MayFlush(s, tableShift, table, shift, true)
  {
    hide Pow2;
  }

  /** What a flush leaves behind. */
  lemma FlushedFacts(file: Bytes, index: seq<IndexEntry>, table: seq<nat>, h: History, file': Bytes,
                     index': seq<IndexEntry>, table': seq<nat>, l: Layout, h': History, primaryOffset: nat,
                     s: Secondary, block: Bytes)
    requires Tracked(file', index', table', l, h') && h.twoLevel && h.base == file && h.log == [] && s.cached == 0
    requires FlushedTo(file, index, table, h, file', index', table', h', l.shift, primaryOffset, s, block)
    ensures h'.base == file && Coherent(table', index', l.shift, |file'|) && |file| <= |file'|
    ensures var position := Align(|file|, l.shift);
            && table'[s.position] * Pow2(l.shift) == position && |table'| == |table|
            && (forall i :: 0 <= i < |table| && i != s.position ==> table'[i] == table[i])
            && Holds(file', position, block)
            && index' == index + [EntryAt(Kind(DDT_SECONDARY, TYPE_USER_DATA), position)]
  {
    hide Coherent, Align, Pow2, Holds, ShiftRight;
    assert h'.log[0] == Placed(Align(|file|, l.shift), block);
  }

  // ---- The data block behind a flushed table ----

  /** What aligning leaves free behind `n` bytes of table and its header. */
  function Slack(n: nat, shift: nat): nat {
    hide Pow2;
    Align(DDT_HEADER_SIZE + n, shift) - (DDT_HEADER_SIZE + n)
  }

  lemma AlignBase(position: nat, n: nat, shift: nat)
    requires position % Pow2(shift) == 0
    ensures Align(position + n, shift) == position + Align(n, shift)
  {
    hide Pow2;
    var p, a, b := Pow2(shift), Align(position + n, shift), position + Align(n, shift);
    SumOfMultiples(position, Align(n, shift), p);
    if a < b {
      MultiplesApart(b, a, p);
    } else if b < a {
      MultiplesApart(a, b, p);
    }
  }

  lemma SumOfMultiples(x: nat, y: nat, p: nat)
    requires p > 0 && x % p == 0 && y % p == 0
    ensures (x + y) % p == 0
  {
    var i, j := x / p, y / p;
    assert x + y == (i + j) * p;
    MultipleMod(i + j, p);
  }

  lemma {:induction false} PowerDivides(a: nat, b: nat)
    requires a <= b
    ensures Pow2(b) % Pow2(a) == 0
    decreases b - a
  {
    hide Pow2;
    if a < b {
      PowerDivides(a, b - 1);
      Doubled(b);
      SumOfMultiples(Pow2(b - 1), Pow2(b - 1), Pow2(a));
    } else {
      MultipleMod(1, Pow2(a));
    }
  }

  lemma Doubled(n: nat)
    requires n > 0
    ensures Pow2(n) == 2 * Pow2(n - 1) && Pow2(n) > 0 && Pow2(n - 1) > 0
  {
  }

  lemma SeventhPower()
    ensures Pow2(7) == 128
  {
  }

  /** Aligning to 256 bytes or more always leaves room for the properties of a table. */
  lemma RoomyAlignment(tableShift: nat, shift: nat)
    requires shift >= 8
    ensures Slack(8 * Pow2(tableShift), shift) >= LZMA_PROPERTIES_LENGTH
  {
    hide Pow2, Align;
    var n, p := 8 * Pow2(tableShift), Pow2(shift);
    Doubled(tableShift + 1);
    Doubled(tableShift + 2);
    Doubled(tableShift + 3);
    SeventhPower();
    PowersGrow(7, shift - 1);
    Doubled(shift);
    AlignAtLeast(DDT_HEADER_SIZE, shift);
    AlignAtLeast(DDT_HEADER_SIZE + n, shift);
    if tableShift + 3 >= shift {
      PowerDivides(shift, tableShift + 3);
      AlignBase(n, DDT_HEADER_SIZE, shift);
      MultiplesApart(Align(DDT_HEADER_SIZE, shift), 0, p);
    } else {
      PowersGrow(tableShift + 3, shift - 1);
      MultiplesApart(Align(DDT_HEADER_SIZE + n, shift), 0, p);
    }
  }

  /** The next data block is placed behind the uncompressed size of a flushed table.  It leaves what the table
      declares alone exactly when that does not exceed the uncompressed size by more than aligning leaves. */
  lemma NextBlockIsClearIff(c: Compressor, data: Bytes, position: nat, shift: nat)
    requires position % Pow2(shift) == 0 && |data| < 0x1_0000_0000
    ensures position + DDT_HEADER_SIZE + PackTable(c, data).CmpLength()
            <= Align(position + DDT_HEADER_SIZE + |data|, shift)
            <==> PackTable(c, data).CmpLength() <= |data| + Slack(|data|, shift)
  {
    hide Pow2, Align, PackTable;
    AlignBase(position, DDT_HEADER_SIZE + |data|, shift);
  }

  /** A compressor of the LZMA kind that saves one byte, and what undoes it on zeros. */
  function Saver(): Compressor {
    var five: Bytes := [0, 0, 0, 0, 0];
    Compressor(true, false, (b: Bytes) => if |b| > 0 then b[1..] else b, (b: Bytes) => five, (b: Bytes) => five)
  }

  /** With an alignment of two bytes, a table of two entries that hardly shrinks loses its last bytes to the
      next data block. */
  lemma CrampedTable()
    ensures Saver().Valid() && exists d :: Undoes(d, Saver(), ZEROS)
    ensures PackTable(Saver(), ZEROS).CmpLength() > |ZEROS| + Slack(|ZEROS|, 1)
  {
    var d: Decompressor := (payload: Bytes, properties: Bytes) => Some(ZEROS);
    assert Undoes(d, Saver(), ZEROS);
    assert Pow2(1) == 2;
  }

  // ---- A whole session ----

  /** Data blocks and table flushes in any order, once a data block has been written: every data block is
      accounted for in the order written, and the two levels of the table agree with the index. */
  method RunSession(w: Writer, layout: Layout, primaryOffset: nat, compressor: Compressor, header: ImageHeader,
                    ddt: DdtHeader, table: array<nat>, steps: seq<SessionStep>)
    requires Ready(w, layout, primaryOffset, table) && compressor.Valid() && ddt.tableShift > 0
    requires |header.identity| == 80 && |header.times| == 35
    requires StepsAllowed(steps, ddt.tableShift, table.Length)
    requires w.ledger.floor <= |w.file| || |steps| == 0 || steps[0].CloseBlock?
    modifies w, w.parity, table
    ensures Ready(w, layout, primaryOffset, table) && w.ledger.floor == old(w.ledger.floor)
    ensures |old(w.file)| <= |w.file|
    ensures w.ledger.history == old(w.ledger.history) + BlocksOf(steps)
    ensures old(w.ledger.floor) <= |old(w.file)| || |steps| > 0 ==> w.ledger.floor <= |w.file|
    ensures SessionDone(TableForm(ddt, primaryOffset, w.crc, compressor, layout.shift), steps, old(table[..]),
                        old(w.index), old(w.ledger), table[..], w.file, w.index, w.ledger, w.next,
                        Larger(w.ledger.floor, |old(w.file)|))
    ensures w.parity == old(w.parity) || forall m :: 0 <= m < |w.parity| ==> fresh(w.parity[m])
  {
    hide StepsAllowed, Ready, SessionDone, StepDone, Pow2, Compressor.Valid;
    ghost var before, startIndex, start, bound := table[..], w.index, w.ledger, Larger(w.ledger.floor, |w.file|);
    if |steps| == 0 {
      NothingDone(TableForm(ddt, primaryOffset, w.crc, compressor, layout.shift), table[..], w.file, w.index, w.ledger,
                  w.next, bound);
      return;
    }
    var n := |steps| - 1;
    StepsAllowedParts(steps, ddt.tableShift, table.Length);
    assert steps[..n] + [steps[n]] == steps;
    RunSession(w, layout, primaryOffset, compressor, header, ddt, table, steps[..n]);
    RunNext(w, layout, primaryOffset, compressor, header, ddt, table, steps[n], steps[..n], before, startIndex, start,
            bound);
  }

  function Larger(a: nat, b: nat): nat {
    if a < b then b else a
  }

  /** Every primary entry leads to its table, and the index has one more table for each flush and exactly the
      data and parity blocks written. */
  ghost predicate SessionDone(form: TableForm, steps: seq<SessionStep>, before: seq<nat>, startIndex: seq<IndexEntry>,
                              start: Ledger, table: seq<nat>, file: Bytes, index: seq<IndexEntry>, g: Ledger,
                              next: nat, bound: nat) {
    && BlocksIndexed(startIndex, start, index, g)
    && TablesFollow(form, steps, before, table, file, index, next, bound)
    && |OfKind(index, TABLE_KIND)| == |OfKind(startIndex, TABLE_KIND)| + FlushCount(steps)
  }

  lemma NothingDone(form: TableForm, table: seq<nat>, file: Bytes, index: seq<IndexEntry>, g: Ledger, next: nat,
                    bound: nat)
    ensures SessionDone(form, [], table, index, g, table, file, index, g, next, bound)
  {
    hide OfKind;
  }

  lemma SessionPush(form: TableForm, steps: seq<SessionStep>, before: seq<nat>, startIndex: seq<IndexEntry>,
                    start: Ledger, bound: nat, step: SessionStep, table: seq<nat>, table': seq<nat>, file: Bytes,
                    file': Bytes, index: seq<IndexEntry>, index': seq<IndexEntry>, g: Ledger, g': Ledger, next: nat,
                    next': nat, floor: nat)
    requires SessionDone(form, steps, before, startIndex, start, table, file, index, g, next, bound) && floor <= bound
    requires StepIndexed(step, index, index', g, g', next)
    requires StepDone(form, step, table, table', file, file', index, index', next, next', floor)
    requires step.FlushTable? ==> bound <= |file|
    ensures SessionDone(form, steps + [step], before, startIndex, start, table', file', index', g', next', bound)
  {
    hide StepDone, TablesFollow, OfKind, FlushCount, BlocksIndexed, StepIndexed;
    IndexedPush(startIndex, start, step, index, index', g, g', next);
    TablesPush(form, steps, before, bound, step, table, table', file, file', index, index', next, next', floor);
    CountPush(form, steps, step, table, table', file, file', index, index', next, next', floor);
  }

  lemma StepsAllowedParts(steps: seq<SessionStep>, tableShift: nat, length: nat)
    requires StepsAllowed(steps, tableShift, length) && |steps| > 0
    ensures StepsAllowed(steps[..|steps| - 1], tableShift, length)
    ensures StepsAllowed([steps[|steps| - 1]], tableShift, length)
  {
    hide Pow2;
  }

  /** One more step of a session. */
  method RunNext(w: Writer, layout: Layout, primaryOffset: nat, compressor: Compressor, header: ImageHeader,
                 ddt: DdtHeader, table: array<nat>, step: SessionStep, ghost done: seq<SessionStep>,
                 ghost before: seq<nat>, ghost startIndex: seq<IndexEntry>, ghost start: Ledger, ghost bound: nat)
    requires Ready(w, layout, primaryOffset, table) && compressor.Valid() && ddt.tableShift > 0
    requires |header.identity| == 80 && |header.times| == 35 && StepsAllowed([step], ddt.tableShift, table.Length)
    requires (w.ledger.floor <= |w.file| && bound <= |w.file|) || step.CloseBlock?
    requires SessionDone(TableForm(ddt, primaryOffset, w.crc, compressor, layout.shift), done, before, startIndex,
                         start, table[..], w.file, w.index, w.ledger, w.next, bound) && w.ledger.floor <= bound
    modifies w, w.parity, table
    ensures Ready(w, layout, primaryOffset, table) && w.ledger.floor == old(w.ledger.floor)
    ensures w.ledger.history == old(w.ledger.history) + if step.CloseBlock? then [step.block.Bytes()] else []
    ensures |old(w.file)| <= |w.file| && w.ledger.floor <= |w.file|
    ensures SessionDone(TableForm(ddt, primaryOffset, w.crc, compressor, layout.shift), done + [step], before,
                        startIndex, start, table[..], w.file, w.index, w.ledger, w.next, bound)
    ensures w.parity == old(w.parity) || forall m :: 0 <= m < |w.parity| ==> fresh(w.parity[m])
  {
    hide Ready, SessionDone, StepDone, StepsAllowed, OpenBlock.Bytes, StepIndexed;
    ghost var table0, file, index, g, next := table[..], w.file, w.index, w.ledger, w.next;
    RunStep(w, layout, primaryOffset, compressor, header, ddt, table, step);
    SessionPush(TableForm(ddt, primaryOffset, w.crc, compressor, layout.shift), done, before, startIndex, start, bound,
                step, table0, table[..], file, w.file, index, w.index, g, w.ledger, next, w.next, w.ledger.floor);
  }

  method RunStep(w: Writer, layout: Layout, primaryOffset: nat, compressor: Compressor, header: ImageHeader,
                 ddt: DdtHeader, table: array<nat>, step: SessionStep)
    requires Ready(w, layout, primaryOffset, table) && compressor.Valid() && ddt.tableShift > 0
    requires |header.identity| == 80 && |header.times| == 35 && StepsAllowed([step], ddt.tableShift, table.Length)
    requires w.ledger.floor <= |w.file| || step.CloseBlock?
    modifies w, w.parity, table
    ensures Ready(w, layout, primaryOffset, table) && w.ledger.floor == old(w.ledger.floor)
    ensures w.ledger.history == old(w.ledger.history) + if step.CloseBlock? then [step.block.Bytes()] else []
    ensures |old(w.file)| <= |w.file| && w.ledger.floor <= |w.file|
    ensures StepDone(TableForm(ddt, primaryOffset, w.crc, compressor, layout.shift), step, old(table[..]), table[..],
                     old(w.file), w.file, old(w.index), w.index, old(w.next), w.next, w.ledger.floor)
    ensures StepIndexed(step, old(w.index), w.index, old(w.ledger), w.ledger, old(w.next))
    ensures w.parity == old(w.parity) || forall m :: 0 <= m < |w.parity| ==> fresh(w.parity[m])
  {
    hide Ready, Pow2, OpenBlock.Valid, Align, Holds, SecondaryBlock, WrittenOver, OnlyParityAdded, SameAbove;
    hide StripeIndexed;
    assert step == [step][0];
    match step {
      case CloseBlock(b) => WriteNext(w, layout, primaryOffset, table, b);
      case FlushTable(s) => FlushBetween(w, layout, primaryOffset, compressor, header, ddt, table, s);
    }
  }

  method WriteNext(w: Writer, layout: Layout, primaryOffset: nat, table: array<nat>, b: OpenBlock)
    requires Ready(w, layout, primaryOffset, table) && b.Valid()
    modifies w, w.parity
    ensures Ready(w, layout, primaryOffset, table) && w.ledger.floor == old(w.ledger.floor)
    ensures w.ledger.history == old(w.ledger.history) + [b.Bytes()]
    ensures |old(w.file)| <= |w.file| && w.ledger.floor <= |w.file| && old(w.next) <= w.next
    ensures table[..] == old(table[..])
    ensures WrittenOver(old(w.file), old(w.next), b.Bytes(), w.file)
    ensures OnlyParityAdded(old(w.index) + [IndexEntry(DATA_BLOCK, TYPE_USER_DATA, old(w.next))], w.index, 0, |w.file|)
    ensures w.ledger.offsets == old(w.ledger.offsets) + [old(w.next)]
    ensures StripeIndexed(old(w.index) + [IndexEntry(DATA_BLOCK, TYPE_USER_DATA, old(w.next))], w.index,
                          old(w.ledger.done), w.ledger.done)
    ensures w.parity == old(w.parity) || forall m :: 0 <= m < |w.parity| ==> fresh(w.parity[m])
  {
    hide IsCodec, Booked, ParityInvariant, AllFull, Coherent, Reserved, Align, BlockBytes, OnlyParityAdded;
    hide WrittenOver, Holds, Rising, ActualSize, FitsShard, StripeIndexed;
    ghost var file, index, next := w.file, w.index, w.next;
    w.WriteBlock(b.header, b.props, b.payload, b.surplus);
    BlockKeepsCoherent(table[..], index, file, next, b.Bytes(), w.index, w.file, layout);
  }

  lemma ReservedIsHigh(l: Layout, primaryOffset: nat, entries: nat)
    requires Reserved(l, primaryOffset, entries)
    ensures IMAGE_HEADER_SIZE <= l.hi
  {
  }

  lemma SettledInFile(c: Codec, crc: Crc64, file: Bytes, slots: Slots, count: nat, total: nat, stripes: Bytes,
                      shardSize: nat, g: Ledger)
    requires Booked(c, crc, file, slots, count, total, stripes, shardSize, g)
    ensures g.settled <= |file|
  {
    hide OpenStored, StripeStored, EncodeStripes, Flatten;
  }

  lemma BlockKeepsCoherent(table: seq<nat>, index: seq<IndexEntry>, file: Bytes, next: nat, block: Bytes,
                           index': seq<IndexEntry>, file': Bytes, l: Layout)
    requires Coherent(table, index, l.shift, |file|) && WrittenOver(file, next, block, file')
    requires OnlyParityAdded(index + [IndexEntry(DATA_BLOCK, TYPE_USER_DATA, next)], index', 0, |file'|)
    ensures Coherent(table, index', l.shift, |file'|) && |file| <= |file'| && next <= |file'|
  {
    hide Coherent;
    CoherentGrows(table, index, l.shift, |file|, |file'|);
    CoherentWithBlocks(table, index, index', l.shift, |file'|);
  }

  // ---- From the first block to the footer ----

  /** Nothing more than the table pending, and the blocks, is asked of a close after a session. */
  ghost predicate ClosableLater(p: Pending, tableShift: nat, length: nat, shift: nat) {
    forall table: seq<nat> :: |table| == length ==> Closable(p, tableShift, table, shift, true)
  }

  /** What a session and the close leave of the tables in the image: every primary entry leads to the table last
      flushed for it, the one flushed by the close included, where it is indexed; or it is what it was before. */
  ghost predicate TablesInImage(form: TableForm, steps: seq<SessionStep>, before: seq<nat>, table: seq<nat>,
                                file: Bytes, index: seq<IndexEntry>, pending: Option<Secondary>) {
    && |table| == |before|
    && forall p :: 0 <= p < |table| ==>
         var place := table[p] * Pow2(form.shift);
         if pending.Some? && pending.value.position == p then
           && |pending.value.entries| < 0x2000_0000 && EntryAt(TABLE_KIND, place) in index
           && Holds(file, place, form.Block(pending.value))
         else
           match LastFlush(steps, p)
           case None => table[p] == before[p]
           case Some(s) =>
             |s.entries| < 0x2000_0000 && EntryAt(TABLE_KIND, place) in index && Holds(file, place, form.Kept(s))
  }

  /** A table below the place of the open block stays through the start of the close, and through the close. */
  lemma CloseKeeps(file: Bytes, index: seq<IndexEntry>, next: nat, header: ImageHeader, current: Option<OpenBlock>,
                   base: Bytes, start: seq<IndexEntry>, closed: Bytes, lo: nat, hi: nat, place: nat, kept: Bytes)
    requires Opened(file, index, next, header, current, base, start) && FileRegions.Kept(base, closed, lo, hi)
    requires Holds(file, place, kept) && place + |kept| <= next && IMAGE_HEADER_SIZE <= place && hi <= place
    ensures Holds(closed, place, kept)
  {
    hide HeaderOnDisk, OnlyParityAdded;
    forall i | 0 <= i < |kept|
      ensures closed[place..place + |kept|][i] == kept[i]
    {
      assert file[place..place + |kept|][i] == kept[i];
      assert base[place + i] == file[place + i];
    }
  }

  lemma IsIndexed(file: Bytes, index: seq<IndexEntry>, table: seq<nat>, l: Layout, h: History, p: nat)
    requires Tracked(file, index, table, l, h) && h.twoLevel && p < |table| && table[p] * Pow2(l.shift) > 0
    ensures EntryAt(TABLE_KIND, table[p] * Pow2(l.shift)) in index
  {
    hide Laid, FileRegions.Kept, Align, Pow2;
    ZeroTimes(table[p], Pow2(l.shift));
    assert TableEntry(table[p], l.shift) in index;
  }

  /** A table flushed in the session, after the close. */
  lemma FlushedInImage(form: TableForm, s: Secondary, file: Bytes, index: seq<IndexEntry>, next: nat, bound: nat,
                       header: ImageHeader, current: Option<OpenBlock>, closed: Bytes, closedIndex: seq<IndexEntry>,
                       closedTable: seq<nat>, l: Layout, h: History, p: nat)
    requires p < |closedTable| && form.shift == l.shift && IMAGE_HEADER_SIZE <= bound && l.hi <= bound
    requires TableAt(form, s, closedTable[p] * Pow2(form.shift), file, index, next, bound)
    requires Opened(file, index, next, header, current, h.base, h.start) && h.twoLevel
    requires Tracked(closed, closedIndex, closedTable, l, h)
    ensures EntryAt(TABLE_KIND, closedTable[p] * Pow2(form.shift)) in closedIndex
    ensures Holds(closed, closedTable[p] * Pow2(form.shift), form.Kept(s))
  {
    hide Opened, Pow2, SecondaryBlock, Align;
    IsIndexed(closed, closedIndex, closedTable, l, h, p);
    TrackedIsKept(closed, closedIndex, closedTable, l, h);
    hide Tracked;
    CloseKeeps(file, index, next, header, current, h.base, h.start, closed, l.lo, l.hi,
               closedTable[p] * Pow2(form.shift), form.Kept(s));
  }

  lemma TrackedIsKept(file: Bytes, index: seq<IndexEntry>, table: seq<nat>, l: Layout, h: History)
    requires Tracked(file, index, table, l, h)
    ensures FileRegions.Kept(h.base, file, l.lo, l.hi) && Laid(file, h.log, h.floor, l.shift)
    ensures IMAGE_HEADER_SIZE <= h.floor
  {
    hide Laid, FileRegions.Kept, Align, Coherent;
  }

  /** The table flushed by the close. */
  lemma PendingInImage(form: TableForm, s: Secondary, closed: Bytes, closedIndex: seq<IndexEntry>,
                       closedTable: seq<nat>, l: Layout, h: History)
    requires form.shift == l.shift && |s.entries| < 0x2000_0000
    requires SecondaryDone(closedTable, h.log, s.position, form.Block(s), l.shift)
    requires Tracked(closed, closedIndex, closedTable, l, h) && h.twoLevel
    ensures s.position < |closedTable|
    ensures EntryAt(TABLE_KIND, closedTable[s.position] * Pow2(l.shift)) in closedIndex
    ensures Holds(closed, closedTable[s.position] * Pow2(l.shift), form.Block(s))
  {
    hide Pow2, SecondaryBlock;
    TrackedIsKept(closed, closedIndex, closedTable, l, h);
    var k :| 0 <= k < |h.log| && h.log[k] == Placed(closedTable[s.position] * Pow2(l.shift), form.Block(s));
    assert h.floor <= h.log[k].offset;
    IsIndexed(closed, closedIndex, closedTable, l, h, s.position);
  }

  lemma TablesAfterClose(form: TableForm, steps: seq<SessionStep>, before: seq<nat>, table: seq<nat>, file: Bytes,
                         index: seq<IndexEntry>, next: nat, bound: nat, header: ImageHeader,
                         current: Option<OpenBlock>, closed: Bytes, closedIndex: seq<IndexEntry>,
                         closedTable: seq<nat>, l: Layout, h: History, pending: Option<Secondary>)
    requires TablesFollow(form, steps, before, table, file, index, next, bound)
    requires form.shift == l.shift && IMAGE_HEADER_SIZE <= bound && l.hi <= bound
    requires Opened(file, index, next, header, current, h.base, h.start) && h.twoLevel
    requires Tracked(closed, closedIndex, closedTable, l, h) && OtherEntriesKept(table, closedTable, pending)
    requires pending.Some? ==>
              |pending.value.entries| < 0x2000_0000
              && SecondaryDone(closedTable, h.log, pending.value.position, form.Block(pending.value), l.shift)
    ensures TablesInImage(form, steps, before, closedTable, closed, closedIndex, pending)
  {
    hide Opened, Tracked, TableAt, Pow2, SecondaryBlock, SecondaryDone, Holds, TableForm.Kept;
    forall p | 0 <= p < |closedTable| && pending.Some? && pending.value.position == p
      ensures EntryAt(TABLE_KIND, closedTable[p] * Pow2(form.shift)) in closedIndex
      ensures Holds(closed, closedTable[p] * Pow2(form.shift), form.Block(pending.value))
    {
      PendingInImage(form, pending.value, closed, closedIndex, closedTable, l, h);
    }
    forall p | 0 <= p < |closedTable| && !(pending.Some? && pending.value.position == p) && LastFlush(steps, p).Some?
      ensures |LastFlush(steps, p).value.entries| < 0x2000_0000
      ensures EntryAt(TABLE_KIND, closedTable[p] * Pow2(form.shift)) in closedIndex
      ensures Holds(closed, closedTable[p] * Pow2(form.shift), form.Kept(LastFlush(steps, p).value))
    {
      var s := LastFlush(steps, p).value;
      assert closedTable[p] == table[p];
      FitsInTable(form, s, table[p] * Pow2(form.shift), file, index, next, bound);
      FlushedInImage(form, s, file, index, next, bound, header, current, closed, closedIndex, closedTable, l, h, p);
    }
  }

  lemma FitsInTable(form: TableForm, s: Secondary, place: nat, file: Bytes, index: seq<IndexEntry>, next: nat,
                    bound: nat)
    requires TableAt(form, s, place, file, index, next, bound)
    ensures |s.entries| < 0x2000_0000
  {
    hide SecondaryBlock, Align;
  }

  // ---- What the close leaves of the data blocks in the index ----

  lemma {:induction false} NoneOfKind(index: seq<IndexEntry>, kind: Kind)
    requires forall i :: 0 <= i < |index| ==> KindOf(index[i]) != kind
    ensures OfKind(index, kind) == []
  {
    if |index| > 0 {
      NoneOfKind(index[1..], kind);
    }
  }

  lemma NoEntries(dataType: nat)
    ensures BlockEntries(dataType, []) == []
  {
  }

  /** Parity is no user data. */
  lemma OneDataBlockAdded(index: seq<IndexEntry>, next: nat, index': seq<IndexEntry>, from: nat, to: nat)
    requires OnlyParityAdded(index + [IndexEntry(DATA_BLOCK, TYPE_USER_DATA, next)], index', from, to)
    ensures OfKind(index', DATA_KIND) == OfKind(index, DATA_KIND) + [IndexEntry(DATA_BLOCK, TYPE_USER_DATA, next)]
  {
    hide OfKind;
    var e := IndexEntry(DATA_BLOCK, TYPE_USER_DATA, next);
    var rest := index'[|index| + 1..];
    assert index' == index + [e] + rest;
    NoneOfKind(rest, DATA_KIND);
    WithoutKindConcat(index + [e], rest, DATA_KIND);
    WithoutKindConcat(index, [e], DATA_KIND);
    OfOneKind([e], DATA_KIND, DATA_KIND);
  }

  /** The open block is indexed behind the others. */
  lemma OpenIsIndexed(file: Bytes, index: seq<IndexEntry>, next: nat, header: ImageHeader,
                      current: Option<OpenBlock>, base: Bytes, start: seq<IndexEntry>)
    requires Opened(file, index, next, header, current, base, start)
    ensures OfKind(start, DATA_KIND)
            == OfKind(index, DATA_KIND) + BlockEntries(TYPE_USER_DATA, if current.Some? then [next] else [])
  {
    hide OfKind, HeaderOnDisk, Holds, BlockEntries, OnlyParityAdded, OpenBlock.Bytes;
    if current.Some? {
      OneDataBlockAdded(index, next, start, 0, |base|);
      OneEntry(TYPE_USER_DATA, next);
    } else {
      NoEntries(TYPE_USER_DATA);
    }
  }

  /** Unless the close is asked to discard data blocks, exactly those accounted for are added to the index, in
      the order written. */
  ghost predicate DataIndexed(before: seq<IndexEntry>, start: seq<nat>, index: seq<IndexEntry>, offsets: seq<nat>,
                              p: Pending) {
    && start <= offsets
    && (Untouched(DATA_KIND, AllTasks(p)) ==>
          OfKind(index, DATA_KIND)
          == OfKind(before, DATA_KIND) + BlockEntries(TYPE_USER_DATA, offsets[|start|..]))
  }

  lemma DataAfterClose(file: Bytes, index: seq<IndexEntry>, next: nat, header: ImageHeader,
                       current: Option<OpenBlock>, base: Bytes, start: seq<IndexEntry>, closed: seq<IndexEntry>,
                       p: Pending, before: seq<nat>, offsets: seq<nat>)
    requires Opened(file, index, next, header, current, base, start) && UntouchedKept(start, closed, AllTasks(p))
    requires offsets == before + if current.Some? then [next] else []
    ensures DataIndexed(index, before, closed, offsets, p)
  {
    hide OfKind, Opened, Untouched, AllTasks;
    OpenIsIndexed(file, index, next, header, current, base, start);
    assert offsets[|before|..] == if current.Some? then [next] else [];
  }

  lemma DataOfSession(startIndex: seq<IndexEntry>, start: Ledger, index: seq<IndexEntry>, g: Ledger,
                      closed: seq<IndexEntry>, offsets: seq<nat>, p: Pending)
    requires BlocksIndexed(startIndex, start, index, g) && DataIndexed(index, g.offsets, closed, offsets, p)
    ensures DataIndexed(startIndex, start.offsets, closed, offsets, p)
  {
    hide OfKind, Untouched, AllTasks, BlockEntries, ParityPlaces;
    var n, m := |start.offsets|, |g.offsets|;
    SplitBehind(offsets, n, m);
    assert offsets[..m] == g.offsets;
    EntriesConcat(TYPE_USER_DATA, g.offsets[n..], offsets[m..]);
  }

  lemma SplitBehind(s: seq<nat>, n: nat, m: nat)
    requires n <= m <= |s|
    ensures s[n..] == s[..m][n..] + s[m..]
  {
  }

  /** Write data blocks and flush tables in any order, then close and protect the image: every block written,
      in the order written, is in the finalized image, and every primary entry leads to its table. */
  method WriteAndClose(w: Writer, layout: Layout, primaryOffset: nat, compressor: Compressor, header: ImageHeader,
                       ddt: DdtHeader, table: array<nat>, steps: seq<SessionStep>, current: Option<OpenBlock>,
                       p: Pending)
    returns (ok: bool, ghost f: FinalImage, ghost closedTable: seq<nat>)
    requires Ready(w, layout, primaryOffset, table) && compressor.Valid() && ddt.tableShift > 0 && w.algorithm < 0x100
    requires |header.identity| == 80 && |header.times| == 35
    requires StepsAllowed(steps, ddt.tableShift, table.Length) && |steps| > 0 && steps[0].CloseBlock?
    requires (current.Some? ==> current.value.Valid()) && ClosableLater(p, ddt.tableShift, table.Length, layout.shift)
    modifies w, w.parity, table
    ensures ok <==> CapturesFit(p.captures)
    ensures ok ==> f.Valid() && f.written == w.file && f.crc == w.crc && f.codec == w.codec
                   && f.history == WithOpen(old(w.ledger.history) + BlocksOf(steps), current)
    ensures ok ==> TablesInImage(TableForm(ddt, primaryOffset, w.crc, compressor, layout.shift), steps,
                                 old(table[..]), closedTable, f.start, f.startIndex, p.secondary)
    ensures ok ==> DataIndexed(old(w.index), old(w.ledger.offsets), f.startIndex, f.offsets, p)
  {
    hide DataIndexed, BlocksIndexed;
    ghost var before, bound := table[..], Larger(w.ledger.floor, |w.file|);
    RunSession(w, layout, primaryOffset, compressor, header, ddt, table, steps);
    ghost var index, g := w.index, w.ledger;
    ok, f, closedTable :=
      CloseReady(w, layout, primaryOffset, compressor, header, ddt, table, current, p, steps, before, bound);
    if ok {
      DataOfSession(old(w.index), old(w.ledger), index, g, f.startIndex, f.offsets, p);
    }
  }

  method CloseReady(w: Writer, layout: Layout, primaryOffset: nat, compressor: Compressor, header: ImageHeader,
                    ddt: DdtHeader, table: array<nat>, current: Option<OpenBlock>, p: Pending,
                    ghost steps: seq<SessionStep>, ghost before: seq<nat>, ghost bound: nat)
    returns (ok: bool, ghost f: FinalImage, ghost closedTable: seq<nat>)
    requires Ready(w, layout, primaryOffset, table) && compressor.Valid() && ddt.tableShift > 0 && w.algorithm < 0x100
    requires |header.identity| == 80 && |header.times| == 35 && w.ledger.floor <= |w.file| && w.ledger.floor <= bound
    requires (current.Some? ==> current.value.Valid()) && ClosableLater(p, ddt.tableShift, table.Length, layout.shift)
    requires TablesFollow(TableForm(ddt, primaryOffset, w.crc, compressor, layout.shift), steps, before, table[..],
                          w.file, w.index, w.next, bound)
    modifies w, w.parity, table
    ensures ok <==> CapturesFit(p.captures)
    ensures ok ==> f.Valid() && f.written == w.file && f.crc == w.crc && f.codec == w.codec
                   && f.history == WithOpen(old(w.ledger.history), current)
    ensures ok ==> TablesInImage(TableForm(ddt, primaryOffset, w.crc, compressor, layout.shift), steps, before,
                                 closedTable, f.start, f.startIndex, p.secondary)
    ensures ok ==> DataIndexed(old(w.index), old(w.ledger.offsets), f.startIndex, f.offsets, p)
  {
    hide IsCodec, Booked, ParityInvariant, AllFull, Tracked, Closed, Closable, Coherent, Reserved, Align, Opened;
    hide OpenBlock.Valid, Compressor.Valid, IndexKept, FinalImage.Valid, Marks, CapturesFit, TablesFollow;
    hide TablesInImage, OtherEntriesKept, DataIndexed, UntouchedKept;
    AlignAtLeast(|w.file|, layout.shift);
    assert Closable(p, ddt.tableShift, table[..], layout.shift, true);
    PendingAllowed(p, ddt.tableShift, table[..], layout.shift);
    ghost var table0, file, index, next, offsets := table[..], w.file, w.index, w.next, w.ledger.offsets;
    var iw;
    ghost var closed;
    iw, ok, closed, closedTable, f :=
      CloseProtected(w, layout, primaryOffset, compressor, header, current, true, ddt, table, p, true);
    if ok {
      PendingDone(closed, iw.index, closedTable, iw.history.log, iw.header, ddt, p, primaryOffset, w.crc, compressor,
                  layout.shift);
      TablesAfterClose(TableForm(ddt, primaryOffset, w.crc, compressor, layout.shift), steps, before, table0, file,
                       index, next, bound, header, current, closed, iw.index, closedTable, layout, iw.history,
                       p.secondary);
      DataAfterClose(file, index, next, header, current, iw.history.base, iw.history.start, iw.index, p, offsets,
                     f.offsets);
    }
  }

  lemma PendingAllowed(p: Pending, tableShift: nat, table: seq<nat>, shift: nat)
    requires Closable(p, tableShift, table, shift, true) && tableShift > 0
    ensures p.tape.None? && (p.secondary.Some? ==> |p.secondary.value.entries| < 0x2000_0000)
  {
    hide Pow2;
  }

  lemma PendingDone(closed: Bytes, index: seq<IndexEntry>, table: seq<nat>, log: seq<Placed>, header: ImageHeader,
                    ddt: DdtHeader, p: Pending, primaryOffset: nat, crc: Crc64, c: Compressor, shift: nat)
    requires exists entries, placed, added ::
               Closed(closed, index, table, log, header, ddt, p, entries, placed, added, primaryOffset, crc, c, shift)
    requires p.tape.None? && ddt.tableShift > 0 && p.secondary.Some? ==> |p.secondary.value.entries| < 0x2000_0000
    ensures p.tape.None? && ddt.tableShift > 0 && p.secondary.Some? ==>
              SecondaryDone(table, log, p.secondary.value.position,
                            SecondaryBlock(ddt, primaryOffset, crc, c, p.secondary.value), shift)
  {
    hide TasksSettled, FluxDone, HeaderOnDisk, SecondaryDone, PrimaryDone, SecondaryBlock;
  }
}
