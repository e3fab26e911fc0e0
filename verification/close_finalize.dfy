/** `aaruf_finalize_write` (src/close_write.c): the whole closing sequence over one image, and what it
    leaves on disk.
 */
module CloseFinalize {
  import opened Wrappers
  import opened Octet
  import opened ImageFile
  import opened FileRegions
  import opened BlockIndex
  import opened IndexBlock
  import opened DdtTable
  import opened CloseTracking
  import opened CloseWrite

  const CHECKSUM_BLOCK: nat := 0x4D534B43
  const DPM_BLOCK: nat := 0x2A4D5044

  /** What a block writer is asked for: write its block, or drop the measurement block that was cleared. */
  datatype Task = Write(job: Job) | ClearMeasurements
  {
    ghost predicate Valid() {
      Write? ==> job.Valid() && job.kind.blockType != STREAM_BLOCK && job.kind.blockType != FLUX_BLOCK
                 && job.kind != PrimaryKind()
    }

    /** The kind whose older entries the task throws away, if any. */
    predicate Discards(kind: Kind) {
      if Write? then job.Indexed() && job.kind == kind else kind == Kind(DPM_BLOCK, 0)
    }
  }

  /** The data block being filled when the image is closed: where it goes and everything written there. */
  datatype CurrentBlock = CurrentBlock(position: nat, bytes: Bytes)

  /** The checksum block; a BLAKE3 digest sets a feature bit in the image header. */
  datatype Checksums = Checksums(bytes: Bytes, blake3: bool)

  /** Everything that is pending when the image is closed, in the order in which it is written. */
  datatype Pending = Pending(tape: Option<map<nat, nat>>, secondary: Option<Secondary>, primary: bool, single: bool,
                             checksums: Option<Checksums>, tracks: seq<Task>, captures: seq<Capture>, tasks: seq<Task>)

  // ---- Blocks that are still indexed ----

  /** The index has exactly one entry of the kind of the job, and the job's block is where it points. */
  ghost predicate Settled(index: seq<IndexEntry>, log: seq<Placed>, job: Job) {
    exists m :: 0 <= m < |log| && log[m].bytes == job.Contents()
                && OfKind(index, job.kind) == [EntryAt(job.kind, log[m].offset)]
  }

  /** Task `i` wrote an indexed block and no later task discards its kind. */
  predicate Newest(tasks: seq<Task>, i: nat)
    requires i < |tasks|
  {
    tasks[i].Write? && tasks[i].job.Indexed() && forall j :: i < j < |tasks| ==> !tasks[j].Discards(tasks[i].job.kind)
  }

  ghost predicate TasksSettled(index: seq<IndexEntry>, log: seq<Placed>, tasks: seq<Task>) {
    forall i :: 0 <= i < |tasks| && Newest(tasks, i) ==> Settled(index, log, tasks[i].job)
  }

  lemma SettledKept(index: seq<IndexEntry>, log: seq<Placed>, index': seq<IndexEntry>, log': seq<Placed>, job: Job)
    requires Settled(index, log, job) && log <= log' && OfKind(index', job.kind) == OfKind(index, job.kind)
    ensures Settled(index', log', job)
  {
    var m :| 0 <= m < |log| && log[m].bytes == job.Contents()
             && OfKind(index, job.kind) == [EntryAt(job.kind, log[m].offset)];
    assert log'[m] == log[m];
  }

  /** The index after a task, which placed its block at `position`. */
  function AfterTask(index: seq<IndexEntry>, t: Task, position: nat): seq<IndexEntry> {
    if t.ClearMeasurements? then WithoutKind(index, Kind(DPM_BLOCK, 0))
    else if t.job.Indexed() then Replaced(index, t.job.kind, position)
    else index
  }

  lemma AfterTaskKeeps(index: seq<IndexEntry>, t: Task, position: nat, kind: Kind)
    ensures !t.Discards(kind) ==> OfKind(AfterTask(index, t, position), kind) == OfKind(index, kind)
    ensures t.Write? && t.job.Indexed() ==>
              OfKind(AfterTask(index, t, position), t.job.kind) == [EntryAt(t.job.kind, position)]
  {
    if t.ClearMeasurements? {
      ErasingKeepsOtherKinds(index, Kind(DPM_BLOCK, 0), kind);
    } else if t.job.Indexed() {
      ReplacedHasOne(index, t.job.kind, position, kind);
      ReplacedHasOne(index, t.job.kind, position, t.job.kind);
    }
  }

  lemma TaskSettles(index: seq<IndexEntry>, log: seq<Placed>, done: seq<Task>, t: Task, position: nat,
                    log': seq<Placed>)
    requires TasksSettled(index, log, done) && log <= log'
    requires t.Write? ==> log' == log + [Placed(position, t.job.Contents())]
    ensures TasksSettled(AfterTask(index, t, position), log', done + [t])
  {
    hide OfKind, AfterTask, Settled;
    var all := done + [t];
    forall i | 0 <= i < |all| && Newest(all, i)
      ensures Settled(AfterTask(index, t, position), log', all[i].job)
    {
      AfterTaskKeeps(index, t, position, all[i].job.kind);
      if i < |done| {
        assert all[|done|] == t;
        assert forall j :: 0 <= j < |done| ==> all[j] == done[j];
        assert Newest(done, i);
        SettledKept(index, log, AfterTask(index, t, position), log', done[i].job);
      } else {
        NewlySettled(AfterTask(index, t, position), log', t.job, position);
      }
    }
  }

  lemma NewlySettled(index: seq<IndexEntry>, log: seq<Placed>, job: Job, position: nat)
    requires |log| > 0 && log[|log| - 1] == Placed(position, job.Contents())
    requires OfKind(index, job.kind) == [EntryAt(job.kind, position)]
    ensures Settled(index, log, job)
  {
    var m := |log| - 1;
    assert 0 <= m < |log| && log[m].bytes == job.Contents();
  }

  /** Entries that no task touches stay: flux blocks, and one entry at least of every other kind but the
      measurement block. */
  lemma AfterTaskKeepsFlux(index: seq<IndexEntry>, t: Task, position: nat, e: IndexEntry)
    requires t.Valid() && IsFlux(e) && e in index
    ensures e in AfterTask(index, t, position)
  {
    AfterTaskKeeps(index, t, position, KindOf(e));
    InOfKind(index, e);
    InOfKind(AfterTask(index, t, position), e);
  }

  lemma AfterTaskNotEmpty(index: seq<IndexEntry>, t: Task, position: nat)
    requires OfKind(index, Kind(CHECKSUM_BLOCK, 0)) != []
    ensures OfKind(AfterTask(index, t, position), Kind(CHECKSUM_BLOCK, 0)) != []
  {
    AfterTaskKeeps(index, t, position, Kind(CHECKSUM_BLOCK, 0));
  }

  /** Two moments of the same run, the second not earlier. */
  ghost predicate SameRun(h: History, h': History) {
    && h'.base == h.base && h'.start == h.start && h'.floor == h.floor && h'.twoLevel == h.twoLevel
    && h.log <= h'.log && h.steps <= h'.steps
  }

  // ---- When the index is written anew ----

  predicate IndexesBlock(t: Task) {
    t.Write? && t.job.Indexed()
  }

  /** The tasks change the index: one of them indexes its block, or one clears a measurement block that the
      index has. */
  predicate TasksMark(tasks: seq<Task>, index: seq<IndexEntry>) {
    || (exists i :: 0 <= i < |tasks| && IndexesBlock(tasks[i]))
    || (OfKind(index, Kind(DPM_BLOCK, 0)) != [] && ClearMeasurements in tasks)
  }

  lemma TasksMarkPush(tasks: seq<Task>, t: Task, index: seq<IndexEntry>)
    ensures TasksMark(tasks + [t], index) <==>
              || TasksMark(tasks, index)
              || IndexesBlock(t)
              || (t.ClearMeasurements? && OfKind(index, Kind(DPM_BLOCK, 0)) != [])
  {
    hide OfKind, IndexesBlock;
    var all := tasks + [t];
    assert all[|tasks|] == t;
    assert forall i :: 0 <= i < |tasks| ==> all[i] == tasks[i];
  }

  lemma TasksMarkConcat(a: seq<Task>, b: seq<Task>, index: seq<IndexEntry>)
    ensures TasksMark(a + b, index) <==> TasksMark(a, index) || TasksMark(b, index)
  {
    hide OfKind, IndexesBlock;
    var all := a + b;
    assert forall i :: 0 <= i < |a| ==> all[i] == a[i];
    assert forall i :: 0 <= i < |b| ==> all[|a| + i] == b[i];
  }

  lemma {:induction false} ErasesNothingIff(index: seq<IndexEntry>, kind: Kind)
    ensures WithoutKind(index, kind) == index <==> OfKind(index, kind) == []
  {
    if |index| > 0 {
      ErasesNothingIff(index[1..], kind);
    }
  }

  /** A table is pending and will be written and indexed. */
  predicate TablesPending(p: Pending, tableShift: nat, length: nat) {
    if p.tape.Some? then true
    else if tableShift == 0 then p.single && length > 0
    else p.secondary.Some? || p.primary
  }

  /** Something pending makes the close write the index anew.  Flux captures do not. */
  predicate Marks(p: Pending, tableShift: nat, length: nat, index: seq<IndexEntry>) {
    TablesPending(p, tableShift, length) || TasksMark(AllTasks(p), index)
  }

  method WriteTask(w: ImageWriter, t: Task) returns (ghost position: nat)
    requires w.Valid() && t.Valid()
    modifies w`file, w`index, w`dirtyIndex, w`history
    ensures w.dirtyIndex == (old(w.dirtyIndex) || IndexesBlock(t)
                             || (t.ClearMeasurements? && OfKind(old(w.index), Kind(DPM_BLOCK, 0)) != []))
    ensures !IndexesBlock(t) && (t.ClearMeasurements? ==> OfKind(old(w.index), Kind(DPM_BLOCK, 0)) == []) ==>
              w.index == old(w.index)
    ensures w.Valid() && w.index == AfterTask(old(w.index), t, position) && old(w.file) <= w.file
    ensures SameRun(old(w.history), w.history) && (old(w.dirtyIndex) ==> w.dirtyIndex)
    ensures t.Write? ==> w.history.log == old(w.history.log) + [Placed(position, t.job.Contents())]
    ensures t.Write? && t.job.Indexed() ==> w.dirtyIndex
  {
    hide Tracked, Compressor.Valid, Reserved, WithoutKind, WriteAt, Align, OfKind;
    ErasesNothingIff(w.index, Kind(DPM_BLOCK, 0));
    position := Align(|w.file|, w.layout.shift);
    NewPosition(w.file, w.index, w.table[..], w.layout, w.history);
    match t {
      case Write(job) =>
        Appended(w.file, position, job.Contents());
        w.WriteJob(job);
      case ClearMeasurements =>
        w.ClearKind(Kind(DPM_BLOCK, 0));
    }
  }

  /** What the block writers leave alone, besides the file: flux entries, the primary table's entry and
      at least one checksum entry. */
  ghost predicate OthersKept(index: seq<IndexEntry>, index': seq<IndexEntry>) {
    && (forall e :: IsFlux(e) && e in index ==> e in index')
    && OfKind(index', PrimaryKind()) == OfKind(index, PrimaryKind())
    && (OfKind(index, Kind(CHECKSUM_BLOCK, 0)) != [] ==> OfKind(index', Kind(CHECKSUM_BLOCK, 0)) != [])
  }

  /** A kind that no task discards, and that is neither a table nor flux. */
  ghost predicate Untouched(kind: Kind, tasks: seq<Task>) {
    && kind.blockType !in {DDT_SECONDARY, DDT_SECONDARY_ALPHA, STREAM_BLOCK, FLUX_BLOCK} && kind != PrimaryKind()
    && forall i :: 0 <= i < |tasks| ==> !tasks[i].Discards(kind)
  }

  /** The entries of every such kind, data blocks for instance, are the same ones in the same order. */
  ghost predicate UntouchedKept(index: seq<IndexEntry>, index': seq<IndexEntry>, tasks: seq<Task>) {
    forall kind :: Untouched(kind, tasks) ==> OfKind(index', kind) == OfKind(index, kind)
  }

  lemma UntouchedTrans(a: seq<IndexEntry>, b: seq<IndexEntry>, c: seq<IndexEntry>, before: seq<Task>,
                       after: seq<Task>)
    requires UntouchedKept(a, b, before) && UntouchedKept(b, c, after)
    ensures UntouchedKept(a, c, before + after)
  {
    hide OfKind;
    forall kind | Untouched(kind, before + after)
      ensures OfKind(c, kind) == OfKind(a, kind)
    {
      assert forall i :: 0 <= i < |before| ==> before[i] == (before + after)[i];
      assert forall i :: 0 <= i < |after| ==> after[i] == (before + after)[|before| + i];
      assert Untouched(kind, before) && Untouched(kind, after);
    }
  }

  lemma UntouchedByTask(index: seq<IndexEntry>, t: Task, position: nat)
    ensures UntouchedKept(index, AfterTask(index, t, position), [t])
  {
    hide OfKind, AfterTask;
    forall kind | Untouched(kind, [t])
      ensures OfKind(AfterTask(index, t, position), kind) == OfKind(index, kind)
    {
      assert [t][0] == t;
      AfterTaskKeeps(index, t, position, kind);
    }
  }

  /** So do the steps of the table writers. */
  lemma UntouchedByTables(index: seq<IndexEntry>, s: Step)
    requires s.Supersede? || (s.Replace? && s.kind == PrimaryKind())
    ensures UntouchedKept(index, Apply(index, s), [])
  {
    hide OfKind, Apply;
    forall kind | Untouched(kind, [])
      ensures OfKind(Apply(index, s), kind) == OfKind(index, kind)
    {
      UntouchedStep(index, s, kind);
    }
  }

  lemma UntouchedSame(index: seq<IndexEntry>)
    ensures UntouchedKept(index, index, [])
  {
  }

  lemma UntouchedByFlux(index: seq<IndexEntry>, added: seq<IndexEntry>)
    requires forall i :: 0 <= i < |added| ==> IsFlux(added[i])
    ensures UntouchedKept(index, index + added, [])
  {
    hide OfKind;
    forall kind | Untouched(kind, [])
      ensures OfKind(index + added, kind) == OfKind(index, kind)
    {
      FluxIsOtherKind(index, added, kind);
    }
  }

  lemma AfterTaskKeepsOthers(index: seq<IndexEntry>, t: Task, position: nat)
    requires t.Valid()
    ensures OthersKept(index, AfterTask(index, t, position))
  {
    hide OfKind, AfterTask;
    forall e | IsFlux(e) && e in index
      ensures e in AfterTask(index, t, position)
    {
      AfterTaskKeepsFlux(index, t, position, e);
    }
    AfterTaskKeeps(index, t, position, PrimaryKind());
    if OfKind(index, Kind(CHECKSUM_BLOCK, 0)) != [] {
      AfterTaskNotEmpty(index, t, position);
    }
  }

  lemma OthersKeptTrans(a: seq<IndexEntry>, b: seq<IndexEntry>, c: seq<IndexEntry>)
    requires OthersKept(a, b) && OthersKept(b, c)
    ensures OthersKept(a, c)
  {
  }

  /** The block writers, one after the other. */
  method WriteTasks(w: ImageWriter, tasks: seq<Task>, ghost done: seq<Task>)
    requires w.Valid() && TasksSettled(w.index, w.history.log, done)
    requires forall i :: 0 <= i < |tasks| ==> tasks[i].Valid()
    modifies w`file, w`index, w`dirtyIndex, w`history
    ensures w.Valid() && TasksSettled(w.index, w.history.log, done + tasks)
    ensures SameRun(old(w.history), w.history) && (old(w.dirtyIndex) ==> w.dirtyIndex)
    ensures OthersKept(old(w.index), w.index) && old(w.file) <= w.file
    ensures UntouchedKept(old(w.index), w.index, tasks)
    ensures w.dirtyIndex == (old(w.dirtyIndex) || TasksMark(tasks, old(w.index)))
    ensures !TasksMark(tasks, old(w.index)) ==> w.index == old(w.index)
  {
    hide Tracked, Compressor.Valid, Reserved, TasksSettled, Task.Valid, OthersKept, AfterTask, OfKind, IndexesBlock;
    hide TasksMark, UntouchedKept;
    NoTasksMark(w.index);
    UntouchedSame(w.index);
    ghost var start := w.index;
    assert done + tasks[..0] == done;
    NothingChanged(start);
    for i := 0 to |tasks|
      invariant w.Valid() && TasksSettled(w.index, w.history.log, done + tasks[..i])
      invariant SameRun(old(w.history), w.history) && (old(w.dirtyIndex) ==> w.dirtyIndex)
      invariant OthersKept(start, w.index) && old(w.file) <= w.file && UntouchedKept(start, w.index, tasks[..i])
      invariant w.dirtyIndex == (old(w.dirtyIndex) || TasksMark(tasks[..i], start))
      invariant !TasksMark(tasks[..i], start) ==> w.index == start
    {
      TasksMarkPush(tasks[..i], tasks[i], start);
      assert tasks[..i] + [tasks[i]] == tasks[..i + 1];
      ghost var before := w.index;
      ghost var log := w.history.log;
      ghost var position := WriteTask(w, tasks[i]);
      TaskSettles(before, log, done + tasks[..i], tasks[i], position, w.history.log);
      AfterTaskKeepsOthers(before, tasks[i], position);
      OthersKeptTrans(start, before, w.index);
      UntouchedByTask(before, tasks[i], position);
      UntouchedTrans(start, before, w.index, tasks[..i], [tasks[i]]);
      assert done + tasks[..i + 1] == done + tasks[..i] + [tasks[i]];
    }
    assert tasks[..|tasks|] == tasks;
  }

  lemma NoTasksMark(index: seq<IndexEntry>)
    ensures !TasksMark([], index)
  {
  }

  lemma NothingChanged(index: seq<IndexEntry>)
    ensures OthersKept(index, index)
  {
  }

  // ---- Flux ----

  lemma {:induction false} FluxIsOtherKind(index: seq<IndexEntry>, added: seq<IndexEntry>, kind: Kind)
    requires kind.blockType != STREAM_BLOCK && kind.blockType != FLUX_BLOCK
    requires forall i :: 0 <= i < |added| ==> IsFlux(added[i])
    ensures OfKind(index + added, kind) == OfKind(index, kind)
  {
    if |added| == 0 {
      assert index + added == index;
    } else {
      var n := |added| - 1;
      FluxIsOtherKind(index, added[..n], kind);
      assert index + added == (index + added[..n]) + [added[n]];
      WithoutKindConcat(index + added[..n], [added[n]], kind);
      assert [added[n]][1..] == [];
    }
  }

  lemma FluxKeepsSettled(index: seq<IndexEntry>, log: seq<Placed>, done: seq<Task>, added: seq<IndexEntry>,
                         log': seq<Placed>)
    requires TasksSettled(index, log, done) && log <= log' && forall i :: 0 <= i < |done| ==> done[i].Valid()
    requires forall i :: 0 <= i < |added| ==> IsFlux(added[i])
    ensures TasksSettled(index + added, log', done) && OthersKept(index, index + added)
  {
    hide OfKind, Settled;
    forall i | 0 <= i < |done| && Newest(done, i)
      ensures Settled(index + added, log', done[i].job)
    {
      FluxIsOtherKind(index, added, done[i].job.kind);
      SettledKept(index, log, index + added, log', done[i].job);
    }
    FluxIsOtherKind(index, added, PrimaryKind());
    FluxIsOtherKind(index, added, Kind(CHECKSUM_BLOCK, 0));
  }

  // ---- The whole sequence ----

  function ChecksumTasks(c: Option<Checksums>): seq<Task> {
    if c.Some? then [Write(Job(Kind(CHECKSUM_BLOCK, 0), c.value.bytes, None))] else []
  }

  /** What the source relies on when it closes an image. */
  ghost predicate Closable(p: Pending, tableShift: nat, table: seq<nat>, shift: nat, twoLevel: bool) {
    && (p.tape.Some? ==> !twoLevel && forall k :: k in p.tape.value ==> k < 0x1FFF_FFFF)
    && (p.tape.None? && p.secondary.Some? && tableShift > 0 ==>
          MayFlush(p.secondary.value, tableShift, table, shift, twoLevel))
    && (p.tape.None? && p.single && tableShift == 0 ==> |table| < 0x2000_0000)
    && (p.checksums.Some? ==> |p.checksums.value.bytes| > 0)
    && (forall i :: 0 <= i < |p.tracks| ==> p.tracks[i].Valid())
    && (forall i :: 0 <= i < |p.tasks| ==> p.tasks[i].Valid())
  }

  /** The table as the single-level writer stores it, wherever it put it. */
  function TableJob(block: Bytes): Job {
    Job(PrimaryKind(), block, None)
  }

  /** The primary header and table are in their reserved place, and that is the one entry of their kind. */
  ghost predicate PrimaryDone(file: Bytes, index: seq<IndexEntry>, primaryOffset: nat, header: DdtHeader,
                              table: seq<nat>) {
    && Holds(file, primaryOffset, header.Encoded() + EncodeTable(table))
    && OfKind(index, PrimaryKind()) == [EntryAt(PrimaryKind(), primaryOffset)]
  }

  /** The flushed table is exactly where its primary entry, shifted left, says. */
  ghost predicate SecondaryDone(table: seq<nat>, log: seq<Placed>, position: nat, block: Bytes, shift: nat) {
    position < |table| && Placed(table[position] * Pow2(shift), block) in log
  }

  /** What is left of the tables once they have been written. */
  ghost predicate TablesDone(file: Bytes, index: seq<IndexEntry>, table: seq<nat>, log: seq<Placed>, ddt: DdtHeader,
                             p: Pending, primaryOffset: nat, crc: Crc64, c: Compressor, shift: nat) {
    if p.tape.Some? then
      0 < |table| < 0x2000_0000 && Settled(index, log, TableJob(SingleBlock(TapeHeader(ddt, |table|), crc, c, table)))
      && forall k :: 0 <= k < |table| ==> table[k] == if k in p.tape.value then p.tape.value[k] else 0
    else if ddt.tableShift == 0 then
      (p.single && 0 < |table| < 0x2000_0000 ==> Settled(index, log, TableJob(SingleBlock(ddt, crc, c, table))))
    else
      && (p.secondary.Some? && |p.secondary.value.entries| < 0x2000_0000 ==>
            SecondaryDone(table, log, p.secondary.value.position,
                          SecondaryBlock(ddt, primaryOffset, crc, c, p.secondary.value), shift))
      && (p.primary ==> PrimaryDone(file, index, primaryOffset, PrimaryHeader(ddt, crc, table), table))
  }

  lemma FreshlySettled(index: seq<IndexEntry>, log: seq<Placed>, kind: Kind, position: nat, block: Bytes)
    ensures Settled(Replaced(index, kind, position), log + [Placed(position, block)], Job(kind, block, None))
    ensures kind == PrimaryKind() ==> UntouchedKept(index, Replaced(index, kind, position), [])
  {
    hide OfKind, Replaced;
    if kind == PrimaryKind() {
      UntouchedByTables(index, Replace(kind, position));
    }
    ReplacedHasOne(index, kind, position, kind);
    NewlySettled(Replaced(index, kind, position), log + [Placed(position, block)], Job(kind, block, None), position);
  }

  /** The primary entries other than that of the cached table. */
  ghost predicate OtherEntriesKept(before: seq<nat>, after: seq<nat>, s: Option<Secondary>) {
    && |after| == |before|
    && forall i :: 0 <= i < |before| && (s.Some? ==> i != s.value.position) ==> after[i] == before[i]
  }

  /** The deduplication tables: the tape's, or the cached secondary and the primary one, or the single one. */
  method WriteTables(w: ImageWriter, p: Pending)
    requires w.Valid() && Closable(p, w.ddt.tableShift, w.table[..], w.layout.shift, w.history.twoLevel)
    modifies w, w.table
    ensures w.Valid() && SameRun(old(w.history), w.history)
    ensures w.dirtyIndex == (old(w.dirtyIndex) || TablesPending(p, old(w.ddt.tableShift), old(w.table.Length)))
    ensures !TablesPending(p, old(w.ddt.tableShift), old(w.table.Length)) ==> w.index == old(w.index)
    ensures w.header == old(w.header) && (HeaderOnDisk(old(w.file), w.header) ==> HeaderOnDisk(w.file, w.header))
    ensures UntouchedKept(old(w.index), w.index, [])
    ensures p.tape.None? ==> OtherEntriesKept(old(w.table[..]), w.table[..], p.secondary)
    ensures TablesDone(w.file, w.index, w.table[..], w.history.log, old(w.ddt), p, w.primaryOffset, w.crc, w.compressor,
                       w.layout.shift)
  {
    hide Tracked, Compressor.Valid, HeaderOnDisk, Settled, SecondaryDone, PrimaryDone, FlushedTo, MayFlush, Replaced;
    hide SingleBlock, SecondaryBlock, WriteAt, Align, PrimaryHeader, TapeHeader, Pow2, UntouchedKept;
    UntouchedSame(w.index);
    if p.tape.Some? {
      AppendKeepsHeader(w.file, w.index, w.table[..], w.layout, w.history, w.header);
      w.WriteTape(p.tape.value);
      FreshlySettled(old(w.index), old(w.history.log), PrimaryKind(), Align(|old(w.file)|, w.layout.shift),
                     SingleBlock(TapeHeader(old(w.ddt), w.table.Length), w.crc, w.compressor, w.table[..]));
    } else if w.ddt.tableShift == 0 {
      if p.single && w.table.Length > 0 {
        AppendKeepsHeader(w.file, w.index, w.table[..], w.layout, w.history, w.header);
        w.WriteSingleLevel();
        FreshlySettled(old(w.index), old(w.history.log), PrimaryKind(), Align(|old(w.file)|, w.layout.shift),
                       SingleBlock(old(w.ddt), w.crc, w.compressor, w.table[..]));
      }
    } else {
      WriteTwoLevels(w, p.secondary, p.primary);
    }
  }

  lemma AppendKeepsHeader(file: Bytes, index: seq<IndexEntry>, table: seq<nat>, l: Layout, h: History,
                          header: ImageHeader)
    requires Tracked(file, index, table, l, h)
    ensures forall bytes :: HeaderOnDisk(file, header) ==>
              HeaderOnDisk(WriteAt(file, Align(|file|, l.shift), bytes), header)
  {
    hide Tracked, WriteAt, HeaderOnDisk, Align;
    NewPosition(file, index, table, l, h);
    HeaderPresent(file, index, table, l, h);
    forall bytes
      ensures HeaderOnDisk(file, header) ==> HeaderOnDisk(WriteAt(file, Align(|file|, l.shift), bytes), header)
    {
      HeaderUntouched(file, Align(|file|, l.shift), bytes, header);
    }
  }

  method WriteTwoLevels(w: ImageWriter, secondary: Option<Secondary>, primary: bool)
    requires w.Valid() && w.ddt.tableShift > 0
    requires secondary.Some? ==>
              MayFlush(secondary.value, w.ddt.tableShift, w.table[..], w.layout.shift, w.history.twoLevel)
    modifies w, w.table
    ensures w.Valid() && SameRun(old(w.history), w.history)
    ensures w.dirtyIndex == (old(w.dirtyIndex) || secondary.Some? || primary)
    ensures secondary.None? && !primary ==> w.index == old(w.index)
    ensures w.header == old(w.header) && w.table == old(w.table) && UntouchedKept(old(w.index), w.index, [])
    ensures HeaderOnDisk(old(w.file), w.header) ==> HeaderOnDisk(w.file, w.header)
    ensures OtherEntriesKept(old(w.table[..]), w.table[..], secondary)
    ensures secondary.Some? ==>
              && |secondary.value.entries| < 0x2000_0000
              && SecondaryDone(w.table[..], w.history.log, secondary.value.position,
                               SecondaryBlock(old(w.ddt), w.primaryOffset, w.crc, w.compressor, secondary.value),
                               w.layout.shift)
    ensures primary ==>
              PrimaryDone(w.file, w.index, w.primaryOffset, PrimaryHeader(old(w.ddt), w.crc, w.table[..]), w.table[..])
  {
    hide Tracked, Compressor.Valid, HeaderOnDisk, SecondaryDone, PrimaryDone, FlushedTo, MayFlush, Replaced;
    hide SecondaryBlock, WriteAt, Align, PrimaryHeader, Pow2, UntouchedKept;
    UntouchedSame(w.index);
    if secondary.Some? {
      FlushNeeds(secondary.value, w.ddt.tableShift, w.table[..], w.layout.shift, w.history.twoLevel);
      AppendKeepsHeader(w.file, w.index, w.table[..], w.layout, w.history, w.header);
      w.FlushSecondary(secondary.value);
      FlushDone(old(w.file), old(w.index), old(w.table[..]), old(w.history), w.file, w.index, w.table[..], w.history,
                w.layout, w.primaryOffset, secondary.value,
                SecondaryBlock(w.ddt, w.primaryOffset, w.crc, w.compressor, secondary.value), w.header);
      assert secondary == Some(secondary.value);
    }
    if primary {
      ghost var flushed: seq<IndexEntry>, none: seq<Task> := w.index, [];
      RewritePrimary(w);
      UntouchedTrans(old(w.index), flushed, w.index, none, none);
      assert none + none == none;
    }
  }

  method RewritePrimary(w: ImageWriter)
    requires w.Valid() && w.ddt.tableShift > 0
    modifies w`file, w`index, w`dirtyIndex, w`ddt, w`history
    ensures w.Valid() && SameRun(old(w.history), w.history) && w.dirtyIndex && w.history.log == old(w.history.log)
    ensures HeaderOnDisk(old(w.file), w.header) ==> HeaderOnDisk(w.file, w.header)
    ensures UntouchedKept(old(w.index), w.index, [])
    ensures PrimaryDone(w.file, w.index, w.primaryOffset, PrimaryHeader(old(w.ddt), w.crc, w.table[..]), w.table[..])
  {
    hide Tracked, Compressor.Valid, HeaderOnDisk, PrimaryDone, Replaced, WriteAt, PrimaryHeader, DdtHeader.Encoded;
    hide EncodeTable, UntouchedKept;
    PatchKeepsHeader(w.file, w.primaryOffset,
                     PrimaryHeader(w.ddt, w.crc, w.table[..]).Encoded() + EncodeTable(w.table[..]), w.header);
    ghost var index, file := w.index, w.file;
    w.WritePrimary();
    PrimaryWritten(file, index, w.primaryOffset, w.ddt, w.table[..]);
  }

  lemma FlushNeeds(s: Secondary, tableShift: nat, table: seq<nat>, shift: nat, twoLevel: bool)
    requires MayFlush(s, tableShift, table, shift, twoLevel)
    ensures s.position < |table| && 0 < |s.entries| < 0x2000_0000
  {
  }

  lemma PatchKeepsHeader(file: Bytes, position: nat, bytes: Bytes, header: ImageHeader)
    requires IMAGE_HEADER_SIZE <= position
    ensures HeaderOnDisk(file, header) ==> HeaderOnDisk(WriteAt(file, position, bytes), header)
  {
    hide WriteAt;
    if HeaderOnDisk(file, header) {
      HeaderUntouched(file, position, bytes, header);
    }
  }

  lemma FlushDone(file: Bytes, index: seq<IndexEntry>, table: seq<nat>, h: History, file': Bytes,
                  index': seq<IndexEntry>, table': seq<nat>, h': History, l: Layout, primaryOffset: nat, s: Secondary,
                  block: Bytes, header: ImageHeader)
    requires FlushedTo(file, index, table, h, file', index', table', h', l.shift, primaryOffset, s, block)
    requires HeaderOnDisk(file, header) ==> HeaderOnDisk(WriteAt(file, Align(|file|, l.shift), block), header)
    requires IMAGE_HEADER_SIZE <= primaryOffset
    ensures SecondaryDone(table', h'.log, s.position, block, l.shift) && SameRun(h, h')
    ensures HeaderOnDisk(file, header) ==> HeaderOnDisk(file', header)
    ensures OtherEntriesKept(table, table', Some(s)) && UntouchedKept(index, index', [])
  {
    hide WriteAt, Align, Pow2, EncodeTable, Apply, HeaderOnDisk, UntouchedKept;
    UntouchedByTables(index, Supersede(s.cached, Align(|file|, l.shift)));
    var position := Align(|file|, l.shift);
    assert h'.log[|h.log|] == Placed(position, block);
    PatchKeepsHeader(WriteAt(file, position, block), primaryOffset + DDT_HEADER_SIZE, EncodeTable(table'), header);
  }

  lemma PrimaryWritten(file: Bytes, index: seq<IndexEntry>, primaryOffset: nat, ddt: DdtHeader, table: seq<nat>)
    ensures PrimaryDone(WriteAt(file, primaryOffset, ddt.Encoded() + EncodeTable(table)),
                        Replaced(index, PrimaryKind(), primaryOffset), primaryOffset, ddt, table)
    ensures UntouchedKept(index, Replaced(index, PrimaryKind(), primaryOffset), [])
  {
    hide WriteAt, DdtHeader.Encoded, EncodeTable;
    UntouchedByTables(index, Replace(PrimaryKind(), primaryOffset));
    HeaderSize(ddt);
    Written(file, primaryOffset, ddt.Encoded() + EncodeTable(table));
    ReplacedHasOne(index, PrimaryKind(), primaryOffset, PrimaryKind());
  }

  /** Later steps that only append blocks of other kinds, or touch nothing behind the image header, leave
      the tables alone. */
  lemma TablesStay(file: Bytes, index: seq<IndexEntry>, table: seq<nat>, log: seq<Placed>, ddt: DdtHeader, p: Pending,
                   primaryOffset: nat, crc: Crc64, c: Compressor, shift: nat,
                   file': Bytes, index': seq<IndexEntry>, log': seq<Placed>)
    requires TablesDone(file, index, table, log, ddt, p, primaryOffset, crc, c, shift)
    requires log <= log' && OfKind(index', PrimaryKind()) == OfKind(index, PrimaryKind()) && Kept(file, file', 0, 0)
    requires ddt.tableShift > 0 ==> IMAGE_HEADER_SIZE <= primaryOffset
    ensures TablesDone(file', index', table, log', ddt, p, primaryOffset, crc, c, shift)
  {
    hide OfKind, Settled, SingleBlock, SecondaryBlock, PrimaryHeader, TapeHeader, Pow2, Holds, EncodeTable;
    hide DdtHeader.Encoded;
    if p.tape.Some? {
      SettledKept(index, log, index', log', TableJob(SingleBlock(TapeHeader(ddt, |table|), crc, c, table)));
    } else if ddt.tableShift == 0 {
      if p.single && 0 < |table| < 0x2000_0000 {
        SettledKept(index, log, index', log', TableJob(SingleBlock(ddt, crc, c, table)));
      }
    } else if p.primary {
      HoldsKept(file, file', primaryOffset, PrimaryHeader(ddt, crc, table).Encoded() + EncodeTable(table));
    }
  }

  lemma HoldsKept(file: Bytes, file': Bytes, position: nat, bytes: Bytes)
    requires Holds(file, position, bytes) && Kept(file, file', 0, 0) && IMAGE_HEADER_SIZE <= position
    ensures Holds(file', position, bytes)
  {
    var a, b := file[position..position + |bytes|], file'[position..position + |bytes|];
    assert forall i :: 0 <= i < |bytes| ==> a[i] == b[i];
  }

  lemma PrefixIsKept(file: Bytes, longer: Bytes)
    requires file <= longer
    ensures Kept(file, longer, 0, 0) && forall h :: HeaderOnDisk(file, h) ==> HeaderOnDisk(longer, h)
  {
    hide ImageHeader.Encoded;
    assert longer[..|file|] == file;
    if |file| >= IMAGE_HEADER_SIZE {
      assert longer[..IMAGE_HEADER_SIZE] == file[..IMAGE_HEADER_SIZE];
    }
  }

  /** The flux blocks, if any, are where their entries say, and all of them are indexed. */
  ghost predicate FluxDone(index: seq<IndexEntry>, log: seq<Placed>, captures: seq<Capture>, entries: seq<FluxEntry>,
                           placed: seq<Placed>, added: seq<IndexEntry>, crc: Crc64, c: Compressor, shift: nat) {
    |captures| > 0 ==>
      && |placed| == |added| == |captures| + 1
      && (forall i :: 0 <= i < |added| ==> added[i] in index && placed[i] in log)
      && CapturesPlaced(captures, entries, placed[..|captures|], added[..|captures|], crc, c, shift)
      && placed[|captures|].bytes == FluxMetadata(crc, shift, entries)
      && added[|captures|] == IndexEntry(FLUX_BLOCK, 0, placed[|captures|].offset)
  }

  lemma FluxStays(index: seq<IndexEntry>, log: seq<Placed>, captures: seq<Capture>, entries: seq<FluxEntry>,
                  placed: seq<Placed>, added: seq<IndexEntry>, crc: Crc64, c: Compressor, shift: nat,
                  index': seq<IndexEntry>, log': seq<Placed>)
    requires FluxDone(index, log, captures, entries, placed, added, crc, c, shift)
    requires forall i :: 0 <= i < |added| ==> IsFlux(added[i])
    requires OthersKept(index, index') && log <= log'
    ensures FluxDone(index', log', captures, entries, placed, added, crc, c, shift)
  {
    hide OfKind, CapturesPlaced, FluxMetadata;
    forall i | 0 <= i < |placed| && placed[i] in log
      ensures placed[i] in log'
    {
      var m :| 0 <= m < |log| && log[m] == placed[i];
      assert log'[m] == log[m];
    }
  }

  /** Everything that can fail: too many captures, or one of 4 GiB. */
  predicate CapturesFit(captures: seq<Capture>) {
    |captures| <= 0xFFFF && forall i :: 0 <= i < |captures| ==> |captures[i].data + captures[i].index| < 0x1_0000_0000
  }

  function AllTasks(p: Pending): seq<Task> {
    ChecksumTasks(p.checksums) + p.tracks + p.tasks
  }

  /** The header in memory is the one on disk, or the index will be written and the header with it. */
  ghost predicate HeaderSafe(file: Bytes, index: seq<IndexEntry>, header: ImageHeader, dirtyIndex: bool) {
    HeaderOnDisk(file, header) || (dirtyIndex && OfKind(index, Kind(CHECKSUM_BLOCK, 0)) != [])
  }

  /** Of the header a close changes only the index offset and bit 0 of the compatible features, which says
      that there is a BLAKE3 checksum. */
  ghost predicate OnlyMarked(before: ImageHeader, header: ImageHeader, blake3: bool) {
    && header.identity == before.identity && header.times == before.times
    && header.compatibleRo == before.compatibleRo && header.incompatible == before.incompatible
    && header.compatible / 2 == before.compatible / 2
    && header.compatible % 2 == if blake3 then 1 else before.compatible % 2
  }

  predicate HasBlake3(p: Pending) {
    p.checksums.Some? && p.checksums.value.blake3
  }

  lemma HeaderStaysSafe(file: Bytes, index: seq<IndexEntry>, header: ImageHeader, dirtyIndex: bool,
                        file': Bytes, index': seq<IndexEntry>, dirtyIndex': bool)
    requires HeaderSafe(file, index, header, dirtyIndex)
    requires file <= file' && OthersKept(index, index') && (dirtyIndex ==> dirtyIndex')
    ensures HeaderSafe(file', index', header, dirtyIndex')
  {
    hide OfKind, HeaderOnDisk;
    PrefixIsKept(file, file');
  }

  /** Tables, checksums and tracks. */
  method WriteFirst(w: ImageWriter, p: Pending)
    requires w.Valid() && Closable(p, w.ddt.tableShift, w.table[..], w.layout.shift, w.history.twoLevel)
    requires HeaderOnDisk(w.file, w.header)
    modifies w, w.table
    ensures w.Valid() && SameRun(old(w.history), w.history)
    ensures var marked := TablesPending(p, old(w.ddt.tableShift), old(w.table.Length))
                          || TasksMark(ChecksumTasks(p.checksums) + p.tracks, old(w.index));
            w.dirtyIndex == (old(w.dirtyIndex) || marked) && (!marked ==> w.index == old(w.index))
    ensures w.header.indexOffset == old(w.header.indexOffset) && OnlyMarked(old(w.header), w.header, HasBlake3(p))
    ensures UntouchedKept(old(w.index), w.index, ChecksumTasks(p.checksums) + p.tracks)
    ensures p.tape.None? ==> OtherEntriesKept(old(w.table[..]), w.table[..], p.secondary)
    ensures TasksSettled(w.index, w.history.log, ChecksumTasks(p.checksums) + p.tracks)
    ensures TablesDone(w.file, w.index, w.table[..], w.history.log, old(w.ddt), p, w.primaryOffset, w.crc, w.compressor,
                       w.layout.shift)
    ensures HeaderSafe(w.file, w.index, w.header, w.dirtyIndex)
    ensures old(w.ddt.tableShift) > 0 ==> IMAGE_HEADER_SIZE <= w.primaryOffset
  {
    hide Tracked, Compressor.Valid, HeaderOnDisk, TasksSettled, TablesDone, OthersKept, Kept, OfKind, Closable;
    hide Task.Valid, HeaderSafe, TablesPending, OtherEntriesKept, UntouchedKept, OnlyMarked, WithBit0, ChecksumTasks;
    MarkIsBit0(w.header);
    ghost var ddt, start := w.ddt, w.index;
    ClosableParts(p, w.ddt.tableShift, w.table[..], w.layout.shift, w.history.twoLevel);
    TasksMarkConcat(ChecksumTasks(p.checksums), p.tracks, w.index);
    WriteTables(w, p);
    hide TasksMark;
    var sums := ChecksumTasks(p.checksums);
    ghost var file, index, log := w.file, w.index, w.history.log;
    NothingSettled(w.index, w.history.log);
    WriteTasks(w, sums, []);
    assert [] + sums == sums;
    ChecksumsMark(p.checksums, w.index);
    ChecksumsMark(p.checksums, index);
    ghost var checkedFile, checked, dirty := w.file, w.index, w.dirtyIndex;
    PrefixIsKept(file, w.file);
    if p.checksums.Some? && p.checksums.value.blake3 {
      w.header := w.header.(compatible := WithBit0(w.header.compatible));
    }
    ChecksumsAreSafe(w.file, w.index, w.history.log, w.header, w.dirtyIndex, p.checksums);
    WriteTasks(w, p.tracks, sums);
    HeaderStaysSafe(checkedFile, checked, w.header, dirty, w.file, w.index, w.dirtyIndex);
    OthersKeptTrans(index, checked, w.index);
    OthersKeptParts(index, w.index);
    PrefixIsKept(file, w.file);
    UntouchedByFirst(start, index, checked, w.index, sums, p.tracks);
    TablesStay(file, index, w.table[..], log, ddt, p, w.primaryOffset, w.crc, w.compressor, w.layout.shift,
               w.file, w.index, w.history.log);
  }

  lemma UntouchedByFirst(start: seq<IndexEntry>, tables: seq<IndexEntry>, sums: seq<IndexEntry>,
                         index: seq<IndexEntry>, first: seq<Task>, second: seq<Task>)
    requires UntouchedKept(start, tables, []) && UntouchedKept(tables, sums, first)
    requires UntouchedKept(sums, index, second)
    ensures UntouchedKept(start, index, first + second)
  {
    hide UntouchedKept;
    UntouchedTrans(start, tables, sums, [], first);
    assert [] + first == first;
    UntouchedTrans(start, sums, index, first, second);
  }

  lemma MarkIsBit0(h: ImageHeader)
    ensures OnlyMarked(h, h, false) && OnlyMarked(h, h.(compatible := WithBit0(h.compatible)), true)
  {
  }

  lemma ChecksumsMark(c: Option<Checksums>, index: seq<IndexEntry>)
    ensures TasksMark(ChecksumTasks(c), index) <==> c.Some?
  {
    hide OfKind;
    if c.Some? {
      assert IndexesBlock(ChecksumTasks(c)[0]);
    }
  }

  lemma ChecksumsAreSafe(file: Bytes, index: seq<IndexEntry>, log: seq<Placed>, header: ImageHeader, dirtyIndex: bool,
                         c: Option<Checksums>)
    requires TasksSettled(index, log, ChecksumTasks(c)) && (c.Some? ==> dirtyIndex)
    requires c.None? || !c.value.blake3 ==> HeaderOnDisk(file, header)
    ensures HeaderSafe(file, index, header, dirtyIndex)
  {
    hide OfKind, HeaderOnDisk;
    if c.Some? {
      ChecksumIndexed(index, log, c.value.bytes);
    }
  }

  /** Flux captures and the remaining blocks: false when the captures cannot be written. */
  method WriteRest(w: ImageWriter, p: Pending, ghost ddt: DdtHeader)
    returns (ok: bool, ghost entries: seq<FluxEntry>, ghost placed: seq<Placed>, ghost added: seq<IndexEntry>)
    requires w.Valid() && TasksSettled(w.index, w.history.log, ChecksumTasks(p.checksums) + p.tracks)
    requires forall i :: 0 <= i < |ChecksumTasks(p.checksums) + p.tracks| ==>
              (ChecksumTasks(p.checksums) + p.tracks)[i].Valid()
    requires forall i :: 0 <= i < |p.tasks| ==> p.tasks[i].Valid()
    requires TablesDone(w.file, w.index, w.table[..], w.history.log, ddt, p, w.primaryOffset, w.crc, w.compressor,
                        w.layout.shift)
    requires HeaderSafe(w.file, w.index, w.header, w.dirtyIndex)
    requires ddt.tableShift > 0 ==> IMAGE_HEADER_SIZE <= w.primaryOffset
    modifies w`file, w`index, w`dirtyIndex, w`history
    ensures w.Valid() && SameRun(old(w.history), w.history) && (ok <==> CapturesFit(p.captures))
    ensures ok ==> w.dirtyIndex == (old(w.dirtyIndex) || TasksMark(p.tasks, old(w.index)))
    ensures ok && !TasksMark(p.tasks, old(w.index)) ==> w.index == old(w.index) + added
    ensures p.captures == [] ==> added == []
    ensures ok && p.captures != [] ==> |added| == |p.captures| + 1
    ensures forall i :: 0 <= i < |added| ==> IsFlux(added[i])
    ensures ok ==> UntouchedKept(old(w.index), w.index, p.tasks)
    ensures ok ==> TasksSettled(w.index, w.history.log, AllTasks(p))
    ensures ok ==>
              FluxDone(w.index, w.history.log, p.captures, entries, placed, added, w.crc, w.compressor, w.layout.shift)
    ensures ok ==> TablesDone(w.file, w.index, w.table[..], w.history.log, ddt, p, w.primaryOffset, w.crc, w.compressor,
                              w.layout.shift)
    ensures ok ==> HeaderSafe(w.file, w.index, w.header, w.dirtyIndex)
  {
    hide Tracked, Compressor.Valid, TasksSettled, TablesDone, OthersKept, OfKind, Task.Valid, HeaderSafe, FluxDone;
    hide CapturesPlaced, Reserved, ChecksumTasks, IsFlux, FluxMetadata, Adds, UntouchedKept;
    ghost var done := ChecksumTasks(p.checksums) + p.tracks;
    ghost var file, index, log, dirty := w.file, w.index, w.history.log, w.dirtyIndex;
    ok, entries, placed, added := w.WriteFlux(p.captures);
    if !ok {
      return;
    }
    ghost var fluxed, fluxLog := w.index, w.history.log;
    FluxMarksNothing(index, added, p.tasks);
    hide TasksMark;
    FluxKeepsSettled(index, log, done, added, fluxLog);
    FluxWritten(fluxed, fluxLog, log, index, p.captures, entries, placed, added, w.crc, w.compressor, w.layout.shift);
    UntouchedByFlux(index, added);
    WriteTasks(w, p.tasks, done);
    UntouchedTrans(index, fluxed, w.index, [], p.tasks);
    assert [] + p.tasks == p.tasks;
    FluxStays(fluxed, fluxLog, p.captures, entries, placed, added, w.crc, w.compressor, w.layout.shift, w.index,
              w.history.log);
    RestKept(file, index, w.table[..], log, ddt, p, w.primaryOffset, w.crc, w.compressor, w.layout.shift, w.header,
             dirty, fluxed, w.file, w.index, w.history.log, w.dirtyIndex);
  }

  lemma FluxMarksNothing(index: seq<IndexEntry>, added: seq<IndexEntry>, tasks: seq<Task>)
    requires forall i :: 0 <= i < |added| ==> IsFlux(added[i])
    ensures TasksMark(tasks, index + added) <==> TasksMark(tasks, index)
  {
    hide OfKind, IndexesBlock;
    FluxIsOtherKind(index, added, Kind(DPM_BLOCK, 0));
  }

  lemma RestKept(file: Bytes, index: seq<IndexEntry>, table: seq<nat>, log: seq<Placed>, ddt: DdtHeader, p: Pending,
                 primaryOffset: nat, crc: Crc64, c: Compressor, shift: nat, header: ImageHeader, dirty: bool,
                 fluxed: seq<IndexEntry>, file': Bytes, index': seq<IndexEntry>, log': seq<Placed>, dirty': bool)
    requires TablesDone(file, index, table, log, ddt, p, primaryOffset, crc, c, shift)
    requires HeaderSafe(file, index, header, dirty) && (dirty ==> dirty')
    requires ddt.tableShift > 0 ==> IMAGE_HEADER_SIZE <= primaryOffset
    requires OthersKept(index, fluxed) && OthersKept(fluxed, index') && file <= file' && log <= log'
    ensures TablesDone(file', index', table, log', ddt, p, primaryOffset, crc, c, shift)
    ensures HeaderSafe(file', index', header, dirty')
  {
    hide TablesDone, HeaderSafe, OthersKept, Kept, OfKind, HeaderOnDisk;
    OthersKeptTrans(index, fluxed, index');
    OthersKeptParts(index, index');
    PrefixIsKept(file, file');
    TablesStay(file, index, table, log, ddt, p, primaryOffset, crc, c, shift, file', index', log');
    HeaderStaysSafe(file, index, header, dirty, file', index', dirty');
  }

  lemma OthersKeptParts(index: seq<IndexEntry>, index': seq<IndexEntry>)
    requires OthersKept(index, index')
    ensures OfKind(index', PrimaryKind()) == OfKind(index, PrimaryKind())
    ensures OfKind(index, Kind(CHECKSUM_BLOCK, 0)) != [] ==> |index'| > 0
  {
  }

  lemma FluxWritten(index: seq<IndexEntry>, log: seq<Placed>, before: seq<Placed>, start: seq<IndexEntry>,
                    captures: seq<Capture>, entries: seq<FluxEntry>, placed: seq<Placed>, added: seq<IndexEntry>,
                    crc: Crc64, c: Compressor, shift: nat)
    requires index == start + added && log == before + placed
    requires |captures| > 0 ==>
               && |added| == |placed| == |captures| + 1
               && CapturesPlaced(captures, entries, placed[..|captures|], added[..|captures|], crc, c, shift)
               && placed[|captures|].bytes == FluxMetadata(crc, shift, entries)
               && added[|captures|] == IndexEntry(FLUX_BLOCK, 0, placed[|captures|].offset)
    ensures FluxDone(index, log, captures, entries, placed, added, crc, c, shift)
  {
    hide CapturesPlaced, FluxMetadata;
    forall i | 0 <= i < |added|
      ensures added[i] in index
    {
      assert index[|start| + i] == added[i];
    }
    forall i | 0 <= i < |placed|
      ensures placed[i] in log
    {
      assert log[|before| + i] == placed[i];
    }
  }

  lemma ClosableParts(p: Pending, tableShift: nat, table: seq<nat>, shift: nat, twoLevel: bool)
    requires Closable(p, tableShift, table, shift, twoLevel)
    ensures forall i :: 0 <= i < |p.tracks| ==> p.tracks[i].Valid()
    ensures forall i :: 0 <= i < |p.tasks| ==> p.tasks[i].Valid()
    ensures forall i :: 0 <= i < |ChecksumTasks(p.checksums)| ==> ChecksumTasks(p.checksums)[i].Valid()
  {
  }

  lemma NothingSettled(index: seq<IndexEntry>, log: seq<Placed>)
    ensures TasksSettled(index, log, [])
  {
  }

  lemma ChecksumIndexed(index: seq<IndexEntry>, log: seq<Placed>, bytes: Bytes)
    requires TasksSettled(index, log, ChecksumTasks(Some(Checksums(bytes, false))))
    ensures OfKind(index, Kind(CHECKSUM_BLOCK, 0)) != []
  {
    hide OfKind;
    var tasks := ChecksumTasks(Some(Checksums(bytes, false)));
    assert Newest(tasks, 0);
  }

  /** What a finished close leaves: the tables, every block that no later one replaced, the flux blocks,
      and the header in memory at the start of the file. */
  ghost predicate Closed(file: Bytes, index: seq<IndexEntry>, table: seq<nat>, log: seq<Placed>, header: ImageHeader,
                         ddt: DdtHeader, p: Pending, entries: seq<FluxEntry>, placed: seq<Placed>,
                         added: seq<IndexEntry>, primaryOffset: nat, crc: Crc64, c: Compressor, shift: nat) {
    && TasksSettled(index, log, AllTasks(p))
    && FluxDone(index, log, p.captures, entries, placed, added, crc, c, shift)
    && TablesDone(file, index, table, log, ddt, p, primaryOffset, crc, c, shift)
    && HeaderOnDisk(file, header)
  }

  lemma ClosedHeader(file: Bytes, index: seq<IndexEntry>, table: seq<nat>, log: seq<Placed>, header: ImageHeader,
                     ddt: DdtHeader, p: Pending, entries: seq<FluxEntry>, placed: seq<Placed>, added: seq<IndexEntry>,
                     primaryOffset: nat, crc: Crc64, c: Compressor, shift: nat)
    requires Closed(file, index, table, log, header, ddt, p, entries, placed, added, primaryOffset, crc, c, shift)
    ensures HeaderOnDisk(file, header)
  {
  }

  lemma LogGrows(index: seq<IndexEntry>, log: seq<Placed>, tasks: seq<Task>, log': seq<Placed>)
    requires TasksSettled(index, log, tasks) && log <= log'
    ensures TasksSettled(index, log', tasks)
  {
    hide Settled, OfKind;
    forall i | 0 <= i < |tasks| && Newest(tasks, i)
      ensures Settled(index, log', tasks[i].job)
    {
      SettledKept(index, log, index, log', tasks[i].job);
    }
  }

  /** Writing the index, or leaving it out because nothing changed, completes the close. */
  lemma ClosedAtLast(file: Bytes, index: seq<IndexEntry>, table: seq<nat>, log: seq<Placed>, ddt: DdtHeader, p: Pending,
                     entries: seq<FluxEntry>, placed: seq<Placed>, added: seq<IndexEntry>, primaryOffset: nat,
                     crc: Crc64, c: Compressor, shift: nat, file': Bytes, log': seq<Placed>, header: ImageHeader)
    requires TasksSettled(index, log, AllTasks(p)) && log <= log' && Kept(file, file', 0, 0)
    requires HeaderOnDisk(file', header)
    requires FluxDone(index, log, p.captures, entries, placed, added, crc, c, shift)
    requires forall i :: 0 <= i < |added| ==> IsFlux(added[i])
    requires TablesDone(file, index, table, log, ddt, p, primaryOffset, crc, c, shift)
    requires ddt.tableShift > 0 ==> IMAGE_HEADER_SIZE <= primaryOffset
    ensures Closed(file', index, table, log', header, ddt, p, entries, placed, added, primaryOffset, crc, c, shift)
  {
    hide TasksSettled, FluxDone, TablesDone, Kept, HeaderOnDisk, OfKind, AllTasks;
    LogGrows(index, log, AllTasks(p), log');
    NothingChanged(index);
    FluxStays(index, log, p.captures, entries, placed, added, crc, c, shift, index, log');
    TablesStay(file, index, table, log, ddt, p, primaryOffset, crc, c, shift, file', index, log');
  }

  lemma KeptSame(file: Bytes)
    ensures Kept(file, file, 0, 0)
  {
  }

  /** `aaruf_finalize_write`, from the tables to the index. */
  method FinalizeWrite(w: ImageWriter, p: Pending)
    returns (ok: bool, ghost entries: seq<FluxEntry>, ghost placed: seq<Placed>, ghost added: seq<IndexEntry>)
    requires w.Valid() && Closable(p, w.ddt.tableShift, w.table[..], w.layout.shift, w.history.twoLevel)
    requires HeaderOnDisk(w.file, w.header)
    modifies w, w.table
    ensures w.Valid() && SameRun(old(w.history), w.history) && (ok <==> CapturesFit(p.captures))
    ensures ok ==> Closed(w.file, w.index, w.table[..], w.history.log, w.header, old(w.ddt), p, entries, placed, added,
                          w.primaryOffset, w.crc, w.compressor, w.layout.shift)
    ensures ok ==>
              w.dirtyIndex == (old(w.dirtyIndex) || Marks(p, old(w.ddt.tableShift), old(w.table.Length), old(w.index)))
    ensures ok && !w.dirtyIndex ==> w.header.indexOffset == old(w.header.indexOffset)
    ensures ok ==> OnlyMarked(old(w.header), w.header, HasBlake3(p))
    ensures ok ==> UntouchedKept(old(w.index), w.index, AllTasks(p))
    ensures p.tape.None? ==> OtherEntriesKept(old(w.table[..]), w.table[..], p.secondary)
    ensures ok && !w.dirtyIndex ==> w.index == old(w.index) + added
    ensures ok && p.captures != [] ==> |added| == |p.captures| + 1
    ensures ok && w.dirtyIndex && |w.index| > 0 ==>
              IndexOnDisk(w.file, w.crc, w.index, w.header.indexOffset, w.layout.shift)
    ensures ok && w.dirtyIndex && |w.index| > 0 ==> |w.history.base| <= w.header.indexOffset
    ensures ok && w.dirtyIndex && |w.index| > 0 && p.captures != [] ==> EndBefore(placed, w.header.indexOffset)
  {
    hide EndBefore, OtherEntriesKept, UntouchedKept;
    hide Tracked, Compressor.Valid, HeaderOnDisk, TasksSettled, TablesDone, FluxDone, Kept, Closable, HeaderSafe;
    hide Closed;
    hide Task.Valid, ChecksumTasks, IndexOnDisk, Reserved, IsFlux, TasksMark, TablesPending;
    ghost var ddt := w.ddt;
    TasksMarkConcat(ChecksumTasks(p.checksums) + p.tracks, p.tasks, w.index);
    hide AllTasks;
    ClosableParts(p, w.ddt.tableShift, w.table[..], w.layout.shift, w.history.twoLevel);
    WriteFirst(w, p);
    ghost var first := w.index;
    ok, entries, placed, added := WriteRest(w, p, ddt);
    if !ok {
      return;
    }
    UntouchedTrans(old(w.index), first, w.index, ChecksumTasks(p.checksums) + p.tracks, p.tasks);
    AllTasksAre(p);
    FinishClose(w, p, ddt, entries, placed, added);
  }

  lemma AllTasksAre(p: Pending)
    ensures AllTasks(p) == ChecksumTasks(p.checksums) + p.tracks + p.tasks
  {
  }

  /** The index, if anything changed it, and with it the header. */
  method FinishClose(w: ImageWriter, p: Pending, ghost ddt: DdtHeader, ghost entries: seq<FluxEntry>,
                     ghost placed: seq<Placed>, ghost added: seq<IndexEntry>)
    requires w.Valid() && TasksSettled(w.index, w.history.log, AllTasks(p))
    requires FluxDone(w.index, w.history.log, p.captures, entries, placed, added, w.crc, w.compressor, w.layout.shift)
    requires forall i :: 0 <= i < |added| ==> IsFlux(added[i])
    requires TablesDone(w.file, w.index, w.table[..], w.history.log, ddt, p, w.primaryOffset, w.crc, w.compressor,
                        w.layout.shift)
    requires HeaderSafe(w.file, w.index, w.header, w.dirtyIndex)
    requires ddt.tableShift > 0 ==> IMAGE_HEADER_SIZE <= w.primaryOffset
    modifies w`file, w`header, w`history
    ensures w.Valid() && SameRun(old(w.history), w.history)
    ensures Closed(w.file, w.index, w.table[..], w.history.log, w.header, ddt, p, entries, placed, added,
                   w.primaryOffset, w.crc, w.compressor, w.layout.shift)
    ensures w.dirtyIndex && |w.index| > 0 ==> IndexOnDisk(w.file, w.crc, w.index, w.header.indexOffset, w.layout.shift)
    ensures w.dirtyIndex && |w.index| > 0 ==> |w.history.base| <= w.header.indexOffset
    ensures w.dirtyIndex && |w.index| > 0 && p.captures != [] ==> EndBefore(placed, w.header.indexOffset)
    ensures !w.dirtyIndex ==> w.header == old(w.header)
    ensures w.header == old(w.header).(indexOffset := w.header.indexOffset)
  {
    hide Tracked, Compressor.Valid, HeaderOnDisk, TasksSettled, TablesDone, FluxDone, Kept, HeaderSafe, Closed;
    hide IndexOnDisk, Reserved, AllTasks, Align, EndBefore;
    ghost var file, log := w.file, w.history.log;
    BaseIsShorter(w.file, w.index, w.table[..], w.layout, w.history);
    FluxEndsInFile(w.file, w.index, w.table[..], w.layout, w.history, p.captures, entries, placed, added, w.crc,
                   w.compressor);
    SafeHeader(w.file, w.index, w.header, w.dirtyIndex);
    KeptSame(w.file);
    if w.dirtyIndex {
      w.WriteIndex();
    }
    ClosedAtLast(file, w.index, w.table[..], log, ddt, p, entries, placed, added, w.primaryOffset, w.crc, w.compressor,
                 w.layout.shift, w.file, w.history.log, w.header);
  }

  ghost predicate EndBefore(placed: seq<Placed>, position: nat) {
    forall i :: 0 <= i < |placed| ==> placed[i].offset + |placed[i].bytes| <= position
  }

  lemma FluxEndsInFile(file: Bytes, index: seq<IndexEntry>, table: seq<nat>, l: Layout, h: History,
                       captures: seq<Capture>, entries: seq<FluxEntry>, placed: seq<Placed>, added: seq<IndexEntry>,
                       crc: Crc64, c: Compressor)
    requires Tracked(file, index, table, l, h)
    requires FluxDone(index, h.log, captures, entries, placed, added, crc, c, l.shift)
    ensures captures != [] ==> EndBefore(placed, Align(|file|, l.shift))
  {
    hide Coherent, Align, Kept, CapturesPlaced, FluxMetadata;
    AlignAtLeast(|file|, l.shift);
    if captures != [] {
      forall i | 0 <= i < |placed|
        ensures placed[i].offset + |placed[i].bytes| <= |file|
      {
        assert placed[i] in h.log;
        var m :| 0 <= m < |h.log| && h.log[m] == placed[i];
        InFile(file, h.log[m].offset, h.log[m].bytes);
      }
    }
  }

  lemma BaseIsShorter(file: Bytes, index: seq<IndexEntry>, table: seq<nat>, l: Layout, h: History)
    requires Tracked(file, index, table, l, h)
    ensures |h.base| <= |file| <= Align(|file|, l.shift)
  {
    hide Laid, Coherent, Align;
    AlignAtLeast(|file|, l.shift);
  }

  lemma SafeHeader(file: Bytes, index: seq<IndexEntry>, header: ImageHeader, dirtyIndex: bool)
    requires HeaderSafe(file, index, header, dirtyIndex)
    ensures HeaderOnDisk(file, header) || (dirtyIndex && |index| > 0)
  {
    hide HeaderOnDisk;
  }

  // ---- New captures alone ----

  function OnlyCaptures(captures: seq<Capture>): Pending {
    Pending(None, None, false, false, None, [], captures, [])
  }

  lemma CapturesMarkNothing(captures: seq<Capture>, tableShift: nat, length: nat, index: seq<IndexEntry>,
                            table: seq<nat>, shift: nat, twoLevel: bool)
    ensures !Marks(OnlyCaptures(captures), tableShift, length, index)
    ensures Closable(OnlyCaptures(captures), tableShift, table, shift, twoLevel)
  {
  }

  /** An image opened again, with nothing new but captures: they are written and indexed in memory, but the
      index on disk and the header that leads to it stay those of before. */
  method CloseWithCaptures(w: ImageWriter, captures: seq<Capture>, ghost before: seq<IndexEntry>)
    returns (ok: bool, ghost added: seq<IndexEntry>)
    requires w.Valid() && HeaderOnDisk(w.file, w.header) && !w.dirtyIndex && captures != []
    requires before == w.index && Holds(w.file, w.header.indexOffset, IndexBytes(w.crc, before))
    requires w.history.base == w.file
    requires IMAGE_HEADER_SIZE <= w.header.indexOffset
    requires w.header.indexOffset + |IndexBytes(w.crc, before)| <= w.layout.lo || w.layout.hi <= w.header.indexOffset
    modifies w, w.table
    ensures ok <==> CapturesFit(captures)
    ensures ok ==> w.index == before + added && |added| == |captures| + 1 && !w.dirtyIndex
    ensures ok ==> HeaderOnDisk(w.file, w.header) && w.header.indexOffset == old(w.header.indexOffset)
    ensures ok ==> Holds(w.file, w.header.indexOffset, IndexBytes(w.crc, before))
  {
    hide HeaderOnDisk, IndexBytes, Closed, Marks, Closable, Compressor.Valid, Reserved, Tracked, Holds;
    CapturesMarkNothing(captures, w.ddt.tableShift, w.table.Length, w.index, w.table[..], w.layout.shift,
                        w.history.twoLevel);
    ghost var file, ddt, at := w.file, w.ddt, w.header.indexOffset;
    ghost var entries, placed;
    ok, entries, placed, added := FinalizeWrite(w, OnlyCaptures(captures));
    TrackedKeeps(w.file, w.index, w.table[..], w.layout, w.history, at, IndexBytes(w.crc, before));
    if ok {
      ClosedHeader(w.file, w.index, w.table[..], w.history.log, w.header, ddt, OnlyCaptures(captures), entries, placed,
                   added, w.primaryOffset, w.crc, w.compressor, w.layout.shift);
    }
  }

  /** What lies behind the image header and outside the table region is kept. */
  lemma TrackedKeeps(file: Bytes, index: seq<IndexEntry>, table: seq<nat>, l: Layout, h: History, offset: nat,
                     bytes: Bytes)
    requires Tracked(file, index, table, l, h) && Holds(h.base, offset, bytes)
    requires IMAGE_HEADER_SIZE <= offset && (offset + |bytes| <= l.lo || l.hi <= offset)
    ensures Holds(file, offset, bytes)
  {
    hide Laid, Coherent, Align;
    var a, b := h.base[offset..offset + |bytes|], file[offset..offset + |bytes|];
    assert forall i :: 0 <= i < |bytes| ==> a[i] == b[i];
  }
}
