/** What every step of the closing writer keeps (src/close_write.c): nothing already in the file is
    lost, blocks never overlap, the index is the result of the steps taken, and the two levels of the
    deduplication table stay coherent.
 */
module CloseTracking {
  import opened ImageFile
  import opened FileRegions
  import opened BlockIndex

  /** The history of one finalization: the file and index it started from, the lowest position a block
      may take, the blocks placed and the index steps taken.  `twoLevel` says whether the table was
      coherent to begin with. */
  datatype History = History(base: Bytes, start: seq<IndexEntry>, floor: nat, log: seq<Placed>, steps: seq<Step>,
                             twoLevel: bool)

  /** The region of the primary table, `lo..hi`, and the block alignment. */
  datatype Layout = Layout(lo: nat, hi: nat, shift: nat)

  ghost predicate Tracked(file: Bytes, index: seq<IndexEntry>, table: seq<nat>, l: Layout, h: History) {
    && IMAGE_HEADER_SIZE <= |h.base| && Kept(h.base, file, l.lo, l.hi)
    && Laid(file, h.log, h.floor, l.shift)
    && IMAGE_HEADER_SIZE <= h.floor && l.hi <= h.floor <= Align(|file|, l.shift)
    && index == Run(h.start, h.steps)
    && (h.twoLevel ==> Coherent(table, index, l.shift, |file|))
  }

  lemma MultiplesApart(a: nat, b: nat, p: nat)
    requires p > 0 && a % p == 0 && b % p == 0
    ensures b < a ==> b + p <= a
  {
    var x: int, y: int := a / p, b / p;
    assert a == p * x && b == p * y;
    assert p * (x - y) == p * x - p * y;
    MulAtLeast(p, x - y);
    assert x == y ==> p * (x - y) == 0;
  }

  lemma AlignIsMonotone(x: nat, y: nat, shift: nat)
    requires x <= y
    ensures Align(x, shift) <= Align(y, shift)
  {
    hide Pow2;
    MultiplesApart(Align(x, shift), Align(y, shift), Pow2(shift));
  }

  lemma CoherentGrows(table: seq<nat>, index: seq<IndexEntry>, shift: nat, bound: nat, larger: nat)
    requires Coherent(table, index, shift, bound) && bound <= larger
    ensures Coherent(table, index, shift, larger)
  {
    hide Pow2;
  }

  lemma TrackedStart(file: Bytes, index: seq<IndexEntry>, table: seq<nat>, l: Layout, twoLevel: bool)
    requires IMAGE_HEADER_SIZE <= |file| && l.hi <= Align(|file|, l.shift)
    requires twoLevel ==> Coherent(table, index, l.shift, |file|)
    ensures Tracked(file, index, table, l, History(file, index, Align(|file|, l.shift), [], [], twoLevel))
  {
    hide Align, Pow2, Coherent;
    AlignAtLeast(|file|, l.shift);
  }

  lemma AlignAtLeast(x: nat, shift: nat)
    ensures x <= Align(x, shift) && Align(x, shift) % Pow2(shift) == 0
  {
  }

  lemma TrackedPlace(file: Bytes, index: seq<IndexEntry>, table: seq<nat>, l: Layout, h: History, bytes: Bytes)
    requires Tracked(file, index, table, l, h) && |bytes| > 0
    ensures var position := Align(|file|, l.shift);
            && Tracked(WriteAt(file, position, bytes), index, table, l, h.(log := h.log + [Placed(position, bytes)]))
            && |WriteAt(file, position, bytes)| == position + |bytes| && |file| <= position
            && position % Pow2(l.shift) == 0 && IMAGE_HEADER_SIZE <= position
  {
    hide Align, Pow2, Coherent, WriteAt, Laid, Kept;
    var position := Align(|file|, l.shift);
    var file' := WriteAt(file, position, bytes);
    AlignAtLeast(|file|, l.shift);
    LaidAppend(file, h.log, h.floor, l.shift, bytes);
    WriteKeeps(file, position, bytes, l.lo, l.hi);
    KeptTrans(h.base, file, file', l.lo, l.hi);
    AlignIsMonotone(|file|, |file'|, l.shift);
    if h.twoLevel {
      CoherentGrows(table, index, l.shift, |file|, |file'|);
    }
  }

  /** Rewriting the header or the primary table in place. */
  lemma TrackedPatch(file: Bytes, index: seq<IndexEntry>, table: seq<nat>, l: Layout, h: History, position: nat,
                     data: Bytes)
    requires Tracked(file, index, table, l, h)
    requires position + |data| <= IMAGE_HEADER_SIZE || (l.lo <= position && position + |data| <= l.hi)
    ensures Tracked(WriteAt(file, position, data), index, table, l, h)
    ensures |file| <= |WriteAt(file, position, data)|
  {
    hide Align, Pow2, Coherent, WriteAt, Laid, Kept;
    var file' := WriteAt(file, position, data);
    LaidPatch(file, h.log, h.floor, l.shift, position, data);
    WriteKeeps(file, position, data, l.lo, l.hi);
    KeptLonger(file, file', l);
    KeptTrans(h.base, file, file', l.lo, l.hi);
    AlignIsMonotone(|file|, |file'|, l.shift);
    if h.twoLevel {
      CoherentGrows(table, index, l.shift, |file|, |file'|);
    }
  }

  lemma HeaderPresent(file: Bytes, index: seq<IndexEntry>, table: seq<nat>, l: Layout, h: History)
    requires Tracked(file, index, table, l, h)
    ensures IMAGE_HEADER_SIZE <= |file|
  {
  }

  lemma KeptLonger(file: Bytes, file': Bytes, l: Layout)
    requires Kept(file, file', l.lo, l.hi)
    ensures |file| <= |file'|
  {
  }

  /** An index step for a block that is not a secondary table. */
  lemma TrackedStep(file: Bytes, index: seq<IndexEntry>, table: seq<nat>, l: Layout, h: History, s: Step)
    requires Tracked(file, index, table, l, h) && !s.Supersede?
    requires s.kind.blockType != DDT_SECONDARY && s.kind.blockType != DDT_SECONDARY_ALPHA
    ensures Tracked(file, Apply(index, s), table, l, h.(steps := h.steps + [s]))
  {
    hide Align, Pow2, Coherent, Laid, Kept, Apply, Run;
    RunPush(h.start, h.steps, s);
    if h.twoLevel {
      OtherStepsKeepCoherent(table, index, l.shift, |file|, s);
    }
  }

  /** Placing a secondary table and pointing its primary entry at it. */
  lemma TrackedFlush(file: Bytes, index: seq<IndexEntry>, table: seq<nat>, l: Layout, h: History, bytes: Bytes, p: nat,
                     cached: nat)
    requires Tracked(file, index, table, l, h) && |bytes| > 0 && p < |table|
    requires h.twoLevel ==> cached == 0 || cached == table[p] * Pow2(l.shift)
    ensures var position := Align(|file|, l.shift); var s := Supersede(cached, position);
            var table' := table[p := ShiftRight(position, l.shift)];
            && Tracked(WriteAt(file, position, bytes), Apply(index, s), table', l,
                       h.(log := h.log + [Placed(position, bytes)], steps := h.steps + [s]))
            && table'[p] * Pow2(l.shift) == position
            && (h.twoLevel && table[p] != 0 ==> (TableEntry(table[p], l.shift) in Apply(index, s) <==> cached == 0))
  {
    hide Align, Pow2, Coherent, WriteAt, Laid, Kept, Apply, Run;
    TrackedPlace(file, index, table, l, h, bytes);
    var position := Align(|file|, l.shift);
    var s := Supersede(cached, position);
    RunPush(h.start, h.steps, s);
    ShiftIsExact(position, l.shift);
    if h.twoLevel {
      FlushKeepsCoherent(table, index, l.shift, |file|, p, cached, position);
    }
  }

  /** A single-level table may be replaced by another while no two-level table is being tracked. */
  lemma TrackedOtherTable(file: Bytes, index: seq<IndexEntry>, table: seq<nat>, other: seq<nat>, l: Layout, h: History)
    requires Tracked(file, index, table, l, h) && !h.twoLevel
    ensures Tracked(file, index, other, l, h)
  {
  }
}
