/** The in-memory index of the writer (src/close_write.c): the loops that drop superseded entries and
    what a whole series of such steps leaves in the index.
 */
module BlockIndex {
  import opened ImageFile

  const DDT_PRIMARY: nat := 0x32544444
  const DDT_SECONDARY: nat := 0x53544444
  const DDT_SECONDARY_ALPHA: nat := 0x53545444

  /** What an index entry describes: the type of the block and of the data in it. */
  datatype Kind = Kind(blockType: nat, dataType: nat)

  function KindOf(e: IndexEntry): Kind {
    Kind(e.blockType, e.dataType)
  }

  function EntryAt(kind: Kind, offset: nat): IndexEntry {
    IndexEntry(kind.blockType, kind.dataType, offset)
  }

  predicate IsTable(e: IndexEntry) {
    e.blockType == DDT_SECONDARY || e.blockType == DDT_SECONDARY_ALPHA
  }

  /** The entries of one kind, in order. */
  function OfKind(index: seq<IndexEntry>, kind: Kind): seq<IndexEntry> {
    if |index| == 0 then [] else
      (if KindOf(index[0]) == kind then [index[0]] else []) + OfKind(index[1..], kind)
  }

  /** The entries of every other kind, in order. */
  function WithoutKind(index: seq<IndexEntry>, kind: Kind): (r: seq<IndexEntry>)
    ensures |r| <= |index|
  {
    if |index| == 0 then [] else
      (if KindOf(index[0]) == kind then [] else [index[0]]) + WithoutKind(index[1..], kind)
  }

  /** The index once a block of a kind has been written anew. */
  function Replaced(index: seq<IndexEntry>, kind: Kind, offset: nat): seq<IndexEntry> {
    WithoutKind(index, kind) + [EntryAt(kind, offset)]
  }

  /** The index without the first entry of a secondary table at `offset`. */
  function WithoutTable(index: seq<IndexEntry>, offset: nat): seq<IndexEntry> {
    if |index| == 0 then [] else
      if IsTable(index[0]) && index[0].offset == offset then index[1..]
      else [index[0]] + WithoutTable(index[1..], offset)
  }

  /** The backward loop that erases every entry of a kind. */
  method EraseKind(index: seq<IndexEntry>, kind: Kind) returns (r: seq<IndexEntry>, erased: bool)
    ensures r == WithoutKind(index, kind)
    ensures erased <==> r != index
  {
    r, erased := index, false;
    var k := |index|;
    assert index[k..] == [];
    while k > 0
      invariant 0 <= k <= |index|
      invariant r == index[..k] + WithoutKind(index[k..], kind)
      invariant erased <==> |r| < |index|
    {
      k := k - 1;
      assert index[k..][1..] == index[k + 1..];
      if KindOf(r[k]) == kind {
        r := r[..k] + r[k + 1..];
        erased := true;
      }
      assert index[..k + 1] == index[..k] + [index[k]];
    }
    assert index[0..] == index;
    WithoutKindSame(index, kind);
  }

  lemma {:induction false} WithoutKindSame(index: seq<IndexEntry>, kind: Kind)
    ensures |WithoutKind(index, kind)| == |index| <==> WithoutKind(index, kind) == index
  {
    if |index| > 0 {
      WithoutKindSame(index[1..], kind);
    }
  }

  /** The forward loop that erases the superseded secondary table and stops there. */
  method EraseTable(index: seq<IndexEntry>, offset: nat) returns (r: seq<IndexEntry>)
    ensures r == WithoutTable(index, offset)
  {
    hide WithoutTable, IsTable;
    r := index;
    assert index[0..] == index;
    for k := 0 to |index|
      invariant r == index
      invariant WithoutTable(index, offset) == index[..k] + WithoutTable(index[k..], offset)
    {
      WithoutTableStep(index, k, offset);
      if index[k].offset == offset && IsTable(index[k]) {
        r := index[..k] + index[k + 1..];
        return;
      }
      assert index[..k + 1] == index[..k] + [index[k]];
    }
    assert index[|index|..] == [] && index[..|index|] == index;
    WithoutNoTable(offset);
  }

  lemma WithoutTableStep(index: seq<IndexEntry>, k: nat, offset: nat)
    requires k < |index|
    ensures WithoutTable(index[k..], offset)
            == if IsTable(index[k]) && index[k].offset == offset then index[k + 1..]
               else [index[k]] + WithoutTable(index[k + 1..], offset)
  {
    assert index[k..][1..] == index[k + 1..];
  }

  lemma WithoutNoTable(offset: nat)
    ensures WithoutTable([], offset) == []
  {
  }

  // ---- Erasing keeps everything else, in order ----

  /** The positions of the entries that `WithoutKind` keeps. */
  function KeptPositions(index: seq<IndexEntry>, kind: Kind): (p: seq<nat>)
    ensures |p| <= |index|
  {
    if |index| == 0 then [] else
      var n := |index| - 1;
      KeptPositions(index[..n], kind) + if KindOf(index[n]) == kind then [] else [n]
  }

  lemma {:induction false} WithoutKindConcat(a: seq<IndexEntry>, b: seq<IndexEntry>, kind: Kind)
    ensures WithoutKind(a + b, kind) == WithoutKind(a, kind) + WithoutKind(b, kind)
    ensures OfKind(a + b, kind) == OfKind(a, kind) + OfKind(b, kind)
  {
    if |a| == 0 {
      assert a + b == b;
    } else {
      assert (a + b)[1..] == a[1..] + b;
      WithoutKindConcat(a[1..], b, kind);
    }
  }

  /** `r` is exactly the entries of other kinds, in their old order: entry `i` was at `p[i]`. */
  ghost predicate KeepsOrder(index: seq<IndexEntry>, kind: Kind, r: seq<IndexEntry>, p: seq<nat>) {
    && |r| == |p|
    && (forall i :: 0 <= i < |p| ==> p[i] < |index| && r[i] == index[p[i]])
    && (forall i, j :: 0 <= i < j < |p| ==> p[i] < p[j])
    && (forall n :: 0 <= n < |index| ==> (KindOf(index[n]) != kind <==> n in p))
  }

  lemma KeepsOrderPush(index: seq<IndexEntry>, x: IndexEntry, kind: Kind, r: seq<IndexEntry>, q: seq<nat>)
    requires KeepsOrder(index, kind, r, q)
    ensures if KindOf(x) == kind then KeepsOrder(index + [x], kind, r, q)
            else KeepsOrder(index + [x], kind, r + [x], q + [|index|])
  {
    var p := if KindOf(x) == kind then q else q + [|index|];
    forall n | 0 <= n <= |index|
      ensures KindOf((index + [x])[n]) != kind <==> n in p
    {
      if n == |index| && KindOf(x) != kind {
        assert p[|q|] == n;
      }
    }
  }

  lemma LastKept(index: seq<IndexEntry>, kind: Kind)
    requires |index| > 0
    ensures var n := |index| - 1; var e := index[n];
            && index == index[..n] + [e]
            && WithoutKind(index, kind) == WithoutKind(index[..n], kind) + (if KindOf(e) == kind then [] else [e])
            && KeptPositions(index, kind) == KeptPositions(index[..n], kind) + (if KindOf(e) == kind then [] else [n])
  {
    hide WithoutKind;
    var n := |index| - 1;
    assert index == index[..n] + [index[n]];
    WithoutKindConcat(index[..n], [index[n]], kind);
    WithoutKindOne(index[n], kind);
  }

  lemma WithoutKindOne(e: IndexEntry, kind: Kind)
    ensures WithoutKind([e], kind) == if KindOf(e) == kind then [] else [e]
    ensures WithoutKind([], kind) == []
  {
  }

  lemma {:induction false} ErasingKeepsOrder(index: seq<IndexEntry>, kind: Kind)
    ensures KeepsOrder(index, kind, WithoutKind(index, kind), KeptPositions(index, kind))
  {
    hide WithoutKind;
    if |index| > 0 {
      hide KeepsOrder, KeptPositions;
      var n := |index| - 1;
      ErasingKeepsOrder(index[..n], kind);
      LastKept(index, kind);
      KeepsOrderPush(index[..n], index[n], kind, WithoutKind(index[..n], kind), KeptPositions(index[..n], kind));
      if KindOf(index[n]) == kind {
        assert WithoutKind(index, kind) == WithoutKind(index[..n], kind);
        assert KeptPositions(index, kind) == KeptPositions(index[..n], kind);
      }
    } else {
      NothingKept(kind);
    }
  }

  lemma NothingKept(kind: Kind)
    ensures WithoutKind([], kind) == [] && KeptPositions([], kind) == []
  {
  }

  lemma {:induction false} ErasingKeepsOtherKinds(index: seq<IndexEntry>, kind: Kind, other: Kind)
    ensures OfKind(WithoutKind(index, kind), other) == if kind == other then [] else OfKind(index, other)
  {
    if |index| > 0 {
      ErasingKeepsOtherKinds(index[1..], kind, other);
      var head := if KindOf(index[0]) == kind then [] else [index[0]];
      WithoutKindConcat(head, WithoutKind(index[1..], kind), other);
      if KindOf(index[0]) != kind {
        assert [index[0]][1..] == [];
      }
    }
  }

  lemma ReplacedHasOne(index: seq<IndexEntry>, kind: Kind, offset: nat, other: Kind)
    ensures OfKind(Replaced(index, kind, offset), other)
            == if kind == other then [EntryAt(kind, offset)] else OfKind(index, other)
  {
    ErasingKeepsOtherKinds(index, kind, other);
    WithoutKindConcat(WithoutKind(index, kind), [EntryAt(kind, offset)], other);
    assert [EntryAt(kind, offset)][1..] == [];
  }

  lemma {:induction false} SupersedingKeepsOtherKinds(index: seq<IndexEntry>, offset: nat, other: Kind)
    requires other.blockType != DDT_SECONDARY && other.blockType != DDT_SECONDARY_ALPHA
    ensures OfKind(WithoutTable(index, offset), other) == OfKind(index, other)
  {
    if |index| > 0 && !(IsTable(index[0]) && index[0].offset == offset) {
      SupersedingKeepsOtherKinds(index[1..], offset, other);
      assert ([index[0]] + WithoutTable(index[1..], offset))[1..] == WithoutTable(index[1..], offset);
    }
  }

  lemma {:induction false} InOfKind(index: seq<IndexEntry>, e: IndexEntry)
    ensures e in OfKind(index, KindOf(e)) <==> e in index
  {
    if |index| > 0 {
      InOfKind(index[1..], e);
      assert index == [index[0]] + index[1..];
    }
  }

  // ---- A whole series of index steps ----

  /** What the writers do to the index. */
  datatype Step =
    | Replace(kind: Kind, offset: nat)       // a block that exists once
    | Add(kind: Kind, offset: nat)           // flux blocks and user data
    | Erase(kind: Kind)                      // a block that was cleared
    | Supersede(previous: nat, offset: nat)       // a secondary table rewritten; zero when it is new

  function Apply(index: seq<IndexEntry>, s: Step): seq<IndexEntry> {
    match s
    case Replace(kind, offset) => Replaced(index, kind, offset)
    case Add(kind, offset) => index + [EntryAt(kind, offset)]
    case Erase(kind) => WithoutKind(index, kind)
    case Supersede(before, offset) =>
      (if before == 0 then index else WithoutTable(index, before))
      + [EntryAt(Kind(DDT_SECONDARY, TYPE_USER_DATA), offset)]
  }

  function Run(index: seq<IndexEntry>, steps: seq<Step>): seq<IndexEntry> {
    if |steps| == 0 then index else Apply(Run(index, steps[..|steps| - 1]), steps[|steps| - 1])
  }

  lemma RunPush(index: seq<IndexEntry>, steps: seq<Step>, s: Step)
    ensures Run(index, steps + [s]) == Apply(Run(index, steps), s)
  {
    assert (steps + [s])[..|steps|] == steps;
  }

  predicate Touches(s: Step, kind: Kind) {
    match s
    case Supersede(_, _) => kind.blockType == DDT_SECONDARY || kind.blockType == DDT_SECONDARY_ALPHA
    case _ => s.kind == kind
  }

  /** Steps of this form throw away what the kind had before. */
  predicate Discards(s: Step, kind: Kind) {
    (s.Replace? || s.Erase?) && s.kind == kind
  }

  lemma UntouchedStep(index: seq<IndexEntry>, s: Step, kind: Kind)
    requires !Touches(s, kind)
    ensures OfKind(Apply(index, s), kind) == OfKind(index, kind)
  {
    match s {
      case Replace(k, offset) => ReplacedHasOne(index, k, offset, kind);
      case Add(k, offset) =>
        WithoutKindConcat(index, [EntryAt(k, offset)], kind);
        assert [EntryAt(k, offset)][1..] == [];
      case Erase(k) => ErasingKeepsOtherKinds(index, k, kind);
      case Supersede(before, offset) =>
        SupersedingKeepsOtherKinds(index, before, kind);
        var e := EntryAt(Kind(DDT_SECONDARY, TYPE_USER_DATA), offset);
        WithoutKindConcat(if before == 0 then index else WithoutTable(index, before), [e], kind);
        assert [e][1..] == [];
    }
  }

  lemma {:induction false} UntouchedRun(index: seq<IndexEntry>, steps: seq<Step>, n: nat, kind: Kind)
    requires n <= |steps| && forall j :: n <= j < |steps| ==> !Touches(steps[j], kind)
    ensures OfKind(Run(index, steps), kind) == OfKind(Run(index, steps[..n]), kind)
    decreases |steps|
  {
    if n == |steps| {
      assert steps[..n] == steps;
    } else {
      var last := |steps| - 1;
      UntouchedRun(index, steps[..last], n, kind);
      assert steps[..last][..n] == steps[..n];
      UntouchedStep(Run(index, steps[..last]), steps[last], kind);
    }
  }

  /** A block that exists once ends with exactly one entry, at its newest position. */
  lemma NewestBlockOnly(index: seq<IndexEntry>, steps: seq<Step>, n: nat)
    requires n < |steps| && steps[n].Replace?
    requires forall j :: n < j < |steps| ==> !Touches(steps[j], steps[n].kind)
    ensures OfKind(Run(index, steps), steps[n].kind) == [EntryAt(steps[n].kind, steps[n].offset)]
  {
    hide OfKind, WithoutKind, Run;
    UntouchedRun(index, steps, n + 1, steps[n].kind);
    assert steps[..n + 1] == steps[..n] + [steps[n]];
    RunPush(index, steps[..n], steps[n]);
    ReplacedHasOne(Run(index, steps[..n]), steps[n].kind, steps[n].offset, steps[n].kind);
  }

  lemma StepKeepsEntry(index: seq<IndexEntry>, s: Step, e: IndexEntry)
    requires !IsTable(e) && (s.Replace? || s.Add? ==> s.offset != e.offset)
    ensures e in Apply(index, s) <==> e in index && !Discards(s, KindOf(e))
  {
    hide WithoutKind, WithoutTable, OfKind;
    var kind := KindOf(e);
    InOfKind(index, e);
    InOfKind(Apply(index, s), e);
    if !Touches(s, kind) {
      UntouchedStep(index, s, kind);
    } else if s.Replace? {
      ReplacedHasOne(index, kind, s.offset, kind);
    } else if s.Erase? {
      ErasingKeepsOtherKinds(index, kind, kind);
    }
  }

  /** A written block is still indexed at the end exactly when no later step discards its kind: two
      media tags that map to the same data type cost the first one its entry. */
  lemma {:induction false} StillIndexedIff(index: seq<IndexEntry>, steps: seq<Step>, n: nat)
    requires n < |steps| && (steps[n].Replace? || steps[n].Add?)
    requires !IsTable(EntryAt(steps[n].kind, steps[n].offset))
    requires forall j :: n < j < |steps| && (steps[j].Replace? || steps[j].Add?) ==> steps[j].offset != steps[n].offset
    ensures EntryAt(steps[n].kind, steps[n].offset) in Run(index, steps)
            <==> forall j :: n < j < |steps| ==> !Discards(steps[j], steps[n].kind)
    decreases |steps|
  {
    hide Apply, WithoutKind;
    var e, last := EntryAt(steps[n].kind, steps[n].offset), |steps| - 1;
    var earlier := steps[..last];
    assert forall j :: 0 <= j < last ==> earlier[j] == steps[j];
    if n < last {
      StillIndexedIff(index, earlier, n);
      StepKeepsEntry(Run(index, earlier), steps[last], e);
    } else {
      WrittenIsIndexed(Run(index, earlier), steps[last]);
    }
  }

  lemma WrittenIsIndexed(index: seq<IndexEntry>, s: Step)
    requires s.Replace? || s.Add?
    ensures EntryAt(s.kind, s.offset) in Apply(index, s)
  {
  }

  // ---- Two-level tables ----

  /** Every entry of the primary table that has been set points, shifted left, at an indexed secondary
      table; no two of them share a table, and no table is indexed twice. */
  ghost predicate Coherent(table: seq<nat>, index: seq<IndexEntry>, shift: nat, bound: nat) {
    && (forall p :: 0 <= p < |table| && table[p] != 0 ==> TableEntry(table[p], shift) in index)
    && (forall p, q :: 0 <= p < q < |table| && table[p] != 0 ==> table[p] != table[q])
    && (forall e :: e in index && IsTable(e) ==> e.offset < bound)
    && TablesApart(index)
  }

  ghost predicate TablesApart(index: seq<IndexEntry>) {
    forall i, j :: 0 <= i < j < |index| && IsTable(index[i]) && IsTable(index[j]) ==> index[i].offset != index[j].offset
  }

  /** The index entry that a primary entry stands for. */
  function TableEntry(value: nat, shift: nat): IndexEntry {
    IndexEntry(DDT_SECONDARY, TYPE_USER_DATA, value * Pow2(shift))
  }

  /** Taking one table out of the index leaves the rest as it was. */
  lemma {:induction false} WithoutTableSplits(index: seq<IndexEntry>, offset: nat) returns (n: nat)
    ensures n <= |index|
    ensures if n < |index| then IsTable(index[n]) && index[n].offset == offset
                                && WithoutTable(index, offset) == index[..n] + index[n + 1..]
            else WithoutTable(index, offset) == index
                 && forall i :: 0 <= i < |index| ==> !(IsTable(index[i]) && index[i].offset == offset)
  {
    if |index| == 0 {
      n := 0;
    } else if IsTable(index[0]) && index[0].offset == offset {
      n := 0;
    } else {
      var m := WithoutTableSplits(index[1..], offset);
      n := m + 1;
      if m < |index[1..]| {
        CutBehindFirst(index, m);
      } else {
        assert forall i :: 1 <= i < |index| ==> index[i] == index[1..][i - 1];
      }
    }
  }

  lemma CutBehindFirst(index: seq<IndexEntry>, m: nat)
    requires m + 1 < |index|
    ensures [index[0]] + (index[1..][..m] + index[1..][m + 1..]) == index[..m + 1] + index[m + 2..]
  {
  }

  lemma WithoutTableMembers(index: seq<IndexEntry>, offset: nat)
    ensures forall e :: e in WithoutTable(index, offset) ==> e in index
    ensures forall e :: e in index && !(IsTable(e) && e.offset == offset) ==> e in WithoutTable(index, offset)
  {
    hide WithoutTable;
    var n := WithoutTableSplits(index, offset);
    var r := WithoutTable(index, offset);
    if n < |index| {
      assert forall i :: 0 <= i < |r| ==> r[i] == index[if i < n then i else i + 1];
      forall e | e in index && !(IsTable(e) && e.offset == offset)
        ensures e in r
      {
        var i :| 0 <= i < |index| && index[i] == e;
        assert r[if i < n then i else i - 1] == e;
      }
    }
  }

  /** No entry for the superseded table remains, and the others stay apart. */
  lemma SupersededIsGone(index: seq<IndexEntry>, offset: nat)
    requires TablesApart(index)
    ensures TablesApart(WithoutTable(index, offset))
    ensures forall e :: e in WithoutTable(index, offset) && IsTable(e) ==> e.offset != offset
  {
    hide WithoutTable;
    var n := WithoutTableSplits(index, offset);
    var r := WithoutTable(index, offset);
    if n < |index| {
      assert forall i :: 0 <= i < |r| ==> r[i] == index[if i < n then i else i + 1];
    }
  }

  lemma {:induction false} WithoutKindTables(index: seq<IndexEntry>, kind: Kind)
    requires TablesApart(index) && kind.blockType != DDT_SECONDARY && kind.blockType != DDT_SECONDARY_ALPHA
    ensures TablesApart(WithoutKind(index, kind))
    ensures forall e :: e in WithoutKind(index, kind) ==> e in index
    ensures forall e :: e in index && IsTable(e) ==> e in WithoutKind(index, kind)
  {
    if |index| > 0 {
      WithoutKindTables(index[1..], kind);
      assert index == [index[0]] + index[1..];
      var rest := WithoutKind(index[1..], kind);
      assert forall e :: e in rest && IsTable(e) && IsTable(index[0]) ==> e.offset != index[0].offset;
    }
  }

  lemma PushTable(index: seq<IndexEntry>, e: IndexEntry)
    requires TablesApart(index)
    requires IsTable(e) ==> forall x :: x in index && IsTable(x) ==> x.offset != e.offset
    ensures TablesApart(index + [e])
  {
    forall i, j | 0 <= i < j < |index| + 1 && IsTable((index + [e])[i]) && IsTable((index + [e])[j])
      ensures (index + [e])[i].offset != (index + [e])[j].offset
    {
      assert index[i] in index;
    }
  }

  /** A flush of the secondary table of position `p` keeps the two levels coherent, sets the primary
      entry to exactly the new table's offset, and leaves the superseded table in the index only if the
      cached offset was zero. */
  lemma FlushKeepsCoherent(table: seq<nat>, index: seq<IndexEntry>, shift: nat, bound: nat, p: nat, cached: nat,
                           offset: nat)
    requires Coherent(table, index, shift, bound) && p < |table|
    requires cached == 0 || cached == table[p] * Pow2(shift)
    requires offset % Pow2(shift) == 0 && 0 < offset && bound <= offset
    ensures var table' := table[p := ShiftRight(offset, shift)];
            var index' := Apply(index, Supersede(cached, offset));
            && table'[p] * Pow2(shift) == offset
            && (forall bound' :: bound' > offset ==> Coherent(table', index', shift, bound'))
            && (table[p] != 0 ==> (TableEntry(table[p], shift) in index' <==> cached == 0))
  {
    hide WithoutTable, Pow2;
    ShiftIsExact(offset, shift);
    var v := ShiftRight(offset, shift);
    var table' := table[p := v];
    var e := TableEntry(v, shift);
    var rest := if cached == 0 then index else WithoutTable(index, cached);
    SupersededIsGone(index, cached);
    WithoutTableMembers(index, cached);
    assert forall x :: x in rest && IsTable(x) ==> x in index && x.offset < bound;
    PushTable(rest, e);
    forall q | 0 <= q < |table| && table[q] != 0
      ensures table[q] != v && (q != p ==> TableEntry(table[q], shift) in rest)
    {
      assert TableEntry(table[q], shift) in index;
      if q != p {
        TableEntriesDiffer(table[q], table[p], shift);
      }
    }
    assert forall x :: x in rest + [e] ==> x in rest || x == e;
  }

  /** Every other step that writes a block of another type leaves the two levels coherent. */
  lemma OtherStepsKeepCoherent(table: seq<nat>, index: seq<IndexEntry>, shift: nat, bound: nat, s: Step)
    requires Coherent(table, index, shift, bound) && !s.Supersede?
    requires s.kind.blockType != DDT_SECONDARY && s.kind.blockType != DDT_SECONDARY_ALPHA
    ensures Coherent(table, Apply(index, s), shift, bound)
  {
    hide WithoutKind, Pow2;
    WithoutKindTables(index, s.kind);
    var rest := if s.Add? then index else WithoutKind(index, s.kind);
    if !s.Erase? {
      PushTable(rest, EntryAt(s.kind, s.offset));
    }
    assert forall x :: x in Apply(index, s) ==> x in rest || !IsTable(x);
  }

  lemma ShiftIsExact(offset: nat, shift: nat)
    requires offset % Pow2(shift) == 0 && offset > 0
    ensures ShiftRight(offset, shift) > 0 && ShiftRight(offset, shift) * Pow2(shift) == offset
  {
    hide Pow2;
    var p := Pow2(shift);
    assert offset == offset / p * p + offset % p;
    ZeroTimes(offset / p, p);
  }

  lemma ZeroTimes(q: nat, p: nat)
    ensures q == 0 ==> q * p == 0
  {
  }

  lemma TableEntriesDiffer(a: nat, b: nat, shift: nat)
    requires a != b
    ensures a * Pow2(shift) != b * Pow2(shift)
  {
    hide Pow2;
    MulAtLeast(Pow2(shift), a - b);
    assert Pow2(shift) * (a - b) == a * Pow2(shift) - b * Pow2(shift);
  }
}
