/** The dump hardware block (src/dump.c): a parser that canonicalizes what it is given, the printer that
    returns it, and the printer of the closing writer (src/close_write.c).
 */
module DumpHardware {
  import opened Wrappers
  import opened Octet
  import opened ImageFile

  const DUMP_BLOCK: nat := 0x2A504D44
  const DUMP_HEADER_SIZE: nat := 18
  const DUMP_ENTRY_SIZE: nat := 36
  const EXTENT_SIZE: nat := 16
  const DUMP_HEADER_LAYOUT: seq<nat> := [4, 2, 4, 8]
  const STRINGS: nat := 8

  /** A range of sectors dumped with one set of hardware. */
  datatype Extent = Extent(start: nat, end: nat)

  /** One entry with its data: the eight strings in order, and the extents. */
  datatype DumpEntry = DumpEntry(strings: seq<Bytes>, extents: seq<Extent>)

  datatype DumpHeader = DumpHeader(identifier: nat, entries: nat, length: nat, crc64: nat)

  datatype Status = Ok | ReadOnly | IncorrectSize | CannotRead | InvalidCrc | BufferTooSmall

  // ---- Serialized form ----

  lemma HeaderWidth()
    ensures Width(DUMP_HEADER_LAYOUT) == DUMP_HEADER_SIZE
  {
    hide Width;
    WidthNone();
    WidthCons(8, []);
    WidthCons(4, [8]);
    WidthCons(2, [4, 8]);
    WidthCons(4, [2, 4, 8]);
    assert [8] + [] == [8] && [4] + [8] == [4, 8] && [2] + [4, 8] == [2, 4, 8];
    assert [4] + [2, 4, 8] == DUMP_HEADER_LAYOUT;
  }

  function EncodeDumpHeader(h: DumpHeader): (b: Bytes)
    ensures |b| == DUMP_HEADER_SIZE
  {
    HeaderWidth();
    Pack(DUMP_HEADER_LAYOUT, [h.identifier, h.entries, h.length, h.crc64])
  }

  function DecodeDumpHeader(b: Bytes): DumpHeader
    requires |b| == DUMP_HEADER_SIZE
  {
    HeaderWidth();
    var f := Unpack(DUMP_HEADER_LAYOUT, b);
    DumpHeader(f[0], f[1], f[2], f[3])
  }

  lemma HeaderReadsBack(h: DumpHeader)
    requires h.identifier < 0x1_0000_0000 && h.entries < 0x1_0000 && h.length < 0x1_0000_0000
    requires h.crc64 < 0x1_0000_0000_0000_0000
    ensures DecodeDumpHeader(EncodeDumpHeader(h)) == h
  {
    hide Pack, Unpack, Width, Pow256;
    Powers();
    HeaderWidth();
    UnpackPack(DUMP_HEADER_LAYOUT, [h.identifier, h.entries, h.length, h.crc64]);
  }

  function Joined(strings: seq<Bytes>): Bytes {
    if |strings| == 0 then [] else strings[0] + Joined(strings[1..])
  }

  function Lengths(strings: seq<Bytes>): (r: seq<nat>)
    ensures |r| == |strings|
  {
    if |strings| == 0 then [] else [|strings[0]|] + Lengths(strings[1..])
  }

  function EncodeExtents(extents: seq<Extent>): (b: Bytes)
    ensures |b| == EXTENT_SIZE * |extents|
  {
    if |extents| == 0 then [] else
      LittleEndian(extents[0].start, 8) + LittleEndian(extents[0].end, 8) + EncodeExtents(extents[1..])
  }

  function ReadExtents(b: Bytes, n: nat): (r: seq<Extent>)
    requires |b| == EXTENT_SIZE * n
    ensures |r| == n
  {
    if n == 0 then [] else [Extent(Number(b[..8]), Number(b[8..16]))] + ReadExtents(b[16..], n - 1)
  }

  function EncodeEntry(e: DumpEntry): Bytes {
    Words(Lengths(e.strings) + [|e.extents|]) + Joined(e.strings) + EncodeExtents(e.extents)
  }

  function EncodeEntries(entries: seq<DumpEntry>): Bytes {
    if |entries| == 0 then [] else EncodeEntries(entries[..|entries| - 1]) + EncodeEntry(entries[|entries| - 1])
  }

  ghost predicate EntryFits(e: DumpEntry) {
    && |e.strings| == STRINGS && (forall i :: 0 <= i < STRINGS ==> |e.strings[i]| < 0x1_0000_0000)
    && |e.extents| < 0x1_0000_0000 && ExtentsFit(e.extents)
  }

  ghost predicate ExtentsFit(extents: seq<Extent>) {
    forall i :: 0 <= i < |extents| ==>
      extents[i].start < 0x1_0000_0000_0000_0000 && extents[i].end < 0x1_0000_0000_0000_0000
  }

  // ---- The parser, as a function of the bytes ----

  /** Consecutive strings of the given lengths at `pos`. */
  function ReadStrings(data: Bytes, pos: nat, lengths: seq<nat>): (r: Option<seq<Bytes>>)
    requires pos <= |data|
    ensures r.Some? ==> Lengths(r.value) == lengths && Holds(data, pos, Joined(r.value))
    decreases |lengths|
  {
    if |lengths| == 0 then Some([])
    else if lengths[0] > |data| - pos then None
    else
      var rest := ReadStrings(data, pos + lengths[0], lengths[1..]);
      if rest.None? then None else
        var head := data[pos..pos + lengths[0]];
        HoldsJoin(data, pos, head, Joined(rest.value));
        assert ([head] + rest.value)[1..] == rest.value;
        Some([head] + rest.value)
  }

  lemma HoldsJoin(data: Bytes, pos: nat, a: Bytes, b: Bytes)
    requires Holds(data, pos, a) && Holds(data, pos + |a|, b)
    ensures Holds(data, pos, a + b)
  {
    var s := data[pos..pos + |a| + |b|];
    assert s == data[pos..pos + |a|] + data[pos + |a|..pos + |a| + |b|];
  }

  lemma {:induction false} ExtentsReadBack(extents: seq<Extent>)
    requires ExtentsFit(extents)
    ensures ReadExtents(EncodeExtents(extents), |extents|) == extents
  {
    hide LittleEndian, Number, Pow256;
    if |extents| > 0 {
      var x, rest := extents[0], EncodeExtents(extents[1..]);
      WordSize(x.start);
      WordSize(x.end);
      Powers();
      NumberRoundTrip(x.start, 8);
      NumberRoundTrip(x.end, 8);
      var b := EncodeExtents(extents);
      assert b == LittleEndian(x.start, 8) + LittleEndian(x.end, 8) + rest;
      assert b[..8] == LittleEndian(x.start, 8) && b[8..16] == LittleEndian(x.end, 8) && b[16..] == rest;
      ExtentsReadBack(extents[1..]);
    }
  }

  lemma {:induction false} ExtentsBack(b: Bytes, n: nat)
    requires |b| == EXTENT_SIZE * n
    ensures EncodeExtents(ReadExtents(b, n)) == b && ExtentsFit(ReadExtents(b, n))
    decreases n
  {
    hide LittleEndian, Number, Pow256;
    if n > 0 {
      Powers();
      NumberBack(b[..8]);
      NumberBack(b[8..16]);
      ExtentsBack(b[16..], n - 1);
      var r := ReadExtents(b, n);
      assert r[1..] == ReadExtents(b[16..], n - 1);
      assert b == b[..8] + b[8..16] + b[16..];
      assert forall i :: 1 <= i < n ==> r[i] == r[1..][i - 1];
    }
  }

  lemma {:induction false} StringsReadBack(data: Bytes, pos: nat, strings: seq<Bytes>)
    requires Holds(data, pos, Joined(strings))
    ensures ReadStrings(data, pos, Lengths(strings)) == Some(strings)
    decreases |strings|
  {
    hide Holds;
    if |strings| > 0 {
      HoldsSplit(data, pos, strings[0], Joined(strings[1..]));
      HoldsExactly(data, pos, strings[0], |strings[0]|);
      assert Lengths(strings)[1..] == Lengths(strings[1..]);
      StringsReadBack(data, pos + |strings[0]|, strings[1..]);
      assert strings == [strings[0]] + strings[1..];
    } else {
      EndOf(data, pos, Joined(strings));
    }
  }

  lemma {:induction false} LengthsAre(strings: seq<Bytes>, i: nat)
    requires i < |strings|
    ensures Lengths(strings)[i] == |strings[i]|
  {
    if i > 0 {
      LengthsAre(strings[1..], i - 1);
    }
  }

  /** The entry at `pos`: its lengths, its strings, its extents. */
  function ReadEntry(data: Bytes, pos: nat): (r: Option<DumpEntry>)
    requires pos <= |data|
  {
    if |data| - pos < DUMP_ENTRY_SIZE then None else
      var words := ReadWords(data[pos..pos + DUMP_ENTRY_SIZE], 9);
      var at := pos + DUMP_ENTRY_SIZE;
      var strings := ReadStrings(data, at, words[..STRINGS]);
      if strings.None? then None else
        var from := at + |Joined(strings.value)|;
        var size := EXTENT_SIZE * words[STRINGS];
        if size > |data| - from then None
        else Some(DumpEntry(strings.value, ReadExtents(data[from..from + size], words[STRINGS])))
  }

  lemma EntryBack(data: Bytes, pos: nat)
    requires pos <= |data| && ReadEntry(data, pos).Some?
    ensures var e := ReadEntry(data, pos).value; Holds(data, pos, EncodeEntry(e)) && EntryFits(e)
  {
    hide Words, ReadWords, EncodeExtents, ReadExtents, Joined, Lengths, Holds, ReadStrings;
    var e := ReadEntry(data, pos).value;
    var head := data[pos..pos + DUMP_ENTRY_SIZE];
    WordsSize(head, 9);
    WordsBack(head, 9);
    var words := ReadWords(head, 9);
    var at := pos + DUMP_ENTRY_SIZE;
    StringsHeld(data, at, words[..STRINGS]);
    var from, size := at + |Joined(e.strings)|, EXTENT_SIZE * words[STRINGS];
    var tail := data[from..from + size];
    ExtentCount(tail, words[STRINGS]);
    ExtentsBack(tail, words[STRINGS]);
    assert words == words[..STRINGS] + [words[STRINGS]];
    forall i | 0 <= i < STRINGS
      ensures |e.strings[i]| < 0x1_0000_0000
    {
      LengthsAre(e.strings, i);
      assert words[i] == words[..STRINGS][i];
    }
    Slice(data, pos, DUMP_ENTRY_SIZE);
    Slice(data, from, size);
    HoldsJoin(data, pos, head, Joined(e.strings));
    HoldsJoin(data, pos, head + Joined(e.strings), tail);
  }

  lemma Slice(data: Bytes, pos: nat, n: nat)
    requires pos + n <= |data|
    ensures Holds(data, pos, data[pos..pos + n])
  {
  }

  lemma ExtentCount(b: Bytes, n: nat)
    requires |b| == EXTENT_SIZE * n
    ensures |ReadExtents(b, n)| == n
  {
  }

  lemma StringsHeld(data: Bytes, pos: nat, lengths: seq<nat>)
    requires pos <= |data| && ReadStrings(data, pos, lengths).Some?
    ensures var s := ReadStrings(data, pos, lengths).value;
            Lengths(s) == lengths && |s| == |lengths| && Holds(data, pos, Joined(s)) && pos + |Joined(s)| <= |data|
  {
    assert |Lengths(ReadStrings(data, pos, lengths).value)| == |ReadStrings(data, pos, lengths).value|;
  }

  /** An entry that was serialized is read back. */
  lemma EntryReadBack(data: Bytes, pos: nat, e: DumpEntry)
    requires Holds(data, pos, EncodeEntry(e)) && EntryFits(e)
    ensures pos <= |data| && ReadEntry(data, pos) == Some(e)
  {
    hide Words, ReadWords, EncodeExtents, ReadExtents, Joined, Lengths, ReadStrings;
    var words := Lengths(e.strings) + [|e.extents|];
    LengthCount(e.strings);
    WordBytes(words);
    ExtentBytes(e.extents);
    forall i | 0 <= i < 9
      ensures words[i] < 0x1_0000_0000
    {
      if i < STRINGS { LengthsAre(e.strings, i); }
    }
    WordsReadBack(words);
    ExtentsReadBack(e.extents);
    var at := pos + DUMP_ENTRY_SIZE;
    HoldsSplit(data, pos, Words(words) + Joined(e.strings), EncodeExtents(e.extents));
    HoldsSplit(data, pos, Words(words), Joined(e.strings));
    StringsReadBack(data, at, e.strings);
    assert words[..STRINGS] == Lengths(e.strings);
    HoldsExactly(data, pos, Words(words), DUMP_ENTRY_SIZE);
    HoldsExactly(data, at + |Joined(e.strings)|, EncodeExtents(e.extents), EXTENT_SIZE * |e.extents|);
  }

  lemma LengthCount(strings: seq<Bytes>)
    ensures |Lengths(strings)| == |strings|
  {
  }

  lemma ExtentBytes(extents: seq<Extent>)
    ensures |EncodeExtents(extents)| == EXTENT_SIZE * |extents|
  {
  }

  /** The first `n` entries at `pos`. */
  function ReadEntries(data: Bytes, pos: nat, n: nat): (r: Option<seq<DumpEntry>>)
    ensures r.Some? ==> |r.value| == n
  {
    if n == 0 then Some([]) else
      var rest := ReadEntries(data, pos, n - 1);
      if rest.None? then None else
        var at := pos + |EncodeEntries(rest.value)|;
        if at > |data| then None else
          var e := ReadEntry(data, at);
          if e.None? then None else Some(rest.value + [e.value])
  }

  /** What was read is what the bytes serialize. */
  lemma {:induction false} EntriesBack(data: Bytes, pos: nat, n: nat)
    requires pos <= |data| && ReadEntries(data, pos, n).Some?
    ensures var r := ReadEntries(data, pos, n).value;
            Holds(data, pos, EncodeEntries(r)) && forall i :: 0 <= i < n ==> EntryFits(r[i])
  {
    hide EncodeEntry, EntryFits, ReadEntry, EncodeEntries;
    EncodeNone();
    if n > 0 {
      EntriesBack(data, pos, n - 1);
      var rest := ReadEntries(data, pos, n - 1).value;
      var r := ReadEntries(data, pos, n).value;
      var at := pos + |EncodeEntries(rest)|;
      EntryBack(data, at);
      HoldsJoin(data, pos, EncodeEntries(rest), EncodeEntry(r[n - 1]));
      assert r == rest + [r[n - 1]];
      EncodePush(rest, r[n - 1]);
    }
  }

  lemma EncodeNone()
    ensures EncodeEntries([]) == []
  {
  }

  lemma EncodePush(entries: seq<DumpEntry>, e: DumpEntry)
    ensures EncodeEntries(entries + [e]) == EncodeEntries(entries) + EncodeEntry(e)
  {
    assert (entries + [e])[..|entries|] == entries;
  }

  lemma {:induction false} EntriesReadBack(data: Bytes, pos: nat, entries: seq<DumpEntry>)
    requires Holds(data, pos, EncodeEntries(entries))
    requires forall i :: 0 <= i < |entries| ==> EntryFits(entries[i])
    ensures pos <= |data| && ReadEntries(data, pos, |entries|) == Some(entries)
    decreases |entries|
  {
    hide EncodeEntry, EntryFits, ReadEntry;
    if |entries| > 0 {
      var n := |entries| - 1;
      HoldsSplit(data, pos, EncodeEntries(entries[..n]), EncodeEntry(entries[n]));
      EntriesReadBack(data, pos, entries[..n]);
      EntryReadBack(data, pos + |EncodeEntries(entries[..n])|, entries[n]);
      assert entries == entries[..n] + [entries[n]];
    }
  }

  lemma {:induction false} EntriesStop(data: Bytes, pos: nat, i: nat, n: nat)
    requires i <= n && ReadEntries(data, pos, i).None?
    ensures ReadEntries(data, pos, n).None?
    decreases n
  {
    hide ReadEntry, EncodeEntries;
    if i < n {
      EntriesStop(data, pos, i, n - 1);
    }
  }

  // ---- Canonical form ----

  /** A string with its last byte zero. */
  function Terminated(b: Bytes): (r: Bytes)
    ensures |r| == |b|
  {
    if |b| == 0 then b else b[..|b| - 1] + [0]
  }

  ghost predicate SortedExtents(extents: seq<Extent>) {
    forall i, j :: 0 <= i < j < |extents| ==> extents[i].start <= extents[j].start
  }

  /** What the parser keeps of an entry: terminated strings, and the same extents sorted by their start. */
  ghost predicate Canonical(raw: DumpEntry, e: DumpEntry) {
    && |e.strings| == |raw.strings|
    && (forall i :: 0 <= i < |raw.strings| ==> e.strings[i] == Terminated(raw.strings[i]))
    && SortedExtents(e.extents) && multiset(e.extents) == multiset(raw.extents)
  }

  ghost predicate AllCanonical(raws: seq<DumpEntry>, entries: seq<DumpEntry>) {
    |raws| == |entries| && forall i :: 0 <= i < |raws| ==> Canonical(raws[i], entries[i])
  }

  /** The same string, but for its last byte, which is zero. */
  ghost predicate EndsInZero(raw: Bytes, b: Bytes) {
    && |b| == |raw|
    && (|b| > 0 ==> b[|b| - 1] == 0)
    && forall i :: 0 <= i < |b| - 1 ==> b[i] == raw[i]
  }

  /** Entry by entry: every string has kept its length and its bytes and ends in a zero byte, and the extents
      are the same ones in the order of their starts. */
  ghost predicate TerminatedCopies(raws: seq<DumpEntry>, entries: seq<DumpEntry>) {
    && |entries| == |raws|
    && forall i :: 0 <= i < |raws| ==>
         && |entries[i].strings| == |raws[i].strings|
         && (forall k :: 0 <= k < |raws[i].strings| ==> EndsInZero(raws[i].strings[k], entries[i].strings[k]))
         && SortedExtents(entries[i].extents) && multiset(entries[i].extents) == multiset(raws[i].extents)
  }

  lemma CanonicalMeans(raws: seq<DumpEntry>, entries: seq<DumpEntry>)
    requires AllCanonical(raws, entries)
    ensures TerminatedCopies(raws, entries)
  {
    hide SortedExtents;
  }

  lemma {:induction false} SameLengths(a: seq<Bytes>, b: seq<Bytes>)
    requires |a| == |b| && forall i :: 0 <= i < |a| ==> |a[i]| == |b[i]|
    ensures |Joined(a)| == |Joined(b)|
  {
    if |a| > 0 {
      assert forall i :: 0 <= i < |a[1..]| ==> |a[1..][i]| == |b[1..][i]|;
      SameLengths(a[1..], b[1..]);
    }
  }

  /** Canonicalizing keeps the size and the ranges of the fields. */
  lemma CanonicalKeepsSize(raw: DumpEntry, e: DumpEntry)
    requires Canonical(raw, e)
    ensures |EncodeEntry(e)| == |EncodeEntry(raw)| && (EntryFits(raw) ==> EntryFits(e))
  {
    hide Words, EncodeExtents, Joined, Lengths;
    assert forall i :: 0 <= i < |raw.strings| ==> |e.strings[i]| == |raw.strings[i]|;
    SameLengths(raw.strings, e.strings);
    LengthCount(raw.strings);
    LengthCount(e.strings);
    assert |e.extents| == |multiset(e.extents)| == |multiset(raw.extents)| == |raw.extents|;
    WordBytes(Lengths(raw.strings) + [|raw.extents|]);
    WordBytes(Lengths(e.strings) + [|e.extents|]);
    ExtentBytes(raw.extents);
    ExtentBytes(e.extents);
    if EntryFits(raw) {
      forall i | 0 <= i < |e.extents|
        ensures e.extents[i] in raw.extents
      {
        assert e.extents[i] in multiset(e.extents);
      }
    }
  }

  lemma {:induction false} CanonicalKeepsSizes(raws: seq<DumpEntry>, entries: seq<DumpEntry>)
    requires AllCanonical(raws, entries)
    ensures |EncodeEntries(entries)| == |EncodeEntries(raws)|
  {
    hide EncodeEntry, Canonical;
    if |raws| > 0 {
      var n := |raws| - 1;
      CanonicalKeepsSizes(raws[..n], entries[..n]);
      CanonicalKeepsSize(raws[n], entries[n]);
    }
  }

  /** Equal up to the order of extents with the same start. */
  ghost predicate SameUpToTies(a: DumpEntry, b: DumpEntry) {
    && a.strings == b.strings && multiset(a.extents) == multiset(b.extents) && |a.extents| == |b.extents|
    && forall i :: 0 <= i < |a.extents| ==> a.extents[i].start == b.extents[i].start
  }

  /** A canonical entry canonicalized again is the same, up to ties; without ties it is equal. */
  lemma CanonicalTwice(raw: DumpEntry, e: DumpEntry, again: DumpEntry)
    requires Canonical(raw, e) && Canonical(e, again)
    ensures SameUpToTies(e, again)
    ensures (forall i, j :: 0 <= i < j < |e.extents| ==> e.extents[i].start != e.extents[j].start) ==> again == e
  {
    hide SortedExtents;
    assert forall i :: 0 <= i < |raw.strings| ==> Terminated(Terminated(raw.strings[i])) == Terminated(raw.strings[i]);
    assert e.strings == again.strings;
    SortedStartsAgree(e.extents, again.extents);
    if forall i, j :: 0 <= i < j < |e.extents| ==> e.extents[i].start != e.extents[j].start {
      DistinctStartsAgree(e.extents, again.extents);
    }
  }

  function Starts(s: seq<Extent>): (r: seq<nat>)
    ensures |r| == |s| && forall i :: 0 <= i < |s| ==> r[i] == s[i].start
  {
    seq(|s|, i requires 0 <= i < |s| => s[i].start)
  }

  lemma RemoveOne<T>(s: seq<T>, j: nat)
    requires j < |s|
    ensures multiset(s) == multiset(s[..j] + s[j + 1..]) + multiset{s[j]}
    ensures multiset(s[..j] + s[j + 1..]) == multiset(s) - multiset{s[j]}
  {
    assert s == s[..j] + [s[j]] + s[j + 1..];
  }

  /** The first of some extents is among the same extents in another order, and so is the rest. */
  lemma FindFirst(a: seq<Extent>, b: seq<Extent>) returns (j: nat)
    requires multiset(a) == multiset(b) && |a| > 0
    ensures j < |b| && b[j] == a[0] && multiset(a[..0] + a[1..]) == multiset(b[..j] + b[j + 1..])
  {
    var m := multiset(b);
    HeadCounted(a, m);
    j := FindIn(b, a[0]);
    RemovedAre(a, 0, m);
    RemovedAre(b, j, m);
  }

  lemma HeadCounted(a: seq<Extent>, m: multiset<Extent>)
    requires multiset(a) == m && |a| > 0
    ensures a[0] in m
  {
  }

  lemma RemovedAre(s: seq<Extent>, j: nat, m: multiset<Extent>)
    requires j < |s| && multiset(s) == m
    ensures multiset(s[..j] + s[j + 1..]) == m - multiset{s[j]}
  {
    RemoveOne(s, j);
  }

  lemma FindIn(s: seq<Extent>, x: Extent) returns (j: nat)
    requires x in multiset(s)
    ensures j < |s| && s[j] == x
  {
    j :| 0 <= j < |s| && s[j] == x;
  }

  /** The starts, counted, depend only on which extents there are. */
  lemma {:induction false} StartsOfSame(a: seq<Extent>, b: seq<Extent>)
    requires multiset(a) == multiset(b)
    ensures multiset(Starts(a)) == multiset(Starts(b))
  {
    hide Starts;
    if |a| == 0 {
      assert |multiset(b)| == 0;
      assert b == a;
    } else {
      var j := FindFirst(a, b);
      StartsOfSame(a[..0] + a[1..], b[..j] + b[j + 1..]);
      StartsRemoved(a, 0);
      StartsRemoved(b, j);
    }
  }

  lemma StartsRemoved(s: seq<Extent>, j: nat)
    requires j < |s|
    ensures multiset(Starts(s)) == multiset(Starts(s[..j] + s[j + 1..])) + multiset{s[j].start}
  {
    RemoveOne(Starts(s), j);
    assert Starts(s)[..j] + Starts(s)[j + 1..] == Starts(s[..j] + s[j + 1..]);
  }

  ghost predicate Ascending(x: seq<nat>) {
    forall i, j :: 0 <= i < j < |x| ==> x[i] <= x[j]
  }

  lemma LastIsLargest(x: seq<nat>, v: nat)
    requires Ascending(x) && v in multiset(x)
    ensures |x| > 0 && v <= x[|x| - 1]
  {
    var i :| 0 <= i < |x| && x[i] == v;
  }

  lemma WithoutLast(x: seq<nat>)
    requires |x| > 0
    ensures multiset(x[..|x| - 1]) == multiset(x) - multiset{x[|x| - 1]} && x == x[..|x| - 1] + [x[|x| - 1]]
    ensures x[|x| - 1] in multiset(x)
  {
    assert x == x[..|x| - 1] + [x[|x| - 1]];
  }

  lemma SameSize(x: seq<nat>, y: seq<nat>)
    requires multiset(x) == multiset(y)
    ensures |x| == |y|
  {
    assert |x| == |multiset(x)| == |multiset(y)| == |y|;
  }

  lemma LastsAgree(x: seq<nat>, y: seq<nat>)
    requires Ascending(x) && Ascending(y) && multiset(x) == multiset(y) && |x| > 0 && |y| > 0
    ensures x[|x| - 1] == y[|y| - 1]
    ensures multiset(x[..|x| - 1]) == multiset(y[..|y| - 1])
  {
    hide Ascending;
    WithoutLast(x);
    WithoutLast(y);
    LastIsLargest(x, y[|y| - 1]);
    LastIsLargest(y, x[|x| - 1]);
  }

  lemma {:induction false} SortedNumbersAgree(x: seq<nat>, y: seq<nat>)
    requires Ascending(x) && Ascending(y) && multiset(x) == multiset(y)
    ensures x == y
  {
    hide Ascending;
    SameSize(x, y);
    if |x| > 0 {
      LastsAgree(x, y);
      PrefixAscends(x);
      PrefixAscends(y);
      SortedNumbersAgree(x[..|x| - 1], y[..|y| - 1]);
      EqualParts(x, y);
    }
  }

  lemma EqualParts(x: seq<nat>, y: seq<nat>)
    requires 0 < |x| == |y| && x[..|x| - 1] == y[..|y| - 1] && x[|x| - 1] == y[|y| - 1]
    ensures x == y
  {
    assert x == x[..|x| - 1] + [x[|x| - 1]];
  }

  lemma PrefixAscends(x: seq<nat>)
    requires Ascending(x) && |x| > 0
    ensures Ascending(x[..|x| - 1])
  {
  }

  lemma SortedStartsAgree(a: seq<Extent>, b: seq<Extent>)
    requires SortedExtents(a) && SortedExtents(b) && multiset(a) == multiset(b)
    ensures |a| == |b| && forall i :: 0 <= i < |a| ==> a[i].start == b[i].start
  {
    StartsOfSame(a, b);
    SortedNumbersAgree(Starts(a), Starts(b));
    assert |a| == |Starts(a)| == |Starts(b)| == |b|;
    forall i | 0 <= i < |a|
      ensures a[i].start == b[i].start
    {
      assert Starts(a)[i] == Starts(b)[i];
    }
  }

  lemma DistinctStartsAgree(a: seq<Extent>, b: seq<Extent>)
    requires |a| == |b| && multiset(a) == multiset(b) && forall i :: 0 <= i < |a| ==> a[i].start == b[i].start
    requires forall i, j :: 0 <= i < j < |a| ==> a[i].start != a[j].start
    ensures a == b
  {
    forall i | 0 <= i < |a|
      ensures a[i] == b[i]
    {
      assert a[i] in multiset(b);
      var j :| 0 <= j < |b| && b[j] == a[i];
      assert a[j].start == a[i].start;
    }
  }

  ghost predicate Sorts(r: seq<Extent>, extents: seq<Extent>) {
    SortedExtents(r) && multiset(r) == multiset(extents)
  }

  /** Sort by start: any order of ties will do. */
  method SortExtents(extents: seq<Extent>) returns (r: seq<Extent>)
    ensures SortedExtents(r) && multiset(r) == multiset(extents)
  {
    r := [];
    for i := 0 to |extents|
      invariant Sorts(r, extents[..i])
    {
      hide Sorts;
      var k := PlaceFor(r, extents[i]);
      InsertNext(extents, i, r, k);
      r := r[..k] + [extents[i]] + r[k..];
    }
    assert extents[..|extents|] == extents;
  }

  /** Behind everything that does not start later. */
  method PlaceFor(r: seq<Extent>, x: Extent) returns (k: nat)
    ensures k <= |r| && (k > 0 ==> r[k - 1].start <= x.start)
    ensures forall j :: k <= j < |r| ==> r[j].start > x.start
  {
    k := |r|;
    while k > 0 && r[k - 1].start > x.start
      invariant 0 <= k <= |r|
      invariant forall j :: k <= j < |r| ==> r[j].start > x.start
    {
      k := k - 1;
    }
  }

  /** One more extent at its place among the first `i` ones. */
  lemma InsertNext(extents: seq<Extent>, i: nat, r: seq<Extent>, k: nat)
    requires i < |extents| && k <= |r| && Sorts(r, extents[..i])
    requires forall j :: k <= j < |r| ==> r[j].start > extents[i].start
    requires k > 0 ==> r[k - 1].start <= extents[i].start
    ensures Sorts(r[..k] + [extents[i]] + r[k..], extents[..i + 1])
  {
    hide SortedExtents;
    InsertSorted(r, k, extents[i]);
    assert extents[..i + 1] == extents[..i] + [extents[i]];
  }

  lemma InsertSorted(r: seq<Extent>, k: nat, x: Extent)
    requires SortedExtents(r) && k <= |r|
    requires forall j :: k <= j < |r| ==> r[j].start > x.start
    requires k > 0 ==> r[k - 1].start <= x.start
    ensures SortedExtents(r[..k] + [x] + r[k..]) && multiset(r[..k] + [x] + r[k..]) == multiset(r) + multiset{x}
  {
    hide SortedExtents;
    InsertCount(r, k, x);
    forall i | 0 <= i < k
      ensures r[i].start <= x.start
    {
      if i < k - 1 {
        SortedPair(r, i, k - 1);
      }
    }
    SortedParts(r, k);
    SortedJoin(r[..k], x, r[k..]);
  }

  lemma SortedPair(r: seq<Extent>, i: nat, j: nat)
    requires SortedExtents(r) && i < j < |r|
    ensures r[i].start <= r[j].start
  {
  }

  lemma SortedParts(r: seq<Extent>, k: nat)
    requires SortedExtents(r) && k <= |r|
    ensures SortedExtents(r[..k]) && SortedExtents(r[k..])
  {
  }

  lemma InsertCount(r: seq<Extent>, k: nat, x: Extent)
    requires k <= |r|
    ensures multiset(r[..k] + [x] + r[k..]) == multiset(r) + multiset{x}
  {
    assert r == r[..k] + r[k..];
  }

  lemma SortedJoin(a: seq<Extent>, x: Extent, b: seq<Extent>)
    requires SortedExtents(a) && SortedExtents(b)
    requires forall i :: 0 <= i < |a| ==> a[i].start <= x.start
    requires forall j :: 0 <= j < |b| ==> b[j].start > x.start
    ensures SortedExtents(a + [x] + b)
  {
  }

  // ---- The printer ----

  lemma {:induction false} JoinedConcat(a: seq<Bytes>, b: seq<Bytes>)
    ensures Joined(a + b) == Joined(a) + Joined(b)
    decreases |a|
  {
    if |a| == 0 {
      assert a + b == b;
    } else {
      assert (a + b)[1..] == a[1..] + b;
      JoinedConcat(a[1..], b);
    }
  }

  lemma JoinedUpTo(strings: seq<Bytes>, i: nat)
    requires i < |strings|
    ensures Joined(strings[..i + 1]) == Joined(strings[..i]) + strings[i]
    ensures |Joined(strings[..i + 1])| <= |Joined(strings)|
    ensures Joined(strings[..0]) == []
  {
    assert strings[..i + 1] == strings[..i] + [strings[i]];
    JoinedConcat(strings[..i], [strings[i]]);
    assert [strings[i]][1..] == [];
    assert strings == strings[..i + 1] + strings[i + 1..];
    JoinedConcat(strings[..i + 1], strings[i + 1..]);
  }

  lemma EntryParts(e: DumpEntry)
    ensures EncodeEntry(e) == Words(Lengths(e.strings) + [|e.extents|]) + Joined(e.strings) + EncodeExtents(e.extents)
    ensures Joined(e.strings[..0]) == [] && (|e.extents| == 0 ==> EncodeExtents(e.extents) == [])
  {
  }

  /** One entry: its lengths, every string that is not empty, its extents. */
  method PrintEntry(buffer: array<byte>, offset: nat, e: DumpEntry) returns (end: nat)
    requires offset + |EncodeEntry(e)| <= buffer.Length
    modifies buffer
    ensures end == offset + |EncodeEntry(e)| && buffer[..] == Overlay(old(buffer[..]), offset, EncodeEntry(e))
  {
    hide Words, EncodeExtents, Overlay, Joined, EncodeEntry;
    ghost var start := buffer[..];
    var head, tail := Words(Lengths(e.strings) + [|e.extents|]), EncodeExtents(e.extents);
    EntryParts(e);
    CopyInto(buffer, offset, head);
    assert head + [] == head;
    end := offset + |head|;
    for i := 0 to |e.strings|
      invariant |start| == buffer.Length && |Joined(e.strings[..i])| <= |Joined(e.strings)|
      invariant end == offset + |head| + |Joined(e.strings[..i])|
      invariant buffer[..] == Overlay(start, offset, head + Joined(e.strings[..i]))
    {
      JoinedUpTo(e.strings, i);
      assert head + Joined(e.strings[..i + 1]) == head + Joined(e.strings[..i]) + e.strings[i];
      if |e.strings[i]| > 0 {
        OverlayTwice(start, offset, head + Joined(e.strings[..i]), e.strings[i]);
        CopyInto(buffer, end, e.strings[i]);
      } else {
        assert Joined(e.strings[..i + 1]) == Joined(e.strings[..i]);
      }
      end := end + |e.strings[i]|;
    }
    assert e.strings[..|e.strings|] == e.strings;
    if |e.extents| > 0 {
      OverlayTwice(start, offset, head + Joined(e.strings), tail);
      CopyInto(buffer, end, tail);
    } else {
      assert head + Joined(e.strings) + tail == head + Joined(e.strings);
    }
    end := end + |tail|;
  }

  lemma {:induction false} LengthsSum(strings: seq<Bytes>, i: nat)
    requires i < |strings|
    ensures |Joined(strings[..i + 1])| == |Joined(strings[..i])| + Lengths(strings)[i]
  {
    JoinedUpTo(strings, i);
    LengthsAre(strings, i);
  }

  /** The size the printers compute for an entry before they copy it. */
  method EntrySize(e: DumpEntry) returns (size: nat)
    requires |e.strings| == STRINGS
    ensures size == |EncodeEntry(e)|
  {
    hide Joined, EncodeExtents, Words, Lengths;
    EntryParts(e);
    LengthCount(e.strings);
    WordBytes(Lengths(e.strings) + [|e.extents|]);
    ExtentBytes(e.extents);
    size := DUMP_ENTRY_SIZE;
    for i := 0 to STRINGS
      invariant size == DUMP_ENTRY_SIZE + |Joined(e.strings[..i])|
    {
      LengthsSum(e.strings, i);
      size := size + Lengths(e.strings)[i];
    }
    assert e.strings[..STRINGS] == e.strings;
    size := size + EXTENT_SIZE * |e.extents|;
  }

  lemma {:induction false} PrefixSize(entries: seq<DumpEntry>, i: nat)
    requires i <= |entries|
    ensures |EncodeEntries(entries[..i])| <= |EncodeEntries(entries)|
    ensures i < |entries| ==> EncodeEntries(entries[..i + 1]) == EncodeEntries(entries[..i]) + EncodeEntry(entries[i])
    decreases |entries| - i
  {
    hide EncodeEntry;
    if i < |entries| {
      assert entries[..i + 1] == entries[..i] + [entries[i]];
      EncodePush(entries[..i], entries[i]);
      PrefixSize(entries, i + 1);
    } else {
      assert entries[..i] == entries;
    }
  }

  /** Every entry, as long as the block has room: false when it has not. */
  method PrintEntries(buffer: array<byte>, entries: seq<DumpEntry>, length: nat) returns (ok: bool)
    requires length <= buffer.Length && forall i :: 0 <= i < |entries| ==> |entries[i].strings| == STRINGS
    requires DUMP_HEADER_SIZE <= length
    modifies buffer
    ensures ok <==> DUMP_HEADER_SIZE + |EncodeEntries(entries)| <= length
    ensures ok ==> buffer[..] == Overlay(old(buffer[..]), DUMP_HEADER_SIZE, EncodeEntries(entries))
  {
    hide EncodeEntry, EncodeEntries, Overlay;
    ghost var start := buffer[..];
    EncodeNone();
    assert entries[..0] == [];
    NothingPrinted(start);
    var offset := DUMP_HEADER_SIZE;
    for i := 0 to |entries|
      invariant |start| == buffer.Length && offset == DUMP_HEADER_SIZE + |EncodeEntries(entries[..i])| <= length
      invariant buffer[..] == Overlay(start, DUMP_HEADER_SIZE, EncodeEntries(entries[..i]))
    {
      PrefixSize(entries, i);
      PrefixSize(entries, i + 1);
      var size := EntrySize(entries[i]);
      if offset + size > length {
        return false;
      }
      OverlayTwice(start, DUMP_HEADER_SIZE, EncodeEntries(entries[..i]), EncodeEntry(entries[i]));
      offset := PrintEntry(buffer, offset, entries[i]);
    }
    assert entries[..|entries|] == entries;
    ok := true;
  }

  lemma NothingPrinted(s: Bytes)
    requires DUMP_HEADER_SIZE <= |s|
    ensures Overlay(s, DUMP_HEADER_SIZE, []) == s
  {
  }

  /** The block of some entries: a header whose length and checksum describe what follows. */
  function Block(crc: Crc64, entries: seq<DumpEntry>): Bytes {
    var payload := EncodeEntries(entries);
    EncodeDumpHeader(DumpHeader(DUMP_BLOCK, |entries|, |payload|, crc(payload))) + payload
  }

  /** A block the parser accepts: the right identifier, length and checksum, and exactly the declared
      number of entries up to its end. */
  ghost predicate Accepted(data: Bytes, crc: Crc64) {
    && DUMP_HEADER_SIZE <= |data|
    && var h := DecodeDumpHeader(data[..DUMP_HEADER_SIZE]);
       && h.identifier == DUMP_BLOCK && |data| == DUMP_HEADER_SIZE + h.length
       && h.crc64 == crc(data[DUMP_HEADER_SIZE..])
       && var raw := ReadEntries(data, DUMP_HEADER_SIZE, h.entries);
          raw.Some? && DUMP_HEADER_SIZE + |EncodeEntries(raw.value)| == |data|
  }

  /** The entries of an accepted block, as they are in it. */
  ghost function RawEntries(data: Bytes): seq<DumpEntry>
    requires DUMP_HEADER_SIZE <= |data|
  {
    var raw := ReadEntries(data, DUMP_HEADER_SIZE, DecodeDumpHeader(data[..DUMP_HEADER_SIZE]).entries);
    if raw.Some? then raw.value else []
  }

  ghost predicate AllFit(entries: seq<DumpEntry>) {
    forall i :: 0 <= i < |entries| ==> EntryFits(entries[i])
  }

  lemma AllCanonicalFit(raws: seq<DumpEntry>, entries: seq<DumpEntry>)
    requires AllCanonical(raws, entries) && AllFit(raws)
    ensures AllFit(entries)
  {
    hide EntryFits, Canonical, EncodeEntry;
    forall i | 0 <= i < |entries|
      ensures EntryFits(entries[i])
    {
      CanonicalKeepsSize(raws[i], entries[i]);
    }
  }

  /** Terminate the strings and sort the extents of one entry. */
  method Canonicalize(raw: DumpEntry) returns (e: DumpEntry)
    ensures Canonical(raw, e)
  {
    hide SortedExtents;
    var strings: seq<Bytes> := [];
    for i := 0 to |raw.strings|
      invariant |strings| == i && forall j :: 0 <= j < i ==> strings[j] == Terminated(raw.strings[j])
    {
      strings := strings + [Terminated(raw.strings[i])];
    }
    var extents := SortExtents(raw.extents);
    e := DumpEntry(strings, extents);
  }

  class DumpContext {
    const crc: Crc64
    const isWriting: bool
    var header: DumpHeader
    var entries: seq<DumpEntry>     // empty when there is none
    var dirty: bool

    ghost predicate Valid()
      reads this
    {
      && header.entries == |entries| < 0x1_0000 && AllFit(entries)
      && (|entries| > 0 ==>
            header.identifier == DUMP_BLOCK && header.length == |EncodeEntries(entries)| < 0x1_0000_0000)
    }

    constructor (crc: Crc64, isWriting: bool)
      ensures Valid() && entries == [] && !dirty && this.crc == crc && this.isWriting == isWriting
    {
      this.crc := crc;
      this.isWriting := isWriting;
      header := DumpHeader(0, 0, 0, 0);
      entries := [];
      dirty := false;
    }

    /** `aaruf_set_dumphw`. */
    method SetDumpHardware(data: Bytes) returns (status: Status)
      requires Valid()
      modifies this
      ensures Valid()
      ensures status == Ok <==> isWriting && Accepted(data, crc)
      ensures status == Ok ==>
                && dirty && header == DecodeDumpHeader(data[..DUMP_HEADER_SIZE])
                && AllCanonical(RawEntries(data), entries) && TerminatedCopies(RawEntries(data), entries)
      ensures status != Ok ==> header == old(header) && entries == old(entries) && dirty == old(dirty)
      ensures !isWriting ==> status == ReadOnly
      ensures isWriting && |data| < DUMP_HEADER_SIZE ==> status == IncorrectSize
    {
      hide ReadEntries, AllFit, AllCanonical, EncodeEntries, DecodeDumpHeader, TerminatedCopies;
      if !isWriting {
        return ReadOnly;
      }
      if |data| < DUMP_HEADER_SIZE {
        return IncorrectSize;
      }
      var h := DecodeDumpHeader(data[..DUMP_HEADER_SIZE]);
      if h.identifier != DUMP_BLOCK {
        return CannotRead;
      }
      if |data| != DUMP_HEADER_SIZE + h.length {
        return IncorrectSize;
      }
      if h.crc64 != crc(data[DUMP_HEADER_SIZE..]) {
        return InvalidCrc;
      }
      HeaderRanges(data[..DUMP_HEADER_SIZE]);
      var parsed := ParseEntries(data, h.entries);
      if parsed.None? {
        return IncorrectSize;
      }
      Prepared(data, h.entries, parsed.value);
      CanonicalMeans(RawEntries(data), parsed.value);
      header := h;
      entries := parsed.value;
      dirty := true;
      status := Ok;
    }

    /** `aaruf_get_dumphw`: the block that describes the entries, its checksum recomputed. */
    method GetDumpHardware(buffer: array?<byte>) returns (status: Status, length: nat)
      requires Valid()
      modifies this`header
      modifies if buffer == null then {} else {buffer}
      ensures Valid() && entries == old(entries)
      ensures entries == [] ==> status == CannotRead && header == old(header)
      ensures entries != [] ==> length == |Block(crc, entries)|
      ensures entries != [] ==> (status == Ok <==> buffer != null && length <= buffer.Length)
      ensures entries != [] && status != Ok ==> status == BufferTooSmall && header == old(header)
      ensures entries != [] && status == Ok ==>
                && buffer[..length] == Block(crc, entries) && buffer[length..] == old(buffer[length..])
                && header == old(header).(crc64 := crc(EncodeEntries(entries)))
    {
      hide EncodeEntries, AllFit, EncodeDumpHeader, Overlay;
      BlockSize(crc, entries);
      if |entries| == 0 || header.identifier != DUMP_BLOCK {
        return CannotRead, 0;
      }
      length := DUMP_HEADER_SIZE + header.length;
      if buffer == null || buffer.Length < length {
        return BufferTooSmall, length;
      }
      FieldCount(entries);
      ghost var start := buffer[..];
      var room := PrintEntries(buffer, entries, length);
      Printed(start, buffer[..], EncodeEntries(entries), length);
      header := header.(crc64 := crc(buffer[DUMP_HEADER_SIZE..length]));
      CopyInto(buffer, 0, EncodeDumpHeader(header));
      HeaderPrinted(start, buffer[..], EncodeDumpHeader(header), EncodeEntries(entries), length);
      status := Ok;
    }

    /** The printer of the closing writer, on a buffer of its own. */
    method WriteDumpHardware() returns (block: Option<Bytes>)
      requires Valid()
      modifies this`header
      ensures Valid() && entries == old(entries)
      ensures block == if entries == [] then None else Some(Block(crc, entries))
    {
      hide EncodeEntries, AllFit, EncodeDumpHeader, Overlay;
      BlockSize(crc, entries);
      if |entries| == 0 || header.identifier != DUMP_BLOCK {
        return None;
      }
      var length := DUMP_HEADER_SIZE + header.length;
      var buffer := new byte[length](_ => 0);
      FieldCount(entries);
      ghost var start := buffer[..];
      var room := PrintEntries(buffer, entries, length);
      Printed(start, buffer[..], EncodeEntries(entries), length);
      header := header.(crc64 := crc(buffer[DUMP_HEADER_SIZE..length]));
      CopyInto(buffer, 0, EncodeDumpHeader(header));
      HeaderPrinted(start, buffer[..], EncodeDumpHeader(header), EncodeEntries(entries), length);
      block := Some(buffer[..]);
    }
  }

  lemma BlockSize(crc: Crc64, entries: seq<DumpEntry>)
    ensures |Block(crc, entries)| == DUMP_HEADER_SIZE + |EncodeEntries(entries)|
    ensures forall h :: |EncodeDumpHeader(h)| == DUMP_HEADER_SIZE
  {
    hide EncodeEntries;
  }

  lemma FieldCount(entries: seq<DumpEntry>)
    requires AllFit(entries)
    ensures forall i :: 0 <= i < |entries| ==> |entries[i].strings| == STRINGS
  {
    forall i | 0 <= i < |entries|
      ensures |entries[i].strings| == STRINGS
    {
      assert EntryFits(entries[i]);
    }
  }

  lemma Printed(start: Bytes, s: Bytes, payload: Bytes, length: nat)
    requires DUMP_HEADER_SIZE + |payload| == length <= |start| && s == Overlay(start, DUMP_HEADER_SIZE, payload)
    ensures |s| == |start| && s[DUMP_HEADER_SIZE..length] == payload && s[length..] == start[length..]
  {
  }

  lemma HeaderPrinted(start: Bytes, s: Bytes, head: Bytes, payload: Bytes, length: nat)
    requires |head| == DUMP_HEADER_SIZE && DUMP_HEADER_SIZE + |payload| == length <= |start|
    requires s == Overlay(Overlay(start, DUMP_HEADER_SIZE, payload), 0, head)
    ensures s[..length] == head + payload && s[length..] == start[length..]
    ensures |start| == length ==> s == head + payload
  {
  }

  // ---- Round trips ----

  /** The block of canonical entries is accepted, and holds exactly those entries. */
  lemma BlockIsAccepted(crc: Crc64, entries: seq<DumpEntry>)
    requires |entries| < 0x1_0000 && AllFit(entries) && |EncodeEntries(entries)| < 0x1_0000_0000
    ensures Accepted(Block(crc, entries), crc) && RawEntries(Block(crc, entries)) == entries
  {
    hide EncodeEntries, EntryFits, EncodeDumpHeader, DecodeDumpHeader, ReadEntries;
    var payload := EncodeEntries(entries);
    var h := DumpHeader(DUMP_BLOCK, |entries|, |payload|, crc(payload));
    var data := Block(crc, entries);
    BlockSize(crc, entries);
    HeaderReadsBack(h);
    assert data[..DUMP_HEADER_SIZE] == EncodeDumpHeader(h);
    assert data[DUMP_HEADER_SIZE..] == payload;
    assert data[DUMP_HEADER_SIZE..DUMP_HEADER_SIZE + |payload|] == payload;
    EntriesReadBack(data, DUMP_HEADER_SIZE, entries);
  }

  /** Setting a block, getting it back and setting that again: the second block is the first one
      canonicalized, and the third state is the second one up to the order of ties. */
  method SetGetSet(c: DumpContext, data: Bytes) returns (first: seq<DumpEntry>, block: Bytes, again: Status)
    requires c.Valid() && c.isWriting && Accepted(data, c.crc) && |RawEntries(data)| > 0
    modifies c
    ensures c.Valid() && TerminatedCopies(RawEntries(data), first) && again == Ok
    ensures block == Block(c.crc, first) && |block| == |data|
    ensures |c.entries| == |first| && forall i :: 0 <= i < |first| ==> SameUpToTies(first[i], c.entries[i])
  {
    hide Accepted, RawEntries, AllFit, EncodeEntries, Canonical, Block, SameUpToTies, TerminatedCopies;
    AcceptedSize(data, c.crc);
    var status := c.SetDumpHardware(data);
    first := c.entries;
    CanonicalKeepsSizes(RawEntries(data), first);
    BlockSize(c.crc, first);
    var buffer := new byte[DUMP_HEADER_SIZE + c.header.length](_ => 0);
    var got, length := c.GetDumpHardware(buffer);
    assert buffer[..length] == buffer[..];
    block := buffer[..];
    BlockIsAccepted(c.crc, first);
    again := c.SetDumpHardware(block);
    forall i | 0 <= i < |first|
      ensures SameUpToTies(first[i], c.entries[i])
    {
      CanonicalTwice(RawEntries(data)[i], first[i], c.entries[i]);
    }
  }

  lemma AcceptedSize(data: Bytes, crc: Crc64)
    requires Accepted(data, crc)
    ensures |data| == DUMP_HEADER_SIZE + |EncodeEntries(RawEntries(data))|
  {
    hide EncodeEntries, ReadEntries, DecodeDumpHeader;
  }

  /** The loop of the parser: every entry is read, terminated and sorted in turn. */
  method ParseEntries(data: Bytes, count: nat) returns (r: Option<seq<DumpEntry>>)
    requires DUMP_HEADER_SIZE <= |data|
    ensures var entries := ReadEntries(data, DUMP_HEADER_SIZE, count);
            r.Some? <==> entries.Some? && DUMP_HEADER_SIZE + |EncodeEntries(entries.value)| == |data|
    ensures r.Some? ==> AllCanonical(ReadEntries(data, DUMP_HEADER_SIZE, count).value, r.value)
    ensures r.Some? ==> TerminatedCopies(ReadEntries(data, DUMP_HEADER_SIZE, count).value, r.value)
  {
    hide EncodeEntry, ReadEntry, Canonical, EncodeEntries, TerminatedCopies;
    var pos := DUMP_HEADER_SIZE;
    var entries: seq<DumpEntry> := [];
    ghost var raws: seq<DumpEntry> := [];
    EncodeNone();
    for e := 0 to count
      invariant ReadEntries(data, DUMP_HEADER_SIZE, e) == Some(raws)
      invariant pos == DUMP_HEADER_SIZE + |EncodeEntries(raws)| <= |data|
      invariant AllCanonical(raws, entries)
    {
      var raw := ReadEntry(data, pos);
      if raw.None? {
        EntriesStop(data, DUMP_HEADER_SIZE, e + 1, count);
        return None;
      }
      EntryBackSize(data, pos);
      EncodePush(raws, raw.value);
      var entry := Canonicalize(raw.value);
      pos := pos + |EncodeEntry(raw.value)|;
      raws := raws + [raw.value];
      entries := entries + [entry];
    }
    if pos != |data| {
      return None;
    }
    CanonicalMeans(raws, entries);
    r := Some(entries);
  }

  lemma EntryBackSize(data: Bytes, pos: nat)
    requires pos <= |data| && ReadEntry(data, pos).Some?
    ensures pos + |EncodeEntry(ReadEntry(data, pos).value)| <= |data|
  {
    hide ReadEntry, EncodeEntry;
    EntryBack(data, pos);
  }

  lemma HeaderRanges(b: Bytes)
    requires |b| == DUMP_HEADER_SIZE
    ensures var h := DecodeDumpHeader(b);
            && h.identifier < 0x1_0000_0000 && h.entries < 0x1_0000 && h.length < 0x1_0000_0000
            && h.crc64 < 0x1_0000_0000_0000_0000
  {
    hide Number, Pow256, Width;
    HeaderWidth();
    Powers();
    UnpackRanges(DUMP_HEADER_LAYOUT, b);
  }

  lemma {:induction false} UnpackRanges(layout: seq<nat>, b: Bytes)
    requires Width(layout) == |b|
    ensures Fits(layout, Unpack(layout, b))
  {
    hide Number, Pow256;
    if |layout| > 0 {
      NumberBack(b[..layout[0]]);
      UnpackRanges(layout[1..], b[layout[0]..]);
      var f := Unpack(layout, b);
      assert forall i :: 1 <= i < |layout| ==> f[i] == f[1..][i - 1] && layout[i] == layout[1..][i - 1];
    }
  }

  lemma Prepared(data: Bytes, count: nat, entries: seq<DumpEntry>)
    requires DUMP_HEADER_SIZE <= |data| && ReadEntries(data, DUMP_HEADER_SIZE, count).Some?
    requires AllCanonical(ReadEntries(data, DUMP_HEADER_SIZE, count).value, entries)
    ensures |entries| == count && AllFit(entries)
    ensures |EncodeEntries(entries)| == |EncodeEntries(ReadEntries(data, DUMP_HEADER_SIZE, count).value)|
  {
    hide EncodeEntries, ReadEntries, Canonical, EntryFits;
    ReadCount(data, count);
    EntriesBack(data, DUMP_HEADER_SIZE, count);
    var raws := ReadEntries(data, DUMP_HEADER_SIZE, count).value;
    AllCanonicalFit(raws, entries);
    CanonicalKeepsSizes(raws, entries);
  }

  lemma ReadCount(data: Bytes, count: nat)
    requires ReadEntries(data, DUMP_HEADER_SIZE, count).Some?
    ensures |ReadEntries(data, DUMP_HEADER_SIZE, count).value| == count
  {
  }
}
