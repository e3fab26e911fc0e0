/** Loading the erasure-coding map: the parser of `ec_load_ecmb` in src/erasure.c, which walks the
    serialized stripe groups and fills the tables and lookups used for recovery.
 */
module ErasureMap {
  import opened Wrappers
  import opened Octet
  import opened ImageFile
  import opened ErasureFormat

  const GROUP_DATA: nat := 0
  const GROUP_DDT_SECONDARY: nat := 1
  const GROUP_DDT_PRIMARY: nat := 2
  const GROUP_METADATA: nat := 3
  const GROUP_INDEX: nat := 4
  const MAP_SIZE_LIMIT: nat := 256 * 1024 * 1024

  /** A stripe as parsed: `entries` stays missing when the map ended inside the stripe. */
  datatype ReadStripe = ReadStripe(actualK: nat, entries: Option<seq<DataEntry>>, parity: seq<nat>)

  /** The stripe and the position in it of a protected block. */
  datatype Position = Position(stripe: nat, position: nat)

  /** Everything known about one protection group. */
  datatype GroupTable = GroupTable(k: nat, m: nat, shardSize: nat, stripes: seq<ReadStripe>,
                                   lookup: map<nat, Position>)

  datatype Tables = Tables(data: GroupTable, ddt: GroupTable, meta: GroupTable)

  const NO_TABLE := GroupTable(0, 0, 0, [], map[])
  const NO_TABLES := Tables(NO_TABLE, NO_TABLE, NO_TABLE)
  const UNREAD_STRIPE := ReadStripe(0, None, [])

  // ---- What the parser computes, for any payload ----

  function DecodeEntries(p: Bytes, pos: nat, count: nat): (r: seq<DataEntry>)
    requires pos + count * DATA_ENTRY_SIZE <= |p|
    ensures |r| == count
    ensures forall i :: 0 <= i < count ==>
              r[i] == DecodeDataEntry(p[pos + i * DATA_ENTRY_SIZE..pos + i * DATA_ENTRY_SIZE + DATA_ENTRY_SIZE])
  {
    seq(count, i requires 0 <= i < count =>
      DecodeDataEntry(p[pos + i * DATA_ENTRY_SIZE..pos + i * DATA_ENTRY_SIZE + DATA_ENTRY_SIZE]))
  }

  function DecodeOffsets(p: Bytes, pos: nat, count: nat): (r: seq<nat>)
    requires pos + count * 8 <= |p|
    ensures |r| == count
  {
    seq(count, i requires 0 <= i < count => Number(p[pos + i * 8..pos + i * 8 + 8]))
  }

  /** One stripe at `pos`: what was read, where reading stopped, and whether it was complete. */
  function ParseStripe(p: Bytes, pos: nat, m: nat): (r: (ReadStripe, nat, bool))
    requires pos <= |p|
    ensures pos <= r.1 <= |p|
  {
    if |p| - pos < 2 then (UNREAD_STRIPE, pos, false) else
      var ak := Number(p[pos..pos + 2]);
      if |p| - (pos + 2) < ak * DATA_ENTRY_SIZE + m * 8 then (ReadStripe(ak, None, []), pos + 2, false) else
        var offsets := pos + 2 + ak * DATA_ENTRY_SIZE;
        (ReadStripe(ak, Some(DecodeEntries(p, pos + 2, ak)), DecodeOffsets(p, offsets, m)), offsets + m * 8, true)
  }

  /** `count` stripes from `pos`; after an incomplete one the rest stay unread. */
  function ParseStripes(p: Bytes, pos: nat, count: nat, m: nat): (r: (seq<ReadStripe>, nat))
    requires pos <= |p|
    ensures |r.0| == count && pos <= r.1 <= |p|
    decreases count
  {
    if count == 0 then ([], pos) else
      var (stripe, next, complete) := ParseStripe(p, pos, m);
      if !complete then ([stripe] + seq(count - 1, _ => UNREAD_STRIPE), next) else
        var (rest, end) := ParseStripes(p, next, count - 1, m);
        ([stripe] + rest, end)
  }

  /** Add the first `n` blocks of stripe number `s`. */
  function AddEntries(lookup: map<nat, Position>, entries: seq<DataEntry>, s: nat, n: nat): map<nat, Position>
    requires n <= |entries|
  {
    if n == 0 then lookup else
      AddEntries(lookup, entries, s, n - 1)[entries[n - 1].offset := Position(s, n - 1)]
  }

  /** Add the blocks of the first `n` stripes. */
  function AddStripes(lookup: map<nat, Position>, stripes: seq<ReadStripe>, n: nat): map<nat, Position>
    requires n <= |stripes|
  {
    if n == 0 then lookup else
      var before := AddStripes(lookup, stripes, n - 1);
      match stripes[n - 1].entries
      case None => before
      case Some(entries) => AddEntries(before, entries, n - 1, |entries|)
  }

  function Fill(old_: GroupTable, g: GroupDescriptor, stripes: seq<ReadStripe>): GroupTable {
    GroupTable(g.k, g.m, g.shardSize, stripes, AddStripes(old_.lookup, stripes, |stripes|))
  }

  /** Store a parsed group by its type; the primary-table and index groups are dropped. */
  function Install(t: Tables, g: GroupDescriptor, stripes: seq<ReadStripe>): Tables {
    if g.groupType == GROUP_DATA then t.(data := Fill(t.data, g, stripes))
    else if g.groupType == GROUP_DDT_SECONDARY then t.(ddt := Fill(t.ddt, g, stripes))
    else if g.groupType == GROUP_METADATA then t.(meta := Fill(t.meta, g, stripes))
    else t
  }

  function ParseGroups(p: Bytes, pos: nat, count: nat, t: Tables): (r: (Tables, nat))
    requires pos <= |p|
    ensures pos <= r.1 <= |p|
    decreases count
  {
    if count == 0 || |p| - pos < GROUP_SIZE then (t, pos) else
      var g := DecodeGroupDescriptor(p[pos..pos + GROUP_SIZE]);
      var (stripes, next) := ParseStripes(p, pos + GROUP_SIZE, g.stripeCount, g.m);
      ParseGroups(p, next, count - 1, Install(t, g, stripes))
  }

  // ---- The parser ----

  method ParseStripesLoop(p: Bytes, start: nat, count: nat, m: nat) returns (stripes: seq<ReadStripe>, pos: nat)
    requires start <= |p|
    ensures (stripes, pos) == ParseStripes(p, start, count, m)
  {
    hide ParseStripe;
    stripes := [];
    pos := start;
    var s := 0;
    while s < count
      invariant s <= count && |stripes| == s && pos <= |p|
      invariant ParseStripes(p, start, count, m).0 == stripes + ParseStripes(p, pos, count - s, m).0
      invariant ParseStripes(p, start, count, m).1 == ParseStripes(p, pos, count - s, m).1
    {
      var (stripe, next, complete) := ParseStripe(p, pos, m);
      assert ParseStripes(p, pos, count - s, m)
             == if complete then ([stripe] + ParseStripes(p, next, count - s - 1, m).0,
                                  ParseStripes(p, next, count - s - 1, m).1)
                else ([stripe] + seq(count - s - 1, _ => UNREAD_STRIPE), next);
      if !complete {
        stripes := stripes + ([stripe] + seq(count - s - 1, _ => UNREAD_STRIPE));
        pos := next;
        return;
      }
      ghost var after := ParseStripes(p, next, count - s - 1, m);
      assert stripes + ([stripe] + after.0) == (stripes + [stripe]) + after.0;
      stripes := stripes + [stripe];
      pos := next;
      s := s + 1;
    }
    assert stripes + [] == stripes;
  }

  method FillLookup(start: map<nat, Position>, stripes: seq<ReadStripe>) returns (lookup: map<nat, Position>)
    ensures lookup == AddStripes(start, stripes, |stripes|)
  {
    lookup := start;
    for s := 0 to |stripes|
      invariant lookup == AddStripes(start, stripes, s)
    {
      if stripes[s].entries.Some? {
        var entries := stripes[s].entries.value;
        ghost var before := lookup;
        for k := 0 to |entries|
          invariant lookup == AddEntries(before, entries, s, k)
        {
          lookup := lookup[entries[k].offset := Position(s, k)];
        }
      }
    }
  }

  method InstallGroup(t: Tables, g: GroupDescriptor, stripes: seq<ReadStripe>) returns (r: Tables)
    ensures r == Install(t, g, stripes)
  {
    r := t;
    if g.groupType == GROUP_DATA {
      var lookup := FillLookup(t.data.lookup, stripes);
      r := t.(data := GroupTable(g.k, g.m, g.shardSize, stripes, lookup));
    } else if g.groupType == GROUP_DDT_SECONDARY {
      var lookup := FillLookup(t.ddt.lookup, stripes);
      r := t.(ddt := GroupTable(g.k, g.m, g.shardSize, stripes, lookup));
    } else if g.groupType == GROUP_METADATA {
      var lookup := FillLookup(t.meta.lookup, stripes);
      r := t.(meta := GroupTable(g.k, g.m, g.shardSize, stripes, lookup));
    }
  }

  /** Walk the payload group by group, with the bytes left as termination measure. */
  method ParseMap(p: Bytes, count: nat, start: Tables) returns (t: Tables, pos: nat)
    ensures (t, pos) == ParseGroups(p, 0, count, start)
  {
    hide ParseStripes, AddStripes, DecodeGroupDescriptor, Install;
    t := start;
    pos := 0;
    var g := 0;
    while g < count && |p| - pos >= GROUP_SIZE
      invariant g <= count && pos <= |p|
      invariant ParseGroups(p, 0, count, start) == ParseGroups(p, pos, count - g, t)
      decreases |p| - pos
    {
      var desc := DecodeGroupDescriptor(p[pos..pos + GROUP_SIZE]);
      var stripes, next := ParseStripesLoop(p, pos + GROUP_SIZE, desc.stripeCount, desc.m);
      assert ParseGroups(p, pos, count - g, t) == ParseGroups(p, next, count - g - 1, Install(t, desc, stripes));
      t := InstallGroup(t, desc, stripes);
      pos := next;
      g := g + 1;
    }
  }

  // ---- Reading back what was written ----

  /** The stripe as the parser represents it. */
  function AsRead(s: Stripe): ReadStripe {
    ReadStripe(|s.entries|, Some(s.entries), s.parity)
  }

  function AllAsRead(stripes: seq<Stripe>): (r: seq<ReadStripe>)
    ensures |r| == |stripes| && forall i :: 0 <= i < |r| ==> r[i] == AsRead(stripes[i])
  {
    seq(|stripes|, i requires 0 <= i < |stripes| => AsRead(stripes[i]))
  }

  lemma SubHolds(p: Bytes, pos: nat, whole: Bytes, i: nat, part: Bytes)
    requires Holds(p, pos, whole) && i + |part| <= |whole| && whole[i..i + |part|] == part
    ensures Holds(p, pos + i, part)
  {
    forall j | 0 <= j < |part|
      ensures p[pos + i..pos + i + |part|][j] == part[j]
    {
      assert p[pos..pos + |whole|][i + j] == whole[i..i + |part|][j];
    }
  }

  lemma HoldsPrefix(p: Bytes, pos: nat, part: Bytes, whole: Bytes)
    requires Holds(p, pos, whole) && part <= whole
    ensures Holds(p, pos, part)
  {
    assert whole[..|part|] == part;
    SubHolds(p, pos, whole, 0, part);
  }

  lemma {:induction false} EntryHolds(entries: seq<DataEntry>, p: Bytes, pos: nat, i: nat)
    requires Holds(p, pos, EncodeEntries(entries)) && i < |entries|
    ensures Holds(p, pos + i * DATA_ENTRY_SIZE, entries[i].Encoded())
    decreases |entries|
  {
    hide Holds, DataEntry.Encoded;
    var n := |entries| - 1;
    HoldsSplit(p, pos, EncodeEntries(entries[..n]), entries[n].Encoded());
    if i < n {
      EntryHolds(entries[..n], p, pos, i);
    }
  }

  lemma EntryReadBack(entries: seq<DataEntry>, p: Bytes, pos: nat, i: nat)
    requires Holds(p, pos, EncodeEntries(entries)) && i < |entries| && entries[i].Valid()
    ensures pos + i * DATA_ENTRY_SIZE + DATA_ENTRY_SIZE <= |p|
    ensures DecodeDataEntry(p[pos + i * DATA_ENTRY_SIZE..pos + i * DATA_ENTRY_SIZE + DATA_ENTRY_SIZE]) == entries[i]
  {
    hide DecodeDataEntry, EncodeEntries, DataEntry.Encoded, DataEntry.Valid;
    EntryHolds(entries, p, pos, i);
    DataEntryRoundTrip(entries[i]);
  }

  lemma EntriesReadBack(entries: seq<DataEntry>, p: Bytes, pos: nat)
    requires Holds(p, pos, EncodeEntries(entries))
    requires forall i :: 0 <= i < |entries| ==> entries[i].Valid()
    ensures DecodeEntries(p, pos, |entries|) == entries
  {
    hide DecodeDataEntry, EncodeEntries, DataEntry.Encoded, DataEntry.Valid, DecodeEntries;
    var decoded := DecodeEntries(p, pos, |entries|);
    forall i | 0 <= i < |entries|
      ensures decoded[i] == entries[i]
    {
      EntryReadBack(entries, p, pos, i);
    }
  }

  lemma {:induction false} OffsetsReadBack(offsets: seq<nat>, p: Bytes, pos: nat)
    requires Holds(p, pos, EncodeOffsets(offsets))
    requires forall i :: 0 <= i < |offsets| ==> offsets[i] < 0x1_0000_0000_0000_0000
    ensures DecodeOffsets(p, pos, |offsets|) == offsets
  {
    hide LittleEndian, Number;
    if |offsets| > 0 {
      var n := |offsets| - 1;
      var head, last := EncodeOffsets(offsets[..n]), LittleEndian(offsets[n], 8);
      HoldsSplit(p, pos, head, last);
      OffsetsReadBack(offsets[..n], p, pos);
      Powers();
      NumberRoundTrip(offsets[n], 8);
      assert DecodeOffsets(p, pos, |offsets|) == DecodeOffsets(p, pos, n) + [offsets[n]];
    }
  }

  lemma StripeReadBack(s: Stripe, p: Bytes, pos: nat, m: nat)
    requires Holds(p, pos, EncodeStripe(s)) && s.Valid(m)
    ensures ParseStripe(p, pos, m) == (AsRead(s), pos + |EncodeStripe(s)|, true)
  {
    hide LittleEndian, Number, EncodeEntries, EncodeOffsets, DecodeEntries, DecodeOffsets;
    var n := |s.entries|;
    var count, entries, offsets := LittleEndian(n, 2), EncodeEntries(s.entries), EncodeOffsets(s.parity);
    HoldsSplit(p, pos, count + entries, offsets);
    HoldsSplit(p, pos, count, entries);
    Powers();
    NumberRoundTrip(n, 2);
    EntriesReadBack(s.entries, p, pos + 2);
    OffsetsReadBack(s.parity, p, pos + 2 + |entries|);
  }

  /** Stripes from number `i` on read back, where they lie in the serialized list. */
  lemma {:induction false} StripesReadBack(stripes: seq<Stripe>, p: Bytes, base: nat, m: nat, i: nat)
    requires i <= |stripes| && Holds(p, base, EncodeStripes(stripes))
    requires forall j :: 0 <= j < |stripes| ==> stripes[j].Valid(m)
    ensures base + |EncodeStripes(stripes[..i])| <= |p|
    ensures var r := ParseStripes(p, base + |EncodeStripes(stripes[..i])|, |stripes| - i, m);
            r.0 == AllAsRead(stripes)[i..] && r.1 == base + |EncodeStripes(stripes)|
    decreases |stripes| - i
  {
    hide ParseStripe, EncodeStripe, EncodeStripes;
    StripesPrefix(stripes, i);
    if i == |stripes| {
      assert stripes[..i] == stripes;
      assert AllAsRead(stripes)[i..] == [];
    } else {
      NextStripe(stripes, i);
      StripesPrefix(stripes, i + 1);
      var before := EncodeStripes(stripes[..i]);
      var whole := EncodeStripes(stripes);
      var one := EncodeStripe(stripes[i]);
      HoldsPrefix(p, base, before + one, whole);
      HoldsSplit(p, base, before, one);
      StripeReadBack(stripes[i], p, base + |before|, m);
      StripesReadBack(stripes, p, base, m, i + 1);
      assert AllAsRead(stripes)[i..] == [AsRead(stripes[i])] + AllAsRead(stripes)[i + 1..];
    }
  }

  /** What loading makes of a list of groups. */
  function Loaded(groups: seq<Group>, n: nat, start: Tables): Tables
    requires n <= |groups|
  {
    if n == 0 then start
    else Install(Loaded(groups, n - 1, start), groups[n - 1].desc, AllAsRead(groups[n - 1].stripes))
  }

  lemma GroupReadBack(g: Group, p: Bytes, pos: nat)
    requires Holds(p, pos, EncodeGroup(g)) && g.Valid()
    ensures pos + GROUP_SIZE <= |p| && DecodeGroupDescriptor(p[pos..pos + GROUP_SIZE]) == g.desc
    ensures ParseStripes(p, pos + GROUP_SIZE, |g.stripes|, g.desc.m)
            == (AllAsRead(g.stripes), pos + |EncodeGroup(g)|)
  {
    hide ParseStripes, EncodeStripes, DecodeGroupDescriptor;
    HoldsSplit(p, pos, g.desc.Encoded(), EncodeStripes(g.stripes));
    GroupRoundTrip(g.desc);
    EmptyStripes(g.stripes);
    StripesReadBack(g.stripes, p, pos + GROUP_SIZE, g.desc.m, 0);
  }

  lemma EmptyStripes(stripes: seq<Stripe>)
    ensures EncodeStripes(stripes[..0]) == [] && AllAsRead(stripes)[0..] == AllAsRead(stripes)
  {
  }

  lemma {:induction false} GroupsReadBack(groups: seq<Group>, i: nat, start: Tables)
    requires i <= |groups| && forall j :: 0 <= j < |groups| ==> groups[j].Valid()
    ensures |EncodeGroups(groups[..i])| <= |EncodeGroups(groups)|
    ensures ParseGroups(EncodeGroups(groups), |EncodeGroups(groups[..i])|, |groups| - i, Loaded(groups, i, start))
            == (Loaded(groups, |groups|, start), |EncodeGroups(groups)|)
    decreases |groups| - i
  {
    hide ParseStripes, EncodeGroup, EncodeGroups, Install, DecodeGroupDescriptor;
    GroupsPrefix(groups, i);
    if i == |groups| {
      assert groups[..i] == groups;
    } else {
      NextGroup(groups, i);
      GroupsPrefix(groups, i + 1);
      var p := EncodeGroups(groups);
      var before, one := EncodeGroups(groups[..i]), EncodeGroup(groups[i]);
      assert p[|before|..|before| + |one|] == (before + one)[|before|..] == one;
      GroupReadBack(groups[i], p, |before|);
      GroupsReadBack(groups, i + 1, start);
    }
  }

  /** The map round trip: loading the serialized groups restores every descriptor, stripe, data entry
      and parity offset, and consumes the payload exactly. */
  lemma MapRoundTrip(groups: seq<Group>, start: Tables)
    requires forall j :: 0 <= j < |groups| ==> groups[j].Valid()
    ensures ParseGroups(EncodeGroups(groups), 0, |groups|, start)
            == (Loaded(groups, |groups|, start), |EncodeGroups(groups)|)
  {
    GroupsReadBack(groups, 0, start);
    assert groups[..0] == [];
  }

  // ---- The lookup ----

  /** Linear search's answer: block `k` of stripe `s` lies at `offset`. */
  ghost predicate BlockAt(stripes: seq<ReadStripe>, s: nat, k: nat, offset: nat) {
    && s < |stripes| && stripes[s].entries.Some? && k < |stripes[s].entries.value|
    && stripes[s].entries.value[k].offset == offset
  }

  ghost predicate DistinctOffsets(stripes: seq<ReadStripe>) {
    forall s, k, s', k', offset {:trigger BlockAt(stripes, s, k, offset), BlockAt(stripes, s', k', offset)} ::
      BlockAt(stripes, s, k, offset) && BlockAt(stripes, s', k', offset) ==> s == s' && k == k'
  }

  lemma {:induction false} EntriesLookup(start: map<nat, Position>, entries: seq<DataEntry>, s: nat, n: nat,
                                         offset: nat)
    requires n <= |entries|
    ensures var r := AddEntries(start, entries, s, n);
            if exists k: nat :: k < n && entries[k].offset == offset
            then offset in r && r[offset].stripe == s && r[offset].position < n
                 && entries[r[offset].position].offset == offset
            else (offset in r <==> offset in start) && (offset in start ==> r[offset] == start[offset])
  {
    if n > 0 {
      EntriesLookup(start, entries, s, n - 1, offset);
    }
  }

  /** After the first `n` stripes, an offset is present exactly when one of their blocks has it, and
      then it leads to such a block. */
  lemma {:induction false} StripesLookup(stripes: seq<ReadStripe>, n: nat, offset: nat)
    requires n <= |stripes|
    ensures var r := AddStripes(map[], stripes, n);
            && (offset in r ==> r[offset].stripe < n && BlockAt(stripes, r[offset].stripe, r[offset].position, offset))
            && (forall s: nat, k: nat :: s < n && BlockAt(stripes, s, k, offset) ==> offset in r)
  {
    if n > 0 {
      StripesLookup(stripes, n - 1, offset);
      match stripes[n - 1].entries {
        case None =>
        case Some(entries) =>
          EntriesLookup(AddStripes(map[], stripes, n - 1), entries, n - 1, |entries|, offset);
      }
    }
  }

  /** With distinct offsets the lookup agrees with a linear search. */
  lemma LookupIsLinearSearch(stripes: seq<ReadStripe>, s: nat, k: nat, offset: nat)
    requires DistinctOffsets(stripes)
    ensures var r := AddStripes(map[], stripes, |stripes|);
            BlockAt(stripes, s, k, offset) <==> offset in r && r[offset] == Position(s, k)
  {
    StripesLookup(stripes, |stripes|, offset);
  }
}
