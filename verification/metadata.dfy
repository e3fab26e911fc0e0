/** The metadata strings (src/metadata_write.c): twelve fields that are set and cleared one by one, and
    the block that packs them when the image is closed (src/close_write.c).
 */
module Metadata {
  import opened Wrappers
  import opened Octet
  import opened ImageFile

  const METADATA_BLOCK: nat := 0x4154454D
  const METADATA_HEADER_SIZE: nat := 112
  const FIELDS: nat := 12

  /** The one setter that marks the block as changed. */
  const TITLE: nat := 2

  datatype Status = Ok | ReadOnly

  /** The block as the context keeps it.  A field that was set to nothing still has its buffer. */
  datatype State = State(present: bool, sequence: int, lastSequence: int, fields: seq<Option<Bytes>>)
  {
    ghost predicate Valid() {
      |fields| == FIELDS
    }
  }

  function Contents(field: Option<Bytes>): Bytes {
    if field.Some? then field.value else []
  }

  predicate AllClear(s: State) {
    s.sequence == 0 && s.lastSequence == 0 && forall i :: 0 <= i < |s.fields| ==> Contents(s.fields[i]) == []
  }

  function Fresh(): State {
    State(false, 0, 0, seq(FIELDS, _ => None))
  }

  // ---- Calls ----

  datatype Op =
    | Set(field: nat, data: Bytes)
    | Clear(field: nat)
    | SetSequence(sequence: int, last: int)
    | ClearSequence

  predicate Proper(op: Op) {
    (op.Set? ==> op.field < FIELDS) && (op.Clear? ==> op.field < FIELDS)
  }

  /** Clearing is skipped when there is no block, and takes the block away with the last thing in it. */
  function Dropped(s: State): State {
    if AllClear(s) then s.(present := false) else s
  }

  function Apply(s: State, op: Op): State
    requires s.Valid() && Proper(op)
    ensures Apply(s, op).Valid()
  {
    match op
    case Set(i, data) => s.(present := true, fields := s.fields[i := Some(data)])
    case Clear(i) => if !s.present then s else Dropped(s.(fields := s.fields[i := None]))
    case SetSequence(n, last) => s.(present := true, sequence := n, lastSequence := last)
    case ClearSequence => if !s.present then s else Dropped(s.(sequence := 0, lastSequence := 0))
  }

  function Run(s: State, ops: seq<Op>): State
    requires s.Valid() && forall k :: 0 <= k < |ops| ==> Proper(ops[k])
    ensures Run(s, ops).Valid()
  {
    if |ops| == 0 then s else Apply(Run(s, ops[..|ops| - 1]), ops[|ops| - 1])
  }

  /** The last value given to a field and not taken away since. */
  function LastSet(ops: seq<Op>, i: nat): Bytes {
    if |ops| == 0 then [] else
      match ops[|ops| - 1]
      case Set(f, data) => if f == i then data else LastSet(ops[..|ops| - 1], i)
      case Clear(f) => if f == i then [] else LastSet(ops[..|ops| - 1], i)
      case _ => LastSet(ops[..|ops| - 1], i)
  }

  /** There is a block, or a number or a buffer that brings it back.  A buffer can outlive the block: it is
      empty, and the field was not the last one cleared. */
  predicate ToWrite(s: State) {
    s.present || s.sequence != 0 || s.lastSequence != 0 || exists i :: 0 <= i < |s.fields| && s.fields[i].Some?
  }

  /** The title was set in one of the calls. */
  predicate SetsTitle(ops: seq<Op>) {
    exists k :: 0 <= k < |ops| && IsTitle(ops[k])
  }

  predicate IsTitle(op: Op) {
    op.Set? && op.field == TITLE
  }

  lemma TitlePush(ops: seq<Op>, op: Op)
    ensures SetsTitle(ops + [op]) <==> SetsTitle(ops) || IsTitle(op)
  {
    hide IsTitle;
    var all := ops + [op];
    assert all[|ops|] == op;
    assert forall k :: 0 <= k < |ops| ==> all[k] == ops[k];
  }

  /** Something set means that the block is there. */
  ghost predicate Marked(s: State) {
    !AllClear(s) ==> s.present
  }

  lemma ApplyKeepsMarked(s: State, op: Op)
    requires s.Valid() && Proper(op) && Marked(s)
    ensures Marked(Apply(s, op))
  {
  }

  /** Over any series of calls on a new image, a field holds the last value set, although a clear of an
      image without a block returns before touching the field, and a non-empty field marks the block. */
  lemma {:induction false} LastValueIsKept(ops: seq<Op>, i: nat)
    requires i < FIELDS && forall k :: 0 <= k < |ops| ==> Proper(ops[k])
    ensures Marked(Run(Fresh(), ops)) && Contents(Run(Fresh(), ops).fields[i]) == LastSet(ops, i)
  {
    if |ops| > 0 {
      var n := |ops| - 1;
      LastValueIsKept(ops[..n], i);
      ApplyKeepsMarked(Run(Fresh(), ops[..n]), ops[n]);
    }
  }

  /** The last pair of sequence numbers set and not cleared since. */
  function LastSequence(ops: seq<Op>): (int, int) {
    if |ops| == 0 then (0, 0) else
      match ops[|ops| - 1]
      case SetSequence(n, last) => (n, last)
      case ClearSequence => (0, 0)
      case _ => LastSequence(ops[..|ops| - 1])
  }

  lemma {:induction false} LastSequenceIsKept(ops: seq<Op>)
    requires forall k :: 0 <= k < |ops| ==> Proper(ops[k])
    ensures Marked(Run(Fresh(), ops))
    ensures (Run(Fresh(), ops).sequence, Run(Fresh(), ops).lastSequence) == LastSequence(ops)
  {
    if |ops| > 0 {
      var n := |ops| - 1;
      LastSequenceIsKept(ops[..n]);
      ApplyKeepsMarked(Run(Fresh(), ops[..n]), ops[n]);
    }
  }

  /** Something is left that was set and not cleared. */
  ghost predicate SomethingLeft(ops: seq<Op>) {
    LastSequence(ops) != (0, 0) || exists i :: 0 <= i < FIELDS && LastSet(ops, i) != []
  }

  /** After a series of calls on a new image, the block is there exactly when the last call was a setter, or a
      clearer that left something. */
  lemma PresentExactlyWhen(ops: seq<Op>)
    requires forall k :: 0 <= k < |ops| ==> Proper(ops[k])
    ensures Run(Fresh(), ops).present <==>
              |ops| > 0 && (ops[|ops| - 1].Set? || ops[|ops| - 1].SetSequence? || SomethingLeft(ops))
  {
    hide LastSet, LastSequence;
    LastSequenceIsKept(ops);
    forall i | 0 <= i < FIELDS
      ensures Contents(Run(Fresh(), ops).fields[i]) == LastSet(ops, i)
    {
      LastValueIsKept(ops, i);
    }
    if |ops| > 0 {
      LastSequenceIsKept(ops[..|ops| - 1]);
    }
  }

  // ---- The packed block ----

  /** Where a field goes: behind the header and the fields before it. */
  function OffsetOf(fields: seq<Option<Bytes>>, i: nat): nat
    requires i <= |fields|
  {
    if i == 0 then METADATA_HEADER_SIZE else OffsetOf(fields, i - 1) + |Contents(fields[i - 1])|
  }

  function Packed(fields: seq<Option<Bytes>>): Bytes {
    if |fields| == 0 then [] else Packed(fields[..|fields| - 1]) + Contents(fields[|fields| - 1])
  }

  /** A 32-bit word that holds a signed number. */
  function Word(n: int): nat {
    n % 0x1_0000_0000
  }

  /** The pairs of offset and length in the header. */
  function Pairs(fields: seq<Option<Bytes>>, offsets: seq<nat>, n: nat): (w: seq<nat>)
    requires n <= |fields| && n <= |offsets|
    ensures |w| == 2 * n
  {
    if n == 0 then [] else Pairs(fields, offsets, n - 1) + [offsets[n - 1], |Contents(fields[n - 1])|]
  }

  function HeaderWords(s: State, size: nat, offsets: seq<nat>): (w: seq<nat>)
    requires s.Valid() && |offsets| == FIELDS
    ensures |w| == 28
  {
    [METADATA_BLOCK, size, Word(s.sequence), Word(s.lastSequence)] + Pairs(s.fields, offsets, FIELDS)
  }

  /** Every field that is not empty has its own place; the others keep whatever offset they had. */
  ghost predicate Placed(fields: seq<Option<Bytes>>, offsets: seq<nat>, n: nat)
    requires n <= |fields|
  {
    |offsets| == |fields| && forall i :: 0 <= i < n && Contents(fields[i]) != [] ==> offsets[i] == OffsetOf(fields, i)
  }

  lemma {:induction false} PackedSize(fields: seq<Option<Bytes>>, n: nat)
    requires n <= |fields|
    ensures METADATA_HEADER_SIZE + |Packed(fields[..n])| == OffsetOf(fields, n) <= OffsetOf(fields, |fields|)
    ensures n < |fields| ==> Packed(fields[..n + 1]) == Packed(fields[..n]) + Contents(fields[n])
    decreases n
  {
    OffsetsGrow(fields, n, |fields|);
    if n < |fields| {
      assert fields[..n + 1][..n] == fields[..n];
    }
    if n > 0 {
      PackedSize(fields, n - 1);
    }
  }

  lemma {:induction false} OffsetsGrow(fields: seq<Option<Bytes>>, i: nat, j: nat)
    requires i <= j <= |fields|
    ensures OffsetOf(fields, i) <= OffsetOf(fields, j)
    ensures i < j ==> OffsetOf(fields, i) + |Contents(fields[i])| <= OffsetOf(fields, j)
    decreases j
  {
    if i < j {
      OffsetsGrow(fields, i, j - 1);
    }
  }

  class MetadataContext {
    const isWriting: bool
    var present: bool
    var sequence: int
    var lastSequence: int
    var fields: seq<Option<Bytes>>
    var offsets: seq<nat>
    var dirty: bool

    function Current(): State
      reads this
    {
      State(present, sequence, lastSequence, fields)
    }

    ghost predicate Valid()
      reads this
    {
      Current().Valid() && |offsets| == FIELDS && forall j :: 0 <= j < FIELDS ==> offsets[j] < 0x1_0000_0000
    }

    constructor (isWriting: bool, dirty: bool)
      ensures Valid() && Current() == Fresh() && this.isWriting == isWriting && this.dirty == dirty
    {
      this.isWriting := isWriting;
      this.dirty := dirty;
      present, sequence, lastSequence := false, 0, 0;
      fields := seq(FIELDS, _ => None);
      offsets := seq(FIELDS, _ => 0);
    }

    /** The twelve setters; only the one for the title marks the block as changed. */
    method SetField(i: nat, data: Bytes) returns (status: Status)
      requires Valid() && i < FIELDS
      modifies this
      ensures Valid() && (status == ReadOnly <==> !isWriting)
      ensures Current() == if isWriting then Apply(old(Current()), Set(i, data)) else old(Current())
      ensures dirty == (old(dirty) || (isWriting && i == TITLE))
    {
      if !isWriting {
        return ReadOnly;
      }
      present := true;
      fields := fields[i := Some(data)];
      if i == TITLE {
        dirty := true;
      }
      status := Ok;
    }

    /** The twelve clearers. */
    method ClearField(i: nat) returns (status: Status)
      requires Valid() && i < FIELDS
      modifies this
      ensures Valid() && (status == ReadOnly <==> !isWriting) && dirty == old(dirty)
      ensures Current() == if isWriting then Apply(old(Current()), Clear(i)) else old(Current())
    {
      if !isWriting {
        return ReadOnly;
      }
      status := Ok;
      if present {
        fields := fields[i := None];
        DropIfClear();
      }
    }

    method SetMediaSequence(n: int, last: int) returns (status: Status)
      requires Valid()
      modifies this
      ensures Valid() && (status == ReadOnly <==> !isWriting) && dirty == old(dirty)
      ensures Current() == if isWriting then Apply(old(Current()), SetSequence(n, last)) else old(Current())
    {
      if !isWriting {
        return ReadOnly;
      }
      present, sequence, lastSequence := true, n, last;
      status := Ok;
    }

    method ClearMediaSequence() returns (status: Status)
      requires Valid()
      modifies this
      ensures Valid() && (status == ReadOnly <==> !isWriting) && dirty == old(dirty)
      ensures Current() == if isWriting then Apply(old(Current()), ClearSequence) else old(Current())
    {
      if !isWriting {
        return ReadOnly;
      }
      status := Ok;
      if present {
        sequence, lastSequence := 0, 0;
        DropIfClear();
      }
    }

    /** The check at the end of every clearer. */
    method DropIfClear()
      requires Valid()
      modifies this`present
      ensures Valid() && Current() == Dropped(old(Current()))
    {
      var clear := sequence == 0 && lastSequence == 0;
      for i := 0 to FIELDS
        invariant clear <==> sequence == 0 && lastSequence == 0 && forall j :: 0 <= j < i ==> Contents(fields[j]) == []
      {
        clear := clear && |Contents(fields[i])| == 0;
      }
      if clear {
        present := false;
      }
    }

    /** `write_metadata_block`: nothing when there is no block and no field has a buffer. */
    method WriteMetadata() returns (block: Option<Bytes>)
      requires Valid() && OffsetOf(fields, FIELDS) < 0x8000_0000
      modifies this`present, this`offsets
      ensures Valid() && fields == old(fields) && sequence == old(sequence) && lastSequence == old(lastSequence)
      ensures block.None? ==> present == old(present)
      ensures block.None? <==> !old(present) && sequence == 0 && lastSequence == 0
                               && forall i :: 0 <= i < FIELDS ==> fields[i].None?
      ensures block.Some? ==>
                && present && Placed(fields, offsets, FIELDS)
                && (forall i :: 0 <= i < FIELDS && Contents(fields[i]) == [] ==> offsets[i] == old(offsets)[i])
                && block.value == Words(HeaderWords(Current(), OffsetOf(fields, FIELDS), offsets)) + Packed(fields)
    {
      hide OffsetOf, Packed, HeaderWords, Words, Overlay, Placed;
      if !present && sequence == 0 && lastSequence == 0 && forall i :: 0 <= i < FIELDS ==> fields[i].None? {
        return None;
      }
      var size := BlockSize();
      present := true;
      PackedSize(fields, 0);
      NothingPacked(fields);
      var buffer := new byte[size](_ => 0);
      ghost var start := buffer[..];
      offsets := PackFields(buffer, fields, offsets);
      var head := Words(HeaderWords(Current(), size, offsets));
      HeadSize(Current(), size, offsets);
      PackedSize(fields, FIELDS);
      assert fields[..FIELDS] == fields;
      CopyInto(buffer, 0, head);
      WholeBlock(start, buffer[..], head, Packed(fields));
      block := Some(buffer[..]);
    }

    /** The closing writer: a block that was not marked as changed is not looked at. */
    method CloseMetadata() returns (block: Option<Bytes>)
      requires Valid() && OffsetOf(fields, FIELDS) < 0x8000_0000
      modifies this`present, this`offsets
      ensures Valid() && fields == old(fields) && sequence == old(sequence) && lastSequence == old(lastSequence)
      ensures block.Some? <==> dirty && ToWrite(old(Current()))
      ensures block.Some? ==>
                && Placed(fields, offsets, FIELDS)
                && block.value == Words(HeaderWords(Current(), OffsetOf(fields, FIELDS), offsets)) + Packed(fields)
    {
      hide OffsetOf, Packed, HeaderWords, Words, Placed;
      if !dirty {
        return None;
      }
      block := WriteMetadata();
    }

    /** One call. */
    method Call(op: Op)
      requires Valid() && isWriting && Proper(op)
      modifies this
      ensures Valid() && Current() == Apply(old(Current()), op)
      ensures dirty == (old(dirty) || IsTitle(op))
    {
      var status;
      match op {
        case Set(i, data) => status := SetField(i, data);
        case Clear(i) => status := ClearField(i);
        case SetSequence(n, last) => status := SetMediaSequence(n, last);
        case ClearSequence => status := ClearMediaSequence();
      }
    }

    /** A series of calls. */
    method CallAll(ops: seq<Op>)
      requires Valid() && isWriting && forall k :: 0 <= k < |ops| ==> Proper(ops[k])
      modifies this
      ensures Valid() && Current() == Run(old(Current()), ops)
      ensures dirty == (old(dirty) || SetsTitle(ops))
    {
      ghost var start := Current();
      assert ops[..0] == [];
      for k := 0 to |ops|
        invariant Valid() && Current() == Run(start, ops[..k])
        invariant dirty == (old(dirty) || SetsTitle(ops[..k]))
      {
        TitlePush(ops[..k], ops[k]);
        assert ops[..k] + [ops[k]] == ops[..k + 1];
        Call(ops[k]);
        assert ops[..k + 1][..k] == ops[..k];
      }
      assert ops[..|ops|] == ops;
    }

    /** The header and the sum of the lengths. */
    method BlockSize() returns (size: nat)
      requires Valid()
      ensures size == OffsetOf(fields, FIELDS)
    {
      size := METADATA_HEADER_SIZE;
      for i := 0 to FIELDS
        invariant size == OffsetOf(fields, i)
      {
        size := size + |Contents(fields[i])|;
      }
    }
  }

  /** Copy every field that is not empty behind the ones before it and note where it went. */
  method PackFields(buffer: array<byte>, fields: seq<Option<Bytes>>, before: seq<nat>) returns (offsets: seq<nat>)
    requires |fields| == |before| == FIELDS && buffer.Length == OffsetOf(fields, FIELDS)
    modifies buffer
    ensures |offsets| == FIELDS && Placed(fields, offsets, FIELDS)
    ensures forall j :: 0 <= j < FIELDS ==> offsets[j] == before[j] || offsets[j] <= buffer.Length
    ensures forall j :: 0 <= j < FIELDS && Contents(fields[j]) == [] ==> offsets[j] == before[j]
    ensures METADATA_HEADER_SIZE + |Packed(fields)| == buffer.Length
    ensures buffer[..] == Overlay(old(buffer[..]), METADATA_HEADER_SIZE, Packed(fields))
  {
    hide OffsetOf, Packed, Overlay, Placed;
    offsets := before;
    ghost var start := buffer[..];
    var pos := METADATA_HEADER_SIZE;
    PackedSize(fields, 0);
    NothingPacked(fields);
    NothingPlaced(fields, offsets, start);
    for i := 0 to FIELDS
      invariant |start| == buffer.Length && |offsets| == FIELDS
      invariant forall j :: 0 <= j < FIELDS ==> offsets[j] == before[j] || offsets[j] <= buffer.Length
      invariant forall j :: 0 <= j < FIELDS && (i <= j || Contents(fields[j]) == []) ==> offsets[j] == before[j]
      invariant Placed(fields, offsets, i) && pos == OffsetOf(fields, i) == METADATA_HEADER_SIZE + |Packed(fields[..i])|
      invariant pos <= buffer.Length && buffer[..] == Overlay(start, METADATA_HEADER_SIZE, Packed(fields[..i]))
    {
      PackedSize(fields, i);
      PackedSize(fields, i + 1);
      NextOffset(fields, i);
      NextPlaced(fields, offsets, i, pos);
      if fields[i].Some? && |fields[i].value| > 0 {
        OverlayTwice(start, METADATA_HEADER_SIZE, Packed(fields[..i]), fields[i].value);
        CopyInto(buffer, pos, fields[i].value);
        offsets := offsets[i := pos];
        pos := pos + |fields[i].value|;
      } else {
        assert Packed(fields[..i + 1]) == Packed(fields[..i]);
      }
    }
    assert fields[..FIELDS] == fields;
  }

  lemma NothingPlaced(fields: seq<Option<Bytes>>, offsets: seq<nat>, start: Bytes)
    requires |fields| == |offsets| && METADATA_HEADER_SIZE <= |start|
    ensures Placed(fields, offsets, 0) && Overlay(start, METADATA_HEADER_SIZE, []) == start
  {
  }

  lemma NextPlaced(fields: seq<Option<Bytes>>, offsets: seq<nat>, i: nat, pos: nat)
    requires i < |fields| && Placed(fields, offsets, i) && pos == OffsetOf(fields, i)
    ensures Placed(fields, offsets[i := pos], i + 1)
    ensures Contents(fields[i]) == [] ==> Placed(fields, offsets, i + 1)
  {
  }

  lemma NothingPacked(fields: seq<Option<Bytes>>)
    ensures Packed(fields[..0]) == [] && OffsetOf(fields, 0) == METADATA_HEADER_SIZE
  {
  }

  lemma NextOffset(fields: seq<Option<Bytes>>, i: nat)
    requires i < |fields|
    ensures OffsetOf(fields, i + 1) == OffsetOf(fields, i) + |Contents(fields[i])|
  {
  }

  lemma HeadSize(s: State, size: nat, offsets: seq<nat>)
    requires s.Valid() && |offsets| == FIELDS
    ensures |Words(HeaderWords(s, size, offsets))| == METADATA_HEADER_SIZE
  {
    hide HeaderWords;
    WordBytes(HeaderWords(s, size, offsets));
    HeaderCount(s, size, offsets);
  }

  lemma HeaderCount(s: State, size: nat, offsets: seq<nat>)
    requires s.Valid() && |offsets| == FIELDS
    ensures |HeaderWords(s, size, offsets)| == 28
  {
  }

  lemma WholeBlock(start: Bytes, s: Bytes, head: Bytes, packed: Bytes)
    requires |head| == METADATA_HEADER_SIZE && |start| == METADATA_HEADER_SIZE + |packed|
    requires s == Overlay(Overlay(start, METADATA_HEADER_SIZE, packed), 0, head)
    ensures s == head + packed
  {
  }

  // ---- What a reader finds in the block ----

  /** Field ranges follow each other from the end of the header to the end of the block, none overlapping. */
  lemma RangesFillTheBlock(fields: seq<Option<Bytes>>, i: nat, j: nat)
    requires i < j < |fields|
    ensures METADATA_HEADER_SIZE <= OffsetOf(fields, i)
    ensures OffsetOf(fields, i) + |Contents(fields[i])| <= OffsetOf(fields, j)
    ensures OffsetOf(fields, j) + |Contents(fields[j])| <= OffsetOf(fields, |fields|)
    ensures OffsetOf(fields, |fields|) == METADATA_HEADER_SIZE + |Packed(fields)|
  {
    hide OffsetOf, Packed;
    OffsetsGrow(fields, i, j);
    OffsetsGrow(fields, j, |fields|);
    PackedSize(fields, |fields|);
    PackedSize(fields, 0);
    OffsetsGrow(fields, 0, i);
    FirstOffset(fields);
    assert fields[..|fields|] == fields;
  }

  lemma FirstOffset(fields: seq<Option<Bytes>>)
    ensures OffsetOf(fields, 0) == METADATA_HEADER_SIZE
  {
  }

  lemma {:induction false} FieldInPacked(fields: seq<Option<Bytes>>, n: nat, i: nat)
    requires i < n <= |fields|
    ensures OffsetOf(fields, i) - METADATA_HEADER_SIZE + |Contents(fields[i])| <= |Packed(fields[..n])|
    ensures 0 <= OffsetOf(fields, i) - METADATA_HEADER_SIZE
    ensures var at := OffsetOf(fields, i) - METADATA_HEADER_SIZE;
            Packed(fields[..n])[at..at + |Contents(fields[i])|] == Contents(fields[i])
    decreases n
  {
    hide OffsetOf, Packed;
    var at := OffsetOf(fields, i) - METADATA_HEADER_SIZE;
    PackedSize(fields, i);
    PackedSize(fields, n - 1);
    SliceOfConcat(Packed(fields[..n - 1]), Contents(fields[n - 1]), at, at + |Contents(fields[i])|);
    if i < n - 1 {
      FieldInPacked(fields, n - 1, i);
    }
  }

  lemma {:induction false} PairAt(fields: seq<Option<Bytes>>, offsets: seq<nat>, n: nat, i: nat)
    requires i < n <= |fields| && n <= |offsets|
    ensures Pairs(fields, offsets, n)[2 * i] == offsets[i]
    ensures Pairs(fields, offsets, n)[2 * i + 1] == |Contents(fields[i])|
    decreases n
  {
    if i < n - 1 {
      PairAt(fields, offsets, n - 1, i);
    }
  }

  /** The words of the header of a block. */
  function ReadHeader(block: Bytes): (w: seq<nat>)
    requires METADATA_HEADER_SIZE <= |block|
    ensures |w| == 28
  {
    ReadWords(block[..METADATA_HEADER_SIZE], 28)
  }

  /** Slicing the block at the offset and length stored for a field returns the field. */
  lemma FieldsReadBack(s: State, offsets: seq<nat>, block: Bytes, i: nat)
    requires s.Valid() && i < FIELDS && |offsets| == FIELDS && Placed(s.fields, offsets, FIELDS)
    requires OffsetOf(s.fields, FIELDS) < 0x8000_0000 && forall j :: 0 <= j < FIELDS ==> offsets[j] < 0x1_0000_0000
    requires block == Words(HeaderWords(s, OffsetOf(s.fields, FIELDS), offsets)) + Packed(s.fields)
    requires Contents(s.fields[i]) != []
    ensures METADATA_HEADER_SIZE <= |block| == OffsetOf(s.fields, FIELDS)
    ensures var w := ReadHeader(block); var at, length := w[4 + 2 * i], w[5 + 2 * i];
            && w[0] == METADATA_BLOCK && w[1] == |block| && w[2] == Word(s.sequence) && w[3] == Word(s.lastSequence)
            && METADATA_HEADER_SIZE <= at && at + length <= |block| && block[at..at + length] == Contents(s.fields[i])
  {
    hide OffsetOf, Packed, Words, ReadWords, Pairs, HeaderWords, Placed;
    var size := OffsetOf(s.fields, FIELDS);
    var words := HeaderWords(s, size, offsets);
    HeadSize(s, size, offsets);
    WordsFit(s, size, offsets);
    WordsReadBack(words);
    assert block[..METADATA_HEADER_SIZE] == Words(words);
    HeaderFields(s, size, offsets, i);
    FieldInBlock(s.fields, Words(words), i);
  }

  lemma HeaderFields(s: State, size: nat, offsets: seq<nat>, i: nat)
    requires s.Valid() && i < FIELDS && Placed(s.fields, offsets, FIELDS) && Contents(s.fields[i]) != []
    ensures var w := HeaderWords(s, size, offsets);
            && w[0] == METADATA_BLOCK && w[1] == size && w[2] == Word(s.sequence) && w[3] == Word(s.lastSequence)
            && w[4 + 2 * i] == OffsetOf(s.fields, i) && w[5 + 2 * i] == |Contents(s.fields[i])|
  {
    hide OffsetOf, Pairs;
    PairAt(s.fields, offsets, FIELDS, i);
    PairCount(s.fields, offsets, FIELDS);
  }

  lemma FieldInBlock(fields: seq<Option<Bytes>>, head: Bytes, i: nat)
    requires |fields| == FIELDS && i < FIELDS && |head| == METADATA_HEADER_SIZE
    ensures var block := head + Packed(fields); var at, length := OffsetOf(fields, i), |Contents(fields[i])|;
            && |block| == OffsetOf(fields, FIELDS) && METADATA_HEADER_SIZE <= at && at + length <= |block|
            && block[at..at + length] == Contents(fields[i])
  {
    hide OffsetOf, Packed;
    assert fields[..FIELDS] == fields;
    FieldInPacked(fields, FIELDS, i);
    PackedSize(fields, FIELDS);
    var block, at := head + Packed(fields), OffsetOf(fields, i);
    SliceOfConcat(head, Packed(fields), 0, 0);
    SliceOfSlice(block, METADATA_HEADER_SIZE, |Packed(fields)|, at - METADATA_HEADER_SIZE,
                 at - METADATA_HEADER_SIZE + |Contents(fields[i])|);
  }

  lemma PairCount(fields: seq<Option<Bytes>>, offsets: seq<nat>, n: nat)
    requires n <= |fields| && n <= |offsets|
    ensures |Pairs(fields, offsets, n)| == 2 * n
  {
  }

  lemma WordsFit(s: State, size: nat, offsets: seq<nat>)
    requires s.Valid() && |offsets| == FIELDS && size == OffsetOf(s.fields, FIELDS) < 0x8000_0000
    requires forall j :: 0 <= j < FIELDS ==> offsets[j] < 0x1_0000_0000
    ensures forall k :: 0 <= k < 28 ==> HeaderWords(s, size, offsets)[k] < 0x1_0000_0000
  {
    hide OffsetOf, Pairs;
    PairCount(s.fields, offsets, FIELDS);
    forall k | 0 <= k < 28
      ensures HeaderWords(s, size, offsets)[k] < 0x1_0000_0000
    {
      if k >= 4 {
        var i := (k - 4) / 2;
        PairAt(s.fields, offsets, FIELDS, i);
        OffsetsGrow(s.fields, i, FIELDS);
        assert k == 4 + 2 * i || k == 5 + 2 * i;
      }
    }
  }

  // ---- From the calls to the block ----

  /** Any series of calls on a context, then the close: the block is written exactly when it was marked as
      changed, at the start or by setting the title, and there is something to write. */
  method SetAndClose(c: MetadataContext, ops: seq<Op>) returns (block: Option<Bytes>)
    requires c.Valid() && c.isWriting && forall k :: 0 <= k < |ops| ==> Proper(ops[k])
    requires OffsetOf(Run(c.Current(), ops).fields, FIELDS) < 0x8000_0000
    modifies c
    ensures block.Some? <==> (old(c.dirty) || SetsTitle(ops)) && ToWrite(old(Run(c.Current(), ops)))
    ensures block.Some? ==> forall i :: 0 <= i < FIELDS && Contents(old(Run(c.Current(), ops)).fields[i]) != [] ==>
                              Slice(block.value, i) == Some(Contents(old(Run(c.Current(), ops)).fields[i]))
    ensures block.Some? ==> HasNumbers(block.value, old(Run(c.Current(), ops).sequence),
                                       old(Run(c.Current(), ops).lastSequence))
  {
    hide OffsetOf, Packed, Words, ReadWords, HeaderWords, Placed, Run, ToWrite, Slice, HasNumbers;
    ghost var after := Run(c.Current(), ops);
    c.CallAll(ops);
    assert c.Current() == after;
    block := c.CloseMetadata();
    if block.Some? {
      NumbersAreThere(c.Current(), c.offsets, block.value);
      forall i | 0 <= i < FIELDS && Contents(after.fields[i]) != []
        ensures Slice(block.value, i) == Some(Contents(after.fields[i]))
      {
        SliceIsField(c.Current(), c.offsets, block.value, i);
      }
    }
  }

  /** The header names the block, its size and the two sequence numbers, as 32-bit words. */
  ghost predicate HasNumbers(block: Bytes, sequence: int, last: int) {
    && METADATA_HEADER_SIZE <= |block|
    && Number(block[0..4]) == METADATA_BLOCK && Number(block[4..8]) == |block|
    && Number(block[8..12]) == sequence % 0x1_0000_0000 && Number(block[12..16]) == last % 0x1_0000_0000
  }

  lemma WordAt(words: seq<nat>, block: Bytes, i: nat)
    requires i < |words| && words[i] < 0x1_0000_0000 && Words(words) <= block
    ensures 4 * i + 4 <= |block| && Number(block[4 * i..4 * i + 4]) == words[i]
  {
    hide Words, LittleEndian, Number, Pow256;
    WordBytes(words);
    WordPlace(words, i);
    assert block[4 * i..4 * i + 4] == Words(words)[4 * i..4 * i + 4];
    Powers();
    NumberRoundTrip(words[i], 4);
  }

  lemma NumbersAreThere(s: State, offsets: seq<nat>, block: Bytes)
    requires s.Valid() && |offsets| == FIELDS && Placed(s.fields, offsets, FIELDS)
    requires OffsetOf(s.fields, FIELDS) < 0x8000_0000 && forall j :: 0 <= j < FIELDS ==> offsets[j] < 0x1_0000_0000
    requires block == Words(HeaderWords(s, OffsetOf(s.fields, FIELDS), offsets)) + Packed(s.fields)
    ensures HasNumbers(block, s.sequence, s.lastSequence)
  {
    hide OffsetOf, Packed, Words, Pairs, Number, Placed;
    var size := OffsetOf(s.fields, FIELDS);
    var words := HeaderWords(s, size, offsets);
    HeadSize(s, size, offsets);
    WordsFit(s, size, offsets);
    PackedSize(s.fields, FIELDS);
    assert s.fields[..FIELDS] == s.fields;
    WordAt(words, block, 0);
    WordAt(words, block, 1);
    WordAt(words, block, 2);
    WordAt(words, block, 3);
  }

  /** What a reader cuts out of the block for a field. */
  function Slice(block: Bytes, i: nat): Option<Bytes>
    requires i < FIELDS
  {
    if |block| < METADATA_HEADER_SIZE then None else
      var w := ReadHeader(block);
      var at, length := w[4 + 2 * i], w[5 + 2 * i];
      if at + length <= |block| then Some(block[at..at + length]) else None
  }

  lemma SliceIsField(s: State, offsets: seq<nat>, block: Bytes, i: nat)
    requires s.Valid() && i < FIELDS && |offsets| == FIELDS && Placed(s.fields, offsets, FIELDS)
    requires OffsetOf(s.fields, FIELDS) < 0x8000_0000 && forall j :: 0 <= j < FIELDS ==> offsets[j] < 0x1_0000_0000
    requires block == Words(HeaderWords(s, OffsetOf(s.fields, FIELDS), offsets)) + Packed(s.fields)
    requires Contents(s.fields[i]) != []
    ensures Slice(block, i) == Some(Contents(s.fields[i]))
  {
    hide OffsetOf, Packed, Words, HeaderWords, Placed, ReadHeader;
    FieldsReadBack(s, offsets, block, i);
  }

  /** A new image: whatever the calls, the block is written exactly when there is something in it, and it
      gives back the last value set for every field. */
  method SetAndCloseNew(ops: seq<Op>) returns (block: Option<Bytes>)
    requires forall k :: 0 <= k < |ops| ==> Proper(ops[k])
    requires OffsetOf(Run(Fresh(), ops).fields, FIELDS) < 0x8000_0000
    ensures block.Some? <==> ToWrite(Run(Fresh(), ops))
    ensures forall i :: 0 <= i < FIELDS && LastSet(ops, i) != [] ==>
              block.Some? && Slice(block.value, i) == Some(LastSet(ops, i))
    ensures LastSequence(ops) != (0, 0) ==> block.Some?
    ensures block.Some? ==> HasNumbers(block.value, LastSequence(ops).0, LastSequence(ops).1)
  {
    hide OffsetOf, Run, Slice, LastSet, LastSequence, HasNumbers;
    var c := new MetadataContext(true, true);
    LastSequenceIsKept(ops);
    block := SetAndClose(c, ops);
    forall i | 0 <= i < FIELDS && LastSet(ops, i) != []
      ensures block.Some? && Slice(block.value, i) == Some(LastSet(ops, i))
    {
      LastValueIsKept(ops, i);
    }
  }

  /** An image opened again in which only the creator is set: the block is there and is not written. */
  lemma CreatorAloneIsLost(s: State, creator: Bytes)
    requires s.Valid()
    ensures var ops := [Set(0, creator)];
            ToWrite(Run(s, ops)) && Contents(Run(s, ops).fields[0]) == creator && !SetsTitle(ops)
  {
  }

  /** Two empty fields are set and one is cleared: there is no block any more, but the other field's buffer
      makes the writer bring it back. */
  lemma EmptyBufferBringsBlockBack()
    ensures var s := Run(Fresh(), [Set(0, []), Set(1, []), Clear(0)]); !s.present && ToWrite(s)
  {
    var ops := [Set(0, []), Set(1, []), Clear(0)];
    assert ops[..2] == [Set(0, []), Set(1, [])] && ops[..2][..1] == [Set(0, [])] && ops[..2][..1][..0] == [];
    var one := Run(Fresh(), [Set(0, [])]);
    var two := Run(Fresh(), ops[..2]);
    assert one == Apply(Fresh(), Set(0, []));
    assert two == Apply(one, Set(1, []));
    var s := Run(Fresh(), ops);
    assert s == Apply(two, Clear(0));
    assert s.fields[1].Some?;
  }
}
