/** The image file as a growing sequence of bytes, and the packed little-endian records in it. */
module ImageFile {
  import opened Wrappers
  import opened Octet

  type Bytes = seq<byte>
  type u64 = n: nat | n < 0x1_0000_0000_0000_0000

  /** The checksum of the format: any function of the bytes into 64 bits. */
  type Crc64 = Bytes -> u64

  const IMAGE_HEADER_SIZE: nat := 147
  const DATA_BLOCK: nat := 0x4B4C4244
  const TYPE_USER_DATA: nat := 1
  const COMPRESSION_NONE: nat := 0
  const COMPRESSION_LZMA: nat := 1
  const COMPRESSION_ZSTD: nat := 4
  const LZMA_PROPERTIES_LENGTH: nat := 5

  /** An entry of the image's index. */
  datatype IndexEntry = IndexEntry(blockType: nat, dataType: nat, offset: nat)

  // ---- Little-endian numbers ----

  /** The `w` low bytes of `n`, lowest first. */
  function LittleEndian(n: nat, w: nat): (r: Bytes)
    ensures |r| == w
    decreases w
  {
    if w == 0 then [] else [FromValue(n % 256)] + LittleEndian(n / 256, w - 1)
  }

  function Number(s: Bytes): nat {
    if |s| == 0 then 0 else Value(s[0]) + 256 * Number(s[1..])
  }

  function Pow256(w: nat): nat {
    if w == 0 then 1 else 256 * Pow256(w - 1)
  }

  lemma {:induction false} NumberRoundTrip(n: nat, w: nat)
    requires n < Pow256(w)
    ensures Number(LittleEndian(n, w)) == n
    decreases w
  {
    hide Value, FromValue;
    if w > 0 {
      assert LittleEndian(n, w)[1..] == LittleEndian(n / 256, w - 1);
      ValueRoundTrip(n % 256);
      NumberRoundTrip(n / 256, w - 1);
    }
  }

  /** Bytes read as a number and written again. */
  lemma {:induction false} NumberBack(s: Bytes)
    ensures Number(s) < Pow256(|s|) && LittleEndian(Number(s), |s|) == s
    decreases |s|
  {
    hide Value, FromValue;
    if |s| > 0 {
      NumberBack(s[1..]);
      ByteRoundTrip(s[0]);
      ByteValue(s[0]);
      LowestByte(Value(s[0]), Number(s[1..]));
      assert s == [s[0]] + s[1..];
    }
  }

  lemma LowestByte(low: nat, rest: nat)
    requires low < 256
    ensures (low + 256 * rest) % 256 == low && (low + 256 * rest) / 256 == rest
  {
  }

  lemma ByteValue(b: byte)
    ensures Value(b) < 256
  {
  }

  lemma Powers()
    ensures Pow256(1) == 0x100 && Pow256(2) == 0x1_0000 && Pow256(4) == 0x1_0000_0000
    ensures Pow256(8) == 0x1_0000_0000_0000_0000
  {
    assert Pow256(3) == 0x100_0000;
    assert Pow256(5) == 0x100_0000_0000;
    assert Pow256(6) == 0x1_0000_0000_0000;
    assert Pow256(7) == 0x100_0000_0000_0000;
  }

  // ---- Packed records: a layout lists the widths of the fields ----

  function Width(layout: seq<nat>): nat {
    if |layout| == 0 then 0 else layout[0] + Width(layout[1..])
  }

  lemma WidthCons(w: nat, layout: seq<nat>)
    ensures Width([w] + layout) == w + Width(layout)
  {
    assert ([w] + layout)[1..] == layout;
  }

  lemma WidthNone()
    ensures Width([]) == 0
  {
  }

  function Pack(layout: seq<nat>, fields: seq<nat>): (r: Bytes)
    requires |layout| == |fields|
    ensures |r| == Width(layout)
  {
    if |layout| == 0 then [] else LittleEndian(fields[0], layout[0]) + Pack(layout[1..], fields[1..])
  }

  function Unpack(layout: seq<nat>, s: Bytes): (r: seq<nat>)
    requires Width(layout) == |s|
    ensures |r| == |layout|
  {
    if |layout| == 0 then [] else [Number(s[..layout[0]])] + Unpack(layout[1..], s[layout[0]..])
  }

  ghost predicate Fits(layout: seq<nat>, fields: seq<nat>) {
    |layout| == |fields| && forall i :: 0 <= i < |layout| ==> fields[i] < Pow256(layout[i])
  }

  /** A packed record reads back. */
  lemma {:induction false} UnpackPack(layout: seq<nat>, fields: seq<nat>)
    requires Fits(layout, fields)
    ensures Unpack(layout, Pack(layout, fields)) == fields
  {
    hide LittleEndian, Number, Pow256;
    if |layout| > 0 {
      var s := Pack(layout, fields);
      var head, tail := LittleEndian(fields[0], layout[0]), Pack(layout[1..], fields[1..]);
      assert s[..layout[0]] == head;
      assert s[layout[0]..] == tail;
      NumberRoundTrip(fields[0], layout[0]);
      UnpackPack(layout[1..], fields[1..]);
      assert fields == [fields[0]] + fields[1..];
    }
  }

  // ---- The file ----

  function Zeros(n: nat): (r: Bytes)
    ensures |r| == n && forall i :: 0 <= i < n ==> r[i] == 0
  {
    seq(n, _ => 0)
  }

  /** `b` followed by zeros up to `n` bytes. */
  function Padded(b: Bytes, n: nat): (r: Bytes)
    ensures |b| <= n ==> |r| == n
    ensures forall i :: 0 <= i < |r| ==> r[i] == if i < |b| then b[i] else 0
    ensures n <= |b| ==> r == b
  {
    if n <= |b| then b else b + Zeros(n - |b|)
  }

  /** The first position at or after `position` that is a multiple of 2^shift:
      `(position + mask) & ~mask`. */
  function Align(position: nat, shift: nat): (r: nat)
    ensures position <= r < position + Pow2(shift) && r % Pow2(shift) == 0
  {
    hide Pow2;
    var p := Pow2(shift);
    RoundUp(position, p);
    (position + p - 1) / p * p
  }

  lemma RoundUp(x: nat, p: nat)
    requires p > 0
    ensures x <= (x + p - 1) / p * p < x + p
    ensures (x + p - 1) / p * p % p == 0
  {
    var y := x + p - 1;
    assert y == y / p * p + y % p;
    MultipleMod(y / p, p);
  }

  lemma MultipleMod(d: nat, p: nat)
    requires p > 0
    ensures d * p % p == 0
  {
    var x := d * p;
    var q: int, r: int := x / p, x % p;
    assert x == p * q + r && 0 <= r < p;
    assert p * (d - q) == r by { assert p * (d - q) == p * d - p * q; }
    MulAtLeast(p, d - q);
  }

  lemma MulAtLeast(p: int, e: int)
    requires p > 0
    ensures e >= 1 ==> p * e >= p
    ensures e <= -1 ==> p * e <= -p
  {
  }

  lemma TimesAtLeast(n: nat, p: nat)
    requires p > 0
    ensures n <= n * p
  {
    assert n * p == n * (p - 1) + n;
  }

  function Pow2(n: nat): (r: nat)
    ensures r > 0
  {
    if n == 0 then 1 else 2 * Pow2(n - 1)
  }

  lemma {:induction false} PowersGrow(a: nat, b: nat)
    requires a <= b
    ensures Pow2(a) <= Pow2(b)
    decreases b - a
  {
    if a < b {
      PowersGrow(a + 1, b);
    }
  }

  /** `n >> shift`. */
  function ShiftRight(n: nat, shift: nat): (r: nat)
    ensures r * Pow2(shift) <= n < (r + 1) * Pow2(shift)
  {
    hide Pow2;
    Quotient(n, Pow2(shift));
    n / Pow2(shift)
  }

  /** `n << shift`. */
  function ShiftLeft(n: nat, shift: nat): (r: nat)
    ensures r == n * Pow2(shift)
  {
    hide Pow2;
    MulAtLeast(Pow2(shift), n);
    n * Pow2(shift)
  }

  /** The low `shift` bits of `n`. */
  function LowBits(n: nat, shift: nat): (r: nat)
    ensures r == n - ShiftRight(n, shift) * Pow2(shift) && r < Pow2(shift)
  {
    hide Pow2;
    assert (ShiftRight(n, shift) + 1) * Pow2(shift) == ShiftRight(n, shift) * Pow2(shift) + Pow2(shift);
    n - ShiftRight(n, shift) * Pow2(shift)
  }

  lemma Quotient(n: nat, p: nat)
    requires p > 0
    ensures n / p >= 0 && n / p * p <= n < (n / p + 1) * p
  {
    var q: int, r: int := n / p, n % p;
    assert n == p * q + r && 0 <= r < p;
    assert (q + 1) * p == q * p + p;
    MulAtLeast(p, q);
  }

  /** Seek to `position` and write `data`: overwrites in place, extends at the end, and fills a gap
      left by seeking past the end with zeros. */
  function WriteAt(file: Bytes, position: nat, data: Bytes): (r: Bytes)
    ensures |data| > 0 ==> |r| == if position + |data| > |file| then position + |data| else |file|
    ensures |data| == 0 ==> r == file
    ensures |data| > 0 ==> r[position..position + |data|] == data
    ensures forall i :: 0 <= i < |file| && (i < position || position + |data| <= i) ==> r[i] == file[i]
  {
    if |data| == 0 then file else
      var long := Padded(file, position + |data|);
      long[..position] + data + long[position + |data|..]
  }

  /** Read `n` bytes at `position`; fails when the file is too short (or nothing is asked for). */
  function ReadAt(file: Bytes, position: nat, n: nat): (r: Option<Bytes>)
    ensures r.Some? <==> 0 < n && position + n <= |file|
    ensures r.Some? ==> r.value == file[position..position + n]
  {
    if 0 < n && position + n <= |file| then Some(file[position..position + n]) else None
  }

  /** `file` holds `data` at `position`. */
  ghost predicate Holds(file: Bytes, position: nat, data: Bytes) {
    position + |data| <= |file| && file[position..position + |data|] == data
  }

  lemma WriteKeepsPrefix(file: Bytes, position: nat, data: Bytes, settled: nat)
    requires settled <= position && settled <= |file|
    ensures file[..settled] <= WriteAt(file, position, data)
  {
    var r := WriteAt(file, position, data);
    assert |r| >= settled;
    forall i | 0 <= i < settled
      ensures r[i] == file[i]
    {
    }
  }

  lemma HoldsInLonger(file: Bytes, longer: Bytes, position: nat, data: Bytes)
    requires Holds(file, position, data) && file <= longer
    ensures Holds(longer, position, data)
  {
    assert longer[..|file|] == file;
    assert longer[position..position + |data|] == file[position..position + |data|];
  }

  /** Two consecutive writes at the end of the file leave both pieces there. */
  lemma HoldsAppended(file: Bytes, withHead: Bytes, position: nat, head: Bytes, tail: Bytes)
    requires |file| <= position && |head| > 0 && withHead == WriteAt(file, position, head)
    ensures Holds(WriteAt(withHead, position + |head|, tail), position, head + tail)
    ensures |WriteAt(withHead, position + |head|, tail)| == position + |head| + |tail|
  {
    hide WriteAt, Padded;
    var r := WriteAt(withHead, position + |head|, tail);
    var middle := position + |head|;
    var first := withHead[position..middle];
    assert first == head;
    var second := r[middle..middle + |tail|];
    assert second == tail;
    forall i | 0 <= i < |head| + |tail|
      ensures r[position + i] == (head + tail)[i]
    {
      if i < |head| {
        assert r[position + i] == withHead[position + i] == first[i];
      } else {
        assert r[position + i] == second[i - |head|];
      }
    }
  }

  lemma EndOf(file: Bytes, position: nat, bytes: Bytes)
    requires Holds(file, position, bytes)
    ensures position + |bytes| <= |file|
  {
  }

  lemma HoldsExactly(file: Bytes, at: nat, b: Bytes, n: nat)
    requires Holds(file, at, b) && |b| == n
    ensures at + n <= |file| && file[at..at + n] == b
  {
  }

  lemma HoldsSplit(file: Bytes, at: nat, head: Bytes, tail: Bytes)
    requires Holds(file, at, head + tail)
    ensures Holds(file, at, head) && Holds(file, at + |head|, tail)
  {
    var size := |head| + |tail|;
    SliceOfConcat(head, tail, 0, |head|);
    SliceOfSlice(file, at, size, 0, |head|);
    SliceOfSlice(file, at, size, |head|, size);
  }

  lemma SliceOfSlice(s: Bytes, from: nat, n: nat, i: nat, j: nat)
    requires from + n <= |s| && i <= j <= n
    ensures s[from..from + n][i..j] == s[from + i..from + j]
  {
    var a, b := s[from..from + n][i..j], s[from + i..from + j];
    assert |a| == |b| == j - i;
    forall k | 0 <= k < j - i
      ensures a[k] == b[k]
    {
    }
  }

  lemma SliceOfConcat(a: Bytes, b: Bytes, i: nat, j: nat)
    requires i <= j
    ensures j <= |a| ==> (a + b)[i..j] == a[i..j]
    ensures (a + b)[|a|..|a| + |b|] == b
  {
    var s := a + b;
    assert |s| == |a| + |b|;
    assert s[|a|..] == b && s[|a|..|s|] == s[|a|..];
    if j <= |a| {
      assert s[i..j] == a[i..j];
    }
  }

  // ---- Four-byte words, and copying into a buffer ----

  /** Numbers of four bytes, one after the other. */
  function Words(ns: seq<nat>): (b: Bytes)
    ensures |b| == 4 * |ns|
  {
    if |ns| == 0 then [] else LittleEndian(ns[0], 4) + Words(ns[1..])
  }

  function ReadWords(b: Bytes, n: nat): (ns: seq<nat>)
    requires |b| == 4 * n
    ensures |ns| == n
  {
    if n == 0 then [] else [Number(b[..4])] + ReadWords(b[4..], n - 1)
  }

  lemma {:induction false} WordsReadBack(ns: seq<nat>)
    requires forall i :: 0 <= i < |ns| ==> ns[i] < 0x1_0000_0000
    ensures ReadWords(Words(ns), |ns|) == ns
  {
    hide LittleEndian, Number, Pow256;
    if |ns| > 0 {
      WordSize(ns[0]);
      Powers();
      NumberRoundTrip(ns[0], 4);
      assert Words(ns)[..4] == LittleEndian(ns[0], 4) && Words(ns)[4..] == Words(ns[1..]);
      WordsReadBack(ns[1..]);
    }
  }

  /** Word `i` lies at four times `i`. */
  lemma {:induction false} WordPlace(ns: seq<nat>, i: nat)
    requires i < |ns|
    ensures Words(ns)[4 * i..4 * i + 4] == LittleEndian(ns[i], 4)
  {
    hide LittleEndian;
    WordSize(ns[0]);
    if i > 0 {
      WordPlace(ns[1..], i - 1);
      assert Words(ns)[4..] == Words(ns[1..]);
      assert Words(ns)[4 * i..4 * i + 4] == Words(ns)[4..][4 * (i - 1)..4 * (i - 1) + 4];
    }
  }

  lemma WordSize(n: nat)
    ensures |LittleEndian(n, 4)| == 4 && |LittleEndian(n, 8)| == 8
  {
  }

  lemma {:induction false} WordsBack(b: Bytes, n: nat)
    requires |b| == 4 * n
    ensures Words(ReadWords(b, n)) == b
    ensures forall i :: 0 <= i < n ==> ReadWords(b, n)[i] < 0x1_0000_0000
    decreases n
  {
    hide LittleEndian, Number, Pow256;
    if n > 0 {
      Powers();
      NumberBack(b[..4]);
      WordsBack(b[4..], n - 1);
      var r := ReadWords(b, n);
      assert r[1..] == ReadWords(b[4..], n - 1);
      assert b == b[..4] + b[4..];
      assert forall i :: 1 <= i < n ==> r[i] == r[1..][i - 1];
    }
  }

  lemma WordBytes(ns: seq<nat>)
    ensures |Words(ns)| == 4 * |ns|
  {
  }

  lemma WordsSize(b: Bytes, n: nat)
    requires |b| == 4 * n
    ensures |ReadWords(b, n)| == n
  {
  }

  function Overlay(s: Bytes, offset: nat, b: Bytes): (r: Bytes)
    requires offset + |b| <= |s|
    ensures |r| == |s|
  {
    s[..offset] + b + s[offset + |b|..]
  }

  lemma OverlayTwice(s: Bytes, offset: nat, a: Bytes, b: Bytes)
    requires offset + |a| + |b| <= |s|
    ensures Overlay(Overlay(s, offset, a), offset + |a|, b) == Overlay(s, offset, a + b)
  {
  }

  /** `memcpy` into the buffer. */
  method CopyInto(buffer: array<byte>, offset: nat, b: Bytes)
    requires offset + |b| <= buffer.Length
    modifies buffer
    ensures buffer[..] == Overlay(old(buffer[..]), offset, b)
  {
    forall i | 0 <= i < |b| {
      buffer[offset + i] := b[i];
    }
  }
}
