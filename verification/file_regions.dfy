/** Where the closing writer places its blocks (src/close_write.c): every block goes to the aligned end
    of the file, and only the image header and the reserved table region are ever overwritten.
 */
module FileRegions {
  import opened Octet
  import opened ImageFile

  /** A block written by the closing writer. */
  datatype Placed = Placed(offset: nat, bytes: Bytes)

  /** Every byte of `base` is still in `file`, except in the image header and in `lo..hi`. */
  ghost predicate Kept(base: Bytes, file: Bytes, lo: nat, hi: nat) {
    && |base| <= |file|
    && forall i :: IMAGE_HEADER_SIZE <= i < |base| && !(lo <= i < hi) ==> file[i] == base[i]
  }

  lemma KeptTrans(a: Bytes, b: Bytes, c: Bytes, lo: nat, hi: nat)
    requires Kept(a, b, lo, hi) && Kept(b, c, lo, hi)
    ensures Kept(a, c, lo, hi)
  {
  }

  /** A write at the end, in the header or in the reserved region keeps everything else. */
  lemma WriteKeeps(file: Bytes, position: nat, data: Bytes, lo: nat, hi: nat)
    requires position + |data| <= IMAGE_HEADER_SIZE || (lo <= position && position + |data| <= hi) || |file| <= position
    ensures Kept(file, WriteAt(file, position, data), lo, hi)
  {
    hide Padded;
    var r := WriteAt(file, position, data);
    assert |r| >= |file|;
  }

  /** The blocks lie in the file, aligned, at or after `floor`, one after the other. */
  ghost predicate Laid(file: Bytes, log: seq<Placed>, floor: nat, shift: nat) {
    && (forall i :: 0 <= i < |log| ==>
          floor <= log[i].offset && log[i].offset % Pow2(shift) == 0 && Holds(file, log[i].offset, log[i].bytes))
    && (forall i, j :: 0 <= i < j < |log| ==> log[i].offset + |log[i].bytes| <= log[j].offset)
  }

  lemma HoldsElsewhere(file: Bytes, position: nat, data: Bytes, offset: nat, bytes: Bytes)
    requires Holds(file, offset, bytes)
    requires position + |data| <= offset || offset + |bytes| <= position
    ensures Holds(WriteAt(file, position, data), offset, bytes)
  {
    hide Padded;
    var r := WriteAt(file, position, data);
    assert |r| >= |file|;
    assert r[offset..offset + |bytes|] == file[offset..offset + |bytes|];
  }

  /** The step shared by all the block writers. */
  lemma LaidAppend(file: Bytes, log: seq<Placed>, floor: nat, shift: nat, bytes: Bytes)
    requires Laid(file, log, floor, shift) && floor <= Align(|file|, shift) && |bytes| > 0
    ensures var position := Align(|file|, shift); var file' := WriteAt(file, position, bytes);
            Laid(file', log + [Placed(position, bytes)], floor, shift) && |file'| == position + |bytes|
  {
    hide Holds, WriteAt, Pow2, Align;
    var position := Align(|file|, shift);
    var file' := WriteAt(file, position, bytes);
    var log' := log + [Placed(position, bytes)];
    forall i | 0 <= i < |log'|
      ensures floor <= log'[i].offset && log'[i].offset % Pow2(shift) == 0
      ensures Holds(file', log'[i].offset, log'[i].bytes)
      ensures i < |log| ==> log'[i].offset + |log'[i].bytes| <= position
    {
      if i < |log| {
        InFile(file, log[i].offset, log[i].bytes);
        HoldsElsewhere(file, position, bytes, log[i].offset, log[i].bytes);
      } else {
        Written(file, position, bytes);
      }
    }
  }

  lemma InFile(file: Bytes, offset: nat, bytes: Bytes)
    requires Holds(file, offset, bytes)
    ensures offset + |bytes| <= |file|
  {
  }

  lemma Written(file: Bytes, position: nat, bytes: Bytes)
    requires |bytes| > 0
    ensures Holds(WriteAt(file, position, bytes), position, bytes)
  {
  }

  /** Patching below the floor leaves the blocks alone. */
  lemma LaidPatch(file: Bytes, log: seq<Placed>, floor: nat, shift: nat, position: nat, data: Bytes)
    requires Laid(file, log, floor, shift) && position + |data| <= floor
    ensures Laid(WriteAt(file, position, data), log, floor, shift)
  {
    hide Holds, WriteAt, Pow2;
    forall i | 0 <= i < |log|
      ensures Holds(WriteAt(file, position, data), log[i].offset, log[i].bytes)
    {
      HoldsElsewhere(file, position, data, log[i].offset, log[i].bytes);
    }
  }

  lemma LaidLonger(file: Bytes, longer: Bytes, log: seq<Placed>, floor: nat, shift: nat)
    requires Laid(file, log, floor, shift) && file <= longer
    ensures Laid(longer, log, floor, shift)
  {
    hide Holds, Pow2;
    forall i | 0 <= i < |log|
      ensures Holds(longer, log[i].offset, log[i].bytes)
    {
      HoldsInLonger(file, longer, log[i].offset, log[i].bytes);
    }
  }
}
