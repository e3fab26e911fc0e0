/** The layout that `aaruf_create` (src/create.c) gives a new image: where the primary table goes, how
    many entries it has, and where the first data block starts.
 */
module CreateLayout {
  import opened ImageFile
  import opened DdtTable
  import opened CloseTracking
  import opened CloseWrite

  const AUTOMATIC_LIMIT: nat := 8388608

  function Wrap(n: nat): (r: nat)
    ensures r < 0x1_0000_0000_0000_0000
    ensures n < 0x1_0000_0000_0000_0000 ==> r == n
  {
    n % 0x1_0000_0000_0000_0000
  }

  /** The table shift of a block image: the option when it was given and is not -1, never above 62; else
      one level for small images and groups of 2^22 sectors for large ones. */
  ghost predicate ShiftChosen(shift: nat, sectors: nat, option: int, found: bool) {
    if option == -1 || !found then shift == (if sectors < AUTOMATIC_LIMIT then 0 else 22)
    else if option <= 0 then shift == 0
    else if option < 63 then shift == option
    else shift == 62
  }

  /** `entries` is the least number, at least one, of groups of 2^shift sectors that cover `blocks`. */
  ghost predicate Covers(entries: nat, blocks: nat, shift: nat) {
    && entries >= 1 && blocks <= entries * Pow2(shift)
    && (entries > 1 ==> (entries - 1) * Pow2(shift) < blocks)
  }

  class Context {
    var noUserTable: bool
    var isTape: bool
    var blocks: nat
    var tableShift: nat
    var levels: nat
    var entries: nat
    var primaryOffset: nat
    var next: nat             // next_block_position

    constructor ()
      ensures !noUserTable && !isTape
      ensures blocks == 0 && tableShift == 0 && levels == 0 && entries == 0 && primaryOffset == 0 && next == 0
    {
      noUserTable, isTape := false, false;
      blocks, tableShift, levels, entries, primaryOffset, next := 0, 0, 0, 0, 0, 0;
    }

    /** Sector counts and offsets are 64-bit words, `alignment` is the block alignment shift and `option`
        the signed byte parsed from the options. */
    method LayOut(user: nat, negative: nat, overflow: nat, alignment: nat, option: int, found: bool, tape: bool)
      requires alignment < 64
      modifies this
      ensures isTape == (tape || old(isTape))
      ensures tape || (user == 0 && negative == 0 && overflow == 0)
              ==> next == Align(IMAGE_HEADER_SIZE, alignment) && entries == old(entries) && blocks == old(blocks)
                  && tableShift == old(tableShift) && levels == old(levels) && primaryOffset == old(primaryOffset)
      ensures noUserTable == (old(noUserTable) || (!tape && user == 0 && negative == 0 && overflow == 0))
      ensures !tape && (user > 0 || negative > 0 || overflow > 0) ==>
                && blocks == Wrap(user + overflow + negative)
                && ShiftChosen(tableShift, blocks, option, found)
                && levels == (if tableShift > 0 then 2 else 1)
                && Covers(entries, blocks, tableShift)
                && primaryOffset == Align(IMAGE_HEADER_SIZE, alignment)
                && (tableShift == 0 ==> next == primaryOffset)
                && var end := Align(primaryOffset + DDT_HEADER_SIZE + 8 * entries, alignment);
                   tableShift > 0 && end < 0x1_0000_0000_0000_0000 ==> next == end
    {
      hide Pow2;
      SmallAlign(alignment);
      if !tape && user == 0 && negative == 0 && overflow == 0 {
        noUserTable := true;
        next := Align(IMAGE_HEADER_SIZE, alignment);
      } else if !tape {
        blocks := Wrap(user + overflow + negative);
        if option == -1 || !found {
          tableShift := if blocks < AUTOMATIC_LIMIT then 0 else 22;
        } else {
          tableShift := if option > 0 then option else 0;
        }
        levels := if tableShift > 0 then 2 else 1;
        if tableShift >= 63 {
          tableShift := 62;
        }
        entries := CountEntries(blocks, tableShift);
        primaryOffset := Align(IMAGE_HEADER_SIZE, alignment);
        var tableSize := Wrap(entries * 8);
        if tableShift > 0 {
          var start := Wrap(primaryOffset + DDT_HEADER_SIZE + tableSize);
          next := Wrap(Align(start, alignment));
          if Align(primaryOffset + DDT_HEADER_SIZE + 8 * entries, alignment) < 0x1_0000_0000_0000_0000 {
            AlignAtLeast(primaryOffset + DDT_HEADER_SIZE + 8 * entries, alignment);
          }
        } else {
          next := primaryOffset;
        }
      } else {
        next := Align(IMAGE_HEADER_SIZE, alignment);
        isTape := true;
      }
    }
  }

  /** The number of primary entries, by division with the remainder and the empty image rounded up. */
  method CountEntries(blocks: nat, shift: nat) returns (entries: nat)
    ensures Covers(entries, blocks, shift)
  {
    hide Pow2;
    entries := ShiftRight(blocks, shift);
    ghost var e := entries;
    ShiftedBounds(blocks, shift);
    if LowBits(blocks, shift) != 0 || entries == 0 {
      entries := entries + 1;
    }
    assert (e + 1) * Pow2(shift) == e * Pow2(shift) + Pow2(shift);
    assert e == 0 ==> e * Pow2(shift) == 0;
    assert (e - 1) * Pow2(shift) == e * Pow2(shift) - Pow2(shift);
  }

  lemma ShiftedBounds(n: nat, shift: nat)
    ensures ShiftRight(n, shift) * Pow2(shift) <= n < (ShiftRight(n, shift) + 1) * Pow2(shift)
    ensures LowBits(n, shift) == n - ShiftRight(n, shift) * Pow2(shift)
  {
  }

  lemma SmallAlign(alignment: nat)
    requires alignment < 64
    ensures Align(IMAGE_HEADER_SIZE, alignment) < 0x1_0000_0000_0000_0000
  {
    hide Pow2;
    PowersGrow(alignment, 63);
    BigPower();
    if alignment == 63 {
      AlignsToPower(alignment);
    } else {
      PowersGrow(alignment, 62);
    }
  }

  lemma AlignsToPower(alignment: nat)
    requires Pow2(alignment) >= IMAGE_HEADER_SIZE
    ensures Align(IMAGE_HEADER_SIZE, alignment) == Pow2(alignment)
  {
    hide Pow2;
    MultiplesApart(Align(IMAGE_HEADER_SIZE, alignment), Pow2(alignment), Pow2(alignment));
    MultiplesApart(Pow2(alignment), Align(IMAGE_HEADER_SIZE, alignment), Pow2(alignment));
  }

  lemma BigPower()
    ensures Pow2(62) == 0x4000_0000_0000_0000 && Pow2(63) == 0x8000_0000_0000_0000
  {
    assert Pow2(10) == 0x400;
    assert Pow2(20) == 0x10_0000;
    assert Pow2(30) == 0x4000_0000;
    assert Pow2(40) == 0x100_0000_0000;
    assert Pow2(50) == 0x4_0000_0000_0000;
    assert Pow2(60) == 0x1000_0000_0000_0000;
  }

  // ---- The layout is enough ----

  /** Every sector has its slot in the primary table, and the last sector uses the last slot. */
  lemma EverySectorHasASlot(entries: nat, blocks: nat, shift: nat, sector: nat)
    requires Covers(entries, blocks, shift) && sector < blocks
    ensures ShiftRight(sector, shift) < entries
    ensures sector == blocks - 1 ==> ShiftRight(sector, shift) == entries - 1
  {
    hide Pow2, ShiftRight;
    var q, p := ShiftRight(sector, shift), Pow2(shift);
    ShiftedBounds(sector, shift);
    MulAtLeast(p, q - entries);
    assert p * (q - entries) == q * p - entries * p;
    if sector == blocks - 1 && entries > 1 {
      MulAtLeast(p, (q + 1) - (entries - 1));
      assert p * ((q + 1) - (entries - 1)) == (q + 1) * p - (entries - 1) * p;
      assert q + 1 == entries - 1 ==> (q + 1) * p == (entries - 1) * p;
    }
    assert q == entries ==> q * p == entries * p;
  }

  /** The region between the primary table's offset and the first data block holds the table's header and
      all its entries, so that every rewrite of either stays in front of the data; and a data block can
      start there. */
  lemma RegionIsEnough(c: Context, alignment: nat)
    requires c.tableShift > 0 && c.primaryOffset == Align(IMAGE_HEADER_SIZE, alignment)
    requires c.next == Align(c.primaryOffset + DDT_HEADER_SIZE + 8 * c.entries, alignment)
    ensures var l := Layout(c.primaryOffset, c.primaryOffset + DDT_HEADER_SIZE + 8 * c.entries, alignment);
            && Reserved(l, c.primaryOffset, c.entries)
            && l.hi <= c.next && IMAGE_HEADER_SIZE <= c.next
            && c.primaryOffset % Pow2(alignment) == 0 && c.next % Pow2(alignment) == 0
            && forall end :: c.next <= end ==> l.hi <= Align(end, alignment)
  {
    hide Pow2, Align;
    AlignAtLeast(IMAGE_HEADER_SIZE, alignment);
    AlignAtLeast(c.primaryOffset + DDT_HEADER_SIZE + 8 * c.entries, alignment);
    forall end | c.next <= end
      ensures c.next <= Align(end, alignment)
    {
      AlignAtLeast(end, alignment);
    }
  }
}
