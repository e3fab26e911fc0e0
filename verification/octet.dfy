/** Bytes and their integer values. */
module Octet {

  type byte = bv8
  type digit = d: nat | d < 2

  function Bit(b: byte, mask: byte): digit {
    if b & mask == 0 then 0 else 1
  }

  function Put(d: nat, mask: byte): byte {
    if d % 2 == 0 then 0 else mask
  }

  /** The number with the given binary digits, lowest first. */
  function Nibble(d0: digit, d1: digit, d2: digit, d3: digit): (v: nat)
    ensures v < 16
  {
    d0 + 2 * (d1 + 2 * (d2 + 2 * d3))
  }

  /** The number that the four lowest binary digits of `n` make. */
  function Digits(n: nat): nat {
    Nibble(n % 2, n / 2 % 2, n / 4 % 2, n / 8 % 2)
  }

  function Low(b: byte): (v: nat)
    ensures v < 16
  {
    Nibble(Bit(b, 0x01), Bit(b, 0x02), Bit(b, 0x04), Bit(b, 0x08))
  }

  function High(b: byte): (v: nat)
    ensures v < 16
  {
    Nibble(Bit(b, 0x10), Bit(b, 0x20), Bit(b, 0x40), Bit(b, 0x80))
  }

  /** The value of a byte. */
  function Value(b: byte): (v: nat)
    ensures v < 256
  {
    Low(b) + 16 * High(b)
  }

  function FromNibbles(lo: nat, hi: nat): byte {
    Put(lo, 0x01) | Put(lo / 2, 0x02) | Put(lo / 4, 0x04) | Put(lo / 8, 0x08)
    | Put(hi, 0x10) | Put(hi / 2, 0x20) | Put(hi / 4, 0x40) | Put(hi / 8, 0x80)
  }

  /** The byte with a given value. */
  function FromValue(n: nat): byte
    requires n < 256
  {
    FromNibbles(n % 16, n / 16)
  }

  lemma Masks(b0: byte, b1: byte, b2: byte, b3: byte, b4: byte, b5: byte, b6: byte, b7: byte)
    requires (b0 == 0 || b0 == 0x01) && (b1 == 0 || b1 == 0x02) && (b2 == 0 || b2 == 0x04) && (b3 == 0 || b3 == 0x08)
    requires (b4 == 0 || b4 == 0x10) && (b5 == 0 || b5 == 0x20) && (b6 == 0 || b6 == 0x40) && (b7 == 0 || b7 == 0x80)
    ensures var b := b0 | b1 | b2 | b3 | b4 | b5 | b6 | b7;
            b & 0x01 == b0 && b & 0x02 == b1 && b & 0x04 == b2 && b & 0x08 == b3
            && b & 0x10 == b4 && b & 0x20 == b5 && b & 0x40 == b6 && b & 0x80 == b7
  {
  }

  lemma BitOfPut(b: byte, d: nat, mask: byte)
    requires mask != 0 && b & mask == Put(d, mask)
    ensures Bit(b, mask) == d % 2
  {
  }

  lemma PutIsMask(d: nat, mask: byte)
    ensures Put(d, mask) == 0 || Put(d, mask) == mask
  {
  }

  lemma BitsOfNibbles(lo: nat, hi: nat)
    ensures var b := FromNibbles(lo, hi);
            Low(b) == Digits(lo) && High(b) == Digits(hi)
  {
    hide Bit, Put, Nibble;
    PutIsMask(lo, 0x01);
    PutIsMask(lo / 2, 0x02);
    PutIsMask(lo / 4, 0x04);
    PutIsMask(lo / 8, 0x08);
    PutIsMask(hi, 0x10);
    PutIsMask(hi / 2, 0x20);
    PutIsMask(hi / 4, 0x40);
    PutIsMask(hi / 8, 0x80);
    Masks(Put(lo, 0x01), Put(lo / 2, 0x02), Put(lo / 4, 0x04), Put(lo / 8, 0x08),
          Put(hi, 0x10), Put(hi / 2, 0x20), Put(hi / 4, 0x40), Put(hi / 8, 0x80));
    var b := FromNibbles(lo, hi);
    BitOfPut(b, lo, 0x01);
    BitOfPut(b, lo / 2, 0x02);
    BitOfPut(b, lo / 4, 0x04);
    BitOfPut(b, lo / 8, 0x08);
    BitOfPut(b, hi, 0x10);
    BitOfPut(b, hi / 2, 0x20);
    BitOfPut(b, hi / 4, 0x40);
    BitOfPut(b, hi / 8, 0x80);
  }

  lemma NibbleDigits(n: nat)
    requires n < 16
    ensures Digits(n) == n
  {
    var half := n / 2;
    var quarter := half / 2;
    assert n == 2 * half + n % 2;
    assert half == 2 * quarter + half % 2;
    assert n / 4 == quarter;
    assert n / 8 == quarter / 2;
  }

  lemma NibbleUnique(a0: digit, a1: digit, a2: digit, a3: digit, b0: digit, b1: digit, b2: digit, b3: digit)
    requires Nibble(a0, a1, a2, a3) == Nibble(b0, b1, b2, b3)
    ensures a0 == b0 && a1 == b1 && a2 == b2 && a3 == b3
  {
  }

  lemma ValueRoundTrip(n: nat)
    requires n < 256
    ensures Value(FromValue(n)) == n
  {
    hide Low, High, FromNibbles, Digits;
    BitsOfNibbles(n % 16, n / 16);
    NibbleDigits(n % 16);
    NibbleDigits(n / 16);
  }

  lemma SameBit(a: byte, b: byte, mask: byte)
    requires mask in [0x01, 0x02, 0x04, 0x08, 0x10, 0x20, 0x40, 0x80]
    requires Bit(a, mask) == Bit(b, mask)
    ensures a & mask == b & mask
  {
  }

  lemma BitsDetermine(a: byte, b: byte)
    requires a & 0x01 == b & 0x01 && a & 0x02 == b & 0x02 && a & 0x04 == b & 0x04 && a & 0x08 == b & 0x08
    requires a & 0x10 == b & 0x10 && a & 0x20 == b & 0x20 && a & 0x40 == b & 0x40 && a & 0x80 == b & 0x80
    ensures a == b
  {
  }

  lemma NibblesDetermine(a: byte, b: byte)
    requires Low(a) == Low(b) && High(a) == High(b)
    ensures a == b
  {
    hide Bit, Nibble;
    NibbleUnique(Bit(a, 0x01), Bit(a, 0x02), Bit(a, 0x04), Bit(a, 0x08),
                 Bit(b, 0x01), Bit(b, 0x02), Bit(b, 0x04), Bit(b, 0x08));
    NibbleUnique(Bit(a, 0x10), Bit(a, 0x20), Bit(a, 0x40), Bit(a, 0x80),
                 Bit(b, 0x10), Bit(b, 0x20), Bit(b, 0x40), Bit(b, 0x80));
    SameBit(a, b, 0x01);
    SameBit(a, b, 0x02);
    SameBit(a, b, 0x04);
    SameBit(a, b, 0x08);
    SameBit(a, b, 0x10);
    SameBit(a, b, 0x20);
    SameBit(a, b, 0x40);
    SameBit(a, b, 0x80);
    BitsDetermine(a, b);
  }

  lemma ValueInjective(a: byte, b: byte)
    requires Value(a) == Value(b)
    ensures a == b
  {
    hide Low, High;
    NibblesDetermine(a, b);
  }

  lemma ZeroHasNoBits(mask: byte)
    ensures Bit(0, mask) == 0
  {
    assert 0 & mask == 0;
  }

  lemma ValueOfZero()
    ensures Value(0) == 0
  {
    hide Bit;
    ZeroHasNoBits(0x01);
    ZeroHasNoBits(0x02);
    ZeroHasNoBits(0x04);
    ZeroHasNoBits(0x08);
    ZeroHasNoBits(0x10);
    ZeroHasNoBits(0x20);
    ZeroHasNoBits(0x40);
    ZeroHasNoBits(0x80);
  }

  lemma ValueZero(b: byte)
    ensures Value(b) == 0 <==> b == 0
  {
    hide Value;
    ValueOfZero();
    if Value(b) == 0 {
      ValueInjective(b, 0);
    }
  }

  lemma ByteRoundTrip(b: byte)
    ensures FromValue(Value(b)) == b
  {
    hide Value, FromValue;
    ValueRoundTrip(Value(b));
    ValueInjective(FromValue(Value(b)), b);
  }

  lemma LowNibble(b: byte)
    ensures Value(b & 0x0F) < 16
  {
    assert (b & 0x0F) & 0x10 == 0 && (b & 0x0F) & 0x20 == 0 && (b & 0x0F) & 0x40 == 0 && (b & 0x0F) & 0x80 == 0;
  }

  lemma HighNibble(b: byte)
    ensures Value(b >> 4) < 16
  {
    assert (b >> 4) & 0x10 == 0 && (b >> 4) & 0x20 == 0 && (b >> 4) & 0x40 == 0 && (b >> 4) & 0x80 == 0;
  }
}
