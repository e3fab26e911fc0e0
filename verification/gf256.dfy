/** Arithmetic in GF(2^8) with the polynomial x^8 + x^4 + x^3 + x^2 + 1, as src/lib/gf256.c
    computes it: through logarithm and antilogarithm tables of the generator 2.

    `Mul` is the table product.  The lemmas show that it makes the 256 bytes a field; every later
    module reasons through these lemmas only and hides the definitions.
 */
module GF256 {
  import opened Octet

  /** Addition (and subtraction) is exclusive or. */
  function Add(a: byte, b: byte): byte {
    a ^ b
  }

  /** The carry out of the top bit, reduced: 0x100 becomes 0x11D - 0x100. */
  function Reduce(top: byte): byte {
    if top == 0 then 0 else 0x1D
  }

  /** Multiplication by the generator 2: `x <<= 1; if(x & 0x100) x ^= 0x11D`. */
  function Double(a: byte): byte {
    (a << 1) ^ Reduce(a & 0x80)
  }

  /** `n` doublings of `a`. */
  function Doubles(a: byte, n: nat): byte
    decreases n
  {
    if n == 0 then a else Double(Doubles(a, n - 1))
  }

  /** 2^n; the contents of the antilogarithm table. */
  function Exp(n: nat): byte {
    Doubles(1, n)
  }

  /** The discrete logarithm of a nonzero byte, below 255. */
  function Log(a: byte): (i: nat)
    requires a != 0
    ensures i < 255 && Exp(i) == a
  {
    EveryByteIsAPower(a);
    PowersAreDistinctAll();
    var i: nat :| i < 255 && Exp(i) == a;
    i
  }

  /** The product read from the tables. */
  function Mul(a: byte, b: byte): byte {
    if a == 0 || b == 0 then 0 else Exp(Log(a) + Log(b))
  }

  /** The inverse read from the tables. */
  function Inv(a: byte): byte
    requires a != 0
  {
    Exp(255 - Log(a))
  }

  // ---- Doubling is linear and injective ----

  lemma AddLaws(a: byte, b: byte, c: byte)
    ensures Add(a, b) == Add(b, a)
    ensures Add(Add(a, b), c) == Add(a, Add(b, c))
    ensures Add(a, 0) == a && Add(0, a) == a && Add(a, a) == 0
  {
  }

  lemma AddCancel(a: byte, b: byte)
    ensures Add(a, b) == 0 <==> a == b
  {
    assert (a ^ b) ^ b == a;
    assert b ^ b == 0;
  }

  lemma AddSwap(a: byte, b: byte, c: byte, d: byte)
    ensures Add(Add(a, b), Add(c, d)) == Add(Add(a, c), Add(b, d))
  {
    hide Add;
    AddLaws(a, b, Add(c, d));
    AddLaws(b, c, d);
    AddLaws(c, b, d);
    AddLaws(a, c, Add(b, d));
  }

  lemma TopBit(a: byte)
    ensures a & 0x80 == 0 || a & 0x80 == 0x80
  {
  }

  lemma ReduceAdd(s: byte, t: byte)
    requires (s == 0 || s == 0x80) && (t == 0 || t == 0x80)
    ensures Reduce(s ^ t) == Reduce(s) ^ Reduce(t)
  {
  }

  lemma ShiftAdd(a: byte, b: byte)
    ensures (a ^ b) << 1 == (a << 1) ^ (b << 1)
    ensures (a ^ b) & 0x80 == (a & 0x80) ^ (b & 0x80)
  {
  }

  lemma XorSwap(a: byte, b: byte, c: byte, d: byte)
    ensures (a ^ b) ^ (c ^ d) == (a ^ c) ^ (b ^ d)
  {
  }

  lemma DoubleAdd(a: byte, b: byte)
    ensures Double(a ^ b) == Double(a) ^ Double(b)
    ensures Double(Add(a, b)) == Add(Double(a), Double(b))
  {
    hide Reduce;
    var p, q := Reduce(a & 0x80), Reduce(b & 0x80);
    ShiftAdd(a, b);
    assert Reduce((a ^ b) & 0x80) == p ^ q by {
      TopBit(a);
      TopBit(b);
      ReduceAdd(a & 0x80, b & 0x80);
    }
    XorSwap(a << 1, b << 1, p, q);
  }

  lemma DoubleZero(a: byte)
    ensures Double(a) == 0 <==> a == 0
  {
    TopBit(a);
    if a & 0x80 == 0x80 {
      assert (a << 1) & 1 == 0;
      assert (0x1D as bv8) & 1 == 1;
    } else if a << 1 == 0 {
      assert a == 0;
    }
  }

  lemma DoubleInjective(a: byte, b: byte)
    requires Double(a) == Double(b)
    ensures a == b
  {
    DoubleAdd(a, b);
    AddCancel(Double(a), Double(b));
    DoubleZero(Add(a, b));
    AddCancel(a, b);
  }

  // ---- The generator has order 255 ----

  lemma DoublesSplit(a: byte, m: nat, n: nat)
    ensures Doubles(a, m + n) == Doubles(Doubles(a, m), n)
    decreases n
  {
    if n > 0 {
      DoublesSplit(a, m, n - 1);
    }
  }

  lemma DoublesInjective(a: byte, b: byte, n: nat)
    requires Doubles(a, n) == Doubles(b, n)
    ensures a == b
    decreases n
  {
    if n > 0 {
      DoubleInjective(Doubles(a, n - 1), Doubles(b, n - 1));
      DoublesInjective(a, b, n - 1);
    }
  }

  lemma NextPower(n: nat)
    ensures Exp(0) == 1 && Exp(n + 1) == Double(Exp(n))
  {
  }

  function FiveDoubles(a: byte): byte {
    Double(Double(Double(Double(Double(a)))))
  }

  predicate FiveAvoidOne(a: byte) {
    a != 1 && Double(a) != 1 && Double(Double(a)) != 1 && Double(Double(Double(a))) != 1
    && Double(Double(Double(Double(a)))) != 1
  }

  lemma Five(a: byte, n: nat)
    ensures Doubles(a, 5) == FiveDoubles(a)
    ensures FiveAvoidOne(a) && n < 5 ==> Doubles(a, n) != 1
  {
    hide Double;
    assert Doubles(a, 1) == Double(Doubles(a, 0));
    assert Doubles(a, 2) == Double(Doubles(a, 1));
    assert Doubles(a, 3) == Double(Doubles(a, 2));
    assert Doubles(a, 4) == Double(Doubles(a, 3));
    assert Doubles(a, 5) == Double(Doubles(a, 4));
  }

  lemma StretchOfFive(i: nat, first: byte)
    requires Exp(i) == first && FiveAvoidOne(first)
    ensures Exp(i + 5) == FiveDoubles(first)
    ensures forall n: nat {:trigger Exp(n)} :: i <= n < i + 5 ==> Exp(n) != 1
  {
    hide FiveDoubles, FiveAvoidOne, Double;
    DoublesSplit(1, i, 5);
    Five(first, 0);
    forall n: nat {:trigger Exp(n)} | i <= n < i + 5
      ensures Exp(n) != 1
    {
      DoublesSplit(1, i, n - i);
      Five(first, n - i);
    }
  }

  /** Fifteen consecutive powers, from 2^i = `first`, avoid 1; the next one is `last`. */
  lemma StretchOfPowers(i: nat, first: byte, last: byte)
    requires Exp(i) == first
    requires FiveDoubles(FiveDoubles(FiveDoubles(first))) == last
    requires FiveAvoidOne(first) && FiveAvoidOne(FiveDoubles(first))
    requires FiveAvoidOne(FiveDoubles(FiveDoubles(first)))
    ensures Exp(i + 15) == last
    ensures forall n: nat {:trigger Exp(n)} :: i <= n < i + 15 ==> Exp(n) != 1
  {
    hide FiveDoubles, FiveAvoidOne, Exp;
    StretchOfFive(i, first);
    StretchOfFive(i + 5, FiveDoubles(first));
    StretchOfFive(i + 10, FiveDoubles(FiveDoubles(first)));
  }

  lemma Powers1To31(n: nat)
    requires Exp(1) == 2
    ensures Exp(31) == 192
    ensures 1 <= n < 31 ==> Exp(n) != 1
  {
    hide Exp;
    StretchOfPowers(1, 2, 76);
    StretchOfPowers(16, 76, 192);
  }

  lemma Powers31To61(n: nat)
    requires Exp(31) == 192
    ensures Exp(61) == 111
    ensures 31 <= n < 61 ==> Exp(n) != 1
  {
    hide Exp;
    StretchOfPowers(31, 192, 159);
    StretchOfPowers(46, 159, 111);
  }

  lemma Powers61To91(n: nat)
    requires Exp(61) == 111
    ensures Exp(91) == 163
    ensures 61 <= n < 91 ==> Exp(n) != 1
  {
    hide Exp;
    StretchOfPowers(61, 111, 30);
    StretchOfPowers(76, 30, 163);
  }

  lemma Powers91To121(n: nat)
    requires Exp(91) == 163
    ensures Exp(121) == 118
    ensures 91 <= n < 121 ==> Exp(n) != 1
  {
    hide Exp;
    StretchOfPowers(91, 163, 52);
    StretchOfPowers(106, 52, 118);
  }

  lemma Powers121To151(n: nat)
    requires Exp(121) == 118
    ensures Exp(151) == 170
    ensures 121 <= n < 151 ==> Exp(n) != 1
  {
    hide Exp;
    StretchOfPowers(121, 118, 79);
    StretchOfPowers(136, 79, 170);
  }

  lemma Powers151To181(n: nat)
    requires Exp(151) == 170
    ensures Exp(181) == 49
    ensures 151 <= n < 181 ==> Exp(n) != 1
  {
    hide Exp;
    StretchOfPowers(151, 170, 63);
    StretchOfPowers(166, 63, 49);
  }

  lemma Powers181To211(n: nat)
    requires Exp(181) == 49
    ensures Exp(211) == 178
    ensures 181 <= n < 211 ==> Exp(n) != 1
  {
    hide Exp;
    StretchOfPowers(181, 49, 200);
    StretchOfPowers(196, 200, 178);
  }

  lemma Powers211To241(n: nat)
    requires Exp(211) == 178
    ensures Exp(241) == 88
    ensures 211 <= n < 241 ==> Exp(n) != 1
  {
    hide Exp;
    StretchOfPowers(211, 178, 72);
    StretchOfPowers(226, 72, 88);
  }

  /** The order of 2 is exactly 255. */
  lemma OrderOfGenerator(n: nat)
    ensures Exp(255) == 1
    ensures 1 <= n < 255 ==> Exp(n) != 1
  {
    assert Exp(1) == Double(Doubles(1, 0)) == 2;
    hide Exp, Double;
    Powers1To31(n);
    Powers31To61(n);
    Powers61To91(n);
    Powers91To121(n);
    Powers121To151(n);
    Powers151To181(n);
    Powers181To211(n);
    Powers211To241(n);
    LastPowers(n);
  }

  lemma LastPowers(n: nat)
    requires Exp(241) == 88
    ensures Exp(255) == 1
    ensures 241 <= n < 255 ==> Exp(n) != 1
  {
    hide Exp, FiveDoubles, FiveAvoidOne, Double;
    FinalFour();
    StretchOfFive(241, 88);
    StretchOfFive(246, FiveDoubles(88));
    NextPower(251);
    NextPower(252);
    NextPower(253);
    NextPower(254);
  }

  lemma FinalFour()
    ensures FiveAvoidOne(88) && FiveAvoidOne(FiveDoubles(88))
    ensures var b := FiveDoubles(FiveDoubles(88));
            b != 1 && Double(b) != 1 && Double(Double(b)) != 1 && Double(Double(Double(b))) != 1
            && Double(Double(Double(Double(b)))) == 1
  {
  }

  lemma PowersAreDistinct(i: nat, j: nat)
    requires i < j < 255
    ensures Exp(i) != Exp(j)
  {
    if Exp(i) == Exp(j) {
      DoublesSplit(1, j - i, i);
      DoublesInjective(Exp(j - i), 1, i);
      OrderOfGenerator(j - i);
    }
  }

  lemma PowersAreDistinctAll()
    ensures forall i: nat, j: nat {:trigger Exp(i), Exp(j)} :: i < 255 && j < 255 && Exp(i) == Exp(j) ==> i == j
  {
    hide Exp;
    forall i: nat, j: nat {:trigger Exp(i), Exp(j)} | i < 255 && j < 255 && Exp(i) == Exp(j)
      ensures i == j
    {
      if i < j {
        PowersAreDistinct(i, j);
      } else if j < i {
        PowersAreDistinct(j, i);
      }
    }
  }

  lemma PowerIsNonzero(n: nat)
    ensures Exp(n) != 0
  {
    if n > 0 {
      PowerIsNonzero(n - 1);
      DoubleZero(Exp(n - 1));
    }
  }

  /** The values taken by the first `n` powers. */
  ghost function PowerValues(n: nat): set<int> {
    if n == 0 then {} else PowerValues(n - 1) + {Value(Exp(n - 1))}
  }

  ghost function Interval(n: nat): (s: set<int>)
    ensures forall x :: x in s <==> 1 <= x <= n
    ensures |s| == n
  {
    if n == 0 then {} else Interval(n - 1) + {n}
  }

  lemma WhichPower(v: int, n: nat) returns (i: nat)
    requires v in PowerValues(n)
    ensures i < n && Value(Exp(i)) == v
  {
    hide Exp, Value;
    if v == Value(Exp(n - 1)) {
      i := n - 1;
    } else {
      i := WhichPower(v, n - 1);
    }
  }

  lemma PowerValuesSize(n: nat)
    requires n <= 255
    ensures |PowerValues(n)| == n
    ensures forall v :: v in PowerValues(n) ==> 1 <= v <= 255
  {
    hide Exp, Value;
    if n > 0 {
      PowerValuesSize(n - 1);
      NewPower(n - 1);
    }
  }

  lemma NewPower(n: nat)
    requires n < 255
    ensures Value(Exp(n)) !in PowerValues(n) && 1 <= Value(Exp(n)) <= 255
  {
    hide Exp, Value, PowerValues;
    PowerIsNonzero(n);
    ValueZero(Exp(n));
    ValueRange(Exp(n));
    if Value(Exp(n)) in PowerValues(n) {
      var i := WhichPower(Value(Exp(n)), n);
      ValueInjective(Exp(i), Exp(n));
      PowersAreDistinct(i, n);
    }
  }

  lemma ValueRange(b: byte)
    ensures 0 <= Value(b) <= 255
  {
  }

  lemma SubsetOfEqualSize(small: set<int>, large: set<int>)
    requires small <= large && |small| == |large|
    ensures small == large
  {
    assert large == small + (large - small);
  }

  /** 255 distinct nonzero powers leave no nonzero byte out. */
  lemma EveryByteIsAPower(a: byte)
    requires a != 0
    ensures exists i: nat {:trigger Exp(i)} :: i < 255 && Exp(i) == a
  {
    hide Exp, Value, PowerValues;
    PowerValuesSize(255);
    SubsetOfEqualSize(PowerValues(255), Interval(255));
    ValueZero(a);
    var i := WhichPower(Value(a), 255);
    ValueInjective(Exp(i), a);
  }

  // ---- The field laws of the table product ----

  lemma DoublesAdd(a: byte, b: byte, n: nat)
    ensures Doubles(Add(a, b), n) == Add(Doubles(a, n), Doubles(b, n))
    decreases n
  {
    hide Add, Double;
    if n > 0 {
      DoublesAdd(a, b, n - 1);
      DoubleAdd(Doubles(a, n - 1), Doubles(b, n - 1));
    }
  }

  lemma DoublesZero(n: nat)
    ensures Doubles(0, n) == 0
  {
    if n > 0 {
      DoublesZero(n - 1);
      DoubleZero(0);
    }
  }

  lemma MulIsDoubles(a: byte, b: byte)
    requires b != 0
    ensures Mul(a, b) == Doubles(a, Log(b))
  {
    if a == 0 {
      DoublesZero(Log(b));
    } else {
      DoublesSplit(1, Log(a), Log(b));
    }
  }

  lemma LogOfPower(n: nat)
    requires n < 255
    ensures Exp(n) != 0 && Log(Exp(n)) == n
  {
    hide Exp;
    PowerIsNonzero(n);
    PowersAreDistinctAll();
  }

  lemma PowerPeriod(n: nat)
    ensures Exp(n + 255) == Exp(n)
  {
    OrderOfGenerator(0);
    DoublesSplit(1, 255, n);
  }

  lemma MulPowers(i: nat, j: nat)
    ensures Mul(Exp(i), Exp(j)) == Exp(i + j)
    decreases i + j
  {
    hide Exp;
    if i >= 255 {
      PowerPeriod(i - 255);
      PowerPeriod(i - 255 + j);
      MulPowers(i - 255, j);
    } else if j >= 255 {
      PowerPeriod(j - 255);
      PowerPeriod(i + j - 255);
      MulPowers(i, j - 255);
    } else {
      LogOfPower(i);
      LogOfPower(j);
    }
  }

  lemma MulComm(a: byte, b: byte)
    ensures Mul(a, b) == Mul(b, a)
  {
  }

  lemma MulZero(a: byte, b: byte)
    ensures Mul(0, a) == 0 && Mul(a, 0) == 0
    ensures Mul(a, b) == 0 <==> a == 0 || b == 0
  {
    if a != 0 && b != 0 {
      PowerIsNonzero(Log(a) + Log(b));
    }
  }

  lemma MulOne(a: byte)
    ensures Mul(1, a) == a && Mul(a, 1) == a
  {
    LogOfPower(0);
  }

  lemma MulAssoc(a: byte, b: byte, c: byte)
    ensures Mul(Mul(a, b), c) == Mul(a, Mul(b, c))
  {
    if a != 0 && b != 0 && c != 0 {
      var i, j, k := Log(a), Log(b), Log(c);
      hide Exp;
      MulPowers(i, j);
      MulPowers(i + j, k);
      MulPowers(j, k);
      MulPowers(i, j + k);
      assert i + j + k == i + (j + k);
    }
  }

  lemma MulAdd(a: byte, b: byte, c: byte)
    ensures Mul(Add(a, b), c) == Add(Mul(a, c), Mul(b, c))
    ensures Mul(c, Add(a, b)) == Add(Mul(c, a), Mul(c, b))
  {
    if c == 0 {
      assert Add(0, 0) == 0;
    } else {
      MulIsDoubles(Add(a, b), c);
      MulIsDoubles(a, c);
      MulIsDoubles(b, c);
      DoublesAdd(a, b, Log(c));
    }
    MulComm(Add(a, b), c);
    MulComm(a, c);
    MulComm(b, c);
  }

  lemma MulInv(a: byte)
    requires a != 0
    ensures Mul(a, Inv(a)) == 1 && Mul(Inv(a), a) == 1
  {
    MulPowers(Log(a), 255 - Log(a));
    OrderOfGenerator(0);
    MulComm(a, Inv(a));
  }

  // ---- The tables and the operations on them ----

  /** The two tables agree with `Exp` and `Log`. */
  ghost predicate TablesReady(exp: array<byte>, log: array<nat>)
    reads exp, log
  {
    && exp.Length == 512 && log.Length == 256
    && (forall i: nat {:trigger exp[i]} :: i < 511 ==> exp[i] == Exp(i))
    && (forall i: nat {:trigger Exp(i)} :: i < 255 ==> log[Value(Exp(i))] == i)
  }

  lemma ValuesDistinct(i: nat, x: byte)
    requires i < 255 && x == Exp(i)
    ensures forall j: nat {:trigger Exp(j)} :: j < i ==> Value(Exp(j)) != Value(x)
  {
    hide Exp, Value;
    forall j: nat {:trigger Exp(j)} | j < i
      ensures Value(Exp(j)) != Value(x)
    {
      PowersAreDistinct(j, i);
      if Value(Exp(j)) == Value(x) { ValueInjective(Exp(j), x); }
    }
  }

  lemma PowerValueIsNonzero(n: nat)
    ensures Value(Exp(n)) != 0
  {
    hide Value;
    PowerIsNonzero(n);
    ValueZero(Exp(n));
  }

  method InitTables() returns (exp: array<byte>, log: array<nat>)
    ensures fresh(exp) && fresh(log) && TablesReady(exp, log)
  {
    hide Double, Exp, Value;
    exp := new byte[512];
    log := new nat[256];
    var x: byte := 1;
    NextPower(0);
    for i := 0 to 255
      invariant x == Exp(i)
      invariant forall j: nat {:trigger exp[j]} :: j < i ==> exp[j] == Exp(j)
      invariant forall j: nat {:trigger exp[j]} :: 255 <= j < i + 255 ==> exp[j] == Exp(j - 255)
      invariant forall j: nat {:trigger Exp(j)} :: j < i ==> log[Value(Exp(j))] == j
    {
      ValuesDistinct(i, x);
      NextPower(i);
      PowerValueIsNonzero(i);
      exp[i] := x;
      exp[i + 255] := x;
      log[Value(x)] := i;
      x := Double(x);
    }
    ValueZero(0);
    forall i: nat | i < 255
      ensures Exp(i + 255) == Exp(i) && Value(Exp(i)) != 0
    {
      PowerPeriod(i);
      PowerValueIsNonzero(i);
    }
    log[0] := 0;
    exp[510] := exp[0];
    exp[511] := exp[1];
    PowerPeriod(255);
  }

  /** The scalar product, read from the tables. */
  method Multiply(exp: array<byte>, log: array<nat>, a: byte, b: byte) returns (r: byte)
    requires TablesReady(exp, log)
    ensures r == Mul(a, b)
  {
    hide Exp, Value;
    if a == 0 || b == 0 {
      return 0;
    }
    assert Exp(Log(a)) == a && Exp(Log(b)) == b;
    r := exp[log[Value(a)] + log[Value(b)]];
  }

  /** The scalar inverse, read from the tables. */
  method Inverse(exp: array<byte>, log: array<nat>, a: byte) returns (r: byte)
    requires TablesReady(exp, log) && a != 0
    ensures r == Inv(a) && Mul(a, r) == 1
  {
    hide Exp, Value;
    assert Exp(Log(a)) == a;
    r := exp[255 - log[Value(a)]];
    MulInv(a);
  }

  lemma NibbleSplit(b: byte)
    ensures Value(b & 0x0F) < 16 && FromValue(Value(b & 0x0F)) == b & 0x0F
    ensures Value(b >> 4) < 16 && FromValue(Value(b >> 4)) == b >> 4
    ensures Add(b & 0x0F, (b >> 4) << 4) == b
  {
    hide Value, FromValue;
    LowNibble(b);
    HighNibble(b);
    ByteRoundTrip(b & 0x0F);
    ByteRoundTrip(b >> 4);
  }

  /** Multiply and accumulate a region: `dst[i] ^= coeff * src[i]`, through the two nibble tables of
      the portable path. */
  method MulRegion(dst: array<byte>, src: array<byte>, coeff: byte, len: nat)
    requires dst != src
    requires len <= dst.Length && len <= src.Length
    modifies dst
    ensures forall i :: 0 <= i < len ==> dst[i] == Add(old(dst[i]), Mul(coeff, src[i]))
    ensures forall i :: len <= i < dst.Length ==> dst[i] == old(dst[i])
  {
    hide Mul, Value, FromValue, Add;
    if coeff == 0 {
      forall i | 0 <= i < len
        ensures dst[i] == Add(dst[i], Mul(coeff, src[i]))
      {
        MulZero(src[i], 0);
        AddLaws(dst[i], 0, 0);
      }
      return;
    }
    if coeff == 1 {
      for i := 0 to len
        invariant forall j :: 0 <= j < i ==> dst[j] == Add(old(dst[j]), Mul(coeff, src[j]))
        invariant forall j :: i <= j < dst.Length ==> dst[j] == old(dst[j])
      {
        MulOne(src[i]);
        dst[i] := Add(dst[i], src[i]);
      }
      return;
    }
    var low := new byte[16];
    var high := new byte[16];
    for i := 0 to 16
      modifies low, high
      invariant forall j :: 0 <= j < i ==> low[j] == Mul(FromValue(j), coeff)
      invariant forall j :: 0 <= j < i ==> high[j] == Mul(FromValue(j) << 4, coeff)
    {
      low[i] := Mul(FromValue(i), coeff);
      high[i] := Mul(FromValue(i) << 4, coeff);
    }
    for i := 0 to len
      invariant forall j :: 0 <= j < 16 ==> low[j] == Mul(FromValue(j), coeff)
      invariant forall j :: 0 <= j < 16 ==> high[j] == Mul(FromValue(j) << 4, coeff)
      invariant forall j :: 0 <= j < i ==> dst[j] == Add(old(dst[j]), Mul(coeff, src[j]))
      invariant forall j :: i <= j < dst.Length ==> dst[j] == old(dst[j])
    {
      var b := src[i];
      NibbleSplit(b);
      MulAdd(b & 0x0F, (b >> 4) << 4, coeff);
      MulComm(coeff, b);
      dst[i] := Add(dst[i], Add(low[Value(b & 0x0F)], high[Value(b >> 4)]));
    }
  }
}
