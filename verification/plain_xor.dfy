/** When the code with one parity shard is a plain exclusive or.

    src/lib/reed_solomon.h promises that with one parity shard every coefficient is 1.  The coefficients
    are ratios of products of differences of the points 0 to K.  They are all equal exactly when those
    points are closed under exclusive or, that is when K+1 is a power of two.
 */
module PlainXor {
  import opened Octet
  import opened GF256
  import opened Linear
  import opened Polynomial
  import opened ReedSolomon

  // ---- Coefficients as ratios of products ----

  /** The product of `x - i` over the points `i` below `n`, leaving out point `j`. */
  function Except(x: byte, j: nat, n: nat): byte
    requires n <= 256
  {
    if n == 0 then 1
    else if n - 1 == j then Except(x, j, n - 1)
    else Mul(Except(x, j, n - 1), Add(x, Point(n - 1)))
  }

  /** A polynomial that vanishes at all points below `n` but `j`, and has no more coefficients than that
      leaves it, is proportional to their product. */
  lemma {:induction false} Proportional(p: Vec, j: nat, n: nat, x: byte, y: byte)
    requires n <= 256 && |p| == if j < n then n else n + 1
    requires forall i :: 0 <= i < n && i != j ==> Eval(p, Point(i)) == 0
    ensures Mul(Eval(p, x), Except(y, j, n)) == Mul(Eval(p, y), Except(x, j, n))
    decreases n
  {
    hide Mul, Add, Eval, Point, Quotient;
    if n == 0 {
      EvalConstant(p, x);
      EvalConstant(p, y);
    } else if n - 1 == j {
      Proportional(p, j, n - 1, x, y);
    } else {
      var a := Point(n - 1);
      var q := Quotient(p, a);
      forall i | 0 <= i < n - 1 && i != j
        ensures Eval(q, Point(i)) == 0
      {
        var b := Point(i);
        DivideRoot(p, a, b);
        if b == a { PointsDistinct(i, n - 1); }
        AddCancel(b, a);
        MulZero(Add(b, a), Eval(q, b));
      }
      Proportional(q, j, n - 1, x, y);
      DivideRoot(p, a, x);
      DivideRoot(p, a, y);
      Exchange(Add(x, a), Eval(q, x), Except(y, j, n - 1), Add(y, a));
      Exchange(Add(y, a), Eval(q, y), Except(x, j, n - 1), Add(x, a));
      MulComm(Add(x, a), Add(y, a));
    }
  }

  lemma EvalConstant(p: Vec, x: byte)
    requires |p| == 1
    ensures Eval(p, x) == p[0]
  {
    hide Mul, Add;
    MulZero(x, 0);
    AddLaws(p[0], 0, 0);
  }

  lemma DivideRoot(p: Vec, a: byte, b: byte)
    requires Eval(p, a) == 0
    ensures Eval(p, b) == Mul(Add(b, a), Eval(Quotient(p, a), b))
  {
    hide Mul, Add, Eval, Quotient;
    Division(p, a, b);
    AddLaws(Mul(Add(b, a), Eval(Quotient(p, a), b)), 0, 0);
  }

  lemma Exchange(a: byte, b: byte, c: byte, d: byte)
    ensures Mul(Mul(a, b), Mul(c, d)) == Mul(Mul(b, c), Mul(a, d))
  {
    hide Mul;
    MulComm(a, b);
    MulAssoc(b, a, Mul(c, d));
    MulAssoc(a, c, d);
    MulComm(a, c);
    MulAssoc(c, a, d);
    MulAssoc(b, c, Mul(a, d));
  }

  /** A factor of a product that leaves out zero. */
  function NonZero(a: byte): byte {
    if a == 0 then 1 else a
  }

  /** The product of the nonzero differences between `x` and the points below `n`. */
  function Weight(x: byte, n: nat): byte
    requires n <= 256
  {
    if n == 0 then 1 else Mul(Weight(x, n - 1), NonZero(Add(x, Point(n - 1))))
  }

  lemma {:induction false} WeightIsNonZero(x: byte, n: nat)
    requires n <= 256
    ensures Weight(x, n) != 0
  {
    hide Mul, Add, Point;
    if n > 0 {
      WeightIsNonZero(x, n - 1);
      MulZero(Weight(x, n - 1), NonZero(Add(x, Point(n - 1))));
    }
  }

  lemma {:induction false} WeightInside(j: nat, n: nat)
    requires j < 256 && n <= 256
    ensures Weight(Point(j), n) == Except(Point(j), j, n)
  {
    hide Mul, Add, Point;
    if n > 0 {
      WeightInside(j, n - 1);
      AddCancel(Point(j), Point(n - 1));
      if n - 1 == j {
        MulOne(Weight(Point(j), n - 1));
      } else if Point(j) == Point(n - 1) {
        PointsDistinct(j, n - 1);
      }
    }
  }

  lemma {:induction false} WeightOutside(k: nat, j: nat, n: nat)
    requires j < 256 && n <= k < 256
    ensures Weight(Point(k), n) ==
            if j < n then Mul(Except(Point(k), j, n), Add(Point(k), Point(j))) else Except(Point(k), j, n)
  {
    hide Mul, Add, Point;
    if n > 0 {
      WeightOutside(k, j, n - 1);
      AddCancel(Point(k), Point(n - 1));
      if Point(k) == Point(n - 1) { PointsDistinct(k, n - 1); }
      var e, d, f := Except(Point(k), j, n - 1), Add(Point(k), Point(j)), Add(Point(k), Point(n - 1));
      if j < n - 1 {
        MulAssoc(e, d, f);
        MulComm(d, f);
        MulAssoc(e, f, d);
      }
    }
  }

  /** The coefficient of shard `j` is the ratio of the weights of the parity point and of point `j`. */
  lemma CoefficientIsRatio(c: Codec, j: nat)
    requires IsCodec(c) && c.m == 1 && j < c.k
    ensures Mul(Coefficient(c, 0, j), Weight(Point(j), c.k + 1)) == Weight(Point(c.k), c.k + 1)
  {
    hide Dot, Eval, Samples, Point, Mul, Add;
    var k := c.k;
    var e := seq(k, t requires 0 <= t < k => if t == j then 1 else 0);
    assert HasPolynomial(e);
    var p: Vec :| |p| == |e| && Samples(p, |e|) == e;
    SamplesAre(p, k);
    assert Dot(c.coding[k], Samples(p, k), k) == Eval(p, Point(k));
    DotComm(c.coding[k], e, k);
    DotUnit(e, c.coding[k], j, k);
    var coefficient := Coefficient(c, 0, j);
    Proportional(p, j, k, Point(k), Point(j));
    MulOne(Except(Point(k), j, k));
    WeightInside(j, k);
    WeightOutside(k, j, k);
    var d := Add(Point(k), Point(j));
    AddLaws(Point(k), Point(j), 0);
    AddCancel(Point(k), Point(j));
    AddCancel(Point(k), Point(k));
    if d == 0 { PointsDistinct(k, j); }
    MulOne(Weight(Point(k), k));
    MulAssoc(coefficient, Except(Point(j), j, k), d);
  }

  lemma SamplesAre(p: Vec, k: nat)
    requires k <= 255
    ensures forall i :: 0 <= i < k ==> Samples(p, k)[i] == Eval(p, Point(i))
    ensures |Samples(p, k)| == k
  {
  }

  /** The coefficient is 1 exactly when the two weights agree. */
  lemma CoefficientIsOne(c: Codec, j: nat)
    requires IsCodec(c) && c.m == 1 && j < c.k
    ensures Coefficient(c, 0, j) == 1 <==> Weight(Point(j), c.k + 1) == Weight(Point(c.k), c.k + 1)
  {
    hide Mul, Add, Point, Weight, IsCodec;
    CodecShape(c);
    CoefficientIsRatio(c, j);
    var x, w := Coefficient(c, 0, j), Weight(Point(j), c.k + 1);
    WeightIsNonZero(Point(j), c.k + 1);
    MulOne(w);
    if Mul(x, w) == w {
      CancelFactor(x, 1, w);
    }
  }

  lemma CancelFactor(a: byte, b: byte, c: byte)
    requires c != 0 && Mul(a, c) == Mul(b, c)
    ensures a == b
  {
    hide Mul, Add;
    MulAdd(a, b, c);
    AddLaws(Mul(a, c), 0, 0);
    MulZero(Add(a, b), c);
    AddCancel(a, b);
  }

  // ---- Blocks of points ----

  function Pow2(m: nat): (p: nat)
    ensures p > 0
  {
    if m == 0 then 1 else 2 * Pow2(m - 1)
  }

  lemma SmallPowers(m: nat)
    ensures m <= 7 ==> Pow2(m) == [1, 2, 4, 8, 16, 32, 64, 128][m]
    ensures m >= 8 ==> Pow2(m) >= 256
  {
    if m > 8 { SmallPowers(m - 1); }
  }

  /** Whether `a` is a multiple of `2^m`: it can be halved `m` times. */
  predicate IsMultiple(a: nat, m: nat) {
    m == 0 || (a % 2 == 0 && IsMultiple(a / 2, m - 1))
  }

  /** Binary digit `k` of `n`. */
  function Digit(n: nat, k: nat): nat {
    if k == 0 then n % 2 else Digit(n / 2, k - 1)
  }

  /** The digits of a multiple of a power of two and of a number below that power do not meet. */
  lemma {:induction false} DigitsJoin(a: nat, v: nat, m: nat, k: nat)
    requires IsMultiple(a, m) && v < Pow2(m)
    ensures k < m ==> Digit(a + v, k) == Digit(v, k) && Digit(a, k) == 0
    ensures k >= m ==> Digit(a + v, k) == Digit(a, k) && Digit(v, k) == 0
  {
    if m == 0 {
      ZeroDigit(k);
    } else if k > 0 {
      assert (a + v) / 2 == a / 2 + v / 2;
      DigitsJoin(a / 2, v / 2, m - 1, k - 1);
    }
  }

  lemma {:induction false} MultipleOf(q: nat, m: nat)
    ensures IsMultiple(q * Pow2(m), m)
  {
    if m > 0 {
      assert q * Pow2(m) == q * Pow2(m - 1) * 2;
      MultipleOf(q, m - 1);
    }
  }

  lemma ZeroDigit(k: nat)
    ensures Digit(0, k) == 0
  {
  }

  /** The byte whose binary digits, lowest first, are given. */
  function FromDigits(d0: nat, d1: nat, d2: nat, d3: nat, d4: nat, d5: nat, d6: nat, d7: nat): byte {
    Put(d0, 0x01) | Put(d1, 0x02) | Put(d2, 0x04) | Put(d3, 0x08)
    | Put(d4, 0x10) | Put(d5, 0x20) | Put(d6, 0x40) | Put(d7, 0x80)
  }

  lemma SameDigit(d: nat, e: nat, mask: byte)
    requires e == d % 2
    ensures Put(d, mask) == Put(e, mask)
  {
  }

  lemma DigitsOfHalves(n: nat)
    requires n < 256
    ensures Digit(n, 0) == n % 2 && Digit(n, 1) == n / 2 % 2 && Digit(n, 2) == n / 2 / 2 % 2
    ensures Digit(n, 3) == n / 2 / 2 / 2 % 2 && Digit(n, 4) == n / 2 / 2 / 2 / 2 % 2
    ensures Digit(n, 5) == n / 2 / 2 / 2 / 2 / 2 % 2 && Digit(n, 6) == n / 2 / 2 / 2 / 2 / 2 / 2 % 2
    ensures Digit(n, 7) == n / 2 / 2 / 2 / 2 / 2 / 2 / 2 % 2
  {
  }

  lemma HalvesOfNibbles(lo: nat, hi: nat, n: nat)
    requires lo < 16 && n == 16 * hi + lo
    ensures n / 2 == 8 * hi + lo / 2 && n / 2 / 2 == 4 * hi + lo / 4 && n / 2 / 2 / 2 == 2 * hi + lo / 8
    ensures n / 2 / 2 / 2 / 2 == hi
  {
    assert n / 2 == 8 * hi + lo / 2;
    assert n / 2 / 2 == 4 * hi + lo / 2 / 2;
    assert lo / 2 / 2 == lo / 4;
    assert lo / 4 / 2 == lo / 8;
  }

  lemma EvenPlus(a: nat, b: nat, n: nat)
    requires n == 2 * a + b
    ensures n % 2 == b % 2
  {
  }

  lemma LowDigits(lo: nat, hi: nat, n: nat)
    requires lo < 16 && hi < 16 && n == 16 * hi + lo
    ensures Digit(n, 0) == lo % 2 && Digit(n, 1) == lo / 2 % 2 && Digit(n, 2) == lo / 4 % 2 && Digit(n, 3) == lo / 8 % 2
  {
    hide Digit;
    DigitsOfHalves(n);
    HalvesOfNibbles(lo, hi, n);
    var n1, n2, n3, l1, l2, l3 := n / 2, n / 2 / 2, n / 2 / 2 / 2, lo / 2, lo / 4, lo / 8;
    EvenPlus(8 * hi, lo, n);
    EvenPlus(4 * hi, l1, n1);
    EvenPlus(2 * hi, l2, n2);
    EvenPlus(hi, l3, n3);
  }

  lemma HighDigits(lo: nat, hi: nat, n: nat)
    requires lo < 16 && hi < 16 && n == 16 * hi + lo
    ensures Digit(n, 4) == hi % 2 && Digit(n, 5) == hi / 2 % 2 && Digit(n, 6) == hi / 4 % 2 && Digit(n, 7) == hi / 8 % 2
  {
    hide Digit;
    DigitsOfHalves(n);
    HalvesOfNibbles(lo, hi, n);
    assert hi / 2 / 2 == hi / 4;
    assert hi / 4 / 2 == hi / 8;
  }

  lemma PointDigits(n: nat)
    requires n < 256
    ensures Point(n) == FromDigits(Digit(n, 0), Digit(n, 1), Digit(n, 2), Digit(n, 3),
                                   Digit(n, 4), Digit(n, 5), Digit(n, 6), Digit(n, 7))
  {
    var lo, hi := n % 16, n / 16;
    LowDigits(lo, hi, n);
    HighDigits(lo, hi, n);
    NibbleDigitsAre(lo, hi, n);
  }

  lemma NibbleDigitsAre(lo: nat, hi: nat, n: nat)
    requires Digit(n, 0) == lo % 2 && Digit(n, 1) == lo / 2 % 2 && Digit(n, 2) == lo / 4 % 2
    requires Digit(n, 3) == lo / 8 % 2
    requires Digit(n, 4) == hi % 2 && Digit(n, 5) == hi / 2 % 2 && Digit(n, 6) == hi / 4 % 2
    requires Digit(n, 7) == hi / 8 % 2
    ensures FromNibbles(lo, hi) == FromDigits(Digit(n, 0), Digit(n, 1), Digit(n, 2), Digit(n, 3), Digit(n, 4),
                                              Digit(n, 5), Digit(n, 6), Digit(n, 7))
  {
    hide Put, Digit;
    SameDigit(lo, Digit(n, 0), 0x01);
    SameDigit(lo / 2, Digit(n, 1), 0x02);
    SameDigit(lo / 4, Digit(n, 2), 0x04);
    SameDigit(lo / 8, Digit(n, 3), 0x08);
    SameDigit(hi, Digit(n, 4), 0x10);
    SameDigit(hi / 2, Digit(n, 5), 0x20);
    SameDigit(hi / 4, Digit(n, 6), 0x40);
    SameDigit(hi / 8, Digit(n, 7), 0x80);
  }

  /** Part `z` of a byte is the exclusive or of two parts within the same mask. */
  predicate Joins(x: byte, y: byte, z: byte, mask: byte) {
    z == x ^ y && x & mask == x && y & mask == y
  }

  lemma JoinMask(d: nat, e: nat, f: nat, mask: byte)
    requires f == d + e && (d == 0 || e == 0)
    ensures Joins(Put(d, mask), Put(e, mask), Put(f, mask), mask)
  {
    assert mask & mask == mask;
    assert 0 & mask == 0;
    assert mask ^ 0 == mask && 0 ^ mask == mask;
    assert (0 as byte) ^ 0 == 0;
  }

  lemma JoinDigit(a: nat, v: nat, m: nat, k: nat, mask: byte)
    requires IsMultiple(a, m) && v < Pow2(m)
    ensures Joins(Put(Digit(a, k), mask), Put(Digit(v, k), mask), Put(Digit(a + v, k), mask), mask)
  {
    hide Put, Digit, Pow2, IsMultiple, Joins;
    DigitsJoin(a, v, m, k);
    JoinMask(Digit(a, k), Digit(v, k), Digit(a + v, k), mask);
  }

  lemma JoinMasks(x0: byte, x1: byte, x2: byte, x3: byte, x4: byte, x5: byte, x6: byte, x7: byte,
                  y0: byte, y1: byte, y2: byte, y3: byte, y4: byte, y5: byte, y6: byte, y7: byte,
                  z0: byte, z1: byte, z2: byte, z3: byte, z4: byte, z5: byte, z6: byte, z7: byte)
    requires Joins(x0, y0, z0, 0x01) && Joins(x1, y1, z1, 0x02) && Joins(x2, y2, z2, 0x04) && Joins(x3, y3, z3, 0x08)
    requires Joins(x4, y4, z4, 0x10) && Joins(x5, y5, z5, 0x20) && Joins(x6, y6, z6, 0x40) && Joins(x7, y7, z7, 0x80)
    ensures (z0 | z1 | z2 | z3 | z4 | z5 | z6 | z7)
            == (x0 | x1 | x2 | x3 | x4 | x5 | x6 | x7) ^ (y0 | y1 | y2 | y3 | y4 | y5 | y6 | y7)
  {
  }

  /** Adding a number below a power of two to a multiple of it is an exclusive or. */
  lemma JoinPoints(a: nat, v: nat, m: nat)
    requires IsMultiple(a, m) && v < Pow2(m) && a + v < 256
    ensures Point(a + v) == Add(Point(a), Point(v))
  {
    hide Digit, Put, Point, Pow2, IsMultiple, Joins;
    PointDigits(a + v);
    PointDigits(a);
    PointDigits(v);
    JoinDigit(a, v, m, 0, 0x01);
    JoinDigit(a, v, m, 1, 0x02);
    JoinDigit(a, v, m, 2, 0x04);
    JoinDigit(a, v, m, 3, 0x08);
    JoinDigit(a, v, m, 4, 0x10);
    JoinDigit(a, v, m, 5, 0x20);
    JoinDigit(a, v, m, 6, 0x40);
    JoinDigit(a, v, m, 7, 0x80);
    JoinMasks(Put(Digit(a, 0), 0x01), Put(Digit(a, 1), 0x02), Put(Digit(a, 2), 0x04), Put(Digit(a, 3), 0x08),
              Put(Digit(a, 4), 0x10), Put(Digit(a, 5), 0x20), Put(Digit(a, 6), 0x40), Put(Digit(a, 7), 0x80),
              Put(Digit(v, 0), 0x01), Put(Digit(v, 1), 0x02), Put(Digit(v, 2), 0x04), Put(Digit(v, 3), 0x08),
              Put(Digit(v, 4), 0x10), Put(Digit(v, 5), 0x20), Put(Digit(v, 6), 0x40), Put(Digit(v, 7), 0x80),
              Put(Digit(a + v, 0), 0x01), Put(Digit(a + v, 1), 0x02), Put(Digit(a + v, 2), 0x04),
              Put(Digit(a + v, 3), 0x08), Put(Digit(a + v, 4), 0x10), Put(Digit(a + v, 5), 0x20),
              Put(Digit(a + v, 6), 0x40), Put(Digit(a + v, 7), 0x80));
  }

  lemma JoinPower(u: nat, m: nat)
    requires m <= 7 && u < Pow2(m)
    ensures Pow2(m) + u < 256 && Point(Pow2(m) + u) == Add(Point(Pow2(m)), Point(u))
    ensures IsMultiple(Pow2(m), m)
  {
    hide Point, Pow2, IsMultiple;
    PowerBound(m);
    MultipleOf(1, m);
    JoinPoints(Pow2(m), u, m);
  }

  // ---- Products over blocks ----

  lemma {:induction false} WeightSplit(x: byte, a: nat, m: nat, n: nat)
    requires IsMultiple(a, m) && n <= Pow2(m) && a + n <= 256
    ensures Weight(x, a + n) == Mul(Weight(x, a), if a < 256 then Weight(Add(x, Point(a)), n) else 1)
  {
    hide Mul, Add, Point, NonZero;
    if n == 0 {
      MulOne(Weight(x, a));
    } else {
      WeightSplit(x, a, m, n - 1);
      JoinPoints(a, n - 1, m);
      AddLaws(x, Point(a), Point(n - 1));
      var y := Add(x, Point(a));
      MulAssoc(Weight(x, a), Weight(y, n - 1), NonZero(Add(y, Point(n - 1))));
    }
  }

  lemma PowerBound(m: nat)
    requires m <= 7
    ensures Pow2(m) <= 128
  {
    SmallPowers(m);
  }

  /** The point with number `2^m`. */
  function PowerPoint(m: nat): byte
    requires m <= 7
  {
    PowerBound(m); Point(Pow2(m))
  }

  /** The product over the first `2^m` points, split in halves again and again. */
  function Coset(x: byte, m: nat): byte
    requires m <= 7
    decreases m
  {
    if m == 0 then NonZero(x) else Mul(Coset(x, m - 1), Coset(Add(x, PowerPoint(m - 1)), m - 1))
  }

  /** The same product with zero factors kept: a linear map that vanishes on the first `2^m` points. */
  function Linearized(x: byte, m: nat): byte
    requires m <= 7
    decreases m
  {
    if m == 0 then x else Mul(Linearized(x, m - 1), Linearized(Add(x, PowerPoint(m - 1)), m - 1))
  }

  lemma CosetStep(x: byte, m: nat)
    requires 0 < m <= 7
    ensures Pow2(m) == 2 * Pow2(m - 1) <= 128
    ensures Coset(x, m) == Mul(Coset(x, m - 1), Coset(Add(x, Point(Pow2(m - 1))), m - 1))
  {
    hide Mul, Add, Point;
    PowerBound(m);
  }

  lemma LinearizedStep(x: byte, m: nat)
    requires 0 < m <= 7
    ensures Pow2(m) == 2 * Pow2(m - 1) <= 128
    ensures Linearized(x, m) == Mul(Linearized(x, m - 1), Linearized(Add(x, Point(Pow2(m - 1))), m - 1))
  {
    hide Mul, Add, Point;
    PowerBound(m);
  }

  lemma PointZero()
    ensures Point(0) == 0
  {
    ValueOfZero();
    ByteRoundTrip(0);
  }

  lemma {:induction false} WeightIsCoset(x: byte, m: nat)
    requires m <= 7
    ensures Pow2(m) <= 128 && Weight(x, Pow2(m)) == Coset(x, m)
    decreases m
  {
    SmallPowers(m);
    hide Mul, Add, Point, NonZero;
    if m == 0 {
      assert Weight(x, 1) == Mul(Weight(x, 0), NonZero(Add(x, Point(0))));
      PointZero();
      AddLaws(x, 0, 0);
      MulOne(NonZero(x));
    } else {
      var h := Pow2(m - 1);
      WeightIsCoset(x, m - 1);
      WeightIsCoset(Add(x, Point(h)), m - 1);
      JoinPower(0, m - 1);
      WeightSplit(x, h, m - 1, h);
    }
  }

  /** Points below `2^m` do not change the product over them. */
  lemma {:induction false} CosetIsInvariant(x: byte, v: nat, m: nat)
    requires m <= 7 && v < Pow2(m)
    ensures Pow2(m) <= 128 && Coset(Add(x, Point(v)), m) == Coset(x, m)
    decreases m
  {
    hide Mul, Add, Point, Coset;
    if m == 0 {
      PointZero();
      AddLaws(x, 0, 0);
    } else {
      CosetStep(x, m);
      CosetStep(Add(x, Point(v)), m);
      hide Pow2;
      var h := Pow2(m - 1);
      var b, u := Point(h), if v < h then v else v - h;
      CosetIsInvariant(x, u, m - 1);
      CosetIsInvariant(Add(x, b), u, m - 1);
      AddLaws(x, b, Point(u));
      AddLaws(x, Point(u), b);
      AddLaws(b, Point(u), 0);
      if v >= h {
        JoinPower(u, m - 1);
        AddLaws(Add(x, Point(u)), b, b);
        AddLaws(b, b, 0);
        AddLaws(Add(x, Point(u)), 0, 0);
        MulComm(Coset(x, m - 1), Coset(Add(x, b), m - 1));
      }
    }
  }

  /** A power of two points: all weights agree. */
  lemma ClosedPoints(j: nat, m: nat)
    requires m <= 7 && j < Pow2(m)
    ensures Pow2(m) <= 128 && Weight(Point(j), Pow2(m)) == Coset(0, m)
  {
    hide Mul, Add, Point, NonZero, Coset, Weight;
    CosetIsInvariant(0, j, m);
    AddLaws(Point(j), 0, 0);
    WeightIsCoset(Point(j), m);
  }

  // ---- The linear map ----

  lemma {:induction false} LinearizedAdds(x: byte, y: byte, m: nat)
    requires m <= 7
    ensures Linearized(Add(x, y), m) == Add(Linearized(x, m), Linearized(y, m))
    decreases m
  {
    hide Mul, Add, PowerPoint;
    if m > 0 {
      var b := PowerPoint(m - 1);
      var fx, fy, fb := Linearized(x, m - 1), Linearized(y, m - 1), Linearized(b, m - 1);
      LinearizedAdds(x, y, m - 1);
      LinearizedAdds(x, b, m - 1);
      LinearizedAdds(y, b, m - 1);
      LinearizedAdds(Add(x, y), b, m - 1);
      SquareAdds(fx, fy, fb);
    }
  }

  lemma SquareAdds(x: byte, y: byte, b: byte)
    ensures Mul(Add(x, y), Add(Add(x, y), b)) == Add(Mul(x, Add(x, b)), Mul(y, Add(y, b)))
  {
    hide Mul, Add;
    var s := Add(x, y);
    MulAdd(s, b, s);
    MulAdd(x, y, s);
    MulAdd(x, y, x);
    MulAdd(x, y, y);
    MulAdd(x, y, b);
    MulAdd(x, b, x);
    MulAdd(y, b, y);
    MulComm(x, y);
    var xx, xy, yy, xb, yb := Mul(x, x), Mul(x, y), Mul(y, y), Mul(x, b), Mul(y, b);
    SumOfSquares(xx, xy, yy);
    AddSwap(xx, yy, xb, yb);
  }

  lemma SumOfSquares(xx: byte, xy: byte, yy: byte)
    ensures Add(Add(xx, xy), Add(xy, yy)) == Add(xx, yy)
  {
  }

  /** The map vanishes only at the first `2^m` points. */
  lemma {:induction false} LinearizedZero(x: byte, m: nat) returns (v: nat)
    requires m <= 7 && Linearized(x, m) == 0
    ensures v < Pow2(m) <= 128 && x == Point(v)
    decreases m
  {
    hide Mul, Add, Point, Linearized;
    if m == 0 {
      PointZero();
      ZeroStep(x);
      v := 0;
    } else {
      LinearizedStep(x, m);
      hide Pow2;
      var h := Pow2(m - 1);
      var b := Point(h);
      MulZero(Linearized(x, m - 1), Linearized(Add(x, b), m - 1));
      if Linearized(x, m - 1) == 0 {
        v := LinearizedZero(x, m - 1);
      } else {
        var u := LinearizedZero(Add(x, b), m - 1);
        v := h + u;
        JoinPower(u, m - 1);
        AddLaws(x, b, b);
        AddLaws(Add(x, b), b, 0);
        AddLaws(b, b, 0);
        AddLaws(x, 0, 0);
      }
    }
  }

  lemma ZeroStep(x: byte)
    ensures Linearized(x, 0) == x
    ensures x != 0 ==> Coset(x, 0) == x
  {
  }

  /** Away from its zeros the map is the product. */
  lemma {:induction false} LinearizedIsCoset(x: byte, m: nat)
    requires m <= 7 && Linearized(x, m) != 0
    ensures Coset(x, m) == Linearized(x, m)
    decreases m
  {
    hide Mul, Add, Point, Linearized, Coset, Pow2;
    if m == 0 {
      ZeroStep(x);
    } else {
      LinearizedStep(x, m);
      CosetStep(x, m);
      var y := Add(x, Point(Pow2(m - 1)));
      MulZero(Linearized(x, m - 1), Linearized(y, m - 1));
      LinearizedIsCoset(x, m - 1);
      LinearizedIsCoset(y, m - 1);
    }
  }

  // ---- An odd number of blocks ----

  /** The product over one more block. */
  lemma WeightNextBlock(x: byte, s: nat, m: nat)
    requires m <= 7 && (s + 1) * Pow2(m) <= 255
    ensures s * Pow2(m) < 256
    ensures Weight(x, (s + 1) * Pow2(m)) == Mul(Weight(x, s * Pow2(m)), Coset(Add(x, Point(s * Pow2(m))), m))
  {
    hide Mul, Add, Point, NonZero, Weight, Coset, Pow2, IsMultiple;
    var a, p := s * Pow2(m), Pow2(m);
    OneMore(s, p);
    MultipleOf(s, m);
    WeightSplit(x, a, m, p);
    WeightIsCoset(Add(x, Point(a)), m);
  }

  lemma OneMore(s: nat, p: nat)
    ensures (s + 1) * p == s * p + p
  {
  }

  /** The point 0 and the first point of the second block see the same blocks, in pairs. */
  lemma {:induction false} PairsOfBlocks(q: nat, m: nat)
    requires m <= 7 && q % 2 == 0 && q * Pow2(m) <= 255
    ensures Pow2(m) <= 128 && Weight(0, q * Pow2(m)) == Weight(Point(Pow2(m)), q * Pow2(m))
  {
    SmallPowers(m);
    hide Mul, Add, Point, NonZero, Weight, Coset;
    if q == 0 {
      EmptyWeight(0);
      EmptyWeight(Point(Pow2(m)));
    } else {
      var p, r := Pow2(m), q - 2;
      var b := Point(p);
      assert (r + 1) * p == r * p + p && q * p == (r + 1) * p + p;
      PairsOfBlocks(r, m);
      WeightNextBlock(0, r, m);
      WeightNextBlock(0, r + 1, m);
      WeightNextBlock(b, r, m);
      WeightNextBlock(b, r + 1, m);
      EvenBlock(r, m);
      var lo, hi := Point(r * p), Point((r + 1) * p);
      AddLaws(lo, b, b);
      AddLaws(b, lo, 0);
      AddLaws(b, hi, 0);
      AddLaws(b, b, 0);
      AddLaws(lo, 0, 0);
      AddLaws(hi, 0, 0);
      MulAssoc(Weight(0, r * p), Coset(lo, m), Coset(hi, m));
      MulAssoc(Weight(0, r * p), Coset(hi, m), Coset(lo, m));
      MulComm(Coset(lo, m), Coset(hi, m));
    }
  }

  lemma EmptyWeight(x: byte)
    ensures Weight(x, 0) == 1
  {
  }

  lemma EvenBlock(r: nat, m: nat)
    requires r % 2 == 0 && (r + 1) * Pow2(m) < 256
    ensures r * Pow2(m) < 256 && Pow2(m) < 256
    ensures Point((r + 1) * Pow2(m)) == Add(Point(r * Pow2(m)), Point(Pow2(m)))
  {
    assert Pow2(m + 1) == 2 * Pow2(m);
    hide Add, Point, IsMultiple, Pow2;
    MultipleOf(r / 2, m + 1);
    DoubledBlock(r / 2, Pow2(m));
    JoinPoints(r * Pow2(m), Pow2(m), m + 1);
  }

  lemma DoubledBlock(h: nat, p: nat)
    ensures h * (2 * p) == 2 * h * p && (2 * h + 1) * p == 2 * h * p + p
  {
  }

  /** With an odd number of blocks, more than one, those two points have different weights. */
  lemma OddBlocks(q: nat, m: nat)
    requires m <= 7 && q % 2 == 1 && q > 1 && q * Pow2(m) <= 255
    ensures Pow2(m) <= 128 && Weight(0, q * Pow2(m)) != Weight(Point(Pow2(m)), q * Pow2(m))
  {
    SmallPowers(m);
    hide Mul, Add, Point, NonZero, Weight, Coset, Linearized;
    var p, r := Pow2(m), q - 1;
    var b := Point(p);
    assert q * p == r * p + p;
    assert r * p >= 2 * p;
    PairsOfBlocks(r, m);
    WeightNextBlock(0, r, m);
    WeightNextBlock(b, r, m);
    var y := Point(r * p);
    AddLaws(y, 0, 0);
    AddLaws(b, y, 0);
    LinearizedAdds(y, b, m);
    if Linearized(b, m) == 0 {
      var v := LinearizedZero(b, m);
      PointsDistinct(p, v);
    }
    if Linearized(y, m) == 0 {
      var v := LinearizedZero(y, m);
      PointsDistinct(r * p, v);
    }
    if Linearized(Add(y, b), m) == 0 {
      var v := LinearizedZero(Add(y, b), m);
      AddLaws(y, b, b);
      AddLaws(Point(v), b, 0);
      AddLaws(b, b, 0);
      JoinPower(v, m);
      PointsDistinct(r * p, p + v);
    }
    LinearizedIsCoset(y, m);
    LinearizedIsCoset(Add(y, b), m);
    var w, ly, lb := Weight(0, r * p), Linearized(y, m), Linearized(b, m);
    WeightIsNonZero(0, r * p);
    if Mul(w, ly) == Mul(w, Add(ly, lb)) {
      MulComm(w, ly);
      MulComm(w, Add(ly, lb));
      CancelFactor(ly, Add(ly, lb), w);
      AddLaws(ly, ly, lb);
      AddLaws(lb, 0, 0);
      AddLaws(ly, 0, 0);
    }
  }

  // ---- The condition ----

  predicate IsPowerOfTwo(n: nat) {
    n == 1 || (n > 0 && n % 2 == 0 && IsPowerOfTwo(n / 2))
  }

  /** A positive number is an odd number of blocks of some power of two. */
  lemma {:induction false} OddPart(n: nat) returns (q: nat, m: nat)
    requires n > 0
    ensures n == q * Pow2(m) && q % 2 == 1
    ensures IsPowerOfTwo(n) <==> q == 1
  {
    if n % 2 == 1 {
      q, m := n, 0;
    } else {
      q, m := OddPart(n / 2);
      assert n == q * (2 * Pow2(m));
      m := m + 1;
    }
  }

  /** The single-parity mode is a plain exclusive or of the data shards exactly when K+1 is a power of
      two. */
  lemma PlainXorExactlyWhen(c: Codec)
    requires IsCodec(c) && c.m == 1
    ensures (forall j :: 0 <= j < c.k ==> Coefficient(c, 0, j) == 1) <==> IsPowerOfTwo(c.k + 1)
  {
    hide Mul, Add, Point, Weight, Coset, IsCodec, IsPowerOfTwo, Coefficient;
    CodecShape(c);
    var n := c.k + 1;
    var q, m := OddPart(n);
    BlockFits(n, q, m);
    if q == 1 {
      forall j | 0 <= j < c.k
        ensures Coefficient(c, 0, j) == 1
      {
        CoefficientIsOne(c, j);
        ClosedPoints(j, m);
        ClosedPoints(c.k, m);
      }
    } else if forall j :: 0 <= j < c.k ==> Coefficient(c, 0, j) == 1 {
      OddBlocks(q, m);
      PointZero();
      assert Coefficient(c, 0, 0) == 1;
      CoefficientIsOne(c, 0);
      if Pow2(m) < c.k {
        assert Coefficient(c, 0, Pow2(m)) == 1;
        CoefficientIsOne(c, Pow2(m));
      }
    }
  }

  /** Two data shards: parity is 3 times the first plus 2 times the second. */
  lemma TwoShardsAreWeighted(c: Codec)
    requires IsCodec(c) && c.k == 2 && c.m == 1
    ensures Coefficient(c, 0, 0) == 3 && Coefficient(c, 0, 1) == 2
  {
    hide Mul, Add, Samples, Point;
    SmallPoints();
    var row := c.coding[2];
    EvalLine(1, 0);
    EvalLine(0, 1);
    SamplesAre([1, 0], 2);
    SamplesAre([0, 1], 2);
    assert Dot(row, Samples([1, 0], c.k), c.k) == Eval([1, 0], Point(2));
    assert Dot(row, Samples([0, 1], c.k), c.k) == Eval([0, 1], Point(2));
    DotTwo(row, Samples([1, 0], 2));
    DotTwo(row, Samples([0, 1], 2));
    MulOne(row[0]);
    MulOne(row[1]);
    MulZero(row[0], 0);
    AddLaws(row[1], 0, 0);
    TwoWeights(row[0], row[1]);
  }

  lemma TwoWeights(a: byte, b: byte)
    requires Add(a, b) == 1 && b == 2
    ensures a == 3
  {
  }

  lemma SmallPoints()
    ensures Point(0) == 0 && Point(1) == 1 && Point(2) == 2
  {
  }

  lemma DotTwo(u: Vec, v: Vec)
    requires |u| == 2 && |v| == 2
    ensures Dot(u, v, 2) == Add(Mul(u[0], v[0]), Mul(u[1], v[1]))
  {
    hide Mul, Add;
    assert Dot(u, v, 1) == Add(Dot(u, v, 0), Mul(u[0], v[0]));
    AddLaws(Mul(u[0], v[0]), 0, 0);
  }

  /** A line takes the expected values at the first points. */
  lemma EvalLine(a: byte, b: byte)
    requires (a == 1 && b == 0) || (a == 0 && b == 1)
    ensures forall x: byte {:trigger Eval([a, b], x)} :: Eval([a, b], x) == if b == 0 then 1 else x
  {
    hide Mul, Add;
    forall x: byte {:trigger Eval([a, b], x)}
      ensures Eval([a, b], x) == if b == 0 then 1 else x
    {
      assert [a, b][1..] == [b];
      EvalConstant([b], x);
      MulZero(x, 0);
      MulOne(x);
      AddLaws(1, 0, 0);
      AddLaws(x, 0, 0);
    }
  }

  lemma BlockFits(n: nat, q: nat, m: nat)
    requires 0 < n <= 255 && n == q * Pow2(m) && q % 2 == 1
    ensures m <= 7 && (q > 1 ==> Pow2(m) < n)
  {
    SmallPowers(m);
    assert q * Pow2(m) >= Pow2(m);
    if q > 1 { assert q * Pow2(m) >= 2 * Pow2(m); }
  }
}
