/** Polynomials over GF(2^8) and the Vandermonde rows that evaluate them: why the code that
    src/lib/reed_solomon.c builds loses nothing when any M of its K+M shards are lost.
 */
module Polynomial {
  import opened Octet
  import opened GF256
  import opened Linear

  /** The value at `a` of the polynomial with coefficients `p`, lowest degree first. */
  function Eval(p: Vec, a: byte): byte {
    if |p| == 0 then 0 else Add(p[0], Mul(a, Eval(p[1..], a)))
  }

  function Power(a: byte, n: nat): byte {
    if n == 0 then 1 else Mul(Power(a, n - 1), a)
  }

  /** The Vandermonde row of the point `a`. */
  function PowerRow(a: byte, n: nat): (r: Vec)
    ensures |r| == n && forall j :: 0 <= j < n ==> r[j] == Power(a, j)
  {
    seq(n, j requires 0 <= j < n => Power(a, j))
  }

  /** The quotient of the division of `p` by `X - a`. */
  function Quotient(p: Vec, a: byte): (q: Vec)
    ensures |q| == if |p| == 0 then 0 else |p| - 1
  {
    if |p| <= 1 then [] else [Eval(p[1..], a)] + Quotient(p[1..], a)
  }

  lemma PowerRowTail(a: byte, n: nat)
    requires n > 0
    ensures PowerRow(a, n)[0] == 1 && PowerRow(a, n)[1..] == Scale(a, PowerRow(a, n - 1))
  {
    hide Mul;
    var row, shorter := PowerRow(a, n), PowerRow(a, n - 1);
    forall j | 0 <= j < n - 1
      ensures row[1..][j] == Mul(a, shorter[j])
    {
      assert row[1..][j] == Power(a, j + 1);
      MulComm(Power(a, j), a);
    }
  }

  lemma {:induction false} DotPowerRow(p: Vec, a: byte)
    ensures Dot(PowerRow(a, |p|), p, |p|) == Eval(p, a)
  {
    hide Add, Mul, PowerRow, Scale;
    if |p| > 0 {
      var n := |p|;
      DotFront(PowerRow(a, n), p, n);
      MulOne(p[0]);
      PowerRowTail(a, n);
      DotScale(a, PowerRow(a, n - 1), p[1..], n - 1);
      DotPowerRow(p[1..], a);
    }
  }

  /** Division with remainder: p(b) = p(a) + (b - a) q(b). */
  lemma {:induction false} Division(p: Vec, a: byte, b: byte)
    ensures Eval(p, b) == Add(Eval(p, a), Mul(Add(b, a), Eval(Quotient(p, a), b)))
  {
    hide Add, Mul;
    if |p| == 0 {
      MulZero(Add(b, a), 0);
      AddLaws(0, 0, 0);
    } else {
      var t := p[1..];
      var at, qb, d := Eval(t, a), Eval(Quotient(t, a), b), Add(b, a);
      Division(t, a, b);
      if |p| == 1 {
        MulZero(b, 0);
        MulZero(a, 0);
        MulZero(d, 0);
        AddLaws(p[0], 0, 0);
      } else {
        assert Quotient(p, a)[1..] == Quotient(t, a);
        DivisionStep(p[0], at, qb, a, b);
      }
    }
  }

  lemma DivisionStep(c: byte, at: byte, qb: byte, a: byte, b: byte)
    ensures Add(c, Mul(b, Add(at, Mul(Add(b, a), qb))))
            == Add(Add(c, Mul(a, at)), Mul(Add(b, a), Add(at, Mul(b, qb))))
  {
    hide Add, Mul;
    var d := Add(b, a);
    var x, y, z := Mul(b, at), Mul(a, at), Mul(d, Mul(b, qb));
    // left: c + (b*at + b*(d*qb))
    MulAdd(at, Mul(d, qb), b);
    MulAssoc(b, d, qb);
    MulAssoc(d, b, qb);
    MulComm(b, d);
    // right: (c + a*at) + (d*at + d*(b*qb)), with d*at = b*at + a*at
    MulAdd(at, Mul(b, qb), d);
    MulAdd(b, a, at);
    AddLaws(c, y, Add(Add(x, y), z));
    AddLaws(x, y, z);
    AddLaws(y, Add(x, y), z);
    AddLaws(y, x, y);
    AddLaws(x, y, y);
    AddLaws(x, Add(y, y), z);
    AddLaws(y, y, y);
    AddLaws(x, 0, 0);
    calc {
      Add(y, Add(Add(x, y), z));
      Add(Add(y, Add(x, y)), z);
      Add(Add(Add(x, y), y), z);
      Add(Add(x, Add(y, y)), z);
      Add(x, z);
    }
  }

  lemma {:induction false} QuotientZero(p: Vec, a: byte)
    requires IsZero(Quotient(p, a)) && Eval(p, a) == 0
    ensures IsZero(p)
  {
    hide Add, Mul;
    if |p| == 1 {
      MulZero(a, 0);
      AddLaws(p[0], 0, 0);
    } else if |p| > 1 {
      var t := p[1..];
      var q := Quotient(p, a);
      assert q[0] == Eval(t, a) == 0;
      assert q[1..] == Quotient(t, a);
      forall i | 0 <= i < |q| - 1
        ensures q[1..][i] == 0
      {
        assert q[1..][i] == q[i + 1];
      }
      QuotientZero(t, a);
      MulZero(a, 0);
      AddLaws(p[0], 0, 0);
      forall i | 0 <= i < |p|
        ensures p[i] == 0
      {
        if i > 0 { assert t[i - 1] == 0; }
      }
    }
  }

  ghost predicate Distinct<T>(s: seq<T>) {
    forall i, j :: 0 <= i < j < |s| ==> s[i] != s[j]
  }

  /** A polynomial with as many roots as coefficients is zero. */
  lemma {:induction false} RootsBound(p: Vec, roots: Vec)
    requires |roots| == |p| && Distinct(roots)
    requires forall i :: 0 <= i < |roots| ==> Eval(p, roots[i]) == 0
    ensures IsZero(p)
    decreases |p|
  {
    hide Add, Mul, Eval, Quotient;
    if |p| > 0 {
      var a, rest := roots[0], roots[1..];
      var q := Quotient(p, a);
      forall i | 0 <= i < |rest|
        ensures Eval(q, rest[i]) == 0
      {
        var b := rest[i];
        assert b == roots[i + 1];
        Division(p, a, b);
        AddLaws(Mul(Add(b, a), Eval(q, b)), 0, 0);
        AddCancel(b, a);
        MulZero(Add(b, a), Eval(q, b));
      }
      RootsBound(q, rest);
      QuotientZero(p, a);
    }
  }

  /** The evaluation point of shard `i`. */
  function Point(i: nat): byte
    requires i < 256
  {
    FromValue(i)
  }

  lemma PointsDistinct(i: nat, j: nat)
    requires i < 256 && j < 256 && Point(i) == Point(j)
    ensures i == j
  {
    ValueRoundTrip(i);
    ValueRoundTrip(j);
  }

  /** A polynomial of `k` coefficients is determined by its values at any `k` distinct points. */
  lemma ValuesDeterminePolynomial(p: Vec, indices: seq<nat>)
    requires |indices| == |p| && Distinct(indices)
    requires forall i :: 0 <= i < |indices| ==> indices[i] < 256 && Eval(p, Point(indices[i])) == 0
    ensures IsZero(p)
  {
    hide Eval, Point;
    var roots := seq(|indices|, i requires 0 <= i < |indices| => Point(indices[i]));
    forall i, j | 0 <= i < j < |roots|
      ensures roots[i] != roots[j]
    {
      if roots[i] == roots[j] { PointsDistinct(indices[i], indices[j]); }
    }
    RootsBound(p, roots);
  }
}
