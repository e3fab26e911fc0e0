/** Vectors and matrices over GF(2^8): dot products, kernels, inverses and the elementary row
    operations of Gauss-Jordan elimination.  A matrix is a sequence of rows.
 */
module Linear {
  import opened Octet
  import opened GF256

  type Vec = seq<byte>
  type Matrix = seq<Vec>

  ghost predicate IsMatrix(a: Matrix, rows: nat, cols: nat) {
    |a| == rows && forall i :: 0 <= i < rows ==> |a[i]| == cols
  }

  /** The sum of the first `n` products. */
  function Dot(u: Vec, v: Vec, n: nat): byte
    requires n <= |u| && n <= |v|
  {
    if n == 0 then 0 else Add(Dot(u, v, n - 1), Mul(u[n - 1], v[n - 1]))
  }

  function VAdd(u: Vec, v: Vec): (r: Vec)
    requires |u| == |v|
    ensures |r| == |u| && forall i :: 0 <= i < |u| ==> r[i] == Add(u[i], v[i])
  {
    seq(|u|, i requires 0 <= i < |u| => Add(u[i], v[i]))
  }

  function Scale(c: byte, u: Vec): (r: Vec)
    ensures |r| == |u| && forall i :: 0 <= i < |u| ==> r[i] == Mul(c, u[i])
  {
    seq(|u|, i requires 0 <= i < |u| => Mul(c, u[i]))
  }

  /** The matrix-vector product. */
  function Apply(a: Matrix, x: Vec): (r: Vec)
    requires forall i :: 0 <= i < |a| ==> |x| <= |a[i]|
    ensures |r| == |a| && forall i :: 0 <= i < |a| ==> r[i] == Dot(a[i], x, |x|)
  {
    seq(|a|, i requires 0 <= i < |a| => Dot(a[i], x, |x|))
  }

  function Column(a: Matrix, k: nat): (r: Vec)
    requires forall i :: 0 <= i < |a| ==> k < |a[i]|
    ensures |r| == |a| && forall i :: 0 <= i < |a| ==> r[i] == a[i][k]
  {
    seq(|a|, i requires 0 <= i < |a| => a[i][k])
  }

  ghost predicate IsZero(x: Vec) {
    forall i :: 0 <= i < |x| ==> x[i] == 0
  }

  /** Row `r` of the identity. */
  ghost predicate IsUnit(u: Vec, r: nat) {
    forall i :: 0 <= i < |u| ==> u[i] == if i == r then 1 else 0
  }

  /** Every row of `a` is orthogonal to `x`. */
  ghost predicate Kills(a: Matrix, x: Vec)
    requires forall i :: 0 <= i < |a| ==> |x| <= |a[i]|
  {
    forall i :: 0 <= i < |a| ==> Dot(a[i], x, |x|) == 0
  }

  /** The only vector of length `n` that the `n`-column matrix kills is zero. */
  ghost predicate Nonsingular(a: Matrix, n: nat)
    requires forall i :: 0 <= i < |a| ==> |a[i]| == n
  {
    forall x: Vec {:trigger Kills(a, x)} :: |x| == n && Kills(a, x) ==> IsZero(x)
  }

  /** `b` undoes `a`. */
  ghost predicate LeftInverse(b: Matrix, a: Matrix, n: nat)
    requires IsMatrix(b, n, n) && IsMatrix(a, n, n)
  {
    forall x: Vec {:trigger Apply(a, x)} :: |x| == n ==> Apply(b, Apply(a, x)) == x
  }

  lemma DotNone(u: Vec, v: Vec)
    ensures Dot(u, v, 0) == 0
  {
  }

  // ---- The dot product is bilinear ----

  lemma {:induction false} DotComm(u: Vec, v: Vec, n: nat)
    requires n <= |u| && n <= |v|
    ensures Dot(u, v, n) == Dot(v, u, n)
  {
    hide Mul, Add;
    if n > 0 {
      DotComm(u, v, n - 1);
      MulComm(u[n - 1], v[n - 1]);
    }
  }

  lemma {:induction false} DotAdd(u: Vec, w: Vec, v: Vec, n: nat)
    requires n <= |u| == |w| && n <= |v|
    ensures Dot(VAdd(u, w), v, n) == Add(Dot(u, v, n), Dot(w, v, n))
  {
    hide Mul, Add, VAdd;
    if n == 0 {
      AddLaws(0, 0, 0);
    } else {
      DotAdd(u, w, v, n - 1);
      MulAdd(u[n - 1], w[n - 1], v[n - 1]);
      AddSwap(Dot(u, v, n - 1), Dot(w, v, n - 1), Mul(u[n - 1], v[n - 1]), Mul(w[n - 1], v[n - 1]));
    }
  }

  lemma {:induction false} DotScale(c: byte, u: Vec, v: Vec, n: nat)
    requires n <= |u| && n <= |v|
    ensures Dot(Scale(c, u), v, n) == Mul(c, Dot(u, v, n))
  {
    hide Mul, Add, Scale;
    if n == 0 {
      MulZero(c, 0);
    } else {
      DotScale(c, u, v, n - 1);
      MulAssoc(c, u[n - 1], v[n - 1]);
      MulAdd(Dot(u, v, n - 1), Mul(u[n - 1], v[n - 1]), c);
    }
  }

  lemma {:induction false} DotZero(u: Vec, v: Vec, n: nat)
    requires n <= |u| && n <= |v|
    requires forall i :: 0 <= i < n ==> v[i] == 0
    ensures Dot(u, v, n) == 0 && Dot(v, u, n) == 0
  {
    hide Mul, Add;
    if n > 0 {
      DotZero(u, v, n - 1);
      MulZero(u[n - 1], 0);
      AddLaws(0, 0, 0);
    }
  }

  lemma {:induction false} DotUnit(u: Vec, v: Vec, r: nat, n: nat)
    requires n <= |u| && n <= |v|
    requires IsUnit(u, r)
    ensures Dot(u, v, n) == if r < n then v[r] else 0
  {
    hide Mul, Add;
    if n > 0 {
      DotUnit(u, v, r, n - 1);
      MulOne(v[n - 1]);
      MulZero(v[n - 1], 0);
      AddLaws(0, v[n - 1], 0);
      if r < n { AddLaws(v[r], 0, 0); }
    }
  }

  /** Setting one zero coordinate adds one product. */
  lemma {:induction false} DotSet(u: Vec, v: Vec, p: nat, x: byte, n: nat)
    requires n <= |u| && n <= |v| && p < |v| && v[p] == 0
    ensures Dot(u, v[p := x], n) == if p < n then Add(Dot(u, v, n), Mul(u[p], x)) else Dot(u, v, n)
  {
    hide Mul, Add;
    if n > 0 {
      DotSet(u, v, p, x, n - 1);
      var d, a := Dot(u, v, n - 1), Mul(u[n - 1], v[n - 1]);
      if p == n - 1 {
        MulZero(u[p], 0);
        AddLaws(d, 0, 0);
      } else if p < n - 1 {
        var b := Mul(u[p], x);
        AddLaws(d, b, a);
        AddLaws(b, a, a);
        AddLaws(d, a, b);
      }
    }
  }

  lemma {:induction false} DotFront(u: Vec, v: Vec, n: nat)
    requires 0 < n <= |u| && n <= |v|
    ensures Dot(u, v, n) == Add(Mul(u[0], v[0]), Dot(u[1..], v[1..], n - 1))
  {
    hide Mul, Add;
    if n == 1 {
      AddLaws(Mul(u[0], v[0]), 0, 0);
    } else {
      DotFront(u, v, n - 1);
      AddLaws(Mul(u[0], v[0]), Dot(u[1..], v[1..], n - 2), Mul(u[n - 1], v[n - 1]));
    }
  }

  lemma ApplyAdd(a: Matrix, x: Vec, y: Vec)
    requires |x| == |y| && forall i :: 0 <= i < |a| ==> |x| <= |a[i]|
    ensures Apply(a, VAdd(x, y)) == VAdd(Apply(a, x), Apply(a, y))
  {
    hide Mul, Add, Dot;
    forall i | 0 <= i < |a|
      ensures Apply(a, VAdd(x, y))[i] == VAdd(Apply(a, x), Apply(a, y))[i]
    {
      DotComm(a[i], VAdd(x, y), |x|);
      DotComm(a[i], x, |x|);
      DotComm(a[i], y, |x|);
      DotAdd(x, y, a[i], |x|);
    }
  }

  /** The product `c * b` of a row and a matrix, applied to `s`, is `c` applied to `b * s`. */
  lemma {:induction false} RowTimesMatrix(c: Vec, b: Matrix, row: Vec, s: Vec, n: nat)
    requires n <= |c| && n <= |b| && |row| == |s|
    requires forall i :: 0 <= i < |b| ==> |b[i]| == |row|
    requires forall k :: 0 <= k < |row| ==> row[k] == Dot(c, Column(b, k), n)
    ensures Dot(row, s, |s|) == Dot(c, Apply(b, s), n)
    decreases n
  {
    hide Mul, Add, Apply, Column, VAdd, Scale;
    if n == 0 {
      DotZero(s, row, |s|);
    } else {
      var before := seq(|row|, k requires 0 <= k < |row| => Dot(c, Column(b, k), n - 1));
      RowTimesMatrix(c, b, before, s, n - 1);
      var last := Scale(c[n - 1], b[n - 1]);
      DotScale(c[n - 1], b[n - 1], s, |s|);
      DotAdd(before, last, s, |s|);
      assert row == VAdd(before, last);
    }
  }

  // ---- Row operations ----

  function ScaleRow(m: Matrix, r: nat, c: byte): Matrix
    requires r < |m|
  {
    m[r := Scale(c, m[r])]
  }

  /** Add `f` times row `s` to row `r`. */
  function AddRow(m: Matrix, r: nat, s: nat, f: byte): Matrix
    requires r < |m| && s < |m| && |m[r]| == |m[s]|
  {
    m[r := VAdd(m[r], Scale(f, m[s]))]
  }

  function SwapRows(m: Matrix, r: nat, s: nat): Matrix
    requires r < |m| && s < |m|
  {
    m[r := m[s]][s := m[r]]
  }

  /** What elimination keeps true of the working matrix `w` and the accumulated operations `b`, for
      the matrix `a` it started from: `b * a == w`, no vector is killed by `w` alone, and `b` is
      nonsingular. */
  ghost predicate Reduction(w: Matrix, b: Matrix, a: Matrix, n: nat) {
    && IsMatrix(w, n, n) && IsMatrix(b, n, n) && IsMatrix(a, n, n)
    && (forall x: Vec, r: nat {:trigger Dot(w[r], x, n)} :: |x| == n && r < n ==>
          Dot(w[r], x, n) == Dot(b[r], Apply(a, x), n))
    && (forall x: Vec {:trigger Kills(w, x)} :: |x| == n && Kills(w, x) ==> Kills(a, x))
    && Nonsingular(b, n)
  }

  lemma ReductionScale(w: Matrix, b: Matrix, a: Matrix, n: nat, r: nat, c: byte)
    requires Reduction(w, b, a, n) && r < n && c != 0
    ensures Reduction(ScaleRow(w, r, c), ScaleRow(b, r, c), a, n)
  {
    hide Mul, Add, Dot, Apply;
    var w', b' := ScaleRow(w, r, c), ScaleRow(b, r, c);
    forall x: Vec, i: nat {:trigger Dot(w'[i], x, n)} | |x| == n && i < n
      ensures Dot(w'[i], x, n) == Dot(b'[i], Apply(a, x), n)
    {
      assert Dot(w[i], x, n) == Dot(b[i], Apply(a, x), n);
      DotScale(c, w[r], x, n);
      DotScale(c, b[r], Apply(a, x), n);
    }
    forall x: Vec {:trigger Kills(w', x)} | |x| == n && Kills(w', x)
      ensures Kills(w, x)
    {
      ScaleKernel(w, n, r, c, x);
    }
    forall x: Vec {:trigger Kills(b', x)} | |x| == n && Kills(b', x)
      ensures Kills(b, x)
    {
      ScaleKernel(b, n, r, c, x);
    }
  }

  lemma ScaleKernel(m: Matrix, n: nat, r: nat, c: byte, x: Vec)
    requires IsMatrix(m, n, n) && r < n && c != 0 && |x| == n
    requires Kills(ScaleRow(m, r, c), x)
    ensures Kills(m, x)
  {
    hide Mul, Add, Dot;
    var m' := ScaleRow(m, r, c);
    forall i | 0 <= i < n
      ensures Dot(m[i], x, n) == 0
    {
      assert Dot(m'[i], x, n) == 0;
      DotScale(c, m[r], x, n);
      MulZero(c, Dot(m[r], x, n));
    }
  }

  lemma ReductionAdd(w: Matrix, b: Matrix, a: Matrix, n: nat, r: nat, s: nat, f: byte)
    requires Reduction(w, b, a, n) && r < n && s < n && r != s
    ensures Reduction(AddRow(w, r, s, f), AddRow(b, r, s, f), a, n)
  {
    hide Mul, Add, Dot, Apply;
    var w', b' := AddRow(w, r, s, f), AddRow(b, r, s, f);
    forall x: Vec, i: nat {:trigger Dot(w'[i], x, n)} | |x| == n && i < n
      ensures Dot(w'[i], x, n) == Dot(b'[i], Apply(a, x), n)
    {
      assert Dot(w[i], x, n) == Dot(b[i], Apply(a, x), n);
      assert Dot(w[s], x, n) == Dot(b[s], Apply(a, x), n);
      DotAddScaled(w[r], w[s], f, x, n);
      DotAddScaled(b[r], b[s], f, Apply(a, x), n);
    }
    forall x: Vec {:trigger Kills(w', x)} | |x| == n && Kills(w', x)
      ensures Kills(w, x)
    {
      AddKernel(w, n, r, s, f, x);
    }
    forall x: Vec {:trigger Kills(b', x)} | |x| == n && Kills(b', x)
      ensures Kills(b, x)
    {
      AddKernel(b, n, r, s, f, x);
    }
  }

  lemma DotAddScaled(u: Vec, w: Vec, f: byte, v: Vec, n: nat)
    requires n <= |u| == |w| && n <= |v|
    ensures Dot(VAdd(u, Scale(f, w)), v, n) == Add(Dot(u, v, n), Mul(f, Dot(w, v, n)))
  {
    hide Mul, Add, Dot;
    DotAdd(u, Scale(f, w), v, n);
    DotScale(f, w, v, n);
  }

  lemma AddKernel(m: Matrix, n: nat, r: nat, s: nat, f: byte, x: Vec)
    requires IsMatrix(m, n, n) && r < n && s < n && r != s && |x| == n
    requires Kills(AddRow(m, r, s, f), x)
    ensures Kills(m, x)
  {
    hide Mul, Add, Dot;
    var m' := AddRow(m, r, s, f);
    forall i | 0 <= i < n
      ensures Dot(m[i], x, n) == 0
    {
      assert Dot(m'[i], x, n) == 0;
      assert Dot(m'[s], x, n) == 0;
      DotAddScaled(m[r], m[s], f, x, n);
      MulZero(f, 0);
      AddLaws(Dot(m[r], x, n), 0, 0);
    }
  }

  lemma ReductionSwap(w: Matrix, b: Matrix, a: Matrix, n: nat, r: nat, s: nat)
    requires Reduction(w, b, a, n) && r < n && s < n
    ensures Reduction(SwapRows(w, r, s), SwapRows(b, r, s), a, n)
  {
    hide Mul, Add, Dot, Apply;
    var w', b' := SwapRows(w, r, s), SwapRows(b, r, s);
    forall x: Vec, i: nat {:trigger Dot(w'[i], x, n)} | |x| == n && i < n
      ensures Dot(w'[i], x, n) == Dot(b'[i], Apply(a, x), n)
    {
      var j := if i == r then s else if i == s then r else i;
      assert Dot(w[j], x, n) == Dot(b[j], Apply(a, x), n);
    }
    forall x: Vec {:trigger Kills(w', x)} | |x| == n && Kills(w', x)
      ensures Kills(w, x)
    {
      SwapKernel(w, n, r, s, x);
    }
    forall x: Vec {:trigger Kills(b', x)} | |x| == n && Kills(b', x)
      ensures Kills(b, x)
    {
      SwapKernel(b, n, r, s, x);
    }
  }

  lemma SwapKernel(m: Matrix, n: nat, r: nat, s: nat, x: Vec)
    requires IsMatrix(m, n, n) && r < n && s < n && |x| == n
    requires Kills(SwapRows(m, r, s), x)
    ensures Kills(m, x)
  {
    hide Mul, Add, Dot;
    var m' := SwapRows(m, r, s);
    forall i | 0 <= i < n
      ensures Dot(m[i], x, n) == 0
    {
      var j := if i == r then s else if i == s then r else i;
      assert Dot(m'[j], x, n) == 0;
    }
  }

  lemma ReductionStart(a: Matrix, id: Matrix, n: nat)
    requires IsMatrix(a, n, n) && IsMatrix(id, n, n)
    requires forall r :: 0 <= r < n ==> IsUnit(id[r], r)
    ensures Reduction(a, id, a, n)
  {
    hide Mul, Add, Dot, Apply;
    forall x: Vec, r: nat {:trigger Dot(a[r], x, n)} | |x| == n && r < n
      ensures Dot(a[r], x, n) == Dot(id[r], Apply(a, x), n)
    {
      DotUnit(id[r], Apply(a, x), r, n);
    }
    forall x: Vec {:trigger Kills(id, x)} | |x| == n && Kills(id, x)
      ensures IsZero(x)
    {
      forall r | 0 <= r < n
        ensures x[r] == 0
      {
        DotUnit(id[r], x, r, n);
        assert Dot(id[r], x, |x|) == 0;
      }
    }
  }

  /** The first `k` columns of `w` are those of the identity. */
  ghost predicate Cleared(w: Matrix, n: nat, k: nat)
    requires IsMatrix(w, n, n) && k <= n
  {
    forall r, c :: 0 <= r < n && 0 <= c < k ==> w[r][c] == if r == c then 1 else 0
  }

  /** Elimination that reaches the identity has found a left inverse of a nonsingular matrix. */
  lemma ReductionDone(w: Matrix, b: Matrix, a: Matrix, n: nat)
    requires Reduction(w, b, a, n) && Cleared(w, n, n)
    ensures LeftInverse(b, a, n) && Nonsingular(a, n) && Nonsingular(b, n)
  {
    hide Mul, Add, Dot, Apply;
    forall x: Vec {:trigger Apply(a, x)} | |x| == n
      ensures Apply(b, Apply(a, x)) == x
    {
      forall r | 0 <= r < n
        ensures Apply(b, Apply(a, x))[r] == x[r]
      {
        assert IsUnit(w[r], r);
        DotUnit(w[r], x, r, n);
        assert Dot(w[r], x, n) == Dot(b[r], Apply(a, x), n);
      }
    }
    LeftInverseMeansNonsingular(b, a, n);
  }

  lemma LeftInverseMeansNonsingular(b: Matrix, a: Matrix, n: nat)
    requires IsMatrix(b, n, n) && IsMatrix(a, n, n) && LeftInverse(b, a, n)
    ensures Nonsingular(a, n)
  {
    hide Mul, Add, Dot, Apply;
    forall x: Vec {:trigger Kills(a, x)} | |x| == n && Kills(a, x)
      ensures IsZero(x)
    {
      var y := Apply(a, x);
      forall r | 0 <= r < n
        ensures x[r] == 0
      {
        assert y[r] == 0;
        DotZero(b[r], y, n);
        assert Apply(b, y)[r] == Dot(b[r], y, n);
      }
    }
  }

  /** A column with no pivot exhibits a vector that the original matrix kills. */
  lemma NoPivotMeansSingular(w: Matrix, b: Matrix, a: Matrix, n: nat, k: nat)
    requires Reduction(w, b, a, n) && k < n && Cleared(w, n, k)
    requires forall r :: k <= r < n ==> w[r][k] == 0
    ensures !Nonsingular(a, n)
  {
    hide Mul, Add, Dot, Apply;
    var x := seq(n, i requires 0 <= i < n => if i < k then w[i][k] else if i == k then 1 else 0);
    forall r | 0 <= r < n
      ensures Dot(w[r], x, n) == 0
    {
      NoPivotRow(w, n, k, r, x, n);
    }
    assert Kills(w, x);
    assert x[k] == 1;
    assert Kills(a, x) && !IsZero(x);
  }

  lemma {:induction false} NoPivotRow(w: Matrix, n: nat, k: nat, r: nat, x: Vec, j: nat)
    requires IsMatrix(w, n, n) && k < n && r < n && |x| == n && j <= n && Cleared(w, n, k)
    requires forall i :: k <= i < n ==> w[i][k] == 0
    requires forall i :: 0 <= i < n ==> x[i] == if i < k then w[i][k] else if i == k then 1 else 0
    ensures Dot(w[r], x, j) == if r < j <= k then w[r][k] else 0
  {
    hide Mul, Add;
    if j > 0 {
      NoPivotRow(w, n, k, r, x, j - 1);
      var c := w[r][k];
      MulOne(c);
      MulOne(x[j - 1]);
      MulZero(x[j - 1], 0);
      MulZero(w[r][j - 1], 0);
      AddLaws(c, 0, 0);
      AddLaws(0, 0, 0);
    }
  }

  /** A nonsingular left inverse is also a right inverse. */
  lemma LeftInverseIsRightInverse(b: Matrix, a: Matrix, n: nat)
    requires IsMatrix(b, n, n) && IsMatrix(a, n, n)
    requires LeftInverse(b, a, n) && Nonsingular(b, n)
    ensures LeftInverse(a, b, n)
  {
    hide Mul, Add, Dot, Apply, VAdd;
    forall y: Vec {:trigger Apply(b, y)} | |y| == n
      ensures Apply(a, Apply(b, y)) == y
    {
      var z := Apply(a, Apply(b, y));
      var d := VAdd(z, y);
      ApplyAdd(b, z, y);
      assert Apply(b, z) == Apply(b, y);
      forall r | 0 <= r < n
        ensures Dot(b[r], d, |d|) == 0
      {
        assert Apply(b, d)[r] == Add(Apply(b, y)[r], Apply(b, y)[r]);
        AddLaws(Apply(b, y)[r], 0, 0);
      }
      assert Kills(b, d);
      forall r | 0 <= r < n
        ensures z[r] == y[r]
      {
        AddCancel(z[r], y[r]);
      }
    }
  }
}
